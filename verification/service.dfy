/**
 The request helpers of the Bluetooth service (bluetooth_service.c): the
 mapping from a pairing reply to a bond result code, the return-code rules of
 the blocking request helpers, and the asynchronous pair request.

 The bus itself is a parameter: whether there is a connection, whether the
 library could compose the request, and the error (if any) the reply carried.
 */
module Service {
  import opened Optional
  import opened Bytes
  import opened Bus

  /** BOND_RESULT_* (include/bluetooth_common.h:156-164). */
  const BondError: int := -1
  const BondSuccess: int := 0
  const BondAuthFailed: int := 1
  const BondAuthRejected: int := 2
  const BondAuthCanceled: int := 3
  const BondRemoteDeviceDown: int := 4
  const BondDiscoveryInProgress: int := 5
  const BondAuthTimeout: int := 6
  const BondRepeatedAttempts: int := 7

  /** No result is reported: the bond is still being set up. */
  datatype PairOutcome = Pending | Reported(code: int)

  const InProgress: string := "org.bluez.Error.InProgress"

  /**
   The bluez error names that decide the code on their own, with that code.
   InProgress is absent: its code depends on the error message too.
   */
  const NamedCodes: map<string, int> := map[
    "org.bluez.Error.AuthenticationFailed" := BondAuthFailed,
    "org.bluez.Error.AuthenticationRejected" := BondAuthRejected,
    "org.bluez.Error.AuthenticationCanceled" := BondAuthCanceled,
    "org.bluez.Error.ConnectionAttemptFailed" := BondRemoteDeviceDown,
    "org.bluez.Error.AlreadyExists" := BondSuccess,
    "org.bluez.Error.RepeatedAttempts" := BondRepeatedAttempts,
    "org.bluez.Error.AuthenticationTimeout" := BondAuthTimeout
  ]

  /**
   `onStartPairDeviceResult`: the result code the pairing callback reports for
   the reply's error, or Pending when the reply says a bond is already in
   progress. Names and messages are compared as whole strings.
   */
  function OnStartPairDeviceResult(err: Option<BusError>): (r: PairOutcome)
    ensures r == Pending <==>
      err.Some? && err.value.name == InProgress && err.value.message == "Bonding in progress"
    ensures r.Reported? ==> BondError <= r.code <= BondRepeatedAttempts
    ensures err.None? ==> r == Reported(BondSuccess)
    ensures r == Reported(BondDiscoveryInProgress) <==>
      err.Some? && err.value.name == InProgress && err.value.message == "Discover in progress"
  {
    if err.None? then Reported(BondSuccess)
    else
      var name, message := err.value.name, err.value.message;
      if name == "org.bluez.Error.AuthenticationFailed" then Reported(BondAuthFailed)
      else if name == "org.bluez.Error.AuthenticationRejected" then Reported(BondAuthRejected)
      else if name == "org.bluez.Error.AuthenticationCanceled" then Reported(BondAuthCanceled)
      else if name == "org.bluez.Error.ConnectionAttemptFailed" then Reported(BondRemoteDeviceDown)
      else if name == "org.bluez.Error.AlreadyExists" then Reported(BondSuccess)
      else if name == InProgress && message == "Bonding in progress" then Pending
      else if name == InProgress && message == "Discover in progress" then Reported(BondDiscoveryInProgress)
      else if name == "org.bluez.Error.RepeatedAttempts" then Reported(BondRepeatedAttempts)
      else if name == "org.bluez.Error.AuthenticationTimeout" then Reported(BondAuthTimeout)
      else Reported(BondError)
  }

  /** Every name of the table is reported with the table's code, whatever the message. */
  lemma NamedErrorsMatchTable(err: BusError)
    requires err.name in NamedCodes
    ensures OnStartPairDeviceResult(Some(err)) == Reported(NamedCodes[err.name])
  {
  }

  /** Any name outside the table other than InProgress is reported as a plain error. */
  lemma UnknownNamesAreErrors(err: BusError)
    requires err.name !in NamedCodes && err.name != InProgress
    ensures OnStartPairDeviceResult(Some(err)) == Reported(BondError)
  {
  }

  /** Success is reported for a clean reply and for an already bonded device, and for nothing else. */
  lemma PairSucceedsExactly(err: Option<BusError>)
    ensures OnStartPairDeviceResult(err) == Reported(BondSuccess) <==>
      err.None? || err.value.name == "org.bluez.Error.AlreadyExists"
  {
    if err.Some? && err.value.name != "org.bluez.Error.AlreadyExists" {
      var name := err.value.name;
      assert name in NamedCodes ==> NamedCodes[name] != BondSuccess;
    }
  }

  /** An InProgress error whose message is neither known text is reported as a plain error. */
  lemma OtherInProgressIsError(message: string)
    requires message != "Bonding in progress" && message != "Discover in progress"
    ensures OnStartPairDeviceResult(Some(BusError(InProgress, message))) == Reported(BondError)
  {
  }

  /** A blocking method call: destination, object path, interface, member and arguments. */
  datatype Request = Request(destination: string, path: string, iface: string, member: string, args: seq<Arg>)

  /**
   What the bus does with one blocking request: whether a connection exists,
   whether `dbus_message_new_method_call` returns a message, and the error the
   reply carried.
   */
  datatype Transport = Transport(connected: bool, composes: bool, error: Option<BusError>)

  datatype SyncResult = SyncResult(ret: int, sent: Option<Request>)

  /**
   The shape shared by `_startDiscovery`, `_stopDiscovery`, `_connectDevice`,
   `_connectProfile` and `_addProfile`: no connection or no message gives -1
   without sending; otherwise the request is sent and the result is 0 exactly
   when no error came back.
   */
  function SyncCall(tr: Transport, req: Request): (r: SyncResult)
    ensures r.ret == 0 || r.ret == -1
    ensures r.ret == 0 <==> tr.connected && tr.composes && tr.error.None?
    ensures r.sent.Some? <==> tr.connected && tr.composes
    ensures r.sent.Some? ==> r.sent.value == req
  {
    if !tr.connected || !tr.composes then SyncResult(-1, None)
    else if tr.error.Some? then SyncResult(-1, Some(req))
    else SyncResult(0, Some(req))
  }

  function StartDiscovery(tr: Transport): (r: SyncResult)
    ensures r.ret == 0 <==> tr.connected && tr.composes && tr.error.None?
    ensures r.sent.Some? ==>
      && r.sent.value.path == AdapterPath && r.sent.value.iface == AdapterInterface
      && r.sent.value.member == "StartDiscovery" && r.sent.value.args == []
  {
    SyncCall(tr, Request(BluezService, AdapterPath, AdapterInterface, "StartDiscovery", []))
  }

  /** `strncmp(name, prefix, strlen(prefix)) == 0`. */
  predicate HasPrefix(s: string, prefix: string) {
    |prefix| <= |s| && s[..|prefix|] == prefix
  }

  /** The error bluez sends when there is no discovery to stop. */
  const NotAuthorized: string := "org.bluez.Error.NotAuthorized"

  /** `_stopDiscovery` also says whether the error was the "nothing to stop" one; that only changes the log. */
  datatype StopResult = StopResult(call: SyncResult, nothingToStop: bool)

  function StopDiscovery(tr: Transport): (r: StopResult)
    ensures r.call.ret == 0 <==> tr.connected && tr.composes && tr.error.None?
    ensures r.call.sent.Some? ==>
      && r.call.sent.value.path == AdapterPath && r.call.sent.value.iface == AdapterInterface
      && r.call.sent.value.member == "StopDiscovery" && r.call.sent.value.args == []
    ensures r.nothingToStop <==>
      tr.connected && tr.composes && tr.error.Some? && HasPrefix(tr.error.value.name, NotAuthorized)
  {
    var call := SyncCall(tr, Request(BluezService, AdapterPath, AdapterInterface, "StopDiscovery", []));
    var quiet := call.sent.Some? && tr.error.Some? && HasPrefix(tr.error.value.name, NotAuthorized);
    StopResult(call, quiet)
  }

  /** Being told there was nothing to stop is still a failed stop. */
  lemma NothingToStopStillFails(tr: Transport)
    requires StopDiscovery(tr).nothingToStop
    ensures StopDiscovery(tr).call.ret == -1
  {
  }

  function ConnectDevice(tr: Transport, devicePath: string): (r: SyncResult)
    ensures r.ret == 0 <==> tr.connected && tr.composes && tr.error.None?
    ensures r.sent.Some? ==>
      && r.sent.value.path == devicePath && r.sent.value.iface == DeviceInterface
      && r.sent.value.member == "Connect" && r.sent.value.args == []
  {
    SyncCall(tr, Request(BluezService, devicePath, DeviceInterface, "Connect", []))
  }

  function ConnectProfile(tr: Transport, devicePath: string, profile: string): (r: SyncResult)
    ensures r.ret == 0 <==> tr.connected && tr.composes && tr.error.None?
    ensures r.sent.Some? ==>
      && r.sent.value.path == devicePath && r.sent.value.iface == DeviceInterface
      && r.sent.value.member == "ConnectProfile" && r.sent.value.args == [Str(profile)]
  {
    SyncCall(tr, Request(BluezService, devicePath, DeviceInterface, "ConnectProfile", [Str(profile)]))
  }

  function AddProfile(tr: Transport, path: string, uuid: string, name: string, autoConnect: Int32): (r: SyncResult)
    ensures r.ret == 0 <==> tr.connected && tr.composes && tr.error.None?
    ensures r.sent.Some? ==>
      && r.sent.value.path == BluezBasePath && r.sent.value.iface == ProfileManagerInterface
      && r.sent.value.member == "RegisterProfile"
      && r.sent.value.args == [ObjectPath(path), Str(uuid), Options(name, autoConnect)]
  {
    var options := Options(name, autoConnect);
    SyncCall(tr, Request(BluezService, BluezBasePath, ProfileManagerInterface, "RegisterProfile",
      [ObjectPath(path), Str(uuid), options]))
  }

  /** The asynchronous Pair call `_startPaireDevice` issues, with its reply timeout in milliseconds. */
  datatype AsyncCall = AsyncCall(path: string, iface: string, member: string, timeoutMs: int, context: string)

  datatype PairStart = PairStart(ret: int, call: AsyncCall)

  /**
   `_startPaireDevice`. `accepted` says whether the bus library took the
   asynchronous call. The callback's context is a fresh copy of the device
   path, `strlen + 1` bytes, so the copy is never truncated.
   */
  function StartPairDevice(devicePath: string, accepted: bool): (r: PairStart)
    ensures r.ret == 0 <==> accepted
    ensures r.ret == 0 || r.ret == -1
    ensures r.call.context == devicePath
    ensures r.call.path == devicePath && r.call.iface == DeviceInterface && r.call.member == "Pair"
  {
    var len := |devicePath| + 1;
    var context := CopyBounded(devicePath, len);
    PairStart(if accepted then 0 else -1, AsyncCall(devicePath, DeviceInterface, "Pair", 5000, context))
  }

  /** `snprintf(dst, len, "%s", src)`: at most `len - 1` characters of `src`. */
  function CopyBounded(src: string, len: nat): (dst: string)
    requires len >= 1
    ensures |dst| <= len - 1
    ensures dst <= src
    ensures |src| < len ==> dst == src
    ensures |src| >= len ==> |dst| == len - 1
  {
    if |src| < len then src else src[..len - 1]
  }
}
