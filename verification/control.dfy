/**
 The control channel between the bus library's watch callbacks and the event
 loop thread (src/bluetooth_eventloop.c:16-19, 67-128, 166-172, 203-234).

 Writers put a one-byte tag on the socket followed by the command's fields in
 host order; the reader takes one tag byte at a time and, for ADD and REMOVE,
 reads the fields that follow. The model assumes a single writer whose
 records arrive whole and in write order (the source has no send lock).
 */
module Control {
  import opened Bytes
  import opened Flags
  import opened Watches

  const ExitTag: byte := 1
  const AddTag: byte := 2
  const RemoveTag: byte := 3
  const WakeupTag: byte := 4

  datatype Command =
    | Exit
    | AddWatch(fd: Int32, flags: Uint32, handle: Handle)
    | RemoveWatch(fd: Int32, flags: Uint32)
    | Wakeup
      /** A tag byte the reader's `switch` has no case for. */
    | Unknown(tag: byte)

  /** Writers only ever produce the four known records; `Unknown` carries an unknown tag. */
  predicate WellFormed(cmd: Command) {
    cmd.Unknown? ==> cmd.tag < ExitTag || WakeupTag < cmd.tag
  }

  function TagOf(cmd: Command): byte {
    match cmd
    case Exit => ExitTag
    case AddWatch(_, _, _) => AddTag
    case RemoveWatch(_, _) => RemoveTag
    case Wakeup => WakeupTag
    case Unknown(tag) => tag
  }

  /** A sequence of commands one writer can send: all well formed, EXIT at most at the end. */
  ghost predicate Framed(cmds: seq<Command>) {
    && (forall i :: 0 <= i < |cmds| ==> WellFormed(cmds[i]))
    && (forall i :: 0 <= i < |cmds| - 1 ==> !cmds[i].Exit?)
  }

  /** The number of bytes a record starting with `tag` occupies. */
  function RecordLength(tag: byte): (n: nat)
    ensures n >= 1
  {
    if tag == AddTag then 17 else if tag == RemoveTag then 9 else 1
  }

  function Encode(cmd: Command): (s: seq<byte>)
    ensures |s| >= 1 && s[0] == TagOf(cmd)
    ensures WellFormed(cmd) ==> |s| == RecordLength(s[0])
  {
    match cmd
    case Exit => [ExitTag]
    case AddWatch(fd, flags, handle) =>
      [AddTag] + EncodeInt32(fd) + EncodeUint32(flags) + EncodeUint64(handle)
    case RemoveWatch(fd, flags) => [RemoveTag] + EncodeInt32(fd) + EncodeUint32(flags)
    case Wakeup => [WakeupTag]
    case Unknown(tag) => [tag]
  }

  function EncodeAll(cmds: seq<Command>): seq<byte>
  {
    if |cmds| == 0 then [] else Encode(cmds[0]) + EncodeAll(cmds[1..])
  }

  /** The fields of one whole record, as `handleWatchAdd`/`handleWatchRemove` read them. */
  function Parse(s: seq<byte>): Command
    requires |s| >= 1 && |s| == RecordLength(s[0])
  {
    var tag := s[0];
    if tag == ExitTag then Exit
    else if tag == AddTag then
      AddWatch(DecodeInt32(s[1..5]), DecodeUint32(s[5..9]), DecodeUint64(s[9..17]))
    else if tag == RemoveTag then RemoveWatch(DecodeInt32(s[1..5]), DecodeUint32(s[5..9]))
    else if tag == WakeupTag then Wakeup
    else Unknown(tag)
  }

  /** Why the reader stopped: the socket was empty, EXIT was read, or a record is incomplete. */
  datatype Halt = Drained | Exited | Blocked

  datatype Decoded = Decoded(cmds: seq<Command>, halt: Halt)

  /**
   What the reader takes out of the bytes `s` waiting on the socket: whole
   records in order, stopping after EXIT. A record whose fields have not all
   arrived leaves the reader blocked in `read`.
   */
  function Decode(s: seq<byte>): (d: Decoded)
    ensures forall i :: 0 <= i < |d.cmds| ==> WellFormed(d.cmds[i])
    ensures forall i :: 0 <= i < |d.cmds| - 1 ==> !d.cmds[i].Exit?
    ensures d.halt == Exited <==> |d.cmds| > 0 && d.cmds[|d.cmds| - 1].Exit?
    decreases |s|
  {
    if |s| == 0 then Decoded([], Drained)
    else
      var n := RecordLength(s[0]);
      if |s| < n then Decoded([], Blocked)
      else
        var cmd := Parse(s[..n]);
        if cmd.Exit? then Decoded([Exit], Exited)
        else
          var rest := Decode(s[n..]);
          Decoded([cmd] + rest.cmds, rest.halt)
  }

  /** The table change one command makes; `grow(n)` says whether growing to `n` slots succeeds. */
  function Apply(t: Table, c: FlagBits, cmd: Command, grow: nat -> bool): Table
  {
    match cmd
    case AddWatch(fd, flags, handle) => Add(t, c, fd, flags, handle, grow(t.Count() + 1))
    case RemoveWatch(fd, flags) => Remove(t, c, fd, flags)
    case _ => t
  }

  function ApplyAll(t: Table, c: FlagBits, cmds: seq<Command>, grow: nat -> bool): Table
    decreases |cmds|
  {
    if |cmds| == 0 then t else ApplyAll(Apply(t, c, cmds[0], grow), c, cmds[1..], grow)
  }

  /** WAKEUP, EXIT and unknown tags leave the table as it is. */
  lemma ApplyOnlyAddRemove(t: Table, c: FlagBits, cmd: Command, grow: nat -> bool)
    requires !cmd.AddWatch? && !cmd.RemoveWatch?
    ensures Apply(t, c, cmd, grow) == t
  {
  }

  /** Every command keeps the table invariants. */
  lemma {:induction false} ApplyAllKeepsValid(t: Table, c: FlagBits, cmds: seq<Command>, grow: nat -> bool)
    requires t.Valid()
    ensures ApplyAll(t, c, cmds, grow).Valid()
    decreases |cmds|
  {
    if |cmds| > 0 {
      match cmds[0] {
        case AddWatch(fd, flags, handle) => AddKeepsValid(t, c, fd, flags, handle, grow(t.Count() + 1));
        case RemoveWatch(fd, flags) => RemoveKeepsValid(t, c, fd, flags);
        case _ =>
      }
      ApplyAllKeepsValid(Apply(t, c, cmds[0], grow), c, cmds[1..], grow);
    }
  }

  lemma ApplyAllCons(t: Table, c: FlagBits, cmd: Command, more: seq<Command>, grow: nat -> bool)
    ensures ApplyAll(t, c, [cmd] + more, grow) == ApplyAll(Apply(t, c, cmd, grow), c, more, grow)
  {
    assert ([cmd] + more)[1..] == more;
  }

  /** How `Decode` reads a stream that begins with EXIT or with an incomplete record. */
  lemma DecodeStops(s: seq<byte>)
    requires |s| >= 1
    ensures s[0] == ExitTag ==> Decode(s) == Decoded([Exit], Exited)
    ensures |s| < RecordLength(s[0]) ==> Decode(s) == Decoded([], Blocked)
  {
  }

  /** How `Decode` reads a stream that begins with a whole record other than EXIT. */
  lemma DecodeStep(t: Table, c: FlagBits, s: seq<byte>, grow: nat -> bool)
    requires |s| >= 1 && |s| >= RecordLength(s[0]) && s[0] != ExitTag
    ensures var n := RecordLength(s[0]);
      && ApplyAll(t, c, Decode(s).cmds, grow)
         == ApplyAll(Apply(t, c, Parse(s[..n]), grow), c, Decode(s[n..]).cmds, grow)
      && Decode(s).halt == Decode(s[n..]).halt
  {
    var n := RecordLength(s[0]);
    ApplyAllCons(t, c, Parse(s[..n]), Decode(s[n..]).cmds, grow);
  }

  /** The table change of one whole record other than EXIT, in terms of the fields read after its tag. */
  lemma ApplyRecord(t: Table, c: FlagBits, s: seq<byte>, grow: nat -> bool)
    requires |s| >= 1 && |s| >= RecordLength(s[0]) && s[0] != ExitTag
    ensures var r := Apply(t, c, Parse(s[..RecordLength(s[0])]), grow);
      && (s[0] == AddTag ==>
           r == Add(t, c, DecodeInt32(s[1..5]), DecodeUint32(s[5..9]), DecodeUint64(s[9..17]), grow(t.Count() + 1)))
      && (s[0] == RemoveTag ==> r == Remove(t, c, DecodeInt32(s[1..5]), DecodeUint32(s[5..9])))
      && (s[0] != AddTag && s[0] != RemoveTag ==> r == t)
  {
    if s[0] == AddTag {
      assert s[..17][1..5] == s[1..5] && s[..17][5..9] == s[5..9] && s[..17][9..17] == s[9..17];
    } else if s[0] == RemoveTag {
      assert s[..9][1..5] == s[1..5] && s[..9][5..9] == s[5..9];
    }
  }

  /**
   The event loop's control branch (src/bluetooth_eventloop.c:203-234): read
   tags until the socket is empty, applying ADD and REMOVE to the table,
   ignoring WAKEUP and unknown tags, and stopping at EXIT.
   */
  method DrainControl(t: Table, c: FlagBits, s: seq<byte>, grow: nat -> bool) returns (r: Table, halt: Halt)
    ensures r == ApplyAll(t, c, Decode(s).cmds, grow)
    ensures halt == Decode(s).halt
  {
    r := t;
    var pos := 0;
    while pos < |s|
      invariant 0 <= pos <= |s|
      invariant ApplyAll(t, c, Decode(s).cmds, grow) == ApplyAll(r, c, Decode(s[pos..]).cmds, grow)
      invariant Decode(s).halt == Decode(s[pos..]).halt
      decreases |s| - pos
    {
      var rest := s[pos..];
      var tag := rest[0];
      var n := RecordLength(tag);
      DecodeStops(rest);
      if tag == ExitTag {
        return r, Exited;
      }
      if |rest| < n {
        // the reader waits in read() for the fields still missing
        return r, Blocked;
      }
      DecodeStep(r, c, rest, grow);
      ApplyRecord(r, c, rest, grow);
      if tag == AddTag {
        var fd := DecodeInt32(rest[1..5]);
        var flags := DecodeUint32(rest[5..9]);
        var handle := DecodeUint64(rest[9..17]);
        r := Add(r, c, fd, flags, handle, grow(r.Count() + 1));
      } else if tag == RemoveTag {
        var fd := DecodeInt32(rest[1..5]);
        var flags := DecodeUint32(rest[5..9]);
        r := Remove(r, c, fd, flags);
      } else {
        // WAKEUP and tags the switch does not list: the byte is consumed, nothing changes
      }
      assert rest[n..] == s[pos + n..];
      pos := pos + n;
    }
    return r, Drained;
  }

  /** The fields of an encoded ADD record decode to the command's own. */
  lemma ParseAdd(fd: Int32, flags: Uint32, handle: Handle)
    ensures Parse(Encode(AddWatch(fd, flags, handle))) == AddWatch(fd, flags, handle)
  {
    var e := Encode(AddWatch(fd, flags, handle));
    var a, b, h := EncodeInt32(fd), EncodeUint32(flags), EncodeUint64(handle);
    assert e == [AddTag] + a + b + h;
    assert e[1..5] == a;
    assert e[5..9] == b;
    assert e[9..17] == h;
    DecodeEncodeInt32(fd);
    DecodeEncodeUint32(flags);
    DecodeEncodeUint64(handle);
  }

  /** The fields of an encoded REMOVE record decode to the command's own. */
  lemma ParseRemove(fd: Int32, flags: Uint32)
    ensures Parse(Encode(RemoveWatch(fd, flags))) == RemoveWatch(fd, flags)
  {
    var e := Encode(RemoveWatch(fd, flags));
    assert e[1..5] == EncodeInt32(fd);
    assert e[5..9] == EncodeUint32(flags);
    DecodeEncodeInt32(fd);
    DecodeEncodeUint32(flags);
  }

  /** A well-formed record parses back to its command. */
  lemma ParseEncode(cmd: Command)
    requires WellFormed(cmd)
    ensures Parse(Encode(cmd)) == cmd
  {
    match cmd
    case AddWatch(fd, flags, handle) => ParseAdd(fd, flags, handle);
    case RemoveWatch(fd, flags) => ParseRemove(fd, flags);
    case _ =>
  }

  /** One record followed by anything decodes to that record first. */
  lemma DecodeRecord(cmd: Command, more: seq<byte>)
    requires WellFormed(cmd)
    ensures cmd.Exit? ==> Decode(Encode(cmd) + more) == Decoded([Exit], Exited)
    ensures !cmd.Exit? ==> Decode(Encode(cmd) + more) == Decoded([cmd] + Decode(more).cmds, Decode(more).halt)
  {
    var e := Encode(cmd);
    var s := e + more;
    var n := |e|;
    assert s[0] == e[0];
    assert s[..n] == e;
    assert s[n..] == more;
    ParseEncode(cmd);
  }

  /** Every whole record is the encoding of what it parses to: parsing loses no byte. */
  lemma EncodeParse(s: seq<byte>)
    requires |s| >= 1 && |s| == RecordLength(s[0])
    ensures Encode(Parse(s)) == s
  {
    if s[0] == AddTag {
      EncodeDecodeInt32(s[1..5]);
      EncodeDecodeUint32(s[5..9]);
      EncodeDecodeUint64(s[9..17]);
      assert s == [s[0]] + s[1..5] + s[5..9] + s[9..17];
    } else if s[0] == RemoveTag {
      EncodeDecodeInt32(s[1..5]);
      EncodeDecodeUint32(s[5..9]);
      assert s == [s[0]] + s[1..5] + s[5..9];
    } else {
      assert s == [s[0]];
    }
  }

  /**
   The reader loses no byte: when it drains the socket, the commands it read
   encode back to exactly the bytes that were waiting.
   */
  lemma {:induction false} DecodeLosesNothing(s: seq<byte>)
    requires Decode(s).halt == Drained
    ensures EncodeAll(Decode(s).cmds) == s
    decreases |s|
  {
    if |s| > 0 {
      var n := RecordLength(s[0]);
      var cmd := Parse(s[..n]);
      var rest := Decode(s[n..]);
      assert Decode(s) == Decoded([cmd] + rest.cmds, rest.halt);
      DecodeLosesNothing(s[n..]);
      EncodeParse(s[..n]);
      EncodeAllCons([cmd] + rest.cmds, []);
      assert ([cmd] + rest.cmds)[1..] == rest.cmds;
      assert s == s[..n] + s[n..];
    }
  }

  /** The encoding of a non-empty list: the head's record, then the rest. */
  lemma EncodeAllCons(cmds: seq<Command>, more: seq<byte>)
    requires |cmds| > 0
    ensures EncodeAll(cmds) + more == Encode(cmds[0]) + (EncodeAll(cmds[1..]) + more)
  {
  }

  /** A non-empty list is its head followed by its tail, with or without a last element appended. */
  lemma HeadTail<T>(s: seq<T>, x: T)
    requires |s| > 0
    ensures s == [s[0]] + s[1..]
    ensures s + [x] == [s[0]] + (s[1..] + [x])
  {
  }

  lemma FramedTail(cmds: seq<Command>)
    requires |cmds| > 0 && Framed(cmds)
    ensures Framed(cmds[1..])
  {
    assert forall i :: 0 <= i < |cmds| - 1 ==> cmds[1..][i] == cmds[i + 1];
  }

  /**
   Framing round trip: the reader gets back, in order, exactly the commands one
   writer sent, and it stops after an EXIT.
   */
  lemma {:induction false} DecodeEncodeAll(cmds: seq<Command>)
    requires Framed(cmds)
    ensures Decode(EncodeAll(cmds)).cmds == cmds
    ensures Decode(EncodeAll(cmds)).halt == (if |cmds| > 0 && cmds[|cmds| - 1].Exit? then Exited else Drained)
    decreases |cmds|
  {
    if |cmds| > 0 {
      var head, rest := cmds[0], cmds[1..];
      EncodeAllCons(cmds, []);
      assert EncodeAll(cmds) == Encode(head) + EncodeAll(rest);
      DecodeRecord(head, EncodeAll(rest));
      if !head.Exit? {
        FramedTail(cmds);
        DecodeEncodeAll(rest);
        HeadTail(cmds, Exit);
      }
    }
  }

  /** The commands before an EXIT: well formed and none of them EXIT. */
  ghost predicate BeforeExit(cmds: seq<Command>) {
    forall i :: 0 <= i < |cmds| ==> WellFormed(cmds[i]) && !cmds[i].Exit?
  }

  lemma BeforeExitTail(cmds: seq<Command>)
    requires |cmds| > 0 && BeforeExit(cmds)
    ensures BeforeExit(cmds[1..]) && WellFormed(cmds[0]) && !cmds[0].Exit?
  {
    assert forall i :: 0 <= i < |cmds| - 1 ==> cmds[1..][i] == cmds[i + 1];
  }

  /** Nothing written after EXIT is read. */
  lemma {:induction false} NothingReadAfterExit(cmds: seq<Command>, junk: seq<byte>)
    requires BeforeExit(cmds)
    ensures Decode(EncodeAll(cmds) + (Encode(Exit) + junk)) == Decoded(cmds + [Exit], Exited)
    decreases |cmds|
  {
    if |cmds| == 0 {
      assert EncodeAll(cmds) + (Encode(Exit) + junk) == Encode(Exit) + junk;
      DecodeRecord(Exit, junk);
    } else {
      var head, rest := cmds[0], cmds[1..];
      var tail := EncodeAll(rest) + (Encode(Exit) + junk);
      EncodeAllCons(cmds, Encode(Exit) + junk);
      BeforeExitTail(cmds);
      DecodeRecord(head, tail);
      NothingReadAfterExit(rest, junk);
      HeadTail(cmds, Exit);
    }
  }

  /** A record whose fields have only partly arrived is never acted on. */
  lemma PartialRecordBlocks(cmd: Command, k: nat)
    requires cmd.AddWatch? || cmd.RemoveWatch?
    requires 0 < k < |Encode(cmd)|
    ensures Decode(Encode(cmd)[..k]) == Decoded([], Blocked)
  {
    assert Encode(cmd)[..k][0] == Encode(cmd)[0];
  }

  /** The watch as the add/remove/toggle callbacks see it. */
  datatype Watch = Watch(fd: Int32, flags: Uint32, handle: Handle, enabled: bool)

  /** `dbusAddWatch`: an ADD record, written only for an enabled watch. */
  function AddWatchBytes(w: Watch): (s: seq<byte>)
    ensures w.enabled <==> |s| > 0
  {
    if w.enabled then Encode(AddWatch(w.fd, w.flags, w.handle)) else []
  }

  /** `dbusRemoveWatch`: a REMOVE record, whether or not the watch is enabled. */
  function RemoveWatchBytes(w: Watch): seq<byte> {
    Encode(RemoveWatch(w.fd, w.flags))
  }

  /** `dbusToggleWatch`. */
  function ToggleWatchBytes(w: Watch): seq<byte> {
    if w.enabled then AddWatchBytes(w) else RemoveWatchBytes(w)
  }

  /** `dbusWakeup`. */
  const WakeupBytes: seq<byte> := Encode(Wakeup)

  /** The EXIT record `stopEventLoop` writes (src/bluetooth_eventloop.c:412-413). */
  const ExitBytes: seq<byte> := Encode(Exit)

  /** The calls the bus library makes on the loop's behalf. */
  datatype Callback = OnAdd(w: Watch) | OnRemove(w: Watch) | OnToggle(w: Watch) | OnWakeup

  function CallbackBytes(cb: Callback): seq<byte> {
    match cb
    case OnAdd(w) => AddWatchBytes(w)
    case OnRemove(w) => RemoveWatchBytes(w)
    case OnToggle(w) => ToggleWatchBytes(w)
    case OnWakeup => WakeupBytes
  }

  /** The commands a callback means to deliver. */
  function CallbackCommands(cb: Callback): (cmds: seq<Command>)
    ensures forall i :: 0 <= i < |cmds| ==> cmds[i].AddWatch? || cmds[i].RemoveWatch? || cmds[i].Wakeup?
    ensures forall i :: 0 <= i < |cmds| ==> WellFormed(cmds[i]) && !cmds[i].Exit?
  {
    match cb
    case OnAdd(w) => if w.enabled then [AddWatch(w.fd, w.flags, w.handle)] else []
    case OnRemove(w) => [RemoveWatch(w.fd, w.flags)]
    case OnToggle(w) =>
      if w.enabled then [AddWatch(w.fd, w.flags, w.handle)] else [RemoveWatch(w.fd, w.flags)]
    case OnWakeup => [Wakeup]
  }

  function WriterBytes(cbs: seq<Callback>): seq<byte> {
    if |cbs| == 0 then [] else CallbackBytes(cbs[0]) + WriterBytes(cbs[1..])
  }

  function WriterCommands(cbs: seq<Callback>): (cmds: seq<Command>)
    ensures forall i :: 0 <= i < |cmds| ==> cmds[i].AddWatch? || cmds[i].RemoveWatch? || cmds[i].Wakeup?
    ensures forall i :: 0 <= i < |cmds| ==> WellFormed(cmds[i]) && !cmds[i].Exit?
  {
    if |cbs| == 0 then [] else CallbackCommands(cbs[0]) + WriterCommands(cbs[1..])
  }

  lemma {:induction false} EncodeAllAppend(a: seq<Command>, b: seq<Command>)
    ensures EncodeAll(a + b) == EncodeAll(a) + EncodeAll(b)
    decreases |a|
  {
    if |a| == 0 {
      assert a + b == b;
    } else {
      assert (a + b)[0] == a[0];
      assert (a + b)[1..] == a[1..] + b;
      EncodeAllAppend(a[1..], b);
    }
  }

  /** Each callback writes the encoding of the commands it means. */
  lemma CallbackBytesEncode(cb: Callback)
    ensures CallbackBytes(cb) == EncodeAll(CallbackCommands(cb))
  {
    var cmds := CallbackCommands(cb);
    assert |cmds| == 1 ==> EncodeAll(cmds) == Encode(cmds[0]) + EncodeAll([]);
  }

  lemma {:induction false} WriterBytesEncode(cbs: seq<Callback>)
    ensures WriterBytes(cbs) == EncodeAll(WriterCommands(cbs))
    decreases |cbs|
  {
    if |cbs| > 0 {
      WriterBytesEncode(cbs[1..]);
      CallbackBytesEncode(cbs[0]);
      EncodeAllAppend(CallbackCommands(cbs[0]), WriterCommands(cbs[1..]));
    }
  }

  /**
   One writer's callbacks, in order, reach the reader as exactly the commands
   they mean, and the reader drains the socket completely.
   */
  lemma WriterRoundTrip(cbs: seq<Callback>)
    ensures Decode(WriterBytes(cbs)) == Decoded(WriterCommands(cbs), Drained)
  {
    WriterBytesEncode(cbs);
    DecodeEncodeAll(WriterCommands(cbs));
  }

  /** `stopEventLoop`'s EXIT, written after whole records, ends the reader's drain. */
  lemma StopEndsDrain(cbs: seq<Callback>, junk: seq<byte>)
    ensures Decode(WriterBytes(cbs) + ExitBytes + junk) == Decoded(WriterCommands(cbs) + [Exit], Exited)
  {
    WriterBytesEncode(cbs);
    assert WriterBytes(cbs) + ExitBytes + junk == WriterBytes(cbs) + (Encode(Exit) + junk);
    NothingReadAfterExit(WriterCommands(cbs), junk);
  }

  /**
   A toggle leaves the watch's (fd, events) pair live exactly when the watch is
   enabled, as long as the table is valid and any growth it needs succeeds.
   */
  lemma ToggleSetsPresence(t: Table, c: FlagBits, w: Watch, grow: nat -> bool)
    requires t.Valid()
    requires t.Count() != t.size || grow(t.Count() + 1)
    ensures var r := ApplyAll(t, c, Decode(ToggleWatchBytes(w)).cmds, grow);
      Present(r.entries, w.fd, EventsOf(c, w.flags)) <==> w.enabled
  {
    var cmd := if w.enabled then AddWatch(w.fd, w.flags, w.handle) else RemoveWatch(w.fd, w.flags);
    DecodeEncodeAll([cmd]);
    assert EncodeAll([cmd]) == Encode(cmd) + EncodeAll([]);
    assert ToggleWatchBytes(w) == EncodeAll([cmd]);
    if w.enabled {
      AddMakesPresent(t, c, w.fd, w.flags, w.handle, grow(t.Count() + 1));
    } else {
      RemoveMakesAbsent(t, c, w.fd, w.flags);
    }
  }
}
