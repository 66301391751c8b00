/**
 The two message filters of the event loop: `event_filter`, installed on the
 connection for signals (src/bluetooth_eventloop.c:534-580), and
 `agent_event_filter`, the pairing agent's method handler
 (src/bluetooth_eventloop.c:583-671). Logging and the property parsers the
 signal branches call are outside the model; what is modelled is which branch
 a message takes, the handler result and the replies sent.
 */
module Filters {
  import opened Optional
  import opened Bytes
  import opened Bus

  /** AGENT_INTERFACE. */
  const AgentInterface: string := "org.bluez.Agent1"

  /** The PIN every RequestPinCode is answered with. */
  const Passkey: string := "0000"

  /** A method return sent back to the caller, by its arguments. */
  datatype Reply = Reply(args: seq<Arg>)

  datatype Outcome = Outcome(result: HandlerResult, sent: seq<Reply>)

  /** The branches of the agent's `if` chain, in source order. */
  datatype AgentRequest =
    | Cancel | Authorize | RequestPinCode | RequestPasskey | DisplayPasskey
    | RequestConfirmation | Release | AuthorizeService | RequestAuthorization
    | DisplayPinCode | UnknownRequest

  /** The agent method each member name selects. */
  function AgentMethod(member: string): (r: AgentRequest)
    ensures r == Cancel <==> member == "Cancel"
    ensures r == RequestPinCode <==> member == "RequestPinCode"
    ensures r == Release <==> member == "Release"
    ensures r == RequestConfirmation <==> member == "RequestConfirmation"
  {
    if member == "Cancel" then Cancel
    else if member == "Authorize" then Authorize
    else if member == "RequestPinCode" then RequestPinCode
    else if member == "RequestPasskey" then RequestPasskey
    else if member == "DisplayPasskey" then DisplayPasskey
    else if member == "RequestConfirmation" then RequestConfirmation
    else if member == "Release" then Release
    else if member == "AuthorizeService" then AuthorizeService
    else if member == "RequestAuthorization" then RequestAuthorization
    else if member == "DisplayPinCode" then DisplayPinCode
    else UnknownRequest
  }

  /** A method call addressed to the agent: on AGENT_INTERFACE, or with no interface at all. */
  predicate ForAgent(m: Message) {
    m.iface.None? || m.iface.value == AgentInterface
  }

  /** The branch a method call takes; anything addressed to another interface is unknown. */
  function AgentRequestOf(m: Message): (r: AgentRequest)
    requires m.kind == MethodCall
    ensures r != UnknownRequest ==> ForAgent(m)
    ensures r == Cancel <==> IsMethodCall(m, AgentInterface, "Cancel")
    ensures r == Release <==> IsMethodCall(m, AgentInterface, "Release")
    ensures r == RequestPinCode <==> IsMethodCall(m, AgentInterface, "RequestPinCode")
  {
    if ForAgent(m) then AgentMethod(m.member) else UnknownRequest
  }

  /**
   `agent_event_filter`. `canReply` says whether the bus library can create a
   method return for `m`. Only Cancel, Release and RequestPinCode are answered
   and only they report the message handled; every other agent method,
   RequestConfirmation included whatever its arguments, falls through to
   NOT_YET_HANDLED.
   */
  function AgentEventFilter(m: Message, canReply: bool): (r: Outcome)
    ensures r.result == Handled <==>
      && m.kind == MethodCall && ForAgent(m)
      && (m.member == "Cancel" || m.member == "Release" || m.member == "RequestPinCode")
      && canReply
    ensures r.result == NotYetHandled ==> r.sent == []
    ensures r.result == Handled && m.member == "RequestPinCode" ==> r.sent == [Reply([Str(Passkey)])]
    ensures r.result == Handled && m.member != "RequestPinCode" ==> r.sent == [Reply([])]
  {
    if m.kind != MethodCall then Outcome(NotYetHandled, [])
    else
      match AgentRequestOf(m)
      case Cancel | Release =>
        if canReply then Outcome(Handled, [Reply([])]) else Outcome(NotYetHandled, [])
      case RequestPinCode =>
        if canReply then Outcome(Handled, [Reply([Str(Passkey)])]) else Outcome(NotYetHandled, [])
      // RequestConfirmation reads and prints its object path and passkey; a failed
      // read jumps to the same NOT_YET_HANDLED exit the successful one falls into.
      case _ => Outcome(NotYetHandled, [])
  }

  /** The signals `event_filter` tells apart, in the order it tests them. */
  datatype SignalKind =
    | AdapterPropertyChanged | DevicePropertyChanged | InterfacesAdded | InterfacesRemoved | OtherSignal

  const ObjectManagerInterface: string := "org.freedesktop.DBus.ObjectManager"

  function SignalKindOf(m: Message): (k: SignalKind)
    requires m.kind == Signal
    ensures k == AdapterPropertyChanged <==> m.iface == Some(AdapterInterface) && m.member == "PropertyChanged"
    ensures k == DevicePropertyChanged <==> m.iface == Some(DeviceInterface) && m.member == "PropertyChanged"
    ensures k == InterfacesAdded <==> m.iface == Some(ObjectManagerInterface) && m.member == "InterfacesAdded"
    ensures k == InterfacesRemoved <==> m.iface == Some(ObjectManagerInterface) && m.member == "InterfacesRemoved"
  {
    if IsSignal(m, AdapterInterface, "PropertyChanged") then AdapterPropertyChanged
    else if IsSignal(m, DeviceInterface, "PropertyChanged") then DevicePropertyChanged
    else if IsSignal(m, ObjectManagerInterface, "InterfacesAdded") then InterfacesAdded
    else if IsSignal(m, ObjectManagerInterface, "InterfacesRemoved") then InterfacesRemoved
    else OtherSignal
  }

  datatype EventOutcome = EventOutcome(result: HandlerResult, kind: Option<SignalKind>)

  /**
   `event_filter`: every signal is consumed, whichever branch it takes (or
   none); any other message is left for other handlers. It never replies.
   */
  function EventFilter(m: Message): (r: EventOutcome)
    ensures r.result == Handled <==> m.kind == Signal
    ensures r.kind.Some? <==> m.kind == Signal
    ensures m.kind == Signal ==> r.kind == Some(SignalKindOf(m))
  {
    if m.kind != Signal then EventOutcome(NotYetHandled, None)
    else EventOutcome(Handled, Some(SignalKindOf(m)))
  }

  /** A RequestConfirmation is never answered and never consumed, whatever its arguments. */
  lemma ConfirmationNeverHandled(m: Message, canReply: bool)
    requires IsMethodCall(m, AgentInterface, "RequestConfirmation")
    ensures AgentEventFilter(m, canReply) == Outcome(NotYetHandled, [])
  {
  }

  /** The agent answers exactly the calls it reports handled, one reply each. */
  lemma AgentRepliesExactlyWhenHandled(m: Message, canReply: bool)
    ensures var r := AgentEventFilter(m, canReply);
      |r.sent| == (if r.result == Handled then 1 else 0)
  {
  }

  /**
   Addressed to an interface other than AGENT_INTERFACE, or when no reply can be
   built, the agent handles nothing.
   */
  lemma AgentIgnoresOtherInterfaces(m: Message, canReply: bool)
    requires (m.iface.Some? && m.iface.value != AgentInterface) || !canReply
    ensures AgentEventFilter(m, canReply) == Outcome(NotYetHandled, [])
  {
  }

  /**
   A call that names no interface is taken to be for the agent: Cancel, Release
   and RequestPinCode without an interface are answered and handled like the
   same calls on AGENT_INTERFACE.
   */
  lemma MissingInterfaceIsAgents(m: Message, canReply: bool)
    requires m.kind == MethodCall && m.iface.None?
    ensures AgentEventFilter(m, canReply) == AgentEventFilter(m.(iface := Some(AgentInterface)), canReply)
  {
  }

  /** The two filters partition the traffic: no message is consumed by both. */
  lemma FiltersDisjoint(m: Message, canReply: bool)
    ensures !(EventFilter(m).result == Handled && AgentEventFilter(m, canReply).result == Handled)
  {
  }
}
