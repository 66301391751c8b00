/**
 The two readiness-flag vocabularies of the event loop and the converters
 between them (src/bluetooth_eventloop.c:53-65).

 `poll(2)` speaks POLLIN/POLLOUT/POLLERR/POLLHUP in a `short`; the bus library's
 watches speak DBUS_WATCH_READABLE/WRITABLE/ERROR/HANGUP in an `unsigned int`.
 Both sets of constants live in system headers outside this model. Each is a
 single bit, so the model takes each as its bit POSITION (below 15, so that
 the `short` conversions never truncate or sign-extend a meaningful bit), and a
 flags word as its sequence of bits, least significant first. A test such as
 `flags & POLLIN` is then the bit of `flags` at POLLIN's position.

 The converters' names are swapped relative to what their bodies do: the one
 called "unix events to dbus flags" reads watch bits and produces poll bits,
 and the other reads poll bits and produces watch bits. The model follows the
 bodies and keeps the names.
 */
module Flags {

  /** A bit position inside a `short` below its sign bit. */
  type Position = k: nat | k < 15

  /** A C `short` as its 16 bits. */
  type Word16 = s: seq<bool> | |s| == 16 witness seq(16, i => false)

  /** A C `unsigned int` as its 32 bits. */
  type Word32 = s: seq<bool> | |s| == 32 witness seq(32, i => false)

  datatype FlagBits = FlagBits(
    pollIn: Position, pollOut: Position, pollErr: Position, pollHup: Position,
    readable: Position, writable: Position, error: Position, hangup: Position)
  {
    /** The four constants of each vocabulary are four different bits. */
    predicate Valid() {
      && Distinct(pollIn, pollOut, pollErr, pollHup)
      && Distinct(readable, writable, error, hangup)
    }

    predicate IsPollBit(i: nat) {
      i == pollIn || i == pollOut || i == pollErr || i == pollHup
    }

    predicate IsWatchBit(i: nat) {
      i == readable || i == writable || i == error || i == hangup
    }
  }

  predicate Distinct(a: nat, b: nat, c: nat, d: nat) {
    a != b && a != c && a != d && b != c && b != d && c != d
  }

  /** The bits of `x` in a word of `width` bits, least significant first. */
  function Bits(x: nat, width: nat): (s: seq<bool>)
    ensures |s| == width
    ensures width > 0 ==> (s[0] <==> x % 2 == 1)
  {
    if width == 0 then [] else [x % 2 == 1] + Bits(x / 2, width - 1)
  }

  /** `x` restricted to the bits `keep` selects. */
  function Restrict(x: seq<bool>, keep: nat -> bool): (r: seq<bool>)
    ensures |r| == |x|
    ensures forall i :: 0 <= i < |x| ==> (r[i] <==> x[i] && keep(i))
  {
    seq(|x|, i requires 0 <= i < |x| => x[i] && keep(i))
  }

  /**
   The body of `unix_events_to_dbus_flags`: each WATCH bit present in
   `events` contributes the matching POLL bit to the result.
   */
  function UnixEventsToDbusFlags(c: FlagBits, events: Word16): (r: Word32)
    ensures forall i :: 0 <= i < 32 && r[i] ==> c.IsPollBit(i)
    ensures events[c.readable] ==> r[c.pollIn]
    ensures events[c.writable] ==> r[c.pollOut]
    ensures events[c.error] ==> r[c.pollErr]
    ensures events[c.hangup] ==> r[c.pollHup]
  {
    seq(32, i =>
      || (i == c.pollIn && events[c.readable])
      || (i == c.pollOut && events[c.writable])
      || (i == c.pollErr && events[c.error])
      || (i == c.pollHup && events[c.hangup]))
  }

  /**
   The body of `dbus_flags_to_unix_events`: each POLL bit present in `flags`
   contributes the matching WATCH bit to the (short) result.
   */
  function DbusFlagsToUnixEvents(c: FlagBits, flags: Word32): (r: Word16)
    ensures forall i :: 0 <= i < 16 && r[i] ==> c.IsWatchBit(i)
    ensures flags[c.pollIn] ==> r[c.readable]
    ensures flags[c.pollOut] ==> r[c.writable]
    ensures flags[c.pollErr] ==> r[c.error]
    ensures flags[c.pollHup] ==> r[c.hangup]
  {
    seq(16, i =>
      || (i == c.readable && flags[c.pollIn])
      || (i == c.writable && flags[c.pollOut])
      || (i == c.error && flags[c.pollErr])
      || (i == c.hangup && flags[c.pollHup]))
  }

  /** With distinct bits, each result bit is present exactly when its source bit is. */
  lemma UnixEventsToDbusFlagsExact(c: FlagBits, events: Word16)
    requires c.Valid()
    ensures var r := UnixEventsToDbusFlags(c, events);
      && (r[c.pollIn] <==> events[c.readable])
      && (r[c.pollOut] <==> events[c.writable])
      && (r[c.pollErr] <==> events[c.error])
      && (r[c.pollHup] <==> events[c.hangup])
  {
  }

  lemma DbusFlagsToUnixEventsExact(c: FlagBits, flags: Word32)
    requires c.Valid()
    ensures var r := DbusFlagsToUnixEvents(c, flags);
      && (r[c.readable] <==> flags[c.pollIn])
      && (r[c.writable] <==> flags[c.pollOut])
      && (r[c.error] <==> flags[c.pollErr])
      && (r[c.hangup] <==> flags[c.pollHup])
  {
  }

  /** Converting watch bits to poll bits and back keeps exactly the four watch bits. */
  lemma WatchBitsRoundTrip(c: FlagBits, events: Word16)
    requires c.Valid()
    ensures DbusFlagsToUnixEvents(c, UnixEventsToDbusFlags(c, events)) == Restrict(events, c.IsWatchBit)
  {
  }

  /** Converting poll bits to watch bits and back keeps exactly the four poll bits. */
  lemma PollBitsRoundTrip(c: FlagBits, flags: Word32)
    requires c.Valid()
    ensures UnixEventsToDbusFlags(c, DbusFlagsToUnixEvents(c, flags)) == Restrict(flags, c.IsPollBit)
  {
  }
}
