/**
 The event loop's watch table: the parallel arrays `pollData` (the `pollfd`
 records handed to `poll`) and `watchData` (the matching bus-library watch
 pointers), with a live count `pollMemberCount` and a capacity `pollDataSize`
 (src/bluetooth_eventloop.c:30-34).

 The model keeps one entry per live slot, so `|entries|` is the live count; the
 stale slots beyond it are never read by the source and are not modelled.
 */
module Watches {
  import opened Optional
  import opened Bytes
  import opened Flags

  /** An opaque bus-library watch pointer. */
  type Handle = Uint64

  /** Slot `i` of the table: `pollData[i]` together with `watchData[i]`. */
  datatype Entry = Entry(fd: Int32, events: Word16, revents: Word16, handle: Handle)

  /** An all-zero `short`. */
  const NoEvents: Word16 := Bits(0, 16)

  datatype Table = Table(entries: seq<Entry>, size: nat) {

    function Count(): nat {
      |entries|
    }

    /** The live count never exceeds the capacity and no (fd, events) pair is live twice. */
    ghost predicate Valid() {
      |entries| <= size && Unique(entries)
    }
  }

  predicate Matches(e: Entry, fd: Int32, events: Word16) {
    e.fd == fd && e.events == events
  }

  ghost predicate Unique(es: seq<Entry>) {
    forall i, j :: 0 <= i < j < |es| ==> !Matches(es[j], es[i].fd, es[i].events)
  }

  ghost predicate Present(es: seq<Entry>, fd: Int32, events: Word16) {
    exists i :: 0 <= i < |es| && Matches(es[i], fd, events)
  }

  /** `y` is the lowest index holding (fd, events). */
  ghost predicate FirstMatch(es: seq<Entry>, y: int, fd: Int32, events: Word16) {
    && 0 <= y < |es|
    && Matches(es[y], fd, events)
    && forall j :: 0 <= j < y ==> !Matches(es[j], fd, events)
  }

  /** The linear scans of src/bluetooth_eventloop.c:130-136 and 174-185. */
  function Find(es: seq<Entry>, fd: Int32, events: Word16): (r: Option<nat>)
    ensures r.Some? ==> FirstMatch(es, r.value, fd, events)
    ensures r.None? <==> !Present(es, fd, events)
  {
    if |es| == 0 then None
    else if Matches(es[0], fd, events) then Some(0)
    else
      var rest := Find(es[1..], fd, events);
      if rest.None? then None else Some(rest.value + 1)
  }

  /** The `short` events a watch's `unsigned int` flags are stored under (src/bluetooth_eventloop.c:129, 172). */
  function EventsOf(c: FlagBits, flags: Uint32): Word16 {
    DbusFlagsToUnixEvents(c, Bits(flags, 32))
  }

  /**
   `handleWatchAdd` once fd, flags and handle have been read
   (src/bluetooth_eventloop.c:129-163). `allocOk` says whether both growth
   allocations succeed; it only matters when the table is full.
   */
  function Add(t: Table, c: FlagBits, fd: Int32, flags: Uint32, handle: Handle, allocOk: bool): (r: Table)
    ensures Present(t.entries, fd, EventsOf(c, flags)) ==> r == t
    ensures t.Count() == t.size && !allocOk ==> r == t
    ensures !Present(t.entries, fd, EventsOf(c, flags)) && (t.Count() != t.size || allocOk) ==>
      && |r.entries| == t.Count() + 1
      && r.entries[..t.Count()] == t.entries
      && r.entries[t.Count()] == Entry(fd, EventsOf(c, flags), NoEvents, handle)
      && r.size == (if t.Count() == t.size then t.size + 1 else t.size)
  {
    var events := EventsOf(c, flags);
    if Find(t.entries, fd, events).Some? then t
    else if t.Count() == t.size && !allocOk then t
    else
      var size := if t.Count() == t.size then t.size + 1 else t.size;
      Table(t.entries + [Entry(fd, events, NoEvents, handle)], size)
  }

  /** Slot `y` overwritten by the last element, and the last slot dropped. */
  function SwapRemove<T>(s: seq<T>, y: nat): (r: seq<T>)
    requires y < |s|
    ensures |r| == |s| - 1
  {
    s[y := s[|s| - 1]][..|s| - 1]
  }

  /**
   `handleWatchRemove` once fd and flags have been read
   (src/bluetooth_eventloop.c:172-186): the first slot holding (fd, events) is
   overwritten by the last live slot and the count drops by one.
   */
  function Remove(t: Table, c: FlagBits, fd: Int32, flags: Uint32): (r: Table)
    ensures r.size == t.size
    ensures !Present(t.entries, fd, EventsOf(c, flags)) ==> r == t
    ensures Present(t.entries, fd, EventsOf(c, flags)) ==>
      && |r.entries| == t.Count() - 1
      && forall y :: FirstMatch(t.entries, y, fd, EventsOf(c, flags)) ==>
        && (forall j :: 0 <= j < |r.entries| && j != y ==> r.entries[j] == t.entries[j])
        && (y < |r.entries| ==> r.entries[y] == t.entries[|r.entries|])
  {
    match Find(t.entries, fd, EventsOf(c, flags))
    case None => t
    case Some(y) => Table(SwapRemove(t.entries, y), t.size)
  }

  /** Adding keeps the count within the capacity and keeps (fd, events) pairs unique. */
  lemma AddKeepsValid(t: Table, c: FlagBits, fd: Int32, flags: Uint32, handle: Handle, allocOk: bool)
    requires t.Valid()
    ensures Add(t, c, fd, flags, handle, allocOk).Valid()
  {
    var r := Add(t, c, fd, flags, handle, allocOk);
    if r != t {
      var n := t.Count();
      forall i, j | 0 <= i < j < |r.entries|
        ensures !Matches(r.entries[j], r.entries[i].fd, r.entries[i].events)
      {
        assert r.entries[i] == t.entries[i];
        if j < n {
          assert r.entries[j] == t.entries[j];
        }
      }
    }
  }

  /** Removing keeps the count within the capacity and keeps (fd, events) pairs unique. */
  lemma RemoveKeepsValid(t: Table, c: FlagBits, fd: Int32, flags: Uint32)
    requires t.Valid()
    ensures Remove(t, c, fd, flags).Valid()
  {
    var r := Remove(t, c, fd, flags);
    var ev := EventsOf(c, flags);
    if Present(t.entries, fd, ev) {
      var y := Find(t.entries, fd, ev).value;
      var n := |r.entries|;
      forall i, j | 0 <= i < j < n
        ensures !Matches(r.entries[j], r.entries[i].fd, r.entries[i].events)
      {
        var i' := if i == y then n else i;
        var j' := if j == y then n else j;
        assert r.entries[i] == t.entries[i'] && r.entries[j] == t.entries[j'];
        assert i' != j';
        if i' < j' {
          assert !Matches(t.entries[j'], t.entries[i'].fd, t.entries[i'].events);
        } else {
          assert !Matches(t.entries[i'], t.entries[j'].fd, t.entries[j'].events);
        }
      }
    }
  }

  /** In a valid table, removal leaves no live entry holding (fd, events). */
  lemma RemoveMakesAbsent(t: Table, c: FlagBits, fd: Int32, flags: Uint32)
    requires t.Valid()
    ensures !Present(Remove(t, c, fd, flags).entries, fd, EventsOf(c, flags))
  {
    var r := Remove(t, c, fd, flags);
    var ev := EventsOf(c, flags);
    if Present(t.entries, fd, ev) {
      var y := Find(t.entries, fd, ev).value;
      var n := |r.entries|;
      forall i | 0 <= i < n
        ensures !Matches(r.entries[i], fd, ev)
      {
        var i' := if i == y then n else i;
        assert r.entries[i] == t.entries[i'];
        if i' < y {
          assert !Matches(t.entries[y], t.entries[i'].fd, t.entries[i'].events);
        } else {
          assert !Matches(t.entries[i'], t.entries[y].fd, t.entries[y].events);
        }
      }
    }
  }

  /** Moving the last element over slot `y` and dropping the last slot removes one copy of `s[y]`. */
  lemma SwapRemoveMultiset<T>(s: seq<T>, y: nat)
    requires y < |s|
    ensures multiset(SwapRemove(s, y)) + multiset{s[y]} == multiset(s)
  {
    if y == |s| - 1 {
      assert s == SwapRemove(s, y) + [s[y]];
    } else {
      SwapRemoveInner(s, y);
    }
  }

  lemma SwapRemoveInner<T>(s: seq<T>, y: nat)
    requires y < |s| - 1
    ensures multiset(SwapRemove(s, y)) + multiset{s[y]} == multiset(s)
  {
    var n := |s| - 1;
    SwapRemoveParts(s, y);
    SplitAround(s, y);
    MultisetOfParts(s[..y], s[y], s[y + 1..n], s[n]);
  }

  lemma SwapRemoveParts<T>(s: seq<T>, y: nat)
    requires y < |s| - 1
    ensures SwapRemove(s, y) == s[..y] + [s[|s| - 1]] + s[y + 1..|s| - 1]
  {
  }

  lemma SplitAround<T>(s: seq<T>, y: nat)
    requires y < |s| - 1
    ensures s == s[..y] + [s[y]] + s[y + 1..|s| - 1] + [s[|s| - 1]]
  {
  }

  lemma MultisetOfParts<T>(a: seq<T>, x: T, m: seq<T>, z: T)
    ensures multiset(a + [z] + m) + multiset{x} == multiset(a + [x] + m + [z])
  {
  }

  /** Removal takes out the entry at the first match and keeps every other entry. */
  lemma RemoveTakesSlot(t: Table, c: FlagBits, fd: Int32, flags: Uint32, y: nat)
    requires Find(t.entries, fd, EventsOf(c, flags)) == Some(y)
    ensures y < |t.entries| && Matches(t.entries[y], fd, EventsOf(c, flags))
    ensures multiset(Remove(t, c, fd, flags).entries) + multiset{t.entries[y]} == multiset(t.entries)
  {
    SwapRemoveMultiset(t.entries, y);
  }

  /**
   Removal takes exactly one entry out of the table, one holding (fd, events),
   and keeps every other entry.
   */
  lemma RemoveTakesOne(t: Table, c: FlagBits, fd: Int32, flags: Uint32)
    requires Present(t.entries, fd, EventsOf(c, flags))
    ensures exists y :: 0 <= y < |t.entries| && Matches(t.entries[y], fd, EventsOf(c, flags)) &&
      multiset(Remove(t, c, fd, flags).entries) + multiset{t.entries[y]} == multiset(t.entries)
  {
    var y := Find(t.entries, fd, EventsOf(c, flags)).value;
    RemoveTakesSlot(t, c, fd, flags, y);
  }

  /** After an add that is not dropped for lack of memory, the pair is live. */
  lemma AddMakesPresent(t: Table, c: FlagBits, fd: Int32, flags: Uint32, handle: Handle, allocOk: bool)
    requires t.Count() != t.size || allocOk
    ensures Present(Add(t, c, fd, flags, handle, allocOk).entries, fd, EventsOf(c, flags))
  {
    var r := Add(t, c, fd, flags, handle, allocOk);
    if !Present(t.entries, fd, EventsOf(c, flags)) {
      assert Matches(r.entries[t.Count()], fd, EventsOf(c, flags));
    }
  }
}
