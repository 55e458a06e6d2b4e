/**
 The select back end of the event loop (event/select_event_handler.c): a swap-remove table of
 registered events beside three descriptor sets, and the scan that reports what select found.
 */
module SelectEvents {
  import opened Sequences

  const NONE: int := 0
  const READ: int := 1
  const WRITE: int := 2
  const ERROR: int := 16

  class Event {
    const fd: int
    var index: int
    var evType: int

    constructor (fd: int)
      ensures this.fd == fd
    {
      this.fd := fd;
      index, evType := 0, NONE;
    }
  }

  datatype Op = Enable | Disable | Other

  predicate HasFlag(evType: int, flag: int)
    requires flag > 0
  {
    evType / flag % 2 == 1
  }

  // What select leaves in its three sets.
  datatype Ready = Ready(readFds: set<int>, writeFds: set<int>, exceptFds: set<int>)

  predicate IsReady(fd: int, s: Ready) {
    fd in s.readFds || fd in s.writeFds || fd in s.exceptFds
  }

  function Bits(s: Ready): nat {
    |s.readFds| + |s.writeFds| + |s.exceptFds|
  }

  // The flags of a descriptor.
  function Flags(fd: int, s: Ready): (f: int)
    ensures f == NONE <==> !IsReady(fd, s)
    ensures (HasFlag(f, READ) <==> fd in s.readFds) && (HasFlag(f, WRITE) <==> fd in s.writeFds)
    ensures HasFlag(f, ERROR) <==> fd in s.exceptFds
  {
    (if fd in s.readFds then READ else NONE) + (if fd in s.writeFds then WRITE else NONE)
    + (if fd in s.exceptFds then ERROR else NONE)
  }

  // The ready ones of the registered events, in table order.
  ghost function ReadyOf(events: seq<Event>, s: Ready): (r: seq<Event>)
    ensures |r| <= |events|
    ensures forall i :: 0 <= i < |r| ==> IsReady(r[i].fd, s) && r[i] in events
    ensures forall i :: 0 <= i < |events| && IsReady(events[i].fd, s) ==> events[i] in r
  {
    if events == [] then [] else
      var before, last := events[..|events| - 1], events[|events| - 1];
      assert events == before + [last];
      ReadyOf(before, s) + (if IsReady(last.fd, s) then [last] else [])
  }

  // What a scan reports when select returned count: at most that many events.
  ghost function Reported(events: seq<Event>, s: Ready, count: int): (r: seq<Event>)
    ensures r <= ReadyOf(events, s)
    ensures |r| == if count <= 0 then 0 else if count < |ReadyOf(events, s)| then count else |ReadyOf(events, s)|
  {
    if count <= 0 then [] else if |ReadyOf(events, s)| <= count then ReadyOf(events, s) else ReadyOf(events, s)[..count]
  }

  ghost predicate Flagged(events: seq<Event>, s: Ready)
    reads set i | 0 <= i < |events| :: events[i]
  {
    forall i :: 0 <= i < |events| ==> events[i].evType == Flags(events[i].fd, s)
  }

  lemma ReadyStep(events: seq<Event>, s: Ready, i: nat)
    requires i < |events|
    ensures ReadyOf(events[..i + 1], s)
            == ReadyOf(events[..i], s) + (if IsReady(events[i].fd, s) then [events[i]] else [])
  {
    assert events[..i + 1][..i] == events[..i];
  }

  lemma {:induction false} ReadyPrefix(events: seq<Event>, s: Ready, i: nat)
    requires i <= |events|
    ensures ReadyOf(events[..i], s) <= ReadyOf(events, s)
    decreases |events|
  {
    if i < |events| {
      ReadyPrefix(events[..|events| - 1], s, i);
      assert events[..|events| - 1][..i] == events[..i];
    } else {
      assert events[..i] == events;
    }
  }

  // A scan that has count events, or has seen the whole table, has what it reports.
  lemma Stopped(events: seq<Event>, s: Ready, i: nat, count: nat)
    requires i <= |events| && 0 < count && |ReadyOf(events[..i], s)| <= count
    requires i == |events| || |ReadyOf(events[..i], s)| == count
    ensures Reported(events, s, count) == ReadyOf(events[..i], s)
  {
    ReadyPrefix(events, s, i);
    assert i == |events| ==> events[..i] == events;
  }

  ghost predicate DistinctFds(events: seq<Event>) {
    forall i, j :: 0 <= i < j < |events| ==> events[i].fd != events[j].fd
  }

  ghost function FdsOf(events: seq<Event>): (fds: set<int>) {
    set i | 0 <= i < |events| :: events[i].fd
  }

  lemma AddedFds(events: seq<Event>, ev: Event)
    requires DistinctFds(events)
    ensures DistinctFds(events + [ev]) <==> ev.fd !in FdsOf(events)
    ensures FdsOf(events + [ev]) == FdsOf(events) + {ev.fd}
  {
    assert forall i :: 0 <= i < |events| ==> (events + [ev])[i] == events[i];
    assert (events + [ev])[|events|] == ev;
  }

  lemma {:induction false} FdsCount(events: seq<Event>)
    requires DistinctFds(events)
    ensures |FdsOf(events)| == |events|
    decreases |events|
  {
    if events != [] {
      var before, last := events[..|events| - 1], events[|events| - 1];
      FdsCount(before);
      assert before + [last] == events;
      AddedFds(before, last);
    }
  }

  lemma {:induction false} ReadyDistinct(events: seq<Event>, s: Ready)
    requires DistinctFds(events)
    ensures DistinctFds(ReadyOf(events, s))
    decreases |events|
  {
    if events != [] {
      var before, last := events[..|events| - 1], events[|events| - 1];
      ReadyDistinct(before, s);
      var r := ReadyOf(before, s);
      forall j | 0 <= j < |r| ensures r[j].fd != last.fd {
        var i :| 0 <= i < |before| && before[i] == r[j];
      }
      AddedFds(ReadyOf(before, s), last);
    }
  }

  // There are no more ready events than bits, so a scan that stops at the bit count has them all.
  lemma ReadyCount(events: seq<Event>, s: Ready)
    requires DistinctFds(events)
    ensures |ReadyOf(events, s)| <= Bits(s)
  {
    ReadyDistinct(events, s);
    FdsCount(ReadyOf(events, s));
    var bits := s.readFds + s.writeFds + s.exceptFds;
    var r := ReadyOf(events, s);
    forall fd | fd in FdsOf(r) ensures fd in bits {
      var i :| 0 <= i < |r| && r[i].fd == fd;
    }
    SubsetSize(FdsOf(ReadyOf(events, s)), bits);
    UnionSize(s.readFds, s.writeFds);
    UnionSize(s.readFds + s.writeFds, s.exceptFds);
  }

  // With distinct descriptors, all of them registered, and the count select promises, the scan
  // reports an event for every bit, none of them twice.
  lemma {:induction false} ScanIsComplete(events: seq<Event>, s: Ready)
    requires DistinctFds(events) && s.readFds + s.writeFds + s.exceptFds <= FdsOf(events)
    ensures var r := Reported(events, s, Bits(s));
            r == ReadyOf(events, s) && DistinctFds(r) && FdsOf(r) == s.readFds + s.writeFds + s.exceptFds
  {
    ReadyCount(events, s);
    ReadyDistinct(events, s);
    var r := ReadyOf(events, s);
    forall fd | fd in s.readFds + s.writeFds + s.exceptFds ensures fd in FdsOf(r) {
      var i :| 0 <= i < |events| && events[i].fd == fd;
      assert IsReady(events[i].fd, s) && events[i] in r;
    }
    forall i | 0 <= i < |r| ensures r[i].fd in s.readFds + s.writeFds + s.exceptFds {
      assert IsReady(r[i].fd, s);
    }
  }

  lemma {:induction false} ReadyTwice(events: seq<Event>, s: Ready, i: nat, j: nat)
    requires i < j < |events| && IsReady(events[i].fd, s) && IsReady(events[j].fd, s)
    ensures |ReadyOf(events, s)| >= 2
    decreases |events|
  {
    var before := events[..|events| - 1];
    if j < |before| {
      ReadyTwice(before, s, i, j);
    } else {
      assert before[i] in ReadyOf(before, s);
    }
  }

  // Whatever select finds ready among the watched descriptors.
  ghost predicate AlwaysComplete(events: seq<Event>) {
    forall s: Ready :: s.readFds + s.writeFds + s.exceptFds <= FdsOf(events) ==>
      Reported(events, s, Bits(s)) == ReadyOf(events, s)
  }

  // The early exit never loses a ready event exactly when no two events share a descriptor: two that
  // do have one bit between them.
  lemma DistinctFdsDecide(events: seq<Event>)
    ensures AlwaysComplete(events) <==> DistinctFds(events)
  {
    if DistinctFds(events) {
      forall s: Ready | s.readFds + s.writeFds + s.exceptFds <= FdsOf(events)
        ensures Reported(events, s, Bits(s)) == ReadyOf(events, s)
      {
        ScanIsComplete(events, s);
      }
    } else {
      var i, j :| 0 <= i < j < |events| && events[i].fd == events[j].fd;
      var s := Ready({events[i].fd}, {}, {});
      ReadyTwice(events, s, i, j);
      assert Bits(s) == 1 && s.readFds + s.writeFds + s.exceptFds <= FdsOf(events);
    }
  }

  lemma SubsetSize<T>(a: set<T>, b: set<T>)
    requires a <= b
    ensures |a| <= |b|
  {
    assert |b - a| == |b| - |a|;
  }

  lemma UnionSize<T>(a: set<T>, b: set<T>)
    ensures |a + b| <= |a| + |b|
  {
    assert |a + b| == |a| + |b| - |a * b|;
  }

  class Handler {
    const list: array<Event?> // event_array
    var nevent: nat
    var maxfd: int
    var readFds: set<int>
    var writeFds: set<int>
    var exceptFds: set<int>

    ghost predicate Indexed()
      reads this`nevent, list, list[..]`index
      ensures Indexed() ==> nevent <= list.Length
    {
      nevent <= list.Length && forall i :: 0 <= i < nevent ==> list[i] != null && list[i].index == i
    }

    // The registered events in table order.
    ghost function Table(): (t: seq<Event>)
      requires Indexed()
      reads this`nevent, list, list[..]`index
      ensures |t| == nevent && forall i :: 0 <= i < nevent ==> t[i] == list[i]
    {
      list[..nevent]
    }

    // Descriptors are distinct and within select's range, and the three sets hold registered ones only.
    ghost predicate Watched(events: seq<Event>)
      reads this`maxfd, this`readFds, this`writeFds, this`exceptFds
    {
      && DistinctFds(events)
      && readFds <= FdsOf(events) && writeFds <= FdsOf(events) && exceptFds == FdsOf(events)
      && forall fd :: fd in FdsOf(events) ==> fd <= maxfd
    }

    ghost predicate Valid()
      reads this, list, list[..]`index
    {
      Indexed() && Watched(Table())
    }

    constructor (size: nat)
      ensures Valid() && Table() == [] && list.Length == size && fresh(list)
    {
      list := new Event?[size](_ => null);
      nevent, maxfd, readFds, writeFds, exceptFds := 0, -1, {}, {}, {};
    }

    // Registering keeps the handler valid exactly when the descriptor is not registered yet.
    method AddEvent(ev: Event, evType: int) returns (rc: int)
      requires Valid()
      modifies this, list, ev`index
      ensures rc == if old(nevent) == list.Length then -1 else 0
      ensures Valid() <==> rc == -1 || ev.fd !in FdsOf(old(Table()))
      ensures nevent <= list.Length && list[..nevent] == if rc == -1 then old(Table()) else old(Table()) + [ev]
      ensures readFds == old(readFds) + (if rc == 0 && HasFlag(evType, READ) then {ev.fd} else {})
      ensures writeFds == old(writeFds) + (if rc == 0 && HasFlag(evType, WRITE) then {ev.fd} else {})
      ensures exceptFds == old(exceptFds) + (if rc == 0 then {ev.fd} else {})
    {
      if nevent >= list.Length {
        return -1;
      }
      ghost var t := Table();
      AddedFds(t, ev);
      assert ev in t ==> ev.fd in FdsOf(t);
      hide DistinctFds, FdsOf;
      Put(ev);
      if HasFlag(evType, READ) {
        readFds := readFds + {ev.fd};
      }
      if HasFlag(evType, WRITE) {
        writeFds := writeFds + {ev.fd};
      }
      exceptFds := exceptFds + {ev.fd};
      return 0;
    }

    method Put(ev: Event)
      requires Indexed() && nevent < list.Length
      modifies this`maxfd, this`nevent, list, ev`index
      ensures nevent == old(nevent) + 1 && list[..nevent] == old(Table()) + [ev]
      ensures maxfd == if ev.fd > old(maxfd) then ev.fd else old(maxfd)
      ensures ev !in old(Table()) ==> Indexed()
    {
      if ev.fd > maxfd {
        maxfd := ev.fd;
      }
      list[nevent] := ev;
      ev.index := nevent;
      nevent := nevent + 1;
    }

    // Disabling and unknown operations are harmless on any event; enabling is if it is registered.
    method SetEvent(ev: Event, op: Op, evType: int)
      requires Valid()
      modifies this`readFds, this`writeFds
      ensures Indexed() && Table() == old(Table())
      ensures Valid() <==> !op.Enable? || !(HasFlag(evType, READ) || HasFlag(evType, WRITE)) || ev.fd in FdsOf(Table())
      ensures readFds == if op.Other? || !HasFlag(evType, READ) then old(readFds)
                         else if op.Enable? then old(readFds) + {ev.fd} else old(readFds) - {ev.fd}
      ensures writeFds == if op.Other? || !HasFlag(evType, WRITE) then old(writeFds)
                          else if op.Enable? then old(writeFds) + {ev.fd} else old(writeFds) - {ev.fd}
    {
      match op
      case Enable =>
        if HasFlag(evType, WRITE) {
          writeFds := writeFds + {ev.fd};
        }
        if HasFlag(evType, READ) {
          readFds := readFds + {ev.fd};
        }
      case Disable =>
        if HasFlag(evType, WRITE) {
          writeFds := writeFds - {ev.fd};
        }
        if HasFlag(evType, READ) {
          readFds := readFds - {ev.fd};
        }
      case Other =>
    }

    // Exactly ev is removed if and only if it is registered or turned away. The one call that is excluded
    // writes behind a full table.
    method DelEvent(ev: Event)
      requires Valid() && !(0 < nevent == ev.index == list.Length)
      modifies this, list, Table()`index
      ensures Indexed() && Table() == Deleted(old(Table()), old(ev.index))
      ensures nevent == if old(nevent) != 0 && 0 <= old(ev.index) <= old(nevent) then old(nevent) - 1 else old(nevent)
      ensures (forall e: Event :: e in Table() <==> e in old(Table()) && e != ev)
              <==> ev in old(Table()) || TurnedAway(old(Table()), old(ev.index))
      ensures readFds == old(readFds) - {ev.fd} && writeFds == old(writeFds) - {ev.fd} && exceptFds == old(exceptFds) - {ev.fd}
      ensures ev in old(Table()) || (TurnedAway(old(Table()), old(ev.index)) && ev.fd !in FdsOf(old(Table()))) ==> Valid()
    {
      ghost var t, k := Table(), ev.index;
      assert ev in t ==> 0 <= k < nevent && t[k] == ev;
      DistinctEvents(t);
      DeleteIsExact(t, ev, k);
      hide DistinctFds, FdsOf, Distinct, Indexed, SwapRemove;
      if nevent != 0 && 0 <= ev.index <= nevent { // a negative index is huge as a size_t
        Withdraw(ev);
        if ev in t {
          RemovedFds(t, k);
        }
      }
      readFds := readFds - {ev.fd};
      writeFds := writeFds - {ev.fd};
      exceptFds := exceptFds - {ev.fd};
    }

    method Withdraw(ev: Event)
      requires Indexed() && 0 < nevent && 0 <= ev.index <= nevent && ev.index < list.Length
      modifies this`nevent, list, Table()`index
      ensures Indexed() && Table() == Deleted(old(Table()), old(ev.index))
    {
      var last := list[nevent - 1];
      last.index := ev.index;
      list[last.index] := last;
      nevent := nevent - 1;
    }

    // get_event after select returned count and left s. A count of the bits set, as select promises,
    // loses no event by the early exit.
    method GetEvent(count: int, s: Ready, evLst: array<Event?>) returns (n: nat)
      requires Valid() && evLst != list
      requires 0 < count ==> count <= evLst.Length || nevent <= evLst.Length
      modifies evLst, Table()`evType
      ensures Valid() && Table() == old(Table())
      ensures n <= evLst.Length && evLst[..n] == Reported(Table(), s, count) && Flagged(Reported(Table(), s, count), s)
    {
      hide Watched, ReadyOf, Flags;
      if count <= 0 {
        return 0;
      }
      n := Scan(Table(), count, s, evLst);
    }

    method Scan(ghost t: seq<Event>, count: nat, s: Ready, evLst: array<Event?>) returns (n: nat)
      requires nevent == |t| <= list.Length && evLst != list && forall i :: 0 <= i < |t| ==> list[i] == t[i]
      requires 0 < count && (count <= evLst.Length || nevent <= evLst.Length)
      modifies evLst, t`evType
      ensures n <= evLst.Length && evLst[..n] == Reported(t, s, count) && Flagged(Reported(t, s, count), s)
    {
      assert Flagged([], s);
      hide ReadyOf, Flags, Reported, Flagged, IsReady, Indexed, Watched;
      ghost var found: seq<Event> := [];
      n := 0;
      var i := 0;
      while i < nevent && n != count
        invariant n <= i <= nevent && n <= count && n <= evLst.Length
        invariant found == ReadyOf(t[..i], s) && n == |found| && evLst[..n] == found && Flagged(found, s)
      {
        ReadyStep(t, s, i);
        n, found := Check(list[i], s, evLst, n, found);
        i := i + 1;
      }
      Stopped(t, s, i, count);
    }

    // One turn of the scan.
    static method Check(ev: Event, s: Ready, evLst: array<Event?>, n: nat, ghost found: seq<Event>)
      returns (n': nat, ghost found': seq<Event>)
      requires n < evLst.Length && evLst[..n] == found && Flagged(found, s)
      modifies evLst, ev`evType
      ensures found' == found + (if IsReady(ev.fd, s) then [ev] else [])
      ensures n' == |found'| <= evLst.Length && evLst[..n'] == found' && Flagged(found', s)
    {
      hide Flags;
      n', found' := n, found;
      var evType := EventType(ev.fd, s);
      if evType != NONE {
        evLst[n] := ev;
        ev.evType := evType;
        n', found' := n + 1, found + [ev];
      }
    }

    // The bits of ev_type, set one by one.
    static method EventType(fd: int, s: Ready) returns (evType: int)
      ensures evType == Flags(fd, s) && (evType == NONE <==> !IsReady(fd, s))
    {
      evType := NONE;
      if fd in s.readFds {
        evType := evType + READ;
      }
      if fd in s.writeFds {
        evType := evType + WRITE;
      }
      if fd in s.exceptFds {
        evType := evType + ERROR;
      }
    }
  }

  // The guards of del_event turn the index away.
  predicate TurnedAway<T>(events: seq<T>, index: int) {
    events == [] || !(0 <= index <= |events|)
  }

  // What del_event leaves of the table. An index one past the end passes the guard and drops the last event.
  function Deleted<T>(events: seq<T>, index: int): (r: seq<T>)
    ensures TurnedAway(events, index) ==> r == events
    ensures !TurnedAway(events, index) ==> |r| == |events| - 1
    ensures !TurnedAway(events, index) ==>
              forall i :: 0 <= i < |r| ==> r[i] == events[if i == index then |events| - 1 else i]
  {
    if TurnedAway(events, index) then events
    else if index == |events| then events[..index - 1] else SwapRemove(events, index)
  }

  // Exactly ev leaves the table if and only if it is registered or its index is turned away: an event
  // that is deleted again takes another one with it.
  lemma DeleteIsExact(events: seq<Event>, ev: Event, index: int)
    requires Distinct(events) && forall i :: 0 <= i < |events| && events[i] == ev ==> i == index
    ensures (forall e: Event :: e in Deleted(events, index) <==> e in events && e != ev)
            <==> ev in events || TurnedAway(events, index)
  {
    if !TurnedAway(events, index) {
      if index < |events| {
        SwapRemoveExact(events, index);
        assert events[index] in events && events[index] !in Deleted(events, index);
      } else {
        var last := events[index - 1];
        assert last in events && last !in Deleted(events, index);
      }
    }
  }

  lemma DistinctEvents(events: seq<Event>)
    requires DistinctFds(events)
    ensures Distinct(events)
  {
  }

  lemma RemovedFds(events: seq<Event>, k: nat)
    requires k < |events| && DistinctFds(events)
    ensures DistinctFds(SwapRemove(events, k)) && FdsOf(SwapRemove(events, k)) == FdsOf(events) - {events[k].fd}
  {
    var r := SwapRemove(events, k);
    forall i | 0 <= i < |events| && i != k ensures events[i].fd in FdsOf(r) {
      assert r[if i == |r| then k else i] == events[i];
    }
  }
}
