/**
 The address table of gnb_address.c: the addresses a node was last seen at. A full table forgets the
 address that was refreshed longest ago.
 */
module AddressList {

  const AF_INET: int := 2
  const AF_INET6: int := 10

  type AddressBytes = b: seq<bv8> | |b| == 16 witness seq(16, _ => 0)

  datatype Address = Address(kind: int, socketIdx: bv8, ts: nat, delay: nat, bytes: AddressBytes, port: nat)

  // What memset leaves in a slot.
  const EMPTY: Address := Address(0, 0, 0, 0, seq(16, _ => 0), 0)

  datatype Host = Inet(addr: seq<bv8>) | Inet6(addr: seq<bv8>) | NoHost

  function HostOf(a: Address): Host {
    if a.kind == AF_INET then Inet(a.bytes[..4]) else if a.kind == AF_INET6 then Inet6(a.bytes) else NoHost
  }

  // What find compares: the family, and four bytes of an IPv4 or sixteen of an IPv6 address.
  predicate SameAddress(a: Address, b: Address) {
    a.kind == b.kind && ((a.kind == 2 && a.bytes[..4] == b.bytes[..4]) || (a.kind == 10 && a.bytes[..16] == b.bytes[..16]))
  }

  lemma SameHost(a: Address, b: Address)
    ensures SameAddress(a, b) <==> HostOf(a) == HostOf(b) != NoHost
  {
    assert a.bytes[..16] == a.bytes && b.bytes[..16] == b.bytes;
  }

  // An address as the callers pass it: with a port, and of one of the two families.
  predicate Proper(a: Address) {
    a.port != 0 && HostOf(a) != NoHost
  }

  datatype Table = Table(slots: seq<Address>, num: nat)

  // ---- What the operations compute ----

  // The first of the live slots with the host, or num.
  function Position(t: Table, h: Host): (k: nat)
    requires t.num <= |t.slots|
    ensures k <= t.num
    ensures k < t.num ==> HostOf(t.slots[k]) == h
    ensures forall i :: 0 <= i < k ==> HostOf(t.slots[i]) != h
    decreases t.num
  {
    if t.num == 0 then 0 else
      var k := Position(t.(num := t.num - 1), h);
      if k < t.num - 1 || HostOf(t.slots[k]) == h then k else t.num
  }

  function FirstEmpty(slots: seq<Address>): (k: nat)
    ensures k <= |slots|
    ensures k < |slots| ==> slots[k].port == 0
    ensures forall i :: 0 <= i < k ==> slots[i].port != 0
  {
    if slots == [] || slots[0].port == 0 then 0 else 1 + FirstEmpty(slots[1..])
  }

  // The last of the slots with the smallest time stamp.
  function LastOldest(slots: seq<Address>): (k: nat)
    requires slots != []
    ensures k < |slots|
    ensures forall i :: 0 <= i < |slots| ==> slots[k].ts <= slots[i].ts
    ensures forall i :: k < i < |slots| ==> slots[k].ts < slots[i].ts
  {
    var n := |slots| - 1;
    if n == 0 then 0 else
      var k := LastOldest(slots[..n]);
      assert forall i :: 0 <= i < n ==> slots[..n][i] == slots[i];
      if slots[n].ts <= slots[k].ts then n else k
  }

  lemma LastOldestStep(slots: seq<Address>, i: nat)
    requires i < |slots|
    ensures LastOldest(slots[..i + 1])
            == if i == 0 || slots[i].ts <= slots[LastOldest(slots[..i])].ts then i else LastOldest(slots[..i])
  {
    assert slots[..i + 1][..i] == slots[..i];
  }

  function FreeSlot(slots: seq<Address>): (k: nat)
    requires slots != []
    ensures k < |slots|
  {
    if FirstEmpty(slots) < |slots| then FirstEmpty(slots) else LastOldest(slots)
  }

  function Target(t: Table, a: Address): (k: nat)
    requires t.num <= |t.slots| && t.slots != []
    ensures k < |t.slots|
  {
    if HostOf(a) != NoHost && Position(t, HostOf(a)) < t.num then Position(t, HostOf(a)) else FreeSlot(t.slots)
  }

  function Update(t: Table, a: Address): (u: Table)
    requires t.num <= |t.slots| && t.slots != []
    ensures |u.slots| == |t.slots| && u.num <= |u.slots|
  {
    var k := Target(t, a);
    Table(t.slots[k := a], if t.slots[k].port == 0 && t.num < |t.slots| then t.num + 1 else t.num)
  }

  class AddressList {
    const entries: array<Address>
    var num: nat

    ghost predicate Valid()
      reads this
    {
      num <= entries.Length && entries.Length > 0
    }

    ghost function Contents(): Table
      reads this, entries
    {
      Table(entries[..], num)
    }

    constructor (size: nat)
      requires size > 0
      ensures Valid() && fresh(entries) && Contents() == Table(seq(size, _ => EMPTY), 0)
    {
      entries := new Address[size](_ => EMPTY);
      num := 0;
    }

    method Find(a: Address) returns (idx: int)
      requires Valid()
      ensures idx == if HostOf(a) != NoHost && Position(Contents(), HostOf(a)) < num then Position(Contents(), HostOf(a)) else -1
      ensures -1 <= idx < num
      ensures idx >= 0 ==> SameAddress(entries[idx], a) && forall i :: 0 <= i < idx ==> !SameAddress(entries[i], a)
      ensures idx == -1 ==> forall i :: 0 <= i < num ==> !SameAddress(entries[i], a)
    {
      ghost var t := Contents();
      forall i | 0 <= i < num ensures SameAddress(entries[i], a) <==> HostOf(entries[i]) == HostOf(a) != NoHost {
        SameHost(entries[i], a);
      }
      for i := 0 to num
        invariant forall j :: 0 <= j < i ==> HostOf(a) == NoHost || HostOf(t.slots[j]) != HostOf(a)
      {
        if a.kind != entries[i].kind {
          continue;
        }
        if a.kind == AF_INET && entries[i].bytes[..4] == a.bytes[..4] {
          return i;
        }
        if a.kind == AF_INET6 && entries[i].bytes == a.bytes {
          return i;
        }
      }
      return -1;
    }

    method GetFreeIdx() returns (idx: nat)
      requires Valid()
      ensures idx == FreeSlot(entries[..])
    {
      hide LastOldest;
      idx := 0;
      ghost var s := entries[..];
      var min := entries[0].ts;
      for i := 0 to entries.Length
        invariant forall j :: 0 <= j < i ==> s[j].port != 0
        invariant idx < |s| && min == s[idx].ts && idx == (if i == 0 then 0 else LastOldest(s[..i]))
      {
        if entries[i].port == 0 {
          return i;
        }
        LastOldestStep(s, i);
        if entries[i].ts <= min {
          min := entries[i].ts;
          idx := i;
        }
      }
      assert s[..entries.Length] == s;
    }

    method UpdateAddress(a: Address)
      requires Valid()
      modifies this, entries
      ensures Valid() && Contents() == Update(old(Contents()), a)
    {
      var idx := Find(a);
      if idx == -1 {
        idx := GetFreeIdx();
      }
      if entries[idx].port == 0 {
        if num < entries.Length { // num never exceeds the size, so its repair has nothing to do
          num := num + 1;
        }
      }
      entries[idx] := a;
    }
  }

  // ---- What one update keeps ----

  // The first num slots hold proper addresses of pairwise distinct hosts; the rest are empty.
  ghost predicate Wf(t: Table) {
    && t.num <= |t.slots| && t.slots != []
    && (forall i :: 0 <= i < t.num ==> Proper(t.slots[i]))
    && (forall i, j :: 0 <= i < j < t.num ==> HostOf(t.slots[i]) != HostOf(t.slots[j]))
    && (forall i :: t.num <= i < |t.slots| ==> t.slots[i].port == 0)
  }

  // A known host keeps its slot; a new one takes the first empty slot while there is one and then the
  // slot of an address none is older than, the last of those. Every other slot stays as it is.
  lemma UpdateLaw(t: Table, a: Address)
    requires Wf(t) && Proper(a)
    ensures Wf(Update(t, a))
    ensures var k, u := Target(t, a), Update(t, a);
            && u.slots == t.slots[k := a] && k < u.num
            && (forall i :: 0 <= i < t.num && HostOf(t.slots[i]) == HostOf(a) ==> k == i && u.num == t.num)
            && ((forall i :: 0 <= i < t.num ==> HostOf(t.slots[i]) != HostOf(a)) ==>
                  if t.num < |t.slots| then k == t.num && u.num == t.num + 1
                  else
                    && u.num == t.num
                    && (forall i :: 0 <= i < t.num ==> t.slots[k].ts <= t.slots[i].ts)
                    && forall i :: k < i < t.num ==> t.slots[k].ts < t.slots[i].ts)
  {
    hide HostOf;
    var p := Position(t, HostOf(a));
    if p == t.num {
      var e := FirstEmpty(t.slots);
      assert e < t.num ==> Proper(t.slots[e]);
      assert t.num < |t.slots| ==> t.slots[t.num].port == 0;
    }
  }

  // ---- Over whole runs ----

  function Run(t: Table, updates: seq<Address>): (u: Table)
    requires t.num <= |t.slots| && t.slots != []
    ensures |u.slots| == |t.slots| && u.num <= |u.slots|
    decreases |updates|
  {
    if updates == [] then t else
      var n := |updates| - 1;
      Update(Run(t, updates[..n]), updates[n])
  }

  // No later update is about the same host.
  ghost predicate IsLatest(h: seq<Address>, j: int) {
    0 <= j < |h| && forall k :: j < k < |h| ==> HostOf(h[k]) != HostOf(h[j])
  }

  // a is the latest word on its host.
  ghost predicate Current(h: seq<Address>, a: Address) {
    exists j :: IsLatest(h, j) && h[j] == a
  }

  // Every live entry is the latest word on its host.
  ghost predicate UpToDate(t: Table, h: seq<Address>)
    requires t.num <= |t.slots|
  {
    forall i :: 0 <= i < t.num ==> Current(h, t.slots[i])
  }

  ghost predicate Held(t: Table, a: Address)
    requires t.num <= |t.slots|
  {
    exists i :: 0 <= i < t.num && t.slots[i] == a
  }

  // What is missing was refreshed no later than anything that is held, and the table is full.
  ghost predicate ForgetsOldest(t: Table, h: seq<Address>)
    requires t.num <= |t.slots|
  {
    forall j :: IsLatest(h, j) && !Held(t, h[j]) ==>
      t.num == |t.slots| && forall i :: 0 <= i < t.num ==> h[j].ts <= t.slots[i].ts
  }

  ghost predicate InOrder(h: seq<Address>) {
    forall i, j :: 0 <= i < j < |h| ==> h[i].ts <= h[j].ts
  }

  lemma LatestAdded(h: seq<Address>, a: Address)
    ensures IsLatest(h + [a], |h|) && (h + [a])[|h|] == a
  {
  }

  lemma LatestStep(h: seq<Address>, a: Address, j: int)
    requires 0 <= j < |h|
    ensures IsLatest(h + [a], j) <==> IsLatest(h, j) && HostOf(a) != HostOf(h[j])
    ensures (h + [a])[j] == h[j]
  {
    hide HostOf;
    var g := h + [a];
    assert g[|h|] == a;
    assert forall k :: 0 <= k < |h| ==> g[k] == h[k];
  }

  lemma UpToDateStep(t: Table, h: seq<Address>, a: Address)
    requires Wf(t) && Proper(a) && UpToDate(t, h)
    ensures UpToDate(Update(t, a), h + [a])
  {
    UpdateLaw(t, a);
    DistinctHosts(t, a);
    hide HostOf, Target, Update, Proper, Wf, Current;
    var u, k := Update(t, a), Target(t, a);
    forall i | 0 <= i < u.num ensures Current(h + [a], u.slots[i]) {
      if i == k {
        CurrentAdded(h, a);
      } else {
        CurrentStep(h, a, t.slots[i]);
      }
    }
  }

  lemma CurrentAdded(h: seq<Address>, a: Address)
    ensures Current(h + [a], a)
  {
    LatestAdded(h, a);
    assert IsLatest(h + [a], |h|) && (h + [a])[|h|] == a;
  }

  lemma CurrentStep(h: seq<Address>, a: Address, x: Address)
    requires Current(h, x) && HostOf(x) != HostOf(a)
    ensures Current(h + [a], x)
  {
    hide HostOf;
    var j :| IsLatest(h, j) && h[j] == x;
    LatestStep(h, a, j);
    assert IsLatest(h + [a], j) && (h + [a])[j] == x;
  }

  // Whatever stays beside a new entry is about another host.
  lemma DistinctHosts(t: Table, a: Address)
    requires Wf(t) && Proper(a)
    ensures var k, u := Target(t, a), Update(t, a);
            forall i :: 0 <= i < u.num && i != k ==> i < t.num && u.slots[i] == t.slots[i] && HostOf(t.slots[i]) != HostOf(a)
  {
    UpdateLaw(t, a);
    hide HostOf, Proper;
  }

  // A host is forgotten only in favour of hosts refreshed no earlier.
  lemma ForgetsOldestStep(t: Table, h: seq<Address>, a: Address)
    requires Wf(t) && Proper(a) && ForgetsOldest(t, h) && InOrder(h + [a])
    ensures ForgetsOldest(Update(t, a), h + [a])
  {
    var u, k, g := Update(t, a), Target(t, a), h + [a];
    forall j | IsLatest(g, j) && !Held(u, g[j])
      ensures u.num == |u.slots| && forall i :: 0 <= i < u.num ==> g[j].ts <= u.slots[i].ts
    {
      LostStep(t, h, a, j);
    }
  }

  lemma LostStep(t: Table, h: seq<Address>, a: Address, j: int)
    requires Wf(t) && Proper(a) && ForgetsOldest(t, h) && InOrder(h + [a])
    requires IsLatest(h + [a], j) && !Held(Update(t, a), (h + [a])[j])
    ensures var u := Update(t, a); u.num == |u.slots| && forall i :: 0 <= i < u.num ==> (h + [a])[j].ts <= u.slots[i].ts
  {
    UpdateLaw(t, a);
    DistinctHosts(t, a);
    var u, k, g := Update(t, a), Target(t, a), h + [a];
    assert g[|h|] == a;
    hide HostOf, Target, Update, Proper, Wf;
    assert u.slots[k] == a;
    assert j < |h|;
    LatestStep(h, a, j);
    assert h[j].ts <= a.ts;
    if Held(t, h[j]) {
      hide ForgetsOldest;
      var i :| 0 <= i < t.num && t.slots[i] == h[j];
      if i != k {
        assert false;
      }
    }
  }

  // What every update keeps, given the updates h so far.
  ghost predicate Inv(t: Table, h: seq<Address>) {
    Wf(t) && UpToDate(t, h) && (InOrder(h) ==> ForgetsOldest(t, h))
  }

  lemma InvStep(t: Table, h: seq<Address>, a: Address)
    requires Inv(t, h) && Proper(a)
    ensures Inv(Update(t, a), h + [a])
  {
    UpdateLaw(t, a);
    UpToDateStep(t, h, a);
    if InOrder(h + [a]) {
      InOrderPrefix(h, a);
      ForgetsOldestStep(t, h, a);
    }
  }

  ghost predicate AllProper(updates: seq<Address>) {
    forall i :: 0 <= i < |updates| ==> Proper(updates[i])
  }

  lemma SplitLast(updates: seq<Address>)
    requires AllProper(updates) && updates != []
    ensures var n := |updates| - 1;
            updates == updates[..n] + [updates[n]] && AllProper(updates[..n]) && Proper(updates[n])
  {
    hide Proper;
  }

  lemma {:induction false} InvRun(t: Table, updates: seq<Address>)
    requires Inv(t, []) && AllProper(updates)
    ensures Inv(Run(t, updates), updates)
    decreases |updates|
  {
    if updates == [] {
      assert Inv(t, updates);
    } else {
      var n := |updates| - 1;
      var a, before := updates[n], updates[..n];
      assert t.num <= |t.slots| && t.slots != [];
      hide Inv, Proper, Update, AllProper;
      SplitLast(updates);
      InvRun(t, before);
      InvStep(Run(t, before), before, a);
    }
  }

  lemma InOrderPrefix(h: seq<Address>, a: Address)
    requires InOrder(h + [a])
    ensures InOrder(h)
  {
    var g := h + [a];
    assert forall i :: 0 <= i < |h| ==> g[i] == h[i];
  }

  // From an empty table, every run keeps the shape and the latest word on every host it holds; when
  // the time stamps come in order, the hosts it holds are those refreshed last.
  lemma {:induction false} RunFromEmpty(size: nat, updates: seq<Address>)
    requires size > 0 && AllProper(updates)
    ensures var t := Run(Table(seq(size, _ => EMPTY), 0), updates);
            Wf(t) && UpToDate(t, updates) && (InOrder(updates) ==> ForgetsOldest(t, updates))
  {
    var t0 := Table(seq(size, _ => EMPTY), 0);
    assert Inv(t0, []);
    InvRun(t0, updates);
  }
}
