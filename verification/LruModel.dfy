/** What the cache of gnb_lru32.c means: a bounded sequence of entries, and its laws over whole runs. */
module LruModel {
  import opened Sequences

  datatype Option<+T> = None | Some(value: T)

  datatype Entry<K(==), V> = Entry(key: K, value: V)

  // The position of key, or |m| when it is absent.
  function Position<K(==), V>(m: seq<Entry<K, V>>, key: K): (k: nat)
    ensures k <= |m|
    ensures k < |m| ==> m[k].key == key
    ensures forall i :: 0 <= i < k ==> m[i].key != key
  {
    if m == [] then 0 else if m[0].key == key then 0 else 1 + Position(m[1..], key)
  }

  predicate Has<K(==), V>(m: seq<Entry<K, V>>, key: K) {
    Position(m, key) < |m|
  }

  // The keys are pairwise distinct and there are at most max of them.
  ghost predicate Wf<K, V>(m: seq<Entry<K, V>>, max: nat) {
    |m| <= max && forall i, j :: 0 <= i < j < |m| ==> m[i].key != m[j].key
  }

  function Get<K(==), V>(m: seq<Entry<K, V>>, key: K): seq<Entry<K, V>> {
    var k := Position(m, key);
    if k < |m| then Touch(m, k) else m
  }

  function DropLast<T>(s: seq<T>): seq<T> {
    if s == [] then [] else s[..|s| - 1]
  }

  function Put<K(==), V>(m: seq<Entry<K, V>>, max: nat, key: K, value: V): seq<Entry<K, V>> {
    var k := Position(m, key);
    if k < |m| then Touch(m, k)[(if |m| <= 2 then k else 0) := Entry(key, value)]
    else [Entry(key, value)] + MakeRoom(m, max)
  }

  // The order after making room for a new key.
  function MakeRoom<T>(m: seq<T>, max: nat): seq<T> {
    if |m| >= max then DropLast(m) else m
  }

  // The entry put drops to make room.
  function Evicted<K(==), V>(m: seq<Entry<K, V>>, max: nat, key: K): Option<Entry<K, V>> {
    if Position(m, key) < |m| || |m| < max || m == [] then None else Some(m[|m| - 1])
  }

  lemma PutCases<K, V>(m: seq<Entry<K, V>>, max: nat, key: K, value: V)
    requires max > 0
    ensures Has(m, key) ==> Evicted(m, max, key) == None
    ensures !Has(m, key) ==> Put(m, max, key, value) == [Entry(key, value)] + MakeRoom(m, max)
    ensures !Has(m, key) ==> Evicted(m, max, key) == if |m| >= max then Some(m[|m| - 1]) else None
  {
  }

  function PopByKey<K(==), V>(m: seq<Entry<K, V>>, key: K): seq<Entry<K, V>> {
    var k := Position(m, key);
    if k < |m| then RemoveAt(m, k) else m
  }

  function PopHead<T>(m: seq<T>): seq<T> {
    if m == [] then [] else m[1..]
  }

  // ---- Laws of single operations ----

  function Lookup<K(==), V>(m: seq<Entry<K, V>>, key: K): Option<V> {
    var k := Position(m, key);
    if k < |m| then Some(m[k].value) else None
  }

  lemma AtPosition<K, V>(m: seq<Entry<K, V>>, max: nat, i: nat)
    requires Wf(m, max) && i < |m|
    ensures Position(m, m[i].key) == i && Lookup(m, m[i].key) == Some(m[i].value)
  {
  }

  lemma SamePosition<K, V, W>(m: seq<Entry<K, V>>, n: seq<Entry<K, W>>, key: K)
    requires |m| == |n| && forall i :: 0 <= i < |m| ==> m[i].key == n[i].key
    ensures Position(m, key) == Position(n, key)
  {
  }

  // Two sequences with the same entries answer every lookup alike.
  lemma SameEntries<K, V>(m: seq<Entry<K, V>>, n: seq<Entry<K, V>>, max: nat, q: K)
    requires Wf(m, max) && Wf(n, max)
    requires forall e: Entry<K, V> :: e.key == q ==> (e in m <==> e in n)
    ensures Lookup(m, q) == Lookup(n, q)
  {
    var i, j := Position(m, q), Position(n, q);
    if i < |m| {
      assert m[i] in m;
      var k :| 0 <= k < |n| && n[k] == m[i];
      AtPosition(n, max, k);
    }
  }

  lemma TouchKeeps<K, V>(m: seq<Entry<K, V>>, max: nat, k: nat)
    requires Wf(m, max) && k < |m|
    ensures Wf(Touch(m, k), max)
    ensures forall q :: Lookup(Touch(m, k), q) == Lookup(m, q)
  {
    var t := Touch(m, k);
    DistinctTouch(m, k);
    forall q ensures Lookup(t, q) == Lookup(m, q) {
      SameEntries(m, t, max, q);
    }
  }

  // get, movetohead and hash_get change no association.
  lemma GetKeeps<K, V>(m: seq<Entry<K, V>>, max: nat, key: K)
    requires Wf(m, max)
    ensures Wf(Get(m, key), max) && forall q :: Lookup(Get(m, key), q) == Lookup(m, q)
  {
    if Has(m, key) {
      TouchKeeps(m, max, Position(m, key));
    }
  }

  lemma DropLastKeeps<K, V>(m: seq<Entry<K, V>>, max: nat, q: K)
    requires Wf(m, max) && m != []
    ensures Wf(DropLast(m), max - 1)
    ensures Lookup(DropLast(m), q) == if m[|m| - 1].key == q then None else Lookup(m, q)
  {
    var d := DropLast(m);
    var i, j := Position(m, q), Position(d, q);
    if j < |d| {
      AtPosition(m, max, j);
    }
  }

  lemma ReplaceLaw<K, V>(t: seq<Entry<K, V>>, max: nat, at: nat, value: V, q: K)
    requires Wf(t, max) && at < |t|
    ensures var p := t[at := Entry(t[at].key, value)];
            Wf(p, max) && Lookup(p, q) == if q == t[at].key then Some(value) else Lookup(t, q)
  {
    var p := t[at := Entry(t[at].key, value)];
    assert p[at].key == t[at].key;
    if q == t[at].key {
      AtPosition(p, max, at);
    } else {
      forall e: Entry<K, V> | e.key == q ensures e in t <==> e in p {
        if e in t {
          var i :| 0 <= i < |t| && t[i] == e;
          assert p[i] == e;
        }
        if e in p {
          var i :| 0 <= i < |p| && p[i] == e;
          assert t[i] == e;
        }
      }
      SameEntries(t, p, max, q);
    }
  }

  // After put the key holds the value, the entry reported as evicted is gone, and every other
  // association is as before. An entry is evicted exactly when the key is new and the cache full,
  // and it is the last one.
  lemma PutLaw<K, V>(m: seq<Entry<K, V>>, max: nat, key: K, value: V, q: K)
    requires Wf(m, max) && max > 0
    ensures Wf(Put(m, max, key, value), max)
    ensures var e := Evicted(m, max, key);
            Lookup(Put(m, max, key, value), q)
            == if q == key then Some(value) else if e.Some? && e.value.key == q then None else Lookup(m, q)
    ensures Evicted(m, max, key).Some? <==> !Has(m, key) && |m| == max
  {
    hide Touch, Wf;
    var k := Position(m, key);
    if k < |m| {
      TouchKeeps(m, max, k);
      RemoveTouched(m, k);
      ReplaceLaw(Touch(m, k), max, if |m| <= 2 then k else 0, value, q);
    } else {
      MissLaw(m, max, key, value, q);
    }
  }

  lemma MissLaw<K, V>(m: seq<Entry<K, V>>, max: nat, key: K, value: V, q: K)
    requires Wf(m, max) && max > 0 && !Has(m, key)
    ensures var rest := if |m| >= max then DropLast(m) else m;
            && Wf([Entry(key, value)] + rest, max)
            && Lookup([Entry(key, value)] + rest, q)
               == if q == key then Some(value) else if |m| >= max && m[|m| - 1].key == q then None else Lookup(m, q)
  {
    if |m| >= max {
      DropLastKeeps(m, max, q);
    }
    var rest := if |m| >= max then DropLast(m) else m;
    assert ([Entry(key, value)] + rest)[1..] == rest;
  }

  lemma PopByKeyLaw<K, V>(m: seq<Entry<K, V>>, max: nat, key: K, q: K)
    requires Wf(m, max)
    ensures Wf(PopByKey(m, key), max)
    ensures Lookup(PopByKey(m, key), q) == if q == key then None else Lookup(m, q)
  {
    var k := Position(m, key);
    if k < |m| {
      var p := RemoveAt(m, k);
      DistinctRemove(m, k);
      if q != key {
        SameEntries(m, p, max, q);
      }
    }
  }

  // ---- Recency over whole runs ----

  datatype Op<K, V> =
    | OpPut(key: K, value: V) | OpGet(key: K) | OpMoveToHead(key: K) | OpHashGet(key: K)
    | OpPopByKey(key: K) | OpPopHead | OpPopTail

  function Apply<K(==), V>(m: seq<Entry<K, V>>, max: nat, op: Op<K, V>): seq<Entry<K, V>> {
    match op
    case OpPut(key, value) => Put(m, max, key, value)
    case OpGet(key) => Get(m, key)
    case OpMoveToHead(key) => Get(m, key)
    case OpHashGet(_) => m
    case OpPopByKey(key) => PopByKey(m, key)
    case OpPopHead => PopHead(m)
    case OpPopTail => DropLast(m)
  }

  // What every operation does to every key, told from the sequence before.
  lemma ApplyLaw<K, V>(m: seq<Entry<K, V>>, max: nat, op: Op<K, V>, q: K)
    requires Wf(m, max) && max > 0
    ensures var found := Lookup(Apply(m, max, op), q);
            match op
            case OpPut(key, value) =>
              found == (if q == key then Some(value)
                        else if !Has(m, key) && |m| == max && m[max - 1].key == q then None
                        else Lookup(m, q))
            case OpPopByKey(key) => found == (if q == key then None else Lookup(m, q))
            case OpPopHead => found == (if m != [] && m[0].key == q then None else Lookup(m, q))
            case OpPopTail => found == (if m != [] && m[|m| - 1].key == q then None else Lookup(m, q))
            case _ => found == Lookup(m, q)
  {
    match op
    case OpPut(key, value) =>
      PutLaw(m, max, key, value, q);
      PutCases(m, max, key, value);
    case OpGet(key) => GetKeeps(m, max, key);
    case OpMoveToHead(key) => GetKeeps(m, max, key);
    case OpHashGet(_) =>
    case OpPopByKey(key) => PopByKeyLaw(m, max, key, q);
    case OpPopHead => PopHeadLaw(m, max, q);
    case OpPopTail =>
      if m != [] {
        DropLastKeeps(m, max, q);
      }
  }

  lemma PopHeadLaw<K, V>(m: seq<Entry<K, V>>, max: nat, q: K)
    requires Wf(m, max)
    ensures Lookup(PopHead(m), q) == if m != [] && m[0].key == q then None else Lookup(m, q)
  {
    if m != [] {
      var p, i := PopHead(m), Position(PopHead(m), q);
      if i < |p| {
        assert p[i] == m[i + 1];
        AtPosition(m, max, i + 1);
      }
    }
  }

  // The operation counts as an access of its key.
  predicate Accesses<K(==), V>(m: seq<Entry<K, V>>, op: Op<K, V>) {
    op.OpPut? || ((op.OpGet? || op.OpMoveToHead?) && Has(m, op.key))
  }

  // The cache together with the time of every key's last access.
  datatype Timed<K(==), V> = Timed(m: seq<Entry<K, V>>, stamps: map<K, nat>, clock: nat)

  function Next<K(==), V>(s: Timed<K, V>, max: nat, op: Op<K, V>): Timed<K, V> {
    Timed(Apply(s.m, max, op),
          if Accesses(s.m, op) then s.stamps[op.key := s.clock] else s.stamps,
          s.clock + 1)
  }

  function RunOps<K(==), V>(s: Timed<K, V>, max: nat, ops: seq<Op<K, V>>): Timed<K, V>
    decreases |ops|
  {
    if ops == [] then s else RunOps(Next(s, max, ops[0]), max, ops[1..])
  }

  // Newest access first.
  ghost predicate Ordered<K, V>(s: Timed<K, V>) {
    && (forall i :: 0 <= i < |s.m| ==> s.m[i].key in s.stamps && s.stamps[s.m[i].key] < s.clock)
    && forall i, j :: 0 <= i < j < |s.m| ==> s.stamps[s.m[i].key] > s.stamps[s.m[j].key]
  }

  // The one access that does not reorder although it should: the tail of a list of two.
  predicate HitsTailOfTwo<K(==), V>(m: seq<Entry<K, V>>, op: Op<K, V>) {
    Accesses(m, op) && |m| == 2 && op.key == m[1].key
  }

  predicate NeverHitsTailOfTwo<K(==), V>(s: Timed<K, V>, max: nat, ops: seq<Op<K, V>>)
    decreases |ops|
  {
    ops == [] || (!HitsTailOfTwo(s.m, ops[0]) && NeverHitsTailOfTwo(Next(s, max, ops[0]), max, ops[1..]))
  }

  lemma {:induction false} WfApply<K, V>(m: seq<Entry<K, V>>, max: nat, op: Op<K, V>)
    requires Wf(m, max) && max > 0
    ensures Wf(Apply(m, max, op), max)
  {
    match op
    case OpPut(key, value) => PutLaw(m, max, key, value, key);
    case OpGet(key) => GetKeeps(m, max, key);
    case OpMoveToHead(key) => GetKeeps(m, max, key);
    case OpHashGet(_) =>
    case OpPopByKey(key) => PopByKeyLaw(m, max, key, key);
    case OpPopHead =>
    case OpPopTail =>
  }

  lemma TouchOrders<K, V>(s: Timed<K, V>, max: nat, k: nat)
    requires Wf(s.m, max) && Ordered(s) && k < |s.m|
    ensures Ordered(Timed(Touch(s.m, k), s.stamps[s.m[k].key := s.clock], s.clock + 1))
            <==> !(|s.m| == 2 && k == 1)
  {
    var t, stamps := Touch(s.m, k), s.stamps[s.m[k].key := s.clock];
    if |s.m| == 2 && k == 1 {
      assert stamps[t[0].key] < stamps[t[1].key];
    }
  }

  lemma RecencyHit<K, V>(s: Timed<K, V>, max: nat, op: Op<K, V>)
    requires Wf(s.m, max) && Ordered(s) && Accesses(s.m, op) && Has(s.m, op.key)
    ensures Ordered(Next(s, max, op)) <==> !HitsTailOfTwo(s.m, op)
  {
    hide Ordered, Touch;
    var k := Position(s.m, op.key);
    TouchOrders(s, max, k);
    if |s.m| == 2 {
      AtPosition(s.m, max, 1);
    }
    if op.OpPut? {
      RemoveTouched(s.m, k);
      SameKeys(Timed(Touch(s.m, k), s.stamps[op.key := s.clock], s.clock + 1), Next(s, max, op));
    }
  }

  lemma RecencyNew<K, V>(s: Timed<K, V>, max: nat, key: K, value: V)
    requires Wf(s.m, max) && Ordered(s) && !Has(s.m, key)
    ensures Ordered(Next(s, max, OpPut(key, value)))
  {
    var n := Next(s, max, OpPut(key, value));
    forall i | 0 < i < |n.m| ensures n.m[i] == s.m[i - 1] && n.m[i].key != key {
    }
  }

  // Exactly one kind of step can break the order.
  lemma {:induction false} RecencyStep<K, V>(s: Timed<K, V>, max: nat, op: Op<K, V>)
    requires Wf(s.m, max) && max > 0 && Ordered(s)
    ensures Ordered(Next(s, max, op)) <==> !HitsTailOfTwo(s.m, op)
  {
    if Accesses(s.m, op) {
      hide Ordered;
      if Has(s.m, op.key) {
        RecencyHit(s, max, op);
      } else {
        RecencyNew(s, max, op.key, op.value);
        assert !HitsTailOfTwo(s.m, op);
      }
    } else {
      RecencyKept(s, max, op);
    }
  }

  lemma RecencyKept<K, V>(s: Timed<K, V>, max: nat, op: Op<K, V>)
    requires Ordered(s) && !Accesses(s.m, op)
    ensures Ordered(Next(s, max, op))
  {
    hide Touch;
  }

  lemma SameKeys<K, V>(s: Timed<K, V>, t: Timed<K, V>)
    requires s.stamps == t.stamps && s.clock == t.clock && |s.m| == |t.m|
    requires forall i :: 0 <= i < |s.m| ==> s.m[i].key == t.m[i].key
    ensures Ordered(s) <==> Ordered(t)
  {
  }

  // In every run that avoids that step the list is sorted by last access.
  lemma {:induction false} RecencyRun<K, V>(s: Timed<K, V>, max: nat, ops: seq<Op<K, V>>)
    requires Wf(s.m, max) && max > 0 && Ordered(s) && NeverHitsTailOfTwo(s, max, ops)
    ensures Ordered(RunOps(s, max, ops)) && Wf(RunOps(s, max, ops).m, max)
    decreases |ops|
  {
    hide Ordered, Wf, Apply;
    if ops != [] {
      RecencyStep(s, max, ops[0]);
      WfApply(s.m, max, ops[0]);
      RecencyRun(Next(s, max, ops[0]), max, ops[1..]);
    }
  }

  // Every state of the run is ordered.
  ghost predicate AlwaysOrdered<K, V>(s: Timed<K, V>, max: nat, ops: seq<Op<K, V>>)
    decreases |ops|
  {
    Ordered(s) && (ops == [] || AlwaysOrdered(Next(s, max, ops[0]), max, ops[1..]))
  }

  // A run stays ordered throughout exactly when it avoids that step.
  lemma {:induction false} RecencyRunExact<K, V>(s: Timed<K, V>, max: nat, ops: seq<Op<K, V>>)
    requires Wf(s.m, max) && max > 0 && Ordered(s)
    ensures AlwaysOrdered(s, max, ops) <==> NeverHitsTailOfTwo(s, max, ops)
    decreases |ops|
  {
    hide Ordered, Wf, Apply, HitsTailOfTwo;
    if ops != [] {
      var next := Next(s, max, ops[0]);
      RecencyStep(s, max, ops[0]);
      WfApply(s.m, max, ops[0]);
      if Ordered(next) {
        RecencyRunExact(next, max, ops[1..]);
      } else {
        assert !AlwaysOrdered(next, max, ops[1..]);
      }
    }
  }

  // So put evicts the least recently accessed key.
  lemma EvictsLeastRecent<K, V>(max: nat, ops: seq<Op<K, V>>, key: K)
    requires max > 0 && NeverHitsTailOfTwo(Timed([], map[], 0), max, ops)
    ensures var s := RunOps(Timed([], map[], 0), max, ops);
            var e := Evicted(s.m, max, key);
            e.Some? ==> forall i :: 0 <= i < |s.m| ==>
              s.m[i].key in s.stamps && e.value.key in s.stamps && s.stamps[e.value.key] <= s.stamps[s.m[i].key]
  {
    RecencyRun(Timed([], map[], 0), max, ops);
  }

  // With a capacity of two the stale order shows: key 1 is read last and yet evicted first.
  lemma StaleEviction()
    ensures var ops := [OpPut(1, 10), OpPut(2, 20), OpGet(1)];
            var s := RunOps(Timed([], map[], 0), 2, ops);
            s.stamps[1] > s.stamps[2] && Evicted(s.m, 2, 3) == Some(Entry(1, 10))
  {
    var s0: Timed<int, int> := Timed([], map[], 0);
    var s1, s2 := Next(s0, 2, OpPut(1, 10)), Next(Next(s0, 2, OpPut(1, 10)), 2, OpPut(2, 20));
    assert s2 == Timed([Entry(2, 20), Entry(1, 10)], map[1 := 0, 2 := 1], 2);
    var s3 := Next(s2, 2, OpGet(1));
    var ops := [OpPut(1, 10), OpPut(2, 20), OpGet(1)];
    assert ops[1..] == [OpPut(2, 20), OpGet(1)] && ops[1..][1..] == [OpGet(1)] && ops[1..][1..][1..] == [];
    assert RunOps(s0, 2, ops) == RunOps(s1, 2, ops[1..]) == RunOps(s2, 2, ops[1..][1..]) == RunOps(s3, 2, []);
  }
}
