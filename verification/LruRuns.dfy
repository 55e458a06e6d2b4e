/**
 Runs of any operations on the cache of Lru32, from gnb_lru32_create on: the linked structure stays
 valid throughout and goes through the states of LruModel, whose laws are thereby laws about it.
 */
module LruRuns {
  import opened LruModel
  import opened Lru32

  ghost predicate KeysFit<V>(ops: seq<Op<Key, V>>, keyLen: nat) {
    forall i :: 0 <= i < |ops| && ops[i].OpPut? ==> |ops[i].key| == keyLen
  }

  // One operation; what it returns is in the contracts of the operations themselves.
  method Do(lru: Lru, op: Op<Key, array?<octet>>)
    requires lru.Valid() && (op.OpPut? ==> |op.key| == lru.keyLen)
    modifies lru.Repr(), lru.kvs.buckets, lru.kvs.entries.Values
    ensures lru.Valid() && lru.Model() == Apply(old(lru.Model()), lru.maxSize, op)
    ensures fresh(lru.kvs.entries.Values - old(lru.kvs.entries.Values))
  {
    hide Lru.Valid, ModelOf, LruModel.Put, LruModel.Get, LruModel.PopByKey, LruModel.PopHead, DropLast;
    lru.NodesInMemory();
    match op
    case OpPut(key, value) => var popped := lru.Put(key, value);
    case OpGet(key) => var node; ghost var k; node, k := lru.Get(key);
    case OpMoveToHead(key) => lru.MoveToHead(key);
    case OpHashGet(key) => var node; ghost var k; node, k := lru.HashGet(key);
    case OpPopByKey(key) => var udata := lru.PopByKey(key);
    case OpPopHead => var udata := lru.PopHead();
    case OpPopTail => var udata := lru.PopTail();
  }

  // start supplies the history of last accesses that the recency theorems speak of.
  method Run(lru: Lru, ops: seq<Op<Key, array?<octet>>>, ghost start: Timed<Key, array?<octet>>)
    requires lru.Valid() && lru.Model() == start.m && KeysFit(ops, lru.keyLen)
    modifies lru.Repr(), lru.kvs.buckets, lru.kvs.entries.Values
    ensures lru.Valid() && lru.Model() == RunOps(start, lru.maxSize, ops).m
    ensures fresh(lru.kvs.entries.Values - old(lru.kvs.entries.Values))
  {
    hide Lru.Valid, ModelOf, Apply, Accesses;
    ghost var s := start;
    assert ops[0..] == ops;
    for i := 0 to |ops|
      invariant lru.Valid() && lru.Model() == s.m
      invariant RunOps(s, lru.maxSize, ops[i..]) == RunOps(start, lru.maxSize, ops)
      invariant fresh(lru.kvs.entries.Values - old(lru.kvs.entries.Values))
    {
      RunStep(s, lru.maxSize, ops[i..]);
      assert ops[i..][0] == ops[i] && ops[i..][1..] == ops[i + 1..];
      Do(lru, ops[i]);
      s := Next(s, lru.maxSize, ops[i]);
    }
  }

  lemma RunStep<K, V>(s: Timed<K, V>, max: nat, ops: seq<Op<K, V>>)
    requires ops != []
    ensures RunOps(s, max, ops) == RunOps(Next(s, max, ops[0]), max, ops[1..])
  {
  }

  // Every run from a new cache. In those that never access the tail of a list of two, the entries are in
  // the order of their last accesses, so that put evicts the least recently accessed key.
  method CreateAndRun(maxSize: nat, blockSize: nat, ghost keyLen: nat, ops: seq<Op<Key, array?<octet>>>) returns (lru: Lru)
    requires maxSize > 0 && KeysFit(ops, keyLen)
    ensures lru.Valid() && lru.maxSize == maxSize && lru.Model() == RunOps(Timed([], map[], 0), maxSize, ops).m
    ensures NeverHitsTailOfTwo(Timed([], map[], 0), maxSize, ops) ==> Ordered(RunOps(Timed([], map[], 0), maxSize, ops))
  {
    ghost var empty: Timed<Key, array?<octet>> := Timed([], map[], 0);
    if NeverHitsTailOfTwo(empty, maxSize, ops) {
      RecencyRun(empty, maxSize, ops);
    }
    hide Lru.Valid, ModelOf, RunOps, Owned;
    lru := Lru.Create(maxSize, blockSize, keyLen);
    Run(lru, ops, empty);
  }

  // ---- Runs of a cache filled through fixed_store only ----

  method FixedDo(lru: Lru, op: Op<Key, seq<octet>>)
    requires lru.Valid() && lru.OwnsBlocks() && (op.OpPut? ==> |op.key| == lru.keyLen && |op.value| == lru.blockSize)
    modifies lru.Repr(), lru.blocks, lru.kvs.buckets, lru.kvs.entries.Values
    ensures lru.Valid() && lru.OwnsBlocks() && lru.Contents() == Apply(old(lru.Contents()), lru.maxSize, op)
    ensures fresh(lru.kvs.entries.Values - old(lru.kvs.entries.Values))
  {
    hide Lru.Valid, ModelOf, ContentsOf, Owned, LruModel.Put, LruModel.Get, LruModel.PopByKey, LruModel.PopHead, DropLast;
    lru.NodesInMemory();
    match op
    case OpPut(key, value) =>
      assert value[..lru.blockSize] == value;
      lru.FixedStore(key, value);
    case OpGet(key) => var node; ghost var k; node, k := lru.FixedGet(key);
    case OpMoveToHead(key) => lru.FixedMoveToHead(key);
    case OpHashGet(key) => var node; ghost var k; node, k := lru.HashGet(key);
    case OpPopByKey(key) => var udata := lru.FixedPopByKey(key);
    case OpPopHead => var udata := lru.FixedPopHead();
    case OpPopTail => var udata := lru.FixedPopTail();
  }

  ghost predicate ValuesFit(ops: seq<Op<Key, seq<octet>>>, blockSize: nat) {
    forall i :: 0 <= i < |ops| && ops[i].OpPut? ==> |ops[i].value| == blockSize
  }

  // Through any evictions and reuse of blocks, the bytes under every key are those of the model.
  method FixedRun(lru: Lru, ops: seq<Op<Key, seq<octet>>>, ghost start: Timed<Key, seq<octet>>)
    requires lru.Valid() && lru.OwnsBlocks() && lru.Contents() == start.m
    requires KeysFit(ops, lru.keyLen) && ValuesFit(ops, lru.blockSize)
    modifies lru.Repr(), lru.blocks, lru.kvs.buckets, lru.kvs.entries.Values
    ensures lru.Valid() && lru.OwnsBlocks() && lru.Contents() == RunOps(start, lru.maxSize, ops).m
    ensures fresh(lru.kvs.entries.Values - old(lru.kvs.entries.Values))
  {
    hide Lru.Valid, Lru.OwnsBlocks, Lru.Contents, Apply, Accesses;
    ghost var s := start;
    assert ops[0..] == ops;
    for i := 0 to |ops|
      invariant lru.Valid() && lru.OwnsBlocks() && lru.Contents() == s.m
      invariant RunOps(s, lru.maxSize, ops[i..]) == RunOps(start, lru.maxSize, ops)
      invariant fresh(lru.kvs.entries.Values - old(lru.kvs.entries.Values))
    {
      RunStep(s, lru.maxSize, ops[i..]);
      assert ops[i..][0] == ops[i] && ops[i..][1..] == ops[i + 1..];
      FixedDo(lru, ops[i]);
      s := Next(s, lru.maxSize, ops[i]);
    }
  }

  method CreateAndFixedRun(maxSize: nat, blockSize: nat, ghost keyLen: nat, ops: seq<Op<Key, seq<octet>>>) returns (lru: Lru)
    requires maxSize > 0 && blockSize > 0 && KeysFit(ops, keyLen) && ValuesFit(ops, blockSize)
    ensures lru.Valid() && lru.OwnsBlocks() && lru.maxSize == maxSize
    ensures lru.Contents() == RunOps(Timed([], map[], 0), maxSize, ops).m
  {
    hide Lru.Valid, RunOps, Owned;
    lru := Lru.Create(maxSize, blockSize, keyLen);
    FixedRun(lru, ops, Timed([], map[], 0));
  }
}
