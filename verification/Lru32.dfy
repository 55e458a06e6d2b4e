/**
 The cache of gnb_lru32.c on the heap: an intrusive list, a hash map and free-list pools that point
 at one another, proved to implement the sequence operations of LruModel.
 */
module Lru32 {
  import opened Sequences
  import opened LruModel
  import DL = DoublyLinkedList
  import H = Hash32
  import P = FixedPool

  type octet = H.octet
  type Key = H.Key
  type DlNode = DL.Node<LruNode?>

  class LruNode {
    var dlNode: DL.Node?<LruNode?>
    var kv: H.Kv?<LruNode?>
    var udata: array?<octet> // void *

    constructor ()
      ensures dlNode == null && kv == null && udata == null
    {
      dlNode, kv, udata := null, null, null;
    }
  }

  type CacheEntry = Entry<Key, array?<octet>>

  ghost function KeyOf(n: LruNode): Key
    reads n`kv
  {
    if n.kv == null then [] else n.kv.key
  }

  ghost function EntryOf(n: LruNode): CacheEntry
    reads n`kv, n`udata
  {
    Entry(KeyOf(n), n.udata)
  }

  ghost function ModelOf(o: seq<LruNode>): (m: seq<CacheEntry>)
    reads o`kv, o`udata
    ensures |m| == |o| && forall i :: 0 <= i < |o| ==> m[i] == EntryOf(o[i])
  {
    if o == [] then [] else [EntryOf(o[0])] + ModelOf(o[1..])
  }

  lemma TouchModel(o: seq<LruNode>, k: nat)
    requires k < |o|
    ensures ModelOf(Touch(o, k)) == Touch(ModelOf(o), k)
  {
  }

  lemma KeyRemoved<V>(m: map<Key, V>, key: Key)
    requires key in m
    ensures |m - {key}| == |m| - 1 && (m - {key}).Values <= m.Values
  {
    H.RemoveKeySize(m, key);
  }

  lemma KeyAdded<V>(m: map<Key, V>, key: Key, v: V)
    requires key !in m
    ensures |m[key := v]| == |m| + 1 && m[key := v].Values <= m.Values + {v}
  {
    assert m[key := v].Keys == m.Keys + {key};
    assert |m[key := v].Keys| == |m.Keys| + 1;
  }

  lemma SubsetFull<T>(a: set<T>, b: set<T>)
    requires a <= b && |a| == |b|
    ensures a == b
  {
    assert |b - a| == |b| - |a|;
  }

  method NewLruNodes(n: nat) returns (nodes: seq<LruNode>)
    ensures |nodes| == n && Distinct(nodes) && fresh(nodes)
  {
    nodes := [];
    for i := 0 to n
      invariant |nodes| == i && Distinct(nodes) && fresh(nodes)
    {
      var node := new LruNode();
      nodes := nodes + [node];
    }
  }

  method NewDlNodes(n: nat) returns (nodes: seq<DlNode>)
    ensures |nodes| == n && Distinct(nodes) && fresh(nodes)
  {
    nodes := [];
    for i := 0 to n
      invariant |nodes| == i && Distinct(nodes) && fresh(nodes)
    {
      var node := new DL.Node(null);
      nodes := nodes + [node];
    }
  }

  // The blocks of the data pool, all zero.
  method NewBlocks(n: nat, blockSize: nat) returns (blocks: seq<array<octet>>)
    ensures |blocks| == n && Distinct(blocks) && fresh(blocks)
    ensures forall i :: 0 <= i < n ==> blocks[i].Length == blockSize
  {
    blocks := [];
    for i := 0 to n
      invariant |blocks| == i && Distinct(blocks) && fresh(blocks)
      invariant forall j :: 0 <= j < i ==> blocks[j].Length == blockSize
    {
      var block := new octet[blockSize](_ => 0);
      blocks := blocks + [block];
    }
  }

  // The free items and the used ones are distinct items of one memory area.
  ghost predicate Spare<T>(free: seq<T>, used: seq<T>, all: set<T>) {
    && Distinct(free) && Distinct(used)
    && (forall i :: 0 <= i < |free| ==> free[i] in all && free[i] !in used)
    && (forall i :: 0 <= i < |used| ==> used[i] in all)
  }

  lemma SparePop<T>(free: seq<T>, used: seq<T>, all: set<T>, rest: seq<T>, top: T)
    requires Spare(free, used, all) && free == rest + [top]
    ensures top in all && top !in used && Spare(rest, [top] + used, all)
  {
    assert free[|rest|] == top;
    forall i | 0 <= i < |rest| ensures rest[i] in all && rest[i] !in [top] + used {
      assert free[i] == rest[i];
    }
    forall i, j | 0 <= i < j < |rest| ensures rest[i] != rest[j] {
      assert free[i] == rest[i] && free[j] == rest[j];
    }
  }

  lemma SparePush<T>(free: seq<T>, used: seq<T>, all: set<T>, k: nat)
    requires Spare(free, used, all) && k < |used|
    ensures Spare(free + [used[k]], RemoveAt(used, k), all)
  {
    DistinctRemove(used, k);
  }

  lemma SparePermuted<T>(free: seq<T>, used: seq<T>, all: set<T>, k: nat)
    requires Spare(free, used, all) && k < |used|
    ensures Spare(free, Touch(used, k), all)
  {
    DistinctTouch(used, k);
    forall i | 0 <= i < |used| ensures Touch(used, k)[i] in all {
      assert Touch(used, k)[i] in used;
    }
  }

  // ---- Ownership of data blocks, in a cache filled through fixed_store ----

  ghost function ValuesOf(m: seq<CacheEntry>): (v: seq<array?<octet>>)
    ensures |v| == |m| && forall i :: 0 <= i < |m| ==> v[i] == m[i].value
  {
    seq(|m|, i requires 0 <= i < |m| => m[i].value)
  }

  // Every entry has a block of its own, and the free blocks are the others.
  ghost predicate Owned(m: seq<CacheEntry>, free: seq<array?<octet>>, blocks: set<array<octet>>, blockSize: nat) {
    && (forall i :: 0 <= i < |m| ==> m[i].value != null)
    && (forall i :: 0 <= i < |free| ==> free[i] != null)
    && (forall b :: b in blocks ==> b.Length == blockSize)
    && Spare<array<octet>>(free, ValuesOf(m), blocks)
  }

  ghost function BytesOf(e: CacheEntry): Entry<Key, seq<octet>>
    reads if e.value == null then {} else {e.value}
  {
    Entry(e.key, if e.value == null then [] else e.value[..])
  }

  // The entries with the bytes of their blocks.
  ghost function ContentsOf(m: seq<CacheEntry>): (c: seq<Entry<Key, seq<octet>>>)
    reads set e | e in m && e.value != null :: e.value
    ensures |c| == |m| && forall i :: 0 <= i < |m| ==> c[i] == BytesOf(m[i])
  {
    if m == [] then [] else [BytesOf(m[0])] + ContentsOf(m[1..])
  }

  lemma TouchContents(m: seq<CacheEntry>, k: nat)
    requires k < |m|
    ensures ContentsOf(Touch(m, k)) == Touch(ContentsOf(m), k)
  {
  }

  lemma PrefixContents(m: seq<CacheEntry>, n: nat)
    requires n <= |m|
    ensures ContentsOf(m[..n]) == ContentsOf(m)[..n]
  {
  }

  lemma ConsContents(e: CacheEntry, m: seq<CacheEntry>)
    ensures ContentsOf([e] + m) == [BytesOf(e)] + ContentsOf(m)
  {
  }

  lemma OwnedFacts(m: seq<CacheEntry>, free: seq<array?<octet>>, blocks: set<array<octet>>, blockSize: nat)
    requires Owned(m, free, blocks, blockSize)
    ensures forall i :: 0 <= i < |m| ==> m[i].value != null && m[i].value in blocks && m[i].value.Length == blockSize
    ensures forall i, j :: 0 <= i < j < |m| ==> m[i].value != m[j].value
  {
    var v: seq<array<octet>> := ValuesOf(m);
    forall i, j | 0 <= i < j < |m| ensures m[i].value != m[j].value {
      assert v[i] != v[j];
    }
    forall i | 0 <= i < |m| ensures m[i].value in blocks {
      assert v[i] in blocks;
    }
  }

  lemma OwnedTouch(m: seq<CacheEntry>, free: seq<array?<octet>>, blocks: set<array<octet>>, blockSize: nat, k: nat)
    requires Owned(m, free, blocks, blockSize) && k < |m|
    ensures Owned(Touch(m, k), free, blocks, blockSize)
  {
    TouchSubset(m, k);
    SparePermuted<array<octet>>(free, ValuesOf(m), blocks, k);
    assert ValuesOf(Touch(m, k)) == Touch<array<octet>>(ValuesOf(m), k);
  }

  lemma FreshOwned(free: seq<array<octet>>, blocks: set<array<octet>>, blockSize: nat)
    requires Distinct(free) && blocks == (set b | b in free) && forall i :: 0 <= i < |free| ==> free[i].Length == blockSize
    ensures Owned([], free, blocks, blockSize)
  {
  }

  // A popped entry's block becomes free.
  lemma OwnedRemove(m: seq<CacheEntry>, free: seq<array?<octet>>, blocks: set<array<octet>>, blockSize: nat, k: nat)
    requires Owned(m, free, blocks, blockSize) && k < |m|
    ensures Owned(RemoveAt(m, k), free + [m[k].value], blocks, blockSize)
  {
    SparePush<array<octet>>(free, ValuesOf(m), blocks, k);
    assert ValuesOf(RemoveAt(m, k)) == RemoveAt<array<octet>>(ValuesOf(m), k);
  }

  // A block taken from the pool belongs to no entry until a new one gets it.
  lemma OwnedTake(m: seq<CacheEntry>, free: seq<array?<octet>>, blocks: set<array<octet>>, blockSize: nat,
                  rest: seq<array?<octet>>, block: array?<octet>, key: Key)
    requires Owned(m, free, blocks, blockSize) && free == rest + [block]
    ensures Owned([Entry(key, block)] + m, rest, blocks, blockSize)
    ensures block != null && block in blocks && forall i :: 0 <= i < |m| ==> m[i].value != block
  {
    assert free[|rest|] == block;
    assert forall i :: 0 <= i < |rest| ==> rest[i] == free[i];
    SparePop<array<octet>>(free, ValuesOf(m), blocks, rest, block);
    assert ValuesOf([Entry(key, block)] + m) == [block] + ValuesOf(m);
    forall i | 0 <= i < |m| ensures m[i].value != block {
      assert ValuesOf(m)[i] == m[i].value;
    }
  }

  lemma GetContents(m: seq<CacheEntry>, key: Key)
    ensures ContentsOf(LruModel.Get(m, key)) == LruModel.Get(ContentsOf(m), key)
    ensures Position(ContentsOf(m), key) == Position(m, key)
  {
    hide Position, Touch;
    SamePosition(m, ContentsOf(m), key);
    if Has(m, key) {
      TouchContents(m, Position(m, key));
    }
  }

  lemma OwnedGet(m: seq<CacheEntry>, free: seq<array?<octet>>, blocks: set<array<octet>>, blockSize: nat, key: Key)
    requires Owned(m, free, blocks, blockSize)
    ensures Owned(LruModel.Get(m, key), free, blocks, blockSize)
  {
    hide Owned, Touch, Position;
    if Has(m, key) {
      OwnedTouch(m, free, blocks, blockSize, Position(m, key));
    }
  }

  lemma RemoveContents(m: seq<CacheEntry>, k: nat)
    requires k < |m|
    ensures ContentsOf(RemoveAt(m, k)) == RemoveAt(ContentsOf(m), k)
  {
  }

  lemma OwnedPopTail(m: seq<CacheEntry>, free: seq<array?<octet>>, blocks: set<array<octet>>, blockSize: nat)
    requires Owned(m, free, blocks, blockSize)
    ensures Owned(DropLast(m), free + (if m == [] then [] else [m[|m| - 1].value]), blocks, blockSize)
  {
    hide Owned;
    if m == [] {
      assert free + [] == free;
    } else {
      RemoveEnds(m);
      OwnedRemove(m, free, blocks, blockSize, |m| - 1);
    }
  }

  lemma ContentsPopTail(m: seq<CacheEntry>)
    ensures ContentsOf(DropLast(m)) == DropLast(ContentsOf(m))
  {
    if m != [] {
      PrefixContents(m, |m| - 1);
    }
  }

  lemma OwnedPopHead(m: seq<CacheEntry>, free: seq<array?<octet>>, blocks: set<array<octet>>, blockSize: nat)
    requires Owned(m, free, blocks, blockSize)
    ensures Owned(LruModel.PopHead(m), free + (if m == [] then [] else [m[0].value]), blocks, blockSize)
  {
    hide Owned;
    if m == [] {
      assert free + [] == free;
    } else {
      RemoveEnds(m);
      OwnedRemove(m, free, blocks, blockSize, 0);
    }
  }

  lemma ContentsPopHead(m: seq<CacheEntry>)
    ensures ContentsOf(LruModel.PopHead(m)) == LruModel.PopHead(ContentsOf(m))
  {
  }

  lemma OwnedPopByKey(m: seq<CacheEntry>, free: seq<array?<octet>>, blocks: set<array<octet>>, blockSize: nat, key: Key)
    requires Owned(m, free, blocks, blockSize)
    ensures Owned(LruModel.PopByKey(m, key),
                  free + (match Lookup(m, key) case Some(v) => [v] case None => []), blocks, blockSize)
  {
    hide Owned, Position;
    if Has(m, key) {
      OwnedRemove(m, free, blocks, blockSize, Position(m, key));
    } else {
      assert free + [] == free;
    }
  }

  lemma ContentsPopByKey(m: seq<CacheEntry>, key: Key)
    ensures ContentsOf(LruModel.PopByKey(m, key)) == LruModel.PopByKey(ContentsOf(m), key)
  {
    hide Position, RemoveAt;
    SamePosition(m, ContentsOf(m), key);
    if Has(m, key) {
      RemoveContents(m, Position(m, key));
    }
  }

  // The block a store gives back to the heap, if any.
  ghost function Released(m: seq<CacheEntry>, max: nat, key: Key): array?<octet> {
    match Lookup(m, key)
    case Some(v) => v
    case None => match Evicted(m, max, key) case Some(e) => e.value case None => null
  }

  // That is the block of the key's entry; for a new key in a full cache, the block of the last entry.
  lemma ReleasedLaw(m: seq<CacheEntry>, max: nat, key: Key, i: nat)
    requires Wf(m, max) && max > 0
    ensures i < |m| && m[i].key == key ==> Released(m, max, key) == m[i].value
    ensures (forall j :: 0 <= j < |m| ==> m[j].key != key) ==>
              Released(m, max, key) == if |m| == max then m[max - 1].value else null
  {
    if i < |m| {
      AtPosition(m, max, i);
    }
  }

  // What a put leaves in a data pool: a new key takes a block, which in a full cache is the one that
  // the eviction has just given back.
  ghost function PoolAfter(free: seq<array?<octet>>, m: seq<CacheEntry>, max: nat, key: Key): seq<array?<octet>> {
    if Has(m, key) || |m| >= max then free else DropLast(free)
  }

  class Lru {
    const list: DL.List<LruNode?>
    const kvs: H.Map<LruNode?>
    const lruPool: P.FixedPool<LruNode?>
    const dlPool: P.FixedPool<DL.Node?<LruNode?>>
    const udataPool: P.FixedPool<array?<octet>>
    const maxSize: nat
    const blockSize: nat
    var size: nat
    ghost const keyLen: nat // all keys of one cache have one length
    ghost var order: seq<LruNode> // from head to tail
    ghost const lruNodes: set<LruNode> // the memory of the pools
    ghost const dlNodes: set<DlNode>
    ghost const blocks: set<array<octet>>

    ghost predicate Layout() {
      && maxSize > 0
      && lruPool.nil == null && dlPool.nil == null
      && lruPool.slots.Length == dlPool.slots.Length == maxSize
      && (blockSize != 0 ==> udataPool.slots.Length == maxSize)
      && {lruPool.slots as object, dlPool.slots, udataPool.slots} !! blocks
    }

    // Hash entries and cached nodes are in bijection, with pointers both ways.
    ghost predicate MapPart(o: seq<LruNode>)
      reads kvs`entries, kvs.entries.Values, o`kv
    {
      && Distinct(o) && |o| == |kvs.entries|
      && forall i {:trigger o[i].kv} :: 0 <= i < |o| ==> Filed(o[i])
    }

    // The map has an entry for the node, the two point at each other and the key has the right length.
    ghost predicate Filed(n: LruNode)
      reads n`kv, kvs`entries, kvs.entries.Values
    {
      && n.kv != null && n.kv.key in kvs.entries && |n.kv.key| == keyLen
      && kvs.entries[n.kv.key] == n.kv && n.kv.value == n
    }

    // List nodes and cached nodes are in bijection in list order.
    ghost predicate DataLinks(o: seq<LruNode>, ns: seq<DlNode>)
      reads o`dlNode, ns`data
    {
      |o| == |ns| && forall i :: 0 <= i < |o| ==> o[i].dlNode == ns[i] && ns[i].data == o[i]
    }

    // The node pools hold what is not in use, maxSize - size items each.
    ghost predicate NodePools(o: seq<LruNode>, ns: seq<DlNode>)
      reads lruPool, lruPool.slots, dlPool, dlPool.slots
    {
      && |ns| == |o| <= maxSize
      && lruPool.Valid() && dlPool.Valid() && lruPool.num == dlPool.num == maxSize - |o|
      && (forall i :: 0 <= i < lruPool.num ==> lruPool.Free()[i] != null) && Spare<LruNode>(lruPool.Free(), o, lruNodes)
      && (forall i :: 0 <= i < dlPool.num ==> dlPool.Free()[i] != null) && Spare<DlNode>(dlPool.Free(), ns, dlNodes)
    }

    // And so does the data pool when it is in use.
    ghost predicate PoolPart(o: seq<LruNode>, ns: seq<DlNode>)
      reads lruPool, lruPool.slots, dlPool, dlPool.slots, udataPool, udataPool.slots
    {
      NodePools(o, ns) && (blockSize != 0 ==> udataPool.Valid() && udataPool.num == maxSize - |o|)
    }

    // The cache agrees with its map and pools, and with ns as the nodes of its list.
    ghost predicate Parts(ns: seq<DlNode>)
      reads this`order, kvs, kvs.buckets, kvs.entries.Values, order`kv, order`dlNode, ns`data
      reads lruPool, lruPool.slots, dlPool, dlPool.slots, udataPool, udataPool.slots
    {
      Layout() && kvs.Valid() && MapPart(order) && DataLinks(order, ns) && PoolPart(order, ns)
    }

    ghost predicate Valid()
      reads this, list, list.nodes, kvs, kvs.buckets, kvs.entries.Values, order
      reads lruPool, lruPool.slots, dlPool, dlPool.slots, udataPool, udataPool.slots
    {
      size == |order| <= maxSize && list.Valid() && Parts(list.nodes)
    }

    ghost function Model(): seq<CacheEntry>
      reads this`order, order`kv, order`udata
    {
      ModelOf(order)
    }

    // The objects and memory of the cache, but for the data blocks and what the map is made of.
    ghost function Repr(): set<object> {
      {this, list, kvs, lruPool, lruPool.slots, dlPool, dlPool.slots, udataPool, udataPool.slots} + lruNodes + dlNodes
    }

    // A cache over pools that hold everything, an empty list and an empty map.
    constructor (maxSize: nat, blockSize: nat, ghost keyLen: nat, list: DL.List<LruNode?>, kvs: H.Map<LruNode?>,
                 lruPool: P.FixedPool<LruNode?>, dlPool: P.FixedPool<DL.Node?<LruNode?>>,
                 udataPool: P.FixedPool<array?<octet>>, ghost blocks: set<array<octet>>, ghost freeLru: seq<LruNode>, ghost freeDl: seq<DlNode>)
      requires maxSize > 0 && list.Valid() && list.nodes == [] && kvs.Valid() && kvs.entries == map[]
      requires lruPool.Valid() && lruPool.nil == null && lruPool.Free() == freeLru && lruPool.slots.Length == maxSize
      requires dlPool.Valid() && dlPool.nil == null && dlPool.Free() == freeDl && dlPool.slots.Length == maxSize
      requires blockSize != 0 ==> udataPool.Valid() && udataPool.num == udataPool.slots.Length == maxSize
      requires Distinct(freeLru) && Distinct(freeDl) && |freeLru| == |freeDl| == maxSize
      requires {lruPool.slots as object, dlPool.slots, udataPool.slots} !! blocks
      ensures Valid() && Model() == [] && size == 0 && this.udataPool == udataPool && this.blocks == blocks
      ensures this.maxSize == maxSize && this.blockSize == blockSize && this.keyLen == keyLen
      ensures this.list == list && this.kvs == kvs && this.lruPool == lruPool && this.dlPool == dlPool
      ensures lruNodes == (set x | x in freeLru) && dlNodes == (set x | x in freeDl)
    {
      hide H.Map.Valid, DL.List.Valid, P.FixedPool.Valid, PoolPart, MapPart, DataLinks;
      this.maxSize, this.blockSize, this.keyLen := maxSize, blockSize, keyLen;
      this.list, this.kvs, this.lruPool, this.dlPool, this.udataPool := list, kvs, lruPool, dlPool, udataPool;
      size, order, this.blocks := 0, [], blocks;
      dlNodes := set x | x in freeDl;
      lruNodes := set x | x in freeLru;
      new;
      EmptyParts(freeLru, freeDl);
    }

    // gnb_lru32_create.
    static method Create(maxSize: nat, blockSize: nat, ghost keyLen: nat) returns (lru: Lru)
      requires maxSize > 0
      ensures fresh(lru.Repr()) && fresh(lru.kvs.buckets) && fresh(lru.blocks) && lru.kvs.entries == map[]
      ensures lru.Valid() && lru.Model() == [] && lru.size == 0
      ensures blockSize != 0 ==> lru.OwnsBlocks()
      ensures lru.maxSize == maxSize && lru.blockSize == blockSize && lru.keyLen == keyLen
    {
      hide Lru.Valid, Owned;
      var udataPool, blocks := NewUdataPool(maxSize, blockSize);
      lru := Assemble(maxSize, blockSize, keyLen, udataPool, blocks);
    }

    // Everything but the data pool.
    static method Assemble(maxSize: nat, blockSize: nat, ghost keyLen: nat, udataPool: P.FixedPool<array?<octet>>,
                           ghost blocks: set<array<octet>>) returns (lru: Lru)
      requires maxSize > 0 && {udataPool.slots as object} !! blocks
      requires blockSize != 0 ==> udataPool.Valid() && udataPool.num == udataPool.slots.Length == maxSize
      ensures fresh(lru) && fresh(lru.list) && fresh(lru.kvs) && fresh(lru.kvs.buckets) && lru.kvs.entries == map[]
      ensures fresh(lru.lruPool) && fresh(lru.lruPool.slots) && fresh(lru.dlPool) && fresh(lru.dlPool.slots)
      ensures fresh(lru.lruNodes) && fresh(lru.dlNodes) && lru.udataPool == udataPool && lru.blocks == blocks
      ensures lru.Valid() && lru.Model() == [] && lru.size == 0
      ensures lru.maxSize == maxSize && lru.blockSize == blockSize && lru.keyLen == keyLen
    {
      hide Lru.Valid, Distinct, H.Map.Valid, DL.List.Valid, P.FixedPool.Valid;
      var freeDl := NewDlNodes(maxSize);
      var freeLru := NewLruNodes(maxSize);
      var dlPool := new P.FixedPool(null, freeDl);
      var lruPool := new P.FixedPool(null, freeLru);
      var list := new DL.List();
      var kvs := new H.Map(maxSize);
      lru := new Lru(maxSize, blockSize, keyLen, list, kvs, lruPool, dlPool, udataPool, blocks, freeLru, freeDl);
    }

    // The data pool, which is used only with a block size.
    static method NewUdataPool(maxSize: nat, blockSize: nat)
      returns (pool: P.FixedPool<array?<octet>>, ghost blocks: set<array<octet>>)
      ensures fresh(pool) && fresh(pool.slots) && fresh(blocks) && pool.Valid() && {pool.slots as object} !! blocks
      ensures blockSize != 0 ==> pool.num == pool.slots.Length == maxSize && Owned([], pool.Free(), blocks, blockSize)
    {
      hide Owned;
      var items: seq<array<octet>> := [];
      if blockSize != 0 {
        items := NewBlocks(maxSize, blockSize);
      }
      pool := new P.FixedPool(null, items);
      blocks := set b | b in items;
      if blockSize != 0 {
        FreshOwned(items, blocks, blockSize);
      }
    }

    lemma EmptyParts(freeLru: seq<LruNode>, freeDl: seq<DlNode>)
      requires Distinct(freeLru) && Distinct(freeDl) && |freeLru| == |freeDl| == maxSize && kvs.entries == map[]
      requires lruPool.Valid() && dlPool.Valid() && lruPool.Free() == freeLru && dlPool.Free() == freeDl
      requires blockSize != 0 ==> udataPool.Valid() && udataPool.num == maxSize
      requires lruNodes == (set x | x in freeLru) && dlNodes == (set x | x in freeDl)
      ensures MapPart([]) && DataLinks([], []) && PoolPart([], [])
    {
      assert forall x :: x in freeLru ==> x in lruNodes;
      assert forall x :: x in freeDl ==> x in dlNodes;
    }

    lemma PermutedMapPart(o: seq<LruNode>, o': seq<LruNode>)
      requires MapPart(o) && Distinct(o') && |o'| == |o| && forall x :: x in o <==> x in o'
      ensures MapPart(o')
    {
      forall i | 0 <= i < |o'| ensures Filed(o'[i]) {
        assert o'[i] in o;
      }
    }

    lemma LinkAt(o: seq<LruNode>, ns: seq<DlNode>, k: nat)
      requires DataLinks(o, ns) && k < |o|
      ensures |o| == |ns| && o[k].dlNode == ns[k] && ns[k].data == o[k]
    {
    }

    // Moving a node to the front of both orders keeps every link.
    lemma TouchAll(o: seq<LruNode>, ns: seq<DlNode>, k: nat)
      requires MapPart(o) && DataLinks(o, ns) && PoolPart(o, ns) && Distinct(ns) && k < |o|
      ensures MapPart(Touch(o, k)) && DataLinks(Touch(o, k), Touch(ns, k)) && PoolPart(Touch(o, k), Touch(ns, k))
      ensures ModelOf(Touch(o, k)) == Touch(ModelOf(o), k)
    {
      hide Touch, Spare;
      assert Distinct(o);
      DistinctTouch(o, k);
      DistinctTouch(ns, k);
      PermutedMapPart(o, Touch(o, k));
      SparePermuted<LruNode>(lruPool.Free(), o, lruNodes, k);
      SparePermuted<DlNode>(dlPool.Free(), ns, dlNodes, k);
      TouchLinks(o, ns, k);
      TouchModel(o, k);
    }

    lemma TouchLinks(o: seq<LruNode>, ns: seq<DlNode>, k: nat)
      requires DataLinks(o, ns) && k < |o|
      ensures DataLinks(Touch(o, k), Touch(ns, k))
    {
    }

    lemma EntryAt(o: seq<LruNode>, i: nat)
      requires MapPart(o) && i < |o|
      ensures Filed(o[i]) && EntryOf(o[i]).key == o[i].kv.key
    {
    }

    // The keys of the first n nodes.
    ghost function KeysOf(o: seq<LruNode>, n: nat): set<Key>
      requires n <= |o|
      reads o`kv
    {
      if n == 0 then {} else KeysOf(o, n - 1) + {KeyOf(o[n - 1])}
    }

    lemma {:induction false} KeyIndex(o: seq<LruNode>, n: nat, key: Key) returns (i: nat)
      requires n <= |o| && key in KeysOf(o, n)
      ensures i < n && KeyOf(o[i]) == key
    {
      if key == KeyOf(o[n - 1]) {
        i := n - 1;
      } else {
        i := KeyIndex(o, n - 1, key);
      }
    }

    lemma {:induction false} KeysCount(o: seq<LruNode>, n: nat)
      requires MapPart(o) && n <= |o|
      ensures |KeysOf(o, n)| == n && KeysOf(o, n) <= kvs.entries.Keys
    {
      hide MapPart;
      if n > 0 {
        KeysCount(o, n - 1);
        EntryAt(o, n - 1);
        if KeyOf(o[n - 1]) in KeysOf(o, n - 1) {
          var i := KeyIndex(o, n - 1, KeyOf(o[n - 1]));
          SameKey(o, i, n - 1);
        }
      }
    }

    lemma SameKey(o: seq<LruNode>, i: nat, j: nat)
      requires MapPart(o) && i < |o| && j < |o| && KeyOf(o[i]) == KeyOf(o[j])
      ensures i == j
    {
      EntryAt(o, i);
      EntryAt(o, j);
    }

    // Every key of the map belongs to a cached node.
    lemma Covered(o: seq<LruNode>, key: Key) returns (i: nat)
      requires MapPart(o) && key in kvs.entries
      ensures i < |o| && KeyOf(o[i]) == key && o[i].kv == kvs.entries[key]
    {
      KeysCount(o, |o|);
      SubsetFull(KeysOf(o, |o|), kvs.entries.Keys);
      i := KeyIndex(o, |o|, key);
      EntryAt(o, i);
    }

    // Keys of the model are distinct, and it has the keys of the map.
    lemma {:induction false} ModelFacts(o: seq<LruNode>)
      requires MapPart(o) && |o| <= maxSize
      ensures Wf(ModelOf(o), maxSize)
      ensures forall k :: k in kvs.entries <==> Has(ModelOf(o), k)
    {
      hide Position, MapPart;
      var m := ModelOf(o);
      forall k | k in kvs.entries ensures Has(m, k) {
        var i := Covered(o, k);
      }
      forall k | Has(m, k) ensures k in kvs.entries {
        EntryAt(o, Position(m, k));
      }
      forall i, j | 0 <= i < j < |m| ensures m[i].key != m[j].key {
        if m[i].key == m[j].key {
          SameKey(o, i, j);
        }
      }
    }

    // gnb_lru32_hash_get.
    method HashGet(key: Key) returns (node: LruNode?, ghost k: nat)
      requires Valid()
      ensures k == Position(Model(), key) && (node == null <==> !Has(Model(), key))
      ensures node != null ==> node == order[Position(Model(), key)] && node.kv != null && node.kv.key == key
      ensures node != null ==> node.udata == Model()[Position(Model(), key)].value
    {
      hide H.Map.Valid, DL.List.Valid, MapPart, PoolPart, DataLinks, Position;
      ModelFacts(order);
      k := Position(Model(), key);
      var kv := kvs.Get(key);
      if kv == null {
        return null, k;
      }
      node := kv.value;
      EntryAt(order, k);
    }

    // gnb_doubly_linked_list_move_head on the list node of the k-th entry.
    method MoveEntry(node: LruNode, ghost k: nat)
      requires Valid() && k < |order| && order[k] == node
      modifies list, list.nodes`pre, list.nodes`nex, this`order
      ensures Valid() && order == Touch(old(order), k) && Model() == Touch(old(Model()), k)
      ensures forall i :: 0 <= i < |list.nodes| ==> list.nodes[i] in old(list.nodes)
    {
      hide H.Map.Valid, DL.List.Valid, P.FixedPool.Valid, Touch, MapPart, PoolPart, DataLinks, ModelOf;
      ghost var o, ns := order, list.nodes;
      LinkAt(o, ns, k);
      TouchSubset(ns, k);
      list.MoveHead(node.dlNode, k);
      order := Touch(o, k);
      TouchAll(o, ns, k);
    }

    // gnb_lru32_get.
    method Get(key: Key) returns (node: LruNode?, ghost k: nat)
      requires Valid()
      modifies list, list.nodes`pre, list.nodes`nex, this`order
      ensures Valid() && Model() == LruModel.Get(old(Model()), key)
      ensures k == Position(old(Model()), key) && (node == null <==> k == |old(order)|)
      ensures node != null ==> node == old(order)[k] && order == Touch(old(order), k)
      ensures node == null ==> order == old(order)
      ensures forall i :: 0 <= i < |list.nodes| ==> list.nodes[i] in old(list.nodes)
    {
      hide Valid, Touch, ModelOf, Position;
      node, k := HashGet(key);
      if node != null {
        MoveEntry(node, k);
      }
    }

    // gnb_lru32_movetohead.
    method MoveToHead(key: Key)
      requires Valid()
      modifies list, list.nodes`pre, list.nodes`nex, this`order
      ensures Valid() && Model() == LruModel.Get(old(Model()), key)
    {
      hide Valid, Touch, ModelOf, Position;
      var node;
      ghost var k;
      node, k := HashGet(key);
      if node != null {
        MoveEntry(node, k);
      }
    }

    // The cache has been filled through fixed_store only.
    ghost predicate OwnsBlocks()
      reads this`order, order`kv, order`udata, udataPool, udataPool.slots
    {
      blockSize != 0 && udataPool.num <= udataPool.slots.Length && Owned(Model(), udataPool.Free(), blocks, blockSize)
    }

    ghost function Contents(): seq<Entry<Key, seq<octet>>>
      reads this`order, order`kv, order`udata, set n | n in order && n.udata != null :: n.udata
    {
      ModelValues();
      ContentsOf(Model())
    }

    lemma ModelValues()
      ensures forall e :: e in Model() ==> exists n :: n in order && n.udata == e.value
    {
      forall e | e in Model() ensures exists n :: n in order && n.udata == e.value {
        var i :| 0 <= i < |order| && Model()[i] == e;
        assert order[i] in order;
      }
    }

    lemma KeyLengths(o: seq<LruNode>)
      requires MapPart(o)
      ensures forall k :: k in kvs.entries ==> |k| == keyLen
    {
      hide MapPart;
      forall k | k in kvs.entries ensures |k| == keyLen {
        var i := Covered(o, k);
        EntryAt(o, i);
      }
    }

    // The deletion of a node's key from the map.
    method ForgetKey(node: LruNode, ghost o: seq<LruNode>, ghost k: nat)
      requires kvs.Valid() && MapPart(o) && k < |o| && o[k] == node && node.kv != null
      modifies kvs, kvs.buckets, kvs.entries.Values
      ensures kvs.Valid() && MapPart(RemoveAt(o, k)) && kvs.entries.Values <= old(kvs.entries.Values)
    {
      hide H.Map.Valid, RemoveAt, ModelOf, MapPart;
      ghost var key := node.kv.key;
      KeyLengths(o);
      EntryAt(o, k);
      kvs.UniformComparable(key);
      MapPartFacts(o);
      forall i | 0 <= i < |o| && i != k ensures Filed(o[i]) && o[i].kv.key != key {
        EntryAt(o, i);
        if o[i].kv.key == key {
          SameKey(o, i, k);
        }
      }
      var kv := kvs.Del(node.kv.key);
      DistinctRemove(o, k);
      ghost var o' := RemoveAt(o, k);
      forall i | 0 <= i < |o'| ensures Filed(o'[i]) {
        assert o'[i] == o[if i < k then i else i + 1];
      }
      KeyRemoved(old(kvs.entries), key);
      FiledIsMapPart(o');
    }

    lemma MapPartFacts(o: seq<LruNode>)
      requires MapPart(o)
      ensures Distinct(o) && |o| == |kvs.entries|
    {
    }

    lemma FiledIsMapPart(o: seq<LruNode>)
      requires Distinct(o) && |o| == |kvs.entries| && forall i :: 0 <= i < |o| ==> Filed(o[i])
      ensures MapPart(o)
    {
    }

    // gnb_lru32_node_fixed_pool_push for the k-th node.
    method ReturnNode(node: LruNode, ghost o: seq<LruNode>, ghost ns: seq<DlNode>, ghost k: nat)
      requires Layout() && PoolPart(o, ns) && DataLinks(o, ns) && Distinct(o) && Distinct(ns) && k < |o| && o[k] == node
      modifies lruPool`num, lruPool.slots, dlPool`num, dlPool.slots, udataPool`num, udataPool.slots
      ensures PoolPart(RemoveAt(o, k), RemoveAt(ns, k))
      ensures blockSize != 0 ==> udataPool.Free() == old(udataPool.Free()) + [node.udata]
    {
      hide RemoveAt, Spare;
      SparePush<LruNode>(lruPool.Free(), o, lruNodes, k);
      SparePush<DlNode>(dlPool.Free(), ns, dlNodes, k);
      var n := dlPool.Push(node.dlNode);
      if blockSize != 0 {
        n := udataPool.Push(node.udata);
      }
      n := lruPool.Push(node);
    }

    // With room in the cache neither pool is empty, and what comes out is in no use.
    method PopItems(ghost o: seq<LruNode>, ghost ns: seq<DlNode>) returns (node: LruNode, dlNode: DlNode)
      requires Layout() && PoolPart(o, ns) && |o| < maxSize
      modifies lruPool`num, lruPool.slots, dlPool`num, dlPool.slots
      ensures node !in o && node in lruNodes && dlNode !in ns
      ensures NodePools([node] + o, [dlNode] + ns)
      ensures blockSize != 0 ==> udataPool.Valid() && udataPool.num == maxSize - |o|
    {
      hide Spare;
      ghost var n := maxSize - |o| - 1;
      ghost var lruFree: seq<LruNode>, dlFree: seq<DlNode> := lruPool.Free(), dlPool.Free();
      var top := lruPool.Pop();
      var dlTop := dlPool.Pop();
      assert lruFree == lruPool.Free() + [top] && dlFree == dlPool.Free() + [dlTop];
      assert top == lruFree[n] && dlTop == dlFree[n];
      assert lruPool.Free() == lruFree[..n] && dlPool.Free() == dlFree[..n];
      SparePop<LruNode>(lruFree, o, lruNodes, lruFree[..n], top);
      SparePop<DlNode>(dlFree, ns, dlNodes, dlFree[..n], dlTop);
      node, dlNode := top, dlTop;
    }

    lemma RemoveLinks(o: seq<LruNode>, ns: seq<DlNode>, k: nat)
      requires DataLinks(o, ns) && k < |o|
      ensures DataLinks(RemoveAt(o, k), RemoveAt(ns, k))
    {
    }

    lemma RemoveModel(o: seq<LruNode>, k: nat)
      requires k < |o|
      ensures ModelOf(RemoveAt(o, k)) == RemoveAt(ModelOf(o), k)
    {
    }

    method RetireKey(node: LruNode, ghost o: seq<LruNode>, ghost ns: seq<DlNode>, ghost k: nat)
      requires kvs.Valid() && MapPart(o) && DataLinks(o, ns) && PoolPart(o, ns) && k < |o| && o[k] == node
      modifies kvs, kvs.buckets, kvs.entries.Values
      ensures kvs.Valid() && MapPart(RemoveAt(o, k)) && DataLinks(o, ns) && PoolPart(o, ns)
      ensures ModelOf(o) == old(ModelOf(o)) && kvs.entries.Values <= old(kvs.entries.Values)
    {
      hide H.Map.Valid, MapPart, DataLinks, PoolPart, RemoveAt, ModelOf;
      EntryAt(o, k);
      ForgetKey(node, o, k);
    }

    method RetireItems(node: LruNode, ghost o: seq<LruNode>, ghost ns: seq<DlNode>, ghost k: nat)
      requires Layout() && kvs.Valid() && Distinct(o) && Distinct(ns) && k < |o| && o[k] == node
      requires MapPart(RemoveAt(o, k)) && DataLinks(o, ns) && PoolPart(o, ns)
      modifies lruPool`num, lruPool.slots, dlPool`num, dlPool.slots, udataPool`num, udataPool.slots
      ensures kvs.Valid() && kvs.entries == old(kvs.entries)
      ensures MapPart(RemoveAt(o, k)) && DataLinks(RemoveAt(o, k), RemoveAt(ns, k)) && PoolPart(RemoveAt(o, k), RemoveAt(ns, k))
      ensures ModelOf(RemoveAt(o, k)) == RemoveAt(old(ModelOf(o)), k)
      ensures blockSize != 0 ==> udataPool.Free() == old(udataPool.Free()) + [node.udata]
    {
      hide H.Map.Valid, MapPart, DataLinks, PoolPart, RemoveAt, ModelOf, Distinct;
      RemoveModel(o, k);
      RemoveLinks(o, ns, k);
      ReturnNode(node, o, ns, k);
    }

    // Everything a pop does to a node except taking it off the list.
    method Retire(node: LruNode, ghost ns: seq<DlNode>, ghost k: nat)
      requires Layout() && kvs.Valid() && MapPart(order) && DataLinks(order, ns) && PoolPart(order, ns)
      requires Distinct(ns) && k < |order| && order[k] == node
      modifies this`order, kvs, kvs.buckets, kvs.entries.Values
      modifies lruPool`num, lruPool.slots, dlPool`num, dlPool.slots, udataPool`num, udataPool.slots
      ensures order == RemoveAt(old(order), k) && Model() == RemoveAt(old(Model()), k)
      ensures kvs.Valid() && kvs.entries.Values <= old(kvs.entries.Values)
      ensures MapPart(order) && DataLinks(order, RemoveAt(ns, k)) && PoolPart(order, RemoveAt(ns, k))
      ensures blockSize != 0 ==> udataPool.Free() == old(udataPool.Free()) + [old(node.udata)]
    {
      hide H.Map.Valid, MapPart, DataLinks, PoolPart, RemoveAt, ModelOf, Distinct;
      ghost var o := order;
      MapPartFacts(o);
      RetireKey(node, o, ns, k);
      RetireItems(node, o, ns, k);
      order := RemoveAt(o, k);
    }

    // The cache is valid but for the list, which still has the node at k.
    ghost predicate ListBehind(k: nat)
      reads this, list, list.nodes, kvs, kvs.buckets, kvs.entries.Values, order
      reads lruPool, lruPool.slots, dlPool, dlPool.slots, udataPool, udataPool.slots
    {
      k <= |order| < maxSize && size == |order| + 1 == |list.nodes| && list.Valid() && Parts(RemoveAt(list.nodes, k))
    }

    method CutTail()
      requires ListBehind(|order|)
      modifies this`size, list, list.nodes`nex
      ensures Valid() && Model() == old(Model())
    {
      hide H.Map.Valid, MapPart, DataLinks, PoolPart, DL.List.Valid, RemoveAt;
      RemoveEnds(list.nodes);
      var tail := list.PopTail();
      size := size - 1;
    }

    method CutHead()
      requires ListBehind(0)
      modifies this`size, list, list.nodes`pre
      ensures Valid() && Model() == old(Model())
    {
      hide H.Map.Valid, MapPart, DataLinks, PoolPart, DL.List.Valid, RemoveAt;
      RemoveEnds(list.nodes);
      var head := list.PopHead();
      size := size - 1;
    }

    method DropTail(node: LruNode)
      requires Valid() && size > 0 && order[size - 1] == node
      modifies this`order, this`size, list, list.nodes`nex, kvs, kvs.buckets, kvs.entries.Values
      modifies lruPool`num, lruPool.slots, dlPool`num, dlPool.slots, udataPool`num, udataPool.slots
      ensures Valid() && order == RemoveAt(old(order), old(size) - 1)
      ensures Model() == RemoveAt(old(Model()), old(size) - 1) && kvs.entries.Values <= old(kvs.entries.Values)
      ensures blockSize != 0 ==> udataPool.Free() == old(udataPool.Free()) + [old(node.udata)]
    {
      hide H.Map.Valid, MapPart, DataLinks, PoolPart, RemoveAt, DL.List.Valid, ModelOf;
      LinkAt(order, list.nodes, size - 1);
      Retire(node, list.nodes, size - 1);
      CutTail();
    }

    method DropHead(node: LruNode)
      requires Valid() && size > 0 && order[0] == node
      modifies this`order, this`size, list, list.nodes`pre, kvs, kvs.buckets, kvs.entries.Values
      modifies lruPool`num, lruPool.slots, dlPool`num, dlPool.slots, udataPool`num, udataPool.slots
      ensures Valid() && order == RemoveAt(old(order), 0)
      ensures Model() == RemoveAt(old(Model()), 0) && kvs.entries.Values <= old(kvs.entries.Values)
      ensures blockSize != 0 ==> udataPool.Free() == old(udataPool.Free()) + [old(node.udata)]
    {
      hide H.Map.Valid, MapPart, DataLinks, PoolPart, RemoveAt, DL.List.Valid, ModelOf;
      LinkAt(order, list.nodes, 0);
      Retire(node, list.nodes, 0);
      CutHead();
    }

    // The ends of the list lead to the ends of the order.
    lemma Ends()
      requires Valid()
      ensures size == 0 <==> list.head == null
      ensures size == 0 <==> list.tail == null
      ensures size > 0 ==> list.head.data == order[0] && list.tail.data == order[size - 1]
      ensures size > 0 ==> Model() != [] && order[0].udata == Model()[0].value && order[size - 1].udata == Model()[size - 1].value
    {
      hide H.Map.Valid, MapPart, PoolPart, DL.List.Valid;
      if size > 0 {
        LinkAt(order, list.nodes, 0);
        LinkAt(order, list.nodes, size - 1);
      }
    }

    method PopTail() returns (udata: array?<octet>)
      requires Valid()
      modifies this`order, this`size, list, list.nodes`nex, kvs, kvs.buckets, kvs.entries.Values
      modifies lruPool`num, lruPool.slots, dlPool`num, dlPool.slots, udataPool`num, udataPool.slots
      ensures Valid() && Model() == DropLast(old(Model())) && kvs.entries.Values <= old(kvs.entries.Values)
      ensures order == DropLast(old(order))
      ensures udata == if old(Model()) == [] then null else old(Model()[|Model()| - 1].value)
      ensures blockSize != 0 ==> udataPool.Free() == old(udataPool.Free()) + (if old(order) == [] then [] else [udata])
    {
      hide H.Map.Valid, MapPart, DataLinks, PoolPart, RemoveAt, DL.List.Valid;
      Ends();
      if size == 0 || list.tail == null {
        return null;
      }
      var node := list.tail.data;
      if node == null {
        return null;
      }
      udata := node.udata;
      RemoveEnds(order);
      RemoveEnds(Model());
      DropTail(node);
    }

    method PopHead() returns (udata: array?<octet>)
      requires Valid()
      modifies this`order, this`size, list, list.nodes`pre, kvs, kvs.buckets, kvs.entries.Values
      modifies lruPool`num, lruPool.slots, dlPool`num, dlPool.slots, udataPool`num, udataPool.slots
      ensures Valid() && Model() == LruModel.PopHead(old(Model())) && kvs.entries.Values <= old(kvs.entries.Values)
      ensures order == LruModel.PopHead(old(order))
      ensures udata == if old(Model()) == [] then null else old(Model()[0].value)
      ensures blockSize != 0 ==> udataPool.Free() == old(udataPool.Free()) + (if old(order) == [] then [] else [udata])
    {
      hide H.Map.Valid, MapPart, DataLinks, PoolPart, RemoveAt, DL.List.Valid;
      Ends();
      if size == 0 || list.head == null {
        return null;
      }
      var node := list.head.data;
      if node == null {
        return null;
      }
      udata := node.udata;
      RemoveEnds(order);
      RemoveEnds(Model());
      DropHead(node);
    }

    method GetHead() returns (udata: array?<octet>)
      requires Valid()
      ensures udata == if Model() == [] then null else Model()[0].value
    {
      hide H.Map.Valid, MapPart, DataLinks, PoolPart, DL.List.Valid;
      Ends();
      if size == 0 || list.head == null {
        return null;
      }
      var node := list.head.data;
      if node == null {
        return null;
      }
      udata := node.udata;
    }

    method GetTail() returns (udata: array?<octet>)
      requires Valid()
      ensures udata == if Model() == [] then null else Model()[|Model()| - 1].value
    {
      hide H.Map.Valid, MapPart, DataLinks, PoolPart, DL.List.Valid;
      Ends();
      if size == 0 || list.tail == null {
        return null;
      }
      var node := list.tail.data;
      if node == null {
        return null;
      }
      udata := node.udata;
    }

    // gnb_doubly_linked_list_pop on the k-th node, ahead of the rest of its removal.
    method Unlist(node: LruNode, ghost k: nat)
      requires Valid() && k < |order| && order[k] == node && node.dlNode != null
      modifies list, list.nodes`pre, list.nodes`nex
      ensures list.Valid() && list.nodes == RemoveAt(old(list.nodes), k) && kvs.Valid() && Distinct(old(list.nodes))
      ensures MapPart(order) && DataLinks(order, old(list.nodes)) && PoolPart(order, old(list.nodes))
      ensures Model() == old(Model())
    {
      hide H.Map.Valid, MapPart, DataLinks, PoolPart, RemoveAt, DL.List.Valid, ModelOf, Distinct;
      LinkAt(order, list.nodes, k);
      var rc := list.Pop(node.dlNode, k);
    }

    method RetireUnlisted(node: LruNode, ghost ns: seq<DlNode>, ghost k: nat)
      requires Layout() && kvs.Valid() && MapPart(order) && DataLinks(order, ns) && PoolPart(order, ns)
      requires Distinct(ns) && k < |order| && order[k] == node && size == |order| <= maxSize
      requires list.Valid() && list.nodes == RemoveAt(ns, k)
      modifies this`order, this`size, kvs, kvs.buckets, kvs.entries.Values
      modifies lruPool`num, lruPool.slots, dlPool`num, dlPool.slots, udataPool`num, udataPool.slots
      ensures Valid() && order == RemoveAt(old(order), k) && Model() == RemoveAt(old(Model()), k)
      ensures kvs.entries.Values <= old(kvs.entries.Values)
      ensures blockSize != 0 ==> udataPool.Free() == old(udataPool.Free()) + [old(node.udata)]
    {
      hide H.Map.Valid, MapPart, DataLinks, PoolPart, RemoveAt, DL.List.Valid, ModelOf, Distinct;
      Retire(node, ns, k);
      size := size - 1;
    }

    method PopByKey(key: Key) returns (udata: array?<octet>)
      requires Valid()
      modifies this`order, this`size, list, list.nodes`pre, list.nodes`nex, kvs, kvs.buckets, kvs.entries.Values
      modifies lruPool`num, lruPool.slots, dlPool`num, dlPool.slots, udataPool`num, udataPool.slots
      ensures Valid() && Model() == LruModel.PopByKey(old(Model()), key)
      ensures udata == match Lookup(old(Model()), key) case Some(v) => v case None => null
      ensures blockSize != 0 ==>
                udataPool.Free() == old(udataPool.Free()) + (match Lookup(old(Model()), key) case Some(v) => [v] case None => [])
      ensures kvs.entries.Values <= old(kvs.entries.Values)
    {
      hide Valid, RemoveAt, Touch, ModelOf, Position;
      ghost var m, o := Model(), order;
      var node;
      ghost var k;
      node, k := this.Get(key);
      if node == null {
        return null;
      }
      ghost var at := if |o| <= 2 then k else 0;
      RemoveTouched(o, k);
      RemoveTouched(m, k);
      udata := Withdraw(node, at);
    }

    method Withdraw(node: LruNode, ghost at: nat) returns (udata: array?<octet>)
      requires Valid() && at < |order| && order[at] == node
      modifies this`order, this`size, list, list.nodes`pre, list.nodes`nex, kvs, kvs.buckets, kvs.entries.Values
      modifies lruPool`num, lruPool.slots, dlPool`num, dlPool.slots, udataPool`num, udataPool.slots
      ensures Valid() && order == RemoveAt(old(order), at) && Model() == RemoveAt(old(Model()), at)
      ensures udata == old(Model()[at].value) && kvs.entries.Values <= old(kvs.entries.Values)
      ensures blockSize != 0 ==> udataPool.Free() == old(udataPool.Free()) + [udata]
    {
      hide H.Map.Valid, MapPart, DataLinks, PoolPart, RemoveAt, DL.List.Valid, Distinct, ModelOf;
      ghost var ns := list.nodes;
      LinkAt(order, ns, at);
      Unlist(node, at);
      udata := node.udata;
      RetireUnlisted(node, ns, at);
    }

    // ---- Insertion ----

    method AddToList(node: LruNode, dlNode: DlNode, ghost o: seq<LruNode>, ghost ns: seq<DlNode>)
      requires list.Valid() && list.nodes == ns && dlNode !in ns
      requires kvs.Valid() && MapPart(o) && DataLinks(o, ns) && PoolPart([node] + o, [dlNode] + ns) && node.dlNode == dlNode
      modifies list, dlNode`pre, dlNode`nex, ns`pre
      ensures list.Valid() && list.nodes == [dlNode] + ns
      ensures kvs.Valid() && MapPart(o) && DataLinks(o, ns) && PoolPart([node] + o, [dlNode] + ns) && node.dlNode == dlNode
      ensures ModelOf(o) == old(ModelOf(o))
    {
      hide H.Map.Valid, MapPart, DataLinks, PoolPart, DL.List.Valid, ModelOf;
      list.Add(dlNode);
    }

    method SetKey(node: LruNode, key: Key, ghost o: seq<LruNode>)
      requires kvs.Valid() && MapPart(o) && key !in kvs.entries
      modifies kvs, kvs.buckets, kvs.entries.Values
      ensures kvs.Valid() && fresh(kvs.entries.Values - old(kvs.entries.Values)) && |kvs.entries| == |o| + 1
      ensures key in kvs.entries && kvs.entries[key].key == key && kvs.entries[key].value == node
      ensures forall i :: 0 <= i < |o| ==> Filed(o[i])
    {
      hide H.Map.Valid, MapPart;
      MapPartFacts(o);
      forall i | 0 <= i < |o| ensures Filed(o[i]) && o[i].kv.key != key {
        EntryAt(o, i);
      }
      var created := kvs.Set(key, node);
      KeyAdded(old(kvs.entries), key, kvs.entries[key]);
    }

    // gnb_hash32_set of the node under its key, then the pointer back to the entry.
    method FileKey(node: LruNode, key: Key, ghost o: seq<LruNode>)
      requires kvs.Valid() && MapPart(o) && node !in o && key !in kvs.entries && |key| == keyLen
      modifies kvs, kvs.buckets, kvs.entries.Values, node`kv
      ensures kvs.Valid() && MapPart([node] + o) && fresh(kvs.entries.Values - old(kvs.entries.Values))
      ensures node.kv != null && node.kv.key == key
    {
      hide H.Map.Valid, MapPart;
      MapPartFacts(o);
      DistinctCons(node, o);
      SetKey(node, key, o);
      node.kv := kvs.Get(key);
      ghost var o' := [node] + o;
      forall i | 0 <= i < |o'| ensures Filed(o'[i]) {
        assert i > 0 ==> o'[i] == o[i - 1] && Filed(o[i - 1]);
      }
      FiledIsMapPart(o');
    }

    // Valid but for the pools.
    ghost predicate Linked()
      reads this, list, list.nodes, kvs, kvs.buckets, kvs.entries.Values, order
    {
      && Layout() && size == |order| <= maxSize && list.Valid() && kvs.Valid()
      && MapPart(order) && DataLinks(order, list.nodes)
    }

    // Everything is in place but for one node, taken from the pools and not yet linked in.
    ghost predicate Loose(node: LruNode, dlNode: DlNode)
      reads this, list, list.nodes, kvs, kvs.buckets, kvs.entries.Values, order, node`dlNode
      reads lruPool, lruPool.slots, dlPool, dlPool.slots, udataPool, udataPool.slots
    {
      && Linked() && node !in order && node in lruNodes && node.dlNode == dlNode && dlNode !in list.nodes
      && size < maxSize && PoolPart([node] + order, [dlNode] + list.nodes)
    }

    lemma ConsLinks(node: LruNode, dlNode: DlNode, o: seq<LruNode>, ns: seq<DlNode>)
      requires DataLinks(o, ns) && node.dlNode == dlNode && dlNode.data == node
      ensures DataLinks([node] + o, [dlNode] + ns)
    {
    }

    lemma ConsModel(node: LruNode, o: seq<LruNode>)
      ensures ModelOf([node] + o) == [EntryOf(node)] + ModelOf(o)
    {
    }

    method FileNode(node: LruNode, dlNode: DlNode, key: Key, ghost o: seq<LruNode>, ghost ns: seq<DlNode>)
      requires list.Valid() && list.nodes == [dlNode] + ns && node !in o && key !in kvs.entries && |key| == keyLen
      requires kvs.Valid() && MapPart(o) && DataLinks(o, ns) && PoolPart([node] + o, [dlNode] + ns)
      modifies kvs, kvs.buckets, kvs.entries.Values, node`kv
      ensures list.Valid() && kvs.Valid() && fresh(kvs.entries.Values - old(kvs.entries.Values))
      ensures MapPart([node] + o) && DataLinks(o, ns) && PoolPart([node] + o, [dlNode] + ns)
      ensures EntryOf(node) == Entry(key, node.udata) && ModelOf(o) == old(ModelOf(o))
    {
      hide H.Map.Valid, MapPart, DataLinks, PoolPart, DL.List.Valid, ModelOf;
      FileKey(node, key, o);
    }

    // The steps put, store and fixed_store share once they hold a node with its data.
    method Insert(node: LruNode, dlNode: DlNode, key: Key)
      requires Loose(node, dlNode) && key !in kvs.entries && |key| == keyLen
      modifies this`size, this`order, list, list.nodes`pre, kvs, kvs.buckets, kvs.entries.Values
      modifies node`kv, dlNode
      ensures Valid() && order == [node] + old(order) && Model() == [Entry(key, node.udata)] + old(Model())
      ensures fresh(kvs.entries.Values - old(kvs.entries.Values))
    {
      hide H.Map.Valid, MapPart, DataLinks, PoolPart, DL.List.Valid, ModelOf;
      ghost var o, ns := order, list.nodes;
      AddToList(node, dlNode, o, ns);
      FileNode(node, dlNode, key, o, ns);
      LinkNode(node, dlNode, ns);
    }

    // gnb_doubly_linked_list_node_set and the count.
    method LinkNode(node: LruNode, dlNode: DlNode, ghost ns: seq<DlNode>)
      requires Layout() && size == |order| < maxSize && list.Valid() && list.nodes == [dlNode] + ns && kvs.Valid()
      requires MapPart([node] + order) && DataLinks(order, ns) && PoolPart([node] + order, [dlNode] + ns)
      requires node.dlNode == dlNode && dlNode !in ns
      modifies this`size, this`order, dlNode`data
      ensures Valid() && order == [node] + old(order) && Model() == [EntryOf(node)] + old(Model())
    {
      hide H.Map.Valid, MapPart, PoolPart, DL.List.Valid, ModelOf;
      dlNode.data := node;
      ConsLinks(node, dlNode, order, ns);
      ConsModel(node, order);
      size := size + 1;
      order := [node] + order;
    }

    lemma NodesInPools(o: seq<LruNode>, ns: seq<DlNode>)
      requires PoolPart(o, ns)
      ensures forall i :: 0 <= i < |o| ==> o[i] in lruNodes
      ensures forall i :: 0 <= i < |ns| ==> ns[i] in dlNodes
    {
    }

    // gnb_lru32_node_fixed_pool_pop.
    method TakeLoose() returns (node: LruNode, dlNode: DlNode)
      requires Valid() && size < maxSize
      modifies lruPool`num, lruPool.slots, dlPool`num, dlPool.slots, udataPool`num, udataPool.slots
      modifies lruNodes`dlNode, lruNodes`udata
      ensures Loose(node, dlNode) && node in lruNodes && dlNode in dlNodes && Model() == old(Model())
      ensures blockSize != 0 ==> old(udataPool.Free()) == udataPool.Free() + [node.udata]
    {
      hide H.Map.Valid, MapPart, DataLinks, DL.List.Valid, ModelOf, NodePools;
      node, dlNode := PopItems(order, list.nodes);
      NodeFields(node, dlNode);
      NodesInPools([node] + order, [dlNode] + list.nodes);
      assert ([dlNode] + list.nodes)[0] == dlNode;
    }

    method NodeFields(node: LruNode, dlNode: DlNode)
      requires Linked() && size < maxSize && node in lruNodes && node !in order && dlNode !in list.nodes
      requires NodePools([node] + order, [dlNode] + list.nodes)
      requires blockSize != 0 ==> udataPool.Valid() && udataPool.num == maxSize - size
      modifies node`dlNode, node`udata, udataPool`num, udataPool.slots
      ensures Loose(node, dlNode) && Model() == old(Model())
      ensures blockSize != 0 ==> old(udataPool.Free()) == udataPool.Free() + [node.udata]
    {
      hide H.Map.Valid, MapPart, DataLinks, DL.List.Valid, ModelOf, NodePools;
      node.dlNode := dlNode;
      if blockSize != 0 {
        node.udata := udataPool.Pop();
      }
    }

    // ---- put ----

    // Store a data pointer in a cached node.
    method SetUdata(node: LruNode, ghost at: nat, data: array?<octet>)
      requires Valid() && at < |order| && order[at] == node
      modifies node`udata
      ensures Valid() && Model() == old(Model())[at := Entry(old(Model()[at].key), data)]
    {
      hide H.Map.Valid, DataLinks, DL.List.Valid, PoolPart, MapPart;
      MapPartFacts(order);
      node.udata := data;
    }

    method PopIfFull() returns (udata: array?<octet>)
      requires Valid()
      modifies this`order, this`size, list, list.nodes`nex, kvs, kvs.buckets, kvs.entries.Values
      modifies lruPool`num, lruPool.slots, dlPool`num, dlPool.slots, udataPool`num, udataPool.slots
      ensures Valid() && size < maxSize && Model() == MakeRoom(old(Model()), maxSize)
      ensures order == MakeRoom(old(order), maxSize) && kvs.entries.Values <= old(kvs.entries.Values)
      ensures udata == if |old(Model())| >= maxSize then old(Model()[|Model()| - 1].value) else null
      ensures blockSize != 0 ==>
                udataPool.Free() == old(udataPool.Free()) + (if |old(order)| >= maxSize then [udata] else [])
    {
      hide H.Map.Valid, DataLinks, DL.List.Valid, PoolPart, MapPart;
      udata := null;
      if size >= maxSize {
        udata := PopTail();
      }
    }

    lemma NodesInMemory()
      requires Valid()
      ensures forall i :: 0 <= i < |order| ==> order[i] in lruNodes
      ensures forall i :: 0 <= i < |list.nodes| ==> list.nodes[i] in dlNodes
      ensures size == |order| <= maxSize && maxSize > 0
    {
      hide H.Map.Valid, DataLinks, DL.List.Valid, PoolPart, MapPart;
      NodesInPools(order, list.nodes);
    }

    method PutNew(key: Key, data: array?<octet>) returns (popUdata: array?<octet>)
      requires Valid() && |key| == keyLen && !Has(Model(), key)
      modifies this`order, this`size, list, kvs, kvs.buckets, kvs.entries.Values, lruNodes, dlNodes
      modifies lruPool`num, lruPool.slots, dlPool`num, dlPool.slots, udataPool`num, udataPool.slots
      ensures Valid() && Model() == [Entry(key, data)] + MakeRoom(old(Model()), maxSize)
      ensures popUdata == if |old(Model())| >= maxSize then old(Model()[|Model()| - 1].value) else null
      ensures fresh(kvs.entries.Values - old(kvs.entries.Values))
      ensures blockSize != 0 ==> udataPool.Free() == PoolAfter(old(udataPool.Free()), old(Model()), maxSize, key)
    {
      hide Valid, Wf, ModelOf, Position;
      ghost var m := Model();
      NodesInMemory();
      popUdata := PopIfFull();
      AbsentKey(key, m);
      PlaceNew(key, data);
    }

    method PlaceNew(key: Key, data: array?<octet>)
      requires Valid() && size < maxSize && |key| == keyLen && key !in kvs.entries
      modifies this`order, this`size, list, kvs, kvs.buckets, kvs.entries.Values, lruNodes, dlNodes
      modifies lruPool`num, lruPool.slots, dlPool`num, dlPool.slots, udataPool`num, udataPool.slots
      ensures Valid() && Model() == [Entry(key, data)] + old(Model())
      ensures fresh(kvs.entries.Values - old(kvs.entries.Values))
      ensures blockSize != 0 ==> udataPool.Free() == DropLast(old(udataPool.Free()))
    {
      hide Valid, Loose, Wf, ModelOf;
      NodesInMemory();
      PoolBounds();
      var node, dlNode := TakeLoose();
      LoosePool(node, dlNode);
      LooseUdata(node, dlNode, data);
      Insert(node, dlNode, key);
    }

    method LooseUdata(node: LruNode, dlNode: DlNode, data: array?<octet>)
      requires Loose(node, dlNode)
      modifies node`udata
      ensures Loose(node, dlNode) && Model() == old(Model()) && node.udata == data
    {
      hide H.Map.Valid, DataLinks, DL.List.Valid, PoolPart, MapPart;
      node.udata := data;
    }

    // A key absent before making room is absent after.
    lemma AbsentKey(key: Key, m: seq<CacheEntry>)
      requires Valid() && !Has(m, key) && Model() == MakeRoom(m, maxSize)
      ensures key !in kvs.entries
    {
      hide H.Map.Valid, DataLinks, DL.List.Valid, PoolPart, MapPart;
      ModelFacts(order);
    }

    // gnb_lru32_put.
    method Put(key: Key, data: array?<octet>) returns (popUdata: array?<octet>)
      requires Valid() && |key| == keyLen
      modifies this`order, this`size, list, kvs, kvs.buckets, kvs.entries.Values, lruNodes, dlNodes
      modifies lruPool`num, lruPool.slots, dlPool`num, dlPool.slots, udataPool`num, udataPool.slots
      ensures Valid() && Model() == LruModel.Put(old(Model()), maxSize, key, data)
      ensures popUdata == match Evicted(old(Model()), maxSize, key) case Some(e) => e.value case None => null
      ensures fresh(kvs.entries.Values - old(kvs.entries.Values))
      ensures blockSize != 0 ==> udataPool.Free() == PoolAfter(old(udataPool.Free()), old(Model()), maxSize, key)
    {
      hide Valid, Touch, ModelOf, Position, LruModel.Put, Evicted, MakeRoom;
      ghost var m := Model();
      NodesInMemory();
      PutCases(m, maxSize, key, data);
      var hit := PutUpdate(key, data);
      if hit {
        return null;
      }
      NodesInMemory();
      popUdata := PutNew(key, data);
    }

    // A key that has a node keeps it and gets the new data.
    method PutUpdate(key: Key, data: array?<octet>) returns (hit: bool)
      requires Valid()
      modifies this`order, list, list.nodes`pre, list.nodes`nex, lruNodes`udata
      ensures Valid() && kvs.entries == old(kvs.entries)
      ensures hit <==> Has(old(Model()), key)
      ensures Model() == if hit then LruModel.Put(old(Model()), maxSize, key, data) else old(Model())
      ensures forall i :: 0 <= i < |list.nodes| ==> list.nodes[i] in old(list.nodes)
    {
      hide Valid, Touch, ModelOf, Position;
      ghost var m, o := Model(), order;
      NodesInMemory();
      var node;
      ghost var k;
      node, k := this.Get(key);
      hit := node != null;
      if hit {
        RemoveTouched(m, k);
        RemoveTouched(o, k);
        PutHit(node, if |m| <= 2 then k else 0, data);
      }
    }

    method PutHit(node: LruNode, ghost at: nat, data: array?<octet>)
      requires Valid() && at < |order| && order[at] == node
      modifies node`udata
      ensures Valid() && Model() == old(Model())[at := Entry(old(Model()[at].key), data)]
    {
      hide Valid;
      if data == node.udata {
        return;
      }
      SetUdata(node, at, data);
    }

    // ---- fixed_store ----

    // memcpy(block, data, block_size).
    static method CopyBlock(block: array<octet>, data: seq<octet>)
      requires |data| >= block.Length
      modifies block
      ensures block[..] == data[..block.Length]
    {
      forall i | 0 <= i < block.Length {
        block[i] := data[i];
      }
    }

    method FixedHit(node: LruNode, ghost at: nat, data: seq<octet>)
      requires Valid() && OwnsBlocks() && at < |order| && order[at] == node && |data| >= blockSize
      modifies blocks
      ensures Valid() && OwnsBlocks() && Model() == old(Model())
      ensures Contents() == old(Contents())[at := Entry(Model()[at].key, data[..blockSize])]
    {
      hide H.Map.Valid, MapPart, DataLinks, PoolPart, DL.List.Valid, Owned;
      OwnedFacts(Model(), udataPool.Free(), blocks, blockSize);
      CopyBlock(node.udata, data);
    }

    method FixedPlace(key: Key, data: seq<octet>)
      requires Valid() && OwnsBlocks() && size < maxSize && |key| == keyLen && key !in kvs.entries && |data| >= blockSize
      modifies this`order, this`size, list, kvs, kvs.buckets, kvs.entries.Values, lruNodes, dlNodes, blocks
      modifies lruPool`num, lruPool.slots, dlPool`num, dlPool.slots, udataPool`num, udataPool.slots
      ensures Valid() && OwnsBlocks() && Contents() == [Entry(key, data[..blockSize])] + old(Contents())
      ensures fresh(kvs.entries.Values - old(kvs.entries.Values))
    {
      hide Valid, Loose, ModelOf, Owned, ContentsOf, BytesOf;
      NodesInMemory();
      var node, dlNode, block := TakeOwned(key);
      FillAndInsert(node, dlNode, block, data, key);
    }

    method FillAndInsert(node: LruNode, dlNode: DlNode, block: array<octet>, data: seq<octet>, key: Key)
      requires block.Length == blockSize <= |data| && block in blocks && udataPool.num <= udataPool.slots.Length
      requires blockSize != 0 && node.udata == block && key !in kvs.entries && |key| == keyLen
      requires Owned([Entry(key, block)] + Model(), udataPool.Free(), blocks, blockSize)
      requires Loose(node, dlNode)
      modifies this`size, this`order, list, list.nodes`pre, kvs, kvs.buckets, kvs.entries.Values
      modifies node`kv, dlNode, block
      ensures Valid() && OwnsBlocks() && Contents() == [Entry(key, data[..blockSize])] + old(ContentsOf(Model()))
      ensures fresh(kvs.entries.Values - old(kvs.entries.Values))
    {
      hide Valid, Loose, ModelOf, Owned, ContentsOf, BytesOf;
      LooseCopy(node, dlNode, block, data, key);
      InsertOwned(node, dlNode, block, key);
    }

    method TakeOwned(ghost key: Key) returns (node: LruNode, dlNode: DlNode, block: array<octet>)
      requires Valid() && OwnsBlocks() && size < maxSize
      modifies lruPool`num, lruPool.slots, dlPool`num, dlPool.slots, udataPool`num, udataPool.slots
      modifies lruNodes`dlNode, lruNodes`udata
      ensures Loose(node, dlNode) && node in lruNodes && dlNode in dlNodes && Model() == old(Model())
      ensures udataPool.num <= udataPool.slots.Length && ContentsOf(Model()) == old(ContentsOf(Model()))
      ensures node.udata == block && block in blocks && block.Length == blockSize
      ensures Owned([Entry(key, block)] + Model(), udataPool.Free(), blocks, blockSize)
    {
      hide Valid, Loose, ModelOf, Owned, ContentsOf, BytesOf;
      ghost var m, free := Model(), udataPool.Free();
      ghost var c := ContentsOf(m);
      OwnedFacts(m, free, blocks, blockSize);
      SlotsApart();
      node, dlNode := TakeLoose();
      LoosePool(node, dlNode);
      OwnedTake(m, free, blocks, blockSize, udataPool.Free(), node.udata, key);
      OwnedFacts([Entry(key, node.udata)] + m, udataPool.Free(), blocks, blockSize);
      assert ([Entry(key, node.udata)] + m)[0].value == node.udata;
      block := node.udata;
      assert ContentsOf(m) == c;
    }

    lemma SlotsApart()
      requires Valid()
      ensures {lruPool.slots as object, dlPool.slots, udataPool.slots} !! blocks
    {
    }

    method InsertOwned(node: LruNode, dlNode: DlNode, block: array<octet>, key: Key)
      requires blockSize != 0 && node.udata == block && key !in kvs.entries && |key| == keyLen
      requires udataPool.num <= udataPool.slots.Length
      requires Owned([Entry(key, block)] + Model(), udataPool.Free(), blocks, blockSize)
      requires Loose(node, dlNode)
      modifies this`size, this`order, list, list.nodes`pre, kvs, kvs.buckets, kvs.entries.Values
      modifies node`kv, dlNode
      ensures Valid() && OwnsBlocks() && fresh(kvs.entries.Values - old(kvs.entries.Values))
      ensures Contents() == [Entry(key, block[..])] + old(ContentsOf(Model()))
    {
      hide Valid, Loose, ModelOf, Owned, ContentsOf;
      ghost var m := Model();
      Insert(node, dlNode, key);
      OwnedFacts(Model(), udataPool.Free(), blocks, blockSize);
      ConsContents(Entry(key, block), m);
    }

    lemma LoosePool(node: LruNode, dlNode: DlNode)
      requires Loose(node, dlNode)
      ensures blockSize != 0 ==> udataPool.num <= udataPool.slots.Length
    {
      hide H.Map.Valid, MapPart, DataLinks, DL.List.Valid;
    }

    method LooseCopy(node: LruNode, dlNode: DlNode, block: array<octet>, data: seq<octet>, ghost key: Key)
      requires block.Length == blockSize <= |data| && block in blocks && udataPool.num <= udataPool.slots.Length
      requires Owned([Entry(key, block)] + Model(), udataPool.Free(), blocks, blockSize)
      requires Loose(node, dlNode)
      modifies block
      ensures Loose(node, dlNode) && block[..] == data[..blockSize] && Model() == old(Model())
      ensures ContentsOf(Model()) == old(ContentsOf(Model())) && udataPool.Free() == old(udataPool.Free())
    {
      hide H.Map.Valid, MapPart, DataLinks, PoolPart, DL.List.Valid, Owned;
      ghost var m := [Entry(key, block)] + Model();
      OwnedFacts(m, udataPool.Free(), blocks, blockSize);
      forall i | 0 <= i < |Model()| ensures Model()[i].value != block {
        assert m[i + 1] == Model()[i] && m[0].value == block;
      }
      CopyBlock(block, data);
    }

    // get on a cache filled through fixed_store: the node found holds the key's bytes.
    method FixedGet(key: Key) returns (node: LruNode?, ghost k: nat)
      requires Valid() && OwnsBlocks()
      modifies list, list.nodes`pre, list.nodes`nex, this`order
      ensures Valid() && OwnsBlocks() && Contents() == LruModel.Get(old(Contents()), key)
      ensures k == Position(old(Contents()), key) && (node == null <==> k == |old(Contents())|)
      ensures node != null ==> node == old(order)[k] && order == Touch(old(order), k)
      ensures node != null ==> node.udata != null && node.udata[..] == old(Contents())[k].value
      ensures node == null ==> order == old(order)
      ensures forall i :: 0 <= i < |list.nodes| ==> list.nodes[i] in old(list.nodes)
    {
      hide Valid, Touch, ModelOf, Position, Owned, LruModel.Get, ContentsOf;
      ghost var m, free := Model(), udataPool.Free();
      OwnedFacts(m, free, blocks, blockSize);
      OwnedGet(m, free, blocks, blockSize, key);
      GetContents(m, key);
      ghost var found := m[Position(m, key)..];
      node, k := this.Get(key);
      assert node != null ==> found[0].value == node.udata;
      GetContents(m, key);
    }

    method FixedMoveToHead(key: Key)
      requires Valid() && OwnsBlocks()
      modifies list, list.nodes`pre, list.nodes`nex, this`order
      ensures Valid() && OwnsBlocks() && Contents() == LruModel.Get(old(Contents()), key)
    {
      hide Valid, ModelOf, Position, Owned, LruModel.Get, ContentsOf, BytesOf;
      ghost var m, free, c := Model(), udataPool.Free(), Contents();
      OwnedFacts(m, free, blocks, blockSize);
      OwnedGet(m, free, blocks, blockSize, key);
      MoveToHead(key);
      assert ContentsOf(m) == c;
      GetContents(m, key);
    }

    method FixedRoom() returns (udata: array?<octet>)
      requires Valid() && OwnsBlocks()
      modifies this`order, this`size, list, list.nodes`nex, kvs, kvs.buckets, kvs.entries.Values
      modifies lruPool`num, lruPool.slots, dlPool`num, dlPool.slots, udataPool`num, udataPool.slots
      ensures Valid() && OwnsBlocks() && size < maxSize && Contents() == MakeRoom(old(Contents()), maxSize)
      ensures kvs.entries.Values <= old(kvs.entries.Values) && Model() == MakeRoom(old(Model()), maxSize)
      ensures udata == if |old(Model())| >= maxSize then old(Model()[|Model()| - 1].value) else null
    {
      hide Valid, ModelOf, Owned, ContentsOf;
      NodesInMemory();
      udata := null;
      if size >= maxSize {
        udata := FixedPopTail();
        NodesInMemory();
      }
    }

    // The three pops give a block back to the pool and leave the bytes of every other key alone.
    method FixedPopTail() returns (udata: array?<octet>)
      requires Valid() && OwnsBlocks()
      modifies this`order, this`size, list, list.nodes`nex, kvs, kvs.buckets, kvs.entries.Values
      modifies lruPool`num, lruPool.slots, dlPool`num, dlPool.slots, udataPool`num, udataPool.slots
      ensures Valid() && OwnsBlocks() && Contents() == DropLast(old(Contents()))
      ensures Model() == DropLast(old(Model())) && kvs.entries.Values <= old(kvs.entries.Values)
      ensures udata == if old(Model()) == [] then null else old(Model()[|Model()| - 1].value)
    {
      hide Valid, ModelOf, Owned, ContentsOf, DropLast, BytesOf;
      ghost var m, free, c := Model(), udataPool.Free(), Contents();
      OwnedFacts(m, free, blocks, blockSize);
      SlotsApart();
      NodesInMemory();
      OwnedPopTail(m, free, blocks, blockSize);
      udata := PopTail();
      assert ContentsOf(m) == c;
      ContentsPopTail(m);
      PoolBounds();
    }

    method FixedPopHead() returns (udata: array?<octet>)
      requires Valid() && OwnsBlocks()
      modifies this`order, this`size, list, list.nodes`pre, kvs, kvs.buckets, kvs.entries.Values
      modifies lruPool`num, lruPool.slots, dlPool`num, dlPool.slots, udataPool`num, udataPool.slots
      ensures Valid() && OwnsBlocks() && Contents() == LruModel.PopHead(old(Contents()))
      ensures udata == if old(Model()) == [] then null else old(Model()[0].value)
      ensures kvs.entries.Values <= old(kvs.entries.Values)
    {
      hide Valid, ModelOf, Owned, ContentsOf, LruModel.PopHead, BytesOf;
      ghost var m, free, c := Model(), udataPool.Free(), Contents();
      OwnedFacts(m, free, blocks, blockSize);
      SlotsApart();
      NodesInMemory();
      OwnedPopHead(m, free, blocks, blockSize);
      udata := PopHead();
      assert ContentsOf(m) == c;
      ContentsPopHead(m);
      PoolBounds();
    }

    method FixedPopByKey(key: Key) returns (udata: array?<octet>)
      requires Valid() && OwnsBlocks()
      modifies this`order, this`size, list, list.nodes`pre, list.nodes`nex, kvs, kvs.buckets, kvs.entries.Values
      modifies lruPool`num, lruPool.slots, dlPool`num, dlPool.slots, udataPool`num, udataPool.slots
      ensures Valid() && OwnsBlocks() && Contents() == LruModel.PopByKey(old(Contents()), key)
      ensures udata == match Lookup(old(Model()), key) case Some(v) => v case None => null
      ensures kvs.entries.Values <= old(kvs.entries.Values)
    {
      hide Valid, ModelOf, Owned, ContentsOf, LruModel.PopByKey, Lookup, BytesOf;
      ghost var m, free, c := Model(), udataPool.Free(), Contents();
      OwnedFacts(m, free, blocks, blockSize);
      SlotsApart();
      NodesInMemory();
      OwnedPopByKey(m, free, blocks, blockSize, key);
      udata := PopByKey(key);
      assert ContentsOf(m) == c;
      ContentsPopByKey(m, key);
      PoolBounds();
    }

    lemma PoolBounds()
      requires Valid()
      ensures blockSize != 0 ==> udataPool.num <= udataPool.slots.Length
    {
      hide H.Map.Valid, MapPart, DataLinks, DL.List.Valid;
    }

    // gnb_lru32_fixed_store. Storing copies block_size bytes into a block that no other key uses.
    method FixedStore(key: Key, data: seq<octet>)
      requires Valid() && |key| == keyLen && (blockSize != 0 ==> OwnsBlocks() && |data| >= blockSize)
      modifies this`order, this`size, list, kvs, kvs.buckets, kvs.entries.Values, lruNodes, dlNodes, blocks
      modifies lruPool`num, lruPool.slots, dlPool`num, dlPool.slots, udataPool`num, udataPool.slots
      ensures Valid() && (blockSize == 0 ==> Model() == old(Model()))
      ensures blockSize != 0 ==> OwnsBlocks() && Contents() == LruModel.Put(old(Contents()), maxSize, key, data[..blockSize])
      ensures fresh(kvs.entries.Values - old(kvs.entries.Values))
    {
      hide Valid, ModelOf, Owned, Position, Touch, ContentsOf;
      if blockSize == 0 {
        return;
      }
      NodesInMemory();
      var hit := FixedUpdate(key, data);
      if !hit {
        NodesInMemory();
        FixedNew(key, data);
      }
    }

    // A key that has a node keeps its block and gets new bytes.
    method FixedUpdate(key: Key, data: seq<octet>) returns (hit: bool)
      requires Valid() && OwnsBlocks() && |data| >= blockSize
      modifies this`order, list, list.nodes`pre, list.nodes`nex, blocks
      ensures Valid() && OwnsBlocks() && kvs.entries == old(kvs.entries)
      ensures hit <==> Has(old(Contents()), key)
      ensures Contents() == if hit then LruModel.Put(old(Contents()), maxSize, key, data[..blockSize]) else old(Contents())
      ensures forall i :: 0 <= i < |list.nodes| ==> list.nodes[i] in old(list.nodes)
    {
      hide Valid, ModelOf, Owned, Position, Touch, ContentsOf;
      ghost var c, o := Contents(), order;
      var node;
      ghost var k;
      node, k := FixedGet(key);
      hit := node != null;
      if hit {
        RemoveTouched(c, k);
        RemoveTouched(o, k);
        FixedHit(node, if |o| <= 2 then k else 0, data);
      }
    }

    method FixedNew(key: Key, data: seq<octet>)
      requires Valid() && OwnsBlocks() && |key| == keyLen && !Has(Contents(), key) && |data| >= blockSize
      modifies this`order, this`size, list, kvs, kvs.buckets, kvs.entries.Values, lruNodes, dlNodes, blocks
      modifies lruPool`num, lruPool.slots, dlPool`num, dlPool.slots, udataPool`num, udataPool.slots
      ensures Valid() && OwnsBlocks() && Contents() == [Entry(key, data[..blockSize])] + MakeRoom(old(Contents()), maxSize)
      ensures fresh(kvs.entries.Values - old(kvs.entries.Values))
    {
      hide Valid, ModelOf, Owned, Position;
      ghost var m := Model();
      SamePosition(m, Contents(), key);
      NodesInMemory();
      var udata := FixedRoom();
      AbsentKey(key, m);
      NodesInMemory();
      FixedPlace(key, data);
    }

    // gnb_lru32_store: the cache keeps a copy of the data in memory of its own. freed is the block given
    // back to the heap, the one the copy replaces or the one of the entry that is evicted.
    method Store(key: Key, data: seq<octet>) returns (freed: array?<octet>, ghost block: array?<octet>)
      requires Valid() && |key| == keyLen
      modifies this`order, this`size, list, kvs, kvs.buckets, kvs.entries.Values, lruNodes, dlNodes
      modifies lruPool`num, lruPool.slots, dlPool`num, dlPool.slots, udataPool`num, udataPool.slots
      ensures Valid() && Model() == LruModel.Put(old(Model()), maxSize, key, block)
      ensures if data == [] then block == null else block != null && fresh(block) && block[..] == data
      ensures freed == Released(old(Model()), maxSize, key)
      ensures fresh(kvs.entries.Values - old(kvs.entries.Values))
    {
      hide Valid, ModelOf, Position, LruModel.Put, Evicted;
      freed := null;
      var node;
      ghost var k;
      node, k := HashGet(key);
      if node != null {
        freed := node.udata;
      }
      var copy := HeapCopy(data);
      block := copy;
      var dropped := Put(key, copy);
      if node == null {
        freed := dropped;
      }
    }

    // gnb_heap_alloc and memcpy; an allocation of no bytes is NULL.
    static method HeapCopy(data: seq<octet>) returns (copy: array?<octet>)
      ensures if data == [] then copy == null else copy != null && fresh(copy) && copy[..] == data
    {
      if data == [] {
        return null;
      }
      copy := new octet[|data|](i requires 0 <= i < |data| => data[i]);
    }

    // The counts and the bijections a reader can rely on in every state.
    lemma RepresentationInvariant()
      requires Valid()
      ensures size == list.num == kvs.kvNum == |order| <= maxSize
      ensures lruPool.num == dlPool.num == maxSize - size && (blockSize != 0 ==> udataPool.num == maxSize - size)
      ensures forall i :: 0 <= i < size ==>
                && order[i].dlNode == list.nodes[i] && list.nodes[i].data == order[i]
                && order[i].kv != null && order[i].kv.value == order[i] && kvs.entries[order[i].kv.key] == order[i].kv
      ensures forall key :: key in kvs.entries ==> exists i :: 0 <= i < size && order[i].kv == kvs.entries[key]
    {
      hide MapPart, Spare, P.FixedPool.Valid, H.Map.Valid, DL.List.Valid;
      MapPartFacts(order);
      ListCount();
      MapCount();
      forall i | 0 <= i < size ensures Filed(order[i]) {
        EntryAt(order, i);
      }
      forall key | key in kvs.entries ensures exists i :: 0 <= i < size && order[i].kv == kvs.entries[key] {
        var i := Covered(order, key);
      }
    }

    lemma ListCount()
      requires list.Valid()
      ensures list.num == |list.nodes|
    {
    }

    lemma MapCount()
      requires kvs.Valid()
      ensures kvs.kvNum == |kvs.entries|
    {
    }
  }
}
