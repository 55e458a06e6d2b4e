/** The chained hash map of gnb_hash32.c, holding one pointer per key, proved to be a finite map. */
module Hash32 {
  import opened Sequences
  import MurmurHash

  type octet = MurmurHash.octet
  type Key = seq<octet>

  class Kv<V> {
    const key: Key
    var value: V
    var nex: Kv?<V>

    constructor (key: Key, value: V)
      ensures this.key == key && this.value == value && nex == null
    {
      this.key, this.value, nex := key, value, null;
    }
  }

  class Bucket<V> {
    var chainLen: nat
    var kvChain: Kv?<V>

    constructor ()
      ensures chainLen == 0 && kvChain == null
    {
      chainLen, kvChain := 0, null;
    }

    // The chain of this bucket is s.
    ghost predicate Holds(s: seq<Kv<V>>)
      reads this, s
    {
      && chainLen == |s| && Distinct(s)
      && kvChain == (if s == [] then null else s[0])
      && forall i {:trigger s[i].nex} :: 0 <= i < |s| ==> s[i].nex == if i + 1 < |s| then s[i + 1] else null
    }
  }

  ghost function Total<T>(chains: seq<seq<T>>): nat {
    if chains == [] then 0 else |chains[0]| + Total(chains[1..])
  }

  lemma {:induction false} FlatLength<T>(chains: seq<seq<T>>)
    ensures |Flatten(chains)| == Total(chains)
    decreases |chains|
  {
    if chains != [] {
      FlatLength(chains[1..]);
    }
  }

  lemma FlatPrefix<T>(chains: seq<seq<T>>, i: nat)
    requires i < |chains|
    ensures Flatten(chains[..i + 1]) == Flatten(chains[..i]) + chains[i]
    ensures |Flatten(chains[..i + 1])| <= |Flatten(chains)|
  {
    assert chains[..i + 1] == chains[..i] + [chains[i]];
    assert Flatten([chains[i]]) == chains[i] + Flatten([chains[i]][1..]);
    FlattenAppend(chains[..i], [chains[i]]);
    assert chains == chains[..i + 1] + chains[i + 1..];
    FlattenAppend(chains[..i + 1], chains[i + 1..]);
  }

  lemma {:induction false} TotalUpdate<T>(chains: seq<seq<T>>, b: nat, s: seq<T>)
    requires b < |chains|
    ensures Total(chains[b := s]) == Total(chains) - |chains[b]| + |s|
    decreases |chains|
  {
    if b == 0 {
      assert chains[b := s][1..] == chains[1..];
    } else {
      assert chains[b := s][1..] == chains[1..][b - 1 := s];
      TotalUpdate(chains[1..], b - 1, s);
    }
  }

  function BucketIndex(key: Key, bucketNum: nat): (b: nat)
    requires bucketNum > 0
    ensures b < bucketNum
  {
    MurmurHash.Hash(key) as nat % bucketNum
  }

  // Every entry is in the chain its hash selects and every chain element is an entry.
  ghost predicate Filed<V>(chains: seq<seq<Kv<V>>>, entries: map<Key, Kv<V>>) {
    && |chains| > 0
    && (forall k :: k in entries ==> entries[k].key == k && entries[k] in chains[BucketIndex(k, |chains|)])
    && forall b, kv {:trigger kv in chains[b]} :: 0 <= b < |chains| && kv in chains[b] ==>
         kv.key in entries && entries[kv.key] == kv && BucketIndex(kv.key, |chains|) == b
  }

  lemma FiledAdd<V>(chains: seq<seq<Kv<V>>>, entries: map<Key, Kv<V>>, kv: Kv<V>)
    requires Filed(chains, entries) && kv.key !in entries
    ensures var b := BucketIndex(kv.key, |chains|);
            Filed(chains[b := chains[b] + [kv]], entries[kv.key := kv])
  {
    hide BucketIndex;
    var b := BucketIndex(kv.key, |chains|);
    var chains', entries' := chains[b := chains[b] + [kv]], entries[kv.key := kv];
    forall k | k in entries' ensures entries'[k].key == k && entries'[k] in chains'[BucketIndex(k, |chains'|)] {
      assert k != kv.key ==> entries[k] in chains[BucketIndex(k, |chains|)];
    }
    forall c: int, x: Kv<V> | 0 <= c < |chains'| && x in chains'[c]
      ensures x.key in entries' && entries'[x.key] == x && BucketIndex(x.key, |chains'|) == c
    {
      assert x == kv || x in chains[c];
    }
  }

  lemma FiledRemove<V>(chains: seq<seq<Kv<V>>>, entries: map<Key, Kv<V>>, b: nat, k: nat)
    requires Filed(chains, entries) && b < |chains| && k < |chains[b]| && Distinct(chains[b])
    ensures var kv := chains[b][k];
            kv.key in entries && Filed(chains[b := RemoveAt(chains[b], k)], entries - {kv.key})
  {
    hide BucketIndex, RemoveAt;
    var kv := chains[b][k];
    assert kv in chains[b];
    DistinctRemove(chains[b], k);
    var chains', entries' := chains[b := RemoveAt(chains[b], k)], entries - {kv.key};
    forall q | q in entries' ensures entries'[q].key == q && entries'[q] in chains'[BucketIndex(q, |chains'|)] {
      assert entries[q] in chains[BucketIndex(q, |chains|)] && entries[q] != kv;
    }
    forall c: int, x: Kv<V> | 0 <= c < |chains'| && x in chains'[c]
      ensures x.key in entries' && entries'[x.key] == x && BucketIndex(x.key, |chains'|) == c
    {
      assert x in chains[c] && x != kv;
    }
  }

  // A walk of the chain a key hashes to decides whether the key is present.
  lemma Found<V>(chains: seq<seq<Kv<V>>>, entries: map<Key, Kv<V>>, b: nat, i: nat)
    requires Filed(chains, entries) && b < |chains| && i < |chains[b]|
    ensures chains[b][i].key in entries && entries[chains[b][i].key] == chains[b][i]
  {
    hide BucketIndex;
    assert chains[b][i] in chains[b];
  }

  lemma OwnKey<V>(chains: seq<seq<Kv<V>>>, entries: map<Key, Kv<V>>)
    requires Filed(chains, entries)
    ensures forall k :: k in entries ==> entries[k].key == k
    ensures forall b, c, kv :: 0 <= b < |chains| && 0 <= c < |chains| && kv in chains[b] && kv in chains[c] ==> b == c
  {
  }

  lemma InValues<V>(chains: seq<seq<Kv<V>>>, entries: map<Key, Kv<V>>)
    requires Filed(chains, entries)
    ensures forall b, kv :: 0 <= b < |chains| && kv in chains[b] ==> kv in entries.Values
  {
  }

  lemma Missing<V>(chains: seq<seq<Kv<V>>>, entries: map<Key, Kv<V>>, key: Key)
    requires Filed(chains, entries)
    requires var chain := chains[BucketIndex(key, |chains|)]; forall j :: 0 <= j < |chain| ==> chain[j].key != key
    ensures key !in entries
  {
    hide BucketIndex;
  }

  class Map<V> {
    const buckets: seq<Bucket<V>>
    var kvNum: nat
    ghost var chains: seq<seq<Kv<V>>>
    ghost var entries: map<Key, Kv<V>> // the map this object represents

    ghost predicate Buckets() {
      |buckets| > 0 && forall i, j :: 0 <= i < j < |buckets| ==> buckets[i] != buckets[j]
    }

    ghost predicate Valid()
      reads this, buckets, entries.Values
    {
      && Buckets() && |chains| == |buckets| && Filed(chains, entries)
      && kvNum == Total(chains) == |entries|
      && forall b {:trigger chains[b]} :: 0 <= b < |chains| ==>
           (forall kv :: kv in chains[b] ==> kv in entries.Values) && buckets[b].Holds(chains[b])
    }

    constructor (bucketNum: nat)
      requires bucketNum > 0
      ensures Valid() && entries == map[] && fresh(buckets) && |buckets| == bucketNum
    {
      var table: seq<Bucket<V>> := [];
      for i := 0 to bucketNum
        invariant |table| == i && fresh(table)
        invariant forall j :: 0 <= j < i ==> table[j].Holds([])
        invariant forall j, k :: 0 <= j < k < i ==> table[j] != table[k]
      {
        var bucket := new Bucket<V>();
        table := table + [bucket];
      }
      buckets := table;
      kvNum := 0;
      entries := map[];
      chains := seq(bucketNum, _ => []);
      new;
      AllEmpty(chains);
    }

    // Every entry is in the bucket its hash selects, and what is in a bucket's chain is an entry.
    lemma EntryBuckets(key: Key)
      requires Valid()
      ensures key in entries ==> entries[key].key == key && entries[key] in chains[MurmurHash.Hash(key) as nat % |buckets|]
      ensures forall b, i :: 0 <= b < |buckets| && 0 <= i < |chains[b]| ==>
                && MurmurHash.Hash(chains[b][i].key) as nat % |buckets| == b
                && chains[b][i].key in entries && entries[chains[b][i].key] == chains[b][i]
      ensures forall b :: 0 <= b < |buckets| ==> buckets[b].chainLen == |chains[b]|
    {
      hide Total;
      forall b, i | 0 <= b < |buckets| && 0 <= i < |chains[b]|
        ensures MurmurHash.Hash(chains[b][i].key) as nat % |buckets| == b
        ensures chains[b][i].key in entries && entries[chains[b][i].key] == chains[b][i]
      {
        assert chains[b][i] in chains[b];
      }
      forall b | 0 <= b < |buckets| ensures buckets[b].chainLen == |chains[b]| {
        assert buckets[b].Holds(chains[b]);
      }
    }

    method Get(key: Key) returns (kv: Kv?<V>)
      requires Valid()
      ensures kv == if key in entries then entries[key] else null
    {
      hide BucketIndex, MurmurHash.Hash, Filed, Total;
      var b := BucketOf(key);
      ghost var chain := chains[b];
      var cur := buckets[b].kvChain;
      if cur == null {
        Missing(chains, entries, key);
        return null;
      }
      ghost var i := 0;
      while cur != null
        invariant i <= |chain| && cur == (if i < |chain| then chain[i] else null)
        invariant forall j :: 0 <= j < i ==> chain[j].key != key
        decreases |chain| - i
      {
        if |key| == |cur.key| && cur.key == key {
          Found(chains, entries, b, i);
          return cur;
        }
        cur := cur.nex;
        i := i + 1;
      }
      Missing(chains, entries, key);
      return null;
    }

    // Returns the entry only when the key was present; a new entry is not returned.
    method Set(key: Key, value: V) returns (kv: Kv?<V>)
      requires Valid()
      modifies this, buckets, entries.Values
      ensures Valid()
      ensures key in old(entries) ==> entries == old(entries) && kv == entries[key]
      ensures key !in old(entries) ==>
                kv == null && key in entries && fresh(entries[key]) && entries == old(entries)[key := entries[key]]
      ensures entries[key].key == key && entries[key].value == value
      ensures forall k :: k in old(entries) && k != key ==> old(entries[k]).value == old(entries[k].value)
    {
      hide BucketIndex, MurmurHash.Hash, Total, Filed;
      var b := BucketOf(key);
      var bucket := buckets[b];
      ghost var chain := chains[b];
      kv := null;
      if bucket.kvChain == null {
        Missing(chains, entries, key);
        Append(b, null, key, value);
        return null;
      }
      var cur := bucket.kvChain;
      var preKv := cur;
      ghost var i := 0;
      while cur != null
        invariant i <= |chain| && cur == (if i < |chain| then chain[i] else null)
        invariant preKv == chain[if i > 0 then i - 1 else 0]
        invariant forall j :: 0 <= j < i ==> chain[j].key != key
        decreases |chain| - i
      {
        if |key| == |cur.key| && cur.key == key {
          Found(chains, entries, b, i);
          OwnKey(chains, entries);
          cur.value := value;
          return cur;
        }
        preKv := cur;
        cur := cur.nex;
        i := i + 1;
      }
      Missing(chains, entries, key);
      Append(b, preKv, key, value);
    }

    // Link a new entry at the end of chain b, after preKv.
    method Append(b: nat, preKv: Kv?<V>, key: Key, value: V)
      requires Valid() && key !in entries && b == BucketIndex(key, |buckets|)
      requires preKv == if chains[b] == [] then null else chains[b][|chains[b]| - 1]
      modifies this, buckets[b], chains[b]`nex
      ensures Valid() && key in entries && fresh(entries[key])
      ensures entries == old(entries)[key := entries[key]]
      ensures entries[key].key == key && entries[key].value == value
    {
      hide BucketIndex, Total, Filed;
      OwnKey(chains, entries);
      var created := new Kv(key, value);
      var bucket := buckets[b];
      if preKv == null {
        bucket.kvChain := created;
        bucket.chainLen := 1;
      } else {
        preKv.nex := created;
        bucket.chainLen := bucket.chainLen + 1;
      }
      kvNum := kvNum + 1;
      forall c | 0 <= c < |chains| && c != b ensures buckets[c].Holds(chains[c]) {
        assert old(buckets[c].Holds(chains[c])) && buckets[c] != bucket;
        assert preKv != null ==> preKv in chains[b] && preKv !in chains[c];
        assert created !in chains[c];
      }
      Appended(b, created);
    }

    // The ghost side of linking a new entry at the end of chain b.
    ghost method Appended(b: nat, created: Kv<V>)
      requires Buckets() && |chains| == |buckets| && Filed(chains, entries)
      requires created.key !in entries && b == BucketIndex(created.key, |buckets|)
      requires kvNum == Total(chains) + 1 == |entries| + 1
      requires forall c :: 0 <= c < |chains| && c != b ==> buckets[c].Holds(chains[c])
      requires buckets[b].Holds(chains[b] + [created])
      modifies this`chains, this`entries
      ensures Valid() && entries == old(entries)[created.key := created]
    {
      hide BucketIndex, Total;
      FiledAdd(chains, entries, created);
      TotalUpdate(chains, b, chains[b] + [created]);
      chains := chains[b := chains[b] + [created]];
      entries := entries[created.key := created];
      InValues(chains, entries);
    }

    // The head of a chain is compared without looking at the length of its key: memory beyond a
    // shorter key would be read, and a longer key beginning with `key` would be taken for it.
    ghost predicate HeadComparable(key: Key)
      requires |chains| > 0
      reads this`chains
    {
      var chain := chains[BucketIndex(key, |chains|)];
      chain != [] ==> |key| <= |chain[0].key| && (key <= chain[0].key ==> key == chain[0].key)
    }

    // Keys of one length never meet the unchecked comparison.
    lemma UniformComparable(key: Key)
      requires Valid() && forall k :: k in entries ==> |k| == |key|
      ensures HeadComparable(key)
    {
      hide BucketIndex, Total;
      var chain := chains[BucketIndex(key, |chains|)];
      if chain != [] {
        Found(chains, entries, BucketIndex(key, |chains|), 0);
      }
    }

    method Del(key: Key) returns (kv: Kv?<V>)
      requires Valid() && HeadComparable(key)
      modifies this, buckets, entries.Values
      ensures Valid() && entries == old(entries) - {key}
      ensures kv == if key in old(entries) then old(entries[key]) else null
      ensures forall k :: k in old(entries) ==> old(entries[k]).value == old(entries[k].value)
    {
      hide BucketIndex, MurmurHash.Hash, Total, Filed, RemoveAt;
      var b := BucketOf(key);
      var bucket := buckets[b];
      ghost var chain := chains[b];
      if bucket.kvChain == null {
        Missing(chains, entries, key);
        return null;
      }
      var cur := bucket.kvChain;
      if cur.key[..|key|] == key {
        Found(chains, entries, b, 0);
        UnlinkHead(b);
        return cur;
      }
      kv := DelLater(key, b, cur);
    }

    // The rest of the walk, from the second entry of the chain on.
    method DelLater(key: Key, b: nat, first: Kv<V>) returns (kv: Kv?<V>)
      requires Valid() && b < |chains| && b == BucketIndex(key, |buckets|)
      requires chains[b] != [] && first == chains[b][0] && first.key != key
      modifies this, buckets, entries.Values
      ensures Valid() && entries == old(entries) - {key}
      ensures kv == if key in old(entries) then old(entries[key]) else null
      ensures forall k :: k in old(entries) ==> old(entries[k]).value == old(entries[k].value)
    {
      hide Valid, BucketIndex, RemoveAt;
      var preKv, cur;
      ghost var i;
      preKv, cur, i := Walk(key, b, first);
      if cur != null {
        Unlink(b, preKv, cur, i);
      }
      return cur;
    }

    method Walk(key: Key, b: nat, first: Kv<V>) returns (preKv: Kv<V>, cur: Kv?<V>, ghost i: nat)
      requires Valid() && b < |chains| && b == BucketIndex(key, |buckets|)
      requires chains[b] != [] && first == chains[b][0] && first.key != key
      ensures cur == if key in entries then entries[key] else null
      ensures cur != null ==> 0 < i < |chains[b]| && chains[b][i] == cur && chains[b][i - 1] == preKv && cur.key == key
      ensures cur != null ==> preKv in entries.Values
    {
      hide BucketIndex, Total, Filed;
      preKv, cur, i := first, first.nex, 1;
      ghost var chain := chains[b];
      while cur != null
        invariant 1 <= i <= |chain| && cur == (if i < |chain| then chain[i] else null)
        invariant preKv == chain[i - 1]
        invariant forall j :: 0 <= j < i ==> chain[j].key != key
        decreases |chain| - i
      {
        if |key| == |cur.key| && cur.key == key {
          Found(chains, entries, b, i);
          return;
        }
        preKv := cur;
        cur := cur.nex;
        i := i + 1;
      }
      Missing(chains, entries, key);
    }

    method UnlinkHead(b: nat)
      requires Valid() && b < |chains| && chains[b] != []
      modifies this, buckets[b]
      ensures Valid() && entries == old(entries) - {old(chains[b][0].key)}
    {
      hide BucketIndex, Total, Filed, RemoveAt;
      OwnKey(chains, entries);
      Found(chains, entries, b, 0);
      var bucket := buckets[b];
      ghost var chain := chains[b];
      kvNum := kvNum - 1;
      if bucket.chainLen == 1 {
        bucket.kvChain := null;
        bucket.chainLen := 0;
      } else {
        bucket.kvChain := bucket.kvChain.nex;
        bucket.chainLen := bucket.chainLen - 1;
      }
      DistinctRemove(chain, 0);
      forall c | 0 <= c < |chains| && c != b ensures buckets[c].Holds(chains[c]) {
        assert old(buckets[c].Holds(chains[c])) && buckets[c] != bucket;
      }
      Removed(b, 0);
    }

    method Unlink(b: nat, preKv: Kv<V>, cur: Kv<V>, ghost i: nat)
      requires Valid() && b < |chains| && 0 < i < |chains[b]| && chains[b][i] == cur && chains[b][i - 1] == preKv
      modifies this, buckets[b], preKv`nex
      ensures Valid() && entries == old(entries) - {cur.key}
    {
      hide BucketIndex, Total, Filed, RemoveAt;
      OwnKey(chains, entries);
      Found(chains, entries, b, i);
      var bucket := buckets[b];
      ghost var chain := chains[b];
      preKv.nex := cur.nex;
      bucket.chainLen := bucket.chainLen - 1;
      kvNum := kvNum - 1;
      DistinctRemove(chain, i);
      forall c | 0 <= c < |chains| && c != b ensures buckets[c].Holds(chains[c]) {
        assert old(buckets[c].Holds(chains[c])) && buckets[c] != bucket;
        assert preKv in chains[b] && preKv !in chains[c];
      }
      Removed(b, i);
    }

    // The ghost side of unlinking the i-th entry of chain b.
    ghost method Removed(b: nat, i: nat)
      requires Buckets() && |chains| == |buckets| && Filed(chains, entries)
      requires b < |chains| && i < |chains[b]| && Distinct(chains[b])
      requires kvNum + 1 == Total(chains) == |entries|
      requires forall c :: 0 <= c < |chains| && c != b ==> buckets[c].Holds(chains[c])
      requires buckets[b].Holds(RemoveAt(chains[b], i))
      modifies this`chains, this`entries
      ensures Valid() && entries == old(entries) - {old(chains[b][i].key)}
    {
      hide BucketIndex, Total, RemoveAt, Filed;
      FiledRemove(chains, entries, b, i);
      TotalUpdate(chains, b, RemoveAt(chains[b], i));
      var key := chains[b][i].key;
      chains := chains[b := RemoveAt(chains[b], i)];
      RemoveKeySize(entries, key);
      entries := entries - {key};
      InValues(chains, entries);
    }

    // gnb_hash32_array, for callers whose *num is large enough for every entry.
    method ToArray(num: nat) returns (kvArray: array?<Kv?<V>>, n: nat)
      requires Valid() && num >= kvNum
      ensures n == kvNum && (kvArray == null <==> kvNum == 0)
      ensures kvArray != null ==> fresh(kvArray) && kvArray.Length == kvNum && kvArray[..] == Flatten(chains)
      ensures Distinct(Flatten(chains))
      ensures forall i :: 0 <= i < |Flatten(chains)| ==> Flatten(chains)[i] in entries.Values
      ensures forall k :: k in entries ==> entries[k] in Flatten(chains)
    {
      hide Filed, Total;
      EnumerationIsExact(chains, entries);
      if kvNum == 0 {
        return null, 0;
      }
      n := if kvNum < num then kvNum else num;
      kvArray := new Kv?<V>[n](_ => null);
      FlatLength(chains);
      var idx := 0;
      assert chains[..0] == [];
      for i := 0 to |buckets|
        invariant Valid() && kvArray.Length == n == kvNum == |Flatten(chains)|
        invariant idx == |Flatten(chains[..i])| <= n && kvArray[..idx] == Flatten(chains[..i])
      {
        FlatPrefix(chains, i);
        idx := CopyChain(buckets[i], chains[i], kvArray, idx);
      }
      assert chains[..|chains|] == chains;
    }

    method CopyChain(bucket: Bucket<V>, ghost chain: seq<Kv<V>>, kvArray: array<Kv?<V>>, start: nat) returns (idx: nat)
      requires bucket.Holds(chain) && start + |chain| <= kvArray.Length
      modifies kvArray
      ensures idx == start + |chain|
      ensures kvArray[..idx] == old(kvArray[..start]) + chain
    {
      idx := start;
      if bucket.chainLen == 0 {
        return;
      }
      var kv := bucket.kvChain;
      for j := 0 to bucket.chainLen
        invariant idx == start + j && kv == (if j < |chain| then chain[j] else null)
        invariant kvArray[..idx] == old(kvArray[..start]) + chain[..j]
      {
        kvArray[idx] := kv;
        idx := idx + 1;
        kv := kv.nex;
      }
    }

    method BucketOf(key: Key) returns (b: nat)
      requires |buckets| > 0
      ensures b == BucketIndex(key, |buckets|) == MurmurHash.Hash(key) as nat % |buckets|
    {
      var hash := MurmurHash.MurmurhashHash(key);
      b := hash as nat % |buckets|;
    }
  }

  lemma {:induction false} FlatPrefixDistinct<V>(chains: seq<seq<Kv<V>>>, entries: map<Key, Kv<V>>, n: nat)
    requires Filed(chains, entries) && n <= |chains|
    requires forall b :: 0 <= b < |chains| ==> Distinct(chains[b])
    ensures var all := Flatten(chains[..n]);
            && Distinct(all)
            && (forall i :: 0 <= i < |all| ==>
                  var b := BucketIndex(all[i].key, |chains|); b < n && all[i] in chains[b])
            && (forall b, i :: 0 <= b < n && 0 <= i < |chains[b]| ==> chains[b][i] in all)
  {
    hide BucketIndex;
    if n > 0 {
      hide Flatten;
      FlatPrefixDistinct(chains, entries, n - 1);
      FlatPrefix(chains, n - 1);
      var before, last := Flatten(chains[..n - 1]), chains[n - 1];
      forall i | 0 <= i < |before + last| ensures InBucket((before + last)[i], chains, n, i >= |before|) {
        if i >= |before| {
          assert last[i - |before|] in last;
        }
      }
      forall i, j | 0 <= i < |before| && 0 <= j < |last| ensures before[i] != last[j] {
        assert last[j] in last;
      }
      DistinctAppend(before, last);
      forall b, i | 0 <= b < n && 0 <= i < |chains[b]| ensures chains[b][i] in before + last {
        if b == n - 1 {
          assert chains[b][i] in last;
        }
      }
    }
  }

  // An entry of one of the first n chains, and of the last of them or not, in the chain of its key.
  ghost predicate InBucket<V>(kv: Kv<V>, chains: seq<seq<Kv<V>>>, n: nat, last: bool)
    requires |chains| > 0
  {
    var b := BucketIndex(kv.key, |chains|);
    b < n <= |chains| && kv in chains[b] && (last <==> b == n - 1)
  }

  // The chains taken together list every entry of the map exactly once and nothing else.
  lemma EnumerationIsExact<V>(chains: seq<seq<Kv<V>>>, entries: map<Key, Kv<V>>)
    requires Filed(chains, entries)
    requires forall b :: 0 <= b < |chains| ==> Distinct(chains[b])
    ensures Distinct(Flatten(chains))
    ensures forall i :: 0 <= i < |Flatten(chains)| ==> Flatten(chains)[i] in entries.Values
    ensures forall k :: k in entries ==> entries[k] in Flatten(chains)
  {
    hide BucketIndex;
    assert chains[..|chains|] == chains;
    FlatPrefixDistinct(chains, entries, |chains|);
    forall k | k in entries ensures entries[k] in Flatten(chains) {
      var chain := chains[BucketIndex(k, |chains|)];
      var i :| 0 <= i < |chain| && chain[i] == entries[k];
    }
    forall i | 0 <= i < |Flatten(chains)| ensures Flatten(chains)[i] in entries.Values {
      var kv := Flatten(chains)[i];
      assert entries[kv.key] == kv;
    }
  }

  lemma RemoveKeySize<V>(m: map<Key, V>, k: Key)
    requires k in m
    ensures |m - {k}| == |m| - 1
  {
    assert (m - {k}).Keys == m.Keys - {k};
    assert |m.Keys - {k}| == |m.Keys| - 1;
  }

  lemma {:induction false} AllEmpty<T>(chains: seq<seq<T>>)
    requires forall b :: 0 <= b < |chains| ==> chains[b] == []
    ensures Total(chains) == 0
    decreases |chains|
  {
    if chains != [] {
      AllEmpty(chains[1..]);
    }
  }
}
