/** murmurhash_hash of libs/hash/murmurhash.c: its loop, and bijectivity over inputs of any length. */
module MurmurHash {

  type octet = bv8
  type word = bv32

  const TWO_32: nat := 0x1_0000_0000

  // ---- The specification: one 4-byte block at a time, then the tail, then the finaliser ----

  function Word(b: seq<octet>): word
    requires |b| >= 4
  {
    (b[0] as word) | ((b[1] as word) << 8) | ((b[2] as word) << 16) | ((b[3] as word) << 24)
  }

  function Times(k: word): word { k * 0x5bd1e995 }

  function Shift24(k: word): word { k ^ (k >> 24) }

  function Shift15(k: word): word { k ^ (k >> 15) }

  function Shift13(k: word): word { k ^ (k >> 13) }

  function Scramble(k: word): word {
    Times(Shift24(Times(k)))
  }

  function Xor(a: word, b: word): word { a ^ b }

  function Mix(h: word, k: word): word {
    Xor(Times(h), Scramble(k))
  }

  function Blocks(h: word, data: seq<octet>): word
    decreases |data|
  {
    if |data| < 4 then h else Blocks(Mix(h, Word(data)), data[4..])
  }

  // The bytes after the last whole block.
  function Rest(data: seq<octet>): (r: seq<octet>)
    ensures |r| < 4
    decreases |data|
  {
    if |data| < 4 then data else Rest(data[4..])
  }

  // The tail bytes, assembled low byte first.
  function TailWord(t: seq<octet>): word
    requires |t| < 4
  {
    if |t| == 3 then ((t[2] as word) << 16) ^ ((t[1] as word) << 8) ^ (t[0] as word)
    else if |t| == 2 then ((t[1] as word) << 8) ^ (t[0] as word)
    else if |t| == 1 then t[0] as word
    else 0
  }

  function Tail(h: word, t: seq<octet>): word
    requires |t| < 4
  {
    if t == [] then h else Times(Xor(h, TailWord(t)))
  }

  function Finish(h: word): word {
    Shift15(Times(Shift13(h)))
  }

  function Seed(len: nat): word {
    (len % TWO_32) as word
  }

  function Hash(data: seq<octet>): word {
    Finish(Tail(Blocks(Seed(|data|), data), Rest(data)))
  }

  // ---- The code ----

  lemma Definitions(k: word)
    ensures Times(k) == k * 0x5bd1e995
    ensures Shift24(k) == k ^ (k >> 24) && Shift15(k) == k ^ (k >> 15) && Shift13(k) == k ^ (k >> 13)
  {
  }

  lemma XorTail(h: word, a: word, b: word, c: word)
    ensures ((h ^ a) ^ b) ^ c == h ^ ((a ^ b) ^ c)
    ensures (h ^ b) ^ c == h ^ (b ^ c)
  {
  }

  method MurmurhashHash(bytes: seq<octet>) returns (h: word)
    ensures h == Hash(bytes)
  {
    hide Word, Mix, Finish, Tail;
    var data, len := bytes, |bytes|;
    h := 0 ^ Seed(len);
    while len >= 4
      invariant len == |data|
      invariant Blocks(h, data) == Blocks(Seed(|bytes|), bytes)
      invariant Rest(data) == Rest(bytes)
      decreases len
    {
      var k := BlockWord(data);
      h := MixIn(h, k);
      data := data[4..];
      len := len - 4;
    }
    h := AddTail(h, data);
    h := Finalise(h);
  }

  method MixIn(start: word, block: word) returns (h: word)
    ensures h == Mix(start, block)
  {
    hide Times, Shift24;
    var k := ScrambleIn(block);
    h := start;
    Definitions(h);
    h := h * 0x5bd1e995;
    h := h ^ k;
  }

  method ScrambleIn(block: word) returns (k: word)
    ensures k == Scramble(block)
  {
    hide Times, Shift24;
    k := block;
    Definitions(k);
    k := k * 0x5bd1e995;
    Definitions(k);
    k := k ^ (k >> 24);
    Definitions(k);
    k := k * 0x5bd1e995;
  }

  method Finalise(start: word) returns (h: word)
    ensures h == Finish(start)
  {
    hide Times, Shift13, Shift15;
    h := start;
    Definitions(h);
    h := h ^ (h >> 13);
    Definitions(h);
    h := h * 0x5bd1e995;
    Definitions(h);
    h := h ^ (h >> 15);
  }

  method BlockWord(data: seq<octet>) returns (k: word)
    requires |data| >= 4
    ensures k == Word(data)
  {
    k := data[0] as word;
    k := k | ((data[1] as word) << 8);
    k := k | ((data[2] as word) << 16);
    k := k | ((data[3] as word) << 24);
  }

  // The switch, whose cases fall through from 3 to 1.
  method AddTail(start: word, data: seq<octet>) returns (h: word)
    requires |data| < 4
    ensures h == Tail(start, data)
  {
    hide Times;
    h := start;
    if |data| == 3 {
      XorTail(h, (data[2] as word) << 16, (data[1] as word) << 8, data[0] as word);
      h := h ^ ((data[2] as word) << 16);
    } else if |data| == 2 {
      XorTail(h, 0, (data[1] as word) << 8, data[0] as word);
    }
    if |data| >= 2 {
      h := h ^ ((data[1] as word) << 8);
    }
    if |data| >= 1 {
      h := h ^ (data[0] as word);
      Definitions(h);
      h := h * 0x5bd1e995;
    }
  }

  // ---- The value, in the operators of the C code ----

  lemma FinishValue(h: word) returns (x: word, y: word)
    ensures x == h ^ (h >> 13) && y == x * 0x5bd1e995 && Finish(h) == y ^ (y >> 15)
  {
    hide Times, Shift13, Shift15;
    Definitions(h);
    x := h ^ (h >> 13);
    Definitions(x);
    y := x * 0x5bd1e995;
    Definitions(y);
  }

  lemma ScrambleValue(k: word) returns (x: word, y: word)
    ensures x == k * 0x5bd1e995 && y == x ^ (x >> 24) && Scramble(k) == y * 0x5bd1e995
  {
    hide Times, Shift24;
    Definitions(k);
    x := k * 0x5bd1e995;
    Definitions(x);
    y := x ^ (x >> 24);
    Definitions(y);
  }

  lemma MixValue(h: word, k: word)
    ensures Mix(h, k) == (h * 0x5bd1e995) ^ Scramble(k)
  {
    hide Times, Scramble;
    Definitions(h);
  }

  lemma TailValue(h: word, t: seq<octet>) returns (x: word)
    requires 0 < |t| < 4
    ensures |t| == 1 ==> x == h ^ (t[0] as word)
    ensures |t| == 2 ==> x == (h ^ ((t[1] as word) << 8)) ^ (t[0] as word)
    ensures |t| == 3 ==> x == ((h ^ ((t[2] as word) << 16)) ^ ((t[1] as word) << 8)) ^ (t[0] as word)
    ensures Tail(h, t) == x * 0x5bd1e995
  {
    hide Times;
    if |t| == 3 {
      XorTail(h, (t[2] as word) << 16, (t[1] as word) << 8, t[0] as word);
      x := ((h ^ ((t[2] as word) << 16)) ^ ((t[1] as word) << 8)) ^ (t[0] as word);
    } else if |t| == 2 {
      XorTail(h, 0, (t[1] as word) << 8, t[0] as word);
      x := (h ^ ((t[1] as word) << 8)) ^ (t[0] as word);
    } else {
      x := h ^ (t[0] as word);
    }
    Definitions(x);
  }

  // The running hash before the loop and after each block: it starts as the length, and what follows
  // the last block is the tail.
  lemma {:induction false} Trace(data: seq<octet>, start: word) returns (hs: seq<word>)
    ensures |hs| == |data| / 4 + 1 && hs[0] == start
    ensures forall i :: 0 <= i < |data| / 4 ==> hs[i + 1] == Mix(hs[i], Word(data[4 * i..]))
    ensures Tail(Blocks(start, data), Rest(data)) == Tail(hs[|data| / 4], data[4 * (|data| / 4)..])
    decreases |data|
  {
    hide Mix, Word, Tail;
    hs := [start];
    if |data| >= 4 {
      var n, later := |data| / 4, data[4..];
      var rest := Trace(later, Mix(start, Word(data)));
      hs := hs + rest;
      assert |later| / 4 == n - 1;
      forall i | 0 <= i < n ensures hs[i + 1] == Mix(hs[i], Word(data[4 * i..])) {
        if i > 0 {
          assert rest[i] == Mix(rest[i - 1], Word(later[4 * (i - 1)..]));
          assert later[4 * (i - 1)..] == data[4 * i..];
        } else {
          assert data[0..] == data;
        }
      }
      assert later[4 * (n - 1)..] == data[4 * n..];
    } else {
      assert data[0..] == data;
    }
  }

  lemma HashTrace(data: seq<octet>) returns (hs: seq<word>)
    ensures |hs| == |data| / 4 + 1 && hs[0] == (|data| % 0x1_0000_0000) as word
    ensures forall i :: 0 <= i < |data| / 4 ==> hs[i + 1] == Mix(hs[i], Word(data[4 * i..]))
    ensures Hash(data) == Finish(Tail(hs[|data| / 4], data[4 * (|data| / 4)..]))
  {
    hide Mix, Word, Tail, Finish;
    hs := Trace(data, Seed(|data|));
  }

  // Known values: the seed, the blocks, each tail and the finaliser at work.
  lemma KnownValues()
    ensures Hash([]) == 0 && Hash([1]) == 0
    ensures Hash([1, 2]) == 0x281c8461
    ensures Hash([1, 2, 3]) == 0x3aa63325
    ensures Hash([7, 0, 0, 0]) == 0x7aa6023a
  {
    assert Seed(0) == 0 && Seed(1) == 1 && Seed(2) == 2 && Seed(3) == 3 && Seed(4) == 4;
    var t: seq<octet> := [7, 0, 0, 0];
    assert t[4..] == [];
    assert Word(t) == 7;
  }

  lemma KnownLongValue()
    ensures Hash([1, 2, 3, 4, 5, 6, 7, 8, 9, 10, 11]) == 0x85e489d3
  {
    var t: seq<octet> := [1, 2, 3, 4, 5, 6, 7, 8, 9, 10, 11];
    assert t[4..] == [5, 6, 7, 8, 9, 10, 11] && t[4..][4..] == [9, 10, 11];
    assert Seed(11) == 11 && Word(t) == 0x04030201 && Word(t[4..]) == 0x08070605;
    assert Rest(t) == [9, 10, 11];
    assert Blocks(Seed(11), t) == Mix(Mix(11, 0x04030201), 0x08070605);
  }

  lemma WordValue(t: seq<octet>) returns (k: word)
    requires |t| == 4
    ensures k == Word(t)
    ensures k == (t[0] as word) | ((t[1] as word) << 8) | ((t[2] as word) << 16) | ((t[3] as word) << 24)
  {
    k := Word(t);
  }

  function TimesOver(h: word, n: nat): word
    decreases n
  {
    if n == 0 then h else TimesOver(h * 0x5bd1e995, n - 1)
  }

  lemma ZeroBlock(data: seq<octet>, h: word)
    requires |data| >= 4 && data[0] == data[1] == data[2] == data[3] == 0
    ensures Mix(h, Word(data)) == h * 0x5bd1e995
  {
    assert Word(data) == 0 && Scramble(0) == 0;
    hide Scramble, Mix, Word;
    MixValue(h, 0);
  }

  // Any number of zero blocks: the length, multiplied once for each of them.
  lemma {:induction false} ZeroBlocks(h: word, data: seq<octet>)
    requires |data| % 4 == 0 && forall i :: 0 <= i < |data| ==> data[i] == 0
    ensures Blocks(h, data) == TimesOver(h, |data| / 4) && Rest(data) == []
    decreases |data|
  {
    hide Mix, Word;
    if data != [] {
      ZeroBlock(data, h);
      ZeroBlocks(h * 0x5bd1e995, data[4..]);
    }
  }

  lemma ZeroValue(data: seq<octet>)
    requires |data| % 4 == 0 && forall i :: 0 <= i < |data| ==> data[i] == 0
    ensures Hash(data) == Finish(TimesOver((|data| % 0x1_0000_0000) as word, |data| / 4))
  {
    hide Finish, Blocks;
    ZeroBlocks(Seed(|data|), data);
  }

  // ---- Every step can be undone ----

  function Untimes(k: word): word { k * 0xe59b19bd }

  function Unshift15(k: word): word { k ^ (k >> 15) ^ (k >> 30) }

  function Unshift13(k: word): word { k ^ (k >> 13) ^ (k >> 26) }

  function Unscramble(k: word): word {
    Untimes(Shift24(Untimes(k)))
  }

  // The raw facts are decided by rewriting; they are then carried over to the named steps.
  lemma RawInverses(k: word)
    ensures Untimes(k * 0x5bd1e995) == k && Times(k * 0xe59b19bd) == k
    ensures Unshift15(k ^ (k >> 15)) == k && Shift15(k ^ (k >> 15) ^ (k >> 30)) == k
    ensures Unshift13(k ^ (k >> 13)) == k && Shift13(k ^ (k >> 13) ^ (k >> 26)) == k
    ensures Shift24(k ^ (k >> 24)) == k
  {
  }

  lemma InverseDefinitions(k: word)
    ensures Untimes(k) == k * 0xe59b19bd
    ensures Unshift15(k) == k ^ (k >> 15) ^ (k >> 30) && Unshift13(k) == k ^ (k >> 13) ^ (k >> 26)
  {
  }

  lemma StepInverse(k: word)
    ensures Untimes(Times(k)) == k && Times(Untimes(k)) == k
    ensures Shift24(Shift24(k)) == k
    ensures Unshift15(Shift15(k)) == k && Shift15(Unshift15(k)) == k
    ensures Unshift13(Shift13(k)) == k && Shift13(Unshift13(k)) == k
  {
    hide Times, Untimes, Shift24, Shift15, Shift13, Unshift15, Unshift13;
    RawInverses(k);
    Definitions(k);
    InverseDefinitions(k);
  }

  lemma XorInverse(a: word, b: word)
    ensures Xor(Xor(a, b), b) == a && Xor(Xor(a, b), a) == b && Xor(a, b) == Xor(b, a)
  {
  }

  lemma ScrambleInverse(k: word)
    ensures Unscramble(Scramble(k)) == k && Scramble(Unscramble(k)) == k
  {
    hide Times, Untimes, Shift24;
    StepInverse(k);
    StepInverse(Times(k));
    StepInverse(Untimes(k));
    StepInverse(Shift24(Times(k)));
    StepInverse(Shift24(Untimes(k)));
  }

  // The four bytes of a word, low byte first.
  function Octets(w: word): (b: seq<octet>)
    ensures |b| == 4
  {
    [(w & 0xff) as octet, ((w >> 8) & 0xff) as octet, ((w >> 16) & 0xff) as octet, ((w >> 24) & 0xff) as octet]
  }

  lemma OctetsInverse(w: word, b: seq<octet>)
    requires |b| == 4
    ensures Word(Octets(w)) == w
    ensures Octets(Word(b)) == b
  {
    WordOf(w);
    OctetsOf(b[0], b[1], b[2], b[3]);
  }

  lemma WordOf(w: word)
    ensures Word(Octets(w)) == w
  {
  }

  lemma OctetsOf(b0: octet, b1: octet, b2: octet, b3: octet)
    ensures Octets(Word([b0, b1, b2, b3])) == [b0, b1, b2, b3]
  {
  }

  // ---- The whole hash, block by block ----

  function Unmix(x: word, k: word): word {
    Untimes(Xor(x, Scramble(k)))
  }

  // The block that takes the state from h to x.
  function MixedBlock(h: word, x: word): word {
    Unscramble(Xor(x, Times(h)))
  }

  lemma MixInverse(h: word, k: word, x: word)
    ensures Mix(h, k) == x <==> h == Unmix(x, k)
    ensures Mix(h, k) == x <==> k == MixedBlock(h, x)
  {
    hide Times, Untimes, Scramble, Unscramble, Xor;
    StepInverse(h);
    StepInverse(Xor(x, Scramble(k)));
    ScrambleInverse(k);
    ScrambleInverse(Xor(x, Times(h)));
    XorInverse(Times(h), Scramble(k));
    XorInverse(x, Scramble(k));
    XorInverse(x, Times(h));
  }

  // The state from which data leads to h.
  function Unblocks(h: word, data: seq<octet>): word
    decreases |data|
  {
    if |data| < 4 then h else Unmix(Unblocks(h, data[4..]), Word(data))
  }

  lemma {:induction false} BlocksInverse(h: word, data: seq<octet>, x: word)
    ensures Blocks(h, data) == x <==> h == Unblocks(x, data)
    decreases |data|
  {
    hide Mix, Unmix, Word;
    if |data| >= 4 {
      BlocksInverse(Mix(h, Word(data)), data[4..], x);
      MixInverse(h, Word(data), Unblocks(x, data[4..]));
    }
  }

  lemma {:induction false} BlocksAppend(h: word, p: seq<octet>, q: seq<octet>)
    requires |p| % 4 == 0
    ensures Blocks(h, p + q) == Blocks(Blocks(h, p), q) && Rest(p + q) == Rest(q)
    decreases |p|
  {
    hide Mix;
    if p == [] {
      assert p + q == q;
    } else {
      assert (p + q)[4..] == p[4..] + q;
      assert Word(p + q) == Word(p);
      BlocksAppend(Mix(h, Word(p)), p[4..], q);
    }
  }

  function Untail(h: word, t: seq<octet>): word
    requires |t| < 4
  {
    if t == [] then h else Xor(Untimes(h), TailWord(t))
  }

  lemma TailInverse(h: word, t: seq<octet>, x: word)
    requires |t| < 4
    ensures Tail(h, t) == x <==> h == Untail(x, t)
  {
    hide Times, Untimes, TailWord, Xor;
    var w := TailWord(t);
    StepInverse(Xor(h, w));
    StepInverse(x);
    XorInverse(h, w);
    XorInverse(Untimes(x), w);
  }

  function Unfinish(h: word): word {
    Unshift13(Untimes(Unshift15(h)))
  }

  lemma FinishInverse(h: word, x: word)
    ensures Finish(h) == x <==> h == Unfinish(x)
  {
    hide Times, Untimes, Shift13, Shift15, Unshift13, Unshift15;
    StepInverse(h);
    StepInverse(Shift13(h));
    StepInverse(Times(Shift13(h)));
    StepInverse(x);
    StepInverse(Unshift15(x));
    StepInverse(Untimes(Unshift15(x)));
  }

  // The one block between p and q that makes the whole input hash to h.
  function SolveBlock(p: seq<octet>, q: seq<octet>, h: word): (x: seq<octet>)
    ensures |x| == 4
  {
    var before := Blocks(Seed(|p| + 4 + |q|), p);
    var after := Unblocks(Untail(Unfinish(h), Rest(q)), q);
    Octets(MixedBlock(before, after))
  }

  // With the rest of the input fixed, an aligned block and the hash determine each other.
  lemma BlockIsBijection(p: seq<octet>, x: seq<octet>, q: seq<octet>, h: word)
    requires |p| % 4 == 0 && |x| == 4
    ensures Hash(p + x + q) == h <==> x == SolveBlock(p, q, h)
  {
    hide Finish, Unfinish, Tail, Untail, Mix, Word, Octets, MixedBlock, Blocks, Unblocks, Rest;
    var seed := Seed(|p| + 4 + |q|);
    var before, after := Blocks(seed, p), Unblocks(Untail(Unfinish(h), Rest(q)), q);
    assert p + x + q == p + (x + q);
    BlocksAppend(seed, p, x + q);
    OneBlock(before, x, q);
    FinishInverse(Tail(Blocks(seed, p + x + q), Rest(q)), h);
    TailInverse(Blocks(seed, p + x + q), Rest(q), Unfinish(h));
    BlocksInverse(Mix(before, Word(x)), q, Untail(Unfinish(h), Rest(q)));
    MixInverse(before, Word(x), after);
    OctetsInverse(MixedBlock(before, after), x);
  }

  lemma OneBlock(h: word, x: seq<octet>, q: seq<octet>)
    requires |x| == 4
    ensures Blocks(h, x + q) == Blocks(Mix(h, Word(x)), q) && Rest(x + q) == Rest(q)
  {
    hide Mix;
    assert (x + q)[4..] == q && Word(x + q) == Word(x);
  }

  // Two inputs of one length that agree outside one aligned block collide only if they are equal.
  lemma OneBlockDecides(a: seq<octet>, b: seq<octet>, i: nat)
    requires |a| == |b| && 4 * i + 4 <= |a|
    requires a[..4 * i] == b[..4 * i] && a[4 * i + 4..] == b[4 * i + 4..]
    ensures Hash(a) == Hash(b) <==> a == b
  {
    hide Hash, SolveBlock;
    var p, q := a[..4 * i], a[4 * i + 4..];
    var x, y := a[4 * i..4 * i + 4], b[4 * i..4 * i + 4];
    assert a == p + x + q && b == p + y + q;
    BlockIsBijection(p, x, q, Hash(b));
    BlockIsBijection(p, y, q, Hash(b));
  }

  lemma TailWordInjective(t: seq<octet>, u: seq<octet>)
    requires |t| == |u| < 4 && TailWord(t) == TailWord(u)
    ensures t == u
  {
    hide Octets;
    if |t| == 3 {
      TailOctets(t[0], t[1], t[2]);
      TailOctets(u[0], u[1], u[2]);
    } else if |t| == 2 {
      TailOctets2(t[0], t[1]);
      TailOctets2(u[0], u[1]);
    } else if |t| == 1 {
      TailOctets1(t[0]);
      TailOctets1(u[0]);
    }
  }

  lemma TailOctets(b0: octet, b1: octet, b2: octet)
    ensures Octets(((b2 as word) << 16) ^ ((b1 as word) << 8) ^ (b0 as word)) == [b0, b1, b2, 0]
  {
  }

  lemma TailOctets2(b0: octet, b1: octet)
    ensures Octets(((b1 as word) << 8) ^ (b0 as word)) == [b0, b1, 0, 0]
  {
  }

  lemma TailOctets1(b0: octet)
    ensures Octets(b0 as word) == [b0, 0, 0, 0]
  {
  }

  lemma TailOnly(h: word, t: seq<octet>)
    requires |t| < 4
    ensures Blocks(h, t) == h && Rest(t) == t
  {
  }

  // The same for inputs that agree except in the bytes after the last whole block.
  lemma TailDecides(p: seq<octet>, t: seq<octet>, u: seq<octet>)
    requires |p| % 4 == 0 && |t| == |u| < 4
    ensures Hash(p + t) == Hash(p + u) <==> t == u
  {
    hide Times, Untimes, Finish, Unfinish, TailWord, Xor, Blocks, Rest;
    var seed := Seed(|p| + |t|);
    BlocksAppend(seed, p, t);
    BlocksAppend(seed, p, u);
    var h := Blocks(seed, p);
    TailOnly(h, t);
    TailOnly(h, u);
    FinishInverse(Tail(h, t), Hash(p + u));
    FinishInverse(Tail(h, u), Hash(p + u));
    if Hash(p + t) == Hash(p + u) {
      assert Tail(h, t) == Tail(h, u);
      if t != [] {
        StepInverse(Xor(h, TailWord(t)));
        StepInverse(Xor(h, TailWord(u)));
        XorInverse(h, TailWord(t));
        XorInverse(h, TailWord(u));
        TailWordInjective(t, u);
      }
    }
  }

  // On 4-byte keys, the kind the channel table uses, the hash is a bijection onto the 32-bit words.
  lemma FourByteKeys(key: seq<octet>, h: word)
    requires |key| == 4
    ensures Hash(key) == h <==> key == SolveBlock([], [], h)
  {
    hide Hash, SolveBlock;
    assert [] + key + [] == key;
    BlockIsBijection([], key, [], h);
  }
}
