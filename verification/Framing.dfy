/**
 The meaning of the byte stream, stated without reference to how the decoder walks it:
 `Parse` cuts a stream into length-prefixed frames. The theorems say what it accepts, and
 that it may be resumed at any byte.
 */
module Framing {
  import opened Bytes
  import opened Sequences

  const RET_OK: int := 0
  const RET_ZERO_LENGTH: int := -1
  const RET_TOO_LONG: int := -3
  const HEAD_SIZE: nat := 4

  // frames: what was cut off, in order; rest: the unfinished frame; verdict: the return code.
  datatype Parsed = Parsed(frames: seq<seq<byte>>, rest: seq<byte>, verdict: int)

  function Header(s: seq<byte>): (n: nat)
    requires |s| >= 2
    ensures n < UINT16_LIMIT
  {
    Uint16(s[0], s[1])
  }

  // The number of bytes that must have arrived before a frame of length n is handed over. A
  // two-byte frame ends with its own header, which is examined only when a further byte comes.
  function Needed(n: nat): nat {
    if n < 3 then 3 else n
  }

  function Parse(s: seq<byte>, max: nat): (p: Parsed)
    ensures p.verdict == RET_OK || p.verdict == RET_ZERO_LENGTH || p.verdict == RET_TOO_LONG
    decreases |s|
  {
    if |s| < 2 then Parsed([], s, RET_OK)
    else
      var n := Header(s);
      if n == 0 then Parsed([], s, RET_ZERO_LENGTH)
      else if n > max then Parsed([], s, RET_TOO_LONG)
      else if |s| < Needed(n) then Parsed([], s, RET_OK)
      else
        var p := Parse(s[n..], max);
        p.(frames := [s[..n]] + p.frames)
  }

  // No frame boundary in s carries the length 1, for which the C code computes a copy of -1 bytes.
  predicate NoRunt(s: seq<byte>, max: nat)
    decreases |s|
  {
    |s| < 2 ||
    (var n := Header(s);
     n != 1 && (n == 0 || n > max || |s| < Needed(n) || NoRunt(s[n..], max)))
  }

  predicate IsFrame(f: seq<byte>, max: nat) {
    3 <= |f| <= max && Header(f) == |f|
  }

  // A strict prefix of some acceptable frame.
  predicate IsPartial(r: seq<byte>, max: nat) {
    |r| < 2 || (0 < Header(r) <= max && |r| < Needed(Header(r)))
  }

  // The first frame of s has wholly arrived and is acceptable.
  predicate Ready(s: seq<byte>, max: nat) {
    |s| >= 2 && 0 < Header(s) <= max && |s| >= Needed(Header(s))
  }

  lemma ParseReady(a: seq<byte>, b: seq<byte>, max: nat)
    requires Ready(a, max)
    ensures var n := Header(a); var q := Parse(a[n..] + b, max);
            Parse(a + b, max) == Parsed([a[..n]] + q.frames, q.rest, q.verdict)
  {
    var n := Header(a);
    assert (a + b)[n..] == a[n..] + b;
    assert (a + b)[..n] == a[..n];
  }

  lemma ParseStep(s: seq<byte>, max: nat)
    ensures Ready(s, max) ==>
              (var n := Header(s); var p := Parse(s[n..], max); Parse(s, max) == Parsed([s[..n]] + p.frames, p.rest, p.verdict))
    ensures !Ready(s, max) ==> Parse(s, max).frames == [] && Parse(s, max).rest == s
  {
  }

  lemma {:induction false} ParseSplit(a: seq<byte>, b: seq<byte>, max: nat)
    requires Parse(a, max).verdict == RET_OK
    ensures var p, q := Parse(a, max), Parse(Parse(a, max).rest + b, max);
            Parse(a + b, max) == Parsed(p.frames + q.frames, q.rest, q.verdict)
    decreases |a|
  {
    hide Parse;
    ParseStep(a, max);
    if Ready(a, max) {
      var n := Header(a);
      ParseReady(a, b, max);
      ParseSplit(a[n..], b, max);
      var p := Parse(a[n..], max);
      var q := Parse(p.rest + b, max);
      assert [a[..n]] + (p.frames + q.frames) == ([a[..n]] + p.frames) + q.frames;
    } else {
      var q := Parse(a + b, max);
      assert [] + q.frames == q.frames;
    }
  }

  // After an error nothing that follows can matter.
  lemma {:induction false} ParseErrorSticks(a: seq<byte>, b: seq<byte>, max: nat)
    requires Parse(a, max).verdict != RET_OK
    ensures Parse(a + b, max).frames == Parse(a, max).frames
    ensures Parse(a + b, max).verdict == Parse(a, max).verdict
    decreases |a|
  {
    if Ready(a, max) {
      ParseReady(a, b, max);
      ParseErrorSticks(a[Header(a)..], b, max);
    } else {
      assert Header(a + b) == Header(a);
    }
  }

  lemma {:induction false} NoRuntSplit(a: seq<byte>, b: seq<byte>, max: nat)
    requires NoRunt(a + b, max)
    ensures NoRunt(a, max)
    ensures Parse(a, max).verdict == RET_OK ==> NoRunt(Parse(a, max).rest + b, max)
    decreases |a|
  {
    if |a| >= 2 {
      var n := Header(a);
      if 0 < n <= max && |a| >= Needed(n) {
        assert (a + b)[n..] == a[n..] + b;
        NoRuntSplit(a[n..], b, max);
      }
    }
  }

  lemma SoundStep(s: seq<byte>, n: nat, frames: seq<seq<byte>>, rest: seq<byte>)
    requires n <= |s| && Flatten(frames) + rest == s[n..]
    ensures Flatten([s[..n]] + frames) + rest == s
  {
    FlattenCons(s[..n], frames);
    assert s[..n] + Flatten(frames) + rest == s[..n] + (Flatten(frames) + rest);
  }

  // The frames and the rest are exactly the input: nothing lost, merged, split or invented. A negative
  // verdict means that the next header is zero, or that it is above the limit.
  lemma {:induction false} ParseSound(s: seq<byte>, max: nat)
    ensures var p := Parse(s, max);
            && Flatten(p.frames) + p.rest == s
            && (p.verdict == RET_ZERO_LENGTH ==> |p.rest| >= 2 && Header(p.rest) == 0)
            && (p.verdict == RET_TOO_LONG ==> |p.rest| >= 2 && Header(p.rest) > max)
    decreases |s|
  {
    if Ready(s, max) {
      var n := Header(s);
      var p := Parse(s[n..], max);
      ParseSound(s[n..], max);
      SoundStep(s, n, p.frames, p.rest);
    } else {
      assert Parse(s, max).frames == [] && Parse(s, max).rest == s;
    }
  }

  lemma {:induction false} RestIsPartial(s: seq<byte>, max: nat)
    requires Parse(s, max).verdict == RET_OK
    ensures IsPartial(Parse(s, max).rest, max)
    decreases |s|
  {
    if Ready(s, max) {
      RestIsPartial(s[Header(s)..], max);
    } else {
      assert Parse(s, max).rest == s;
    }
  }

  lemma {:induction false} ParsedFramesAreFrames(s: seq<byte>, max: nat, i: nat)
    requires i < |Parse(s, max).frames|
    ensures var f := Parse(s, max).frames[i]; 0 < |f| <= max && (|f| >= 2 ==> Header(f) == |f|)
    decreases |s|
  {
    var n := Header(s);
    if i > 0 {
      ParsedFramesAreFrames(s[n..], max, i - 1);
    }
  }

  // A frame of two bytes, too, is cut off as soon as a byte follows it.
  lemma TwoByteFrame(t: seq<byte>, max: nat)
    requires t != [] && max >= 2
    ensures var p := Parse(t, max); Parse([0, 2] + t, max) == Parsed([[0, 2]] + p.frames, p.rest, p.verdict)
  {
    ParseReady([0, 2] + t[..1], t[1..], max);
    assert [0, 2] + t == ([0, 2] + t[..1]) + t[1..];
    assert ([0, 2] + t)[2..] == t && ([0, 2] + t)[..2] == [0, 2];
  }

  // The inverse direction: the encoding of any frames and any unfinished frame parses back.
  lemma {:induction false} ParseComplete(frames: seq<seq<byte>>, rest: seq<byte>, max: nat)
    requires forall f :: f in frames ==> IsFrame(f, max)
    requires IsPartial(rest, max)
    ensures Parse(Flatten(frames) + rest, max) == Parsed(frames, rest, RET_OK)
    decreases |frames|
  {
    var s := Flatten(frames) + rest;
    if frames == [] {
      assert s == rest;
    } else {
      var f := frames[0];
      assert s == f + (Flatten(frames[1..]) + rest);
      assert s[..|f|] == f && s[|f|..] == Flatten(frames[1..]) + rest;
      assert IsFrame(f, max) && Header(s) == |f|;
      ParseComplete(frames[1..], rest, max);
      assert [f] + frames[1..] == frames;
    }
  }
}
