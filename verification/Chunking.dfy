/** The decoder's results do not depend on where the byte stream is cut into calls. */
module Chunking {
  import opened Bytes
  import opened Sequences
  import opened Framing
  import opened Payload16

  // Same callbacks, same verdict and, unless the decoder has failed, the same unfinished frame.
  predicate Agree(p: Parsed, q: Parsed) {
    p.frames == q.frames && p.verdict == q.verdict && (p.verdict == RET_OK ==> p.rest == q.rest)
  }

  // The last call is empty and finds the bare header of a two-byte frame.
  predicate EndsEarly(pending: seq<byte>, chunks: seq<seq<byte>>, max: nat) {
    var p := Parse(pending + Flatten(chunks), max);
    chunks != [] && chunks[|chunks| - 1] == [] && p.verdict == RET_OK && BareHeader(p.rest)
  }

  // One call, followed by the others, against parsing everything at once.
  lemma CallThenParse(pending: seq<byte>, chunk: seq<byte>, later: seq<byte>, max: nat)
    requires IsPartial(pending, max) && !(BareHeader(pending) && chunk + later == [])
    ensures var p := Call(pending, chunk, max);
            var q := Parse(p.rest + later, max);
            var whole := Parse(pending + (chunk + later), max);
            if p.verdict == RET_OK then whole == Parsed(p.frames + q.frames, q.rest, q.verdict)
            else whole.frames == p.frames && whole.verdict == p.verdict
  {
    assert pending + (chunk + later) == (pending + chunk) + later;
    if BareHeader(pending) && chunk == [] {
      assert pending + (chunk + later) == pending + later;
      assert [] + later == later && (pending + later)[2..] == later && (pending + later)[..2] == pending;
      assert Ready(pending + later, max) && Header(pending + later) == 2;
    } else if Parse(pending + chunk, max).verdict == RET_OK {
      ParseSplit(pending + chunk, later, max);
    } else {
      ParseErrorSticks(pending + chunk, later, max);
    }
  }

  // Every sequence of calls hands over exactly the frames of the concatenated stream, with the
  // single exception of a trailing empty call on the header of a two-byte frame.
  lemma {:induction false} CallsParse(pending: seq<byte>, chunks: seq<seq<byte>>, max: nat)
    requires IsPartial(pending, max)
    ensures var whole := Parse(pending + Flatten(chunks), max);
            && (Agree(Calls(pending, chunks, max), whole) <==> !EndsEarly(pending, chunks, max))
            && (EndsEarly(pending, chunks, max) ==>
                  Calls(pending, chunks, max) == Parsed(whole.frames + [whole.rest], [], RET_OK))
    decreases |chunks|
  {
    hide Parse;
    if chunks == [] {
      EmptyParse(pending, max);
    } else {
      var c, later := chunks[0], Flatten(chunks[1..]);
      var p := Call(pending, c, max);
      if BareHeader(pending) && c + later == [] {
        AllEmpty(chunks[1..], max);
        EmptyParse(pending, max);
        assert pending + Flatten(chunks) == pending;
        assert [pending] + [] == [pending];
      } else {
        CallThenParse(pending, c, later, max);
        if p.verdict == RET_OK {
          CallKeepsPartial(pending, c, max);
          CallsParse(p.rest, chunks[1..], max);
          Prepend(p, Calls(p.rest, chunks[1..], max), Parse(p.rest + later, max));
          if chunks[1..] == [] && c == [] {
            EmptyParse(pending, max);
          }
        } else {
          assert !EndsEarly(pending, chunks, max);
        }
      }
    }
  }

  lemma EmptyParse(pending: seq<byte>, max: nat)
    requires IsPartial(pending, max)
    ensures Parse(pending + [], max) == Parse(pending, max) == Parsed([], pending, RET_OK)
  {
    assert pending + [] == pending;
  }

  lemma Prepend(p: Parsed, calls: Parsed, parse: Parsed)
    ensures Agree(calls, parse) <==>
            Agree(Parsed(p.frames + calls.frames, calls.rest, calls.verdict),
                  Parsed(p.frames + parse.frames, parse.rest, parse.verdict))
    ensures calls == Parsed(parse.frames + [parse.rest], [], RET_OK) ==>
              Parsed(p.frames + calls.frames, calls.rest, calls.verdict)
              == Parsed(p.frames + parse.frames + [parse.rest], [], RET_OK)
  {
    assert p.frames + calls.frames == p.frames + parse.frames ==>
        calls.frames == (p.frames + calls.frames)[|p.frames|..] == (p.frames + parse.frames)[|p.frames|..] == parse.frames;
  }

  lemma CallKeepsPartial(pending: seq<byte>, chunk: seq<byte>, max: nat)
    requires Call(pending, chunk, max).verdict == RET_OK
    ensures IsPartial(Call(pending, chunk, max).rest, max)
  {
    if !(chunk == [] && BareHeader(pending)) {
      RestIsPartial(pending + chunk, max);
    }
  }

  lemma {:induction false} AllEmpty(chunks: seq<seq<byte>>, max: nat)
    requires Flatten(chunks) == []
    ensures Calls([], chunks, max) == Parsed([], [], RET_OK)
    ensures chunks != [] ==> chunks[|chunks| - 1] == []
    decreases |chunks|
  {
    if chunks != [] {
      assert [] + chunks[0] == [];
      AllEmpty(chunks[1..], max);
    }
  }

  // Two ways of cutting one stream cannot be told apart.
  lemma ChunkingIndependence(chunks: seq<seq<byte>>, others: seq<seq<byte>>, max: nat)
    requires Flatten(chunks) == Flatten(others)
    requires !EndsEarly([], chunks, max) && !EndsEarly([], others, max)
    ensures Agree(Calls([], chunks, max), Calls([], others, max))
  {
    CallsParse([], chunks, max);
    CallsParse([], others, max);
  }

  // The exception is real: a trailing empty call decides whether [0, 2] is handed over.
  lemma EmptyCallMatters()
    ensures Flatten([[0, 2]]) == Flatten([[0, 2], []])
    ensures Calls([], [[0, 2]], 4096).frames == []
    ensures Calls([], [[0, 2], []], 4096).frames == [[0, 2]]
  {
    assert [] + [0, 2] == [0, 2];
    assert [[0, 2]][1..] == [] && [[0, 2], []][1..] == [[]];
    assert Call([], [0, 2], 4096) == Parsed([], [0, 2], RET_OK);
    assert Call([0, 2], [], 4096) == Parsed([[0, 2]], [], RET_OK);
    assert Calls([0, 2], [[]], 4096).frames == [[0, 2]];
  }

  // The context fed chunk by chunk until the first error, as successive receive callbacks do.
  method HandleAll(ctx: Context, chunks: seq<seq<byte>>) returns (ret: int)
    requires ctx.Valid()
    requires NoRunt(ctx.Pending() + Flatten(chunks), ctx.maxPayloadSize)
    modifies ctx, ctx.buffer, ctx.payload
    ensures var p := Calls(old(ctx.Pending()), chunks, ctx.maxPayloadSize);
            && ret == p.verdict
            && ctx.frames == old(ctx.frames) + p.frames
            && (ret == RET_OK ==> ctx.Valid() && ctx.Pending() == p.rest)
  {
    hide Parse, NoRunt, Call;
    if chunks == [] {
      return RET_OK;
    }
    ghost var later := Flatten(chunks[1..]);
    CallKeepsNoRunt(ctx.Pending(), chunks[0], later, ctx.maxPayloadSize);
    ret := ctx.Handle(chunks[0]);
    if ret == RET_OK {
      ret := HandleAll(ctx, chunks[1..]);
    }
  }

  lemma CallKeepsNoRunt(pending: seq<byte>, chunk: seq<byte>, later: seq<byte>, max: nat)
    requires IsPartial(pending, max) && NoRunt(pending + (chunk + later), max)
    ensures NoRunt(pending + chunk, max)
    ensures Call(pending, chunk, max).verdict == RET_OK ==> NoRunt(Call(pending, chunk, max).rest + later, max)
  {
    assert pending + (chunk + later) == (pending + chunk) + later;
    NoRuntSplit(pending + chunk, later, max);
    if chunk == [] && BareHeader(pending) {
      assert pending + chunk == pending;
      assert [] + later == later;
      if later != [] {
        assert (pending + later)[2..] == later && Header(pending + later) == 2;
      }
    }
  }
}
