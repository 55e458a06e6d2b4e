/** The incremental frame decoder of gnb_payload16.c, and its independence of how TCP cuts the stream. */
module Payload16 {
  import opened Bytes
  import opened Framing

  const MAX_PAYLOAD_SIZE: nat := 65535
  const RET_HUGE: int := -2
  const RET_PART_TOO_LONG: int := -4

  // The unfinished frame is a bare two-byte header announcing length 2.
  predicate BareHeader(pending: seq<byte>) {
    |pending| == 2 && Header(pending) == 2
  }

  // What one call does to an unfinished frame and a chunk. The one exception to parsing their
  // concatenation is the empty chunk, which makes the do-while loop complete a two-byte frame.
  function Call(pending: seq<byte>, chunk: seq<byte>, max: nat): (p: Parsed)
    ensures p.verdict == RET_OK || p.verdict < 0
  {
    if chunk == [] && BareHeader(pending) then Parsed([pending], [], RET_OK)
    else Parse(pending + chunk, max)
  }

  // The call fails on the header of a chunk it has not begun to store.
  predicate FailsEarly(pending: seq<byte>, chunk: seq<byte>, max: nat) {
    pending == [] && |chunk| > HEAD_SIZE && (Header(chunk) == 0 || (Header(chunk) == |chunk| && |chunk| > max))
  }

  // A sequence of calls; the first negative return ends it.
  function Calls(pending: seq<byte>, chunks: seq<seq<byte>>, max: nat): Parsed
    decreases |chunks|
  {
    if chunks == [] then Parsed([], pending, RET_OK)
    else
      var p := Call(pending, chunks[0], max);
      if p.verdict != RET_OK then p
      else
        var q := Calls(p.rest, chunks[1..], max);
        Parsed(p.frames + q.frames, q.rest, q.verdict)
  }

  /** The decoder context. `frames` records what the callback was shown, call by call. */
  class Context {
    var rLen: int
    const buffer: array<byte>
    const payload: array<byte>
    const maxPayloadSize: nat
    var frames: seq<seq<byte>>

    ghost predicate Layout() {
      buffer != payload && buffer.Length == 2 &&
      payload.Length == HEAD_SIZE + maxPayloadSize && maxPayloadSize <= MAX_PAYLOAD_SIZE
    }

    // Between calls r_len is 0 or 1, or counts the bytes of an acceptable, unfinished frame.
    ghost predicate Valid()
      reads this, buffer, payload
    {
      Layout() && 0 <= rLen <= payload.Length &&
      (rLen >= 2 ==>
         payload[..2] == buffer[..] &&
         0 < Header(buffer[..]) <= maxPayloadSize && rLen < Needed(Header(buffer[..])))
    }

    // The bytes of the unfinished frame: one byte lives in the buffer, more in the payload block.
    ghost function Pending(): seq<byte>
      requires Valid()
      reads this, buffer, payload
    {
      if rLen == 0 then [] else if rLen == 1 then buffer[..1] else payload[..rLen]
    }

    // The loop has refused a frame that is too long. Its header stays in the context.
    ghost predicate Refused()
      reads this, buffer
    {
      Layout() && rLen == 2 && Header(buffer[..]) > maxPayloadSize
    }

    // The loop has refused a length of zero.
    ghost predicate Zeroed()
      reads this, buffer
    {
      Layout() && rLen == 2 && Header(buffer[..]) == 0
    }

    // What a negative return leaves, unless nothing was written.
    ghost predicate Failed(ret: int)
      reads this, buffer
    {
      (ret == RET_TOO_LONG && Refused()) || (ret == RET_ZERO_LENGTH && Zeroed())
    }

    constructor (maxSize: nat)
      requires maxSize <= MAX_PAYLOAD_SIZE
      ensures Valid() && Pending() == [] && frames == [] && maxPayloadSize == maxSize
      ensures fresh(buffer) && fresh(payload)
    {
      rLen := 0;
      buffer := new byte[2](_ => 0);
      payload := new byte[HEAD_SIZE + maxSize](_ => 0);
      maxPayloadSize := maxSize;
      frames := [];
    }

    // One turn of the loop while a frame is being collected (GNB_FRAME_STATUS_PART).
    method TurnPart(data: seq<byte>, offset: nat) returns (ret: int, stop: bool, offset': nat)
      requires offset <= |data|
      requires Refused() || (Valid() && rLen >= 2 && Header(Pending()) != 1)
      modifies this`rLen, this`frames, payload
      ensures old(Refused()) ==>
                && ret == RET_PART_TOO_LONG && stop && offset' == offset
                && Refused() && frames == old(frames) && payload[..] == old(payload[..])
      ensures old(Valid()) ==>
              var todo := old(Pending()) + data[offset..];
              var n := Header(todo);
              && Valid() && ret == RET_OK && offset <= offset' <= |data| && stop == (|todo| < n)
              && (stop ==> Pending() == todo && frames == old(frames))
              && (!stop ==> rLen == 0 && frames == old(frames) + [todo[..n]] && data[offset'..] == todo[n..])
    {
      var remain := |data| - offset;
      var size := Uint16(buffer[0], buffer[1]);
      assert size == Header(buffer[..]);
      if size > maxPayloadSize {
        return RET_PART_TOO_LONG, true, offset;
      }
      ghost var pending, todo := Pending(), Pending() + data[offset..];
      assert size == Header(todo);
      if remain >= size - rLen {
        offset' := offset + (size - rLen);
        Memcpy(payload, rLen, data[offset..offset']);
        assert payload[..size] == pending + data[offset..offset'] == todo[..size];
        rLen := rLen + (size - rLen);
        frames := frames + [payload[..size]];
        rLen := 0;
        return RET_OK, false, offset';
      } else {
        Memcpy(payload, rLen, data[offset..]);
        assert payload[..rLen + remain] == todo;
        rLen := rLen + remain;
        return RET_OK, true, offset + remain;
      }
    }

    // One turn of the loop while the two length bytes are being collected (GNB_FRAME_STATUS_HEAD).
    method TurnHead(data: seq<byte>, offset: nat) returns (ret: int, stop: bool, offset': nat)
      requires Valid() && rLen < 2 && offset <= |data|
      modifies this`rLen, buffer, payload
      ensures Layout()
      ensures var todo := old(Pending()) + data[offset..];
              && ret == (if |todo| < 2 then RET_OK else if Header(todo) == 0 then RET_ZERO_LENGTH
                         else if Header(todo) > maxPayloadSize then RET_TOO_LONG else RET_OK)
              && stop == (|todo| < 2 || ret != RET_OK)
              && offset <= offset' <= |data|
              && (if ret == RET_OK then Valid() else Failed(ret))
              && (|todo| < 2 ==> Pending() == todo)
              && (!stop ==> rLen == 2 && offset < offset' && Pending() + data[offset'..] == todo)
    {
      ghost var todo := Pending() + data[offset..];
      var remain := |data| - offset;
      offset' := offset;
      if rLen == 0 {
        if remain >= 2 {
          offset' := offset + 2;
          Memcpy(buffer, 0, data[offset..offset']);
          rLen := 2;
          assert buffer[..] == data[offset..offset'];
        } else {
          offset' := offset + remain;
          Memcpy(buffer, 0, data[offset..]);
          rLen := remain;
          return RET_OK, true, offset';
        }
      } else {
        if remain >= 2 - rLen {
          offset' := offset + (2 - rLen);
          Memcpy(buffer, rLen, data[offset..offset']);
          rLen := rLen + (2 - rLen);
          assert buffer[..] == old(buffer[..1]) + data[offset..offset'];
        } else {
          Memcpy(buffer, rLen, data[offset..]);
          rLen := rLen + remain;
          return RET_OK, true, offset';
        }
      }
      assert buffer[..] + data[offset'..] == todo;
      var size := Uint16(buffer[0], buffer[1]);
      assert size == Header(todo) == Header(buffer[..]);
      if size == 0 {
        return RET_ZERO_LENGTH, true, offset';
      }
      if size > MAX_PAYLOAD_SIZE {
        return RET_HUGE, true, offset';
      }
      if size > maxPayloadSize {
        return RET_TOO_LONG, true, offset';
      }
      Memcpy(payload, 0, buffer[..]);
      return RET_OK, false, offset';
    }

    // An error found ahead of the loop leaves no trace in the context. One found by the loop stays in
    // it: after a frame that is too long every further call fails.
    method Handle(data: seq<byte>) returns (ret: int)
      requires Refused() || (Valid() && NoRunt(Pending() + data, maxPayloadSize))
      modifies this, buffer, payload
      ensures Layout()
      ensures old(Refused()) ==>
                && ret == RET_PART_TOO_LONG && Refused()
                && frames == old(frames) && buffer[..] == old(buffer[..]) && payload[..] == old(payload[..])
      ensures old(Valid()) ==>
              var p := Call(old(Pending()), data, maxPayloadSize);
              && ret == p.verdict
              && frames == old(frames) + p.frames
              && (ret == RET_OK ==> Valid() && Pending() == p.rest)
              && (ret != RET_OK ==>
                    if FailsEarly(old(Pending()), data, maxPayloadSize) then Valid() && Pending() == [] else Failed(ret))
    {
      // A chunk that is exactly one frame is handed over without the loop.
      if rLen == 0 && |data| > HEAD_SIZE {
        var size := Uint16(data[0], data[1]);
        assert Pending() + data == data;
        if size == 0 {
          return RET_ZERO_LENGTH;
        }
        if size > MAX_PAYLOAD_SIZE {
          return RET_HUGE;
        }
        if size == |data| {
          if size > maxPayloadSize {
            return RET_TOO_LONG;
          }
          Memcpy(payload, 0, data);
          frames := frames + [payload[..size]];
          assert payload[..size] == data;
          ParseExactFrame(data, maxPayloadSize);
          return RET_OK;
        }
      }
      ret := Loop(data);
    }

    // What the loop still has to look at from `offset` on.
    ghost function Left(data: seq<byte>, offset: nat): seq<byte>
      requires Valid() && offset <= |data|
      reads this, buffer, payload
    {
      Pending() + data[offset..]
    }

    // The switch in the loop body. `one` is the frame completed in this turn, if any.
    method Turn(data: seq<byte>, offset: nat, ghost left: seq<byte>)
      returns (ret: int, stop: bool, offset': nat, ghost one: seq<seq<byte>>, ghost left': seq<byte>)
      requires offset <= |data|
      requires Refused() || (Valid() && left == Left(data, offset) && NoRunt(left, maxPayloadSize))
      modifies this`rLen, this`frames, buffer, payload
      ensures Layout()
      ensures offset <= offset' <= |data| && frames == old(frames) + one
      ensures old(Refused()) ==>
                && ret == RET_PART_TOO_LONG && stop && one == []
                && Refused() && buffer[..] == old(buffer[..]) && payload[..] == old(payload[..])
      ensures old(Valid()) && stop ==> one == [] && Stops(left, maxPayloadSize, ret)
      ensures old(Valid()) && stop && ret == RET_OK ==> Valid() && Pending() == left
      ensures old(Valid()) && stop && ret != RET_OK ==> Failed(ret)
      ensures old(Valid()) && BareHeader(old(Pending())) ==> !stop
      ensures !stop ==>
                && ret == RET_OK && Valid() && (offset < offset' || old(rLen) > rLen)
                && left' == Left(data, offset') && NoRunt(left', maxPayloadSize)
      ensures !stop && offset == |data| ==> BareHeader(old(Pending())) && one == [old(Pending())] && Pending() == []
      ensures !stop && offset < |data| ==> Continues(left, one, left', maxPayloadSize)
    {
      one, left' := [], left;
      if rLen >= 2 {
        assert Valid() ==> Header(left) == Header(buffer[..]) == Header(Pending());
        ret, stop, offset' := TurnPart(data, offset);
        if !stop {
          one, left' := [left[..Header(left)]], left[Header(left)..];
          if offset < |data| {
            Advance(left, maxPayloadSize);
          }
        }
      } else {
        ret, stop, offset' := TurnHead(data, offset);
      }
    }

    // The do-while loop: a turn is always taken, further turns while input is left.
    method Loop(data: seq<byte>) returns (ret: int)
      requires Refused() || (Valid() && NoRunt(Pending() + data, maxPayloadSize))
      modifies this, buffer, payload
      ensures Layout()
      ensures old(Refused()) ==>
                && ret == RET_PART_TOO_LONG && Refused()
                && frames == old(frames) && buffer[..] == old(buffer[..]) && payload[..] == old(payload[..])
      ensures old(Valid()) ==>
              var p := Call(old(Pending()), data, maxPayloadSize);
              && ret == p.verdict
              && frames == old(frames) + p.frames
              && (if ret == RET_OK then Valid() && Pending() == p.rest else Failed(ret))
    {
      ghost var whole := if Valid() then Pending() + data else [];
      assert data[0..] == data;
      var stop, offset;
      ghost var shown, left;
      ret, stop, offset, shown, left := Turn(data, 0, whole);
      assert data == [] ==> whole + data == whole;
      if !stop && data != [] {
        ret := MoreTurns(data, offset, whole, shown, left, old(frames));
      }
    }

    lemma AtEnd(data: seq<byte>)
      requires Valid()
      ensures Left(data, |data|) == Pending() && Stops(Pending(), maxPayloadSize, RET_OK)
    {
      PartialStops(Pending(), maxPayloadSize);
    }

    method MoreTurns(data: seq<byte>, start: nat, ghost whole: seq<byte>, ghost got: seq<seq<byte>>,
                     ghost todo: seq<byte>, ghost before: seq<seq<byte>>) returns (ret: int)
      requires Valid() && start <= |data| && frames == before + got
      requires todo == Left(data, start) && NoRunt(todo, maxPayloadSize) && Continues(whole, got, todo, maxPayloadSize)
      modifies this, buffer, payload
      ensures Layout()
      ensures var p := Parse(whole, maxPayloadSize);
              && ret == p.verdict
              && frames == before + p.frames
              && (if ret == RET_OK then Valid() && Pending() == p.rest else Failed(ret))
    {
      hide Parse, NoRunt, Continues, Stops, Failed, Refused, Pending, Left, Header, BareHeader;
      var offset, stop := start, false;
      ghost var shown, left := got, todo;
      while offset < |data|
        invariant Valid() && offset <= |data| && frames == before + shown
        invariant left == Left(data, offset) && NoRunt(left, maxPayloadSize)
        invariant Continues(whole, shown, left, maxPayloadSize)
        decreases |data| - offset, rLen
      {
        ghost var one, left';
        ret, stop, offset, one, left' := Turn(data, offset, left);
        if stop {
          Finish(whole, shown, left, maxPayloadSize, ret);
          return;
        }
        Chain(whole, shown, left, one, left', maxPayloadSize);
        shown, left := shown + one, left';
      }
      AtEnd(data);
      Finish(whole, shown, left, maxPayloadSize, RET_OK);
      return RET_OK;
    }
  }

  // The loop returns `verdict` on `left` without completing a frame.
  ghost predicate Stops(left: seq<byte>, max: nat, verdict: int) {
    Parse(left, max) == Parsed([], left, verdict)
  }

  // Parsing `left` finishes the parse of `whole` of which `shown` are the frames already cut off.
  ghost predicate Continues(whole: seq<byte>, shown: seq<seq<byte>>, left: seq<byte>, max: nat) {
    var p := Parse(left, max);
    Parse(whole, max) == Parsed(shown + p.frames, p.rest, p.verdict)
  }

  lemma Chain(whole: seq<byte>, shown: seq<seq<byte>>, left: seq<byte>, one: seq<seq<byte>>, left': seq<byte>, max: nat)
    requires Continues(whole, shown, left, max) && Continues(left, one, left', max)
    ensures Continues(whole, shown + one, left', max)
  {
    var p := Parse(left', max);
    assert shown + (one + p.frames) == shown + one + p.frames;
  }

  lemma Finish(whole: seq<byte>, shown: seq<seq<byte>>, left: seq<byte>, max: nat, verdict: int)
    requires Continues(whole, shown, left, max) && Stops(left, max, verdict)
    ensures Parse(whole, max) == Parsed(shown, left, verdict)
  {
  }

  lemma PartialStops(left: seq<byte>, max: nat)
    requires IsPartial(left, max)
    ensures Stops(left, max, RET_OK)
  {
  }

  lemma Advance(left: seq<byte>, max: nat)
    requires |left| >= 2 && NoRunt(left, max)
    requires 0 < Header(left) <= max && |left| >= Header(left) && |left| > 2
    ensures Continues(left, [left[..Header(left)]], left[Header(left)..], max)
    ensures NoRunt(left[Header(left)..], max)
  {
  }

  lemma ParseExactFrame(frame: seq<byte>, max: nat)
    requires 3 <= |frame| == Header(frame) <= max
    ensures Parse(frame, max) == Parsed([frame], [], RET_OK)
  {
    assert frame[|frame|..] == [] && frame[..|frame|] == frame;
  }
}
