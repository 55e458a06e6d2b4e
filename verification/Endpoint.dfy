/**
 The callbacks of uot_udp_service.c and uot_tcp_service.c over their buffers, each proved to take
 the step of the transition system in Relay.
 */
module Endpoint {
  import opened Bytes
  import opened Framing
  import opened Payload16
  import opened Relay

  const UINT64_LIMIT: nat := 0x1_0000_0000_0000_0000

  // The low n bytes of v, most significant first, as gnb_htonll stores them.
  function BigEndian(v: nat, n: nat): (s: seq<byte>)
    ensures |s| == n
  {
    if n == 0 then [] else BigEndian(v / 256, n - 1) + [v % 256]
  }

  function FromBigEndian(s: seq<byte>): nat {
    if s == [] then 0 else FromBigEndian(s[..|s| - 1]) * 256 + s[|s| - 1]
  }

  function Power256(n: nat): (p: nat)
    ensures p > 0
  {
    if n == 0 then 1 else 256 * Power256(n - 1)
  }

  lemma {:induction false} BigEndianRoundTrip(v: nat, n: nat)
    requires v < Power256(n)
    ensures FromBigEndian(BigEndian(v, n)) == v
  {
    if n > 0 {
      BigEndianRoundTrip(v / 256, n - 1);
      assert BigEndian(v, n)[..n - 1] == BigEndian(v / 256, n - 1);
    }
  }

  lemma MostSignificantFirst()
    ensures BigEndian(0x0102030405060708, 8) == [1, 2, 3, 4, 5, 6, 7, 8]
  {
    assert BigEndian(0x01020304, 4) == [1, 2, 3, 4];
    assert BigEndian(0x010203040506, 6) == [1, 2, 3, 4, 5, 6];
  }

  // The low n bytes of v as a little-endian machine keeps them.
  function LittleEndian(v: nat, n: nat): (s: seq<byte>)
    ensures |s| == n
  {
    if n == 0 then [] else [v % 256] + LittleEndian(v / 256, n - 1)
  }

  // The 64-bit word whose bytes are those of v the other way round.
  function Swapped(v: nat): nat {
    FromBigEndian(LittleEndian(v, 8))
  }

  // gnb_htonll and gnb_ntohll. What is stored at the result's address is the argument in network order.
  method Htonll(v: nat) returns (rv: nat)
    requires v < UINT64_LIMIT
    ensures rv == Swapped(v) < UINT64_LIMIT && LittleEndian(rv, 8) == BigEndian(v, 8)
  {
    hide Power256;
    rv := 0;
    var val := v;
    ghost var done: seq<byte> := [];
    EightBytes();
    for x := 0 to 8
      invariant |done| == x && rv == FromBigEndian(done) && done + LittleEndian(val, 8 - x) == LittleEndian(v, 8)
    {
      ghost var next: seq<byte> := done + [val % 256];
      assert next[..x] == done;
      assert LittleEndian(val, 8 - x) == [val % 256] + LittleEndian(val / 256, 7 - x);
      FromBigEndianBound(next);
      PowerGrows(x + 1, 8);
      rv := (rv * 256) % UINT64_LIMIT + val % 256;
      val := val / 256;
      done := next;
    }
    assert done == LittleEndian(v, 8);
    LittleOfBig(done);
    ReversedLittle(v, 8);
    FromBigEndianBound(done);
  }

  // Swapping twice gives the number back, so what one side sends the other reads.
  lemma SwapTwice(v: nat)
    requires v < UINT64_LIMIT
    ensures Swapped(Swapped(v)) == v
  {
    LittleOfBig(LittleEndian(v, 8));
    ReversedLittle(v, 8);
    EightBytes();
    BigEndianRoundTrip(v, 8);
  }

  lemma EightBytes()
    ensures Power256(8) == UINT64_LIMIT
  {
    assert Power256(4) == 0x1_0000_0000;
  }

  lemma {:induction false} PowerGrows(m: nat, n: nat)
    requires m <= n
    ensures Power256(m) <= Power256(n)
  {
    if m < n {
      PowerGrows(m, n - 1);
    }
  }

  lemma {:induction false} FromBigEndianBound(s: seq<byte>)
    ensures FromBigEndian(s) < Power256(|s|)
  {
    if s != [] {
      FromBigEndianBound(s[..|s| - 1]);
    }
  }

  function Reversed(s: seq<byte>): seq<byte> {
    if s == [] then [] else [s[|s| - 1]] + Reversed(s[..|s| - 1])
  }

  lemma {:induction false} ReversedCons(b: byte, s: seq<byte>)
    ensures Reversed([b] + s) == Reversed(s) + [b]
  {
    if s == [] {
      assert [b] + s == [b] && [b][..0] == [];
    } else {
      var before, last, t := s[..|s| - 1], s[|s| - 1], [b] + s;
      ReversedCons(b, before);
      assert t[..|s|] == [b] + before && t[|s|] == last;
      assert Reversed(t) == [last] + (Reversed(before) + [b]);
    }
  }

  lemma {:induction false} LittleOfBig(s: seq<byte>)
    ensures LittleEndian(FromBigEndian(s), |s|) == Reversed(s)
  {
    if s != [] {
      var before, last := s[..|s| - 1], s[|s| - 1];
      var v := FromBigEndian(before) * 256 + last;
      LittleOfBig(before);
      assert v % 256 == last && v / 256 == FromBigEndian(before);
      hide FromBigEndian;
      assert LittleEndian(v, |s|) == [v % 256] + LittleEndian(v / 256, |before|);
    }
  }

  lemma {:induction false} ReversedLittle(v: nat, n: nat)
    ensures Reversed(LittleEndian(v, n)) == BigEndian(v, n)
  {
    if n > 0 {
      ReversedLittle(v / 256, n - 1);
      ReversedCons(v % 256, LittleEndian(v / 256, n - 1));
    }
  }

  /** gnb_zbuf_t: a block of memory with a read position and an append position. */
  class ZBuf {
    const block: array<byte>
    var pos: nat
    var las: nat

    ghost predicate Valid()
      reads this
    {
      pos <= las <= block.Length
    }

    ghost function Contents(): seq<byte>
      requires Valid()
      reads this, block
    {
      block[pos..las]
    }

    // The byte a frame appended now would find in the place of its sub_type.
    ghost function StaleSubType(): byte
      reads this, block
    {
      if las + 3 < block.Length then block[las + 3] else 0
    }

    constructor (size: nat)
      ensures Valid() && pos == las == 0 && fresh(block) && block.Length == size
    {
      block := new byte[size](_ => 0);
      pos, las := 0, 0;
    }

    method Reset()
      modifies this
      ensures Valid() && pos == las == 0
    {
      pos, las := 0, 0;
    }

    // Lay a frame over the free space: length, type and the first bytes of the data area. Bytes of
    // the data area that are not written, like sub_type, keep what was there.
    method PutFrame(kind: byte, written: seq<byte>, dataLen: nat)
      requires Valid() && |written| <= dataLen && las + HEAD_SIZE + dataLen <= block.Length
      requires dataLen + HEAD_SIZE < UINT16_LIMIT
      modifies this`las, block
      ensures Valid() && las == old(las) + HEAD_SIZE + dataLen
      ensures Contents() == old(Contents()) + FrameOf(kind, old(StaleSubType()),
                                written + old(block[..])[old(las) + HEAD_SIZE + |written|..las])
    {
      hide Splice, FrameOf, Uint16Bytes;
      ghost var before := block[..];
      FrameAppended(before, pos, las, kind, written, dataLen);
      Memcpy(block, las, Uint16Bytes((dataLen + HEAD_SIZE) % UINT16_LIMIT) + [kind]);
      Memcpy(block, las + HEAD_SIZE, written);
      las := las + HEAD_SIZE + dataLen;
      assert block[pos..las] == block[..][pos..las];
    }
  }

  lemma Extends(before: seq<byte>, after: seq<byte>, pos: nat, start: nat, end: nat)
    requires pos <= start <= end <= |after| == |before| && after[..start] == before[..start]
    ensures after[pos..end] == before[pos..start] + after[start..end]
  {
    assert after[pos..start] == after[..start][pos..];
    assert before[pos..start] == before[..start][pos..];
  }

  // Where a slice lies decides what splicing does to it.
  lemma SpliceSlice(s: seq<byte>, at: nat, src: seq<byte>, lo: nat, hi: nat)
    requires at + |src| <= |s| && lo <= hi <= |s|
    ensures hi <= at || at + |src| <= lo ==> Splice(s, at, src)[lo..hi] == s[lo..hi]
    ensures lo == at && hi == at + |src| ==> Splice(s, at, src)[lo..hi] == src
  {
  }

  lemma Slices(s: seq<byte>, a: nat, b: nat, c: nat, d: nat, e: nat)
    requires a <= b <= c <= d <= e <= |s|
    ensures s[a..e] == s[a..b] + s[b..c] + (s[c..d] + s[d..e])
  {
    assert s[a..c] == s[a..b] + s[b..c];
    assert s[c..e] == s[c..d] + s[d..e];
    assert s[a..e] == s[a..c] + s[c..e];
  }

  lemma FrameSpliced(before: seq<byte>, las: nat, kind: byte, written: seq<byte>, dataLen: nat)
    requires las + HEAD_SIZE + dataLen <= |before| && |written| <= dataLen && dataLen + HEAD_SIZE < UINT16_LIMIT
    ensures var head := Uint16Bytes(dataLen + HEAD_SIZE) + [kind];
            var after := Splice(Splice(before, las, head), las + HEAD_SIZE, written);
            && after[..las] == before[..las]
            && after[las..las + HEAD_SIZE + dataLen]
            == FrameOf(kind, before[las + 3], written + before[las + HEAD_SIZE + |written|..las + HEAD_SIZE + dataLen])
  {
    hide Splice, FrameOf, Uint16Bytes;
    var at, mark, end := las + HEAD_SIZE, las + HEAD_SIZE + |written|, las + HEAD_SIZE + dataLen;
    var head: seq<byte> := Uint16Bytes(dataLen + HEAD_SIZE) + [kind];
    var mid := Splice(before, las, head);
    var after := Splice(mid, at, written);
    SpliceSlice(before, las, head, 0, las);
    SpliceSlice(mid, at, written, 0, las);
    assert before[0..las] == before[..las] && mid[0..las] == mid[..las] && after[0..las] == after[..las];
    SpliceSlice(before, las, head, las, las + 3);
    SpliceSlice(mid, at, written, las, las + 3);
    SpliceSlice(before, las, head, las + 3, at);
    SpliceSlice(mid, at, written, las + 3, at);
    assert before[las + 3..at] == [before[las + 3]];
    SpliceSlice(mid, at, written, at, mark);
    SpliceSlice(before, las, head, mark, end);
    SpliceSlice(mid, at, written, mark, end);
    Slices(after, las, las + 3, at, mark, end);
    FrameShape(kind, before[las + 3], written + before[mark..end]);
  }

  lemma FrameAppended(before: seq<byte>, pos: nat, las: nat, kind: byte, written: seq<byte>, dataLen: nat)
    requires pos <= las && las + HEAD_SIZE + dataLen <= |before| && |written| <= dataLen && dataLen + HEAD_SIZE < UINT16_LIMIT
    ensures var head := Uint16Bytes((dataLen + HEAD_SIZE) % UINT16_LIMIT) + [kind];
            var after := Splice(Splice(before, las, head), las + HEAD_SIZE, written);
            after[pos..las + HEAD_SIZE + dataLen]
            == before[pos..las]
               + FrameOf(kind, before[las + 3], written + before[las + HEAD_SIZE + |written|..las + HEAD_SIZE + dataLen])
  {
    hide Splice, FrameOf, Uint16Bytes;
    var head: seq<byte> := Uint16Bytes(dataLen + HEAD_SIZE) + [kind];
    FrameSpliced(before, las, kind, written, dataLen);
    Extends(before, Splice(Splice(before, las, head), las + HEAD_SIZE, written), pos, las, las + HEAD_SIZE + dataLen);
  }

  lemma FrameShape(kind: byte, sub: byte, data: seq<byte>)
    requires |data| + HEAD_SIZE < UINT16_LIMIT
    ensures FrameOf(kind, sub, data) == Uint16Bytes(|data| + HEAD_SIZE) + [kind] + [sub] + data
  {
  }

  // A direction of which only the send buffer matters.
  function Sending(out: seq<byte>): Direction {
    OPENED.(out := out)
  }

  const KEEPALIVE_TEXT: nat := 16

  /** uot_channel_t with its two connections. `echo` tells the TCP side from the UDP side. */
  class Channel {
    const tcpSend: ZBuf
    const udpSend: ZBuf
    const ctx: Context
    const echo: bool
    const text: seq<byte> // the text of a keepalive frame
    var finished: bool    // tcp_conn->status is TCP_CONNECT_FINISH
    var keepaliveTs: nat
    var handed: seq<seq<byte>> // the datagrams given to gnb_network_service_udp_send

    ghost predicate Layout() {
      && tcpSend.block.Length == udpSend.block.Length == SEND_BUFFER
      && ctx.Layout() && ctx.maxPayloadSize == MAX_TCP_PAYLOAD
      && tcpSend != udpSend && tcpSend.block != udpSend.block
      && {ctx.buffer, ctx.payload} !! {tcpSend.block, udpSend.block}
      && |text| < KEEPALIVE_TEXT
    }

    ghost predicate BuffersValid()
      reads this, tcpSend, udpSend
    {
      Layout() && tcpSend.Valid() && tcpSend.pos == 0 && udpSend.Valid()
    }

    ghost predicate Valid()
      reads this, tcpSend, udpSend, ctx, ctx.buffer, ctx.payload
    {
      BuffersValid() && ctx.Valid()
    }

    ghost function Out(): seq<byte>
      requires BuffersValid()
      reads this, tcpSend, tcpSend.block, udpSend
    {
      tcpSend.Contents()
    }

    ghost function Repr(): set<object> {
      {this, tcpSend, tcpSend.block, udpSend, udpSend.block, ctx, ctx.buffer, ctx.payload}
    }

    constructor (echo: bool, text: seq<byte>, now: nat)
      requires |text| < KEEPALIVE_TEXT
      ensures fresh(Repr() - {this})
      ensures Valid() && Out() == [] && ctx.Pending() == [] && ctx.frames == []
      ensures handed == [] && !finished && this.echo == echo && this.text == text && keepaliveTs == now
    {
      tcpSend := new ZBuf(SEND_BUFFER);
      udpSend := new ZBuf(SEND_BUFFER);
      ctx := new Context(MAX_TCP_PAYLOAD);
      this.echo, this.text := echo, text;
      finished, keepaliveTs, handed := false, now, [];
    }

    // A datagram that is dropped for lack of room is not accepted. The guard counts only the
    // datagram; that the four bytes of its head fit too is the caller's obligation.
    method HandleUdp(recv: seq<byte>) returns (ghost sub: byte)
      requires BuffersValid()
      requires Enabled(Sending(Out()), Accept(recv, tcpSend.StaleSubType()))
      modifies tcpSend`las, tcpSend.block
      ensures BuffersValid() && sub == old(tcpSend.StaleSubType())
      ensures Out() == Next(Sending(old(Out())), Accept(recv, sub)).out
      ensures |old(Out())| + HEAD_SIZE + |recv| <= SEND_BUFFER ==> Out() == old(Out()) + FrameOf(TYPE_UDP_OVER_TCP, sub, recv)
      ensures |old(Out())| + HEAD_SIZE + |recv| > SEND_BUFFER ==> Out() == old(Out())
    {
      sub := tcpSend.StaleSubType();
      if |recv| > tcpSend.block.Length {
        return;
      }
      if |recv| > tcpSend.block.Length - tcpSend.las {
        return;
      }
      tcpSend.PutFrame(TYPE_UDP_OVER_TCP, recv, |recv|);
      assert recv + [] == recv;
    }

    // The frame's body: the time in network byte order, the text, and bytes that are not written.
    method SendKeepaliveFrame(now: nat) returns (ghost act: Action)
      requires BuffersValid()
      modifies tcpSend`las, tcpSend.block
      ensures BuffersValid() && act.Keepalive? && |act.body| == KEEPALIVE_BODY
      ensures BigEndian(now % UINT64_LIMIT, 8) + text + [0] <= act.body
      ensures Out() == Next(Sending(old(Out())), act).out
      ensures |old(Out())| + HEAD_SIZE + KEEPALIVE_BODY <= SEND_BUFFER ==>
                Out() == old(Out()) + FrameOf(TYPE_KEEPALIVE, act.sub, act.body)
      ensures |old(Out())| + HEAD_SIZE + KEEPALIVE_BODY > SEND_BUFFER ==> Out() == old(Out())
    {
      var time := Htonll(now % UINT64_LIMIT);
      var written := LittleEndian(time, 8) + text + [0];
      act := Keepalive(written + seq(KEEPALIVE_BODY - |written|, _ => 0), 0);
      if HEAD_SIZE + KEEPALIVE_BODY > tcpSend.block.Length - tcpSend.las {
        return;
      }
      act := Keepalive(written + tcpSend.block[tcpSend.las + HEAD_SIZE + |written|..tcpSend.las + HEAD_SIZE + KEEPALIVE_BODY],
                       tcpSend.StaleSubType());
      tcpSend.PutFrame(TYPE_KEEPALIVE, written, KEEPALIVE_BODY);
    }

    // do_send and service_send_cb. n is what send returned: -1 stands for "try again", which leaves the
    // buffer alone; after any other outcome the whole buffer is reset.
    method DoSend(n: int) returns (sent: seq<byte>)
      requires BuffersValid() && -1 <= n <= |Out()|
      modifies tcpSend
      ensures BuffersValid()
      ensures n == -1 ==> sent == [] && Out() == old(Out())
      ensures n >= 0 ==> sent == old(Out())[..n] && Out() == [] == ShortSend(Sending(old(Out())), n).out
    {
      sent := [];
      if n == -1 {
        return;
      }
      sent := tcpSend.block[tcpSend.pos..tcpSend.pos + n];
      tcpSend.pos := tcpSend.pos + n;
      tcpSend.Reset();
    }

    method TcpToUdp(payload: seq<byte>)
      requires BuffersValid() && HEAD_SIZE <= |payload| == Header(payload) <= MAX_TCP_PAYLOAD
      modifies this`handed, udpSend, udpSend.block
      ensures BuffersValid() && handed == old(handed) + [payload[HEAD_SIZE..]]
    {
      var size := Uint16(payload[0], payload[1]);
      var dataLen := (size - HEAD_SIZE) % UINT16_LIMIT;
      udpSend.Reset();
      if size > udpSend.block.Length - udpSend.las {
        return;
      }
      Memcpy(udpSend.block, udpSend.pos, payload[HEAD_SIZE..HEAD_SIZE + dataLen]);
      udpSend.las := udpSend.las + dataLen;
      handed := handed + [udpSend.block[udpSend.pos..udpSend.las]];
      assert udpSend.block[udpSend.pos..udpSend.las] == udpSend.block[..][..dataLen] == payload[HEAD_SIZE..];
      var sent: int := *;
      if sent > 0 {
        udpSend.Reset();
      }
    }

    // payload16_handle_callback.
    method Callback(payload: seq<byte>, now: nat) returns (ghost echoes: seq<Action>)
      requires BuffersValid() && HEAD_SIZE <= |payload| == Header(payload) <= MAX_TCP_PAYLOAD
      modifies this`handed, this`keepaliveTs, udpSend, udpSend.block, tcpSend`las, tcpSend.block
      ensures BuffersValid() && handed == old(handed) + Datagrams([payload])
      ensures AreEchoes(echoes) && |echoes| == if echo then Keepalives([payload]) else 0
      ensures Legal(Sending(old(Out())), echoes) && Out() == Run(Sending(old(Out())), echoes).out
      ensures keepaliveTs == if payload[2] == TYPE_KEEPALIVE then now else old(keepaliveTs)
      ensures !(echo && payload[2] == TYPE_KEEPALIVE) ==> Out() == old(Out())
      ensures echo && payload[2] == TYPE_KEEPALIVE && |old(Out())| + HEAD_SIZE + KEEPALIVE_BODY <= SEND_BUFFER ==>
                && |echoes| == 1
                && Out() == old(Out()) + FrameOf(TYPE_KEEPALIVE, echoes[0].sub, echoes[0].body)
                && BigEndian(now % UINT64_LIMIT, 8) + text + [0] <= echoes[0].body
    {
      echoes := [];
      SingleFrame(payload);
      if payload[2] == TYPE_UDP_OVER_TCP {
        TcpToUdp(payload);
      } else if payload[2] == TYPE_KEEPALIVE {
        keepaliveTs := now;
        if echo {
          ghost var act := SendKeepaliveFrame(now);
          echoes := [act];
        }
      }
    }

    // handle_tcp: decode a received chunk; the callback runs on every completed frame. Frames shorter
    // than their own head are outside the protocol.
    method HandleTcp(data: seq<byte>, now: nat) returns (ghost echoes: seq<Action>)
      requires BuffersValid() && !finished
      requires ctx.Refused() ||
               (ctx.Valid() && NoRunt(ctx.Pending() + data, MAX_TCP_PAYLOAD)
                && AllQueued(Call(ctx.Pending(), data, MAX_TCP_PAYLOAD).frames))
      modifies this, ctx, ctx.buffer, ctx.payload, udpSend, udpSend.block, tcpSend`las, tcpSend.block
      ensures BuffersValid()
      ensures old(ctx.Refused()) ==>
                finished && ctx.Refused() && handed == old(handed) && keepaliveTs == old(keepaliveTs) && Out() == old(Out())
      ensures old(ctx.Valid()) ==>
              var p := Call(old(ctx.Pending()), data, MAX_TCP_PAYLOAD);
              && handed == old(handed) + Datagrams(p.frames)
              && finished == (p.verdict != RET_OK)
              && (!finished ==> Valid() && ctx.Pending() == p.rest && keepaliveTs == now)
              && (finished ==>
                    if FailsEarly(old(ctx.Pending()), data, MAX_TCP_PAYLOAD) then ctx.Valid() && ctx.Pending() == []
                    else ctx.Failed(p.verdict))
              && |echoes| == if echo then Keepalives(p.frames) else 0
      ensures old(ctx.Valid()) && echo ==>
                var room := |old(Out())| + (HEAD_SIZE + KEEPALIVE_BODY)
                                           * Keepalives(Call(old(ctx.Pending()), data, MAX_TCP_PAYLOAD).frames);
                room <= SEND_BUFFER ==> |Out()| == room
      ensures AreEchoes(echoes)
      ensures Legal(Sending(old(Out())), echoes) && Out() == Run(Sending(old(Out())), echoes).out
    {
      hide Call, Parse, NoRunt;
      ghost var shown := if ctx.Valid() then Call(ctx.Pending(), data, MAX_TCP_PAYLOAD).frames else [];
      if ctx.Valid() {
        FramesFit(ctx.Pending(), data, MAX_TCP_PAYLOAD);
      }
      assert Datagrams([]) == [] && Keepalives([]) == 0 && handed + [] == handed;
      hide Datagrams, Keepalives;
      var before := |ctx.frames|;
      var ret := ctx.Handle(data);
      assert ctx.frames[before..] == shown;
      echoes := Dispatch(ctx.frames[before..], now);
      if ret < 0 {
        finished := true;
        return;
      }
      keepaliveTs := now;
    }

    // try_tcp_connect on the UDP side: a new connection with an empty send buffer, for the channel that
    // is there already. The decoder context is not touched. The record of datagrams starts anew.
    method Reconnect(now: nat)
      requires BuffersValid()
      modifies this`finished, this`keepaliveTs, this`handed, tcpSend
      ensures BuffersValid() && Out() == [] && !finished && keepaliveTs == now && handed == []
    {
      tcpSend.Reset();
      finished, keepaliveTs, handed := false, now, [];
    }

    // After a frame that was too long no later connection hands on anything, whatever arrives on it: the
    // first bytes that are received end it.
    method Disabled(arrivals: seq<seq<byte>>, now: nat)
      requires BuffersValid() && ctx.Refused() && finished
      modifies this, ctx, ctx.buffer, ctx.payload, udpSend, udpSend.block, tcpSend, tcpSend.block
      ensures BuffersValid() && ctx.Refused() && finished && (arrivals != [] ==> handed == [])
      ensures arrivals == [] ==> handed == old(handed)
    {
      for i := 0 to |arrivals|
        invariant BuffersValid() && ctx.Refused() && finished
        invariant handed == if i == 0 then old(handed) else []
      {
        Reconnect(now);
        ghost var echoes := HandleTcp(arrivals[i], now);
      }
    }

    // The callbacks of one call of the decoder, in order.
    method Dispatch(shown: seq<seq<byte>>, now: nat) returns (ghost echoes: seq<Action>)
      requires BuffersValid()
      requires forall i :: 0 <= i < |shown| ==> HEAD_SIZE <= |shown[i]| == Header(shown[i]) <= MAX_TCP_PAYLOAD
      modifies this`handed, this`keepaliveTs, udpSend, udpSend.block, tcpSend`las, tcpSend.block
      ensures BuffersValid()
      ensures handed == old(handed) + Datagrams(shown)
      ensures AreEchoes(echoes) && |echoes| == if echo then Keepalives(shown) else 0
      ensures shown == [] ==> keepaliveTs == old(keepaliveTs)
      ensures Legal(Sending(old(Out())), echoes)
      ensures Out() == Run(Sending(old(Out())), echoes).out
      ensures echo && |old(Out())| + (HEAD_SIZE + KEEPALIVE_BODY) * Keepalives(shown) <= SEND_BUFFER ==>
                |Out()| == |old(Out())| + (HEAD_SIZE + KEEPALIVE_BODY) * Keepalives(shown)
    {
      echoes := [];
      ghost var start := Sending(Out());
      assert Legal(start, []) && Run(start, []) == start && Datagrams([]) == [] && Keepalives([]) == 0;
      assert handed + [] == handed;
      hide Legal, Run, Datagrams, Keepalives;
      assert shown[..0] == [];
      for i := 0 to |shown|
        invariant BuffersValid()
        invariant handed == old(handed) + Datagrams(shown[..i]) && (i == 0 ==> keepaliveTs == old(keepaliveTs))
        invariant AreEchoes(echoes) && |echoes| == if echo then Keepalives(shown[..i]) else 0
        invariant Legal(start, echoes) && Out() == Run(start, echoes).out
      {
        ghost var more := Callback(shown[i], now);
        assert shown[..i + 1] == shown[..i] + [shown[i]];
        DatagramsAppend(shown[..i], [shown[i]]);
        KeepalivesAppend(shown[..i], [shown[i]]);
        EchoesAppend(start, echoes, more);
        echoes := echoes + more;
      }
      assert shown[..|shown|] == shown;
      if |start.out| + (HEAD_SIZE + KEEPALIVE_BODY) * |echoes| <= SEND_BUFFER {
        EchoesGrow(start, echoes);
      }
    }
  }

  lemma FramesFit(pending: seq<byte>, data: seq<byte>, max: nat)
    requires AllQueued(Call(pending, data, max).frames) && IsPartial(pending, max)
    ensures forall i :: 0 <= i < |Call(pending, data, max).frames| ==> |Call(pending, data, max).frames[i]| <= max
  {
    forall i | 0 <= i < |Call(pending, data, max).frames|
      ensures |Call(pending, data, max).frames[i]| <= max
    {
      if !(data == [] && BareHeader(pending)) {
        ParsedFramesAreFrames(pending + data, max, i);
      }
    }
  }

  lemma {:induction false} KeepalivesAppend(a: seq<seq<byte>>, b: seq<seq<byte>>)
    ensures Keepalives(a + b) == Keepalives(a) + Keepalives(b)
    decreases |a|
  {
    if a == [] {
      assert a + b == b;
    } else {
      KeepalivesAppend(a[1..], b);
      assert (a + b)[1..] == a[1..] + b;
    }
  }

  // Echoes depend on the send buffer alone and may be queued in two goes.
  lemma {:induction false} EchoesAppend(s: Direction, a: seq<Action>, b: seq<Action>)
    requires AreEchoes(a) && AreEchoes(b)
    ensures AreEchoes(a + b) && Legal(s, a) && Legal(s, a + b) && Legal(Sending(Run(s, a).out), b)
    ensures Run(s, a + b).out == Run(Sending(Run(s, a).out), b).out
    decreases |a|
  {
    EchoesLegal(s, a);
    EchoesLegal(s, a + b);
    if a == [] {
      assert a + b == b;
      EchoesSameOut(s, Sending(s.out), b);
    } else {
      assert (a + b)[1..] == a[1..] + b;
      EchoesAppend(Next(s, a[0]), a[1..], b);
    }
  }

  lemma {:induction false} EchoesSameOut(s: Direction, t: Direction, acts: seq<Action>)
    requires AreEchoes(acts) && s.out == t.out
    ensures Legal(s, acts) && Legal(t, acts) && Run(s, acts).out == Run(t, acts).out
    decreases |acts|
  {
    if acts != [] {
      EchoesSameOut(Next(s, acts[0]), Next(t, acts[0]), acts[1..]);
    }
  }
}
