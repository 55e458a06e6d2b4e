/**
 One direction of the tunnel as a transition system over its runs: datagrams are framed into the
 TCP send buffer, keepalive frames are mixed in, the socket takes the buffer, and the far side
 feeds whatever chunk of the byte stream arrives to its decoder. Then both directions together.
 */
module Relay {
  import opened Bytes
  import opened Sequences
  import opened Framing
  import opened Payload16

  const MAX_TCP_PAYLOAD: nat := 4096
  const SEND_BUFFER: nat := 131072
  const TYPE_UDP_OVER_TCP: byte := 111
  const TYPE_KEEPALIVE: byte := 107
  const KEEPALIVE_BODY: nat := 24

  // What gnb_payload16_set_data_len and the stores after it leave in the buffer. sub_type is never
  // written, so it is whatever byte was there before.
  function FrameOf(kind: byte, sub: byte, data: seq<byte>): (f: seq<byte>)
    ensures |f| == HEAD_SIZE + |data| && f[2] == kind && f[HEAD_SIZE..] == data
  {
    Uint16Bytes((|data| + HEAD_SIZE) % UINT16_LIMIT) + [kind, sub] + data
  }

  // The datagram a completed frame makes the callback send, if it is a datagram frame.
  function Datagrams(frames: seq<seq<byte>>): seq<seq<byte>> {
    if frames == [] then []
    else if |frames[0]| >= HEAD_SIZE && frames[0][2] == TYPE_UDP_OVER_TCP then
      [frames[0][HEAD_SIZE..]] + Datagrams(frames[1..])
    else Datagrams(frames[1..])
  }

  function Keepalives(frames: seq<seq<byte>>): nat {
    if frames == [] then 0
    else (if |frames[0]| >= HEAD_SIZE && frames[0][2] == TYPE_KEEPALIVE then 1 else 0) + Keepalives(frames[1..])
  }

  // out: send_zbuf from pos to las; wire: bytes sent and not yet received; pending: the receiving
  // decoder's unfinished frame; open: its verdict was never negative. The last three components
  // are history: frames queued and not yet completed, datagrams accepted, datagrams handed on.
  datatype Direction = Direction(
    out: seq<byte>, wire: seq<byte>, pending: seq<byte>, open: bool,
    flying: seq<seq<byte>>, accepted: seq<seq<byte>>, handed: seq<seq<byte>>)

  // A connection on which nothing has happened yet.
  predicate IsOpened(s: Direction) {
    s == OPENED
  }

  const OPENED := Direction([], [], [], true, [], [], [])

  datatype Action =
    | Accept(data: seq<byte>, sub: byte)    // handle_udp
    | Keepalive(body: seq<byte>, sub: byte) // send_keepalive_frame and the echo
    | Send                                  // the socket takes the whole buffer
    | Receive(n: nat)                       // handle_tcp on the next n bytes

  function Queue(s: Direction, f: seq<byte>): Direction {
    s.(out := s.out + f, flying := s.flying + [f])
  }

  predicate Enabled(s: Direction, a: Action) {
    match a
    case Accept(d, _) => |d| + HEAD_SIZE < UINT16_LIMIT && (|d| + HEAD_SIZE <= SEND_BUFFER - |s.out| || |d| > SEND_BUFFER - |s.out|)
    case Keepalive(body, _) => |body| == KEEPALIVE_BODY
    case Send => true
    case Receive(n) => s.open && n <= |s.wire|
  }

  function Next(s: Direction, a: Action): Direction
    requires Enabled(s, a)
  {
    match a
    case Accept(d, sub) =>
      if |d| > SEND_BUFFER - |s.out| then s
      else Queue(s, FrameOf(TYPE_UDP_OVER_TCP, sub, d)).(accepted := s.accepted + [d])
    case Keepalive(body, sub) =>
      if HEAD_SIZE + KEEPALIVE_BODY > SEND_BUFFER - |s.out| then s
      else Queue(s, FrameOf(TYPE_KEEPALIVE, sub, body))
    case Send => s.(wire := s.wire + s.out, out := [])
    case Receive(n) =>
      var p := Call(s.pending, s.wire[..n], MAX_TCP_PAYLOAD);
      s.(wire := s.wire[n..], pending := p.rest, open := p.verdict == RET_OK,
         handed := s.handed + Datagrams(p.frames),
         flying := if |p.frames| <= |s.flying| then s.flying[|p.frames|..] else [])
  }

  predicate Legal(s: Direction, acts: seq<Action>)
    decreases |acts|
  {
    acts == [] || (Enabled(s, acts[0]) && Legal(Next(s, acts[0]), acts[1..]))
  }

  function Run(s: Direction, acts: seq<Action>): Direction
    requires Legal(s, acts)
    decreases |acts|
  {
    if acts == [] then s else Run(Next(s, acts[0]), acts[1..])
  }

  predicate IsQueued(f: seq<byte>) {
    HEAD_SIZE <= |f| < UINT16_LIMIT && Header(f) == |f|
  }

  predicate AllQueued(fs: seq<seq<byte>>) {
    forall i :: 0 <= i < |fs| ==> IsQueued(fs[i])
  }

  ghost predicate SomeOversize(ds: seq<seq<byte>>) {
    exists i :: 0 <= i < |ds| && |ds[i]| + HEAD_SIZE > MAX_TCP_PAYLOAD
  }

  // What every step keeps.
  ghost predicate Inv(s: Direction) {
    && AllQueued(s.flying)
    && (s.open ==> s.pending + (s.wire + s.out) == Flatten(s.flying) && IsPartial(s.pending, MAX_TCP_PAYLOAD))
    && (forall i :: 0 <= i < |s.flying| && |s.flying[i]| > MAX_TCP_PAYLOAD ==> s.flying[i][2] == TYPE_UDP_OVER_TCP)
    && s.accepted == s.handed + Datagrams(s.flying)
    && (!s.open ==> SomeOversize(s.accepted))
    && !SomeOversize(s.handed)
  }

  lemma {:induction false} DatagramsAppend(a: seq<seq<byte>>, b: seq<seq<byte>>)
    ensures Datagrams(a + b) == Datagrams(a) + Datagrams(b)
    decreases |a|
  {
    if a == [] {
      assert a + b == b;
    } else {
      DatagramsAppend(a[1..], b);
      assert (a + b)[1..] == a[1..] + b;
    }
  }

  lemma FirstQueued(fs: seq<seq<byte>>, s: seq<byte>, t: seq<byte>)
    requires AllQueued(fs) && s + t == Flatten(fs) && |s| >= 2
    ensures fs != [] && Header(s) == |fs[0]|
    ensures |s| >= |fs[0]| ==> s[..|fs[0]|] == fs[0] && s[|fs[0]|..] + t == Flatten(fs[1..])
  {
    var f := fs[0];
    assert Flatten(fs) == f + Flatten(fs[1..]);
    assert s[0] == (s + t)[0] && s[1] == (s + t)[1];
    if |s| >= |f| {
      assert s[..|f|] == (s + t)[..|f|];
      assert s[|f|..] + t == (s + t)[|f|..];
    }
  }

  // The frames `got` are the first of fs, and the rest of the stream encodes the others.
  ghost predicate CutsOff(fs: seq<seq<byte>>, got: seq<seq<byte>>, max: nat) {
    got <= fs && forall i :: 0 <= i < |got| ==> |got[i]| <= max
  }

  lemma CutOneMore(fs: seq<seq<byte>>, got: seq<seq<byte>>, max: nat)
    requires fs != [] && |fs[0]| <= max && CutsOff(fs[1..], got, max)
    ensures CutsOff(fs, [fs[0]] + got, max)
    ensures fs[|got| + 1..] == fs[1..][|got|..]
  {
    assert [fs[0]] + fs[1..] == fs;
  }

  // A prefix of a stream of queued frames parses to exactly the frames that lie wholly inside it;
  // the decoder stops early only at a frame longer than its limit.
  lemma {:induction false} ParseQueued(fs: seq<seq<byte>>, s: seq<byte>, t: seq<byte>, max: nat)
    requires AllQueued(fs) && s + t == Flatten(fs)
    ensures NoRunt(s, max)
    ensures var p := Parse(s, max);
            && CutsOff(fs, p.frames, max)
            && (p.verdict == RET_OK ==> p.rest + t == Flatten(fs[|p.frames|..]))
            && (p.verdict != RET_OK ==> |p.frames| < |fs| && |fs[|p.frames|]| > max)
    decreases |fs|
  {
    hide Flatten;
    if |s| >= 2 {
      FirstQueued(fs, s, t);
      var n := Header(s);
      if n <= max && |s| >= n {
        ParseQueued(fs[1..], s[n..], t, max);
        CutOneMore(fs, Parse(s[n..], max).frames, max);
      }
    }
  }

  lemma {:induction false} DatagramAt(fs: seq<seq<byte>>, k: nat)
    requires k < |fs| && |fs[k]| >= HEAD_SIZE && fs[k][2] == TYPE_UDP_OVER_TCP
    ensures fs[k][HEAD_SIZE..] in Datagrams(fs)
  {
    if k > 0 {
      DatagramAt(fs[1..], k - 1);
    }
  }

  lemma {:induction false} DatagramsFit(fs: seq<seq<byte>>, max: nat)
    requires forall i :: 0 <= i < |fs| ==> |fs[i]| <= max
    ensures forall i :: 0 <= i < |Datagrams(fs)| ==> |Datagrams(fs)[i]| + HEAD_SIZE <= max
  {
    if fs != [] {
      DatagramsFit(fs[1..], max);
    }
  }

  lemma SingleFrame(f: seq<byte>)
    ensures Flatten([f]) == f
    ensures |f| >= HEAD_SIZE ==> Datagrams([f]) == if f[2] == TYPE_UDP_OVER_TCP then [f[HEAD_SIZE..]] else []
    ensures |f| >= HEAD_SIZE ==> Keepalives([f]) == if f[2] == TYPE_KEEPALIVE then 1 else 0
  {
    assert Flatten([f]) == f + Flatten([f][1..]);
    assert Datagrams([f][1..]) == [] && Keepalives([f][1..]) == 0;
  }

  // What fits is queued as one frame, and a datagram that is queued is accepted; what does not fit
  // changes nothing.
  lemma QueueLaw(s: Direction, d: seq<byte>, body: seq<byte>, sub: byte)
    requires Enabled(s, Accept(d, sub)) && |body| == KEEPALIVE_BODY
    ensures var t := Next(s, Accept(d, sub));
            if |s.out| + HEAD_SIZE + |d| <= SEND_BUFFER then
              t.out == s.out + FrameOf(TYPE_UDP_OVER_TCP, sub, d) && t.accepted == s.accepted + [d]
            else t == s
    ensures var t := Next(s, Keepalive(body, sub));
            t.accepted == s.accepted
            && t.out == if |s.out| + HEAD_SIZE + |body| <= SEND_BUFFER then s.out + FrameOf(TYPE_KEEPALIVE, sub, body) else s.out
  {
  }

  // A send empties the buffer onto the wire, and what arrives leaves it. No byte is lost on the way:
  // those that arrive are in the completed frames or in what the decoder is left with.
  lemma TransferLaw(s: Direction, n: nat)
    requires Enabled(s, Receive(n)) && IsPartial(s.pending, MAX_TCP_PAYLOAD)
    ensures Next(s, Send).out == [] && Next(s, Send).wire == s.wire + s.out
    ensures var t := Next(s, Receive(n));
            && t.wire == s.wire[n..] && t.out == s.out && t.accepted == s.accepted
            && t.handed == s.handed + Datagrams(Call(s.pending, s.wire[..n], MAX_TCP_PAYLOAD).frames)
            && Flatten(Call(s.pending, s.wire[..n], MAX_TCP_PAYLOAD).frames) + t.pending == s.pending + s.wire[..n]
  {
    ParseSound(s.pending + s.wire[..n], MAX_TCP_PAYLOAD);
    if BareHeader(s.pending) && s.wire[..n] == [] {
      SingleFrame(s.pending);
      assert s.pending + s.wire[..n] == s.pending;
    }
  }

  // Echoes for which there is room are all queued.
  lemma {:induction false} EchoesGrow(s: Direction, echoes: seq<Action>)
    requires AreEchoes(echoes) && Legal(s, echoes) && |s.out| + (HEAD_SIZE + KEEPALIVE_BODY) * |echoes| <= SEND_BUFFER
    ensures |Run(s, echoes).out| == |s.out| + (HEAD_SIZE + KEEPALIVE_BODY) * |echoes|
    decreases |echoes|
  {
    if echoes != [] {
      EchoesGrow(Next(s, echoes[0]), echoes[1..]);
    }
  }

  lemma {:induction false} EchoesKeep(s: Direction, echoes: seq<Action>)
    requires AreEchoes(echoes) && Legal(s, echoes)
    ensures var t := Run(s, echoes);
            t.wire == s.wire && t.pending == s.pending && t.open == s.open && t.handed == s.handed && t.accepted == s.accepted
    decreases |echoes|
  {
    if echoes != [] {
      EchoesKeep(Next(s, echoes[0]), echoes[1..]);
    }
  }

  lemma OversizeStays(a: seq<seq<byte>>, b: seq<seq<byte>>)
    requires SomeOversize(a)
    ensures SomeOversize(a + b)
  {
    var i :| 0 <= i < |a| && |a[i]| + HEAD_SIZE > MAX_TCP_PAYLOAD;
    assert (a + b)[i] == a[i];
  }

  lemma InvQueue(s: Direction, kind: byte, sub: byte, data: seq<byte>)
    requires Inv(s) && |data| + HEAD_SIZE < UINT16_LIMIT
    requires kind != TYPE_UDP_OVER_TCP ==> |data| + HEAD_SIZE <= MAX_TCP_PAYLOAD
    ensures var d := if kind == TYPE_UDP_OVER_TCP then [data] else [];
            Inv(Queue(s, FrameOf(kind, sub, data)).(accepted := s.accepted + d))
  {
    hide Flatten, Datagrams, IsPartial, SomeOversize;
    var f := FrameOf(kind, sub, data);
    var d := if kind == TYPE_UDP_OVER_TCP then [data] else [];
    FlattenAppend(s.flying, [f]);
    DatagramsAppend(s.flying, [f]);
    SingleFrame(f);
    assert s.pending + (s.wire + (s.out + f)) == s.pending + (s.wire + s.out) + f;
    assert s.handed + (Datagrams(s.flying) + d) == s.handed + Datagrams(s.flying) + d;
    if !s.open {
      OversizeStays(s.accepted, d);
    }
  }

  // What a call of the decoder makes of the next n bytes on the wire.
  lemma Received(s: Direction, n: nat)
    requires Inv(s) && Enabled(s, Receive(n))
    ensures var p := Call(s.pending, s.wire[..n], MAX_TCP_PAYLOAD);
            && CutsOff(s.flying, p.frames, MAX_TCP_PAYLOAD)
            && (p.verdict == RET_OK ==> p.rest + (s.wire[n..] + s.out) == Flatten(s.flying[|p.frames|..]))
            && (p.verdict == RET_OK ==> IsPartial(p.rest, MAX_TCP_PAYLOAD))
            && (p.verdict != RET_OK ==> |p.frames| < |s.flying| && |s.flying[|p.frames|]| > MAX_TCP_PAYLOAD)
  {
    var chunk, later := s.wire[..n], s.wire[n..] + s.out;
    assert chunk + later == s.wire + s.out;
    hide Call, Flatten, IsPartial, Datagrams, SomeOversize, CutsOff;
    CallQueued(s.flying, s.pending, chunk, later);
  }

  lemma CallQueued(fs: seq<seq<byte>>, pending: seq<byte>, chunk: seq<byte>, later: seq<byte>)
    requires AllQueued(fs) && pending + (chunk + later) == Flatten(fs)
    ensures var p := Call(pending, chunk, MAX_TCP_PAYLOAD);
            && CutsOff(fs, p.frames, MAX_TCP_PAYLOAD)
            && (p.verdict == RET_OK ==> p.rest + later == Flatten(fs[|p.frames|..]))
            && (p.verdict == RET_OK ==> IsPartial(p.rest, MAX_TCP_PAYLOAD))
            && (p.verdict != RET_OK ==> |p.frames| < |fs| && |fs[|p.frames|]| > MAX_TCP_PAYLOAD)
  {
    hide Parse, Flatten, IsPartial, CutsOff;
    var whole := pending + chunk;
    assert whole + later == pending + (chunk + later);
    ParseQueued(fs, whole, later, MAX_TCP_PAYLOAD);
    if BareHeader(pending) && chunk == [] {
      assert whole == pending;
      FirstQueued(fs, whole, later);
    }
    if Parse(whole, MAX_TCP_PAYLOAD).verdict == RET_OK {
      RestIsPartial(whole, MAX_TCP_PAYLOAD);
    }
  }

  // In every reachable state the decoder's obligations on its input hold: no runt header and no
  // frame shorter than a frame head ever reaches it.
  lemma ReceiveIsSafe(s: Direction, n: nat)
    requires Inv(s) && Enabled(s, Receive(n))
    ensures NoRunt(s.pending + s.wire[..n], MAX_TCP_PAYLOAD)
    ensures AllQueued(Call(s.pending, s.wire[..n], MAX_TCP_PAYLOAD).frames)
  {
    hide Parse, Flatten, IsPartial, Datagrams, SomeOversize;
    assert s.wire[..n] + s.wire[n..] == s.wire;
    assert s.pending + s.wire[..n] + (s.wire[n..] + s.out) == s.pending + (s.wire + s.out);
    ParseQueued(s.flying, s.pending + s.wire[..n], s.wire[n..] + s.out, MAX_TCP_PAYLOAD);
    Received(s, n);
  }

  lemma HandOver(handed: seq<seq<byte>>, fs: seq<seq<byte>>, got: seq<seq<byte>>)
    requires CutsOff(fs, got, MAX_TCP_PAYLOAD) && !SomeOversize(handed)
    ensures handed + Datagrams(fs) == handed + Datagrams(got) + Datagrams(fs[|got|..])
    ensures !SomeOversize(handed + Datagrams(got))
  {
    assert fs == got + fs[|got|..];
    DatagramsAppend(got, fs[|got|..]);
    assert handed + (Datagrams(got) + Datagrams(fs[|got|..])) == handed + Datagrams(got) + Datagrams(fs[|got|..]);
    DatagramsFit(got, MAX_TCP_PAYLOAD);
  }

  lemma OversizeInFlight(handed: seq<seq<byte>>, fs: seq<seq<byte>>, k: nat)
    requires k < |fs| && |fs[k]| > MAX_TCP_PAYLOAD && fs[k][2] == TYPE_UDP_OVER_TCP
    ensures SomeOversize(handed + Datagrams(fs))
  {
    DatagramAt(fs, k);
    var d := fs[k][HEAD_SIZE..];
    var j :| 0 <= j < |Datagrams(fs)| && Datagrams(fs)[j] == d;
    assert (handed + Datagrams(fs))[|handed| + j] == d;
  }

  lemma InvReceive(s: Direction, n: nat)
    requires Inv(s) && Enabled(s, Receive(n))
    ensures Inv(Next(s, Receive(n)))
  {
    hide Call, Flatten, IsPartial, Datagrams, SomeOversize;
    Received(s, n);
    var p := Call(s.pending, s.wire[..n], MAX_TCP_PAYLOAD);
    HandOver(s.handed, s.flying, p.frames);
    if p.verdict != RET_OK {
      OversizeInFlight(s.handed, s.flying, |p.frames|);
    }
  }

  lemma InvNext(s: Direction, a: Action)
    requires Inv(s) && Enabled(s, a)
    ensures Inv(Next(s, a))
  {
    match a
    case Accept(d, sub) => InvQueue(s, TYPE_UDP_OVER_TCP, sub, d);
    case Keepalive(body, sub) =>
      InvQueue(s, TYPE_KEEPALIVE, sub, body);
      assert s.accepted + [] == s.accepted;
    case Send => assert s.pending + ((s.wire + s.out) + []) == s.pending + (s.wire + s.out);
    case Receive(n) => InvReceive(s, n);
  }

  lemma {:induction false} InvRun(s: Direction, acts: seq<Action>)
    requires Inv(s) && Legal(s, acts)
    ensures Inv(Run(s, acts))
    decreases |acts|
  {
    if acts != [] {
      InvNext(s, acts[0]);
      InvRun(Next(s, acts[0]), acts[1..]);
    }
  }

  // Safety of every run: what has been handed on is a prefix of what was accepted.
  lemma {:induction false} RelayIsPrefix(start: Direction, acts: seq<Action>)
    requires IsOpened(start) && Legal(start, acts)
    ensures Run(start, acts).handed <= Run(start, acts).accepted
  {
    InvRun(start, acts);
  }

  // Once every byte is consumed, all accepted datagrams have been handed on exactly when none
  // of them was too long for the receiver's payload block.
  lemma {:induction false} RelayDeliversAll(start: Direction, acts: seq<Action>)
    requires IsOpened(start) && Legal(start, acts)
    requires Run(start, acts).wire == [] && Run(start, acts).out == []
    ensures Run(start, acts).handed == Run(start, acts).accepted <==> !SomeOversize(Run(start, acts).accepted)
    ensures Run(start, acts).open <==> !SomeOversize(Run(start, acts).accepted)
  {
    InvRun(start, acts);
    Delivered(Run(start, acts));
  }

  lemma Delivered(s: Direction)
    requires Inv(s) && s.wire == [] && s.out == []
    ensures s.handed == s.accepted <==> !SomeOversize(s.accepted)
    ensures s.open <==> !SomeOversize(s.accepted)
  {
    if s.open {
      assert s.pending + ([] + []) == s.pending;
      if s.flying != [] {
        assert |Flatten(s.flying)| >= |s.flying[0]|;
        assert s.pending + [] == Flatten(s.flying);
        FirstQueued(s.flying, s.pending, []);
        assert false;
      }
      assert s.handed + [] == s.accepted;
    }
  }

  // ---- Both directions of one connection ----

  // up carries the UDP side's datagrams, down the TCP side's.
  datatype Duplex = Duplex(up: Direction, down: Direction)

  // A step of either direction. Every keepalive frame the TCP side decodes makes it queue an echo.
  datatype DuplexAction = Up(act: Action, echoes: seq<Action>) | Down(act: Action)

  predicate AreEchoes(echoes: seq<Action>) {
    forall i :: 0 <= i < |echoes| ==> echoes[i].Keepalive? && |echoes[i].body| == KEEPALIVE_BODY
  }

  function Arrived(s: Direction, a: Action): seq<seq<byte>>
    requires Enabled(s, a)
  {
    if a.Receive? then Call(s.pending, s.wire[..a.n], MAX_TCP_PAYLOAD).frames else []
  }

  lemma {:induction false} EchoesLegal(s: Direction, echoes: seq<Action>)
    requires AreEchoes(echoes)
    ensures Legal(s, echoes)
    decreases |echoes|
  {
    if echoes != [] {
      EchoesLegal(Next(s, echoes[0]), echoes[1..]);
    }
  }

  predicate DuplexEnabled(s: Duplex, a: DuplexAction) {
    match a
    case Up(act, echoes) => Enabled(s.up, act) && AreEchoes(echoes) && |echoes| == Keepalives(Arrived(s.up, act))
    case Down(act) => Enabled(s.down, act)
  }

  function DuplexNext(s: Duplex, a: DuplexAction): Duplex
    requires DuplexEnabled(s, a)
  {
    match a
    case Up(act, echoes) =>
      EchoesLegal(s.down, echoes);
      Duplex(Next(s.up, act), Run(s.down, echoes))
    case Down(act) => s.(down := Next(s.down, act))
  }

  predicate DuplexLegal(s: Duplex, acts: seq<DuplexAction>)
    decreases |acts|
  {
    acts == [] || (DuplexEnabled(s, acts[0]) && DuplexLegal(DuplexNext(s, acts[0]), acts[1..]))
  }

  function DuplexRun(s: Duplex, acts: seq<DuplexAction>): Duplex
    requires DuplexLegal(s, acts)
    decreases |acts|
  {
    if acts == [] then s else DuplexRun(DuplexNext(s, acts[0]), acts[1..])
  }

  lemma {:induction false} InvDuplex(s: Duplex, acts: seq<DuplexAction>)
    requires Inv(s.up) && Inv(s.down) && DuplexLegal(s, acts)
    ensures Inv(DuplexRun(s, acts).up) && Inv(DuplexRun(s, acts).down)
    decreases |acts|
  {
    hide Inv, Next, Enabled;
    if acts != [] {
      match acts[0] {
        case Up(act, echoes) =>
          EchoesLegal(s.down, echoes);
          InvNext(s.up, act);
          InvRun(s.down, echoes);
        case Down(act) =>
          InvNext(s.down, act);
      }
      InvDuplex(DuplexNext(s, acts[0]), acts[1..]);
    }
  }

  // Echoed keepalives and both flows of datagrams share one connection without disturbing each other.
  lemma {:induction false} DuplexIsPrefix(start: Duplex, acts: seq<DuplexAction>)
    requires IsOpened(start.up) && IsOpened(start.down) && DuplexLegal(start, acts)
    ensures var s := DuplexRun(start, acts);
            s.up.handed <= s.up.accepted && s.down.handed <= s.down.accepted
  {
    InvDuplex(start, acts);
  }

  // And each direction delivers everything once its bytes are consumed, whatever the other is doing.
  lemma {:induction false} DuplexDeliversAll(start: Duplex, acts: seq<DuplexAction>)
    requires IsOpened(start.up) && IsOpened(start.down) && DuplexLegal(start, acts)
    ensures var up := DuplexRun(start, acts).up;
            up.wire == [] && up.out == [] ==> (up.handed == up.accepted <==> !SomeOversize(up.accepted))
    ensures var down := DuplexRun(start, acts).down;
            down.wire == [] && down.out == [] ==> (down.handed == down.accepted <==> !SomeOversize(down.accepted))
  {
    InvDuplex(start, acts);
    hide Inv, SomeOversize;
    var s := DuplexRun(start, acts);
    if s.up.wire == [] && s.up.out == [] {
      Delivered(s.up);
    }
    if s.down.wire == [] && s.down.out == [] {
      Delivered(s.down);
    }
  }

  // ---- What a decoder context may carry into a new connection ----

  // Every stream of acceptable frames comes out as it was sent, although the decoder starts with r.
  ghost predicate ReadsAll(r: seq<byte>, max: nat) {
    forall fs: seq<seq<byte>> ::
      AllQueued(fs) && (forall i :: 0 <= i < |fs| ==> |fs[i]| <= max) ==> Parse(r + Flatten(fs), max).frames == fs
  }

  lemma CleanReadsAll(fs: seq<seq<byte>>, max: nat)
    requires AllQueued(fs) && forall i :: 0 <= i < |fs| ==> |fs[i]| <= max
    ensures Parse([] + Flatten(fs), max) == Parsed(fs, [], RET_OK)
  {
    assert Flatten(fs) + [] == Flatten(fs) == [] + Flatten(fs);
    ParseComplete(fs, [], max);
  }

  // The frame that betrays any unfinished one: no part of it begins with a part of itself.
  lemma Unshifted(r: seq<byte>, rest: seq<byte>, max: nat)
    requires IsPartial(r, max) && r != []
    ensures [0, 4, 1, 1] + rest != r + [0, 4, 1, 1]
  {
    var f: seq<byte> := [0, 4, 1, 1];
    var s, t := f + rest, r + f;
    if |r| >= 4 {
      assert t[0] == r[0] && t[1] == r[1] && s[0] == 0 && s[1] == 4;
    } else {
      assert t[|r|] == 0 && s[|r|] == f[|r|];
    }
  }

  lemma LeftoverShows(r: seq<byte>, max: nat)
    requires IsPartial(r, max) && r != []
    ensures Parse(r + [0, 4, 1, 1], max).frames != [[0, 4, 1, 1]]
  {
    var f: seq<byte> := [0, 4, 1, 1];
    var p := Parse(r + f, max);
    ParseSound(r + f, max);
    SingleFrame(f);
    Unshifted(r, p.rest, max);
  }

  // The UDP side keeps its context when it reconnects. Of all the unfinished frames that may be in it
  // only the empty one does not show.
  lemma SurvivesReconnect(r: seq<byte>, max: nat)
    requires IsPartial(r, max) && max >= HEAD_SIZE
    ensures ReadsAll(r, max) <==> r == []
  {
    if r == [] {
      forall fs: seq<seq<byte>> | AllQueued(fs) && (forall i :: 0 <= i < |fs| ==> |fs[i]| <= max)
        ensures Parse(r + Flatten(fs), max).frames == fs
      {
        CleanReadsAll(fs, max);
      }
    } else {
      var f: seq<byte> := [0, 4, 1, 1];
      SingleFrame(f);
      LeftoverShows(r, max);
      assert IsQueued(f) && AllQueued([f]) && |[f][0]| <= max;
    }
  }

  // ---- Why a send must take the whole buffer ----

  // do_send takes m bytes of the buffer, and service_send_cb resets it all the same.
  function ShortSend(s: Direction, m: nat): Direction
    requires m <= |s.out|
  {
    s.(wire := s.wire + s.out[..m], out := [])
  }

  // The frames of one stream determine those of any stream it begins with.
  lemma {:induction false} PrefixCode(gs: seq<seq<byte>>, fs: seq<seq<byte>>, t: seq<byte>)
    requires AllQueued(gs) && AllQueued(fs) && Flatten(gs) + t == Flatten(fs)
    ensures gs <= fs && t == Flatten(fs[|gs|..])
    decreases |gs|
  {
    if gs == [] {
      assert Flatten(gs) + t == t && fs[0..] == fs;
    } else {
      var s, g := Flatten(gs), gs[0];
      assert Flatten(gs[1..]) == s[|g|..] && s[0] == g[0] && s[1] == g[1];
      FirstQueued(fs, s, t);
      assert g == s[..|g|];
      PrefixCode(gs[1..], fs[1..], t);
      assert [g] + gs[1..] == gs && [fs[0]] + fs[1..] == fs && fs[1..][|gs| - 1..] == fs[|gs|..];
    }
  }

  // The receiver's unfinished frame and the bytes under way are whole frames: the next frame that is
  // queued will be read as one.
  ghost predicate InStep(s: Direction) {
    exists gs: seq<seq<byte>> :: AllQueued(gs) && s.pending + (s.wire + s.out) == Flatten(gs)
  }

  // The send of m bytes ends after the k-th frame in flight.
  ghost predicate EndsFrame(s: Direction, m: nat, k: int) {
    0 <= k <= |s.flying| && |Flatten(s.flying[..k])| == |s.pending| + |s.wire| + m
  }

  lemma CutHere(s: Direction, m: nat, k: int)
    requires Inv(s) && s.open && m <= |s.out| && EndsFrame(s, m, k)
    ensures s.pending + (s.wire + s.out[..m]) == Flatten(s.flying[..k])
  {
    var fs := s.flying;
    assert fs[..k] + fs[k..] == fs;
    FlattenAppend(fs[..k], fs[k..]);
    var n := |s.pending| + |s.wire| + m;
    assert s.pending + (s.wire + s.out[..m]) == (s.pending + (s.wire + s.out))[..n];
    assert Flatten(fs[..k]) == Flatten(fs)[..n];
  }

  // Exactly the short sends that end between two frames leave the receiver in step.
  lemma ShortSendLaw(s: Direction, m: nat)
    requires Inv(s) && s.open && m <= |s.out|
    ensures InStep(ShortSend(s, m)) <==> exists k :: EndsFrame(s, m, k)
  {
    var sent := s.pending + (s.wire + s.out[..m]);
    assert (s.wire + s.out[..m]) + [] == s.wire + s.out[..m];
    if k :| EndsFrame(s, m, k) {
      CutHere(s, m, k);
      assert AllQueued(s.flying[..k]);
    }
    if gs: seq<seq<byte>> :| AllQueued(gs) && sent == Flatten(gs) {
      assert sent + s.out[m..] == s.pending + (s.wire + s.out);
      PrefixCode(gs, s.flying, s.out[m..]);
      assert gs == s.flying[..|gs|] && EndsFrame(s, m, |gs|);
    }
  }

  // What such a send costs: the frames it drops, and nothing else. The rest of the run is that of a
  // direction that never accepted their datagrams.
  lemma ShortSendLoses(s: Direction, m: nat, k: int)
    requires Inv(s) && s.open && m <= |s.out| && EndsFrame(s, m, k)
    ensures var kept := s.handed + Datagrams(s.flying[..k]);
            && s.accepted == kept + Datagrams(s.flying[k..])
            && Inv(ShortSend(s, m).(flying := s.flying[..k], accepted := kept))
  {
    hide Flatten, IsPartial, SomeOversize;
    CutHere(s, m, k);
    assert (s.wire + s.out[..m]) + [] == s.wire + s.out[..m];
    assert s.flying[..k] + s.flying[k..] == s.flying;
    DatagramsAppend(s.flying[..k], s.flying[k..]);
    assert s.handed + (Datagrams(s.flying[..k]) + Datagrams(s.flying[k..]))
        == s.handed + Datagrams(s.flying[..k]) + Datagrams(s.flying[k..]);
  }

  lemma TwoSmallFrames()
    ensures FrameOf(TYPE_UDP_OVER_TCP, 0, [1]) == [0, 5, 111, 0, 1]
    ensures FrameOf(TYPE_UDP_OVER_TCP, 0, [2]) == [0, 5, 111, 0, 2]
  {
  }

  lemma BrokenStream()
    ensures Parse([0, 5, 111, 0, 5, 111, 0, 2], MAX_TCP_PAYLOAD) == Parsed([[0, 5, 111, 0, 5]], [111, 0, 2], RET_TOO_LONG)
    ensures Datagrams([[0, 5, 111, 0, 5]]) == [[5]]
  {
    var s := [0, 5, 111, 0, 5, 111, 0, 2];
    assert s[..5] == [0, 5, 111, 0, 5] && s[5..] == [111, 0, 2];
    assert Parse([111, 0, 2], MAX_TCP_PAYLOAD) == Parsed([], [111, 0, 2], RET_TOO_LONG);
    SingleFrame([0, 5, 111, 0, 5]);
    assert [0, 5, 111, 0, 5][HEAD_SIZE..] == [5];
  }

  // The state after the first datagram, a short send of three bytes, the second datagram and a full send.
  function BrokenRun(): Direction {
    var a, b := Accept([1], 0), Accept([2], 0);
    Next(Next(ShortSend(Next(OPENED, a), 3), b), Send)
  }

  // Out of step: three bytes of the first frame, then the second frame. The receiver hands on a datagram nobody sent.
  lemma ShortSendBreaksFraming()
    ensures Enabled(BrokenRun(), Receive(8))
    ensures Next(BrokenRun(), Receive(8)).handed == [[5]] && BrokenRun().accepted == [[1], [2]]
  {
    hide FrameOf, Parse, Datagrams;
    TwoSmallFrames();
    BrokenStream();
    var s := BrokenRun();
    assert s.wire == [0, 5, 111, 0, 5, 111, 0, 2];
    assert [] + s.wire[..8] == s.wire;
    assert s.accepted == [[1], [2]];
  }
}
