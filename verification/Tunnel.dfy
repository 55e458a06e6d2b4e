/**
 Both services and the TCP connection between them, as one object whose every step is a step of the
 two-way transition system in Relay. What that system is proved to keep, the running services keep.
 */
module Tunnel {
  import opened Bytes
  import opened Framing
  import opened Payload16
  import opened Relay
  import opened Endpoint

  // The channel sends what the direction has in its buffer.
  ghost predicate Sends(s: Direction, tx: Channel)
    reads tx, tx.tcpSend, tx.tcpSend.block, tx.udpSend
  {
    tx.BuffersValid() && tx.Out() == s.out
  }

  // The channel has received what the direction has delivered, and its decoder is where the direction is.
  ghost predicate Receives(s: Direction, rx: Channel)
    reads rx, rx.ctx, rx.ctx.buffer, rx.ctx.payload
  {
    && rx.Layout() && s.handed == rx.handed && s.open == !rx.finished
    && (s.open ==> rx.ctx.Valid() && rx.ctx.Pending() == s.pending)
  }

  ghost predicate IsNew(c: Channel)
    reads c.Repr()
  {
    c.Valid() && c.Out() == [] && c.ctx.Pending() == [] && c.handed == [] && !c.finished
  }

  // What the world does to the tunnel. Up is from the UDP side to the TCP side.
  datatype Input =
    | DatagramUp(data: seq<byte>) | DatagramDown(data: seq<byte>) // a UDP socket receives
    | IdlePing(now: nat)                                          // the UDP side's idle routine sends
    | SendUp | SendDown                                           // a TCP socket takes the whole buffer
    | ArriveUp(n: nat, now: nat) | ArriveDown(n: nat, now: nat)   // n of the bytes under way arrive

  // The step of the transition system that an input is.
  predicate Performs(input: Input, a: DuplexAction) {
    match input
    case DatagramUp(d) => a.Up? && a.act.Accept? && a.act.data == d
    case DatagramDown(d) => a.Down? && a.act.Accept? && a.act.data == d
    case IdlePing(_) => a.Up? && a.act.Keepalive?
    case SendUp => a.Up? && a.act.Send?
    case SendDown => a.Down? && a.act.Send?
    case ArriveUp(n, _) => a.Up? && a.act == Receive(n)
    case ArriveDown(n, _) => a.Down? && a.act == Receive(n)
  }

  // The world can do this now: a datagram is not in the gap the guard of handle_udp leaves, and no more
  // bytes arrive than are under way.
  predicate Possible(s: Duplex, input: Input) {
    match input
    case DatagramUp(d) => Enabled(s.up, Accept(d, 0))
    case DatagramDown(d) => Enabled(s.down, Accept(d, 0))
    case ArriveUp(n, _) => Enabled(s.up, Receive(n))
    case ArriveDown(n, _) => Enabled(s.down, Receive(n))
    case _ => true
  }

  // The steps are those of the inputs, in order, but for inputs that could not happen at their turn.
  predicate Follows(s: Duplex, inputs: seq<Input>, acts: seq<DuplexAction>)
    decreases |inputs|
  {
    if inputs == [] then acts == []
    else if !Possible(s, inputs[0]) then Follows(s, inputs[1..], acts)
    else
      && acts != [] && Performs(inputs[0], acts[0]) && DuplexEnabled(s, acts[0])
      && Follows(DuplexNext(s, acts[0]), inputs[1..], acts[1..])
  }

  // A datagram of this length fits the buffer with its head, or not even without it.
  predicate CanQueue(len: nat, buffered: nat) {
    len + HEAD_SIZE < UINT16_LIMIT && (buffered + len + HEAD_SIZE <= SEND_BUFFER || buffered + len > SEND_BUFFER)
  }

  // The datagrams received at the UDP side at a time when the send buffer had room for them.
  function FoundRoomUp(s: Duplex, inputs: seq<Input>, acts: seq<DuplexAction>): seq<seq<byte>>
    requires Follows(s, inputs, acts)
    decreases |inputs|
  {
    if inputs == [] then []
    else if !Possible(s, inputs[0]) then FoundRoomUp(s, inputs[1..], acts)
    else
      (if inputs[0].DatagramUp? && |s.up.out| + HEAD_SIZE + |inputs[0].data| <= SEND_BUFFER then [inputs[0].data] else [])
      + FoundRoomUp(DuplexNext(s, acts[0]), inputs[1..], acts[1..])
  }

  function FoundRoomDown(s: Duplex, inputs: seq<Input>, acts: seq<DuplexAction>): seq<seq<byte>>
    requires Follows(s, inputs, acts)
    decreases |inputs|
  {
    if inputs == [] then []
    else if !Possible(s, inputs[0]) then FoundRoomDown(s, inputs[1..], acts)
    else
      (if inputs[0].DatagramDown? && |s.down.out| + HEAD_SIZE + |inputs[0].data| <= SEND_BUFFER then [inputs[0].data] else [])
      + FoundRoomDown(DuplexNext(s, acts[0]), inputs[1..], acts[1..])
  }

  lemma AcceptedStep(s: Duplex, input: Input, a: DuplexAction)
    requires Performs(input, a) && DuplexEnabled(s, a)
    ensures var t := DuplexNext(s, a);
            && t.up.accepted == s.up.accepted
               + (if input.DatagramUp? && |s.up.out| + HEAD_SIZE + |input.data| <= SEND_BUFFER then [input.data] else [])
            && t.down.accepted == s.down.accepted
               + (if input.DatagramDown? && |s.down.out| + HEAD_SIZE + |input.data| <= SEND_BUFFER then [input.data] else [])
  {
    hide FrameOf, Call;
    if a.Up? {
      EchoesLegal(s.down, a.echoes);
      EchoesKeep(s.down, a.echoes);
    }
  }

  // What the run accepts are the datagrams that find room, and no others.
  lemma {:induction false} AcceptedRun(s: Duplex, inputs: seq<Input>, acts: seq<DuplexAction>)
    requires Follows(s, inputs, acts) && DuplexLegal(s, acts)
    ensures DuplexRun(s, acts).up.accepted == s.up.accepted + FoundRoomUp(s, inputs, acts)
    ensures DuplexRun(s, acts).down.accepted == s.down.accepted + FoundRoomDown(s, inputs, acts)
    decreases |inputs|
  {
    hide DuplexNext, DuplexEnabled, Possible, Performs;
    if inputs != [] {
      if !Possible(s, inputs[0]) {
        AcceptedRun(s, inputs[1..], acts);
      } else {
        AcceptedStep(s, inputs[0], acts[0]);
        AcceptedRun(DuplexNext(s, acts[0]), inputs[1..], acts[1..]);
      }
    }
  }

  class Tunnel {
    const udpSide: Channel
    const tcpSide: Channel
    var upWire: seq<byte> // bytes the network has taken and not yet delivered
    var downWire: seq<byte>
    ghost var state: Duplex

    ghost predicate Layout() {
      udpSide.Repr() !! tcpSide.Repr() && this !in udpSide.Repr() + tcpSide.Repr() && !udpSide.echo && tcpSide.echo
    }

    ghost predicate Valid()
      reads this, udpSide.Repr(), tcpSide.Repr()
    {
      && Layout() && Inv(state.up) && Inv(state.down) && state.up.wire == upWire && state.down.wire == downWire
      && Sends(state.up, udpSide) && Receives(state.up, tcpSide)
      && Sends(state.down, tcpSide) && Receives(state.down, udpSide)
    }

    constructor (udpSide: Channel, tcpSide: Channel)
      requires IsNew(udpSide) && IsNew(tcpSide) && !udpSide.echo && tcpSide.echo && udpSide.Repr() !! tcpSide.Repr()
      ensures Valid() && state == Duplex(OPENED, OPENED) && upWire == downWire == []
      ensures this.udpSide == udpSide && this.tcpSide == tcpSide
    {
      this.udpSide, this.tcpSide := udpSide, tcpSide;
      upWire, downWire, state := [], [], Duplex(OPENED, OPENED);
      new;
      assert Inv(OPENED);
      hide Inv, Context.Valid, Context.Pending;
      assert Sends(OPENED, udpSide) && Sends(OPENED, tcpSide);
      assert Receives(OPENED, udpSide) && Receives(OPENED, tcpSide);
    }

    // try_tcp_connect on one side and the accept callback on the other.
    static method Open(udpText: seq<byte>, tcpText: seq<byte>, now: nat) returns (t: Tunnel)
      requires |udpText| < KEEPALIVE_TEXT && |tcpText| < KEEPALIVE_TEXT
      ensures fresh(t) && fresh(t.udpSide.Repr()) && fresh(t.tcpSide.Repr())
      ensures t.Valid() && t.state == Duplex(OPENED, OPENED)
    {
      hide Tunnel.Valid, Channel.Valid;
      var udpSide := new Channel(false, udpText, now);
      var tcpSide := new Channel(true, tcpText, now);
      t := new Tunnel(udpSide, tcpSide);
    }

    // The UDP side connects again, with the decoder context it has. If nothing is left in that context,
    // the new connection is as good as the first.
    static method Reopen(udpSide: Channel, tcpText: seq<byte>, now: nat) returns (t: Tunnel)
      requires udpSide.BuffersValid() && !udpSide.echo && udpSide.ctx.Valid() && udpSide.ctx.Pending() == []
      requires |tcpText| < KEEPALIVE_TEXT
      modifies udpSide, udpSide.tcpSend
      ensures fresh(t) && t.udpSide == udpSide && fresh(t.tcpSide.Repr())
      ensures t.Valid() && t.state == Duplex(OPENED, OPENED)
    {
      hide Tunnel.Valid;
      udpSide.Reconnect(now);
      var tcpSide := new Channel(true, tcpText, now);
      t := new Tunnel(udpSide, tcpSide);
    }

    method AcceptUp(data: seq<byte>) returns (ghost a: DuplexAction)
      requires Valid() && Enabled(state.up, Accept(data, 0))
      modifies this`state, udpSide.tcpSend`las, udpSide.tcpSend.block
      ensures Valid() && DuplexEnabled(old(state), a) && state == DuplexNext(old(state), a) && Performs(DatagramUp(data), a)
    {
      hide Inv;
      ghost var sub := udpSide.HandleUdp(data);
      a := Up(Accept(data, sub), []);
      InvNext(state.up, a.act);
      state := DuplexNext(state, a);
    }

    method AcceptDown(data: seq<byte>) returns (ghost a: DuplexAction)
      requires Valid() && Enabled(state.down, Accept(data, 0))
      modifies this`state, tcpSide.tcpSend`las, tcpSide.tcpSend.block
      ensures Valid() && DuplexEnabled(old(state), a) && state == DuplexNext(old(state), a) && Performs(DatagramDown(data), a)
    {
      hide Inv;
      ghost var sub := tcpSide.HandleUdp(data);
      a := Down(Accept(data, sub));
      InvNext(state.down, a.act);
      state := DuplexNext(state, a);
    }

    method Ping(now: nat) returns (ghost a: DuplexAction)
      requires Valid()
      modifies this`state, udpSide.tcpSend`las, udpSide.tcpSend.block
      ensures Valid() && DuplexEnabled(old(state), a) && state == DuplexNext(old(state), a) && Performs(IdlePing(now), a)
    {
      hide Inv;
      ghost var act := udpSide.SendKeepaliveFrame(now);
      a := Up(act, []);
      InvNext(state.up, act);
      state := DuplexNext(state, a);
    }

    method PassUp() returns (ghost a: DuplexAction)
      requires Valid()
      modifies this`state, this`upWire, udpSide.tcpSend
      ensures Valid() && DuplexEnabled(old(state), a) && state == DuplexNext(old(state), a) && Performs(Input.SendUp, a)
      ensures upWire == old(upWire) + old(udpSide.Out()) && udpSide.Out() == []
    {
      hide Inv;
      var sent := udpSide.DoSend(udpSide.tcpSend.las - udpSide.tcpSend.pos);
      upWire := upWire + sent;
      a := Up(Send, []);
      InvNext(state.up, Send);
      state := DuplexNext(state, a);
    }

    method PassDown() returns (ghost a: DuplexAction)
      requires Valid()
      modifies this`state, this`downWire, tcpSide.tcpSend
      ensures Valid() && DuplexEnabled(old(state), a) && state == DuplexNext(old(state), a) && Performs(Input.SendDown, a)
      ensures downWire == old(downWire) + old(tcpSide.Out()) && tcpSide.Out() == []
    {
      hide Inv;
      var sent := tcpSide.DoSend(tcpSide.tcpSend.las - tcpSide.tcpSend.pos);
      downWire := downWire + sent;
      a := Down(Send);
      InvNext(state.down, Send);
      state := DuplexNext(state, a);
    }

    method ReceiveUp(n: nat, now: nat) returns (ghost a: DuplexAction)
      requires Valid() && Enabled(state.up, Receive(n))
      modifies this`state, this`upWire, tcpSide.Repr() - {tcpSide.tcpSend}, tcpSide.tcpSend`las
      ensures Valid() && DuplexEnabled(old(state), a) && state == DuplexNext(old(state), a) && Performs(ArriveUp(n, now), a)
      ensures upWire == old(upWire)[n..]
    {
      hide Inv, Call, Parse, NoRunt, Datagrams, Keepalives, AllQueued;
      ReceiveIsSafe(state.up, n);
      ghost var echoes := tcpSide.HandleTcp(upWire[..n], now);
      upWire := upWire[n..];
      a := Up(Receive(n), echoes);
      InvNext(state.up, Receive(n));
      EchoesFollow(state.down, echoes);
      state := DuplexNext(state, a);
    }

    method ReceiveDown(n: nat, now: nat) returns (ghost a: DuplexAction)
      requires Valid() && Enabled(state.down, Receive(n))
      modifies this`state, this`downWire, udpSide.Repr() - {udpSide.tcpSend}, udpSide.tcpSend`las
      ensures Valid() && DuplexEnabled(old(state), a) && state == DuplexNext(old(state), a) && Performs(ArriveDown(n, now), a)
      ensures downWire == old(downWire)[n..]
    {
      hide Inv, Call, Parse, NoRunt, Datagrams, Keepalives, AllQueued;
      ReceiveIsSafe(state.down, n);
      ghost var echoes := udpSide.HandleTcp(downWire[..n], now);
      assert echoes == [];
      downWire := downWire[n..];
      a := Down(Receive(n));
      InvNext(state.down, Receive(n));
      state := DuplexNext(state, a);
    }

    // Whether the world can do this, told from the buffers and the connections.
    method CanHappen(input: Input) returns (possible: bool)
      requires Valid()
      ensures possible == Possible(state, input)
      ensures match input
              case DatagramUp(d) => possible <==> CanQueue(|d|, |udpSide.Out()|)
              case DatagramDown(d) => possible <==> CanQueue(|d|, |tcpSide.Out()|)
              case ArriveUp(n, _) => possible <==> !tcpSide.finished && n <= |upWire|
              case ArriveDown(n, _) => possible <==> !udpSide.finished && n <= |downWire|
              case _ => possible
    {
      hide Inv;
      match input
      case DatagramUp(d) => possible := CanQueue(|d|, udpSide.tcpSend.las - udpSide.tcpSend.pos);
      case DatagramDown(d) => possible := CanQueue(|d|, tcpSide.tcpSend.las - tcpSide.tcpSend.pos);
      case ArriveUp(n, _) => possible := !tcpSide.finished && n <= |upWire|;
      case ArriveDown(n, _) => possible := !udpSide.finished && n <= |downWire|;
      case _ => possible := true;
    }

    method Step(input: Input) returns (ghost a: DuplexAction)
      requires Valid() && Possible(state, input)
      modifies this, udpSide.Repr(), tcpSide.Repr()
      ensures Valid() && DuplexEnabled(old(state), a) && state == DuplexNext(old(state), a) && Performs(input, a)
    {
      hide Valid, DuplexNext, DuplexEnabled;
      match input
      case DatagramUp(d) => a := AcceptUp(d);
      case DatagramDown(d) => a := AcceptDown(d);
      case IdlePing(now) => a := Ping(now);
      case SendUp => a := PassUp();
      case SendDown => a := PassDown();
      case ArriveUp(n, now) => a := ReceiveUp(n, now);
      case ArriveDown(n, now) => a := ReceiveDown(n, now);
    }

    // The event loop. Inputs that cannot happen when their turn comes are passed over.
    method Run(inputs: seq<Input>) returns (ghost acts: seq<DuplexAction>)
      requires Valid()
      modifies this, udpSide.Repr(), tcpSide.Repr()
      ensures Valid() && Follows(old(state), inputs, acts)
      ensures DuplexLegal(old(state), acts) && state == DuplexRun(old(state), acts)
      decreases |inputs|
    {
      hide Valid, DuplexNext, DuplexEnabled, Possible, Performs;
      acts := [];
      if inputs != [] {
        var possible := CanHappen(inputs[0]);
        if possible {
          ghost var a := Step(inputs[0]);
          acts := Run(inputs[1..]);
          acts := [a] + acts;
        } else {
          acts := Run(inputs[1..]);
        }
      }
    }

    // End to end, both ways, at any time after any inputs: each side has handed on a prefix of what the
    // other accepted, and all of it, once no bytes are left, exactly when none was too long.
    static method OpenAndRun(udpText: seq<byte>, tcpText: seq<byte>, now: nat, inputs: seq<Input>)
      returns (t: Tunnel, ghost acts: seq<DuplexAction>)
      requires |udpText| < KEEPALIVE_TEXT && |tcpText| < KEEPALIVE_TEXT
      ensures t.Valid() && Follows(Duplex(OPENED, OPENED), inputs, acts)
      ensures DuplexLegal(Duplex(OPENED, OPENED), acts) && t.state == DuplexRun(Duplex(OPENED, OPENED), acts)
      ensures t.state.up.accepted == FoundRoomUp(Duplex(OPENED, OPENED), inputs, acts)
      ensures t.state.down.accepted == FoundRoomDown(Duplex(OPENED, OPENED), inputs, acts)
      ensures t.tcpSide.handed <= t.state.up.accepted && t.udpSide.handed <= t.state.down.accepted
      ensures t.upWire == [] && t.udpSide.Out() == [] ==>
                (t.tcpSide.handed == t.state.up.accepted <==> !SomeOversize(t.state.up.accepted))
      ensures t.downWire == [] && t.tcpSide.Out() == [] ==>
                (t.udpSide.handed == t.state.down.accepted <==> !SomeOversize(t.state.down.accepted))
    {
      hide Inv, SomeOversize;
      t := Open(udpText, tcpText, now);
      acts := t.Run(inputs);
      DuplexIsPrefix(Duplex(OPENED, OPENED), acts);
      DuplexDeliversAll(Duplex(OPENED, OPENED), acts);
      AcceptedRun(Duplex(OPENED, OPENED), inputs, acts);
    }
  }

  // Queueing echoes in a direction changes its buffer as it would that of an idle one, and otherwise
  // only the record of what is in flight.
  lemma {:induction false} EchoesFollow(s: Direction, echoes: seq<Action>)
    requires Inv(s) && AreEchoes(echoes)
    ensures Legal(s, echoes) && Legal(Sending(s.out), echoes) && Inv(Run(s, echoes))
    ensures var t := Run(s, echoes);
            && t.out == Run(Sending(s.out), echoes).out && t.wire == s.wire
            && t.pending == s.pending && t.open == s.open && t.handed == s.handed
    decreases |echoes|
  {
    EchoesSameOut(s, Sending(s.out), echoes);
    InvRun(s, echoes);
    EchoesKeep(s, echoes);
  }
}
