/**
 The idle routine of the UDP side (service_idle_cb of uot_udp_service.c) as a timed state machine,
 with the exact conditions under which it never drops a live connection and always drops a dead one.
 */
module Keepalive {

  const RECONNECT_INTERVAL: nat := 5
  const SEND_INTERVAL: nat := 3
  const TIMEOUT: nat := 15
  const UINT64_LIMIT: nat := 0x1_0000_0000_0000_0000

  // The time fields are uint64_t and so is their difference.
  type uint64 = t: nat | t < UINT64_LIMIT

  function Elapsed(now: uint64, since: uint64): (d: uint64)
    ensures since <= now ==> d == now - since
    ensures since > now ==> since + d == now + UINT64_LIMIT
  {
    if since <= now then now - since else now + UINT64_LIMIT - since
  }

  // connected: tcp_conn is not NULL.
  datatype Channel = Channel(connected: bool, lastReconnect: uint64, keepaliveTs: uint64, lastSend: uint64)

  datatype Outcome = Quiet | Reconnected | SentKeepalive | Closed

  function Connect(c: Channel, now: uint64): Channel {
    c.(connected := true, keepaliveTs := now, lastReconnect := now)
  }

  // What an idle call does, and the channel it leaves.
  function Idle(c: Channel, now: uint64): (Channel, Outcome) {
    if !c.connected then
      if Elapsed(now, c.lastReconnect) > RECONNECT_INTERVAL then (Connect(c, now), Reconnected) else (c, Quiet)
    else if Elapsed(now, c.lastSend) > SEND_INTERVAL then (c.(lastSend := now), SentKeepalive)
    else if Elapsed(now, c.keepaliveTs) > TIMEOUT then (c.(connected := false), Closed)
    else (c, Quiet)
  }

  /** The channel fields the idle and receive callbacks update. */
  class Service {
    var connected: bool
    var lastReconnect: uint64
    var keepaliveTs: uint64
    var lastSend: uint64

    ghost function State(): Channel
      reads this
    {
      Channel(connected, lastReconnect, keepaliveTs, lastSend)
    }

    // init_cb zeroes the channel; listen_cb connects.
    constructor (now: uint64)
      ensures State() == Connect(Channel(false, 0, 0, 0), now)
    {
      connected, lastReconnect, keepaliveTs, lastSend := true, now, now, 0;
    }

    method TryTcpConnect(now: uint64)
      modifies this
      ensures State() == Connect(old(State()), now)
    {
      connected := true;
      keepaliveTs := now;
      lastReconnect := now;
    }

    // handle_keepalive and the end of handle_tcp.
    method Refresh(now: uint64)
      modifies this`keepaliveTs
      ensures State() == old(State()).(keepaliveTs := now)
    {
      keepaliveTs := now;
    }

    method ServiceIdle(now: uint64) returns (outcome: Outcome)
      modifies this
      ensures (State(), outcome) == Idle(old(State()), now)
      ensures !old(connected) ==>
                && (connected <==> Elapsed(now, old(lastReconnect)) > 5)
                && (connected ==> keepaliveTs == lastReconnect == now && outcome == Reconnected)
                && lastSend == old(lastSend)
      ensures old(connected) && Elapsed(now, old(lastSend)) > 3 ==> connected && lastSend == now && outcome == SentKeepalive
      ensures old(connected) && Elapsed(now, old(lastSend)) <= 3 ==>
                && lastSend == old(lastSend) && (connected <==> Elapsed(now, old(keepaliveTs)) <= 15)
      ensures old(connected) || !connected ==> keepaliveTs == old(keepaliveTs) && lastReconnect == old(lastReconnect)
    {
      if !connected {
        if Elapsed(now, lastReconnect) > RECONNECT_INTERVAL {
          TryTcpConnect(now);
          return Reconnected;
        }
        return Quiet;
      }
      if Elapsed(now, lastSend) > SEND_INTERVAL {
        lastSend := now;
        return SentKeepalive;
      }
      if Elapsed(now, keepaliveTs) > TIMEOUT {
        connected := false;
        return Closed;
      }
      return Quiet;
    }
  }

  // ---- Runs of an established connection ----

  datatype Event = IdleAt(t: uint64) | RefreshAt(t: uint64)

  // chan together with the history a run's assumptions speak about: the latest event, the latest
  // idle call, and the times at which keepalives were sent, after the time of the connection.
  datatype Watch = Watch(chan: Channel, now: uint64, lastIdle: uint64, sends: seq<uint64>)

  function Start(t0: uint64, lastSend: uint64): Watch {
    Watch(Connect(Channel(false, 0, 0, lastSend), t0), t0, t0, [t0])
  }

  // Time does not run backwards, idle calls come at most g seconds apart, and no idle call finds a
  // keepalive sent d or more seconds before it that was not followed by any received data.
  predicate Admissible(w: Watch, e: Event, g: nat, d: nat) {
    && w.now <= e.t
    && (e.IdleAt? ==>
          && e.t <= w.lastIdle + g
          && forall i :: 0 <= i < |w.sends| && w.sends[i] + d <= e.t ==> w.chan.keepaliveTs >= w.sends[i])
  }

  function Step(w: Watch, e: Event): Watch {
    match e
    case RefreshAt(t) => w.(chan := w.chan.(keepaliveTs := t), now := t)
    case IdleAt(t) =>
      var (c, outcome) := Idle(w.chan, t);
      Watch(c, t, t, if outcome == SentKeepalive then w.sends + [t] else w.sends)
  }

  function Run(w: Watch, events: seq<Event>): Watch
    decreases |events|
  {
    if events == [] then w else Run(Step(w, events[0]), events[1..])
  }

  predicate AllAdmissible(w: Watch, events: seq<Event>, g: nat, d: nat)
    decreases |events|
  {
    events == [] ||
    (Admissible(w, events[0], g, d) && AllAdmissible(Step(w, events[0]), events[1..], g, d))
  }

  // The idle routine closes the connection at some point of the run.
  predicate Closes(w: Watch, events: seq<Event>)
    decreases |events|
  {
    events != [] &&
    ((events[0].IdleAt? && Idle(w.chan, events[0].t).1 == Closed) || Closes(Step(w, events[0]), events[1..]))
  }

  // The condition on the idle gap g and the reply delay d.
  predicate Safe(g: nat, d: nat) {
    g == 0 || d == 0 || g + d <= TIMEOUT - SEND_INTERVAL + 1
  }

  // ---- No false timeout ----

  predicate Live(w: Watch, g: nat) {
    && w.chan.connected && |w.sends| > 0
    && w.chan.lastSend <= w.sends[|w.sends| - 1] <= w.lastIdle <= w.now
    && w.lastIdle <= w.sends[|w.sends| - 1] + SEND_INTERVAL
    && w.sends[0] <= w.chan.keepaliveTs <= w.now
    && (|w.sends| > 1 ==> w.chan.lastSend == w.sends[|w.sends| - 1])
    && (forall i :: 0 <= i < |w.sends| ==> w.sends[i] <= w.lastIdle)
    && (forall i :: 0 <= i < |w.sends| - 1 ==> w.sends[i] <= w.sends[i + 1] <= w.sends[i] + SEND_INTERVAL + g)
    && (g == 0 ==> w.lastIdle == w.sends[0])
  }

  // The newest answered send is recent: either it is the last one, or its successor is not yet due.
  lemma AnsweredRecently(w: Watch, t: uint64, g: nat, d: nat, k: nat)
    requires Live(w, g) && Admissible(w, IdleAt(t), g, d) && k < |w.sends|
    requires t <= w.sends[|w.sends| - 1] + SEND_INTERVAL
    requires w.chan.keepaliveTs >= w.sends[k]
    ensures t - w.chan.keepaliveTs <= SEND_INTERVAL || (d > 0 && t - w.chan.keepaliveTs <= d - 1 + SEND_INTERVAL + g)
    decreases |w.sends| - k
  {
    if k + 1 < |w.sends| && w.sends[k + 1] + d <= t {
      AnsweredRecently(w, t, g, d, k + 1);
    }
  }

  lemma LiveSend(w: Watch, t: uint64, g: nat, d: nat)
    requires Live(w, g) && Admissible(w, IdleAt(t), g, d) && Elapsed(t, w.chan.lastSend) > SEND_INTERVAL
    ensures Live(Step(w, IdleAt(t)), g)
  {
    var v := Step(w, IdleAt(t));
    assert v.sends == w.sends + [t];
    assert v.sends[|v.sends| - 1] == t && v.sends[0] == w.sends[0];
  }

  lemma LiveQuiet(w: Watch, t: uint64, g: nat, d: nat)
    requires Live(w, g) && Admissible(w, IdleAt(t), g, d) && Safe(g, d)
    requires Elapsed(t, w.chan.lastSend) <= SEND_INTERVAL
    ensures Live(Step(w, IdleAt(t)), g) && Idle(w.chan, t).1 != Closed
  {
    AnsweredRecently(w, t, g, d, 0);
  }

  lemma LiveStep(w: Watch, e: Event, g: nat, d: nat)
    requires Live(w, g) && Admissible(w, e, g, d) && Safe(g, d)
    ensures Live(Step(w, e), g) && (e.IdleAt? ==> Idle(w.chan, e.t).1 != Closed)
  {
    if e.IdleAt? {
      if Elapsed(e.t, w.chan.lastSend) > SEND_INTERVAL {
        LiveSend(w, e.t, g, d);
      } else {
        LiveQuiet(w, e.t, g, d);
      }
    }
  }

  lemma {:induction false} LiveRun(w: Watch, events: seq<Event>, g: nat, d: nat)
    requires Live(w, g) && AllAdmissible(w, events, g, d) && Safe(g, d)
    ensures !Closes(w, events) && Run(w, events).chan.connected
    decreases |events|
  {
    if events != [] {
      LiveStep(w, events[0], g, d);
      LiveRun(Step(w, events[0]), events[1..], g, d);
    }
  }

  // ---- The condition is exact: otherwise a run exists that drops a live connection ----

  // Idle calls every second up to TIMEOUT + 1, and a second call in that last second.
  function Ticks(from: nat): seq<Event>
    requires from <= TIMEOUT + 1
    decreases TIMEOUT + 1 - from
  {
    if from <= TIMEOUT then [IdleAt(from + 1)] + Ticks(from + 1) else [IdleAt(from)]
  }

  // Every send so far is either answered or not due before the run ends.
  predicate NothingDue(w: Watch, d: nat) {
    w.now == w.lastIdle && forall i :: 0 <= i < |w.sends| ==> w.sends[i] <= w.chan.keepaliveTs || w.sends[i] + d > TIMEOUT + 1
  }

  predicate Unanswered(w: Watch) {
    w.chan.connected && w.chan.keepaliveTs == 0 && w.chan.lastSend <= w.lastIdle == w.now
  }

  lemma NothingDueStep(w: Watch, t: uint64, g: nat, d: nat)
    requires NothingDue(w, d) && w.lastIdle <= t <= TIMEOUT + 1 && t <= w.lastIdle + g && w.chan.keepaliveTs <= t
    requires forall i :: 0 <= i < |w.sends| ==> w.sends[i] <= t
    requires w.chan.lastSend <= t && (t + d > TIMEOUT + 1 || t <= w.chan.lastSend + SEND_INTERVAL)
    ensures Admissible(w, IdleAt(t), g, d)
    ensures var v := Step(w, IdleAt(t));
            && (w.chan.connected ==> NothingDue(v, d)) && v.chan.keepaliveTs <= t
            && forall i :: 0 <= i < |v.sends| ==> v.sends[i] <= t
  {
  }

  lemma {:induction false} TicksClose(w: Watch, g: nat, d: nat)
    requires Unanswered(w) && NothingDue(w, d) && g >= 1 && w.lastIdle <= TIMEOUT + 1 && w.lastIdle + d > TIMEOUT + 1
    requires forall i :: 0 <= i < |w.sends| ==> w.sends[i] <= w.lastIdle
    requires w.lastIdle == TIMEOUT + 1 ==> w.chan.lastSend == w.lastIdle
    ensures exists events :: AllAdmissible(w, events, g, d) && Closes(w, events)
    decreases TIMEOUT + 1 - w.lastIdle
  {
    var t := if w.lastIdle <= TIMEOUT then w.lastIdle + 1 else w.lastIdle;
    NothingDueStep(w, t, g, d);
    var v := Step(w, IdleAt(t));
    if Idle(w.chan, t).1 == Closed {
      OneEvent(w, IdleAt(t), [], g, d);
    } else {
      TicksClose(v, g, d);
      var later :| AllAdmissible(v, later, g, d) && Closes(v, later);
      OneEvent(w, IdleAt(t), later, g, d);
    }
  }

  lemma OneEvent(w: Watch, e: Event, later: seq<Event>, g: nat, d: nat)
    requires Admissible(w, e, g, d) && AllAdmissible(Step(w, e), later, g, d)
    requires (e.IdleAt? && Idle(w.chan, e.t).1 == Closed) || Closes(Step(w, e), later)
    ensures AllAdmissible(w, [e] + later, g, d) && Closes(w, [e] + later)
  {
    assert ([e] + later)[1..] == later;
  }

  lemma UnsafeCloses(g: nat, d: nat)
    requires !Safe(g, d)
    ensures exists events :: AllAdmissible(Start(0, 0), events, g, d) && Closes(Start(0, 0), events)
  {
    var w0 := Start(0, 0);
    var w1, w2 := Step(w0, IdleAt(1)), Step(Step(w0, IdleAt(1)), IdleAt(2));
    var w3 := Step(w2, IdleAt(3));
    var first: uint64 := if g <= TIMEOUT - 2 then SEND_INTERVAL + g else TIMEOUT + 1;
    var w := Step(w3, IdleAt(first));
    assert w == Watch(Channel(true, 0, 0, first), first, first, [0, first]);
    TicksClose(w, g, d);
    var later :| AllAdmissible(w, later, g, d) && Closes(w, later);
    OneEvent(w3, IdleAt(first), later, g, d);
    OneEvent(w2, IdleAt(3), [IdleAt(first)] + later, g, d);
    OneEvent(w1, IdleAt(2), [IdleAt(3)] + ([IdleAt(first)] + later), g, d);
    OneEvent(w0, IdleAt(1), [IdleAt(2)] + ([IdleAt(3)] + ([IdleAt(first)] + later)), g, d);
  }

  ghost predicate NeverCloses(g: nat, d: nat) {
    forall t0: uint64, lastSend: uint64, events: seq<Event> ::
      lastSend <= t0 && AllAdmissible(Start(t0, lastSend), events, g, d) ==> !Closes(Start(t0, lastSend), events)
  }

  // A connection whose peer answers is never timed out, exactly under the stated condition.
  lemma NoFalseTimeout(g: nat, d: nat)
    ensures NeverCloses(g, d) <==> Safe(g, d)
  {
    if Safe(g, d) {
      forall t0: uint64, lastSend: uint64, events: seq<Event> |
        lastSend <= t0 && AllAdmissible(Start(t0, lastSend), events, g, d)
        ensures !Closes(Start(t0, lastSend), events)
      {
        LiveRun(Start(t0, lastSend), events, g, d);
      }
    } else {
      UnsafeCloses(g, d);
    }
  }

  // ---- Bounded failure detection ----

  // Idle calls at the times ts, none more than g seconds after the one before.
  predicate IdleTimes(last: uint64, ts: seq<uint64>, g: nat)
    decreases |ts|
  {
    ts == [] || (last <= ts[0] <= last + g && IdleTimes(ts[0], ts[1..], g))
  }

  // Some idle call of ts, not later than the bound, closes the connection.
  predicate ClosesBy(c: Channel, ts: seq<uint64>, bound: nat)
    decreases |ts|
  {
    ts != [] && ts[0] <= bound && (Idle(c, ts[0]).1 == Closed || ClosesBy(Idle(c, ts[0]).0, ts[1..], bound))
  }

  lemma {:induction false} DetectsFailure(c: Channel, last: uint64, ts: seq<uint64>, g: nat)
    requires c.connected && 1 <= g <= SEND_INTERVAL && IdleTimes(last, ts, g)
    requires c.lastSend <= last <= c.keepaliveTs + TIMEOUT
    requires ts != [] && c.keepaliveTs <= ts[0] && ts[|ts| - 1] >= c.keepaliveTs + TIMEOUT + 2 * g
    ensures ClosesBy(c, ts, c.keepaliveTs + TIMEOUT + 2 * g)
    decreases |ts|
  {
    var t, k := ts[0], c.keepaliveTs;
    var next := Idle(c, t).0;
    if t <= k + TIMEOUT {
      assert ts[1..][|ts[1..]| - 1] == ts[|ts| - 1];
      DetectsFailure(next, t, ts[1..], g);
    } else if Idle(c, t).1 != Closed {
      var u := ts[1];
      assert IdleTimes(t, ts[1..], g) && ts[1..][0] == u;
      assert Idle(next, u).1 == Closed;
    }
  }

  // n idle calls every `step` seconds.
  function Every(step: nat, from: nat, n: nat): (ts: seq<uint64>)
    requires from + step * n < UINT64_LIMIT
    ensures |ts| == n && (n > 0 ==> ts[n - 1] == from + step * n)
    decreases n
  {
    if n == 0 then []
    else
      assert step * n == step + step * (n - 1);
      [from + step] + Every(step, from + step, n - 1)
  }

  // At four seconds or more between idle calls each of them sends and none looks at the timeout,
  // so however long the peer has been silent the connection stays.
  lemma {:induction false} SlowIdleNeverDetects(c: Channel, from: uint64, step: nat, n: nat, g: nat, bound: nat)
    requires c.connected && SEND_INTERVAL < step <= g && c.lastSend <= from && from + step * n < UINT64_LIMIT
    ensures IdleTimes(from, Every(step, from, n), g) && !ClosesBy(c, Every(step, from, n), bound)
    decreases n
  {
    if n > 0 {
      assert step * n == step + step * (n - 1);
      var ts := Every(step, from, n);
      assert ts[1..] == Every(step, from + step, n - 1);
      SlowIdleNeverDetects(Idle(c, from + step).0, from + step, step, n - 1, g, bound);
    }
  }

  ghost predicate AlwaysDetects(g: nat) {
    forall c: Channel, last: uint64, ts: seq<uint64> ::
      && c.connected && IdleTimes(last, ts, g) && c.lastSend <= last <= c.keepaliveTs + TIMEOUT
      && ts != [] && c.keepaliveTs <= ts[0] && ts[|ts| - 1] >= c.keepaliveTs + TIMEOUT + 2 * g
      ==> ClosesBy(c, ts, c.keepaliveTs + TIMEOUT + 2 * g)
  }

  lemma DetectsUpTo3(g: nat)
    requires 1 <= g <= SEND_INTERVAL
    ensures AlwaysDetects(g)
  {
    hide ClosesBy, IdleTimes;
    forall c: Channel, last: uint64, ts: seq<uint64> |
      && c.connected && IdleTimes(last, ts, g) && c.lastSend <= last <= c.keepaliveTs + TIMEOUT
      && ts != [] && c.keepaliveTs <= ts[0] && ts[|ts| - 1] >= c.keepaliveTs + TIMEOUT + 2 * g
      ensures ClosesBy(c, ts, c.keepaliveTs + TIMEOUT + 2 * g)
    {
      DetectsFailure(c, last, ts, g);
    }
  }

  lemma MissesBeyond3(g: nat)
    requires g > SEND_INTERVAL && 2 * g + 20 < UINT64_LIMIT
    ensures !AlwaysDetects(g)
  {
    var c := Channel(true, 0, 0, 0);
    var n := (TIMEOUT + 2 * g) / 4 + 1;
    SlowIdleNeverDetects(c, 0, 4, n, g, TIMEOUT + 2 * g);
    var ts := Every(4, 0, n);
    assert IdleTimes(0, ts, g) && ts[|ts| - 1] >= TIMEOUT + 2 * g;
  }

  lemma MissesAtZero()
    ensures !AlwaysDetects(0)
  {
    var c := Channel(true, 0, 0, 14);
    assert IdleTimes(15, [15], 0) && !ClosesBy(c, [15], TIMEOUT);
  }

  // A silent peer is noticed within TIMEOUT + 2g seconds exactly when g is from 1 to 3. At g = 0 the
  // bound is the fifteenth second itself, and that is not yet a timeout.
  lemma DetectionIsExact(g: nat)
    requires 2 * g + 20 < UINT64_LIMIT
    ensures AlwaysDetects(g) <==> 1 <= g <= SEND_INTERVAL
  {
    hide AlwaysDetects;
    if g == 0 {
      MissesAtZero();
    } else if g <= SEND_INTERVAL {
      DetectsUpTo3(g);
    } else {
      MissesBeyond3(g);
    }
  }

  // ---- Reconnection ----

  // Of the idle calls at the times ts the k-th is the first to do anything, and it reconnects.
  predicate ReconnectsAt(c: Channel, ts: seq<uint64>, k: nat)
    decreases k
  {
    k < |ts| &&
    if k == 0 then Idle(c, ts[0]).1 == Reconnected
    else Idle(c, ts[0]) == (c, Quiet) && ReconnectsAt(c, ts[1..], k - 1)
  }

  // A lost connection is retried at the first idle call more than five seconds after the last attempt.
  lemma {:induction false} ReconnectsExactly(c: Channel, last: uint64, ts: seq<uint64>, g: nat, k: nat)
    requires !c.connected && c.lastReconnect <= last && IdleTimes(last, ts, g) && k < |ts|
    ensures ReconnectsAt(c, ts, k) <==> ts[k] > c.lastReconnect + 5 && forall i :: 0 <= i < k ==> ts[i] <= c.lastReconnect + 5
    decreases k
  {
    if k > 0 {
      ReconnectsExactly(c, ts[0], ts[1..], g, k - 1);
      assert ts[1..][k - 1] == ts[k] && forall i :: 0 < i < k ==> ts[i] == ts[1..][i - 1];
      if ReconnectsAt(c, ts[1..], k - 1) {
        assert forall i :: 0 <= i < k - 1 ==> ts[1..][i] == ts[i + 1];
      }
    }
  }

  // With idle calls at most g seconds apart that is no later than g seconds after those five, or after
  // the last idle call with a connection if the five were over by then.
  lemma {:induction false} ReconnectsSoon(c: Channel, last: uint64, ts: seq<uint64>, g: nat) returns (k: nat)
    requires !c.connected && c.lastReconnect <= last && IdleTimes(last, ts, g)
    requires ts != [] && ts[|ts| - 1] > c.lastReconnect + 5
    ensures ReconnectsAt(c, ts, k)
    ensures ts[k] >= c.lastReconnect + 6
    ensures ts[k] <= (if last <= c.lastReconnect + 5 then c.lastReconnect + 5 else last) + g
    decreases |ts|
  {
    if ts[0] > c.lastReconnect + 5 {
      k := 0;
    } else {
      assert ts[1..] != [] && ts[1..][|ts| - 2] == ts[|ts| - 1];
      var j := ReconnectsSoon(c, ts[0], ts[1..], g);
      k := j + 1;
    }
  }
}
