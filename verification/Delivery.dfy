/** From acknowledged reports to kept addresses: the protocol's delivery guarantee put to use. */
module Delivery {
  import opened Types
  import opened Framing
  import opened Leases
  import opened LeaseTheorems
  import opened Admission
  import opened AckProtocol
  import opened NodeApp
  import opened Tdma
  import opened Network

  // ---- Runs in pieces ----

  lemma {:induction false} PieceOfRun(n: Net, acts: seq<Action>, p: nat, q: nat)
    requires Runs(n, acts) && p <= q <= |acts|
    ensures Runs(n, acts[..p]) && Runs(n, acts[..q]) && Runs(Reached(n, acts[..p]), acts[p..q])
    ensures Reached(Reached(n, acts[..p]), acts[p..q]) == Reached(n, acts[..q])
    decreases |acts|, q
  {
    hide Enabled, Next;
    if q < |acts| {
      var front := acts[..|acts| - 1];
      PieceOfRun(n, front, p, q);
      assert front[..p] == acts[..p] && front[..q] == acts[..q] && front[p..q] == acts[p..q];
    } else if p < q {
      var front := acts[..q - 1];
      PieceOfRun(n, acts, p, q - 1);
      assert acts[..q] == acts && acts[p..q][..q - p - 1] == acts[p..q - 1];
    } else {
      assert acts[..p] == acts && acts[p..q] == [];
    }
  }

  lemma {:induction false} AcceptanceHasStep(m: Net, acts: seq<Action>, b: MacAddress, f: Frame) returns (x: nat)
    requires Runs(m, acts) && AcceptedSince(m, Reached(m, acts), b, f)
    ensures x < |acts| && acts[x] == Receive(b, f)
    decreases |acts|
  {
    hide DataFrame, IsAckFrame;
    var front, act := acts[..|acts| - 1], acts[|acts| - 1];
    if act == Receive(b, f) {
      x := |acts| - 1;
    } else {
      var before, after := Reached(m, front), Reached(m, acts);
      var i :| |m.accepted| <= i < |after.accepted| && after.accepted[i] == (b, f);
      assert i < |before.accepted| && before.accepted[i] == (b, f);
      x := AcceptanceHasStep(m, front, b, f);
    }
  }

  /** A run of the protocol from power-up, with the sink's clock at each step. */
  datatype TimedRun = TimedRun(listeners: set<MacAddress>, acts: seq<Action>, times: seq<nat>) {
    predicate Valid() {
      && Runs(Silence(listeners), acts) && |times| == |acts|
      && forall p, q :: 0 <= p <= q < |acts| ==> times[p] <= times[q]
    }

    ghost function At(p: nat): Net
      requires Valid() && p <= |acts|
    {
      PieceOfRun(Silence(listeners), acts, p, p);
      Reached(Silence(listeners), acts[..p])
    }
  }

  /** The send from `a` to `b` that begins at step `p`, while all is quiet between them, succeeds at step `q`. */
  ghost predicate SucceedsAt(run: TimedRun, p: nat, q: nat, a: MacAddress, b: MacAddress, body: Body)
    requires run.Valid() && body.Fits()
  {
    && p < q < |run.acts| && run.acts[p] == Begin(a, b, body) && EndsInSuccess(run.acts[p + 1..q + 1], a)
    && QuietBetween(run.At(p), a, b, DataFrame(b, a, body))
  }

  lemma OneStep(n: Net, acts: seq<Action>, p: nat)
    requires Runs(n, acts) && p < |acts|
    ensures Runs(n, acts[..p]) && Enabled(Reached(n, acts[..p]), acts[p])
    ensures Runs(n, acts[..p + 1]) && Reached(n, acts[..p + 1]) == Next(Reached(n, acts[..p]), acts[p])
  {
    hide Enabled, Next;
    PieceOfRun(n, acts, p, p + 1);
    assert acts[..p + 1][..p] == acts[..p] && acts[..p + 1][p] == acts[p];
  }

  lemma SuccessIsAcceptance(n: Net, a: MacAddress, b: MacAddress, body: Body, rest: seq<Action>)
    requires Honest(n) && Enabled(n, Begin(a, b, body)) && Station(b) && a != b
    requires QuietBetween(n, a, b, DataFrame(b, a, body))
    requires Runs(Next(n, Begin(a, b, body)), rest) && EndsInSuccess(rest, a)
    ensures var start := Next(n, Begin(a, b, body));
            AcceptedSince(start, Reached(start, rest), b, DataFrame(b, a, body))
  {
    hide DataFrame, Honest, QuietBetween, Station;
    DeliveredIffQuiet(n, a, b, body);
    BeginAcceptsNothing(n, a, b, body);
  }

  lemma SuccessIsReception(run: TimedRun, p: nat, q: nat, a: MacAddress, b: MacAddress, body: Body) returns (x: nat)
    requires run.Valid() && body.Fits() && SucceedsAt(run, p, q, a, b, body) && Station(b) && a != b
    ensures p < x <= q && run.acts[x] == Receive(b, DataFrame(b, a, body))
  {
    hide DataFrame, Honest, QuietBetween, Enabled, Next, Station;
    var silence, acts := Silence(run.listeners), run.acts;
    OneStep(silence, acts, p);
    PieceOfRun(silence, acts, p + 1, q + 1);
    SilenceIsHonest(run.listeners);
    RunsStayHonest(silence, acts[..p]);
    SuccessIsAcceptance(run.At(p), a, b, body, acts[p + 1..q + 1]);
    var y := AcceptanceHasStep(Next(run.At(p), acts[p]), acts[p + 1..q + 1], b, DataFrame(b, a, body));
    x := p + 1 + y;
  }

  lemma BeginAcceptsNothing(n: Net, a: MacAddress, b: MacAddress, body: Body)
    requires Enabled(n, Begin(a, b, body))
    ensures Next(n, Begin(a, b, body)).accepted == n.accepted
  {
  }

  // ---- Acknowledged reports keep the address ----

  /** Operation `k` of the sink is what the frame accepted at step `x` amounts to, handled within `lag`. */
  ghost predicate HandledBy(ops: seq<Op>, k: nat, run: TimedRun, x: nat, prefix: seq<Byte>, lag: nat)
    requires run.Valid() && k < |ops| && x < |run.acts| && run.acts[x].Receive?
  {
    && |prefix| == MAC_INFO_OFFSET && run.times[x] <= ops[k].time <= run.times[x] + lag
    && SinkOp(Delivered(prefix, run.acts[x].f), run.acts[x].b, ops[k].time) == Some(ops[k])
  }

  /** The sink turns every frame it accepts for itself into its operation. */
  ghost predicate AllHandled(ops: seq<Op>, run: TimedRun, sink: MacAddress, lag: nat)
    requires run.Valid()
  {
    forall x :: 0 <= x < |run.acts| && run.acts[x].Receive? && run.acts[x].b == sink && DstIn(run.acts[x].f) == sink ==>
      exists k: nat, prefix: seq<Byte> :: k < |ops| && HandledBy(ops, k, run, x, prefix, lag)
  }

  function ReportBody(x: Reporter): Body {
    Packet(AddressOf(x.i), SINK_IP, REPORT_TEXT)
  }

  /** Report `m` was acknowledged, in its time and with nothing left over between node and sink when it began. */
  ghost predicate AcknowledgedQuietly(run: TimedRun, x: Reporter, m: nat)
    requires run.Valid() && m < |x.rs|
  {
    exists p: nat, q: nat :: SucceedsAt(run, p, q, x.node, x.sink, ReportBody(x)) && SentDuring(run, p, q, x, m)
  }

  predicate SentDuring(run: TimedRun, p: nat, q: nat, x: Reporter, m: nat)
    requires run.Valid() && m < |x.rs| && p < q < |run.acts|
  {
    x.rs[m].start - x.error <= run.times[p] && run.times[q] <= x.rs[m].end - x.error
  }

  /** What the node's frame looks like where the sink hears it. */
  lemma ReportOnTheAir(x: Reporter, prefix: seq<Byte>)
    requires Station(x.sink) && |x.offer| == |prefix| == MAC_INFO_OFFSET
    ensures Delivered(prefix, DataFrame(x.sink, x.node, ReportBody(x)))
         == NodeMessage(prefix, JoinedNode(x.offer, x.sink, x.node, x.i), x.sink, x.node, REPORT_TEXT)
  {
    hide Delivered, IpPayload, MacFrame, JoinedNode;
    JoinedNodeState(x.offer, x.sink, x.node, x.i);
  }

  lemma AcknowledgedMeansArrived(ops: seq<Op>, c: nat, run: TimedRun, x: Reporter, m: nat) returns (k: nat)
    requires x.Plausible() && run.Valid() && Legal(ops) && c < |ops| && m < |x.rs| && x.node != x.sink
    requires AllHandled(ops, run, x.sink, x.lag) && AcknowledgedQuietly(run, x, m) && ops[c].time < x.Due(0)
    ensures c < k < |ops| && Arrives(ops, k, x, m)
  {
    hide DataFrame, QuietBetween, SinkOp, NodeMessage, JoinedNode, Delivered, ReportRun, Prompt;
    var p: nat, q: nat :| SucceedsAt(run, p, q, x.node, x.sink, ReportBody(x)) && SentDuring(run, p, q, x, m);
    var y := SuccessIsReception(run, p, q, x.node, x.sink, ReportBody(x));
    BuiltFrame(x.sink, x.node, ReportBody(x));
    var found: nat, prefix: seq<Byte> :| found < |ops| && HandledBy(ops, found, run, y, prefix, x.lag);
    k := found;
    ReportOnTheAir(x, prefix);
    assert run.times[p] <= run.times[y] <= run.times[q];
    assert Arrives(ops, k, x, m);
    ArrivalIsTimely(ops, k, x, m);
    assert x.Due(0) <= x.Due(m);
  }

  /** A node whose reports are acknowledged while nothing is left over between it and the sink keeps its
      address for the whole run, and nobody else is issued it: success then means reception, reception
      means the sink records it, and the recordings are never an epoch apart. */
  lemma AcknowledgedReportsKeepAddress(ops: seq<Op>, c: nat, n: nat, run: TimedRun, x: Reporter)
    requires x.Plausible() && run.Valid() && Legal(ops) && Scheduled(ops) && c < n <= |ops| && x.node != x.sink
    requires Records(At(ops, c), ops[c], x.i) && At(ops, c + 1).table[x.i] == x.node
    requires ops[c].time < x.Due(0) && x.Deadline(0) <= ops[c].time + APP_EPOCH_UNTIL_CLEAN
    requires Jitter(x.l, x.Slot()) + Burst(x.l) + x.lag <= APP_EPOCH_UNTIL_CLEAN - APP_DEFAULT_PERIOD_IN_MS
    requires ops[n - 1].time <= x.Deadline(|x.rs|) && AllHandled(ops, run, x.sink, x.lag)
    requires forall m :: 0 <= m < |x.rs| && x.Deadline(m) < ops[n - 1].time ==> AcknowledgedQuietly(run, x, m)
    ensures forall k :: c < k <= n ==> At(ops, k).table[x.i] == x.node
    ensures forall k :: c < k < n && ops[k].Request? ==> FirstFree(At(ops, k).table) != x.i
  {
    assert |x.offer| == MAC_INFO_OFFSET;
    hide Arrives, AcknowledgedQuietly, AllHandled, Records, FirstFree, At, Legal, Scheduled, Reporter.Plausible;
    forall m | 0 <= m < |x.rs| && x.Deadline(m) < ops[n - 1].time
      ensures exists k :: c < k < |ops| && Arrives(ops, k, x, m)
    {
      var k := AcknowledgedMeansArrived(ops, c, run, x, m);
    }
    ReportingNodeKeepsAddress(ops, c, n, x);
  }
}
