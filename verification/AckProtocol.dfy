/** Stop-and-wait delivery (mac.c) between any number of stations over a channel that may lose,
    duplicate, delay and reorder frames but never invents one. */
module AckProtocol {
  import opened Types
  import opened Framing
  import opened Mac

  function DstIn(f: Frame): MacAddress { f[0..6] }

  function SrcIn(f: Frame): MacAddress { f[6..12] }

  function PayloadIn(f: Frame): seq<Byte> { f[12..] }

  function DataFrame(dst: MacAddress, src: MacAddress, body: Body): Frame
    requires body.Fits()
  {
    MacFrame(dst, src, body.Bytes())
  }

  function AckFrame(dst: MacAddress, src: MacAddress): Frame {
    DataFrame(dst, src, Ack)
  }

  predicate IsAckFrame(f: Frame) { IsAck(PayloadIn(f)) }

  /** What a receiver parses behind any radio prefix is what the frame says. */
  lemma ReceiverSeesFrame(prefix: seq<Byte>, f: Frame)
    requires |prefix| == MAC_INFO_OFFSET
    ensures var b := Delivered(prefix, f);
            DstOf(b) == DstIn(f) && SrcOf(b) == SrcIn(f) && (IsAck(DataOf(b)) <==> IsAckFrame(f))
  {
    var b := Delivered(prefix, f);
    assert DataOf(b) == PayloadIn(f) + Zeros(292);
    assert b[8..14] == f[0..6] && b[14..20] == f[6..12];
    SameStringIsPrefix(DataOf(b), ACK_STRING);
    SameStringIsPrefix(PayloadIn(f), ACK_STRING);
    assert DataOf(b)[..4] == PayloadIn(f)[..4];
  }

  /** The guards of this protocol are the tests the MAC layer makes on its receive buffer. */
  lemma GuardsAreReceiverTests(prefix: seq<Byte>, f: Frame, me: MacAddress, expected: MacAddress, takesBroadcast: bool)
    requires |prefix| == MAC_INFO_OFFSET
    ensures var b := Delivered(prefix, f);
            && (Wanted(b, me, takesBroadcast) <==> DstIn(f) == me || (takesBroadcast && DstIn(f) == BROADCAST_MAC))
            && (Matches(b, me, expected) <==>
                DstIn(f) == me && IsAckFrame(f) && (expected == BROADCAST_MAC || SrcIn(f) == expected))
  {
    ReceiverSeesFrame(prefix, f);
  }

  lemma BuiltFrame(dst: MacAddress, src: MacAddress, body: Body)
    requires body.Fits()
    ensures var f := DataFrame(dst, src, body);
            DstIn(f) == dst && SrcIn(f) == src && (IsAckFrame(f) <==> body.Ack?)
  {
    var f := DataFrame(dst, src, body);
    KindsAreExclusive(Zeros(8), dst, src, body);
    MacRoundTrip(Zeros(8), dst, src, body.Bytes());
    ReceiverSeesFrame(Zeros(8), f);
  }

  /** A station inside `MAC_send_data`: its frame and how often it was transmitted so far. */
  datatype Sending = Sending(frame: Frame, times: nat)

  /** A station inside `MAC_send_ack`: whom it acknowledges and how many copies it sent so far. */
  datatype Debt = Debt(to: MacAddress, copies: nat)

  /** The stations that take broadcasts; the frames still travelling or waiting in a socket; what each
      busy station is doing; every transmission so far, every frame a station accepted in
      `MAC_recv_data` so far, and every send reported as successful: sender and intended receiver. */
  datatype Net = Net(listeners: set<MacAddress>, air: set<Frame>,
                     pending: map<MacAddress, Sending>, owed: map<MacAddress, Debt>, transmitted: set<Frame>,
                     accepted: seq<(MacAddress, Frame)>, succeeded: seq<(MacAddress, MacAddress)>)

  datatype Action =
    | Begin(a: MacAddress, dst: MacAddress, body: Body)
    | Transmit(a: MacAddress)
    | Acknowledged(a: MacAddress, f: Frame)
    | GiveUp(a: MacAddress)
    | Receive(b: MacAddress, f: Frame)
    | SendAckCopy(b: MacAddress)
    | Done(b: MacAddress)
    | Lose(f: Frame)

  function Silence(listeners: set<MacAddress>): Net {
    Net(listeners, {}, map[], map[], {}, [], [])
  }

  predicate Takes(n: Net, b: MacAddress, f: Frame) {
    DstIn(f) == b || (b in n.listeners && DstIn(f) == BROADCAST_MAC)
  }

  /** A station that is inside `MAC_send_data` or `MAC_send_ack` neither starts another send nor accepts a
      frame. A send listens after each of its first nine transmissions and gives up after the tenth; an
      ack is sent once, and up to ten times more while the radio reports errors. */
  predicate Enabled(n: Net, act: Action) {
    match act
    case Begin(a, dst, body) => Station(a) && a !in n.pending && a !in n.owed && body.Fits() && !body.Ack?
    case Transmit(a) => a in n.pending && n.pending[a].times < MAC_MAX_RETRIES
    case Acknowledged(a, f) =>
      && a in n.pending && n.pending[a].times < MAC_MAX_RETRIES && f in n.air && DstIn(f) == a && IsAckFrame(f)
      && (DstIn(n.pending[a].frame) == BROADCAST_MAC || SrcIn(f) == DstIn(n.pending[a].frame))
    case GiveUp(a) => a in n.pending && n.pending[a].times == MAC_MAX_RETRIES
    case Receive(b, f) => Station(b) && b !in n.pending && b !in n.owed && f in n.air && Takes(n, b, f)
    case SendAckCopy(b) => b in n.owed && n.owed[b].copies <= MAC_MAX_RETRIES
    case Done(b) => b in n.owed && n.owed[b].copies > 0
    case Lose(f) => f in n.air
  }

  /** A send transmits before it first listens. Receiving leaves the frame in the air, which is how the
      channel duplicates and delays; between a reception and its ack anything else may happen. */
  function Next(n: Net, act: Action): Net
    requires Enabled(n, act)
  {
    match act
    case Begin(a, dst, body) =>
      var f := DataFrame(dst, a, body);
      n.(pending := n.pending[a := Sending(f, 1)], air := n.air + {f}, transmitted := n.transmitted + {f})
    case Transmit(a) =>
      var f := n.pending[a].frame;
      n.(pending := n.pending[a := Sending(f, n.pending[a].times + 1)], air := n.air + {f},
         transmitted := n.transmitted + {f})
    case Acknowledged(a, f) =>
      n.(pending := n.pending - {a}, succeeded := n.succeeded + [(a, DstIn(n.pending[a].frame))])
    case GiveUp(a) => n.(pending := n.pending - {a})
    case Receive(b, f) => n.(owed := n.owed[b := Debt(SrcIn(f), 0)], accepted := n.accepted + [(b, f)])
    case SendAckCopy(b) =>
      var ack := AckFrame(n.owed[b].to, b);
      n.(owed := n.owed[b := Debt(n.owed[b].to, n.owed[b].copies + 1)], air := n.air + {ack},
         transmitted := n.transmitted + {ack})
    case Done(b) => n.(owed := n.owed - {b})
    case Lose(f) => n.(air := n.air - {f})
  }

  predicate Runs(n: Net, acts: seq<Action>)
    decreases |acts|, 0
  {
    |acts| == 0 || (Runs(n, acts[..|acts| - 1]) && Enabled(Reached(n, acts[..|acts| - 1]), acts[|acts| - 1]))
  }

  function Reached(n: Net, acts: seq<Action>): Net
    requires Runs(n, acts)
    decreases |acts|, 1
  {
    if |acts| == 0 then n else Next(Reached(n, acts[..|acts| - 1]), acts[|acts| - 1])
  }

  // ---- An acknowledged unicast was preceded by an acceptance ----

  /** Station `b` accepted a frame that `a` had transmitted. */
  predicate HeardFrom(n: Net, b: MacAddress, a: MacAddress) {
    exists i :: 0 <= i < |n.accepted| && n.accepted[i].0 == b && SrcIn(n.accepted[i].1) == a
        && n.accepted[i].1 in n.transmitted
  }

  predicate SomeoneHeard(n: Net, a: MacAddress) {
    exists i :: 0 <= i < |n.accepted| && SrcIn(n.accepted[i].1) == a && n.accepted[i].1 in n.transmitted
  }

  predicate AckedFor(n: Net, f: Frame) {
    IsAckFrame(f) ==> HeardFrom(n, SrcIn(f), DstIn(f))
  }

  predicate Justified(n: Net, a: MacAddress, dst: MacAddress) {
    if dst == BROADCAST_MAC then SomeoneHeard(n, a) else HeardFrom(n, dst, a)
  }

  predicate Honest(n: Net) {
    && n.air <= n.transmitted
    && (forall f :: f in n.air ==> AckedFor(n, f))
    && (forall a :: a in n.pending ==> a !in n.owed && Sane(n.pending[a], a))
    && (forall b :: b in n.owed ==> HeardFrom(n, b, n.owed[b].to))
    && (forall i :: 0 <= i < |n.succeeded| ==> Justified(n, n.succeeded[i].0, n.succeeded[i].1))
  }

  predicate Sane(p: Sending, a: MacAddress) {
    SrcIn(p.frame) == a && !IsAckFrame(p.frame) && p.times <= MAC_MAX_RETRIES
  }

  lemma HeardGrows(n: Net, n': Net, b: MacAddress, a: MacAddress)
    requires n.accepted <= n'.accepted && n.transmitted <= n'.transmitted
    ensures HeardFrom(n, b, a) ==> HeardFrom(n', b, a)
    ensures SomeoneHeard(n, a) ==> SomeoneHeard(n', a)
  {
  }

  lemma StepGrows(n: Net, act: Action)
    requires Enabled(n, act)
    ensures n.accepted <= Next(n, act).accepted && n.transmitted <= Next(n, act).transmitted
  {
  }

  lemma OldFactsRemain(n: Net, act: Action)
    requires Honest(n) && Enabled(n, act)
    ensures forall f :: f in n.air ==> AckedFor(Next(n, act), f)
    ensures forall b :: b in n.owed ==> HeardFrom(Next(n, act), b, n.owed[b].to)
    ensures forall i :: 0 <= i < |n.succeeded| ==> Justified(Next(n, act), n.succeeded[i].0, n.succeeded[i].1)
  {
    var n' := Next(n, act);
    StepGrows(n, act);
    forall f | f in n.air
      ensures AckedFor(n', f)
    {
      HeardGrows(n, n', SrcIn(f), DstIn(f));
    }
    forall b | b in n.owed
      ensures HeardFrom(n', b, n.owed[b].to)
    {
      HeardGrows(n, n', b, n.owed[b].to);
    }
    forall i | 0 <= i < |n.succeeded|
      ensures Justified(n', n.succeeded[i].0, n.succeeded[i].1)
    {
      HeardGrows(n, n', n.succeeded[i].1, n.succeeded[i].0);
    }
  }

  /** Every step keeps debts tied to acceptances, acks tied to debts and successes tied to acks. */
  lemma StepKeepsHonest(n: Net, act: Action)
    requires Honest(n) && Enabled(n, act)
    ensures Honest(Next(n, act))
  {
    hide IsAckFrame, DataFrame, HeardFrom, SomeoneHeard;
    var n' := Next(n, act);
    OldFactsRemain(n, act);
    match act
    case Begin(a, dst, body) => BuiltFrame(dst, a, body);
    case Transmit(a) =>
    case Acknowledged(a, f) => AckJustifies(n, a, f);
    case GiveUp(a) =>
    case Receive(b, f) => ReceptionIsHeard(n, b, f);
    case SendAckCopy(b) => BuiltFrame(n.owed[b].to, b, Ack);
    case Done(b) =>
    case Lose(f) =>
  }

  lemma ReceptionIsHeard(n: Net, b: MacAddress, f: Frame)
    requires Honest(n) && Enabled(n, Receive(b, f))
    ensures HeardFrom(Next(n, Receive(b, f)), b, SrcIn(f))
  {
    assert Next(n, Receive(b, f)).accepted[|n.accepted|] == (b, f);
  }

  lemma AckJustifies(n: Net, a: MacAddress, f: Frame)
    requires Honest(n) && Enabled(n, Acknowledged(a, f))
    ensures Justified(Next(n, Acknowledged(a, f)), a, DstIn(n.pending[a].frame))
  {
    assert AckedFor(n, f);
  }

  lemma {:induction false} RunsStayHonest(n: Net, acts: seq<Action>)
    requires Honest(n) && Runs(n, acts)
    ensures Honest(Reached(n, acts))
    decreases |acts|
  {
    if |acts| > 0 {
      RunsStayHonest(n, acts[..|acts| - 1]);
      StepKeepsHonest(Reached(n, acts[..|acts| - 1]), acts[|acts| - 1]);
    }
  }

  /** In every run from silence, a send to a unicast address that reports success means that this very
      station accepted at least one frame this sender transmitted; a broadcast, that some station did. */
  lemma AckCausality(listeners: set<MacAddress>, acts: seq<Action>, i: nat)
    requires Runs(Silence(listeners), acts) && i < |Reached(Silence(listeners), acts).succeeded|
    ensures var n := Reached(Silence(listeners), acts);
            var (a, dst) := n.succeeded[i];
            if dst == BROADCAST_MAC then SomeoneHeard(n, a) else HeardFrom(n, dst, a)
  {
    RunsStayHonest(Silence(listeners), acts);
    var n := Reached(Silence(listeners), acts);
    assert Justified(n, n.succeeded[i].0, n.succeeded[i].1);
  }

  // ---- When an acknowledgement means delivery ----

  predicate Finishes(act: Action, a: MacAddress) {
    (act.Acknowledged? && act.a == a) || (act.GiveUp? && act.a == a)
  }

  /** The send `a` is in at the start of `acts` reports success with the last of them. */
  predicate EndsInSuccess(acts: seq<Action>, a: MacAddress) {
    && |acts| > 0 && acts[|acts| - 1].Acknowledged? && acts[|acts| - 1].a == a
    && forall i :: 0 <= i < |acts| - 1 ==> !Finishes(acts[i], a)
  }

  predicate AcceptedSince(n: Net, n': Net, b: MacAddress, f: Frame) {
    exists i :: |n.accepted| <= i < |n'.accepted| && n'.accepted[i] == (b, f)
  }

  /** However the channel and all other stations behave, if this send reports success then `b` accepted this very
      frame since it began. */
  ghost predicate SuccessMeansDelivered(n: Net, a: MacAddress, b: MacAddress, body: Body)
    requires Enabled(n, Begin(a, b, body))
  {
    var start := Next(n, Begin(a, b, body));
    forall acts: seq<Action> :: Runs(start, acts) && EndsInSuccess(acts, a) ==>
          AcceptedSince(n, Reached(start, acts), b, DataFrame(b, a, body))
  }

  /** `f` could be mistaken for this exchange: it is an ack from `b` to `a`, or another frame from `a` that `b`
      would accept. */
  predicate Stale(n: Net, f: Frame, a: MacAddress, b: MacAddress, current: Frame) {
    || (IsAckFrame(f) && SrcIn(f) == b && DstIn(f) == a)
    || (f != current && SrcIn(f) == a && Takes(n, b, f))
  }

  /** `b` is still acknowledging an earlier frame to `a`. */
  predicate StillOwes(n: Net, a: MacAddress, b: MacAddress) {
    b in n.owed && n.owed[b].to == a && n.owed[b].copies <= MAC_MAX_RETRIES
  }

  predicate QuietBetween(n: Net, a: MacAddress, b: MacAddress, current: Frame) {
    !StillOwes(n, a, b) && forall f :: f in n.air ==> !Stale(n, f, a, b, current)
  }

  predicate Waiting(n: Net, m: Net, a: MacAddress, b: MacAddress, f: Frame) {
    && Honest(m) && a in m.pending && m.pending[a].frame == f && n.accepted <= m.accepted
    && (AcceptedSince(n, m, b, f) || QuietBetween(m, a, b, f))
  }

  lemma StepKeepsQuiet(n: Net, act: Action, a: MacAddress, b: MacAddress, f: Frame)
    requires Honest(n) && a in n.pending && n.pending[a].frame == f && QuietBetween(n, a, b, f)
    requires Enabled(n, act) && !Finishes(act, a) && a != b && act != Receive(b, f)
    ensures QuietBetween(Next(n, act), a, b, f)
  {
    hide IsAckFrame, DataFrame, Justified, AckedFor;
    match act
    case Begin(c, dst, body) =>
      BuiltFrame(dst, c, body);
    case SendAckCopy(c) =>
      BuiltFrame(n.owed[c].to, c, Ack);
    case Receive(c, g) =>
      assert c == b && SrcIn(g) == a ==> Stale(n, g, a, b, f);
    case Transmit(_) =>
    case Acknowledged(_, _) =>
    case GiveUp(_) =>
    case Done(_) =>
    case Lose(_) =>
  }

  lemma StepKeepsWaiting(n: Net, m: Net, act: Action, a: MacAddress, b: MacAddress, f: Frame)
    requires Waiting(n, m, a, b, f) && Enabled(m, act) && !Finishes(act, a) && a != b
    ensures Waiting(n, Next(m, act), a, b, f)
  {
    hide IsAckFrame, DataFrame, QuietBetween, Honest;
    var m' := Next(m, act);
    StepKeepsHonest(m, act);
    if AcceptedSince(n, m, b, f) {
      var i :| |n.accepted| <= i < |m.accepted| && m.accepted[i] == (b, f);
      assert m'.accepted[i] == (b, f);
    } else if act == Receive(b, f) {
      assert m'.accepted[|m.accepted|] == (b, f);
    } else {
      StepKeepsQuiet(m, act, a, b, f);
    }
  }

  lemma {:induction false} StaysWaiting(n: Net, start: Net, acts: seq<Action>, a: MacAddress, b: MacAddress, f: Frame)
    requires Waiting(n, start, a, b, f) && Runs(start, acts) && a != b
    requires forall i :: 0 <= i < |acts| ==> !Finishes(acts[i], a)
    ensures Waiting(n, Reached(start, acts), a, b, f)
    decreases |acts|
  {
    if |acts| > 0 {
      var front, act := acts[..|acts| - 1], acts[|acts| - 1];
      StaysWaiting(n, start, front, a, b, f);
      assert !Finishes(act, a);
      StepKeepsWaiting(n, Reached(start, front), act, a, b, f);
    }
  }

  lemma QuietStart(n: Net, a: MacAddress, b: MacAddress, body: Body)
    requires Honest(n) && Enabled(n, Begin(a, b, body)) && a != b
    requires QuietBetween(n, a, b, DataFrame(b, a, body))
    ensures Waiting(n, Next(n, Begin(a, b, body)), a, b, DataFrame(b, a, body))
  {
    BuiltFrame(b, a, body);
    StepKeepsHonest(n, Begin(a, b, body));
  }

  lemma QuietMeansDelivered(n: Net, a: MacAddress, b: MacAddress, body: Body)
    requires Honest(n) && Enabled(n, Begin(a, b, body)) && Station(b) && a != b
    requires QuietBetween(n, a, b, DataFrame(b, a, body))
    ensures SuccessMeansDelivered(n, a, b, body)
  {
    hide IsAckFrame, DataFrame, Honest;
    var f, start := DataFrame(b, a, body), Next(n, Begin(a, b, body));
    BuiltFrame(b, a, body);
    QuietStart(n, a, b, body);
    forall acts: seq<Action> | Runs(start, acts) && EndsInSuccess(acts, a)
      ensures AcceptedSince(n, Reached(start, acts), b, f)
    {
      var front := acts[..|acts| - 1];
      StaysWaiting(n, start, front, a, b, f);
      var m := Reached(start, front);
      assert Stale(m, acts[|acts| - 1].f, a, b, f);
      var i :| |n.accepted| <= i < |m.accepted| && m.accepted[i] == (b, f);
      assert Reached(start, acts).accepted[i] == (b, f);
    }
  }

  lemma RunsAppend(n: Net, acts: seq<Action>, act: Action)
    requires Runs(n, acts) && Enabled(Reached(n, acts), act)
    ensures Runs(n, acts + [act]) && Reached(n, acts + [act]) == Next(Reached(n, acts), act)
  {
    assert (acts + [act])[..|acts|] == acts;
  }

  /** `acts` leads from `start` to the success of the send `a` is in, although `b` accepted nothing but `heard`
      meanwhile. */
  predicate Misleads(start: Net, acts: seq<Action>, a: MacAddress, heard: seq<(MacAddress, Frame)>) {
    Runs(start, acts) && EndsInSuccess(acts, a) && Reached(start, acts).accepted == start.accepted + heard
  }

  /** A left-over ack is taken for the answer at once. */
  lemma StaleAckMisleads(n: Net, a: MacAddress, b: MacAddress, body: Body, ack: Frame)
    requires Enabled(n, Begin(a, b, body)) && Station(b)
    requires ack in n.air && IsAckFrame(ack) && SrcIn(ack) == b && DstIn(ack) == a
    ensures Misleads(Next(n, Begin(a, b, body)), [Acknowledged(a, ack)], a, [])
  {
    hide IsAckFrame, DataFrame;
    BuiltFrame(b, a, body);
    RunsAppend(Next(n, Begin(a, b, body)), [], Acknowledged(a, ack));
    assert [] + [Acknowledged(a, ack)] == [Acknowledged(a, ack)];
  }

  /** An ack that `b` has yet to send answers a send that begins meanwhile, even if nothing at all was travelling. */
  lemma OwedAckMisleads(n: Net, a: MacAddress, b: MacAddress, body: Body)
    requires Enabled(n, Begin(a, b, body)) && Station(b) && a != b && StillOwes(n, a, b)
    ensures Misleads(Next(n, Begin(a, b, body)), [SendAckCopy(b), Acknowledged(a, AckFrame(a, b))], a, [])
  {
    hide IsAckFrame, DataFrame;
    var start := Next(n, Begin(a, b, body));
    BuiltFrame(b, a, body);
    RunsAppend(start, [], SendAckCopy(b));
    assert [] + [SendAckCopy(b)] == [SendAckCopy(b)];
    AckArrives(start, [SendAckCopy(b)], a, b);
    assert [SendAckCopy(b)] + [Acknowledged(a, AckFrame(a, b))] == [SendAckCopy(b), Acknowledged(a, AckFrame(a, b))];
    assert Reached(start, [SendAckCopy(b)]).accepted[|start.accepted|..] == [];
  }

  /** Once the receiver's ack is in the air, it ends the exchange. */
  lemma AckArrives(start: Net, acts: seq<Action>, a: MacAddress, b: MacAddress)
    requires Runs(start, acts) && forall i :: 0 <= i < |acts| ==> !Finishes(acts[i], a)
    requires var m := Reached(start, acts);
             && a in m.pending && m.pending[a].times < MAC_MAX_RETRIES && DstIn(m.pending[a].frame) == b
             && AckFrame(a, b) in m.air && start.accepted <= m.accepted
    ensures Misleads(start, acts + [Acknowledged(a, AckFrame(a, b))], a,
                     Reached(start, acts).accepted[|start.accepted|..])
  {
    BuiltFrame(a, b, Ack);
    RunsAppend(start, acts, Acknowledged(a, AckFrame(a, b)));
  }

  /** `m` differs from `start` at most in what `b` is doing and in what is travelling besides. */
  predicate Undisturbed(start: Net, m: Net, a: MacAddress, b: MacAddress) {
    && m.listeners == start.listeners && start.air <= m.air && m.accepted == start.accepted
    && a in start.pending && a in m.pending && m.pending[a] == start.pending[a]
  }

  /** A run to `m` in which `a` stays in its send. */
  ghost predicate Leads(start: Net, acts: seq<Action>, m: Net, a: MacAddress, b: MacAddress) {
    && Runs(start, acts) && Reached(start, acts) == m && Undisturbed(start, m, a, b)
    && forall i :: 0 <= i < |acts| ==> !Finishes(acts[i], a)
  }

  lemma LeadsOn(start: Net, acts: seq<Action>, m: Net, act: Action, a: MacAddress, b: MacAddress)
    requires Leads(start, acts, m, a, b) && a != b
    requires Enabled(m, act) && (act == Transmit(b) || act == GiveUp(b) || act == SendAckCopy(b) || act == Done(b))
    ensures Leads(start, acts + [act], Next(m, act), a, b)
  {
    RunsAppend(start, acts, act);
  }

  /** A busy receiver can always finish what it is doing without hearing anything. */
  lemma {:induction false} FreeStation(start: Net, acts: seq<Action>, m: Net, a: MacAddress, b: MacAddress)
    returns (acts': seq<Action>, m': Net)
    requires Leads(start, acts, m, a, b) && Honest(m) && a != b
    ensures Leads(start, acts', m', a, b) && b !in m'.pending && b !in m'.owed
    decreases if b in m.pending then 11 - m.pending[b].times
              else if b in m.owed then if m.owed[b].copies > 0 then 1 else 2
              else 0
  {
    hide Leads, Undisturbed, HeardFrom, AckedFor, Justified, IsAckFrame;
    if b !in m.pending && b !in m.owed {
      return acts, m;
    }
    assert b in m.pending ==> Sane(m.pending[b], b) && b !in m.owed;
    var act :=
      if b in m.pending then if m.pending[b].times < MAC_MAX_RETRIES then Transmit(b) else GiveUp(b)
      else if m.owed[b].copies > 0 then Done(b) else SendAckCopy(b);
    LeadsOn(start, acts, m, act, a, b);
    StepKeepsHonest(m, act);
    acts', m' := FreeStation(start, acts + [act], Next(m, act), a, b);
  }

  /** A left-over frame that `b` still accepts produces an ack that does not mean the current one. */
  lemma StaleDataMisleads(n: Net, a: MacAddress, b: MacAddress, body: Body, g: Frame) returns (acts: seq<Action>)
    requires Honest(n) && Enabled(n, Begin(a, b, body)) && Station(b) && a != b
    requires g in n.air && SrcIn(g) == a && Takes(n, b, g)
    ensures Misleads(Next(n, Begin(a, b, body)), acts, a, [(b, g)])
  {
    hide IsAckFrame, DataFrame, Honest;
    var start := Next(n, Begin(a, b, body));
    BuiltFrame(b, a, body);
    StepKeepsHonest(n, Begin(a, b, body));
    var idle, m := FreeStation(start, [], start, a, b);
    RunsAppend(start, idle, Receive(b, g));
    var heard := idle + [Receive(b, g)];
    RunsAppend(start, heard, SendAckCopy(b));
    var acked := heard + [SendAckCopy(b)];
    AckArrives(start, acked, a, b);
    acts := acked + [Acknowledged(a, AckFrame(a, b))];
  }

  /** A successful unicast send is a delivered one, whatever happens during it, exactly when at its
      start no ack for it and no other frame the receiver would accept from the sender is still
      travelling, and the receiver is not about to acknowledge an earlier frame. */
  lemma DeliveredIffQuiet(n: Net, a: MacAddress, b: MacAddress, body: Body)
    requires Honest(n) && Enabled(n, Begin(a, b, body)) && Station(b) && a != b
    ensures SuccessMeansDelivered(n, a, b, body) <==> QuietBetween(n, a, b, DataFrame(b, a, body))
  {
    hide IsAckFrame, DataFrame, Honest;
    var f := DataFrame(b, a, body);
    if QuietBetween(n, a, b, f) {
      QuietMeansDelivered(n, a, b, body);
    } else if StillOwes(n, a, b) {
      OwedAckMisleads(n, a, b, body);
    } else {
      var g :| g in n.air && Stale(n, g, a, b, f);
      if IsAckFrame(g) && SrcIn(g) == b && DstIn(g) == a {
        StaleAckMisleads(n, a, b, body, g);
      } else {
        var acts := StaleDataMisleads(n, a, b, body, g);
      }
    }
  }

  // ---- An unquiet moment with nothing in the air ----

  /** A send to which no ack comes repeats its frame and gives up, and nothing else changes. */
  lemma {:induction false} RunOutOfRetries(n: Net, acts: seq<Action>, m: Net, a: MacAddress)
    returns (acts': seq<Action>)
    requires Runs(n, acts) && Reached(n, acts) == m
    requires a in m.pending && m.pending[a].times <= MAC_MAX_RETRIES
    requires m.pending[a].frame in m.air && m.pending[a].frame in m.transmitted
    ensures Runs(n, acts') && Reached(n, acts') == m.(pending := m.pending - {a})
    decreases MAC_MAX_RETRIES - m.pending[a].times
  {
    if m.pending[a].times < MAC_MAX_RETRIES {
      var m' := Next(m, Transmit(a));
      RunsAppend(n, acts, Transmit(a));
      assert m'.air == m.air && m'.transmitted == m.transmitted;
      acts' := RunOutOfRetries(n, acts + [Transmit(a)], m', a);
      assert m'.pending - {a} == m.pending - {a};
    } else {
      RunsAppend(n, acts, GiveUp(a));
      acts' := acts + [GiveUp(a)];
    }
  }

  /** `b` takes a frame of `a`, every copy of which is then lost, and is still acknowledging it when `a` has given
      up. */
  lemma OwedAckIsReachable(listeners: set<MacAddress>, a: MacAddress, b: MacAddress, body: Body)
    returns (acts: seq<Action>)
    requires Station(a) && Station(b) && a != b && body.Fits() && !body.Ack?
    ensures Runs(Silence(listeners), acts)
    ensures var n := Reached(Silence(listeners), acts);
            n.air == {} && a !in n.pending && a !in n.owed && StillOwes(n, a, b)
  {
    hide DataFrame, SrcIn, DstIn, IsAckFrame, Station;
    var start, f := Silence(listeners), DataFrame(b, a, body);
    BuiltFrame(b, a, body);
    RunsAppend(start, [], Begin(a, b, body));
    var begun := [] + [Begin(a, b, body)];
    RunsAppend(start, begun, Receive(b, f));
    var taken := begun + [Receive(b, f)];
    var over := RunOutOfRetries(start, taken, Reached(start, taken), a);
    RunsAppend(start, over, Lose(f));
    acts := over + [Lose(f)];
  }

  /** A silent channel is not enough: from power-up the network reaches a state with nothing in the air in
      which a send can report success although its frame is never accepted. */
  lemma SilentAirIsNotEnough(listeners: set<MacAddress>, a: MacAddress, b: MacAddress, body: Body, next: Body)
    returns (acts: seq<Action>)
    requires Station(a) && Station(b) && a != b && body.Fits() && !body.Ack? && next.Fits() && !next.Ack?
    ensures Runs(Silence(listeners), acts) && Reached(Silence(listeners), acts).air == {}
    ensures var n := Reached(Silence(listeners), acts);
            Enabled(n, Begin(a, b, next)) && !SuccessMeansDelivered(n, a, b, next)
  {
    hide DataFrame, Honest;
    acts := OwedAckIsReachable(listeners, a, b, body);
    var n := Reached(Silence(listeners), acts);
    SilenceIsHonest(listeners);
    RunsStayHonest(Silence(listeners), acts);
    DeliveredIffQuiet(n, a, b, next);
  }

  lemma SilenceIsHonest(listeners: set<MacAddress>)
    ensures Honest(Silence(listeners))
  {
  }
}
