/** The calls stations make to the MAC layer, interleaved: whatever `MAC_send_data` and `MAC_recv_data`
    put into the radio logs of any number of stations is a run of the acknowledgement protocol. */
module MacRuns {
  import opened Types
  import opened Framing
  import opened Board
  import opened Mac
  import opened AckProtocol

  /** A call in progress, with what the radio did for it so far. */
  datatype Call = Sender(dst: MacAddress, body: Body, log: seq<RadioEvent>) | Receiver(log: seq<RadioEvent>) {
    function And(e: RadioEvent): Call {
      this.(log := log + [e])
    }
  }

  /** Broadcast-taking stations, calls in progress, frames ever sent, frames taken by a reception, and
      sends that returned success. */
  datatype World = World(listeners: set<MacAddress>, calls: map<MacAddress, Call>, sent: set<Frame>,
                         accepted: seq<(MacAddress, Buffer)>, succeeded: seq<(MacAddress, MacAddress)>)

  datatype Event =
    | StartSend(s: MacAddress, dst: MacAddress, body: Body)
    | StartReceive(s: MacAddress)
    | Radio(s: MacAddress, e: RadioEvent)
    | EndSend(s: MacAddress, ok: bool)
    | EndReceive(s: MacAddress, h: nat)

  function Nobody(listeners: set<MacAddress>): World {
    World(listeners, map[], {}, [], [])
  }

  /** What the contracts of `Mac.MacLayer.SendData` and `Mac.MacLayer.RecvData` say of a finished call's log. */
  predicate Sends(c: Call, s: MacAddress, log: seq<RadioEvent>, ok: bool) {
    c.Sender? && c.body.Fits() && Exchange(log, s, c.dst, DataFrame(c.dst, s, c.body), ok)
  }

  predicate Receives(c: Call, s: MacAddress, log: seq<RadioEvent>, h: nat, listens: bool) {
    c.Receiver? && Reception(log, h, s, listens)
  }

  /** The call can still end the way its method promises. */
  ghost predicate Underway(c: Call, s: MacAddress, listens: bool) {
    || (exists rest: seq<RadioEvent>, ok: bool :: Sends(c, s, c.log + rest, ok))
    || (exists rest: seq<RadioEvent>, h: nat :: Receives(c, s, c.log + rest, h, listens))
  }

  /** `b` is a delivery of a frame some station sent. */
  ghost predicate Carried(sent: set<Frame>, b: Buffer) {
    exists prefix: seq<Byte>, f: Frame :: DeliveryOf(sent, b, prefix, f)
  }

  predicate DeliveryOf(sent: set<Frame>, b: Buffer, prefix: seq<Byte>, f: Frame) {
    |prefix| == MAC_INFO_OFFSET && f in sent && b == Delivered(prefix, f)
  }

  /** The channel invents nothing: what a station hears as meant for it, or for all, was sent. */
  ghost predicate Faithful(sent: set<Frame>, e: RadioEvent, s: MacAddress) {
    e.Heard? && KindOf(e.buffer, s) != Nothing ==> Carried(sent, e.buffer)
  }

  /** A station makes one call at a time. */
  ghost predicate Possible(w: World, ev: Event) {
    match ev
    case StartSend(s, dst, body) => Station(s) && s !in w.calls && body.Fits() && !body.Ack?
    case StartReceive(s) => Station(s) && s !in w.calls
    case Radio(s, e) => s in w.calls && Underway(w.calls[s].And(e), s, s in w.listeners) && Faithful(w.sent, e, s)
    case EndSend(s, ok) => s in w.calls && Sends(w.calls[s], s, w.calls[s].log, ok)
    case EndReceive(s, h) => s in w.calls && Receives(w.calls[s], s, w.calls[s].log, h, s in w.listeners)
  }

  /** The position of the first wanted frame, or the length of the log. */
  function TakenAt(log: seq<RadioEvent>, s: MacAddress, listens: bool): (h: nat)
    ensures h <= |log|
    ensures h < |log| ==> log[h].Heard? && Wanted(log[h].buffer, s, listens)
  {
    if |log| == 0 then 0
    else
      var h := TakenAt(log[..|log| - 1], s, listens);
      var e := log[|log| - 1];
      if h < |log| - 1 || (e.Heard? && Wanted(e.buffer, s, listens)) then h else |log|
  }

  function After(w: World, ev: Event): World
    requires Possible(w, ev)
  {
    match ev
    case StartSend(s, dst, body) => w.(calls := w.calls[s := Sender(dst, body, [])])
    case StartReceive(s) => w.(calls := w.calls[s := Receiver([])])
    case Radio(s, e) =>
      var c := w.calls[s];
      var w' := w.(calls := w.calls[s := c.And(e)]);
      if e.Sent? then w'.(sent := w.sent + {e.frame})
      else if c.Receiver? && TakenAt(c.log, s, s in w.listeners) == |c.log| && Wanted(e.buffer, s, s in w.listeners)
      then w'.(accepted := w.accepted + [(s, e.buffer)])
      else w'
    case EndSend(s, ok) =>
      var w' := w.(calls := w.calls - {s});
      if ok then w'.(succeeded := w.succeeded + [(s, w.calls[s].dst)]) else w'
    case EndReceive(s, _) => w.(calls := w.calls - {s})
  }

  ghost predicate Occurs(w: World, evs: seq<Event>)
    decreases |evs|, 0
  {
    |evs| == 0 || (Occurs(w, evs[..|evs| - 1]) && Possible(Outcome(w, evs[..|evs| - 1]), evs[|evs| - 1]))
  }

  ghost function Outcome(w: World, evs: seq<Event>): World
    requires Occurs(w, evs)
    decreases |evs|, 1
  {
    if |evs| == 0 then w else After(Outcome(w, evs[..|evs| - 1]), evs[|evs| - 1])
  }

  // ---- The protocol state a world amounts to ----

  predicate IsSending(c: Call) {
    c.Sender? && |c.log| > 0
  }

  predicate IsOwing(c: Call, s: MacAddress, listens: bool) {
    c.Receiver? && TakenAt(c.log, s, listens) < |c.log|
  }

  function DebtOf(c: Call, s: MacAddress, listens: bool): Debt
    requires IsOwing(c, s, listens)
  {
    var h := TakenAt(c.log, s, listens);
    Debt(SrcOf(c.log[h].buffer), |c.log| - h - 1)
  }

  ghost predicate SimCall(c: Call, s: MacAddress, w: World, n: Net) {
    var listens := s in w.listeners;
    && Station(s)
    && (c.Sender? ==> c.body.Fits() && !c.body.Ack?)
    && (s in n.pending <==> IsSending(c))
    && (IsSending(c) ==> n.pending[s] == Sending(DataFrame(c.dst, s, c.body), SentCount(c.log)))
    && (s in n.owed <==> IsOwing(c, s, listens)) && (IsOwing(c, s, listens) ==> n.owed[s] == DebtOf(c, s, listens))
    && forall i :: 0 <= i < |c.log| ==> Faithful(w.sent, c.log[i], s)
  }

  ghost predicate SameAcceptance(w: World, n: Net, i: nat)
    requires i < |w.accepted| && i < |n.accepted|
  {
    w.accepted[i].0 == n.accepted[i].0 && exists prefix :: DeliveryOf(w.sent, w.accepted[i].1, prefix, n.accepted[i].1)
  }

  ghost predicate Sim(w: World, n: Net) {
    && n.listeners == w.listeners && n.air == n.transmitted == w.sent && n.succeeded == w.succeeded
    && (forall s :: s in w.calls ==> SimCall(w.calls[s], s, w, n))
    && (forall s :: s !in w.calls ==> s !in n.pending && s !in n.owed)
    && |w.accepted| == |n.accepted| && forall i :: 0 <= i < |w.accepted| ==> SameAcceptance(w, n, i)
  }

  // ---- Every event is a protocol step, or none ----

  lemma {:induction false} TakenAtIsFirst(log: seq<RadioEvent>, s: MacAddress, listens: bool)
    ensures forall i :: 0 <= i < TakenAt(log, s, listens) ==> !(log[i].Heard? && Wanted(log[i].buffer, s, listens))
    decreases |log|
  {
    if |log| > 0 {
      TakenAtIsFirst(log[..|log| - 1], s, listens);
    }
  }

  /** The frame a finished reception took is the first wanted one of any part of its log that contains it. */
  lemma TakenAtAgrees(log: seq<RadioEvent>, rest: seq<RadioEvent>, s: MacAddress, h: nat, listens: bool)
    requires Reception(log + rest, h, s, listens)
    ensures TakenAt(log, s, listens) == if h < |log| then h else |log|
  {
    TakenAtIsFirst(log, s, listens);
    var taken := TakenAt(log, s, listens);
    assert taken < |log| ==> (log + rest)[taken] == log[taken];
    assert h < |log| ==> (log + rest)[h] == log[h];
  }

  lemma SenderStep(c: Call, s: MacAddress, listens: bool, e: RadioEvent)
    requires c.Sender? && c.body.Fits() && Underway(c.And(e), s, listens)
    ensures |c.log| == 0 ==> e.Sent?
    ensures e.Sent? ==> e.frame == DataFrame(c.dst, s, c.body) && SentCount(c.log) < MAC_MAX_RETRIES
    ensures SentCount(c.log + [e]) == SentCount(c.log) + if e.Sent? then 1 else 0
  {
    hide DataFrame, IsMatch;
    var rest: seq<RadioEvent>, ok: bool :| Sends(c.And(e), s, c.log + [e] + rest, ok);
    var ev := c.log + [e] + rest;
    assert ev[|c.log|] == e;
    SentCountAppend(c.log, [e]);
    SentCountAppend(c.log + [e], rest);
    assert [e][..0] == [];
  }

  lemma ReceiverStep(c: Call, s: MacAddress, listens: bool, e: RadioEvent)
    requires c.Receiver? && Underway(c.And(e), s, listens)
    ensures IsOwing(c, s, listens) ==>
              e == Sent(AckFrame(DebtOf(c, s, listens).to, s)) && DebtOf(c, s, listens).copies <= MAC_MAX_RETRIES
    ensures !IsOwing(c, s, listens) ==> e.Heard?
    ensures TakenAt(c.log + [e], s, listens) ==
            if IsOwing(c, s, listens) || Wanted(e.buffer, s, listens) then TakenAt(c.log, s, listens) else |c.log| + 1
  {
    var rest: seq<RadioEvent>, h: nat :| Receives(c.And(e), s, c.log + [e] + rest, h, listens);
    var ev := c.log + [e] + rest;
    assert ev[|c.log|] == e && ev == c.log + ([e] + rest);
    TakenAtAgrees(c.log, [e] + rest, s, h, listens);
    TakenAtAgrees(c.log + [e], rest, s, h, listens);
  }

  lemma FaithfulLater(sent: set<Frame>, sent': set<Frame>, e: RadioEvent, s: MacAddress)
    requires Faithful(sent, e, s) && sent <= sent'
    ensures Faithful(sent', e, s)
  {
    if e.Heard? && KindOf(e.buffer, s) != Nothing {
      var prefix: seq<Byte>, f: Frame :| DeliveryOf(sent, e.buffer, prefix, f);
      assert DeliveryOf(sent', e.buffer, prefix, f);
    }
  }

  /** Only station `s` and what was sent or accepted changed. */
  ghost predicate ChangesOnly(w: World, n: Net, w': World, n': Net, s: MacAddress) {
    && w'.listeners == w.listeners && w.sent <= w'.sent
    && (forall t :: t != s ==> (t in w'.calls <==> t in w.calls) && (t in w.calls ==> w'.calls[t] == w.calls[t]))
    && (forall t :: t != s ==>
          (t in n'.pending <==> t in n.pending) && (t in n.pending ==> n'.pending[t] == n.pending[t]))
    && (forall t :: t != s ==> (t in n'.owed <==> t in n.owed) && (t in n.owed ==> n'.owed[t] == n.owed[t]))
    && w.accepted <= w'.accepted && n.accepted <= n'.accepted
  }

  lemma OthersKeep(w: World, n: Net, w': World, n': Net, s: MacAddress)
    requires Sim(w, n) && ChangesOnly(w, n, w', n', s)
    ensures forall t :: t != s && t in w'.calls ==> SimCall(w'.calls[t], t, w', n')
    ensures forall t :: t != s && t !in w'.calls ==> t !in n'.pending && t !in n'.owed
    ensures forall i :: 0 <= i < |w.accepted| ==> SameAcceptance(w', n', i)
  {
    hide IsSending, IsOwing, DebtOf, DataFrame, Faithful, Delivered;
    forall t | t != s && t in w'.calls
      ensures SimCall(w'.calls[t], t, w', n')
    {
      var c := w.calls[t];
      assert SimCall(c, t, w, n);
      forall i | 0 <= i < |c.log|
        ensures Faithful(w'.sent, c.log[i], t)
      {
        FaithfulLater(w.sent, w'.sent, c.log[i], t);
      }
    }
    forall i | 0 <= i < |w.accepted|
      ensures SameAcceptance(w', n', i)
    {
      assert SameAcceptance(w, n, i);
      var prefix :| DeliveryOf(w.sent, w.accepted[i].1, prefix, n.accepted[i].1);
      assert DeliveryOf(w'.sent, w'.accepted[i].1, prefix, n'.accepted[i].1);
    }
  }

  /** The global part of `Sim` and the part of station `s`. */
  ghost predicate SimAt(w: World, n: Net, s: MacAddress) {
    && n.listeners == w.listeners && n.air == n.transmitted == w.sent && n.succeeded == w.succeeded
    && |w.accepted| == |n.accepted|
    && (if s in w.calls then SimCall(w.calls[s], s, w, n) else s !in n.pending && s !in n.owed)
  }

  lemma Part(w: World, n: Net, s: MacAddress)
    requires Sim(w, n)
    ensures SimAt(w, n, s)
  {
  }

  /** A change at one station keeps the whole relation if it keeps that station's part. */
  lemma Whole(w: World, n: Net, w': World, n': Net, s: MacAddress)
    requires Sim(w, n) && ChangesOnly(w, n, w', n', s) && SimAt(w', n', s)
    requires forall i :: |w.accepted| <= i < |w'.accepted| ==> SameAcceptance(w', n', i)
    ensures Sim(w', n')
  {
    hide SimCall, SameAcceptance, ChangesOnly;
    OthersKeep(w, n, w', n', s);
  }

  /** The protocol follows the event with `act`, or stands still. */
  ghost predicate Follows(w: World, n: Net, ev: Event, act: Option<Action>)
    requires Possible(w, ev)
  {
    match act
    case None => Sim(After(w, ev), n)
    case Some(step) => Enabled(n, step) && Sim(After(w, ev), Next(n, step))
  }

  lemma StartIsFollowed(w: World, n: Net, ev: Event)
    requires Sim(w, n) && Possible(w, ev) && (ev.StartSend? || ev.StartReceive?)
    ensures Follows(w, n, ev, None)
  {
    hide Sim, SameAcceptance;
    Part(w, n, ev.s);
    Whole(w, n, After(w, ev), n, ev.s);
  }

  lemma LogKeepsFaithful(w: World, n: Net, s: MacAddress, e: RadioEvent, sent: set<Frame>)
    requires Sim(w, n) && s in w.calls && Faithful(w.sent, e, s) && w.sent <= sent
    ensures forall i :: 0 <= i < |w.calls[s].log + [e]| ==> Faithful(sent, (w.calls[s].log + [e])[i], s)
  {
    hide Faithful, IsSending, IsOwing;
    var log := w.calls[s].log;
    Part(w, n, s);
    forall i | 0 <= i < |log + [e]|
      ensures Faithful(sent, (log + [e])[i], s)
    {
      FaithfulLater(w.sent, sent, (log + [e])[i], s);
    }
  }

  lemma TransmissionIsFollowed(w: World, n: Net, s: MacAddress, e: RadioEvent) returns (act: Option<Action>)
    requires Sim(w, n) && Possible(w, Radio(s, e)) && w.calls[s].Sender?
    ensures Follows(w, n, Radio(s, e), act)
  {
    hide Sim, SameAcceptance, DataFrame, Faithful, Underway, DebtOf, SentCount, IsAckFrame;
    var c := w.calls[s];
    var w' := After(w, Radio(s, e));
    Part(w, n, s);
    SenderStep(c, s, s in w.listeners, e);
    LogKeepsFaithful(w, n, s, e, w'.sent);
    NothingSent();
    act := if e.Heard? then None else if |c.log| == 0 then Some(Begin(s, c.dst, c.body)) else Some(Transmit(s));
    var n' := if act.Some? then Next(n, act.value) else n;
    Whole(w, n, w', n', s);
  }

  lemma NothingSent()
    ensures SentCount([]) == 0
  {
  }

  lemma ReceptionIsFollowed(w: World, n: Net, s: MacAddress, e: RadioEvent) returns (act: Option<Action>)
    requires Sim(w, n) && Possible(w, Radio(s, e)) && w.calls[s].Receiver?
    ensures Follows(w, n, Radio(s, e), act)
  {
    hide Sim, SameAcceptance, AckFrame, Faithful, Underway, SentCount, TakenAt, Wanted, Takes;
    var c, listens := w.calls[s], s in w.listeners;
    var w' := After(w, Radio(s, e));
    Part(w, n, s);
    ReceiverStep(c, s, listens, e);
    LogKeepsFaithful(w, n, s, e, w'.sent);
    if IsOwing(c, s, listens) {
      act := Some(SendAckCopy(s));
      Whole(w, n, w', Next(n, SendAckCopy(s)), s);
    } else if Wanted(e.buffer, s, listens) {
      var prefix, f := TakenFrame(w, n, s, e);
      act := Some(Receive(s, f));
      var n' := Next(n, Receive(s, f));
      NewAcceptance(w', n', prefix);
      Whole(w, n, w', n', s);
    } else {
      act := None;
      Whole(w, n, w', n, s);
    }
  }

  /** The frame behind a buffer the station wants. */
  lemma TakenFrame(w: World, n: Net, s: MacAddress, e: RadioEvent) returns (prefix: seq<Byte>, f: Frame)
    requires Sim(w, n) && Faithful(w.sent, e, s) && e.Heard? && Wanted(e.buffer, s, s in w.listeners)
    ensures f in n.air && Takes(n, s, f) && SrcIn(f) == SrcOf(e.buffer)
    ensures DeliveryOf(w.sent, e.buffer, prefix, f)
  {
    prefix, f :| DeliveryOf(w.sent, e.buffer, prefix, f);
    GuardsAreReceiverTests(prefix, f, s, s, s in w.listeners);
    ReceiverSeesFrame(prefix, f);
  }

  lemma NewAcceptance(w: World, n: Net, prefix: seq<Byte>)
    requires |w.accepted| == |n.accepted| > 0 && w.accepted[|w.accepted| - 1].0 == n.accepted[|n.accepted| - 1].0
    requires DeliveryOf(w.sent, w.accepted[|w.accepted| - 1].1, prefix, n.accepted[|n.accepted| - 1].1)
    ensures SameAcceptance(w, n, |w.accepted| - 1)
  {
  }

  /** The ack frame behind the reception that ended a send. */
  lemma MatchingFrame(w: World, n: Net, s: MacAddress, c: Call) returns (f: Frame)
    requires Sim(w, n) && s in w.calls && w.calls[s] == c && Sends(c, s, c.log, true)
    ensures f in n.air && DstIn(f) == s && IsAckFrame(f) && (c.dst == BROADCAST_MAC || SrcIn(f) == c.dst)
  {
    hide IsAck, IsAckFrame, DataFrame;
    var i :| 0 <= i < |c.log| && IsMatch(c.log[i], s, c.dst);
    assert Faithful(w.sent, c.log[i], s) by { Part(w, n, s); }
    var prefix: seq<Byte> :| exists g: Frame :: DeliveryOf(w.sent, c.log[i].buffer, prefix, g);
    f :| DeliveryOf(w.sent, c.log[i].buffer, prefix, f);
    GuardsAreReceiverTests(prefix, f, s, c.dst, true);
  }

  lemma EndOfSendIsFollowed(w: World, n: Net, s: MacAddress, ok: bool) returns (act: Option<Action>)
    requires Sim(w, n) && Possible(w, EndSend(s, ok))
    ensures Follows(w, n, EndSend(s, ok), act)
  {
    hide Sim, SameAcceptance, DataFrame, Faithful, IsAckFrame, IsMatch;
    var c := w.calls[s];
    Part(w, n, s);
    BuiltFrame(c.dst, s, c.body);
    if ok {
      var f := MatchingFrame(w, n, s, c);
      act := Some(Acknowledged(s, f));
    } else {
      act := Some(GiveUp(s));
    }
    Whole(w, n, After(w, EndSend(s, ok)), Next(n, act.value), s);
  }

  lemma EndOfReceptionIsFollowed(w: World, n: Net, s: MacAddress, h: nat) returns (act: Option<Action>)
    requires Sim(w, n) && Possible(w, EndReceive(s, h))
    ensures Follows(w, n, EndReceive(s, h), act)
  {
    hide Sim, SameAcceptance, Faithful, Wanted;
    var c, listens := w.calls[s], s in w.listeners;
    Part(w, n, s);
    assert c.log + [] == c.log;
    TakenAtAgrees(c.log, [], s, h, listens);
    act := if IsOwing(c, s, listens) then Some(Done(s)) else None;
    Whole(w, n, After(w, EndReceive(s, h)), if act.Some? then Next(n, act.value) else n, s);
  }

  lemma EventIsFollowed(w: World, n: Net, ev: Event) returns (act: Option<Action>)
    requires Sim(w, n) && Possible(w, ev)
    ensures Follows(w, n, ev, act)
  {
    hide Sim, Follows;
    match ev
    case StartSend(_, _, _) => StartIsFollowed(w, n, ev); act := None;
    case StartReceive(_) => StartIsFollowed(w, n, ev); act := None;
    case Radio(s, e) =>
      if w.calls[s].Sender? {
        act := TransmissionIsFollowed(w, n, s, e);
      } else {
        act := ReceptionIsFollowed(w, n, s, e);
      }
    case EndSend(s, ok) => act := EndOfSendIsFollowed(w, n, s, ok);
    case EndReceive(s, h) => act := EndOfReceptionIsFollowed(w, n, s, h);
  }

  /** Any interleaving of MAC calls whose logs are what the methods promise, over a channel that invents
      nothing, is a run of the protocol. */
  lemma {:induction false} CallsAreProtocolRuns(listeners: set<MacAddress>, evs: seq<Event>) returns (acts: seq<Action>)
    requires Occurs(Nobody(listeners), evs)
    ensures Runs(Silence(listeners), acts)
    ensures Sim(Outcome(Nobody(listeners), evs), Reached(Silence(listeners), acts))
    decreases |evs|
  {
    if |evs| == 0 {
      acts := [];
    } else {
      var front, ev := evs[..|evs| - 1], evs[|evs| - 1];
      acts := CallsAreProtocolRuns(listeners, front);
      var act := EventIsFollowed(Outcome(Nobody(listeners), front), Reached(Silence(listeners), acts), ev);
      if act.Some? {
        RunsAppend(Silence(listeners), acts, act.value);
        acts := acts + [act.value];
      }
    }
  }

  /** Station `b` took a delivery of a frame that `a` sent. */
  ghost predicate Took(w: World, b: MacAddress, a: MacAddress) {
    exists i :: 0 <= i < |w.accepted| && w.accepted[i].0 == b && SrcOf(w.accepted[i].1) == a
        && Carried(w.sent, w.accepted[i].1)
  }

  ghost predicate SomeoneTook(w: World, a: MacAddress) {
    exists i :: 0 <= i < |w.accepted| && SrcOf(w.accepted[i].1) == a && Carried(w.sent, w.accepted[i].1)
  }

  lemma AcceptanceInWorld(w: World, n: Net, i: nat)
    requires Sim(w, n) && i < |n.accepted|
    ensures w.accepted[i].0 == n.accepted[i].0 && SrcOf(w.accepted[i].1) == SrcIn(n.accepted[i].1)
    ensures Carried(w.sent, w.accepted[i].1)
  {
    assert SameAcceptance(w, n, i);
    var prefix :| DeliveryOf(w.sent, w.accepted[i].1, prefix, n.accepted[i].1);
    ReceiverSeesFrame(prefix, n.accepted[i].1);
  }

  /** Whenever a send to a station returns success, a reception of that very station took a frame of this sender
      before. */
  lemma SuccessfulCallsWereHeard(listeners: set<MacAddress>, evs: seq<Event>, i: nat)
    requires Occurs(Nobody(listeners), evs) && i < |Outcome(Nobody(listeners), evs).succeeded|
    ensures var w := Outcome(Nobody(listeners), evs);
            var (a, dst) := w.succeeded[i];
            if dst == BROADCAST_MAC then SomeoneTook(w, a) else Took(w, dst, a)
  {
    hide Delivered, SrcIn, SrcOf, Carried;
    var acts := CallsAreProtocolRuns(listeners, evs);
    var w, n := Outcome(Nobody(listeners), evs), Reached(Silence(listeners), acts);
    AckCausality(listeners, acts, i);
    var (a, dst) := n.succeeded[i];
    var j :| 0 <= j < |n.accepted| && (dst == BROADCAST_MAC || n.accepted[j].0 == dst) && SrcIn(n.accepted[j].1) == a;
    AcceptanceInWorld(w, n, j);
  }
}
