/** Sink and nodes together: what the layers guarantee to one another end to end. */
module Network {
  import opened Types
  import opened Codec
  import opened Counting
  import opened Framing
  import opened Board
  import opened Leases
  import opened LeaseTheorems
  import opened Admission
  import opened Ip
  import opened SinkApp
  import opened NodeApp
  import opened Tdma

  // ---- The handshake closes ----

  lemma {:induction false} HeldUntilEvicted(ops: seq<Op>, a: nat, n: nat, i: int)
    requires a < n <= |ops| && 2 <= i < 255 && At(ops, a + 1).table[i] != NULL_MAC
    requires forall k :: a < k < n ==> !Evicts(ops, k, i)
    ensures At(ops, n).table[i] == At(ops, a + 1).table[i]
    decreases n
  {
    hide Step;
    if n > a + 1 {
      HeldUntilEvicted(ops, a, n - 1, i);
      assert !Evicts(ops, n - 1, i);
      StepFrame(At(ops, n - 1), ops[n - 1], i);
    }
  }

  /** The node that took the sink's offer of index `i` for the answer to its request. */
  function JoinedNode(prefix: seq<Byte>, sink: MacAddress, node: MacAddress, i: Byte): NodeState
    requires |prefix| == MAC_INFO_OFFSET
  {
    Joined(InitialTable(), Delivered(prefix, IssueFrame(node, sink, SINK_IP, i)))
  }

  lemma JoinedNodeState(prefix: seq<Byte>, sink: MacAddress, node: MacAddress, i: Byte)
    requires |prefix| == MAC_INFO_OFFSET && Station(sink)
    ensures var s := JoinedNode(prefix, sink, node, i);
            && s.myIp == AddressOf(i) && s.gateway == SINK_IP
            && ResolveIp(s.table, s.gateway) == Some(sink) && ResolveMac(s.table, sink) == Some(SINK_IP)
  {
    TwoLayerRoundTrip(prefix, node, sink, SINK_IP, AddressOf(i), []);
  }

  /** The buffer a message from a joined node, or a reply to it, arrives in. */
  function NodeMessage(prefix: seq<Byte>, s: NodeState, sink: MacAddress, node: MacAddress, data: seq<Byte>): Buffer
    requires |prefix| == MAC_INFO_OFFSET && |data| <= MAX_APP_DATA
  {
    Delivered(prefix, MacFrame(sink, node, IpPayload(s.myIp, s.gateway, data)))
  }

  function SinkReply(prefix: seq<Byte>, sink: MacAddress, node: MacAddress, i: Byte, data: seq<Byte>): Buffer
    requires |prefix| == MAC_INFO_OFFSET && |data| <= MAX_APP_DATA
  {
    Delivered(prefix, MacFrame(node, sink, IpPayload(SINK_IP, AddressOf(i), data)))
  }

  /** A node's request reaches a sink that has an address free: the sink leases the smallest one to the node,
      and the node that hears the offer joins under exactly that address. */
  lemma RequestLeadsToJoin(s: Leases, sink: MacAddress, node: MacAddress, time: nat, prefix: seq<Byte>,
                           offer: seq<Byte>)
    requires |prefix| == |offer| == MAC_INFO_OFFSET && Station(sink) && Station(node)
    ensures var b := Delivered(prefix, MacFrame(BROADCAST_MAC, node, REQUEST_STRING));
            && SinkOp(b, sink, time) == Some(Request(time, node))
            && (SinkCode(s.table, b, sink) == IssueSuccess <==> exists i :: 2 <= i < 255 && s.table[i] == NULL_MAC)
            && (SinkCode(s.table, b, sink) == IssueSuccess ==>
                var i, now := FirstFree(s.table), Step(s, Request(time, node));
                && 2 <= i < 255 && now == Leases(s.table[i := node], s.stamps[i := time])
                && JoinedNode(offer, sink, node, i).myIp == AddressOf(i)
                && JoinedNode(offer, sink, node, i).gateway == SINK_IP)
  {
    hide Delivered, MacFrame, JoinedNode;
    OperationOfFrame(prefix, BROADCAST_MAC, node, AddressRequest, sink, time);
    OperationOfFrame(prefix, BROADCAST_MAC, node, AddressRequest, sink, 0);
    FirstMatchIsLeast(s.table, NULL_MAC, 2);
    var i := FirstFree(s.table);
    if i != -1 {
      JoinedNodeState(offer, sink, node, i);
    }
  }

  /** What a joined node asks its gateway is a request for the parameters there, and its reports are not. */
  lemma QuestionsAndReports(prefix: seq<Byte>, offer: seq<Byte>, sink: MacAddress, node: MacAddress, i: Byte)
    requires |prefix| == |offer| == MAC_INFO_OFFSET && Station(sink)
    ensures var n := JoinedNode(offer, sink, node, i);
            && CanAsk(n) && GatewayMac(n) == sink
            && Delivered(prefix, ParametersRequestFrame(n, node))
                == NodeMessage(prefix, n, sink, node, PARAMETERS_REQUEST_TEXT)
            && AsksForParameters(Delivered(prefix, ParametersRequestFrame(n, node)))
            && Delivered(prefix, ReportFrame(n, node)) == NodeMessage(prefix, n, sink, node, REPORT_TEXT)
            && !AsksForParameters(Delivered(prefix, ReportFrame(n, node)))
  {
    hide Delivered, MacFrame, IpPayload, JoinedNode;
    var n := JoinedNode(offer, sink, node, i);
    JoinedNodeState(offer, sink, node, i);
    TwoLayerRoundTrip(prefix, sink, node, n.myIp, n.gateway, PARAMETERS_REQUEST_TEXT);
    TwoLayerRoundTrip(prefix, sink, node, n.myIp, n.gateway, REPORT_TEXT);
  }

  /** A joined node takes a packet exactly when it comes from the sink, under the sink's address, to the node's
      radio and to the address the node was given: a late copy of another station's reply or of an earlier
      offer is refused. */
  lemma AdmittedExactlyFromSink(offer: seq<Byte>, prefix: seq<Byte>, sink: MacAddress, node: MacAddress, i: Byte,
                                dst: MacAddress, src: MacAddress, body: Body)
    requires |offer| == |prefix| == MAC_INFO_OFFSET && Station(sink) && Station(node) && body.Fits()
    ensures NodeAdmits(JoinedNode(offer, sink, node, i), Delivered(prefix, MacFrame(dst, src, body.Bytes())), node) <==>
            dst == node && src == sink && body.Packet? && body.src == SINK_IP && body.dst == AddressOf(i)
  {
    hide Delivered, MacFrame, IpPayload, JoinedNode;
    JoinedNodeState(offer, sink, node, i);
    MacRoundTrip(prefix, dst, src, body.Bytes());
    if body.Packet? {
      TwoLayerRoundTrip(prefix, dst, src, body.src, body.dst, body.data);
    } else {
      NoAddressesInText(body.Bytes());
    }
    ResolvesOnlySink(offer, sink, node, i, src);
  }

  /** The table of a joined node knows the sink and nobody else. */
  lemma ResolvesOnlySink(offer: seq<Byte>, sink: MacAddress, node: MacAddress, i: Byte, m: MacAddress)
    requires |offer| == MAC_INFO_OFFSET && Station(sink)
    ensures ResolveMac(JoinedNode(offer, sink, node, i).table, m) == Some(SINK_IP) <==> m == sink
  {
    hide Delivered, IssueFrame;
    var t := JoinedNode(offer, sink, node, i).table;
    JoinedTable(offer, sink, node, i);
    FirstMatchIsLeast(t, m, 1);
  }

  lemma JoinedTable(offer: seq<Byte>, sink: MacAddress, node: MacAddress, i: Byte)
    requires |offer| == MAC_INFO_OFFSET
    ensures JoinedNode(offer, sink, node, i).table == InitialTable()[1 := sink]
  {
    TwoLayerRoundTrip(offer, node, sink, SINK_IP, AddressOf(i), []);
  }

  /** Whatever the holder of an address sends to its gateway is admitted and recorded. */
  lemma HolderIsAdmitted(s: Leases, sink: MacAddress, node: MacAddress, i: Byte, time: nat,
                         offer: seq<Byte>, prefix: seq<Byte>, data: seq<Byte>)
    requires 2 <= i < 255 && s.table[i] == node && Station(node) && Station(sink)
    requires |offer| == |prefix| == MAC_INFO_OFFSET && |data| <= MAX_APP_DATA
    ensures var b := NodeMessage(prefix, JoinedNode(offer, sink, node, i), sink, node, data);
            var op := Message(time, node, AddressOf(i), SINK_IP);
            && SinkOp(b, sink, time) == Some(op) && SinkCode(s.table, b, sink) == Code.Application
            && Records(s, op, i) && data <= AppDataOf(DataOf(b))
  {
    hide IpPayload, MacFrame, Delivered, JoinedNode;
    JoinedNodeState(offer, sink, node, i);
    TwoLayerRoundTrip(prefix, sink, node, AddressOf(i), SINK_IP, data);
    FirstMatchIsLeast(s.table, node, 1);
  }

  /** If a node's answer is the sink's offer, then until the sink evicts that entry every message the
      node sends to its gateway is admitted as an application message and refreshes the lease. */
  lemma NodeMessagesAreAdmitted(ops: seq<Op>, a: nat, n: nat, sink: MacAddress, i: Byte, time: nat,
                                offer: seq<Byte>, prefix: seq<Byte>, data: seq<Byte>)
    requires a < n <= |ops| && ops[a].Request? && Station(ops[a].mac) && Station(sink)
    requires i as int == FirstFree(At(ops, a).table) && forall k :: a < k < n ==> !Evicts(ops, k, i)
    requires |offer| == |prefix| == MAC_INFO_OFFSET && |data| <= MAX_APP_DATA
    ensures var node := ops[a].mac;
            var s := JoinedNode(offer, sink, node, i);
            var b := NodeMessage(prefix, s, sink, node, data);
            var op := Message(time, node, AddressOf(i), SINK_IP);
            && ResolveIp(s.table, s.gateway) == Some(sink)
            && SinkOp(b, sink, time) == Some(op) && SinkCode(At(ops, n).table, b, sink) == Code.Application
            && Records(At(ops, n), op, i) && Step(At(ops, n), op).stamps[i] == time
            && data <= AppDataOf(DataOf(b))
  {
    var node := ops[a].mac;
    hide IpPayload, MacFrame, Delivered, JoinedNode, SinkOp, SinkCode, Records, Admits;
    JoinedNodeState(offer, sink, node, i);
    HeldUntilEvicted(ops, a, n, i);
    HolderIsAdmitted(At(ops, n), sink, node, i, time, offer, prefix, data);
    StepFrame(At(ops, n), Message(time, node, AddressOf(i), SINK_IP), i);
  }

  /** Until the eviction, every reply of the sink to that address goes to the node and passes all its checks. */
  lemma SinkRepliesAreAdmitted(ops: seq<Op>, a: nat, n: nat, sink: MacAddress, i: Byte,
                               offer: seq<Byte>, prefix: seq<Byte>, data: seq<Byte>)
    requires a < n <= |ops| && ops[a].Request? && Station(ops[a].mac) && Station(sink)
    requires i as int == FirstFree(At(ops, a).table) && forall k :: a < k < n ==> !Evicts(ops, k, i)
    requires |offer| == |prefix| == MAC_INFO_OFFSET && |data| <= MAX_APP_DATA
    ensures var node := ops[a].mac;
            var b := SinkReply(prefix, sink, node, i, data);
            && ResolveIp(At(ops, n).table, AddressOf(i)) == Some(node)
            && NodeAdmits(JoinedNode(offer, sink, node, i), b, node)
            && data <= AppDataOf(DataOf(b))
  {
    var node := ops[a].mac;
    JoinedNodeState(offer, sink, node, i);
    TwoLayerRoundTrip(prefix, node, sink, SINK_IP, AddressOf(i), data);
    HeldUntilEvicted(ops, a, n, i);
  }

  lemma ParametersDecode(d: seq<Byte>, period: int, clock: nat)
    requires Int32(period) && clock < 0x1_0000_0000_0000_0000
    requires ToBytes(period, 4) + ToBytes(clock, 8) <= d
    ensures Convert4BytesToInt(d) == period && Convert8BytesToUll(d[4..]) == clock
  {
    hide ToBytes, Convert4BytesToInt, Convert8BytesToUll;
    var p, c := ToBytes(period, 4), ToBytes(clock, 8);
    assert d[..4] == p == p[..4] && d[4..][..8] == c == c[..8];
    Decoder4IsPositional(d);
    Decoder4IsPositional(p);
    Decoder8IsPositional(d[4..]);
    Decoder8IsPositional(c);
    PeriodRoundTrip(period);
    ClockRoundTrip(clock, c);
  }

  /** The state of a node that took a frame of the sink with this body for the answer to its request. */
  function JoinedBy(prefix: seq<Byte>, sink: MacAddress, node: MacAddress, body: Body): NodeState
    requires |prefix| == MAC_INFO_OFFSET && body.Fits()
  {
    Joined(InitialTable(), Delivered(prefix, MacFrame(node, sink, body.Bytes())))
  }

  lemma JoinedByState(prefix: seq<Byte>, sink: MacAddress, node: MacAddress, body: Body)
    requires |prefix| == MAC_INFO_OFFSET && body.Fits()
    ensures var n := JoinedBy(prefix, sink, node, body);
            if body.Packet? then n.myIp == body.dst && n.gateway == body.src
            else n.myIp == [0, 0, 0, 0] && n.gateway == [0, 0, 0, 0]
  {
    MacRoundTrip(prefix, node, sink, body.Bytes());
    if body.Packet? {
      TwoLayerRoundTrip(prefix, node, sink, body.src, body.dst, body.data);
    }
  }

  /** A node believes whatever unicast frame follows its acknowledged request, be it another copy of the
      ack. What it sends afterwards is admitted exactly when that frame was a packet from the sink's
      address that offers an address the sink holds for this node; a stray ack locks it out for good. */
  lemma AdmittedIffOffered(s: Leases, now: nat, sink: MacAddress, node: MacAddress, body: Body,
                           offer: seq<Byte>, prefix: seq<Byte>, data: seq<Byte>)
    requires Consistent(s, now) && Station(node) && Station(sink) && body.Fits()
    requires |offer| == |prefix| == MAC_INFO_OFFSET && |data| <= MAX_APP_DATA
    ensures var b := NodeMessage(prefix, JoinedBy(offer, sink, node, body), sink, node, data);
            SinkCode(s.table, b, sink) == Code.Application <==>
            body.Packet? && body.src == SINK_IP && s.table[body.dst[3]] == node
  {
    hide IpPayload, MacFrame, Delivered, JoinedBy;
    var n := JoinedBy(offer, sink, node, body);
    JoinedByState(offer, sink, node, body);
    TwoLayerRoundTrip(prefix, sink, node, n.myIp, n.gateway, data);
    FirstMatchIsLeast(s.table, node, 1);
  }

  /** Whatever the sink hands to the radio in reply to a request for the parameters, a node that receives it
      reads back the system period and the clock value the sink read for it. */
  lemma ParametersArrive(prefix: seq<Byte>, sink: MacAddress, node: MacAddress, ip: IpAddress, clock: nat)
    requires |prefix| == MAC_INFO_OFFSET && clock < 0x1_0000_0000_0000_0000
    ensures var b := Delivered(prefix, ParametersFrame(node, sink, ip, clock));
            && ReplyPeriod(b) == APP_DEFAULT_PERIOD_IN_MS && ReplyClock(b) == clock
            && DstOf(b) == node && SrcOf(b) == sink && IpSrcOf(DataOf(b)) == SINK_IP && IpDstOf(DataOf(b)) == ip
  {
    hide ToBytes, Convert4BytesToInt, Convert8BytesToUll, MacFrame, IpPayload, Delivered;
    TwoLayerRoundTrip(prefix, node, sink, SINK_IP, ip, Parameters(clock));
    ParametersDecode(AppDataOf(DataOf(Delivered(prefix, ParametersFrame(node, sink, ip, clock)))),
                     APP_DEFAULT_PERIOD_IN_MS, clock);
  }

  /** From the moment `SynchroniseParameters` sets its clock a node is ahead of the sink by what its
      failed attempts added, less the reply's transit: `clock` is what the sink wrote into the reply,
      `at` the sink's clock when the node sets its own to `adjusted`, and `elapsed` what both have ticked since. */
  lemma ClockAfterSynchronising(prefix: seq<Byte>, sink: MacAddress, node: MacAddress, ip: IpAddress, clock: nat,
                                at: nat, adjusted: nat, elapsed: nat, retries: nat, transit: Transit)
    requires |prefix| == MAC_INFO_OFFSET && clock < 0x1_0000_0000_0000_0000
    requires clock + transit.least <= at <= clock + transit.most
    requires adjusted == AdjustedClock(Delivered(prefix, ParametersFrame(node, sink, ip, clock)), retries)
    ensures Synchronised(retries, transit, (adjusted + elapsed) - (at + elapsed))
  {
    hide ReplyClock, Delivered, ParametersFrame;
    ParametersArrive(prefix, sink, node, ip, clock);
  }

  // ---- Reports keep the lease ----

  /** A node and its run of reports: its clock is `error` ahead of the sink's, and the sink handles a
      report at most `lag` after the node's send returned. */
  datatype Reporter = Reporter(sink: MacAddress, node: MacAddress, i: Byte, offer: seq<Byte>,
                               rs: seq<Report>, l: Limits, error: int, lag: nat) {
    predicate Plausible() {
      && Station(sink) && Station(node) && 2 <= i < 255 && |offer| == MAC_INFO_OFFSET
      && |rs| > 0 && ReportRun(rs, APP_DEFAULT_PERIOD_IN_MS, Slot(), l) && Prompt(l, APP_DEFAULT_PERIOD_IN_MS, Slot())
    }

    function Slot(): nat {
      SlotNumber(AddressOf(i), APP_DEFAULT_PERIOD_IN_MS)
    }

    /** On the sink's clock: the instant report `m` is due, and the latest it is handled. */
    function Due(m: nat): int
      requires |rs| > 0
    {
      rs[0].base + m * APP_DEFAULT_PERIOD_IN_MS + Offset(Slot()) - error
    }

    function Deadline(m: nat): int
      requires |rs| > 0
    {
      Due(m) + Jitter(l, Slot()) + Burst(l) + lag
    }
  }

  /** Operation `k` of the sink is what report `m` of the node amounts to, in time. */
  ghost predicate Arrives(ops: seq<Op>, k: nat, x: Reporter, m: nat)
    requires k < |ops| && m < |x.rs| && |x.offer| == MAC_INFO_OFFSET
  {
    && x.rs[m].start - x.error <= ops[k].time <= x.rs[m].end - x.error + x.lag
    && exists prefix: seq<Byte> :: |prefix| == MAC_INFO_OFFSET
         && SinkOp(NodeMessage(prefix, JoinedNode(x.offer, x.sink, x.node, x.i), x.sink, x.node, REPORT_TEXT), x.sink,
                   ops[k].time) == Some(ops[k])
  }

  /** Every report whose time is over by clock value `now` reached the sink after operation `c`. */
  ghost predicate AllArrived(ops: seq<Op>, c: nat, x: Reporter, now: nat)
    requires |x.rs| > 0 && |x.offer| == MAC_INFO_OFFSET
  {
    forall m :: 0 <= m < |x.rs| && x.Deadline(m) < now ==> exists k :: c < k < |ops| && Arrives(ops, k, x, m)
  }

  lemma ArrivalIsTimely(ops: seq<Op>, k: nat, x: Reporter, m: nat)
    requires x.Plausible() && k < |ops| && m < |x.rs| && Arrives(ops, k, x, m)
    ensures x.Due(m) <= ops[k].time <= x.Deadline(m)
  {
    ReportsDoNotDrift(x.rs, APP_DEFAULT_PERIOD_IN_MS, x.Slot(), x.l, m);
    assert InSlot(x.rs[m], APP_DEFAULT_PERIOD_IN_MS, x.Slot(), x.l);
  }

  lemma ArrivalIsRecorded(ops: seq<Op>, k: nat, x: Reporter, m: nat)
    requires x.Plausible() && k < |ops| && m < |x.rs| && Arrives(ops, k, x, m) && At(ops, k).table[x.i] == x.node
    ensures Records(At(ops, k), ops[k], x.i)
  {
    hide SinkOp, NodeMessage, JoinedNode, Records, SinkCode;
    var prefix: seq<Byte> :| |prefix| == MAC_INFO_OFFSET
      && SinkOp(NodeMessage(prefix, JoinedNode(x.offer, x.sink, x.node, x.i), x.sink, x.node, REPORT_TEXT), x.sink,
                ops[k].time) == Some(ops[k]);
    HolderIsAdmitted(At(ops, k), x.sink, x.node, x.i, ops[k].time, x.offer, prefix, REPORT_TEXT);
  }

  /** The last report due well before `now`. */
  lemma LastReport(x: Reporter, now: nat) returns (m: nat)
    requires x.Plausible() && x.Deadline(0) < now <= x.Deadline(|x.rs|)
    ensures m < |x.rs| && x.Deadline(m) < now <= x.Deadline(m) + APP_DEFAULT_PERIOD_IN_MS
  {
    m := (now - x.Deadline(0) - 1) / APP_DEFAULT_PERIOD_IN_MS;
  }

  /** The node is heard often enough for the clean-up at operation `n`. */
  lemma ReportsAreRecent(ops: seq<Op>, c: nat, n: nat, x: Reporter)
    requires x.Plausible() && Legal(ops) && c < n < |ops|
    requires forall k :: c < k <= n ==> At(ops, k).table[x.i] == x.node
    requires Records(At(ops, c), ops[c], x.i) && x.Deadline(0) <= ops[c].time + APP_EPOCH_UNTIL_CLEAN
    requires Jitter(x.l, x.Slot()) + Burst(x.l) + x.lag <= APP_EPOCH_UNTIL_CLEAN - APP_DEFAULT_PERIOD_IN_MS
    requires ops[n].time <= x.Deadline(|x.rs|) && AllArrived(ops, c, x, ops[n].time)
    ensures HeardRecently(ops, c, n, x.i)
  {
    hide Records, SinkOp, NodeMessage, JoinedNode, Prompt, ReportRun;
    if ops[n].time > ops[c].time + APP_EPOCH_UNTIL_CLEAN {
      var m := LastReport(x, ops[n].time);
      var k :| c < k < |ops| && Arrives(ops, k, x, m);
      ArrivalIsTimely(ops, k, x, m);
      assert k < n;
      ArrivalIsRecorded(ops, k, x, m);
    }
  }

  lemma ArrivedEarlier(ops: seq<Op>, c: nat, x: Reporter, n: nat)
    requires x.Plausible() && Legal(ops) && 0 < n < |ops| && AllArrived(ops, c, x, ops[n].time)
    ensures ops[n - 1].time <= ops[n].time && AllArrived(ops, c, x, ops[n - 1].time)
  {
    hide Arrives;
  }

  /** The step of the induction below. */
  lemma StillHolds(ops: seq<Op>, c: nat, n: nat, x: Reporter)
    requires x.Plausible() && Legal(ops) && Scheduled(ops) && c < n < |ops|
    requires forall k :: c < k <= n ==> At(ops, k).table[x.i] == x.node
    requires Records(At(ops, c), ops[c], x.i) && x.Deadline(0) <= ops[c].time + APP_EPOCH_UNTIL_CLEAN
    requires Jitter(x.l, x.Slot()) + Burst(x.l) + x.lag <= APP_EPOCH_UNTIL_CLEAN - APP_DEFAULT_PERIOD_IN_MS
    requires ops[n].time <= x.Deadline(|x.rs|) && AllArrived(ops, c, x, ops[n].time)
    ensures At(ops, n + 1).table[x.i] == x.node
    ensures ops[n].Request? ==> FirstFree(At(ops, n).table) != x.i
  {
    hide Records, HeardRecently, Step, AllArrived, Prompt, ReportRun, Legal, Scheduled;
    ReportsAreRecent(ops, c, n, x);
    HeardMeansKept(ops, c, n, x.i);
  }

  /** A node whose reports, one per period, reach the sink keeps its address for the whole run and nobody
      else is issued it. It has been recorded once, at operation `c`, within an epoch before the first
      report is over: when it was issued the address, or when it asked for the parameters. */
  lemma {:induction false} ReportingNodeKeepsAddress(ops: seq<Op>, c: nat, n: nat, x: Reporter)
    requires x.Plausible() && Legal(ops) && Scheduled(ops) && c < n <= |ops|
    requires Records(At(ops, c), ops[c], x.i) && At(ops, c + 1).table[x.i] == x.node
    requires x.Deadline(0) <= ops[c].time + APP_EPOCH_UNTIL_CLEAN
    requires Jitter(x.l, x.Slot()) + Burst(x.l) + x.lag <= APP_EPOCH_UNTIL_CLEAN - APP_DEFAULT_PERIOD_IN_MS
    requires ops[n - 1].time <= x.Deadline(|x.rs|) && AllArrived(ops, c, x, ops[n - 1].time)
    ensures forall k :: c < k <= n ==> At(ops, k).table[x.i] == x.node
    ensures forall k :: c < k < n && ops[k].Request? ==> FirstFree(At(ops, k).table) != x.i
    decreases n
  {
    hide At, Records, AllArrived, FirstFree, Legal, Scheduled, Reporter.Plausible;
    if n > c + 1 {
      ArrivedEarlier(ops, c, x, n - 1);
      ReportingNodeKeepsAddress(ops, c, n - 1, x);
      StillHolds(ops, c, n - 1, x);
    }
  }

  // ---- Reports of leased addresses never collide ----

  /** In any run of the sink that never has more addresses out than there are slots, two nodes that
      hold different addresses at the same time never transmit reports at the same time, as long as
      jitter, burst, the variation of the transit of their parameter replies and 100 milliseconds for each attempt that
      one of them needed more than the other together stay below one slot. */
  lemma LeasedNodesNeverCollide(ops: seq<Op>, k: nat, period: nat, a: Byte, b: Byte, transit: Transit, spread: nat,
                                rs: seq<Report>, l: Limits, error: int, retries: nat, i: nat,
                                rs': seq<Report>, l': Limits, error': int, retries': nat, j: nat)
    requires period >= APP_DEFAULT_TIMESLOT_IN_MS && NeverCrowded(ops, SlotCount(period))
    requires k <= |ops| && a as int in OccupiedAt(ops, k) && b as int in OccupiedAt(ops, k) && a != b
    requires ReportRun(rs, period, SlotNumber(AddressOf(a), period), l) && i < |rs|
    requires ReportRun(rs', period, SlotNumber(AddressOf(b), period), l') && j < |rs'|
    requires transit.Sound() && Synchronised(retries, transit, error) && Synchronised(retries', transit, error')
    requires retries <= retries' + spread && retries' <= retries + spread
    requires var skew := Skew(spread, transit);
             Guarded(l, SlotNumber(AddressOf(a), period), skew) && Guarded(l', SlotNumber(AddressOf(b), period), skew)
    ensures rs[i].end - error < rs'[j].start - error' || rs'[j].end - error' < rs[i].start - error
  {
    hide ReportRun, Guarded;
    var skew := Skew(spread, transit);
    DistinctSlotsIffNotCrowded(ops, SlotCount(period));
    assert InjectiveMod(OccupiedAt(ops, k), SlotCount(period));
    ReportsNeverOverlap(rs, l, SlotNumber(AddressOf(a), period), error, rs', l', SlotNumber(AddressOf(b), period),
                        error', period, skew, i, j);
  }
}
