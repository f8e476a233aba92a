/** The sensor node's main program (`APP_node` in node/application.c). */
module NodeApp {
  import opened Types
  import opened Codec
  import opened Framing
  import opened Board
  import opened Util
  import opened Mac
  import opened Leases
  import opened Admission
  import opened Exchanges
  import opened Ip
  import opened Tdma

  const PARAMETERS_REQUEST_TEXT: seq<Byte> := [83, 0]
  const REPORT_TEXT: seq<Byte> := [68, 123]
  const PARAMETERS_TIMEOUT := 100

  /** The period and the clock a parameter reply carries. */
  function ReplyPeriod(b: Buffer): int {
    Convert4BytesToInt(AppDataOf(DataOf(b)))
  }

  function ReplyClock(b: Buffer): nat {
    Convert8BytesToUll(AppDataOf(DataOf(b))[4..])
  }

  /** What the node sets its clock to when this reply comes after `retries` failed attempts. */
  function AdjustedClock(b: Buffer, retries: nat): nat {
    ReplyClock(b) + 100 * retries + 75
  }

  // ---- What a node in this addressing state sends to its gateway ----

  /** The gateway's address has a table entry. */
  predicate CanAsk(n: NodeState) {
    ResolveIp(n.table, n.gateway).Some?
  }

  function GatewayMac(n: NodeState): MacAddress
    requires CanAsk(n)
  {
    ResolveIp(n.table, n.gateway).value
  }

  function ParametersRequestFrame(n: NodeState, me: MacAddress): Frame
    requires CanAsk(n)
  {
    MacFrame(GatewayMac(n), me, IpPayload(n.myIp, n.gateway, PARAMETERS_REQUEST_TEXT))
  }

  function ReportFrame(n: NodeState, me: MacAddress): Frame
    requires CanAsk(n)
  {
    MacFrame(GatewayMac(n), me, IpPayload(n.myIp, n.gateway, REPORT_TEXT))
  }

  // ---- The start of the program, as its radio log shows it ----

  /** One round of asking the gateway for the parameters, answered by `b` or not. */
  ghost predicate AskedOnce(ev: seq<RadioEvent>, n: NodeState, me: MacAddress, answered: bool, b: Buffer) {
    if !CanAsk(n) then !answered && ev == []
    else if answered then AnsweredBy(ev, me, GatewayMac(n), ParametersRequestFrame(n, me), Some(n), b)
    else Unanswered(ev, me, GatewayMac(n), ParametersRequestFrame(n, me), Some(n))
  }

  /** Rounds of asking the gateway for the parameters, all without an admitted answer. */
  ghost predicate AskedInVain(ev: seq<RadioEvent>, rounds: nat, n: NodeState, me: MacAddress) {
    if CanAsk(n) then Tried(ev, rounds, me, GatewayMac(n), ParametersRequestFrame(n, me), Some(n)) else ev == []
  }

  /** After `rounds` of them, one that `reply` answers. */
  ghost predicate AskedFor(ev: seq<RadioEvent>, rounds: nat, n: NodeState, me: MacAddress, reply: Buffer) {
    CanAsk(n) && Obtained(ev, rounds, me, GatewayMac(n), ParametersRequestFrame(n, me), Some(n), reply)
  }

  lemma AskedOnceMore(ev: seq<RadioEvent>, rounds: nat, more: seq<RadioEvent>, n: NodeState, me: MacAddress,
                      answered: bool, b: Buffer)
    requires AskedInVain(ev, rounds, n, me) && AskedOnce(more, n, me, answered, b)
    ensures if answered then AskedFor(ev + more, rounds, n, me, b) else AskedInVain(ev + more, rounds + 1, n, me)
  {
    hide Tried, Obtained, AnsweredBy, Unanswered, ParametersRequestFrame;
    if CanAsk(n) {
      if answered {
        ObtainedAtLast(ev, rounds, more, me, GatewayMac(n), ParametersRequestFrame(n, me), Some(n), b);
      } else {
        TriedAgain(ev, rounds, more, me, GatewayMac(n), ParametersRequestFrame(n, me), Some(n));
      }
    }
  }

  /** Where in the log the two questions were settled, after how many rounds, and by which frames. */
  datatype Beginning = Beginning(joined: nat, requests: nat, answer: Buffer, synchronised: nat, attempts: nat,
                                 reply: Buffer)

  /** From position `from` of its log on, a station in state `was` went through the start of the program to
      this outcome and is in state `now`. */
  ghost predicate Began(log: seq<RadioEvent>, from: nat, t: Beginning, outcome: Outcome, me: MacAddress,
                        was: NodeState, now: NodeState) {
    && from <= t.joined <= t.synchronised <= |log|
    && (if outcome == NotJoined then
          && now == was && t.joined == t.synchronised
          && Tried(log[from..t.joined], NODE_REQUEST_RETRIES, me, BROADCAST_MAC,
                   MacFrame(BROADCAST_MAC, me, REQUEST_STRING), None)
        else
          && now == Joined(was.table, t.answer) && t.requests < NODE_REQUEST_RETRIES
          && Obtained(log[from..t.joined], t.requests, me, BROADCAST_MAC, MacFrame(BROADCAST_MAC, me, REQUEST_STRING),
                      None, t.answer))
    && (outcome == NotSynchronised ==> AskedInVain(log[t.joined..t.synchronised], NODE_PARAM_RETRIES, now, me))
    && (outcome.NoSlots? || outcome.Reporting? ==>
          && t.attempts < NODE_PARAM_RETRIES && AskedFor(log[t.joined..t.synchronised], t.attempts, now, me, t.reply)
          && outcome == (if ReplyPeriod(t.reply) < APP_DEFAULT_TIMESLOT_IN_MS then NoSlots
                         else Reporting(ReplyPeriod(t.reply))))
  }

  lemma StillBegan(log: seq<RadioEvent>, later: seq<RadioEvent>, from: nat, t: Beginning, outcome: Outcome,
                   me: MacAddress, was: NodeState, now: NodeState)
    requires Began(log, from, t, outcome, me, was, now) && log <= later
    ensures Began(later, from, t, outcome, me, was, now)
  {
    hide Tried, Obtained, AskedInVain, AskedFor, Joined, MacFrame, ReplyPeriod;
    assert later[from..t.joined] == log[from..t.joined];
    assert later[t.joined..t.synchronised] == log[t.joined..t.synchronised];
  }

  lemma NothingAskedYet(n: NodeState, me: MacAddress)
    ensures AskedInVain([], 0, n, me)
  {
  }

  function Outcomes(rs: seq<Report>): seq<bool> {
    seq(|rs|, i requires 0 <= i < |rs| => rs[i].ok)
  }

  /** How far the program gets. */
  datatype Outcome = NotJoined | NotSynchronised | NoSlots | Reporting(period: nat)

  /** The period a clock value belongs to, and how it lies to an earlier one. */
  lemma PeriodOf(now: nat, current: nat, period: nat)
    requires period > 0 && current % period == 0 && current <= now
    ensures var base := now - now % period;
            && base % period == 0 && current <= base <= now < base + period
            && (base == current || base == current + period || current + 2 * period <= base)
  {
    var base := now - now % period;
    assert now == (now / period) * period + now % period;
    ModUnique(base, period, now / period, 0);
    ModUnique(current + period, period, current / period + 1, 0);
    MultiplesApart(base, current, period);
    MultiplesApart(current, base, period);
    MultiplesApart(current + period, base, period);
  }

  lemma PatienceIsEnough(patience: nat, period: nat)
    requires patience > 0
    ensures patience * period >= period
  {
  }

  class Node {
    const ip: IpLayer
    const appBuff: array<Byte>

    ghost predicate Valid()
      reads ip.mac.device
    {
      && ip.Valid()
      && appBuff.Length == 2 && appBuff != ip.ipSendPayload && appBuff != ip.mac.sendPayload
      && appBuff != ip.mac.recvPayload
    }

    constructor (mac: MacLayer)
      requires mac.Valid()
      ensures Valid() && ip.mac == mac
    {
      ip := new IpLayer(NodeRole, mac);
      appBuff := new Byte[2](i requires 0 <= i < 2 => PARAMETERS_REQUEST_TEXT[i]);
    }

    /** Asks the gateway for the period and the clock until an answer is admitted; the clock is set
        from the answer plus an estimate of the time the attempts took: `adjusted` is its new value, before
        the console line that follows. */
    method SynchroniseParameters() returns (period: Option<int>, ghost retries: nat, ghost adjusted: nat)
      requires Valid()
      modifies appBuff, ip.mac.device, ip.mac.sendPayload, ip.mac.recvPayload, ip.ipSendPayload
      ensures Valid() && old(ip.mac.device.log) <= ip.mac.device.log
      ensures period.Some? <==> retries < NODE_PARAM_RETRIES
      ensures var ev := ip.mac.device.log[|old(ip.mac.device.log)|..];
              if period.Some? then AskedFor(ev, retries, ip.Node(), ip.mac.myMac, ip.mac.recvPayload[..])
              else AskedInVain(ev, NODE_PARAM_RETRIES, ip.Node(), ip.mac.myMac)
      ensures period.Some? ==>
                var b := ip.mac.recvPayload[..];
                && period.value == ReplyPeriod(b)
                && adjusted == AdjustedClock(b, retries)
                && adjusted <= ip.mac.device.systime <= adjusted + ip.mac.device.limits.uart
    {
      hide AskedInVain, AskedFor, AskedOnce, CanAsk, Convert4BytesToInt, Convert8BytesToUll;
      appBuff[0], appBuff[1] := 83, 0;
      assert appBuff[..] == PARAMETERS_REQUEST_TEXT;
      ghost var before, n, me := ip.mac.device.log, ip.Node(), ip.mac.myMac;
      NothingAskedYet(n, me);
      assert ip.mac.device.log[|before|..] == [];
      var attempts := 0;
      while attempts < NODE_PARAM_RETRIES
        invariant Valid() && attempts <= NODE_PARAM_RETRIES && before <= ip.mac.device.log && ip.Node() == n
        invariant appBuff[..] == PARAMETERS_REQUEST_TEXT
        invariant AskedInVain(ip.mac.device.log[|before|..], attempts, n, me)
      {
        ghost var ev, head := ip.mac.device.log[|before|..], ip.mac.device.log;
        ip.mac.device.Work(ip.mac.device.limits.uart);
        var answered := AskParameters();
        ghost var round := ip.mac.device.log[|head|..];
        AskedOnceMore(ev, attempts, round, n, me, answered, ip.mac.recvPayload[..]);
        assert ip.mac.device.log[|before|..] == ev + round;
        if answered {
          var d := ip.mac.recvPayload[2 * MAC_HEADER_OFFSET..];
          assert d == AppDataOf(DataOf(ip.mac.recvPayload[..]));
          ip.mac.device.Synchronise(Convert8BytesToUll(d[4..]) + 100 * attempts + 75);
          adjusted := ip.mac.device.systime;
          ip.mac.device.Work(ip.mac.device.limits.uart);
          return Some(Convert4BytesToInt(d)), attempts, adjusted;
        }
        attempts := attempts + 1;
      }
      return None, attempts, 0;
    }

    /** One request for the parameters and, if it is acknowledged, one wait for the reply. An unanswered
        round is cut short of the timeout only by a frame that is no answer. */
    method AskParameters() returns (answered: bool)
      requires Valid() && appBuff[..] == PARAMETERS_REQUEST_TEXT
      modifies ip.mac.device, ip.mac.sendPayload, ip.mac.recvPayload, ip.ipSendPayload
      ensures Valid() && old(ip.mac.device.log) <= ip.mac.device.log
      ensures old(ip.mac.device.systime) <= ip.mac.device.systime
      ensures AskedOnce(ip.mac.device.log[|old(ip.mac.device.log)|..], ip.Node(), ip.mac.myMac, answered,
                        ip.mac.recvPayload[..])
      ensures var n, me, ev := ip.Node(), ip.mac.myMac, ip.mac.device.log[|old(ip.mac.device.log)|..];
              !answered && CanAsk(n) && ip.mac.device.systime < old(ip.mac.device.systime) + PARAMETERS_TIMEOUT ==>
                Rejected(ev, me, GatewayMac(n), ParametersRequestFrame(n, me), n)
    {
      hide Exchange, Reception, AskedAndWaited, NodeAdmits, IpPayload, MacFrame, MaxSendTime;
      answered := false;
      ghost var head, n, me := ip.mac.device.log, ip.Node(), ip.mac.myMac;
      assert appBuff[..2] == PARAMETERS_REQUEST_TEXT;
      var sent := ip.SendData(ip.gateway, appBuff, 2);
      if sent {
        ghost var middle := ip.mac.device.log;
        ip.mac.device.Work(ip.mac.device.limits.uart);
        var code, srcIp, h := ip.RecvDataAtNode(PARAMETERS_TIMEOUT);
        ghost var asked, waited := middle[|head|..], ip.mac.device.log[|middle|..];
        assert ip.mac.device.log[|head|..] == asked + waited;
        RoundEnds(asked, waited, h, me, GatewayMac(n), ParametersRequestFrame(n, me), Some(n));
        assert h < |waited| ==> waited[h] == Heard(ip.mac.recvPayload[..]);
        answered := code == Application;
      }
    }

    /** Polls the clock until it is at the start of a period. On a board that polls less often than every
        two milliseconds that may never happen; the wait is cut after `patience` periods. */
    method WaitForPeriod(period: nat, patience: nat) returns (found: bool, ghost base: nat)
      requires Valid() && period >= APP_DEFAULT_TIMESLOT_IN_MS && patience > 0
      modifies ip.mac.device`systime, ip.mac.device`spin
      ensures Valid() && old(ip.mac.device.systime) <= ip.mac.device.systime
      ensures found ==> base % period == 0 && base <= ip.mac.device.systime <= base + 1
      ensures !found ==>
                && ip.mac.device.limits.poll > 2
                && old(ip.mac.device.systime) + patience * period <= ip.mac.device.systime
      ensures found && ip.mac.device.limits.poll <= 2 ==>
                base + 2 <= old(ip.mac.device.systime) + ip.mac.device.limits.poll + period
    {
      PeriodOf(ip.mac.device.systime, 0, period);
      ghost var current := ip.mac.device.systime - ip.mac.device.systime % period;
      var until := ip.mac.device.systime + patience * period;
      PatienceIsEnough(patience, period);
      var now := ip.mac.device.Read();
      while !WithinTolerance(now % period, 1) && now < until
        invariant Valid() && old(ip.mac.device.systime) <= now == ip.mac.device.systime
        invariant ip.mac.device.limits.poll <= 2 ==> now <= current + period + 1
        invariant ip.mac.device.limits.poll <= 2 && now > current + 1 ==>
                    current + 2 <= old(ip.mac.device.systime) + ip.mac.device.limits.poll
        decreases until - ip.mac.device.systime, ip.mac.device.spin
      {
        PeriodOf(now, current, period);
        now := ip.mac.device.Read();
      }
      PeriodOf(now, current, period);
      found := WithinTolerance(now % period, 1);
      base := now - now % period;
    }

    /** From the start of a period to the clock value that triggers the report. */
    method WaitForSlot(slot: nat, ghost base: nat) returns (now: nat)
      requires Valid() && base <= ip.mac.device.systime <= base + 1
      modifies ip.mac.device`systime, ip.mac.device`spin
      ensures Valid() && old(ip.mac.device.systime) <= now == ip.mac.device.systime
      ensures base + Offset(slot) <= now <= base + Offset(slot) + Jitter(ip.mac.device.limits, slot)
    {
      var offset := Offset(slot);
      ip.mac.device.Work(ip.mac.device.limits.uart);
      var last := ip.mac.device.Read();
      now := ip.mac.device.Read();
      while now - last < offset
        invariant Valid() && old(ip.mac.device.systime) <= last <= now == ip.mac.device.systime
        invariant last <= base + 1 + ip.mac.device.limits.uart + ip.mac.device.limits.poll
        invariant now <= last + ip.mac.device.limits.poll + if slot == 0 then 0 else offset - 1
        decreases last + offset - ip.mac.device.systime, ip.mac.device.spin
      {
        now := ip.mac.device.Read();
      }
    }

    /** Waits for the slot and sends one report. */
    method SendReport(period: nat, slot: nat, ghost base: nat) returns (ok: bool, ghost r: Report)
      requires Valid() && CanAsk(ip.Node()) && period > 0 && base % period == 0
      requires base <= ip.mac.device.systime <= base + 1
      modifies appBuff, ip.mac.device, ip.mac.sendPayload, ip.mac.recvPayload, ip.ipSendPayload
      ensures Valid() && r.base == base && InSlot(r, period, slot, ip.mac.device.limits)
      ensures old(ip.mac.device.systime) <= r.start && r.done == ip.mac.device.systime && r.ok == ok
      ensures old(ip.mac.device.log) <= ip.mac.device.log
      ensures Exchange(ip.mac.device.log[|old(ip.mac.device.log)|..], ip.mac.myMac, GatewayMac(ip.Node()),
                       ReportFrame(ip.Node(), ip.mac.myMac), ok)
    {
      hide Exchange, MacFrame, IpPayload, MaxSendTime, Jitter;
      var now := WaitForSlot(slot, base);
      appBuff[0], appBuff[1] := 68, 123;
      assert appBuff[..2] == REPORT_TEXT;
      ip.mac.device.Work(ip.mac.device.limits.uart);
      ok := ip.SendData(ip.gateway, appBuff, 2);
      ghost var end := ip.mac.device.systime;
      if ok {
        ip.mac.device.Work(ip.mac.device.limits.uart);
      }
      r := Report(base, now, ok, end, ip.mac.device.systime);
    }

    /** The endless report loop, cut after `n` reports or when a wait for the next period is. */
    method ReportLoop(period: nat, slot: nat, n: nat, patience: nat, ghost base: nat) returns (ghost rs: seq<Report>)
      requires Valid() && CanAsk(ip.Node()) && period >= APP_DEFAULT_TIMESLOT_IN_MS && patience > 0
      requires base % period == 0 && base <= ip.mac.device.systime <= base + 1
      modifies appBuff, ip.mac.device, ip.mac.sendPayload, ip.mac.recvPayload, ip.ipSendPayload
      ensures Valid() && |rs| <= n && ReportRun(rs, period, slot, ip.mac.device.limits)
      ensures ip.mac.device.limits.poll <= 2 ==> |rs| == n
      ensures n > 0 ==> |rs| > 0 && rs[0].base == base
      ensures old(ip.mac.device.log) <= ip.mac.device.log
      ensures Rounds(ip.mac.device.log[|old(ip.mac.device.log)|..], Outcomes(rs), ip.mac.myMac, GatewayMac(ip.Node()),
                     ReportFrame(ip.Node(), ip.mac.myMac))
    {
      hide Rounds, Exchange, IpPayload, MacFrame;
      ghost var before, node, me := ip.mac.device.log, ip.Node(), ip.mac.myMac;
      rs := [];
      ghost var b := base;
      NoExchanges(me, GatewayMac(node), ReportFrame(node, me));
      assert ip.mac.device.log[|before|..] == [] && Outcomes(rs) == [];
      for i := 0 to n
        invariant Valid() && |rs| == i && ReportRun(rs, period, slot, ip.mac.device.limits)
        invariant b % period == 0 && b <= ip.mac.device.systime <= b + 1
        invariant before <= ip.mac.device.log && ip.Node() == node
        invariant Rounds(ip.mac.device.log[|before|..], Outcomes(rs), me, GatewayMac(node), ReportFrame(node, me))
        invariant i == 0 ==> b == base
        invariant i > 0 ==>
                    && rs[0].base == base
                    && Follows(rs[i - 1], Report(b, ip.mac.device.systime, false, 0, 0), period, ip.mac.device.limits)
      {
        ghost var ev, head := ip.mac.device.log[|before|..], ip.mac.device.log;
        var ok;
        ghost var r;
        ok, r := SendReport(period, slot, b);
        OneMoreExchange(ev, Outcomes(rs), ip.mac.device.log[|head|..], ok, me, GatewayMac(node), ReportFrame(node, me));
        assert ip.mac.device.log[|before|..] == ev + ip.mac.device.log[|head|..];
        assert Outcomes(rs + [r]) == Outcomes(rs) + [ok];
        rs := rs + [r];
        var found;
        found, b := WaitForPeriod(period, patience);
        if !found {
          return;
        }
      }
    }

    /** Joins and synchronises; the program stops at the first of the two that fails, or at a period it cannot
        divide into slots. */
    method Join() returns (outcome: Outcome, ghost t: Beginning)
      requires Valid()
      modifies ip`myIp, ip`gateway, appBuff, ip.mac.device, ip.mac.sendPayload, ip.mac.recvPayload, ip.ipSendPayload,
               ip.translation.macTable
      ensures Valid() && old(ip.mac.device.log) <= ip.mac.device.log && t.synchronised == |ip.mac.device.log|
      ensures Began(ip.mac.device.log, |old(ip.mac.device.log)|, t, outcome, ip.mac.myMac, old(ip.Node()), ip.Node())
    {
      hide Tried, Obtained, AskedInVain, AskedFor, ReplyPeriod, ReplyClock, Joined;
      ghost var before := ip.mac.device.log;
      ghost var nothing := ip.mac.recvPayload[..];
      var ok;
      ghost var requests;
      ok, requests := ip.RequestIp();
      ghost var middle, answer := ip.mac.device.log, ip.mac.recvPayload[..];
      assert middle[|before|..|middle|] == middle[|before|..];
      if !ok {
        return NotJoined, Beginning(|middle|, requests, answer, |middle|, 0, answer);
      }
      var period;
      ghost var attempts, adjusted;
      period, attempts, adjusted := SynchroniseParameters();
      ghost var reply, end := ip.mac.recvPayload[..], |ip.mac.device.log|;
      t := Beginning(|middle|, requests, answer, end, attempts, reply);
      assert ip.mac.device.log[|before|..|middle|] == middle[|before|..];
      assert ip.mac.device.log[|middle|..end] == ip.mac.device.log[|middle|..];
      if period == None {
        return NotSynchronised, t;
      }
      if period.value < APP_DEFAULT_TIMESLOT_IN_MS {
        return NoSlots, t;
      }
      return Reporting(period.value), t;
    }

    /** The whole program: join, synchronise, wait for a period, report `n` times. The slot is the last byte
        of the address modulo the number of whole slots in a period. */
    method Run(n: nat, patience: nat) returns (outcome: Outcome, ghost t: Beginning, ghost rs: seq<Report>)
      requires Valid() && patience > 0
      modifies ip`myIp, ip`gateway, appBuff, ip.mac.device, ip.mac.sendPayload, ip.mac.recvPayload, ip.ipSendPayload,
               ip.translation.macTable
      ensures Valid() && old(ip.mac.device.log) <= ip.mac.device.log
      ensures Began(ip.mac.device.log, |old(ip.mac.device.log)|, t, outcome, ip.mac.myMac, old(ip.Node()), ip.Node())
      ensures if outcome.Reporting? then
                && CanAsk(ip.Node()) && outcome.period >= APP_DEFAULT_TIMESLOT_IN_MS
                && |rs| <= n && (ip.mac.device.limits.poll <= 2 ==> |rs| == n)
                && ReportRun(rs, outcome.period, ip.myIp[3] % (outcome.period / APP_DEFAULT_TIMESLOT_IN_MS),
                             ip.mac.device.limits)
                && Rounds(ip.mac.device.log[t.synchronised..], Outcomes(rs), ip.mac.myMac, GatewayMac(ip.Node()),
                          ReportFrame(ip.Node(), ip.mac.myMac))
              else rs == [] && t.synchronised == |ip.mac.device.log|
    {
      hide Tried, Obtained, AskedInVain, ReplyPeriod, InSlot, Follows, Rounds, ReportFrame;
      ghost var before, was := ip.mac.device.log, ip.Node();
      outcome, t := Join();
      rs := [];
      if outcome.Reporting? {
        ghost var middle := ip.mac.device.log;
        NoExchanges(ip.mac.myMac, GatewayMac(ip.Node()), ReportFrame(ip.Node(), ip.mac.myMac));
        assert Outcomes(rs) == [] && middle[t.synchronised..] == [];
        var found;
        ghost var base;
        found, base := WaitForPeriod(outcome.period, patience);
        if found {
          rs := ReportLoop(outcome.period, SlotNumber(ip.myIp, outcome.period), n, patience, base);
        }
        StillBegan(middle, ip.mac.device.log, |before|, t, outcome, ip.mac.myMac, was, ip.Node());
      }
    }
  }
}
