/** The sink's main program (`APP_sink` in sink/application.c). */
module SinkApp {
  import opened Types
  import opened Codec
  import opened Framing
  import opened Board
  import opened Util
  import opened Mac
  import opened Leases
  import opened LeaseTheorems
  import opened SinkSchedule
  import opened Admission
  import opened Exchanges
  import opened Ip

  const PARAMETERS_REQUEST: Byte := 83
  const RECEIVE_TIMEOUT := 100

  /** The twelve bytes that tell a node the period and the sink's clock. */
  function Parameters(clock: nat): (s: seq<Byte>)
    ensures |s| == 12
  {
    ToBytes(APP_DEFAULT_PERIOD_IN_MS, 4) + ToBytes(clock, 8)
  }

  function MaxSweepTime(l: Limits): nat {
    2 * l.poll + l.uart + MaxCleanUpTime(l)
  }

  /** The longest one pass can take: a clean-up, a reception with an offer, a reply, the delay and the polls. */
  function MaxPassTime(l: Limits): nat {
    MaxSweepTime(l) + MaxRecvTime(l, RECEIVE_TIMEOUT) + MaxOfferTime(l) + 7 * l.uart + MaxSendTime(l) + 2 * l.poll
  }

  /** One `IP_recv_data` and what it led to: its result; how many frames it passed over before `frame`;
      the log positions where `frame` is acknowledged and where offers end; the outcomes of the offers; the
      clock in the parameter reply and whether the reply was acknowledged. */
  datatype Turn = Turn(code: Code, h: nat, frame: Buffer, acked: nat, offered: nat, offers: seq<bool>, clock: nat,
                       replied: bool)

  /** The node asks for the system parameters. */
  predicate AsksForParameters(b: Buffer) {
    AppDataOf(DataOf(b))[0] == PARAMETERS_REQUEST
  }

  /** The reply with the system parameters as it is handed to the radio. */
  function ParametersFrame(to: MacAddress, me: MacAddress, ip: IpAddress, clock: nat): Frame {
    MacFrame(to, me, IpPayload(SINK_IP, ip, Parameters(clock)))
  }

  /** The log up to the reply: a reception, acknowledged, and the offers of the address that was free if it is a
      granted request. */
  ghost predicate HeardLog(before: seq<RadioEvent>, heard: seq<RadioEvent>, t: Turn, free: int, me: MacAddress) {
    && before <= heard && |before| + t.h <= t.acked <= t.offered == |heard|
    && Reception(heard[|before|..t.acked], t.h, me, true)
    && (t.code == NoMsg <==> |before| + t.h == t.acked)
    && (t.code != NoMsg ==> heard[|before| + t.h] == Heard(t.frame) && Wanted(t.frame, me, true))
    && (if t.code == IssueSuccess then
          && 2 <= free < 255 && StopsAtSuccess(t.offers, IP_MAX_ISSUE_RETRIES)
          && Rounds(heard[t.acked..], t.offers, me, SrcOf(t.frame), IssueFrame(SrcOf(t.frame), me, SINK_IP, free))
        else t.acked == |heard|)
  }

  /** The log of a whole turn: then the parameters if it is an admitted request for them, and nothing else. */
  ghost predicate TurnLog(before: seq<RadioEvent>, after: seq<RadioEvent>, t: Turn, free: int, me: MacAddress) {
    && t.offered <= |after| && HeardLog(before, after[..t.offered], t, free, me)
    && (if t.code == Application && AsksForParameters(t.frame) then
          Exchange(after[t.offered..], me, SrcOf(t.frame),
                   ParametersFrame(SrcOf(t.frame), me, IpSrcOf(DataOf(t.frame)), t.clock), t.replied)
        else t.offered == |after|)
  }

  class Application {
    const ip: IpLayer
    const sendData: array<Byte>
    var lastClean: nat

    /** The clock at entry of the endless loop and the passes made through it so far. */
    ghost var entry: nat
    ghost var passes: seq<Pass>

    /** The program's state is what the schedule says of the passes made. */
    ghost predicate Valid()
      reads this, ip, ip.mac.device, ip.translation.macTable, ip.lastTalkedTo
    {
      && ip.SinkValid()
      && Separate()
      && OnSchedule(entry, passes, ip.history, lastClean, ip.mac.device.systime)
      && OnPace(entry, passes, MaxPassTime(ip.mac.device.limits), ip.mac.device.limits.poll)
      && ip.mac.device.systime == if |passes| == 0 then entry else passes[|passes| - 1].end
    }

    constructor (mac: MacLayer)
      requires mac.Valid()
      modifies mac.device
      ensures Valid() && passes == []
    {
      var layer := new IpLayer(SinkRole, mac);
      var start := mac.device.Read();
      ip := layer;
      sendData := new Byte[12](_ => 0);
      lastClean := start;
      entry := start;
      passes := [];
      new;
      RecordedLater(ip.State(), [], 0, start);
    }

    /** Whatever the program has done so far is a timed history with clean-ups on schedule, and its
        tables are that history's: what is proved of all such histories holds of the running sink. */
    lemma StateIsScheduledHistory()
      requires Valid()
      ensures ip.State() == At(ip.history, |ip.history|) && ip.State() == Before(entry, passes, |passes|).leases
      ensures Timed(ip.history) && Scheduled(ip.history)
    {
      RunIsScheduledHistory(entry, passes, |passes|);
    }

    /** In the running sink an address last recorded at `t` and silent since is free at every pass that
        starts later than two epochs and three of the longest passes after `t`. */
    lemma RunningSinkExpiresLeases(i: int, k: nat, n: nat)
      requires Valid() && n < |passes| && 2 <= i < 255 && SilentSince(entry, passes, i, k, n)
      ensures passes[n].start > passes[k].op.value.time + 2 * APP_EPOCH_UNTIL_CLEAN
              + 3 * (MaxPassTime(ip.mac.device.limits) + ip.mac.device.limits.poll) ==>
                At(History(entry, passes, n), |History(entry, passes, n)|).table[i] == NULL_MAC
    {
      hide History, Before, MaxPassTime, Recorded;
      PaceBoundsPasses(entry, passes, MaxPassTime(ip.mac.device.limits), ip.mac.device.limits.poll);
      SilentLeaseExpires(entry, passes, MaxPassTime(ip.mac.device.limits) + ip.mac.device.limits.poll, i, k, n);
      RunIsScheduledHistory(entry, passes, n);
    }

    /** Answers a request for the system parameters. */
    method SendParameters(to: IpAddress) returns (ok: bool)
      requires ip.Valid() && Separate() && ip.myIp == SINK_IP
      modifies sendData, ip.mac.device, ip.mac.sendPayload, ip.mac.recvPayload, ip.ipSendPayload
      ensures ip.Valid() && old(ip.mac.device.log) <= ip.mac.device.log
      ensures old(ip.mac.device.systime) <= ip.mac.device.systime
      ensures ip.mac.device.systime <= old(ip.mac.device.systime) + MaxSendTime(ip.mac.device.limits)
              + ip.mac.device.limits.uart
      ensures var mac := ResolveIp(ip.translation.macTable[..], to);
              if mac.Some? then
                Exchange(ip.mac.device.log[|old(ip.mac.device.log)|..], ip.mac.myMac, mac.value,
                         ParametersFrame(mac.value, ip.mac.myMac, to, old(ip.mac.device.systime)), ok)
              else !ok && ip.mac.device.log == old(ip.mac.device.log)
    {
      ConvertIntTo4Bytes(APP_DEFAULT_PERIOD_IN_MS, sendData, 0);
      ConvertUllTo8Bytes(ip.mac.device.systime, sendData, 4);
      assert sendData[..] == Parameters(ip.mac.device.systime);
      assert sendData[..12] == sendData[..];
      ok := ip.SendData(to, sendData, 12);
    }

    /** The clean-up test at the head of a pass. */
    method Sweep() returns (start: nat, ghost cleanEnd: nat)
      requires ip.SinkValid() && lastClean <= ip.mac.device.systime
      modifies this`lastClean, ip`history, ip.mac.device`systime, ip.mac.device`spin, ip.translation.macTable,
               ip.lastTalkedTo
      ensures ip.SinkValid() && old(ip.mac.device.systime) <= start <= cleanEnd == ip.mac.device.systime
      ensures start <= old(ip.mac.device.systime) + ip.mac.device.limits.poll
      ensures cleanEnd <= old(ip.mac.device.systime) + MaxSweepTime(ip.mac.device.limits)
      ensures ip.history == old(ip.history) + SweepOps(old(lastClean), start)
      ensures lastClean == if start > old(lastClean) + APP_EPOCH_UNTIL_CLEAN then cleanEnd else old(lastClean)
    {
      ghost var s := ip.State();
      start := ip.mac.device.Read();
      RecordedLater(s, ip.history, old(ip.mac.device.systime), start);
      if start - lastClean > APP_EPOCH_UNTIL_CLEAN {
        ip.mac.device.Work(ip.mac.device.limits.uart);
        ghost var due := ip.mac.device.systime;
        RecordedLater(s, ip.history, start, due);
        ip.CleanUp(lastClean, start);
        ghost var s' := ip.State();
        ghost var done := ip.mac.device.systime;
        var now := ip.mac.device.Read();
        RecordedLater(s', ip.history, done, now);
        lastClean := now;
      }
      cleanEnd := ip.mac.device.systime;
    }

    /** One pass through the loop: a clean-up if one is due, then one turn, which becomes the pass's operation.
        `swept` is the table between the two. */
    method OnePass() returns (ghost t: Turn, ghost swept: Table)
      requires Valid()
      modifies this`lastClean, this`passes, sendData, ip`history, ip.mac.device, ip.mac.sendPayload,
               ip.mac.recvPayload, ip.ipSendPayload, ip.translation.macTable, ip.lastTalkedTo
      ensures Valid() && |passes| == |old(passes)| + 1 && old(passes) <= passes && entry == old(entry)
      ensures TurnLog(old(ip.mac.device.log), ip.mac.device.log, t, FirstFree(swept), ip.mac.myMac)
      ensures Understood(t, passes[|old(passes)|].op, swept, ip.translation.macTable[..])
    {
      hide Recorded, TurnLog, SweepOps, Run, Before, History, OnPace, Understood;
      var start;
      ghost var cleanEnd, free, op;
      start, cleanEnd := Sweep();
      swept := ip.translation.macTable[..];
      t, free, op := ReceiveAndReply();
      ghost var p := Pass(start, cleanEnd, op, ip.mac.device.systime);
      StaysOnSchedule(entry, passes, p, old(ip.history), old(lastClean), old(ip.mac.device.systime));
      OnPaceAppend(entry, passes, p, MaxPassTime(ip.mac.device.limits), ip.mac.device.limits.poll);
      passes := passes + [p];
    }

    ghost predicate Separate() {
      sendData.Length == 12 && sendData != ip.ipSendPayload && sendData != ip.mac.sendPayload
        && sendData != ip.mac.recvPayload
    }

    /** The rest of a pass: receiving, answering and the closing delay. `free` was the smallest free entry. */
    method ReceiveAndReply() returns (ghost t: Turn, ghost free: int, ghost op: Option<Op>)
      requires ip.SinkValid() && Separate()
      modifies sendData, ip`history, ip.mac.device, ip.mac.sendPayload, ip.mac.recvPayload, ip.ipSendPayload,
               ip.translation.macTable, ip.lastTalkedTo
      ensures ip.SinkValid() && old(ip.mac.device.systime) < ip.mac.device.systime
      ensures MaxSweepTime(ip.mac.device.limits) + ip.mac.device.systime
              <= old(ip.mac.device.systime) + MaxPassTime(ip.mac.device.limits)
      ensures free == FirstFree(old(ip.State()).table)
      ensures TurnLog(old(ip.mac.device.log), ip.mac.device.log, t, free, ip.mac.myMac)
      ensures t.code == NoMsg ==> old(ip.mac.device.systime) + RECEIVE_TIMEOUT < ip.mac.device.systime
      ensures Understood(t, op, old(ip.State()).table, ip.translation.macTable[..])
      ensures op.Some? ==> !op.value.CleanUp? && old(ip.mac.device.systime) <= op.value.time < ip.mac.device.systime
      ensures ip.history == old(ip.history) + if op.Some? then [op.value] else []
    {
      hide Recorded, ResolveIp, ParametersFrame, Exchange, HeardLog, Understood;
      hide MaxSweepTime, MaxRecvTime, MaxOfferTime, MaxSendTime;
      var code, srcIp;
      code, srcIp, t, free, op := ReceiveTurn();
      ghost var s, heard, time := ip.State(), ip.mac.device.log, ip.mac.device.systime;
      ghost var clock, replied := React(code, srcIp, t.frame);
      SameBeforeReply(old(ip.mac.device.log), heard, t, clock, replied, free, ip.mac.myMac);
      t := t.(clock := clock, replied := replied);
      assert ip.mac.device.log[..|heard|] == heard;
      Delay(ip.mac.device, 1);
      RecordedLater(s, ip.history, time, ip.mac.device.systime);
    }

    lemma SameBeforeReply(before: seq<RadioEvent>, heard: seq<RadioEvent>, t: Turn, clock: nat, replied: bool,
                          free: int, me: MacAddress)
      requires HeardLog(before, heard, t, free, me)
      ensures HeardLog(before, heard, t.(clock := clock, replied := replied), free, me) && t.offered == |heard|
      ensures forall op, was, now :: Understood(t, op, was, now) ==>
                Understood(t.(clock := clock, replied := replied), op, was, now)
    {
    }

    /** The turn is what the frame means for the table: the operation, the result, and the lease granted. */
    ghost predicate Understood(t: Turn, op: Option<Op>, was: Table, now: Table) {
      if t.code == NoMsg then op == None && now == was
      else
        && (exists time: nat :: op == SinkOp(t.frame, ip.mac.myMac, time))
        && t.code == SinkCode(was, t.frame, ip.mac.myMac)
        && (if t.code == IssueSuccess then
              2 <= FirstFree(was) < 255 && now == was[FirstFree(was) := SrcOf(t.frame)]
            else now == was)
    }

    /** One reception and what it leads to before any reply. */
    method ReceiveTurn() returns (code: Code, srcIp: IpAddress, ghost t: Turn, ghost free: int, ghost op: Option<Op>)
      requires ip.SinkValid()
      modifies ip`history, ip.mac.device, ip.mac.sendPayload, ip.mac.recvPayload, ip.ipSendPayload,
               ip.translation.macTable, ip.lastTalkedTo
      ensures ip.SinkValid() && old(ip.mac.device.systime) <= ip.mac.device.systime
      ensures ip.mac.device.systime
              <= old(ip.mac.device.systime) + MaxRecvTime(ip.mac.device.limits, RECEIVE_TIMEOUT)
                 + ip.mac.device.limits.uart + MaxOfferTime(ip.mac.device.limits)
      ensures code == t.code && free == FirstFree(old(ip.State()).table)
      ensures HeardLog(old(ip.mac.device.log), ip.mac.device.log, t, free, ip.mac.myMac)
      ensures t.code == NoMsg ==> old(ip.mac.device.systime) + RECEIVE_TIMEOUT <= ip.mac.device.systime
      ensures Understood(t, op, old(ip.State()).table, ip.translation.macTable[..])
      ensures op.Some? ==> !op.value.CleanUp? && old(ip.mac.device.systime) <= op.value.time <= ip.mac.device.systime
      ensures ip.history == old(ip.history) + if op.Some? then [op.value] else []
      ensures code == Code.Application ==>
                && ip.mac.recvPayload[..] == t.frame && srcIp == IpSrcOf(DataOf(t.frame))
                && ResolveIp(ip.translation.macTable[..], srcIp) == Some(SrcOf(t.frame))
    {
      hide Recorded, Wanted, ResolveIp, KindOf, Reception, Rounds, IssueFrame, SinkOp, SinkCode;
      hide MaxRecvTime, MaxOfferTime;
      ghost var table := ip.State().table;
      free := FirstFree(table);
      FirstMatchIsLeast(table, NULL_MAC, 2);
      ghost var h, frame, acked, offers;
      code, srcIp, h, frame, acked, offers := ip.RecvDataAtSink(RECEIVE_TIMEOUT);
      op := if code == NoMsg then None else SinkOp(frame, ip.mac.myMac, ip.mac.device.systime);
      OperationTime(frame, ip.mac.myMac, ip.mac.device.systime);
      t := Turn(code, h, frame, acked, |ip.mac.device.log|, offers, 0, false);
    }

    /** What the program does with the outcome of a reception. */
    method React(result: Code, srcIp: IpAddress, ghost frame: Buffer) returns (ghost clock: nat, ghost replied: bool)
      requires ip.Valid() && Separate() && ip.myIp == SINK_IP
      requires result == Code.Application ==>
                 && ip.mac.recvPayload[..] == frame && srcIp == IpSrcOf(DataOf(frame))
                 && ResolveIp(ip.translation.macTable[..], srcIp) == Some(SrcOf(frame))
      modifies sendData, ip.mac.device, ip.mac.sendPayload, ip.mac.recvPayload, ip.ipSendPayload
      ensures ip.Valid() && old(ip.mac.device.log) <= ip.mac.device.log
      ensures old(ip.mac.device.systime) <= ip.mac.device.systime
      ensures ip.mac.device.systime <= old(ip.mac.device.systime) + MaxSendTime(ip.mac.device.limits)
              + 6 * ip.mac.device.limits.uart
      ensures if result == Code.Application && AsksForParameters(frame) then
                && old(ip.mac.device.systime) <= clock <= ip.mac.device.systime
                && Exchange(ip.mac.device.log[|old(ip.mac.device.log)|..], ip.mac.myMac, SrcOf(frame),
                            ParametersFrame(SrcOf(frame), ip.mac.myMac, srcIp, clock), replied)
              else ip.mac.device.log == old(ip.mac.device.log)
    {
      hide ResolveIp, MaxSendTime, Exchange, ParametersFrame;
      clock, replied := 0, false;
      if result == Code.Application {
        clock, replied := Reply(srcIp, frame);
      } else if result != NoMsg {
        ip.mac.device.Work(ip.mac.device.limits.uart);
      }
    }

    /** What the program does with an application message, still in the receive buffer: a request for the
        parameters is answered with the clock value read for it, anything else only reported. */
    method Reply(srcIp: IpAddress, ghost frame: Buffer) returns (ghost clock: nat, ghost replied: bool)
      requires ip.Valid() && Separate() && ip.myIp == SINK_IP
      requires ip.mac.recvPayload[..] == frame && srcIp == IpSrcOf(DataOf(frame))
      requires ResolveIp(ip.translation.macTable[..], srcIp) == Some(SrcOf(frame))
      modifies sendData, ip.mac.device, ip.mac.sendPayload, ip.mac.recvPayload, ip.ipSendPayload
      ensures ip.Valid() && old(ip.mac.device.log) <= ip.mac.device.log
      ensures old(ip.mac.device.systime) <= ip.mac.device.systime
      ensures ip.mac.device.systime <= old(ip.mac.device.systime) + MaxSendTime(ip.mac.device.limits)
              + 6 * ip.mac.device.limits.uart
      ensures if AsksForParameters(frame) then
                && old(ip.mac.device.systime) <= clock <= ip.mac.device.systime
                && Exchange(ip.mac.device.log[|old(ip.mac.device.log)|..], ip.mac.myMac, SrcOf(frame),
                            ParametersFrame(SrcOf(frame), ip.mac.myMac, srcIp, clock), replied)
              else ip.mac.device.log == old(ip.mac.device.log)
    {
      hide MaxSendTime, Exchange, ParametersFrame;
      clock, replied := 0, false;
      ip.mac.device.Work(3 * ip.mac.device.limits.uart);
      assert AppDataOf(DataOf(frame))[0] == ip.mac.recvPayload[40];
      if ip.mac.recvPayload[40] == PARAMETERS_REQUEST {
        ip.mac.device.Work(ip.mac.device.limits.uart);
        clock := ip.mac.device.systime;
        var sent := SendParameters(srcIp);
        replied := sent;
      }
      ip.mac.device.Work(ip.mac.device.limits.uart);
    }

    /** Any number of passes through the endless loop. */
    method Loop(n: nat)
      requires Valid()
      modifies this, sendData, ip`history, ip.mac.device, ip.mac.sendPayload, ip.mac.recvPayload, ip.ipSendPayload,
               ip.translation.macTable, ip.lastTalkedTo
      ensures Valid() && |passes| == |old(passes)| + n && old(passes) <= passes && entry == old(entry)
    {
      for i := 0 to n
        invariant Valid() && |passes| == |old(passes)| + i && old(passes) <= passes && entry == old(entry)
      {
        ghost var t, swept := OnePass();
      }
    }
  }
}
