/** The IP layer of both programs (sink/ip.c and node/ip.c), over the MAC layer and the translation table. */
module Ip {
  import opened Types
  import opened Counting
  import opened Framing
  import opened Board
  import opened Util
  import opened Mac
  import opened Leases
  import opened Translation
  import opened Admission
  import opened Exchanges

  /** The frame that offers table index `i` to a station. */
  function IssueFrame(dst: MacAddress, me: MacAddress, myIp: IpAddress, i: Byte): Frame {
    MacFrame(dst, me, IpPayload(myIp, AddressOf(i), []))
  }

  /** The longest offering an address can take: ten failing rounds. */
  function MaxOfferTime(l: Limits): nat {
    Times(IP_MAX_ISSUE_RETRIES, MaxSendTime(l) + 2 * l.poll)
  }

  /** The longest a clean-up can take: three console lines for each of 254 entries. */
  function MaxCleanUpTime(l: Limits): nat {
    Times(254, 3 * l.uart)
  }

  class IpLayer {
    const role: Role
    const mac: MacLayer
    const translation: TranslationTable
    const lastTalkedTo: array<nat>
    const ipSendPayload: array<Byte>
    var myIp: IpAddress
    var gateway: IpAddress

    /** Everything that happened to the leases since start-up. */
    ghost var history: seq<Op>

    ghost predicate Valid()
      reads mac.device
    {
      && mac.Valid() && translation.Valid()
      && lastTalkedTo.Length == TABLE_SIZE
      && ipSendPayload.Length == IP_SEND_PAYLOAD_SIZE
      && ipSendPayload != mac.sendPayload && ipSendPayload != mac.recvPayload
    }

    ghost function State(): Leases
      requires Valid()
      reads mac.device, translation.macTable, lastTalkedTo
    {
      Leases(translation.macTable[..], lastTalkedTo[..])
    }

    /** The sink's leases are what its history makes of the initial table. */
    ghost predicate SinkValid()
      reads this, mac.device, translation.macTable, lastTalkedTo
    {
      && Valid() && role == SinkRole && myIp == SINK_IP && gateway == SINK_IP
      && Recorded(State(), history, mac.device.systime)
    }

    constructor (role: Role, mac: MacLayer)
      requires mac.Valid()
      ensures Valid() && this.role == role && this.mac == mac && State() == Initial() && history == []
      ensures role == SinkRole ==> SinkValid()
      ensures fresh(translation.macTable) && fresh(lastTalkedTo) && fresh(ipSendPayload)
    {
      this.role := role;
      this.mac := mac;
      translation := new TranslationTable();
      lastTalkedTo := new nat[TABLE_SIZE](_ => 0);
      ipSendPayload := new Byte[IP_SEND_PAYLOAD_SIZE](_ => 0);
      myIp := if role == SinkRole then SINK_IP else [0, 0, 0, 0];
      gateway := if role == SinkRole then SINK_IP else [0, 0, 0, 0];
      history := [];
    }

    method AddHeaderToSendPayload(destIp: IpAddress)
      requires Valid()
      modifies ipSendPayload
      ensures ipSendPayload[..] == old(ipSendPayload[..12]) + myIp + destIp + old(ipSendPayload[20..])
    {
      for i := 12 to 16
        invariant forall j :: 12 <= j < i ==> ipSendPayload[j] == myIp[j - 12]
        invariant forall j :: 0 <= j < 12 || i <= j < ipSendPayload.Length ==> ipSendPayload[j] == old(ipSendPayload[j])
      {
        ipSendPayload[i] := myIp[i - 12];
      }
      for i := 16 to 20
        invariant forall j :: 12 <= j < 16 ==> ipSendPayload[j] == myIp[j - 12]
        invariant forall j :: 16 <= j < i ==> ipSendPayload[j] == destIp[j - 16]
        invariant forall j :: 0 <= j < 12 || i <= j < ipSendPayload.Length ==> ipSendPayload[j] == old(ipSendPayload[j])
      {
        ipSendPayload[i] := destIp[i - 16];
      }
    }

    method AddDataToSendPayload(data: array<Byte>, dataSize: nat)
      requires Valid() && data != ipSendPayload && dataSize <= data.Length && dataSize + 20 < IP_SEND_PAYLOAD_SIZE
      modifies ipSendPayload
      ensures ipSendPayload[..] == old(ipSendPayload[..20]) + data[..dataSize] + old(ipSendPayload[20 + dataSize..])
    {
      for i := 0 to dataSize
        invariant forall j :: 0 <= j < i ==> ipSendPayload[20 + j] == data[j]
        invariant forall j :: 0 <= j < 20 || 20 + i <= j < ipSendPayload.Length ==>
                    ipSendPayload[j] == old(ipSendPayload[j])
      {
        ipSendPayload[20 + i] := data[i];
      }
    }

    /** Offers the smallest free address to `dstMac` and records the lease. The final guard compares the
        round counter with a timeout constant that it can never reach, so a free address is recorded
        whether or not the station acknowledged it. */
    method IssueIp(dstMac: MacAddress) returns (ok: bool, ghost offers: seq<bool>)
      requires SinkValid()
      modifies this`history, mac.device, mac.sendPayload, mac.recvPayload, ipSendPayload, translation.macTable,
               lastTalkedTo
      ensures SinkValid()
      ensures old(mac.device.systime) <= mac.device.systime <= old(mac.device.systime) + MaxOfferTime(mac.device.limits)
      ensures history == old(history) + [Request(mac.device.systime, dstMac)]
      ensures ok <==> exists i :: 2 <= i < 255 && old(translation.macTable[i]) == NULL_MAC
      ensures ok ==>
                exists i :: 2 <= i < 255 && old(translation.macTable[i]) == NULL_MAC
                  && (forall j :: 2 <= j < i ==> old(translation.macTable[j]) != NULL_MAC)
                  && translation.macTable[..] == old(translation.macTable[..])[i := dstMac]
                  && lastTalkedTo[..] == old(lastTalkedTo[..])[i := mac.device.systime]
      ensures ok ==>
                && FirstFree(old(translation.macTable[..])) != -1 && old(mac.device.log) <= mac.device.log
                && Offered(mac.device.log[|old(mac.device.log)|..], offers, dstMac,
                           FirstFree(old(translation.macTable[..])))
      ensures !ok ==> State() == old(State()) && mac.device.log == old(mac.device.log)
    {
      ghost var s := State();
      hide Rounds, IssueFrame, Recorded, MaxOfferTime;
      offers := [];
      var last8BitOfFreeIp := translation.FindFreeIp();
      FirstMatchIsLeast(translation.macTable[..], NULL_MAC, 2);
      if last8BitOfFreeIp == -1 {
        Note(s, Request(mac.device.systime, dstMac), old(mac.device.systime));
        return false, offers;
      }
      var retries;
      retries, offers := OfferAddress(dstMac, last8BitOfFreeIp);
      if retries < IP_ISSUE_GUARD {
        translation.AddIpMacEntry(last8BitOfFreeIp, dstMac);
        lastTalkedTo[last8BitOfFreeIp] := mac.device.systime;
        Note(s, Request(mac.device.systime, dstMac), old(mac.device.systime));
        return true, offers;
      } else {
        assert false;
      }
    }

    method BuildHeader(destIp: IpAddress)
      requires Valid()
      modifies ipSendPayload
      ensures ipSendPayload[..] == IpPayload(myIp, destIp, [])
    {
      ClearPayload(ipSendPayload);
      AddHeaderToSendPayload(destIp);
    }

    /** The offer of index `i` is sent to a station in rounds with the outcomes `offers`, the last of which is
        the first acknowledged one or the tenth. */
    ghost predicate Offered(ev: seq<RadioEvent>, offers: seq<bool>, dstMac: MacAddress, i: Byte) {
      && StopsAtSuccess(offers, IP_MAX_ISSUE_RETRIES)
      && Rounds(ev, offers, mac.myMac, dstMac, IssueFrame(dstMac, mac.myMac, SINK_IP, i))
    }

    /** Sends the offer of an address in rounds of up to ten transmissions, until one is acknowledged. */
    method OfferAddress(dstMac: MacAddress, last8Bit: Byte) returns (retries: nat, ghost offers: seq<bool>)
      requires Valid() && myIp == SINK_IP
      modifies mac.device, mac.sendPayload, mac.recvPayload, ipSendPayload
      ensures Valid() && retries <= IP_MAX_ISSUE_RETRIES
      ensures old(mac.device.systime) <= mac.device.systime <= old(mac.device.systime) + MaxOfferTime(mac.device.limits)
      ensures old(mac.device.systime) + retries * (9 * MAC_ACK_DEFAULT_WAIT_TIME + 1) <= mac.device.systime
      ensures old(mac.device.log) <= mac.device.log
      ensures Offered(mac.device.log[|old(mac.device.log)|..], offers, dstMac, last8Bit)
      ensures |offers| == if retries < IP_MAX_ISSUE_RETRIES then retries + 1 else retries
      ensures offers[|offers| - 1] <==> retries < IP_MAX_ISSUE_RETRIES
    {
      hide Exchange, Rounds, MacFrame, IpPayload, MaxSendTime;
      var assignedIp := AddressOf(last8Bit);
      BuildHeader(assignedIp);
      ghost var before, frame := mac.device.log, IssueFrame(dstMac, mac.myMac, SINK_IP, last8Bit);
      NoExchanges(mac.myMac, dstMac, frame);
      offers := [];
      assert mac.device.log[|before|..] == [];
      retries := 0;
      while retries < IP_MAX_ISSUE_RETRIES
        invariant Valid() && retries <= IP_MAX_ISSUE_RETRIES && old(mac.device.systime) <= mac.device.systime
        invariant ipSendPayload[..] == IpPayload(SINK_IP, assignedIp, [])
        invariant |offers| == retries && forall i :: 0 <= i < retries ==> !offers[i]
        invariant before <= mac.device.log
        invariant Rounds(mac.device.log[|before|..], offers, mac.myMac, dstMac, frame)
        invariant old(mac.device.systime) + retries * (9 * MAC_ACK_DEFAULT_WAIT_TIME + 1) <= mac.device.systime
        invariant mac.device.systime <= old(mac.device.systime)
                  + Times(retries, MaxSendTime(mac.device.limits) + 2 * mac.device.limits.poll)
      {
        ghost var ev, middle := mac.device.log[|before|..], mac.device.log;
        assert ipSendPayload[..IP_SEND_PAYLOAD_SIZE] == ipSendPayload[..];
        var sent := mac.SendData(dstMac, ipSendPayload, IP_SEND_PAYLOAD_SIZE);
        OneMoreExchange(ev, offers, mac.device.log[|middle|..], sent, mac.myMac, dstMac, frame);
        assert mac.device.log[|before|..] == ev + mac.device.log[|middle|..];
        offers := offers + [sent];
        if sent {
          TimesMonotone(retries + 1, IP_MAX_ISSUE_RETRIES, MaxSendTime(mac.device.limits) + 2 * mac.device.limits.poll);
          return;
        }
        retries := retries + 1;
        Delay(mac.device, 1);
      }
    }

    /** Sends application data; an address without a table entry is reported on the console instead. */
    method SendData(dstIp: IpAddress, data: array<Byte>, dataSize: nat) returns (ok: bool)
      requires Valid() && data != ipSendPayload && dataSize <= data.Length && dataSize + 20 < IP_SEND_PAYLOAD_SIZE
      modifies mac.device, mac.sendPayload, mac.recvPayload, ipSendPayload
      ensures Valid() && old(mac.device.log) <= mac.device.log
      ensures old(mac.device.systime) <= mac.device.systime
      ensures mac.device.systime <= old(mac.device.systime) + MaxSendTime(mac.device.limits) + mac.device.limits.uart
      ensures ResolveIp(translation.macTable[..], dstIp).Some? ==>
                && old(mac.device.systime) + (if ok then mac.device.limits.minTx else 9 * MAC_ACK_DEFAULT_WAIT_TIME)
                    <= mac.device.systime
                && mac.device.systime + (if ok then SuccessMargin(mac.device.limits) else 0)
                    <= old(mac.device.systime) + MaxSendTime(mac.device.limits)
      ensures var to := ResolveIp(translation.macTable[..], dstIp);
              if to.Some? then
                Exchange(mac.device.log[|old(mac.device.log)|..], mac.myMac, to.value,
                         MacFrame(to.value, mac.myMac, IpPayload(myIp, dstIp, old(data[..dataSize]))), ok)
              else !ok && mac.device.log == old(mac.device.log)
    {
      ClearPayload(ipSendPayload);
      AddHeaderToSendPayload(dstIp);
      AddDataToSendPayload(data, dataSize);
      assert ipSendPayload[..] == IpPayload(myIp, dstIp, data[..dataSize]);
      assert ipSendPayload[..IP_SEND_PAYLOAD_SIZE] == ipSendPayload[..];
      var resolved := translation.ResolveIpToMac(dstIp);
      if resolved.Some? {
        ok := mac.SendData(resolved.value, ipSendPayload, IP_SEND_PAYLOAD_SIZE);
      } else {
        mac.device.Work(mac.device.limits.uart);
        ok := false;
      }
    }

    /** The leases after `code` was returned for `frame`: a free entry goes to the sender exactly when the
        broadcast begins with the eight bytes of the request, the smallest one, and no other entry changes. */
    twostate predicate IssuedByFrame(code: Code, frame: Buffer)
      requires old(Valid()) && Valid()
      reads this, mac.device, translation.macTable
    {
      var was, now := old(translation.macTable[..]), translation.macTable[..];
      var free := exists i :: 2 <= i < 255 && was[i] == NULL_MAC;
      var granted := DstOf(frame) != mac.myMac && REQUEST_STRING <= frame[20..] && free;
      && (code == IssueSuccess <==> granted)
      && (if granted then
            exists i :: 2 <= i < 255 && was[i] == NULL_MAC && (forall j :: 2 <= j < i ==> was[j] != NULL_MAC)
              && now == was[i := SrcOf(frame)]
          else now == was)
    }

    /** One `IP_recv_data` of the sink. `h` counts the receptions passed over before `frame`, the
        buffer that ended the wait; it is acknowledged by `mid`, and offers with these outcomes may follow.
        `frame` is meaningful unless the result is `NoMsg`. */
    method RecvDataAtSink(timeout: nat)
      returns (code: Code, srcIp: IpAddress, ghost h: nat, ghost frame: Buffer, ghost mid: nat, ghost offers: seq<bool>)
      requires SinkValid()
      modifies this`history, mac.device, mac.sendPayload, mac.recvPayload, ipSendPayload, translation.macTable,
               lastTalkedTo
      ensures SinkValid() && old(mac.device.log) <= mac.device.log && old(mac.device.systime) <= mac.device.systime
      ensures mac.device.systime <= old(mac.device.systime) + MaxRecvTime(mac.device.limits, timeout)
              + mac.device.limits.uart + MaxOfferTime(mac.device.limits)
      ensures code == NoMsg ==> old(mac.device.systime) + timeout <= mac.device.systime
      ensures |old(mac.device.log)| + h <= mid <= |mac.device.log|
      ensures Reception(mac.device.log[|old(mac.device.log)|..mid], h, mac.myMac, true)
      ensures code == NoMsg <==> |old(mac.device.log)| + h == mid
      ensures code == NoMsg ==> State() == old(State()) && history == old(history)
      ensures code != NoMsg ==>
                && mac.device.log[|old(mac.device.log)| + h] == Heard(frame)
                && Wanted(frame, mac.myMac, true)
                && code == SinkCode(old(State()).table, frame, mac.myMac)
                && IssuedByFrame(code, frame)
                && history == old(history)
                    + (var op := SinkOp(frame, mac.myMac, mac.device.systime); if op.Some? then [op.value] else [])
      ensures if code == IssueSuccess then
                && FirstFree(old(State()).table) != -1
                && Offered(mac.device.log[mid..], offers, SrcOf(frame), FirstFree(old(State()).table))
              else mid == |mac.device.log|
      ensures code == Application ==> mac.recvPayload[..] == frame && srcIp == IpSrcOf(DataOf(frame))
      ensures code == Application ==> ResolveIp(translation.macTable[..], srcIp) == Some(SrcOf(frame))
    {
      hide SinkCode, SinkOp, Recorded, MaxOfferTime, MaxRecvTime, Reception, Offered, Wanted, ResolveIp;
      var kind, srcMac;
      kind, srcMac, h := Listen(timeout);
      ghost var middle := mac.device.log;
      mid := |middle|;
      frame := mac.recvPayload[..];
      offers := [];
      if kind == Nothing {
        code, srcIp := NoMsg, [0, 0, 0, 0];
      } else {
        code, srcIp, offers := Dispatch(kind, srcMac);
        CodeMeaning(old(State()).table, frame, mac.myMac);
      }
      assert mac.device.log[|old(mac.device.log)|..mid] == middle[|old(mac.device.log)|..];
    }

    /** Waiting for a frame, which is acknowledged, leaves the leases alone. */
    method Listen(timeout: nat) returns (kind: Kind, srcMac: MacAddress, ghost h: nat)
      requires SinkValid()
      modifies mac.device, mac.sendPayload, mac.recvPayload
      ensures SinkValid() && old(mac.device.log) <= mac.device.log
      ensures old(mac.device.systime) <= mac.device.systime
      ensures mac.device.systime <= old(mac.device.systime) + MaxRecvTime(mac.device.limits, timeout)
      ensures kind == Nothing ==> old(mac.device.systime) + timeout <= mac.device.systime
      ensures Reception(mac.device.log[|old(mac.device.log)|..], h, mac.myMac, true)
      ensures |old(mac.device.log)| + h <= |mac.device.log|
      ensures kind == Nothing <==> |old(mac.device.log)| + h == |mac.device.log|
      ensures kind != Nothing ==>
                && mac.device.log[|old(mac.device.log)| + h] == Heard(mac.recvPayload[..])
                && Wanted(mac.recvPayload[..], mac.myMac, true)
                && kind == KindOf(mac.recvPayload[..], mac.myMac) && srcMac == SrcOf(mac.recvPayload[..])
    {
      ghost var s := State();
      kind, srcMac, h := mac.RecvData(timeout, true);
      RecordedLater(s, history, old(mac.device.systime), mac.device.systime);
    }

    /** What the sink does with the frame now in the receive buffer. */
    method Dispatch(kind: Kind, srcMac: MacAddress) returns (code: Code, srcIp: IpAddress, ghost offers: seq<bool>)
      requires SinkValid() && kind == KindOf(mac.recvPayload[..], mac.myMac) != Nothing
      requires srcMac == SrcOf(mac.recvPayload[..])
      modifies this`history, mac.device, mac.sendPayload, mac.recvPayload, ipSendPayload, translation.macTable,
               lastTalkedTo
      ensures SinkValid() && old(mac.device.log) <= mac.device.log
      ensures old(mac.device.systime) <= mac.device.systime
      ensures mac.device.systime <= old(mac.device.systime) + mac.device.limits.uart + MaxOfferTime(mac.device.limits)
      ensures code == SinkCode(old(State()).table, old(mac.recvPayload[..]), mac.myMac)
      ensures IssuedByFrame(code, old(mac.recvPayload[..]))
      ensures var op := SinkOp(old(mac.recvPayload[..]), mac.myMac, mac.device.systime);
              history == old(history) + if op.Some? then [op.value] else []
      ensures if code == IssueSuccess then
                && FirstFree(old(State()).table) != -1
                && Offered(mac.device.log[|old(mac.device.log)|..], offers, srcMac, FirstFree(old(State()).table))
              else mac.device.log == old(mac.device.log)
      ensures code == Application ==>
                mac.recvPayload[..] == old(mac.recvPayload[..]) && srcIp == IpSrcOf(DataOf(mac.recvPayload[..]))
      ensures code == Application ==> ResolveIp(translation.macTable[..], srcIp) == Some(srcMac)
    {
      hide Recorded, MaxOfferTime, ResolveMac, FirstMatch, SameString, Offered;
      srcIp := [0, 0, 0, 0];
      offers := [];
      var resolved := translation.ResolveMacToIp(srcMac);
      var d := mac.recvPayload[MAC_HEADER_OFFSET..];
      assert d == DataOf(mac.recvPayload[..]);
      RequestIsPrefix(d);
      if kind == ForMe {
        code, srcIp := AdmitMessage(srcMac, resolved, d);
      } else if IsRequest(d) {
        FirstMatchIsLeast(State().table, NULL_MAC, 2);
        Announce();
        var issued;
        issued, offers := IssueIp(srcMac);
        code := if issued then IssueSuccess else IssueFail;
      } else {
        code := Invalid;
      }
    }

    /** One console line of the sink. */
    method Announce()
      requires SinkValid()
      modifies mac.device`systime, mac.device`spin
      ensures SinkValid()
      ensures old(mac.device.systime) <= mac.device.systime <= old(mac.device.systime) + mac.device.limits.uart
    {
      ghost var s := State();
      mac.device.Work(mac.device.limits.uart);
      RecordedLater(s, history, old(mac.device.systime), mac.device.systime);
    }

    /** The checks on a unicast frame; a frame that passes refreshes the lease of its source address. */
    method AdmitMessage(srcMac: MacAddress, resolved: Option<IpAddress>, d: seq<Byte>)
      returns (code: Code, srcIp: IpAddress)
      requires SinkValid() && |d| >= 20 && resolved == ResolveMac(translation.macTable[..], srcMac)
      modifies this`history, mac.device`systime, mac.device`spin, lastTalkedTo
      ensures SinkValid()
      ensures old(mac.device.systime) <= mac.device.systime <= old(mac.device.systime) + mac.device.limits.uart
      ensures history == old(history) + [Message(mac.device.systime, srcMac, IpSrcOf(d), IpDstOf(d))]
      ensures code == if Admits(translation.macTable[..], srcMac, IpSrcOf(d), IpDstOf(d)) then Application else Invalid
      ensures code == Application ==> srcIp == IpSrcOf(d)
    {
      ghost var s := State();
      code := Invalid;
      srcIp := [0, 0, 0, 0];
      if resolved.Some? {
        srcIp := IpSrcOf(d);
        var dstIp := IpDstOf(d);
        var resolvedMac := translation.ResolveIpToMac(srcIp);
        mac.device.Work(mac.device.limits.uart);
        if resolvedMac.Some? && resolvedMac.value == srcMac && dstIp == myIp {
          lastTalkedTo[srcIp[3]] := mac.device.systime;
          code := Application;
        }
      }
      Note(s, Message(mac.device.systime, srcMac, IpSrcOf(d), IpDstOf(d)), old(mac.device.systime));
    }

    function Node(): NodeState
      requires Valid()
      reads this, mac.device, translation.macTable
    {
      NodeState(translation.macTable[..], myIp, gateway)
    }

    /** One `IP_recv_data` of a node. */
    method RecvDataAtNode(timeout: nat) returns (code: Code, srcIp: IpAddress, ghost h: nat)
      requires Valid()
      modifies mac.device, mac.sendPayload, mac.recvPayload
      ensures Valid() && old(mac.device.systime) <= mac.device.systime && old(mac.device.log) <= mac.device.log
      ensures Reception(mac.device.log[|old(mac.device.log)|..], h, mac.myMac, false)
      ensures |old(mac.device.log)| + h <= |mac.device.log|
      ensures |old(mac.device.log)| + h == |mac.device.log| ==> old(mac.device.systime) + timeout <= mac.device.systime
      ensures |old(mac.device.log)| + h < |mac.device.log| ==>
                mac.device.log[|old(mac.device.log)| + h] == Heard(mac.recvPayload[..])
      ensures var heard := |old(mac.device.log)| + h < |mac.device.log|;
              code == if heard && NodeAdmits(Node(), mac.recvPayload[..], mac.myMac) then Application else NoMsg
      ensures code == Application ==>
                |old(mac.device.log)| + h < |mac.device.log| && srcIp == IpSrcOf(DataOf(mac.recvPayload[..]))
    {
      var kind, srcMac;
      kind, srcMac, h := mac.RecvData(timeout, false);
      srcIp := [0, 0, 0, 0];
      code := NoMsg;
      var resolved := translation.ResolveMacToIp(srcMac);
      var d := mac.recvPayload[MAC_HEADER_OFFSET..];
      assert d == DataOf(mac.recvPayload[..]);
      if kind == ForMe {
        if resolved.Some? {
          if gateway == resolved.value {
            srcIp := IpSrcOf(d);
            var dstIp := IpDstOf(d);
            if dstIp == myIp {
              if srcIp == resolved.value {
                code := Application;
              }
            }
          }
        }
      }
      if code == NoMsg {
        mac.device.Work(mac.device.limits.uart);
      }
    }

    /** A node asks for an address and takes the first frame to it that follows an acknowledged request for the
        answer; after twenty rounds without one it gives up. */
    method RequestIp() returns (ok: bool, ghost rounds: nat)
      requires Valid()
      modifies this`myIp, this`gateway, mac.device, mac.sendPayload, mac.recvPayload, translation.macTable
      ensures Valid() && old(mac.device.systime) <= mac.device.systime && old(mac.device.log) <= mac.device.log
      ensures ok <==> rounds < NODE_REQUEST_RETRIES
      ensures var ev := mac.device.log[|old(mac.device.log)|..];
              if ok then
                Obtained(ev, rounds, mac.myMac, BROADCAST_MAC, AddressRequestFrame(), None, mac.recvPayload[..])
              else Tried(ev, NODE_REQUEST_RETRIES, mac.myMac, BROADCAST_MAC, AddressRequestFrame(), None)
      ensures !ok ==> old(mac.device.systime) + NODE_REQUEST_RETRIES * (NODE_REQUEST_TIMEOUT + 1) <= mac.device.systime
      ensures Node() == if ok then Joined(old(translation.macTable[..]), mac.recvPayload[..]) else old(Node())
    {
      hide Tried, Unanswered, AnsweredBy, Obtained, AddressRequestFrame;
      ghost var before := mac.device.log;
      mac.device.Work(mac.device.limits.uart);
      var request := new Byte[8](i requires 0 <= i < 8 => REQUEST_STRING[i]);
      NothingTried(mac.myMac, BROADCAST_MAC, AddressRequestFrame(), None);
      assert mac.device.log[|before|..] == [];
      var retries := 0;
      while retries < NODE_REQUEST_RETRIES
        invariant Valid() && retries <= NODE_REQUEST_RETRIES && before <= mac.device.log
        invariant old(mac.device.systime) + retries * (NODE_REQUEST_TIMEOUT + 1) <= mac.device.systime
        invariant fresh(request) && request[..] == REQUEST_STRING
        invariant Node() == old(Node())
        invariant Tried(mac.device.log[|before|..], retries, mac.myMac, BROADCAST_MAC, AddressRequestFrame(), None)
      {
        ghost var ev, head := mac.device.log[|before|..], mac.device.log;
        var answered, gatewayMac := AskAddress(request);
        ghost var round := mac.device.log[|head|..];
        assert mac.device.log[|before|..] == ev + round;
        if answered {
          ObtainedAtLast(ev, retries, round, mac.myMac, BROADCAST_MAC, AddressRequestFrame(), None,
                         mac.recvPayload[..]);
          var d := mac.recvPayload[MAC_HEADER_OFFSET..];
          assert d == DataOf(mac.recvPayload[..]);
          gateway, myIp := IpSrcOf(d), IpDstOf(d);
          mac.device.Work(4 * mac.device.limits.uart);
          translation.AddIpMacEntry(gateway[3], gatewayMac);
          return true, retries;
        }
        TriedAgain(ev, retries, round, mac.myMac, BROADCAST_MAC, AddressRequestFrame(), None);
        Delay(mac.device, 1);
        retries := retries + 1;
      }
      return false, retries;
    }

    function AddressRequestFrame(): Frame {
      MacFrame(BROADCAST_MAC, mac.myMac, REQUEST_STRING)
    }

    /** One broadcast of the request and, if it is acknowledged, one wait for a unicast frame. */
    method AskAddress(request: array<Byte>) returns (answered: bool, gatewayMac: MacAddress)
      requires Valid() && request != mac.sendPayload && request != mac.recvPayload && request[..] == REQUEST_STRING
      modifies mac.device, mac.sendPayload, mac.recvPayload
      ensures Valid() && old(mac.device.systime) <= mac.device.systime && old(mac.device.log) <= mac.device.log
      ensures answered ==> gatewayMac == SrcOf(mac.recvPayload[..])
      ensures var ev := mac.device.log[|old(mac.device.log)|..];
              if answered then AnsweredBy(ev, mac.myMac, BROADCAST_MAC, AddressRequestFrame(), None,
                                          mac.recvPayload[..])
              else Unanswered(ev, mac.myMac, BROADCAST_MAC, AddressRequestFrame(), None)
      ensures !answered ==> old(mac.device.systime) + NODE_REQUEST_TIMEOUT <= mac.device.systime
    {
      hide Exchange, Reception, IsAck, AskedAndWaited, NodeAdmits;
      answered, gatewayMac := false, NULL_MAC;
      ghost var head := mac.device.log;
      assert request[..8] == REQUEST_STRING;
      var sent := mac.SendData(BROADCAST_MAC, request, 8);
      if sent {
        ghost var middle := mac.device.log;
        var kind;
        ghost var h;
        kind, gatewayMac, h := mac.RecvData(NODE_REQUEST_TIMEOUT, false);
        ghost var asked, waited := middle[|head|..], mac.device.log[|middle|..];
        assert mac.device.log[|head|..] == asked + waited;
        RoundEnds(asked, waited, h, mac.myMac, BROADCAST_MAC, AddressRequestFrame(), None);
        if kind == ForMe {
          answered := true;
          assert waited[h] == Heard(mac.recvPayload[..]);
        }
      }
    }

    /** The sink's `IP_CLEAN_UP`: entries last heard of before `cutoff` are removed. `at`
        is the clock value at the caller's clean-up test. */
    method CleanUp(cutoff: nat, ghost at: nat)
      requires SinkValid() && Recorded(State(), history, at) && 0 < at <= mac.device.systime
      modifies this`history, mac.device`systime, mac.device`spin, translation.macTable, lastTalkedTo
      ensures SinkValid()
      ensures old(mac.device.systime) <= mac.device.systime <= old(mac.device.systime)
              + MaxCleanUpTime(mac.device.limits)
      ensures history == old(history) + [Op.CleanUp(at, cutoff)]
    {
      ghost var s := State();
      RemoveExpired(cutoff);
      Note(s, Op.CleanUp(at, cutoff), at);
    }

    method RemoveExpired(cutoff: nat)
      requires Valid()
      modifies mac.device`systime, mac.device`spin, translation.macTable, lastTalkedTo
      ensures Valid() && State() == Cleaned(old(State()), cutoff)
      ensures old(mac.device.systime) <= mac.device.systime <= old(mac.device.systime)
              + MaxCleanUpTime(mac.device.limits)
    {
      ghost var s := State();
      var i := 1;
      while i < TABLE_SIZE - 1
        invariant 1 <= i <= 255 && Valid() && old(mac.device.systime) <= mac.device.systime
        invariant mac.device.systime <= old(mac.device.systime) + Times(i - 1, 3 * mac.device.limits.uart)
        invariant forall k :: 1 <= k < i ==> translation.macTable[k] == CleanedEntry(s, k, cutoff)
        invariant forall k :: 1 <= k < i ==> lastTalkedTo[k] == if Expired(s, k, cutoff) then 0 else s.stamps[k]
        invariant forall k :: 0 <= k < 256 && !(1 <= k < i) ==>
                    translation.macTable[k] == s.table[k] && lastTalkedTo[k] == s.stamps[k]
      {
        if lastTalkedTo[i] < cutoff && lastTalkedTo[i] != 0 {
          mac.device.Work(3 * mac.device.limits.uart);
          lastTalkedTo[i] := 0;
          translation.RemoveIpMacEntry(i);
        }
        i := i + 1;
      }
    }

    /** Book-keeping only: the leases, recorded as `s` at clock value `before`, have made the step `op` describes. */
    ghost method Note(s: Leases, op: Op, before: nat)
      requires Valid() && role == SinkRole && myIp == SINK_IP && gateway == SINK_IP
      requires Recorded(s, history, before) && before <= op.time && 0 < op.time <= mac.device.systime
      requires State() == Step(s, op)
      modifies this`history
      ensures SinkValid() && history == old(history) + [op]
    {
      RecordedLater(s, history, before, op.time);
      RecordStep(s, history, op, mac.device.systime);
      history := history + [op];
    }

    /** `IP_CLEAN_UP` as the node's copy of the file has it. */
    method CleanUpNodeVersion(cutoff: nat)
      requires Valid()
      modifies translation.macTable
      ensures State() == CleanedByNodeVersion(old(State()), cutoff)
    {
      ghost var s := State();
      var i := 1;
      while i < TABLE_SIZE - 1
        invariant 1 <= i <= 255
        invariant forall k :: 1 <= k < i ==> translation.macTable[k] == NodeCleanedEntry(s, k, cutoff)
        invariant forall k :: 0 <= k < 256 && !(1 <= k < i) ==> translation.macTable[k] == s.table[k]
      {
        if lastTalkedTo[i] < cutoff {
          translation.RemoveIpMacEntry(i);
        }
        i := i + 1;
      }
    }
  }
}
