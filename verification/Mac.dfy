/** Stop-and-wait MAC layer (mac.c), identical in sink and node. */
module Mac {
  import opened Types
  import opened Framing
  import opened Board
  import opened Util
  import opened Counting

  datatype Kind = ForMe | ForAll | Nothing

  /** How a station classifies its receive buffer. */
  function KindOf(b: Buffer, me: MacAddress): Kind {
    if DstOf(b) == me then ForMe else if DstOf(b) == BROADCAST_MAC then ForAll else Nothing
  }

  predicate Matches(b: Buffer, me: MacAddress, expected: MacAddress) {
    KindOf(b, me) == ForMe && IsAck(DataOf(b)) && (expected == BROADCAST_MAC || SrcOf(b) == expected)
  }

  predicate IsMatch(e: RadioEvent, me: MacAddress, expected: MacAddress) {
    e.Heard? && Matches(e.buffer, me, expected)
  }

  function SentCount(ev: seq<RadioEvent>): nat {
    if |ev| == 0 then 0 else SentCount(ev[..|ev| - 1]) + if ev[|ev| - 1].Sent? then 1 else 0
  }

  lemma SentCountAppend(ev: seq<RadioEvent>, more: seq<RadioEvent>)
    ensures SentCount(ev + more) == SentCount(ev) + SentCount(more)
    decreases |more|
  {
    if |more| == 0 {
      assert ev + more == ev;
    } else {
      var front := more[..|more| - 1];
      assert (ev + more)[..|ev + more| - 1] == ev + front;
      SentCountAppend(ev, front);
    }
  }

  predicate AllHeard(ev: seq<RadioEvent>) {
    forall i :: 0 <= i < |ev| ==> ev[i].Heard?
  }

  lemma HeardSendsNothing(ev: seq<RadioEvent>)
    requires AllHeard(ev)
    ensures SentCount(ev) == 0
  {
  }

  /** One ack window: nothing but receptions, and only the last may match, exactly when the window reports so. */
  predicate Window(ev: seq<RadioEvent>, me: MacAddress, expected: MacAddress, ok: bool) {
    && AllHeard(ev)
    && (forall i :: 0 <= i < |ev| - 1 ==> !IsMatch(ev[i], me, expected))
    && (ok ==> |ev| > 0 && IsMatch(ev[|ev| - 1], me, expected))
    && (!ok ==> forall i :: 0 <= i < |ev| ==> !IsMatch(ev[i], me, expected))
  }

  /** A window goes on past a reception that does not match and ends with one that does. */
  lemma WindowGoesOn(ev: seq<RadioEvent>, b: Buffer, me: MacAddress, expected: MacAddress)
    requires Window(ev, me, expected, false)
    ensures Window(ev + [Heard(b)], me, expected, Matches(b, me, expected))
  {
    hide Matches;
  }

  lemma NothingHeard(me: MacAddress, expected: MacAddress)
    ensures Window([], me, expected, false)
  {
  }

  /** A whole acknowledged send: every transmission is the same frame; it succeeds exactly when a
      matching ack is heard, which ends it, after one to nine transmissions; it fails after exactly
      ten, the last of which nothing follows. */
  predicate Exchange(ev: seq<RadioEvent>, me: MacAddress, expected: MacAddress, frame: Frame, ok: bool) {
    && (forall i :: 0 <= i < |ev| && ev[i].Sent? ==> ev[i].frame == frame)
    && (ok <==> exists i :: 0 <= i < |ev| && IsMatch(ev[i], me, expected))
    && (forall i :: 0 <= i < |ev| - 1 ==> !IsMatch(ev[i], me, expected))
    && |ev| > 0 && ev[0].Sent?
    && (if ok then 1 <= SentCount(ev) < MAC_MAX_RETRIES else SentCount(ev) == MAC_MAX_RETRIES && ev[|ev| - 1].Sent?)
  }

  /** The exchange after `retries` transmissions and as many windows without a match. */
  predicate Retried(ev: seq<RadioEvent>, me: MacAddress, expected: MacAddress, frame: Frame, retries: nat) {
    && (forall i :: 0 <= i < |ev| && ev[i].Sent? ==> ev[i].frame == frame)
    && (forall i :: 0 <= i < |ev| ==> !IsMatch(ev[i], me, expected))
    && SentCount(ev) == retries
    && (retries > 0 ==> |ev| > 0 && ev[0].Sent?)
    && (retries == 0 ==> |ev| == 0)
  }

  lemma TransmitAgain(ev: seq<RadioEvent>, window: seq<RadioEvent>, me: MacAddress, expected: MacAddress,
                      frame: Frame, retries: nat, ok: bool)
    requires Retried(ev, me, expected, frame, retries) && Window(window, me, expected, ok)
    ensures var ev' := ev + [Sent(frame)] + window;
            if ok then (retries + 1 < MAC_MAX_RETRIES ==> Exchange(ev', me, expected, frame, true))
            else Retried(ev', me, expected, frame, retries + 1)
  {
    var ev' := ev + [Sent(frame)] + window;
    SentCountAppend(ev, [Sent(frame)]);
    SentCountAppend(ev + [Sent(frame)], window);
    HeardSendsNothing(window);
    assert SentCount([Sent(frame)]) == 1;
    if ok {
      assert ev'[|ev'| - 1] == window[|window| - 1];
      assert IsMatch(ev'[|ev'| - 1], me, expected);
    }
  }

  lemma LastTransmission(ev: seq<RadioEvent>, me: MacAddress, expected: MacAddress, frame: Frame)
    requires Retried(ev, me, expected, frame, MAC_MAX_RETRIES - 1)
    ensures Exchange(ev + [Sent(frame)], me, expected, frame, false)
  {
  }

  predicate Wanted(b: Buffer, me: MacAddress, takesBroadcast: bool) {
    KindOf(b, me) == ForMe || (takesBroadcast && KindOf(b, me) == ForAll)
  }

  /** A reception: unwanted frames are passed over; the first wanted one, `ev[h]`, is acknowledged to
      its sender by one to eleven copies of the same ack and nothing else happens; `h == |ev|` if
      none came in time. */
  predicate Reception(ev: seq<RadioEvent>, h: nat, me: MacAddress, takesBroadcast: bool) {
    && h <= |ev|
    && (forall i :: 0 <= i < h ==> ev[i].Heard? && !Wanted(ev[i].buffer, me, takesBroadcast))
    && (h < |ev| ==>
          && h + 1 < |ev| <= h + 2 + MAC_MAX_RETRIES && ev[h].Heard? && Wanted(ev[h].buffer, me, takesBroadcast)
          && forall i :: h < i < |ev| ==> ev[i] == Sent(MacFrame(SrcOf(ev[h].buffer), me, ACK_TEXT)))
  }

  /** A reception goes on past an unwanted frame and ends with the acknowledged wanted one. */
  lemma ReceptionGoesOn(ev: seq<RadioEvent>, b: Buffer, acks: seq<RadioEvent>, me: MacAddress, takesBroadcast: bool)
    requires Reception(ev, |ev|, me, takesBroadcast)
    ensures !Wanted(b, me, takesBroadcast) ==> Reception(ev + [Heard(b)], |ev| + 1, me, takesBroadcast)
    ensures Wanted(b, me, takesBroadcast) && 0 < |acks| <= MAC_MAX_RETRIES + 1
            && (forall i :: 0 <= i < |acks| ==> acks[i] == Sent(MacFrame(SrcOf(b), me, ACK_TEXT))) ==>
              Reception(ev + [Heard(b)] + acks, |ev|, me, takesBroadcast)
  {
    hide MacFrame, Wanted;
  }

  /** What a log has from a position on, in two pieces. */
  lemma LogGrew(before: seq<RadioEvent>, middle: seq<RadioEvent>, after: seq<RadioEvent>)
    requires before <= middle <= after
    ensures after[|before|..] == middle[|before|..] + after[|middle|..]
  {
  }

  lemma NothingReceived(me: MacAddress, takesBroadcast: bool)
    ensures Reception([], 0, me, takesBroadcast)
  {
  }

  lemma WantedKinds(b: Buffer, me: MacAddress, takesBroadcast: bool)
    ensures Wanted(b, me, takesBroadcast) <==> KindOf(b, me) == ForMe || (KindOf(b, me) == ForAll && takesBroadcast)
  {
  }

  lemma NothingRetried(me: MacAddress, expected: MacAddress, frame: Frame)
    ensures Retried([], me, expected, frame, 0)
  {
  }

  /** How far an ack window may exceed its nominal length: one receive call, one five-millisecond delay and the
      polls around them. */
  function Overrun(l: Limits): nat {
    l.rx + 4 * l.poll + 3
  }

  /** How much sooner than a failing send a successful one is over at the latest: it saves the tenth
      transmission, and its last window ends with the reception. */
  function SuccessMargin(l: Limits): nat {
    l.tx + 3 * l.poll + 4
  }

  /** The longest an acknowledged send can take. */
  function MaxSendTime(l: Limits): nat {
    9 * (MAC_ACK_DEFAULT_WAIT_TIME + Overrun(l)) + MAC_MAX_RETRIES * l.tx
  }

  /** One unanswered transmission and its window. */
  function Round(l: Limits): nat {
    MAC_ACK_DEFAULT_WAIT_TIME + Overrun(l) + l.tx
  }

  lemma RoundsBound(l: Limits, retries: nat)
    requires retries <= 9
    ensures Times(0, Round(l)) == 0
    ensures Times(retries + 1, Round(l)) == Times(retries, Round(l)) + MAC_ACK_DEFAULT_WAIT_TIME + Overrun(l) + l.tx
    ensures Times(retries, Round(l)) + l.tx <= MaxSendTime(l)
  {
    TimesMonotone(retries, 9, Round(l));
    TimesIsProduct(9, Round(l));
  }

  /** The longest an acknowledgement can take on a failing radio. */
  function MaxAckTime(l: Limits): nat {
    l.tx + Times(MAC_MAX_RETRIES, 2 * l.poll + l.tx)
  }

  /** The longest a wait for a frame can take, with the acknowledgement that ends it. */
  function MaxRecvTime(l: Limits, timeout: nat): nat {
    timeout + l.rx + 2 * l.poll + MaxAckTime(l)
  }

  class MacLayer {
    const device: Device
    const myMac: MacAddress
    const sendPayload: array<Byte>
    const recvPayload: array<Byte>

    ghost predicate Valid()
      reads device
    {
      && device.Valid()
      && sendPayload.Length == MAC_SEND_PAYLOAD_SIZE && recvPayload.Length == MAC_RECV_PAYLOAD_SIZE
      && sendPayload != recvPayload
    }

    constructor (device: Device, myMac: MacAddress)
      requires device.Valid()
      ensures Valid() && this.device == device && this.myMac == myMac
      ensures fresh(sendPayload) && fresh(recvPayload)
    {
      this.device := device;
      this.myMac := myMac;
      sendPayload := new Byte[MAC_SEND_PAYLOAD_SIZE](_ => 0);
      recvPayload := new Byte[MAC_RECV_PAYLOAD_SIZE](_ => 0);
    }

    method AddHeaderToSendPayload(destMac: MacAddress)
      requires Valid()
      modifies sendPayload
      ensures sendPayload[..] == destMac + myMac + old(sendPayload[12..])
    {
      for i := 0 to 6
        invariant forall j :: 0 <= j < i ==> sendPayload[j] == destMac[j]
        invariant forall j :: i <= j < sendPayload.Length ==> sendPayload[j] == old(sendPayload[j])
      {
        sendPayload[i] := destMac[i];
      }
      for i := 6 to 12
        invariant forall j :: 0 <= j < 6 ==> sendPayload[j] == destMac[j]
        invariant forall j :: 6 <= j < i ==> sendPayload[j] == myMac[j - 6]
        invariant forall j :: i <= j < sendPayload.Length ==> sendPayload[j] == old(sendPayload[j])
      {
        sendPayload[i] := myMac[i - 6];
      }
    }

    method AddDataToSendPayload(data: array<Byte>, dataSize: nat)
      requires Valid() && data != sendPayload && dataSize <= data.Length && 12 + dataSize <= MAC_SEND_PAYLOAD_SIZE
      modifies sendPayload
      ensures sendPayload[..] == old(sendPayload[..12]) + data[..dataSize] + old(sendPayload[12 + dataSize..])
    {
      for i := 0 to dataSize
        invariant forall j :: 0 <= j < i ==> sendPayload[12 + j] == data[j]
        invariant forall j :: 0 <= j < 12 || 12 + i <= j < sendPayload.Length ==> sendPayload[j] == old(sendPayload[j])
      {
        sendPayload[12 + i] := data[i];
      }
    }

    /** Clears the send buffer and writes header and payload into it. */
    method Build(destMac: MacAddress, data: array<Byte>, dataSize: nat)
      requires Valid() && data != sendPayload && dataSize <= data.Length
      requires MAC_HEADER_OFFSET + dataSize < MAC_SEND_PAYLOAD_SIZE
      modifies sendPayload
      ensures sendPayload[..] == MacFrame(destMac, myMac, data[..dataSize])
    {
      ClearPayload(sendPayload);
      AddHeaderToSendPayload(destMac);
      AddDataToSendPayload(data, dataSize);
    }

    method ParseHeader() returns (dst: MacAddress, src: MacAddress)
      requires Valid()
      ensures dst == DstOf(recvPayload[..]) && src == SrcOf(recvPayload[..])
    {
      var d, s: seq<Byte> := [], [];
      for i := 8 to 14
        invariant d == recvPayload[8..i]
      {
        d := d + [recvPayload[i]];
      }
      for i := 14 to 20
        invariant s == recvPayload[14..i]
      {
        s := s + [recvPayload[i]];
      }
      dst, src := d, s;
    }

    method RecvPayloadUsingSocket() returns (kind: Kind, src: MacAddress)
      requires Valid()
      modifies device, recvPayload
      ensures Valid() && old(device.systime) <= device.systime <= old(device.systime) + device.limits.rx
      ensures old(device.systime) < device.systime || device.spin == old(device.spin)
      ensures device.log == old(device.log) + [Heard(recvPayload[..])]
      ensures kind == KindOf(recvPayload[..], myMac) && src == SrcOf(recvPayload[..])
    {
      ClearPayload(recvPayload);
      device.Recv(recvPayload);
      var dst;
      dst, src := ParseHeader();
      kind := if dst == myMac then ForMe else if dst == BROADCAST_MAC then ForAll else Nothing;
    }

    /** Waits up to the window length for an ack. */
    method RecvAck(expectedSrcMac: MacAddress) returns (ok: bool)
      requires Valid()
      modifies device, recvPayload
      ensures Valid()
      ensures old(device.log) <= device.log && Window(device.log[|old(device.log)|..], myMac, expectedSrcMac, ok)
      ensures old(device.systime) <= device.systime <= old(device.systime) + MAC_ACK_DEFAULT_WAIT_TIME
              + Overrun(device.limits)
      ensures ok ==> device.systime + 3 * device.limits.poll + 4
                     <= old(device.systime) + MAC_ACK_DEFAULT_WAIT_TIME + Overrun(device.limits)
      ensures !ok ==> old(device.systime) + MAC_ACK_DEFAULT_WAIT_TIME <= device.systime
      ensures device.limits.poll < MAC_ACK_DEFAULT_WAIT_TIME ==> |old(device.log)| < |device.log|
    {
      hide SameString, Window;
      ghost var before := device.log;
      NothingHeard(myMac, expectedSrcMac);
      assert device.log[|before|..] == [];
      var last := device.Read();
      var now := device.Read();
      while now - last < MAC_ACK_DEFAULT_WAIT_TIME
        invariant Valid() && old(device.systime) <= last <= now == device.systime
        invariant last <= old(device.systime) + device.limits.poll
        invariant now < last + MAC_ACK_DEFAULT_WAIT_TIME + device.limits.rx + 3 * device.limits.poll + 4
        invariant before <= device.log && Window(device.log[|before|..], myMac, expectedSrcMac, false)
        invariant |before| < |device.log| || now <= last + device.limits.poll
        decreases last + MAC_ACK_DEFAULT_WAIT_TIME - device.systime, device.spin
      {
        ghost var ev := device.log[|before|..];
        var kind, src := RecvPayloadUsingSocket();
        assert device.log[|before|..] == ev + [Heard(recvPayload[..])];
        assert recvPayload[MAC_HEADER_OFFSET..] == DataOf(recvPayload[..]);
        WindowGoesOn(ev, recvPayload[..], myMac, expectedSrcMac);
        if kind == ForMe {
          if IsAck(recvPayload[MAC_HEADER_OFFSET..]) {
            if expectedSrcMac == BROADCAST_MAC {
              return true;
            } else if src == expectedSrcMac {
              return true;
            }
          }
        } else {
          Delay(device, 5);
        }
        now := device.Read();
      }
      return false;
    }

    method SendPayloadUsingSocket() returns (ok: bool)
      requires Valid()
      modifies device
      ensures Valid()
      ensures old(device.systime) + device.limits.minTx <= device.systime <= old(device.systime) + device.limits.tx
      ensures device.log == old(device.log) + [Sent(sendPayload[..])]
    {
      ok := device.Send(sendPayload);
    }

    /** Sends `data` to `destMac` until a matching ack arrives or ten transmissions are spent. */
    method SendData(destMac: MacAddress, data: array<Byte>, dataSize: nat) returns (ok: bool)
      requires Valid() && data != sendPayload && data != recvPayload
      requires dataSize <= data.Length && MAC_HEADER_OFFSET + dataSize < MAC_SEND_PAYLOAD_SIZE
      modifies device, sendPayload, recvPayload
      ensures Valid() && old(device.log) <= device.log
      ensures Exchange(device.log[|old(device.log)|..], myMac, destMac, MacFrame(destMac, myMac, data[..dataSize]), ok)
      ensures old(device.systime) <= device.systime <= old(device.systime) + MaxSendTime(device.limits)
      ensures old(device.systime) + device.limits.minTx <= device.systime
      ensures ok ==> device.systime + SuccessMargin(device.limits) <= old(device.systime) + MaxSendTime(device.limits)
      ensures !ok ==> old(device.systime) + 9 * MAC_ACK_DEFAULT_WAIT_TIME <= device.systime
    {
      hide Exchange, Window, Retried, Overrun, Round, Times, MaxSendTime, MacFrame;
      ghost var before := device.log;
      ghost var frame := MacFrame(destMac, myMac, data[..dataSize]);
      Build(destMac, data, dataSize);
      NothingRetried(myMac, destMac, frame);
      assert device.log[|before|..] == [];
      RoundsBound(device.limits, 0);
      var retries := 0;
      while true
        invariant Valid() && sendPayload[..] == frame
        invariant before <= device.log && Retried(device.log[|before|..], myMac, destMac, frame, retries)
        invariant old(device.systime) + retries * MAC_ACK_DEFAULT_WAIT_TIME <= device.systime
        invariant retries > 0 ==> old(device.systime) + device.limits.minTx <= device.systime
        invariant device.systime <= old(device.systime) + Times(retries, Round(device.limits))
        invariant retries < MAC_MAX_RETRIES
        decreases MAC_MAX_RETRIES - retries
      {
        ghost var ev, head := device.log[|before|..], device.log;
        RoundsBound(device.limits, retries);
        var sent := SendPayloadUsingSocket();
        retries := retries + 1;
        LogGrew(before, head, device.log);
        assert device.log[|head|..] == [Sent(frame)];
        if retries >= MAC_MAX_RETRIES {
          LastTransmission(ev, myMac, destMac, frame);
          return false;
        }
        ghost var middle := device.log;
        ok := RecvAck(destMac);
        ghost var window := device.log[|middle|..];
        TransmitAgain(ev, window, myMac, destMac, frame, retries - 1, ok);
        LogGrew(before, middle, device.log);
        if ok {
          RoundsBound(device.limits, retries);
          return true;
        }
      }
    }

    /** Acknowledges a frame; a failing radio is retried. */
    method SendAck(destMac: MacAddress) returns (ok: bool)
      requires Valid()
      modifies device, sendPayload
      ensures Valid() && old(device.log) <= device.log
      ensures old(device.systime) <= device.systime <= old(device.systime) + MaxAckTime(device.limits)
      ensures |old(device.log)| < |device.log| <= |old(device.log)| + MAC_MAX_RETRIES + 1
      ensures forall i :: |old(device.log)| <= i < |device.log| ==>
                device.log[i] == Sent(MacFrame(destMac, myMac, ACK_TEXT))
      ensures ok <==> |device.log| <= |old(device.log)| + MAC_MAX_RETRIES
    {
      var ack := new Byte[3](i => if i == 0 then 97 else if i == 1 then 99 else 107);
      assert ack[..3] == ACK_TEXT;
      Build(destMac, ack, 3);
      var retries := 0;
      var sent := SendPayloadUsingSocket();
      while !sent && retries < MAC_MAX_RETRIES
        invariant Valid() && old(device.systime) <= device.systime && old(device.log) <= device.log
        invariant retries <= MAC_MAX_RETRIES && |device.log| == |old(device.log)| + retries + 1
        invariant sendPayload[..] == MacFrame(destMac, myMac, ACK_TEXT)
        invariant device.systime <= old(device.systime) + device.limits.tx
                  + Times(retries, 2 * device.limits.poll + device.limits.tx)
        invariant forall i :: |old(device.log)| <= i < |device.log| ==>
                    device.log[i] == Sent(MacFrame(destMac, myMac, ACK_TEXT))
      {
        Delay(device, 1);
        retries := retries + 1;
        sent := SendPayloadUsingSocket();
      }
      TimesMonotone(retries, MAC_MAX_RETRIES, 2 * device.limits.poll + device.limits.tx);
      return retries < MAC_MAX_RETRIES;
    }

    /** Waits for a frame to this station, or, if asked to, a broadcast, and acknowledges it. The
        frame is still in the receive buffer afterwards. */
    method RecvData(timeout: nat, takesBroadcast: bool) returns (kind: Kind, srcMac: MacAddress, ghost h: nat)
      requires Valid()
      modifies device, sendPayload, recvPayload
      ensures Valid() && old(device.log) <= device.log
      ensures old(device.systime) <= device.systime <= old(device.systime) + MaxRecvTime(device.limits, timeout)
      ensures kind == Nothing ==> old(device.systime) + timeout <= device.systime
      ensures device.limits.poll < timeout ==> |old(device.log)| < |device.log|
      ensures Reception(device.log[|old(device.log)|..], h, myMac, takesBroadcast)
      ensures |old(device.log)| + h <= |device.log| && (kind == Nothing <==> |old(device.log)| + h == |device.log|)
      ensures kind != Nothing ==>
                && device.log[|old(device.log)| + h] == Heard(recvPayload[..])
                && kind == KindOf(recvPayload[..], myMac) && srcMac == SrcOf(recvPayload[..])
                && (kind == ForMe || takesBroadcast)
    {
      hide Wanted, MacFrame, Reception;
      ghost var before := device.log;
      srcMac := NULL_MAC;
      h := 0;
      NothingReceived(myMac, takesBroadcast);
      assert device.log[|before|..] == [];
      var last := device.Read();
      var now := device.Read();
      while now - last < timeout
        invariant Valid() && old(device.systime) <= last <= now == device.systime
        invariant last <= old(device.systime) + device.limits.poll
        invariant now <= last + timeout + device.limits.rx + device.limits.poll
        invariant before <= device.log && |before| + h == |device.log|
        invariant h > 0 || now <= last + device.limits.poll
        invariant Reception(device.log[|before|..], h, myMac, takesBroadcast)
        decreases last + timeout - device.systime, device.spin
      {
        ghost var ev := device.log[|before|..];
        kind, srcMac := RecvPayloadUsingSocket();
        assert device.log[|before|..] == ev + [Heard(recvPayload[..])];
        if kind == ForMe || (kind == ForAll && takesBroadcast) {
          ghost var middle := device.log;
          WantedKinds(recvPayload[..], myMac, takesBroadcast);
          ghost var heard := recvPayload[..];
          var acked := SendAck(srcMac);
          ReceptionGoesOn(ev, heard, device.log[|middle|..], myMac, takesBroadcast);
          assert device.log[|before|..] == ev + [Heard(heard)] + device.log[|middle|..];
          assert device.log[..|middle|] == middle;
          return;
        }
        WantedKinds(recvPayload[..], myMac, takesBroadcast);
        ReceptionGoesOn(ev, recvPayload[..], [], myMac, takesBroadcast);
        h := h + 1;
        now := device.Read();
      }
      kind := Nothing;
    }
  }
}
