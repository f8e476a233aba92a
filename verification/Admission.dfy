/** What the IP layer makes of a receive buffer, as functions of its state (`IP_recv_data`, `IP_request_ip`). */
module Admission {
  import opened Types
  import opened Framing
  import opened Leases
  import opened Mac

  datatype Role = SinkRole | NodeRole

  /** The return codes of `IP_recv_data`. */
  datatype Code = IssueFail | IssueSuccess | Application | Invalid | NoMsg

  /** The lease operation a wanted frame amounts to at the sink, if any. */
  function SinkOp(b: Buffer, me: MacAddress, time: nat): Option<Op> {
    match KindOf(b, me)
    case ForMe => Some(Message(time, SrcOf(b), IpSrcOf(DataOf(b)), IpDstOf(DataOf(b))))
    case ForAll => if IsRequest(DataOf(b)) then Some(Request(time, SrcOf(b))) else None
    case Nothing => None
  }

  function SinkCode(t: Table, b: Buffer, me: MacAddress): Code {
    match SinkOp(b, me, 0)
    case None => Invalid
    case Some(op) =>
      if op.Request? then (if FirstFree(t) == -1 then IssueFail else IssueSuccess)
      else if Admits(t, op.mac, op.src, op.dst) then Application
      else Invalid
  }

  /** A node's addressing state once it has joined. */
  datatype NodeState = NodeState(table: Table, myIp: IpAddress, gateway: IpAddress)

  /** What the answer to its address request makes of a node: it believes whatever unicast frame arrives. */
  function Joined(t: Table, answer: Buffer): NodeState {
    var gateway := IpSrcOf(DataOf(answer));
    NodeState(t[gateway[3] := SrcOf(answer)], IpDstOf(DataOf(answer)), gateway)
  }

  predicate NodeAdmits(n: NodeState, b: Buffer, me: MacAddress) {
    var src := ResolveMac(n.table, SrcOf(b));
    && KindOf(b, me) == ForMe && src.Some? && src.value == n.gateway
    && IpDstOf(DataOf(b)) == n.myIp && IpSrcOf(DataOf(b)) == src.value
  }

  lemma OperationTime(b: Buffer, me: MacAddress, time: nat)
    ensures var op := SinkOp(b, me, time); op.Some? ==> !op.value.CleanUp? && op.value.time == time
  {
  }

  // ---- What the sink makes of every frame a station sends ----

  /** A frame to the sink is a message, whatever it carries; a broadcast is an address request exactly when
      it carries the request text; nothing else concerns the leases. */
  lemma OperationOfFrame(prefix: seq<Byte>, dst: MacAddress, src: MacAddress, body: Body, me: MacAddress, time: nat)
    requires |prefix| == MAC_INFO_OFFSET && body.Fits()
    ensures var op := SinkOp(Delivered(prefix, MacFrame(dst, src, body.Bytes())), me, time);
            if dst == me then
              op == Some(if body.Packet? then Message(time, src, body.src, body.dst)
                         else Message(time, src, [0, 0, 0, 0], [0, 0, 0, 0]))
            else if dst == BROADCAST_MAC && body.AddressRequest? then op == Some(Request(time, src))
            else op == None
  {
    hide Delivered, MacFrame, IsAck, IsRequest;
    KindsAreExclusive(prefix, dst, src, body);
    MacRoundTrip(prefix, dst, src, body.Bytes());
    if body.Packet? {
      TwoLayerRoundTrip(prefix, dst, src, body.src, body.dst, body.data);
    } else {
      NoAddressesInText(body.Bytes());
    }
  }

  /** The sink issues an address exactly on a broadcast that begins with the eight bytes of the request, as
      long as one is free; it forwards exactly what comes from a listed station, under an address that is
      this station's, to the sink's own address. */
  lemma CodeMeaning(t: Table, b: Buffer, me: MacAddress)
    requires Wanted(b, me, true)
    ensures var requested := DstOf(b) != me && REQUEST_STRING <= b[20..];
            var free := exists i :: 2 <= i < 255 && t[i] == NULL_MAC;
            && (SinkCode(t, b, me) == IssueSuccess <==> requested && free)
            && (SinkCode(t, b, me) == IssueFail <==> requested && !free)
    ensures SinkCode(t, b, me) == Code.Application <==>
            && DstOf(b) == me && (exists i :: 1 <= i < 255 && t[i] == SrcOf(b))
            && t[b[35]] == SrcOf(b) != NULL_MAC && b[36..40] == SINK_IP
    ensures SinkCode(t, b, me) != NoMsg
  {
    hide IsRequest, FirstMatch;
    RequestIsPrefix(DataOf(b));
    FirstMatchIsLeast(t, NULL_MAC, 2);
    FirstMatchIsLeast(t, SrcOf(b), 1);
    assert IpSrcOf(DataOf(b))[3] == b[35] && IpDstOf(DataOf(b)) == b[36..40];
  }

  /** A short text leaves the bytes where a packet has its addresses at zero. */
  lemma NoAddressesInText(text: seq<Byte>)
    requires |text| <= 12
    ensures var d := text + Zeros(1480 - |text|); IpSrcOf(d) == IpDstOf(d) == [0, 0, 0, 0]
  {
  }

  lemma RequestIsPrefix(d: seq<Byte>)
    ensures IsRequest(d) <==> REQUEST_STRING <= d
  {
    SameStringIsPrefix(d, REQUEST_STRING);
  }
}
