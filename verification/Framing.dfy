/** What a frame looks like on the air and in a receive buffer: the MAC header of mac.c around
    the IP header of ip.c. A sender writes from offset 0; a receiver finds the same bytes behind
    the radio's eight-byte information prefix. */
module Framing {
  import opened Types

  type Frame = f: seq<Byte> | |f| == 1200 witness Zeros(1200)

  type Buffer = b: seq<Byte> | |b| == 1500 witness Zeros(1500)

  const ACK_TEXT: seq<Byte> := [97, 99, 107]
  const ACK_STRING: seq<Byte> := [97, 99, 107, 0]
  const REQUEST_STRING: seq<Byte> := [105, 115, 95, 115, 105, 110, 107, 0]

  /** Everything this software ever hands to the radio as a MAC payload. */
  datatype Body = Ack | AddressRequest | Packet(src: IpAddress, dst: IpAddress, data: seq<Byte>) {
    predicate Fits() {
      Packet? ==> |data| <= MAX_APP_DATA
    }

    function Bytes(): (s: seq<Byte>)
      requires Fits()
      ensures |s| <= IP_SEND_PAYLOAD_SIZE
    {
      match this
      case Ack => ACK_TEXT
      case AddressRequest => REQUEST_STRING
      case Packet(src, dst, data) => IpPayload(src, dst, data)
    }
  }

  /** The cleared IP send buffer with both addresses and the data written into it. */
  function IpPayload(src: IpAddress, dst: IpAddress, data: seq<Byte>): (p: seq<Byte>)
    requires |data| <= MAX_APP_DATA
    ensures |p| == IP_SEND_PAYLOAD_SIZE
  {
    Zeros(12) + src + dst + data + Zeros(880 - |data|)
  }

  /** The cleared MAC send buffer with both addresses and the payload written into it. */
  function MacFrame(dst: MacAddress, src: MacAddress, payload: seq<Byte>): Frame
    requires |payload| <= 1188
  {
    dst + src + payload + Zeros(1188 - |payload|)
  }

  /** The cleared receive buffer after the radio delivered `frame` behind its prefix. */
  function Delivered(prefix: seq<Byte>, frame: Frame): Buffer
    requires |prefix| == MAC_INFO_OFFSET
  {
    prefix + frame + Zeros(292)
  }

  function DstOf(b: Buffer): MacAddress { b[8..14] }

  function SrcOf(b: Buffer): MacAddress { b[14..20] }

  /** What a data pointer into the receive buffer gives access to. */
  function DataOf(b: Buffer): (d: seq<Byte>)
    ensures |d| == 1480
  {
    b[20..]
  }

  function IpSrcOf(d: seq<Byte>): IpAddress
    requires |d| >= 20
  {
    d[12..16]
  }

  function IpDstOf(d: seq<Byte>): IpAddress
    requires |d| >= 20
  {
    d[16..20]
  }

  function AppDataOf(d: seq<Byte>): seq<Byte>
    requires |d| >= 20
  {
    d[20..]
  }

  /** C's strcmp(a, b) == 0 on what lies between the pointers and the ends of their arrays. */
  predicate SameString(a: seq<Byte>, b: seq<Byte>) {
    |a| > 0 && |b| > 0 && a[0] == b[0] && (a[0] == 0 || SameString(a[1..], b[1..]))
  }

  predicate IsAck(d: seq<Byte>) { SameString(d, ACK_STRING) }

  predicate IsRequest(d: seq<Byte>) { SameString(d, REQUEST_STRING) }

  /** A buffer is the string `s` plus its terminator exactly when it starts with those bytes. */
  lemma {:induction false} SameStringIsPrefix(a: seq<Byte>, s: seq<Byte>)
    requires |s| > 0 && s[|s| - 1] == 0
    requires forall i :: 0 <= i < |s| - 1 ==> s[i] != 0
    ensures SameString(a, s) <==> s <= a
  {
    if |a| > 0 && a[0] == s[0] {
      if |s| > 1 {
        SameStringIsPrefix(a[1..], s[1..]);
        if s[1..] <= a[1..] {
          assert a == [a[0]] + a[1..] && s == [s[0]] + s[1..];
        }
        if s <= a {
          assert a[..|s|] == s;
          assert a[1..][..|s| - 1] == s[1..];
        }
      }
    }
  }

  /** Parsing a delivered frame at the receiver's offsets returns the header fields and the payload followed by
      zeros. */
  lemma MacRoundTrip(prefix: seq<Byte>, dst: MacAddress, src: MacAddress, payload: seq<Byte>)
    requires |prefix| == MAC_INFO_OFFSET && |payload| <= 1188
    ensures var b := Delivered(prefix, MacFrame(dst, src, payload));
            DstOf(b) == dst && SrcOf(b) == src && DataOf(b) == payload + Zeros(1480 - |payload|)
  {
  }

  /** MAC parsing then IP parsing of what the sender transmitted returns all four addresses and the
      data followed by zeros, whatever the radio put in front. */
  lemma TwoLayerRoundTrip(prefix: seq<Byte>, dstMac: MacAddress, srcMac: MacAddress, src: IpAddress, dst: IpAddress,
                          data: seq<Byte>)
    requires |prefix| == MAC_INFO_OFFSET && |data| <= MAX_APP_DATA
    ensures var b := Delivered(prefix, MacFrame(dstMac, srcMac, IpPayload(src, dst, data)));
            && DstOf(b) == dstMac && SrcOf(b) == srcMac
            && IpSrcOf(DataOf(b)) == src && IpDstOf(DataOf(b)) == dst
            && AppDataOf(DataOf(b)) == data + Zeros(1460 - |data|)
  {
    hide Delivered, MacFrame, IpPayload;
    MacRoundTrip(prefix, dstMac, srcMac, IpPayload(src, dst, data));
    HeaderInPayload(src, dst, data);
  }

  lemma HeaderInPayload(src: IpAddress, dst: IpAddress, data: seq<Byte>)
    requires |data| <= MAX_APP_DATA
    ensures var d := IpPayload(src, dst, data) + Zeros(580);
            IpSrcOf(d) == src && IpDstOf(d) == dst && AppDataOf(d) == data + Zeros(1460 - |data|)
  {
    var p := IpPayload(src, dst, data);
    assert p[12..16] == src && p[16..20] == dst && p[20..] == data + Zeros(880 - |data|);
    assert AppDataOf(p + Zeros(580)) == p[20..] + Zeros(580);
    assert Zeros(880 - |data|) + Zeros(580) == Zeros(1460 - |data|);
  }

  /** Whatever body a station sends, the receiver takes it for an ack exactly when it is one and for
      an address request exactly when it is one. */
  lemma KindsAreExclusive(prefix: seq<Byte>, dst: MacAddress, src: MacAddress, body: Body)
    requires |prefix| == MAC_INFO_OFFSET && body.Fits()
    ensures var d := DataOf(Delivered(prefix, MacFrame(dst, src, body.Bytes())));
            (IsAck(d) <==> body.Ack?) && (IsRequest(d) <==> body.AddressRequest?)
  {
    var d := DataOf(Delivered(prefix, MacFrame(dst, src, body.Bytes())));
    MacRoundTrip(prefix, dst, src, body.Bytes());
    SameStringIsPrefix(d, ACK_STRING);
    SameStringIsPrefix(d, REQUEST_STRING);
    match body
    case Ack =>
      assert d[..4] == ACK_STRING;
      assert d[0] == 97;
    case AddressRequest =>
      assert d[..8] == REQUEST_STRING;
      assert d[0] == 105;
    case Packet(_, _, _) =>
      assert d[0] == 0;
  }
}
