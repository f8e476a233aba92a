/** Addresses, sizes and return codes shared by all layers (offsets.h, mac.h, ip.h, application.h). */
module Types {

  /** TI's compiler treats plain `char` as unsigned, so every buffer cell is an unsigned byte. */
  type Byte = b: int | 0 <= b < 256

  type MacAddress = m: seq<Byte> | |m| == 6 witness [0, 0, 0, 0, 0, 0]

  type IpAddress = a: seq<Byte> | |a| == 4 witness [0, 0, 0, 0]

  datatype Option<+T> = None | Some(value: T)

  const NULL_MAC: MacAddress := [0, 0, 0, 0, 0, 0]
  const BROADCAST_MAC: MacAddress := [255, 255, 255, 255, 255, 255]

  /** The sink gives itself this address and hands out its siblings 255.255.255.x. */
  const SINK_IP: IpAddress := [255, 255, 255, 1]

  const MAC_SEND_PAYLOAD_SIZE := 1200
  const MAC_RECV_PAYLOAD_SIZE := 1500
  const MAC_INFO_OFFSET := 8
  const MAC_HEADER_OFFSET := 20
  const IP_SEND_PAYLOAD_SIZE := 900
  const MAX_APP_DATA := 879

  const TABLE_SIZE := 256

  const MAC_MAX_RETRIES := 10
  const MAC_ACK_DEFAULT_WAIT_TIME := 50
  const IP_MAX_ISSUE_RETRIES := 10
  const IP_ISSUE_GUARD := 50
  const NODE_REQUEST_RETRIES := 20
  const NODE_REQUEST_TIMEOUT := 100
  const NODE_PARAM_RETRIES := 20

  const APP_DEFAULT_PERIOD_IN_MS := 10000
  const APP_DEFAULT_TIMESLOT_IN_MS := 1000
  const APP_EPOCH_UNTIL_CLEAN := 20000

  /** The MAC of a real radio: neither the free-entry marker nor the broadcast address. */
  predicate Station(m: MacAddress) {
    m != NULL_MAC && m != BROADCAST_MAC
  }

  /** The address the sink builds for table index `i`. */
  function AddressOf(i: Byte): IpAddress {
    [255, 255, 255, i]
  }

  function Zeros(n: nat): (z: seq<Byte>)
    ensures |z| == n
    ensures forall i :: 0 <= i < n ==> z[i] == 0
  {
    seq(n, _ => 0)
  }
}
