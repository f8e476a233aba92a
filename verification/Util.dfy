/** Helpers of my_util.c that touch the clock or a buffer. */
module Util {
  import opened Types
  import opened Board

  predicate WithinTolerance(val: int, tolerance: int) {
    (if val < 0 then -val else val) <= tolerance
  }

  /** Busy-waits at least `ms` milliseconds, and overshoots by less than two polls. */
  method Delay(device: Device, ms: nat)
    requires device.Valid() && ms > 0
    modifies device`systime, device`spin
    ensures device.Valid()
    ensures old(device.systime) + ms <= device.systime < old(device.systime) + ms + 2 * device.limits.poll
    ensures old(device.systime) < device.systime
  {
    var last := device.Read();
    var now := device.Read();
    while now - last < ms
      invariant device.Valid() && last <= now == device.systime
      invariant now < last + ms + device.limits.poll
      decreases last + ms - device.systime, device.spin
    {
      now := device.Read();
    }
  }

  method ClearPayload(payload: array<Byte>)
    modifies payload
    ensures payload[..] == Zeros(payload.Length)
  {
    for i := 0 to payload.Length
      invariant forall j :: 0 <= j < i ==> payload[j] == 0
    {
      payload[i] := 0;
    }
  }
}
