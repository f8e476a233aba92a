/** The hardware both programs run on: the millisecond counter `systime`, driven by a timer interrupt,
    and the raw radio socket. Everything the environment decides is chosen arbitrarily here. */
module Board {
  import opened Types
  import opened Framing

  /** How slow the hardware may be, in milliseconds: between two consecutive polls of the clock, for
      one transmit call, for one receive call and for one line of UART output; and how fast a transmit
      call can at most be. */
  datatype Limits = Limits(poll: nat, minTx: nat, tx: nat, rx: nat, uart: nat) {
    predicate Sound() {
      poll >= 1 && minTx <= tx
    }
  }

  /** What the radio did: sent a frame, or returned from a receive call with this buffer. */
  datatype RadioEvent = Sent(frame: Frame) | Heard(buffer: Buffer)

  class Device {
    const limits: Limits
    var systime: nat
    /** How many more polls may see the same clock value: any number, but finitely many. */
    var spin: nat
    ghost var log: seq<RadioEvent>

    /** The clock has started: both programs check this before anything else (`APP_test_systime`). */
    ghost predicate Valid()
      reads this
    {
      limits.Sound() && systime > 0
    }

    constructor (limits: Limits, started: nat)
      requires limits.Sound() && started > 0
      ensures Valid() && this.limits == limits && systime == started && log == []
    {
      this.limits := limits;
      systime := started;
      spin := *;
      log := [];
    }

    /** One poll of the clock. */
    method Read() returns (now: nat)
      requires Valid()
      modifies this`systime, this`spin
      ensures Valid() && now == systime && old(systime) <= systime <= old(systime) + limits.poll
      ensures old(systime) < systime || spin < old(spin)
    {
      var elapsed: int := *;
      if elapsed > limits.poll {
        elapsed := limits.poll;
      }
      if elapsed < 0 || (elapsed == 0 && spin == 0) {
        elapsed := 1;
      }
      systime := systime + elapsed;
      if elapsed == 0 {
        spin := spin - 1;
      } else {
        spin := *;
      }
      now := systime;
    }

    /** Work that takes at most `most` milliseconds. */
    method Work(most: nat)
      requires Valid()
      modifies this`systime, this`spin
      ensures Valid() && old(systime) <= systime <= old(systime) + most
      ensures old(systime) < systime || spin == old(spin)
    {
      var elapsed: int := *;
      if 0 < elapsed <= most {
        systime := systime + elapsed;
        spin := *;
      }
    }

    /** One `sl_Send` of the whole send buffer. */
    method Send(buffer: array<Byte>) returns (ok: bool)
      requires Valid() && buffer.Length == MAC_SEND_PAYLOAD_SIZE
      modifies this
      ensures Valid() && old(systime) + limits.minTx <= systime <= old(systime) + limits.tx
      ensures log == old(log) + [Sent(buffer[..])]
    {
      Work(limits.tx - limits.minTx);
      systime := systime + limits.minTx;
      log := log + [Sent(buffer[..])];
      ok := *;
    }

    /** One `sl_Recv`: any number of bytes arrive, or none. */
    method Recv(buffer: array<Byte>)
      requires Valid() && buffer.Length == MAC_RECV_PAYLOAD_SIZE
      modifies this, buffer
      ensures Valid() && old(systime) <= systime <= old(systime) + limits.rx
      ensures old(systime) < systime || spin == old(spin)
      ensures log == old(log) + [Heard(buffer[..])]
    {
      Work(limits.rx);
      var bytes: seq<Byte> := *;
      var n := if |bytes| <= buffer.Length then |bytes| else buffer.Length;
      for i := 0 to n
        modifies buffer
      {
        buffer[i] := bytes[i];
      }
      log := log + [Heard(buffer[..])];
    }

    /** The node overwrites its clock with the sink's. */
    method Synchronise(now: nat)
      requires now > 0
      modifies this`systime
      ensures Valid() <==> limits.Sound()
      ensures systime == now
    {
      systime := now;
    }
  }
}
