/** The sink's address leases as values: the MAC table of translation_utility.c together with the
    last-contact stamps of ip.c, and what a history of operations makes of them. */
module Leases {
  import opened Types

  type Table = t: seq<MacAddress> | |t| == 256 witness seq<MacAddress>(256, _ => NULL_MAC)

  type Stamps = s: seq<nat> | |s| == 256 witness seq(256, _ => 0)

  datatype Leases = Leases(table: Table, stamps: Stamps)

  /** What reaches the lease state, with the clock value the code reads while handling it:
      an address request from `mac`, a frame to the sink from `mac` carrying IP addresses `src` and
      `dst`, and a clean-up with its cut-off. */
  datatype Op =
    | Request(time: nat, mac: MacAddress)
    | Message(time: nat, mac: MacAddress, src: IpAddress, dst: IpAddress)
    | CleanUp(time: nat, cutoff: nat)

  function InitialTable(): Table {
    seq<MacAddress>(256, i => if i == 255 then BROADCAST_MAC else NULL_MAC)
  }

  function Initial(): Leases {
    Leases(InitialTable(), seq(256, _ => 0))
  }

  /** The smallest index from `lo` to 254 whose entry is `m`, or -1. */
  function FirstMatch(t: Table, m: MacAddress, lo: nat): (r: int)
    requires lo <= 255
    ensures r == -1 || (lo <= r < 255 && t[r] == m)
    decreases 255 - lo
  {
    if lo == 255 then -1 else if t[lo] == m then lo else FirstMatch(t, m, lo + 1)
  }

  /** What a search reports is the least match, and it reports none only if there is none. */
  lemma {:induction false} FirstMatchIsLeast(t: Table, m: MacAddress, lo: nat)
    requires lo <= 255
    ensures var r := FirstMatch(t, m, lo);
            forall i :: lo <= i < (if r == -1 then 255 else r) ==> t[i] != m
    decreases 255 - lo
  {
    if lo < 255 && t[lo] != m {
      FirstMatchIsLeast(t, m, lo + 1);
    }
  }

  function FirstFree(t: Table): (r: int) {
    FirstMatch(t, NULL_MAC, 2)
  }

  function ResolveIp(t: Table, ip: IpAddress): Option<MacAddress> {
    if t[ip[3]] != NULL_MAC then Some(t[ip[3]]) else None
  }

  function ResolveMac(t: Table, m: MacAddress): Option<IpAddress> {
    var i := FirstMatch(t, m, 1);
    if i == -1 then None else Some(AddressOf(i))
  }

  /** The checks a unicast frame has to pass before the sink forwards it to the application. */
  predicate Admits(t: Table, mac: MacAddress, src: IpAddress, dst: IpAddress) {
    ResolveMac(t, mac).Some? && ResolveIp(t, src) == Some(mac) && dst == SINK_IP
  }

  function Issued(s: Leases, mac: MacAddress, time: nat): Leases {
    var i := FirstFree(s.table);
    if i == -1 then s else Leases(s.table[i := mac], s.stamps[i := time])
  }

  predicate Expired(s: Leases, i: int, cutoff: nat) {
    1 <= i < 255 && s.stamps[i] < cutoff && s.stamps[i] != 0
  }

  function CleanedEntry(s: Leases, i: nat, cutoff: nat): MacAddress
    requires i < 256
  {
    if Expired(s, i, cutoff) then NULL_MAC else s.table[i]
  }

  /** The sink's clean-up: expired entries lose their MAC and their stamp. */
  function Cleaned(s: Leases, cutoff: nat): (r: Leases)
    ensures forall i :: 0 <= i < 256 ==> r.table[i] == CleanedEntry(s, i, cutoff)
    ensures forall i :: 0 <= i < 256 ==> r.stamps[i] == if Expired(s, i, cutoff) then 0 else s.stamps[i]
  {
    Leases(seq(256, i requires 0 <= i < 256 => CleanedEntry(s, i, cutoff)),
           seq(256, i requires 0 <= i < 256 => if Expired(s, i, cutoff) then 0 else s.stamps[i]))
  }

  function NodeCleanedEntry(s: Leases, i: nat, cutoff: nat): MacAddress
    requires i < 256
  {
    if 1 <= i < 255 && s.stamps[i] < cutoff then NULL_MAC else s.table[i]
  }

  /** The clean-up in the node's copy of ip.c: no zero test, and stamps stay in place. */
  function CleanedByNodeVersion(s: Leases, cutoff: nat): (r: Leases)
    ensures forall i :: 0 <= i < 256 ==> r.table[i] == NodeCleanedEntry(s, i, cutoff)
    ensures r.stamps == s.stamps
  {
    Leases(seq(256, i requires 0 <= i < 256 => NodeCleanedEntry(s, i, cutoff)), s.stamps)
  }

  function Step(s: Leases, op: Op): Leases {
    match op
    case Request(time, mac) => Issued(s, mac, time)
    case Message(time, mac, src, dst) =>
      if Admits(s.table, mac, src, dst) then s.(stamps := s.stamps[src[3] := time]) else s
    case CleanUp(_, cutoff) => Cleaned(s, cutoff)
  }

  /** The lease state before operation `k` of a history that starts at power-up. */
  function At(ops: seq<Op>, k: nat): Leases
    requires k <= |ops|
  {
    if k == 0 then Initial() else Step(At(ops, k - 1), ops[k - 1])
  }

  lemma {:induction false} AtAgrees(ops: seq<Op>, ops': seq<Op>, k: nat)
    requires k <= |ops| && k <= |ops'|
    requires forall i :: 0 <= i < k ==> ops[i] == ops'[i]
    ensures At(ops, k) == At(ops', k)
  {
    if k > 0 {
      AtAgrees(ops, ops', k - 1);
      assert ops[k - 1] == ops'[k - 1];
    }
  }

  lemma AtAppend(ops: seq<Op>, op: Op)
    ensures At(ops + [op], |ops| + 1) == Step(At(ops, |ops|), op)
  {
    AtAgrees(ops + [op], ops, |ops|);
  }

  /** The clock is positive and never runs backwards. */
  predicate Timed(ops: seq<Op>) {
    && (forall i :: 0 <= i < |ops| ==> ops[i].time > 0)
    && (forall i, j :: 0 <= i <= j < |ops| ==> ops[i].time <= ops[j].time)
  }

  /** Every frame comes from a real station. */
  predicate FromStations(ops: seq<Op>) {
    forall i :: 0 <= i < |ops| && !ops[i].CleanUp? ==> Station(ops[i].mac)
  }

  predicate Legal(ops: seq<Op>) {
    Timed(ops) && FromStations(ops)
  }

  function Occupied(t: Table): set<int> {
    set i | 2 <= i < 255 && t[i] != NULL_MAC
  }

  predicate Consistent(s: Leases, now: nat) {
    && (forall i :: 2 <= i < 255 ==> (s.table[i] != NULL_MAC <==> s.stamps[i] != 0))
    && (forall i :: 0 <= i < 256 ==> s.stamps[i] <= now)
    && (forall i :: 2 <= i < 255 ==> s.table[i] != BROADCAST_MAC)
    && s.table[0] == s.table[1] == NULL_MAC && s.table[255] == BROADCAST_MAC
    && s.stamps[0] == s.stamps[1] == s.stamps[255] == 0
  }

  lemma StepConsistent(s: Leases, op: Op, now: nat)
    requires Consistent(s, now) && now <= op.time && op.time > 0
    requires !op.CleanUp? ==> Station(op.mac)
    ensures Consistent(Step(s, op), op.time)
  {
  }

  function Clock(ops: seq<Op>, k: nat): nat
    requires k <= |ops|
  {
    if k == 0 then 0 else ops[k - 1].time
  }

  /** In every reachable state of the sink an address is occupied exactly when its stamp is set, no
      stamp is ahead of the clock, and the reserved entries are as initialised. */
  lemma {:induction false} AllocatorInvariant(ops: seq<Op>, k: nat)
    requires Legal(ops) && k <= |ops|
    ensures Consistent(At(ops, k), Clock(ops, k))
  {
    if k > 0 {
      AllocatorInvariant(ops, k - 1);
      var s, op, now := At(ops, k - 1), ops[k - 1], Clock(ops, k - 1);
      assert now <= op.time;
      assert op.time > 0;
      assert !op.CleanUp? ==> Station(op.mac);
      StepConsistent(s, op, now);
      assert Consistent(Step(s, op), op.time);
      assert Clock(ops, k) == op.time;
    }
  }

  /** Operation `op` writes the stamp of address `i`: it issues it or is an accepted message from it. */
  predicate Records(s: Leases, op: Op, i: int) {
    || (op.Request? && i != -1 && i == FirstFree(s.table))
    || (op.Message? && Admits(s.table, op.mac, op.src, op.dst) && i == op.src[3])
  }

  /** Between two operations an entry changes only by a recording operation or a clean-up that expires it. */
  lemma StepFrame(s: Leases, op: Op, i: int)
    requires 0 <= i < 256
    ensures !Records(s, op, i) && !(op.CleanUp? && Expired(s, i, op.cutoff)) ==>
              Step(s, op).table[i] == s.table[i] && Step(s, op).stamps[i] == s.stamps[i]
    ensures Records(s, op, i) ==> Step(s, op).stamps[i] == op.time
    ensures op.CleanUp? && Expired(s, i, op.cutoff) ==> Step(s, op).table[i] == NULL_MAC && Step(s, op).stamps[i] == 0
    ensures op.Message? ==> Step(s, op).table == s.table
    ensures s.table[i] != NULL_MAC && !op.CleanUp? && i < 255 ==> Step(s, op).table[i] == s.table[i]
  {
  }

  /** The stamp of an occupied address is at least as late as everything ever recorded for it. */
  lemma {:induction false} StampIsLatestRecord(ops: seq<Op>, k: nat, i: int, j: nat)
    requires Legal(ops) && j < k <= |ops| && 2 <= i < 255
    requires At(ops, k).table[i] != NULL_MAC && Records(At(ops, j), ops[j], i)
    ensures ops[j].time <= At(ops, k).stamps[i]
    decreases k
  {
    hide Step, Admits;
    var before, op := At(ops, k - 1), ops[k - 1];
    StepFrame(before, op, i);
    assert ops[j].time <= op.time;
    if Records(before, op, i) {
      assert At(ops, k).stamps[i] == op.time;
    } else {
      assert j < k - 1;
      assert At(ops, k).stamps[i] == before.stamps[i];
      StampIsLatestRecord(ops, k - 1, i, j);
    }
  }

  /** `s` is what history `h`, recorded up to clock value `now`, makes of the initial table. */
  predicate Recorded(s: Leases, h: seq<Op>, now: nat) {
    s == At(h, |h|) && Timed(h) && forall i :: 0 <= i < |h| ==> h[i].time <= now
  }

  lemma RecordedLater(s: Leases, h: seq<Op>, now: nat, later: nat)
    requires Recorded(s, h, now) && now <= later
    ensures Recorded(s, h, later)
  {
  }

  lemma TimedAppend(h: seq<Op>, op: Op)
    requires Timed(h) && op.time > 0 && forall i :: 0 <= i < |h| ==> h[i].time <= op.time
    ensures Timed(h + [op])
  {
  }

  /** Recording a step of the leases keeps the history truthful. */
  lemma RecordStep(s: Leases, h: seq<Op>, op: Op, now: nat)
    requires Recorded(s, h, op.time) && 0 < op.time <= now
    ensures Recorded(Step(s, op), h + [op], now)
  {
    hide Step, At, Timed;
    AtAppend(h, op);
    TimedAppend(h, op);
  }
}
