/** What the sink's allocator guarantees over every history of requests, messages and clean-ups. */
module LeaseTheorems {
  import opened Types
  import opened Codec
  import opened Counting
  import opened Leases

  function OccupiedAt(ops: seq<Op>, k: nat): set<int>
    requires k <= |ops|
  {
    Occupied(At(ops, k).table)
  }

  // ---- First fit keeps addresses compact, and compact addresses have distinct slots ----

  lemma IssuedIsCompact(s: Leases, mac: MacAddress, time: nat)
    ensures var i, t := FirstFree(s.table), Issued(s, mac, time).table;
            && (i == -1 ==> Occupied(t) == Occupied(s.table) == Range(2, 255))
            && (i != -1 && mac == NULL_MAC ==> Occupied(t) == Occupied(s.table))
            && (i != -1 && mac != NULL_MAC ==>
                  i !in Occupied(s.table) && Occupied(t) == Occupied(s.table) + {i} && Range(2, i + 1) <= Occupied(t))
  {
    FirstMatchIsLeast(s.table, NULL_MAC, 2);
  }

  lemma StepIsCompact(s: Leases, op: Op, n: nat)
    requires forall i :: i in Occupied(s.table) ==> 2 <= i <= n + 1
    requires |Occupied(Step(s, op).table)| <= n
    ensures forall i :: i in Occupied(Step(s, op).table) ==> 2 <= i <= n + 1
  {
    hide Issued, Cleaned, FirstFree, Admits;
    match op
    case Request(time, mac) =>
      IssuedIsCompact(s, mac, time);
      var i := FirstFree(s.table);
      if i != -1 && mac != NULL_MAC {
        SubsetSize(Range(2, i + 1), Occupied(Step(s, op).table));
        RangeSize(2, i + 1);
      }
    case Message(_, _, _, _) =>
      assert Step(s, op).table == s.table;
    case CleanUp(_, _) =>
      assert Occupied(Step(s, op).table) <= Occupied(s.table);
  }

  /** If never more than `n` addresses were occupied at once, every occupied address lies in 2..n+1. */
  lemma {:induction false} FirstFitIsCompact(ops: seq<Op>, n: nat, k: nat)
    requires k <= |ops| && forall j :: 0 <= j <= k ==> |OccupiedAt(ops, j)| <= n
    ensures forall i :: i in OccupiedAt(ops, k) ==> 2 <= i <= n + 1
  {
    hide Step, Occupied;
    if k > 0 {
      FirstFitIsCompact(ops, n, k - 1);
      assert |OccupiedAt(ops, k)| <= n && OccupiedAt(ops, k - 1) == Occupied(At(ops, k - 1).table);
      StepIsCompact(At(ops, k - 1), ops[k - 1], n);
    } else {
      NothingOccupiedInitially();
    }
  }

  /** In every state, occupied addresses fall into pairwise different TDMA slots. */
  predicate NeverCollides(ops: seq<Op>, slotCount: int)
    requires slotCount > 0
  {
    forall k :: 0 <= k <= |ops| ==> InjectiveMod(OccupiedAt(ops, k), slotCount)
  }

  /** In no state are more addresses occupied than there are slots. */
  predicate NeverCrowded(ops: seq<Op>, slotCount: int) {
    forall k :: 0 <= k <= |ops| ==> |OccupiedAt(ops, k)| <= slotCount
  }

  lemma CompactIsInjective(s: set<int>, c: int)
    requires c > 0 && forall i :: i in s ==> 2 <= i <= c + 1
    ensures InjectiveMod(s, c)
  {
    forall i, j | i in s && j in s && i != j
      ensures i % c != j % c
    {
      RemainderOf(i, c);
      RemainderOf(j, c);
    }
  }

  lemma RemainderOf(i: int, c: int)
    requires c > 0 && 2 <= i <= c + 1
    ensures c > 1 ==> i % c == if i < c then i else i - c
  {
    if c > 1 {
      if i < c { ModUnique(i, c, 0, i); } else { ModUnique(i, c, 1, i - c); }
    }
  }

  /** A run of the sink gives all occupied addresses different slots at all times exactly when it
      never has more of them than there are slots. */
  lemma DistinctSlotsIffNotCrowded(ops: seq<Op>, slotCount: int)
    requires slotCount > 0
    ensures NeverCollides(ops, slotCount) <==> NeverCrowded(ops, slotCount)
  {
    if NeverCrowded(ops, slotCount) {
      forall k | 0 <= k <= |ops|
        ensures InjectiveMod(OccupiedAt(ops, k), slotCount)
      {
        FirstFitIsCompact(ops, slotCount, k);
        CompactIsInjective(OccupiedAt(ops, k), slotCount);
      }
    }
    if NeverCollides(ops, slotCount) {
      forall k | 0 <= k <= |ops|
        ensures |OccupiedAt(ops, k)| <= slotCount
      {
        Pigeonhole(OccupiedAt(ops, k), slotCount);
      }
    }
  }

  // ---- Conservation of addresses ----

  function Issues(ops: seq<Op>, k: nat): nat
    requires k <= |ops|
  {
    if k == 0 then 0
    else Issues(ops, k - 1) + Gained(At(ops, k - 1), ops[k - 1])
  }

  function ExpiredSet(s: Leases, cutoff: nat): set<int> {
    set i | 1 <= i < 255 && Expired(s, i, cutoff)
  }

  function Evictions(ops: seq<Op>, k: nat): nat
    requires k <= |ops|
  {
    if k == 0 then 0
    else Evictions(ops, k - 1) + Lost(At(ops, k - 1), ops[k - 1])
  }

  lemma CleaningRemovesExpired(s: Leases, cutoff: nat, now: nat)
    requires Consistent(s, now)
    ensures |Occupied(Cleaned(s, cutoff).table)| + |ExpiredSet(s, cutoff)| == |Occupied(s.table)|
  {
    var kept, gone := Occupied(Cleaned(s, cutoff).table), ExpiredSet(s, cutoff);
    assert kept !! gone;
    assert Occupied(s.table) == kept + gone;
  }

  function Gained(s: Leases, op: Op): nat {
    if op.Request? && FirstFree(s.table) != -1 then 1 else 0
  }

  function Lost(s: Leases, op: Op): nat {
    if op.CleanUp? then |ExpiredSet(s, op.cutoff)| else 0
  }

  lemma StepConserves(s: Leases, op: Op, now: nat)
    requires Consistent(s, now) && (op.Request? ==> Station(op.mac))
    ensures |Occupied(Step(s, op).table)| + Lost(s, op) == |Occupied(s.table)| + Gained(s, op)
  {
    match op
    case Request(time, mac) => IssuedIsCompact(s, mac, time);
    case Message(_, _, _, _) => assert Step(s, op).table == s.table;
    case CleanUp(_, cutoff) => CleaningRemovesExpired(s, cutoff, now);
  }

  lemma BalanceOf(ops: seq<Op>, k: nat)
    requires Legal(ops) && k < |ops|
    ensures |OccupiedAt(ops, k + 1)| + Lost(At(ops, k), ops[k]) == |OccupiedAt(ops, k)| + Gained(At(ops, k), ops[k])
  {
    AllocatorInvariant(ops, k);
    StepConserves(At(ops, k), ops[k], Clock(ops, k));
  }

  lemma NothingOccupiedInitially()
    ensures Occupied(Initial().table) == {}
  {
  }

  /** Every address ever issued is either still occupied or was evicted: nothing is lost or duplicated. */
  lemma {:induction false} AddressesAreConserved(ops: seq<Op>, k: nat)
    requires Legal(ops) && k <= |ops|
    ensures |OccupiedAt(ops, k)| + Evictions(ops, k) == Issues(ops, k)
  {
    hide Step, Gained, Lost, Consistent, Occupied;
    if k == 0 {
      NothingOccupiedInitially();
    } else {
      AddressesAreConserved(ops, k - 1);
      BalanceOf(ops, k - 1);
    }
  }

  // ---- Lease safety ----

  /** Clean-ups happen as APP_sink schedules them: the cut-off is more than one epoch in the past. */
  predicate Scheduled(ops: seq<Op>) {
    forall k :: 0 <= k < |ops| && ops[k].CleanUp? ==> ops[k].cutoff + APP_EPOCH_UNTIL_CLEAN < ops[k].time
  }

  /** Operation `k` takes the address `i` away from whoever holds it. */
  predicate Evicts(ops: seq<Op>, k: nat, i: int)
    requires k < |ops| && 0 <= i < 256
  {
    At(ops, k).table[i] != NULL_MAC && At(ops, k + 1).table[i] == NULL_MAC
  }

  /** An address is evicted only if neither its issue nor any accepted message from it was recorded
      during the last epoch, and exactly when its stamp is older than the clean-up's cut-off. */
  lemma EvictedOnlyWhenSilent(ops: seq<Op>, k: nat, i: int)
    requires Legal(ops) && Scheduled(ops) && k < |ops| && 2 <= i < 255
    ensures At(ops, k).table[i] != NULL_MAC ==>
              (Evicts(ops, k, i) <==> ops[k].CleanUp? && At(ops, k).stamps[i] < ops[k].cutoff)
    ensures Evicts(ops, k, i) ==>
              forall j :: 0 <= j < k && Records(At(ops, j), ops[j], i) ==>
                    ops[j].time + APP_EPOCH_UNTIL_CLEAN < ops[k].time
  {
    AllocatorInvariant(ops, k);
    StepFrame(At(ops, k), ops[k], i);
    if Evicts(ops, k, i) {
      forall j | 0 <= j < k && Records(At(ops, j), ops[j], i)
        ensures ops[j].time + APP_EPOCH_UNTIL_CLEAN < ops[k].time
      {
        StampIsLatestRecord(ops, k, i, j);
      }
    }
  }

  /** Something was recorded for address `i` within the epoch before operation `k`, at or after operation `a`. */
  predicate HeardRecently(ops: seq<Op>, a: nat, k: nat, i: int)
    requires k < |ops|
  {
    exists j :: a <= j < k && Records(At(ops, j), ops[j], i) && ops[k].time <= ops[j].time + APP_EPOCH_UNTIL_CLEAN
  }

  lemma HeardMeansKept(ops: seq<Op>, a: nat, n: nat, i: int)
    requires Legal(ops) && Scheduled(ops) && n < |ops| && 2 <= i < 255
    requires At(ops, n).table[i] != NULL_MAC
    requires ops[n].CleanUp? ==> HeardRecently(ops, a, n, i)
    ensures At(ops, n + 1).table[i] == At(ops, n).table[i]
  {
    EvictedOnlyWhenSilent(ops, n, i);
    StepFrame(At(ops, n), ops[n], i);
  }

  /** A station whose address is recorded at least once per epoch keeps that address for the whole run. */
  lemma {:induction false} ActiveStationKeepsAddress(ops: seq<Op>, a: nat, i: int, k: nat)
    requires Legal(ops) && Scheduled(ops) && a < k <= |ops| && 2 <= i < 255
    requires At(ops, a + 1).table[i] != NULL_MAC
    requires forall n {:trigger HeardRecently(ops, a, n, i)} :: a < n < k && ops[n].CleanUp? ==>
               HeardRecently(ops, a, n, i)
    ensures At(ops, k).table[i] == At(ops, a + 1).table[i]
    decreases k
  {
    hide Step, HeardRecently;
    if k > a + 1 {
      ActiveStationKeepsAddress(ops, a, i, k - 1);
      HeardMeansKept(ops, a, k - 1, i);
    }
  }

  /** An entry that was occupied and no longer is was evicted in between. */
  lemma {:induction false} EvictedBetween(ops: seq<Op>, j: nat, k: nat, i: int) returns (e: nat)
    requires j <= k <= |ops| && 0 <= i < 256 && At(ops, j).table[i] != NULL_MAC && At(ops, k).table[i] == NULL_MAC
    ensures j <= e < k && Evicts(ops, e, i)
    decreases k
  {
    hide Step;
    if At(ops, k - 1).table[i] != NULL_MAC {
      e := k - 1;
    } else {
      e := EvictedBetween(ops, j, k - 1, i);
    }
  }

  lemma RecordingOccupies(s: Leases, op: Op, i: int)
    requires 2 <= i < 255 && Records(s, op, i) && Station(op.mac)
    ensures Step(s, op).table[i] == op.mac
  {
  }

  lemma FreeAgainAfterSilence(ops: seq<Op>, j: nat, k: nat, i: int)
    requires Legal(ops) && Scheduled(ops) && j < k < |ops| && 2 <= i < 255
    requires Records(At(ops, j), ops[j], i)
    requires At(ops, j + 1).table[i] != NULL_MAC && At(ops, k).table[i] == NULL_MAC
    ensures ops[j].time + APP_EPOCH_UNTIL_CLEAN < ops[k].time
  {
    hide Step, Records, At;
    var e := EvictedBetween(ops, j + 1, k, i);
    EvictedOnlyWhenSilent(ops, e, i);
    assert ops[e].time <= ops[k].time;
  }

  /** An address is issued to someone only after whoever held it before has been silent for a whole epoch:
      a station that is heard at least once per epoch never shares its address. */
  lemma ReissuedOnlyAfterSilence(ops: seq<Op>, j: nat, k: nat, i: int)
    requires Legal(ops) && Scheduled(ops) && j < k < |ops| && 2 <= i < 255
    requires Records(At(ops, j), ops[j], i)
    requires ops[k].Request? && FirstFree(At(ops, k).table) == i
    ensures ops[j].time + APP_EPOCH_UNTIL_CLEAN < ops[k].time
  {
    RecordingOccupies(At(ops, j), ops[j], i);
    FreeAgainAfterSilence(ops, j, k, i);
  }

  // ---- Admission ----

  predicate Listed(t: Table, m: MacAddress) {
    exists i :: 0 <= i < 256 && t[i] == m
  }

  /** The sink forwards a unicast frame from a station exactly when it is addressed to the sink's IP
      and the entry at the source's last byte is the sender's; it then changes only that stamp. */
  lemma AdmissionIsByTableEntry(s: Leases, op: Op)
    requires op.Message? && Station(op.mac)
    requires s.table[0] == NULL_MAC && s.table[255] == BROADCAST_MAC
    ensures Admits(s.table, op.mac, op.src, op.dst) <==> op.dst == SINK_IP && s.table[op.src[3]] == op.mac
    ensures Step(s, op).table == s.table
    ensures forall i :: 0 <= i < 256 ==>
              Step(s, op).stamps[i]
              == if Admits(s.table, op.mac, op.src, op.dst) && i == op.src[3] then op.time else s.stamps[i]
  {
    FirstMatchIsLeast(s.table, op.mac, 1);
  }

  lemma StepKeepsUnlisted(s: Leases, op: Op, m: MacAddress)
    requires Station(m) && !Listed(s.table, m) && !(op.Request? && op.mac == m)
    ensures !Listed(Step(s, op).table, m)
  {
  }

  predicate NotRequestedBy(ops: seq<Op>, a: nat, k: nat, m: MacAddress)
    requires k <= |ops|
  {
    forall n :: a <= n < k ==> !(ops[n].Request? && ops[n].mac == m)
  }

  lemma {:induction false} StaysUnlisted(ops: seq<Op>, a: nat, k: nat, m: MacAddress)
    requires Station(m) && a <= k <= |ops| && !Listed(At(ops, a).table, m)
    requires NotRequestedBy(ops, a, k, m)
    ensures !Listed(At(ops, k).table, m)
    decreases k
  {
    hide Step, Listed;
    if k > a {
      StaysUnlisted(ops, a, k - 1, m);
      StepKeepsUnlisted(At(ops, k - 1), ops[k - 1], m);
    }
  }

  /** A station none of whose entries is left is refused in every later state until it is issued an address again. */
  lemma EvictedStationIsRefused(ops: seq<Op>, a: nat, k: nat, m: MacAddress, src: IpAddress, dst: IpAddress)
    requires Station(m) && a <= k <= |ops| && !Listed(At(ops, a).table, m)
    requires NotRequestedBy(ops, a, k, m)
    ensures !Admits(At(ops, k).table, m, src, dst)
  {
    StaysUnlisted(ops, a, k, m);
    assert At(ops, k).table[src[3]] != m;
  }

  // ---- The two versions of the clean-up ----

  function StepNodeVersion(s: Leases, op: Op): Leases {
    if op.CleanUp? then CleanedByNodeVersion(s, op.cutoff) else Step(s, op)
  }

  function AtNodeVersion(ops: seq<Op>, k: nat): Leases
    requires k <= |ops|
  {
    if k == 0 then Initial()
    else StepNodeVersion(AtNodeVersion(ops, k - 1), ops[k - 1])
  }

  predicate SameLeases(s: Leases, s': Leases) {
    s.table == s'.table && forall i :: 0 <= i < 256 && s.table[i] != NULL_MAC ==> s.stamps[i] == s'.stamps[i]
  }

  /** A clean-up meets an occupied entry that was recorded while the clock still read zero. */
  predicate MeetsZeroStamp(s: Leases, op: Op) {
    op.CleanUp? && op.cutoff > 0 && exists i :: 1 <= i < 255 && s.table[i] != NULL_MAC && s.stamps[i] == 0
  }

  lemma StepsAgree(s: Leases, s': Leases, op: Op)
    requires SameLeases(s, s')
    ensures !MeetsZeroStamp(s, op) ==> SameLeases(Step(s, op), StepNodeVersion(s', op))
    ensures MeetsZeroStamp(s, op) ==> Step(s, op).table != StepNodeVersion(s', op).table
  {
    if MeetsZeroStamp(s, op) {
      var i :| 1 <= i < 255 && s.table[i] != NULL_MAC && s.stamps[i] == 0;
      assert Step(s, op).table[i] != StepNodeVersion(s', op).table[i];
    }
  }

  ghost predicate SameTables(ops: seq<Op>, k: nat)
    requires k <= |ops|
  {
    At(ops, k).table == AtNodeVersion(ops, k).table
  }

  ghost predicate MeetsZeroStampAt(ops: seq<Op>, k: nat)
    requires k < |ops|
  {
    MeetsZeroStamp(At(ops, k), ops[k])
  }

  lemma {:induction false} SameUntilZeroStamp(ops: seq<Op>, k: nat)
    requires k <= |ops| && forall j :: 0 <= j < k ==> !MeetsZeroStampAt(ops, j)
    ensures SameLeases(At(ops, k), AtNodeVersion(ops, k))
  {
    hide Step, StepNodeVersion, MeetsZeroStamp, Initial;
    if k > 0 {
      assert !MeetsZeroStampAt(ops, k - 1);
      SameUntilZeroStamp(ops, k - 1);
      StepsAgree(At(ops, k - 1), AtNodeVersion(ops, k - 1), ops[k - 1]);
    }
  }

  lemma {:induction false} ZeroStampMakesDifference(ops: seq<Op>, k: nat) returns (n: nat)
    requires k < |ops| && MeetsZeroStampAt(ops, k)
    ensures n <= |ops| && !SameTables(ops, n)
  {
    if j :| 0 <= j < k && MeetsZeroStampAt(ops, j) {
      n := ZeroStampMakesDifference(ops, j);
    } else {
      SameUntilZeroStamp(ops, k);
      StepsAgree(At(ops, k), AtNodeVersion(ops, k), ops[k]);
      n := k + 1;
    }
  }

  /** Driven by the same events, the clean-up that leaves stamps behind and the one that resets them
      produce the same MAC table in every state exactly when no clean-up meets an entry recorded at time zero. */
  lemma CleanUpVersionsAgreeIff(ops: seq<Op>)
    ensures (forall k :: 0 <= k <= |ops| ==> SameTables(ops, k)) <==>
              (forall k :: 0 <= k < |ops| ==> !MeetsZeroStampAt(ops, k))
  {
    if k :| 0 <= k < |ops| && MeetsZeroStampAt(ops, k) {
      var n := ZeroStampMakesDifference(ops, k);
    } else {
      forall k | 0 <= k <= |ops|
        ensures SameTables(ops, k)
      {
        SameUntilZeroStamp(ops, k);
      }
    }
  }

  /** Under a positive clock that is every run of the sink. */
  lemma CleanUpVersionsAreEquivalent(ops: seq<Op>, k: nat)
    requires Legal(ops) && k <= |ops|
    ensures SameLeases(At(ops, k), AtNodeVersion(ops, k))
  {
    forall j | 0 <= j < k
      ensures !MeetsZeroStampAt(ops, j)
    {
      AllocatorInvariant(ops, j);
    }
    SameUntilZeroStamp(ops, k);
  }
}
