/** The clean-up schedule of APP_sink: what a run of passes through its endless loop does to the leases. */
module SinkSchedule {
  import opened Types
  import opened Counting
  import opened Leases
  import opened LeaseTheorems

  /** One pass: the clock at its clean-up test, the clock when `lastClean` is re-read after a clean-up,
      what `IP_recv_data` brought, and the clock after the closing one-millisecond delay. */
  datatype Pass = Pass(start: nat, cleanEnd: nat, op: Option<Op>, end: nat) {
    predicate InOrder() {
      && 0 < start <= cleanEnd < end
      && (op.Some? ==> !op.value.CleanUp? && cleanEnd <= op.value.time < end)
    }
  }

  datatype Sink = Sink(leases: Leases, lastClean: nat)

  predicate Due(s: Sink, p: Pass) {
    p.start > s.lastClean + APP_EPOCH_UNTIL_CLEAN
  }

  function Swept(s: Sink, p: Pass): Sink {
    if Due(s, p) then Sink(Cleaned(s.leases, s.lastClean), p.cleanEnd) else s
  }

  function AfterPass(s: Sink, p: Pass): Sink {
    var c := Swept(s, p);
    if p.op.Some? then Sink(Step(c.leases, p.op.value), c.lastClean) else c
  }

  /** The sink before pass `n` of a run that entered the loop at clock value `entry`. */
  function Before(entry: nat, ps: seq<Pass>, n: nat): Sink
    requires n <= |ps|
  {
    if n == 0 then Sink(Initial(), entry) else AfterPass(Before(entry, ps, n - 1), ps[n - 1])
  }

  predicate Run(entry: nat, ps: seq<Pass>) {
    && (forall n :: 0 <= n < |ps| ==> ps[n].InOrder() && entry <= ps[n].start)
    && (forall m, n :: 0 <= m < n < |ps| ==> ps[m].end <= ps[n].start)
  }

  /** One pass through the loop takes at most `limit` milliseconds. */
  predicate PassesWithin(entry: nat, ps: seq<Pass>, limit: nat) {
    && (|ps| > 0 ==> ps[0].start <= entry + limit)
    && (forall n :: 0 < n < |ps| ==> ps[n].start <= ps[n - 1].start + limit)
    && (forall n :: 0 <= n < |ps| ==> ps[n].end <= ps[n].start + limit)
  }

  /** Each pass works for at most `work` milliseconds, and the next begins within one poll. */
  predicate OnPace(entry: nat, ps: seq<Pass>, work: nat, poll: nat) {
    && (forall n :: 0 <= n < |ps| ==> ps[n].end <= ps[n].start + work)
    && (forall n :: 0 < n < |ps| ==> ps[n].start <= ps[n - 1].end + poll)
    && (|ps| > 0 ==> ps[0].start <= entry + poll)
  }

  lemma OnPaceAppend(entry: nat, ps: seq<Pass>, p: Pass, work: nat, poll: nat)
    requires OnPace(entry, ps, work, poll) && p.end <= p.start + work
    requires p.start <= (if |ps| == 0 then entry else ps[|ps| - 1].end) + poll
    ensures OnPace(entry, ps + [p], work, poll)
  {
  }

  lemma PaceBoundsPasses(entry: nat, ps: seq<Pass>, work: nat, poll: nat)
    requires OnPace(entry, ps, work, poll)
    ensures PassesWithin(entry, ps, work + poll)
  {
    forall n | 0 < n < |ps|
      ensures ps[n].start <= ps[n - 1].start + work + poll
    {
      assert ps[n - 1].end <= ps[n - 1].start + work;
    }
  }

  // ---- A run of passes is a scheduled history of operations ----

  function SweepOps(lastClean: nat, start: nat): seq<Op> {
    if start > lastClean + APP_EPOCH_UNTIL_CLEAN then [CleanUp(start, lastClean)] else []
  }

  function CleanUps(s: Sink, p: Pass): seq<Op> {
    SweepOps(s.lastClean, p.start)
  }

  function Received(p: Pass): seq<Op> {
    if p.op.Some? then [p.op.value] else []
  }

  function History(entry: nat, ps: seq<Pass>, n: nat): seq<Op>
    requires n <= |ps|
  {
    if n == 0 then []
    else History(entry, ps, n - 1) + CleanUps(Before(entry, ps, n - 1), ps[n - 1]) + Received(ps[n - 1])
  }

  predicate Ordered(ops: seq<Op>, now: nat) {
    Timed(ops) && Scheduled(ops) && forall i :: 0 <= i < |ops| ==> ops[i].time <= now
  }

  lemma Append(ops: seq<Op>, op: Op, now: nat)
    requires Ordered(ops, now) && 0 < now <= op.time
    requires op.CleanUp? ==> op.cutoff + APP_EPOCH_UNTIL_CLEAN < op.time
    ensures Ordered(ops + [op], op.time)
    ensures At(ops + [op], |ops| + 1) == Step(At(ops, |ops|), op)
  {
    OrderedAppend(ops, op, now);
    AtAppend(ops, op);
  }

  lemma OrderedAppend(ops: seq<Op>, op: Op, now: nat)
    requires Ordered(ops, now) && 0 < now <= op.time
    requires op.CleanUp? ==> op.cutoff + APP_EPOCH_UNTIL_CLEAN < op.time
    ensures Ordered(ops + [op], op.time)
  {
  }

  lemma LastCleanIsPast(entry: nat, ps: seq<Pass>, n: nat)
    requires Run(entry, ps) && n <= |ps|
    ensures Before(entry, ps, n).lastClean <= if n > 0 && ps[n - 1].end > entry then ps[n - 1].end else entry
    decreases n
  {
    if n > 0 {
      LastCleanIsPast(entry, ps, n - 1);
    }
  }

  /** Every run of the sink's loop is a timed, scheduled history whose replay is the sink's lease state,
      so everything proved about histories holds of the running sink. */
  lemma {:induction false} RunIsScheduledHistory(entry: nat, ps: seq<Pass>, n: nat)
    requires Run(entry, ps) && n <= |ps|
    ensures var h := History(entry, ps, n);
            Ordered(h, if n == 0 then 0 else ps[n - 1].end) && At(h, |h|) == Before(entry, ps, n).leases
    decreases n
  {
    if n > 0 {
      RunIsScheduledHistory(entry, ps, n - 1);
      var s, p, h := Before(entry, ps, n - 1), ps[n - 1], History(entry, ps, n - 1);
      SweepExtends(h, s, p);
      ReceiveExtends(h + CleanUps(s, p), Swept(s, p).leases, p);
    }
  }

  lemma SweepExtends(h: seq<Op>, s: Sink, p: Pass)
    requires p.InOrder() && Ordered(h, p.start) && At(h, |h|) == s.leases
    ensures var h' := h + CleanUps(s, p);
            Ordered(h', p.start) && At(h', |h'|) == Swept(s, p).leases
  {
    hide Ordered, At;
    if Due(s, p) {
      Append(h, CleanUp(p.start, s.lastClean), p.start);
    } else {
      assert h + CleanUps(s, p) == h;
    }
  }

  lemma ReceiveExtends(h: seq<Op>, s: Leases, p: Pass)
    requires p.InOrder() && Ordered(h, p.start) && At(h, |h|) == s
    ensures var h' := h + Received(p);
            Ordered(h', p.end) && At(h', |h'|) == if p.op.Some? then Step(s, p.op.value) else s
  {
    hide Step, At;
    if p.op.Some? {
      Append(h, p.op.value, p.start);
    } else {
      assert h + Received(p) == h;
    }
  }

  lemma {:induction false} PrefixAgrees(entry: nat, ps: seq<Pass>, p: Pass, n: nat)
    requires n <= |ps|
    ensures Before(entry, ps + [p], n) == Before(entry, ps, n)
    ensures History(entry, ps + [p], n) == History(entry, ps, n)
  {
    if n > 0 {
      PrefixAgrees(entry, ps, p, n - 1);
      assert (ps + [p])[n - 1] == ps[n - 1];
    }
  }

  /** Going once more through the loop extends the run and its history by one pass. */
  lemma NextPass(entry: nat, ps: seq<Pass>, p: Pass)
    requires Run(entry, ps) && p.InOrder() && entry <= p.start
    requires forall m :: 0 <= m < |ps| ==> ps[m].end <= p.start
    ensures Run(entry, ps + [p])
    ensures var s := Before(entry, ps, |ps|);
            && Before(entry, ps + [p], |ps| + 1) == AfterPass(s, p)
            && History(entry, ps + [p], |ps| + 1) == History(entry, ps, |ps|) + CleanUps(s, p) + Received(p)
  {
    PrefixAgrees(entry, ps, p, |ps|);
  }

  /** A program that has made the passes `ps`, performed the operations `h` and holds `lastClean` is where the
      schedule says. */
  predicate OnSchedule(entry: nat, ps: seq<Pass>, h: seq<Op>, lastClean: nat, now: nat) {
    && Run(entry, ps) && entry <= now
    && (forall m :: 0 <= m < |ps| ==> ps[m].end <= now)
    && h == History(entry, ps, |ps|)
    && lastClean == Before(entry, ps, |ps|).lastClean <= now
  }

  lemma StaysOnSchedule(entry: nat, ps: seq<Pass>, p: Pass, h: seq<Op>, lastClean: nat, now: nat)
    requires OnSchedule(entry, ps, h, lastClean, now) && p.InOrder() && now <= p.start
    ensures OnSchedule(entry, ps + [p], h + SweepOps(lastClean, p.start) + Received(p),
                       if p.start > lastClean + APP_EPOCH_UNTIL_CLEAN then p.cleanEnd else lastClean, p.end)
  {
    NextPass(entry, ps, p);
  }

  // ---- Lease expiry ----

  /** Pass `n` records something for address `i`. */
  predicate RecordedIn(entry: nat, ps: seq<Pass>, n: nat, i: int)
    requires n < |ps|
  {
    var s := Swept(Before(entry, ps, n), ps[n]).leases;
    ps[n].op.Some? && Records(s, ps[n].op.value, i)
  }

  /** Address `i` was recorded in pass `k` and never again before pass `n`. */
  predicate SilentSince(entry: nat, ps: seq<Pass>, i: int, k: nat, n: nat)
    requires n <= |ps|
  {
    k < n && RecordedIn(entry, ps, k, i) && forall m :: k < m < n ==> !RecordedIn(entry, ps, m, i)
  }

  lemma SinceLastClean(entry: nat, ps: seq<Pass>, limit: nat, n: nat)
    requires Run(entry, ps) && PassesWithin(entry, ps, limit) && n < |ps|
    ensures ps[n].start <= Before(entry, ps, n).lastClean + APP_EPOCH_UNTIL_CLEAN + limit
    decreases n
  {
    if n > 0 {
      SinceLastClean(entry, ps, limit, n - 1);
    }
  }

  /** Address `i` was last recorded at `t` and no clean-up has read the clock since, or one has, or the lease is
      gone. */
  predicate Fresh(s: Sink, i: int, t: nat)
    requires 0 <= i < 256
  {
    s.lastClean <= t && s.leases.stamps[i] == t
  }

  predicate Marked(s: Sink, i: int, t: nat)
    requires 0 <= i < 256
  {
    t < s.lastClean && s.leases.stamps[i] == t
  }

  predicate Gone(s: Sink, i: int)
    requires 0 <= i < 256
  {
    s.leases.table[i] == NULL_MAC && s.leases.stamps[i] == 0
  }

  lemma FadeStep(s: Sink, p: Pass, i: int, t: nat)
    requires p.InOrder() && 2 <= i < 255 && 0 < t < p.start
    requires p.op.Some? ==> !Records(Swept(s, p).leases, p.op.value, i)
    ensures Fresh(s, i, t) ==> if Due(s, p) then Marked(AfterPass(s, p), i, t) else Fresh(AfterPass(s, p), i, t)
    ensures Marked(s, i, t) ==> if Due(s, p) then Gone(AfterPass(s, p), i) else Marked(AfterPass(s, p), i, t)
    ensures Gone(s, i) ==> Gone(AfterPass(s, p), i)
  {
    if Due(s, p) {
      StepFrame(s.leases, CleanUp(p.start, s.lastClean), i);
    }
    if p.op.Some? {
      StepFrame(Swept(s, p).leases, p.op.value, i);
    }
  }

  lemma JustRecorded(entry: nat, ps: seq<Pass>, k: nat, i: int)
    requires Run(entry, ps) && k < |ps| && 2 <= i < 255 && RecordedIn(entry, ps, k, i)
    ensures Fresh(Before(entry, ps, k + 1), i, ps[k].op.value.time)
  {
    LastCleanIsPast(entry, ps, k);
    StepFrame(Swept(Before(entry, ps, k), ps[k]).leases, ps[k].op.value, i);
  }

  lemma SilentPass(entry: nat, ps: seq<Pass>, i: int, k: nat, n: nat)
    requires Run(entry, ps) && n < |ps| && SilentSince(entry, ps, i, k, n + 1) && k < n
    ensures SilentSince(entry, ps, i, k, n)
    ensures ps[k].op.Some? && ps[n].InOrder() && 0 < ps[k].op.value.time < ps[n].start
    ensures ps[n].op.Some? ==> !Records(Swept(Before(entry, ps, n), ps[n]).leases, ps[n].op.value, i)
  {
    assert !RecordedIn(entry, ps, n, i);
    assert ps[k].end <= ps[n].start;
  }

  lemma {:induction false} Fades(entry: nat, ps: seq<Pass>, i: int, k: nat, n: nat)
    requires Run(entry, ps) && n <= |ps| && 2 <= i < 255 && SilentSince(entry, ps, i, k, n)
    ensures var s, t := Before(entry, ps, n), ps[k].op.value.time;
            Fresh(s, i, t) || Marked(s, i, t) || Gone(s, i)
    decreases n
  {
    if n == k + 1 {
      JustRecorded(entry, ps, k, i);
    } else {
      Fades(entry, ps, i, k, n - 1);
      SilentPass(entry, ps, i, k, n - 1);
      FadeStep(Before(entry, ps, n - 1), ps[n - 1], i, ps[k].op.value.time);
    }
  }

  lemma MarkStep(s: Sink, p: Pass, i: int, t: nat, limit: nat)
    requires p.InOrder() && 2 <= i < 255 && 0 < t < p.start
    requires p.op.Some? ==> !Records(Swept(s, p).leases, p.op.value, i)
    requires Fresh(s, i, t) || Gone(s, i) || (Marked(s, i, t) && s.lastClean <= t + APP_EPOCH_UNTIL_CLEAN + 2 * limit)
    requires p.start <= s.lastClean + APP_EPOCH_UNTIL_CLEAN + limit && p.end <= p.start + limit
    ensures Marked(AfterPass(s, p), i, t) ==> AfterPass(s, p).lastClean <= t + APP_EPOCH_UNTIL_CLEAN + 2 * limit
  {
  }

  lemma MarkPass(entry: nat, ps: seq<Pass>, limit: nat, i: int, k: nat, n: nat)
    requires Run(entry, ps) && PassesWithin(entry, ps, limit)
    requires n < |ps| && 2 <= i < 255 && SilentSince(entry, ps, i, k, n + 1) && k < n
    requires var s, t := Before(entry, ps, n), ps[k].op.value.time;
             Marked(s, i, t) ==> s.lastClean <= t + APP_EPOCH_UNTIL_CLEAN + 2 * limit
    ensures var s, t := Before(entry, ps, n + 1), ps[k].op.value.time;
            Marked(s, i, t) ==> s.lastClean <= t + APP_EPOCH_UNTIL_CLEAN + 2 * limit
  {
    hide Step, Records, AfterPass, Marked, Fresh, Gone;
    SilentPass(entry, ps, i, k, n);
    Fades(entry, ps, i, k, n);
    SinceLastClean(entry, ps, limit, n);
    MarkStep(Before(entry, ps, n), ps[n], i, ps[k].op.value.time, limit);
  }

  lemma {:induction false} MarkedSoon(entry: nat, ps: seq<Pass>, limit: nat, i: int, k: nat, n: nat)
    requires Run(entry, ps) && PassesWithin(entry, ps, limit)
    requires n <= |ps| && 2 <= i < 255 && SilentSince(entry, ps, i, k, n)
    ensures var s, t := Before(entry, ps, n), ps[k].op.value.time;
            Marked(s, i, t) ==> s.lastClean <= t + APP_EPOCH_UNTIL_CLEAN + 2 * limit
    decreases n
  {
    hide Run, PassesWithin, Before, RecordedIn;
    if n == k + 1 {
      JustRecorded(entry, ps, k, i);
    } else {
      MarkedSoon(entry, ps, limit, i, k, n - 1);
      MarkPass(entry, ps, limit, i, k, n - 1);
    }
  }

  /** With passes of at most `limit` milliseconds, an address last recorded at `t` and silent ever
      since is free at every pass that starts later than two epochs and three passes after `t`. */
  lemma SilentLeaseExpires(entry: nat, ps: seq<Pass>, limit: nat, i: int, k: nat, n: nat)
    requires Run(entry, ps) && PassesWithin(entry, ps, limit)
    requires n < |ps| && 2 <= i < 255 && SilentSince(entry, ps, i, k, n)
    ensures ps[n].start > ps[k].op.value.time + 2 * APP_EPOCH_UNTIL_CLEAN + 3 * limit ==>
              Before(entry, ps, n).leases.table[i] == NULL_MAC
  {
    Fades(entry, ps, i, k, n);
    MarkedSoon(entry, ps, limit, i, k, n);
    SinceLastClean(entry, ps, limit, n);
  }

  /** Address `i` survived no clean-up of the passes up to `n` without being marked. */
  predicate NotFresh(entry: nat, ps: seq<Pass>, i: int, k: nat, n: nat)
    requires n <= |ps| && k < |ps| && ps[k].op.Some? && 0 <= i < 256
  {
    !Fresh(Before(entry, ps, n), i, ps[k].op.value.time)
  }

  lemma PassFades(entry: nat, ps: seq<Pass>, i: int, k: nat, m: nat)
    requires Run(entry, ps) && k < m < |ps| && 2 <= i < 255 && SilentSince(entry, ps, i, k, m + 1)
    ensures NotFresh(entry, ps, i, k, m) || Due(Before(entry, ps, m), ps[m]) ==> NotFresh(entry, ps, i, k, m + 1)
    ensures NotFresh(entry, ps, i, k, m) && Due(Before(entry, ps, m), ps[m]) ==> Gone(Before(entry, ps, m + 1), i)
    ensures Gone(Before(entry, ps, m), i) ==> Gone(Before(entry, ps, m + 1), i)
  {
    Fades(entry, ps, i, k, m);
    SilentPass(entry, ps, i, k, m);
    FadeStep(Before(entry, ps, m), ps[m], i, ps[k].op.value.time);
  }

  lemma {:induction false} StaysFaded(entry: nat, ps: seq<Pass>, i: int, k: nat, m: nat, n: nat)
    requires Run(entry, ps) && k < m <= n <= |ps| && 2 <= i < 255 && SilentSince(entry, ps, i, k, n)
    ensures NotFresh(entry, ps, i, k, m) ==> NotFresh(entry, ps, i, k, n)
    ensures Gone(Before(entry, ps, m), i) ==> Gone(Before(entry, ps, n), i)
    decreases n
  {
    hide AfterPass, Fresh, Gone, Due, RecordedIn;
    if m < n {
      StaysFaded(entry, ps, i, k, m, n - 1);
      PassFades(entry, ps, i, k, n - 1);
    }
  }

  /** However long passes take, a silent address is gone after the second clean-up that follows its last record. */
  lemma GoneBySecondCleanUp(entry: nat, ps: seq<Pass>, i: int, k: nat, first: nat, second: nat, n: nat)
    requires Run(entry, ps) && k < first < second < n <= |ps| && 2 <= i < 255 && SilentSince(entry, ps, i, k, n)
    requires Due(Before(entry, ps, first), ps[first]) && Due(Before(entry, ps, second), ps[second])
    ensures Before(entry, ps, n).leases.table[i] == NULL_MAC
  {
    hide AfterPass, Fresh, Due, RecordedIn;
    PassFades(entry, ps, i, k, first);
    StaysFaded(entry, ps, i, k, first + 1, second);
    PassFades(entry, ps, i, k, second);
    StaysFaded(entry, ps, i, k, second + 1, n);
  }

  // ---- How many addresses one station can hold ----

  function HeldBy(s: Leases, m: MacAddress): set<int> {
    set i | 2 <= i < 255 && s.table[i] == m
  }

  /** The passes before `n` in which something was recorded for station `m` no earlier than `since`. */
  function RecordingsOf(entry: nat, ps: seq<Pass>, n: nat, m: MacAddress, since: int): set<int>
    requires n <= |ps|
  {
    set k | 0 <= k < n && ps[k].op.Some? && !ps[k].op.value.CleanUp? && ps[k].op.value.mac == m
        && since <= ps[k].op.value.time
            && RecordsSomething(entry, ps, k)
  }

  predicate RecordsSomething(entry: nat, ps: seq<Pass>, k: nat)
    requires k < |ps|
  {
    exists i :: 2 <= i < 255 && RecordedIn(entry, ps, k, i)
  }

  lemma RecordsOne(entry: nat, ps: seq<Pass>, k: nat, i: int, j: int)
    requires k < |ps| && RecordedIn(entry, ps, k, i) && RecordedIn(entry, ps, k, j)
    ensures i == j
  {
  }

  lemma HolderOnlyChangesWhenRecorded(s: Sink, p: Pass, i: int)
    requires p.InOrder() && 2 <= i < 255 && AfterPass(s, p).leases.table[i] != NULL_MAC
    requires p.op.Some? ==> !p.op.value.CleanUp? && Station(p.op.value.mac)
    ensures p.op.Some? && Records(Swept(s, p).leases, p.op.value, i) ==>
              AfterPass(s, p).leases.table[i] == p.op.value.mac
    ensures !(p.op.Some? && Records(Swept(s, p).leases, p.op.value, i)) ==>
              AfterPass(s, p).leases.table[i] == s.leases.table[i]
  {
    if p.op.Some? {
      StepFrame(Swept(s, p).leases, p.op.value, i);
      if Records(Swept(s, p).leases, p.op.value, i) {
        RecordingOccupies(Swept(s, p).leases, p.op.value, i);
      }
    }
  }

  predicate PassesFromStations(ps: seq<Pass>) {
    forall k :: 0 <= k < |ps| && ps[k].op.Some? ==> !ps[k].op.value.CleanUp? && Station(ps[k].op.value.mac)
  }

  /** Behind every occupied address is the pass that recorded it last, for the station that holds it. */
  lemma {:induction false} LastRecording(entry: nat, ps: seq<Pass>, n: nat, i: int) returns (k: nat)
    requires Run(entry, ps) && PassesFromStations(ps) && n <= |ps| && 2 <= i < 255
    requires Before(entry, ps, n).leases.table[i] != NULL_MAC
    ensures SilentSince(entry, ps, i, k, n) && ps[k].op.Some?
    ensures ps[k].op.value.mac == Before(entry, ps, n).leases.table[i]
    decreases n
  {
    hide AfterPass, Swept, Records;
    if n == 0 {
      assert false;
    }
    HolderOnlyChangesWhenRecorded(Before(entry, ps, n - 1), ps[n - 1], i);
    if RecordedIn(entry, ps, n - 1, i) {
      k := n - 1;
    } else {
      k := LastRecording(entry, ps, n - 1, i);
    }
  }

  /** A station never holds more addresses than it had requests granted or messages accepted within two
      epochs and three passes: a station whose offers are lost leaks addresses only that fast. */
  lemma HoldsNoMoreThanRecorded(entry: nat, ps: seq<Pass>, limit: nat, n: nat, m: MacAddress)
    requires Run(entry, ps) && PassesFromStations(ps) && PassesWithin(entry, ps, limit) && n < |ps| && Station(m)
    ensures |HeldBy(Before(entry, ps, n).leases, m)|
            <= |RecordingsOf(entry, ps, n, m, ps[n].start - 2 * APP_EPOCH_UNTIL_CLEAN - 3 * limit)|
  {
    hide Before, RecordedIn, Run, PassesWithin;
    var held := HeldBy(Before(entry, ps, n).leases, m);
    var recordings := RecordingsOf(entry, ps, n, m, ps[n].start - 2 * APP_EPOCH_UNTIL_CLEAN - 3 * limit);
    var last := LastRecordings(entry, ps, limit, n, m, held);
    InjectionSize(held, recordings, last);
  }

  lemma {:induction false} LastRecordings(entry: nat, ps: seq<Pass>, limit: nat, n: nat, m: MacAddress, held: set<int>)
    returns (last: map<int, int>)
    requires Run(entry, ps) && PassesFromStations(ps) && PassesWithin(entry, ps, limit) && n < |ps| && Station(m)
    requires held <= HeldBy(Before(entry, ps, n).leases, m)
    ensures forall i :: i in held ==>
              i in last && last[i] in RecordingsOf(entry, ps, n, m, ps[n].start - 2 * APP_EPOCH_UNTIL_CLEAN - 3 * limit)
    ensures forall i, j :: i in held && j in held && i != j ==> last[i] != last[j]
    ensures forall i :: i in last ==> i in held && 0 <= last[i] < |ps| && RecordedIn(entry, ps, last[i], i)
    decreases held
  {
    hide Before, RecordedIn, Run, PassesWithin;
    if held == {} {
      last := map[];
    } else {
      var x := Pick(held);
      var rest := LastRecordings(entry, ps, limit, n, m, held - {x});
      var k := LastRecording(entry, ps, n, x);
      SilentLeaseExpires(entry, ps, limit, x, k, n);
      assert RecordsSomething(entry, ps, k);
      var since := ps[n].start - 2 * APP_EPOCH_UNTIL_CLEAN - 3 * limit;
      assert ps[k].op.value.mac == m && since <= ps[k].op.value.time;
      assert k in RecordingsOf(entry, ps, n, m, since);
      forall i | i in rest
        ensures rest[i] != k
      {
        if rest[i] == k {
          RecordsOne(entry, ps, k, i, x);
        }
      }
      last := rest[x := k];
      forall i | i in held
        ensures i in last && last[i] in RecordingsOf(entry, ps, n, m, since)
      {
        assert i == x || i in held - {x};
      }
    }
  }
}
