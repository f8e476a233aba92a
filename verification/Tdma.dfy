/** The TDMA schedule as values: slots, the reports a node makes, and why reports of different slots never overlap. */
module Tdma {
  import opened Types
  import opened Codec
  import opened Board
  import opened Mac

  function SlotCount(period: nat): nat {
    period / APP_DEFAULT_TIMESLOT_IN_MS
  }

  function SlotNumber(ip: IpAddress, period: nat): nat
    requires period >= APP_DEFAULT_TIMESLOT_IN_MS
  {
    ip[3] % SlotCount(period)
  }

  function Offset(slot: nat): nat {
    slot * APP_DEFAULT_TIMESLOT_IN_MS
  }

  /** From the clock test that sees a new period to the reading of `last`: one console line and one poll. */
  function Latency(l: Limits): nat {
    l.uart + l.poll
  }

  /** How late after its nominal instant a report may start: the tolerance or the last poll, and the latency. */
  function Jitter(l: Limits, slot: nat): nat {
    Latency(l) + l.poll + if slot == 0 then 1 else 0
  }

  /** The longest a report keeps the radio busy, from the clock value that triggers it: a console line and a whole
      failing send. */
  function Burst(l: Limits): nat {
    l.uart + MaxSendTime(l)
  }

  /** How much longer than a failing report, which prints nothing at its end, a successful one may keep the loop
      busy. */
  function Excess(l: Limits): nat {
    if l.uart > SuccessMargin(l) then l.uart - SuccessMargin(l) else 0
  }

  /** The longest until the loop goes on to wait for the next period. */
  function Busy(l: Limits): nat {
    Burst(l) + Excess(l)
  }

  /** One report: the start of its period, the clock value that triggered it, whether it was
      acknowledged, the clock when the send returned, and the clock when the loop goes on to wait for
      the next period. */
  datatype Report = Report(base: nat, start: nat, ok: bool, end: nat, done: nat)

  predicate InSlot(r: Report, period: nat, slot: nat, l: Limits)
    requires period > 0
  {
    && r.base % period == 0
    && r.base + Offset(slot) <= r.start <= r.base + Offset(slot) + Jitter(l, slot)
    && (if r.ok then
          r.start + l.minTx <= r.end && r.end + SuccessMargin(l) <= r.start + Burst(l)
              && r.end <= r.done <= r.end + l.uart
        else
          r.start + 9 * MAC_ACK_DEFAULT_WAIT_TIME <= r.end <= r.start + Burst(l) && r.done == r.end)
  }

  /** The next report belongs to a period whose start a poll after this one sees: not to one whose first
      two milliseconds were over by then. A board that polls at least every two milliseconds misses the
      start of a period only if its first poll after the report comes too late; a slower one may step
      over any number of them. */
  predicate Follows(r: Report, next: Report, period: nat, l: Limits) {
    && r.done <= next.start && r.done <= next.base + 1
    && (l.poll <= 2 ==> next.base + 2 <= r.done + l.poll + period)
  }

  predicate ReportRun(rs: seq<Report>, period: nat, slot: nat, l: Limits)
    requires period > 0
  {
    && (forall i :: 0 <= i < |rs| ==> InSlot(rs[i], period, slot, l))
    && (forall i :: 0 < i < |rs| ==> Follows(rs[i - 1], rs[i], period, l))
  }

  /** The board polls often enough to see every period start, and a report is over neither within the two
      milliseconds that count as the start of its period nor after the start of the next. */
  predicate Prompt(l: Limits, period: nat, slot: nat) {
    l.poll <= 2 && (slot >= 1 || l.minTx >= 2) && Offset(slot) + Jitter(l, slot) + Busy(l) + l.poll < period + 2
  }

  lemma MultiplesApart(a: nat, b: nat, period: nat)
    requires period > 0 && a % period == 0 && b % period == 0
    ensures a < b ==> a + period <= b
  {
    var k, k' := a / period, b / period;
    assert a == k * period && b == k' * period;
    if a < b {
      assert b - a == (k' - k) * period;
      if k' <= k { MulOrder(k', k, period); }
      MulMonotone(k' - k, period);
    }
  }

  lemma PromptIsDone(r: Report, period: nat, slot: nat, l: Limits)
    requires period > 0 && InSlot(r, period, slot, l) && Prompt(l, period, slot)
    ensures r.base + 2 <= r.done && r.done + l.poll < r.base + period + 2 && l.poll <= 2
  {
    hide MaxSendTime, SuccessMargin;
  }

  lemma PeriodAfter(base: nat, period: nat)
    requires period > 0 && base % period == 0
    ensures (base + period) % period == 0
  {
    ModUnique(base + period, period, base / period + 1, 0);
  }

  /** The only multiple of the period between this one and the next but one. */
  lemma MultipleBetween(base: nat, next: nat, period: nat)
    requires period > 0 && base % period == 0 && next % period == 0 && base < next < base + 2 * period
    ensures next == base + period
  {
    PeriodAfter(base, period);
    MultiplesApart(base, next, period);
    MultiplesApart(base + period, next, period);
  }

  lemma NextPeriod(r: Report, next: Report, period: nat, slot: nat, l: Limits)
    requires period > 0 && InSlot(r, period, slot, l) && InSlot(next, period, slot, l)
    requires Follows(r, next, period, l) && Prompt(l, period, slot)
    ensures next.base == r.base + period
  {
    PromptIsDone(r, period, slot, l);
    assert r.base % period == 0 && next.base % period == 0;
    hide InSlot, Prompt;
    MultipleBetween(r.base, next.base, period);
  }

  /** Reports do not drift: report `n` starts in period `n` after the first, at its offset, at most the
      jitter late, and each period has exactly one. */
  lemma {:induction false} ReportsDoNotDrift(rs: seq<Report>, period: nat, slot: nat, l: Limits, n: nat)
    requires period > 0 && ReportRun(rs, period, slot, l) && n < |rs| && Prompt(l, period, slot)
    ensures rs[n].base == rs[0].base + n * period
    ensures var due := rs[0].base + n * period + slot * APP_DEFAULT_TIMESLOT_IN_MS;
            due <= rs[n].start <= due + Jitter(l, slot)
  {
    assert InSlot(rs[n], period, slot, l);
    if n > 0 {
      ReportsDoNotDrift(rs, period, slot, l, n - 1);
      NextPeriod(rs[n - 1], rs[n], period, slot, l);
      assert n * period == (n - 1) * period + period;
    }
  }

  /** With one poll per millisecond no report of a slot but 0, however far into the run, is more than one
      millisecond and the latency late. */
  lemma FinePollingBoundsLateness(rs: seq<Report>, period: nat, slot: nat, l: Limits, n: nat)
    requires period > 0 && ReportRun(rs, period, slot, l) && n < |rs| && Prompt(l, period, slot) && l.poll == 1
    requires slot >= 1
    ensures var due := rs[0].base + n * period + slot * APP_DEFAULT_TIMESLOT_IN_MS;
            due <= rs[n].start <= due + 1 + (l.uart + l.poll)
  {
    ReportsDoNotDrift(rs, period, slot, l, n);
  }

  /** In every run of a node in this slot, each report opens a new period and no period is left out. */
  ghost predicate AlwaysOncePerPeriod(period: nat, slot: nat, l: Limits)
    requires period > 0
  {
    forall rs: seq<Report>, n: nat :: n < |rs| && ReportRun(rs, period, slot, l) ==>
          rs[n].base == rs[0].base + n * period
  }

  /** The report that keeps the loop busy longest: late, and either failing or acknowledged in the last
      window and printing a slow console line. */
  function Latest(base: nat, slot: nat, l: Limits): Report {
    var start := base + Offset(slot) + Jitter(l, slot);
    if l.uart > SuccessMargin(l) then Report(base, start, true, start + Burst(l) - SuccessMargin(l), start + Busy(l))
    else Report(base, start, false, start + Burst(l), start + Busy(l))
  }

  lemma LatestInSlot(k: nat, period: nat, slot: nat, l: Limits)
    requires period > 0 && l.Sound()
    ensures InSlot(Latest(k * period, slot, l), period, slot, l)
  {
    ModUnique(k * period, period, k, 0);
  }

  /** A transmission of less than two milliseconds lets slot 0 report twice in a period. */
  lemma ShortReportsRepeat(period: nat, l: Limits)
    requires period > 0 && l.Sound() && l.minTx < 2
    ensures !AlwaysOncePerPeriod(period, 0, l)
  {
    var end := period + l.minTx;
    var first, again := Report(period, period, true, end, end), Report(period, period + 1, true, end + 1, end + 1);
    ModUnique(period, period, 1, 0);
    assert InSlot(first, period, 0, l) && InSlot(again, period, 0, l) && Follows(first, again, period, l);
    var rs := [first, again];
    assert ReportRun(rs, period, 0, l) && rs[1].base != rs[0].base + 1 * period;
  }

  lemma LargestMultiple(x: nat, period: nat) returns (m: nat, q: nat)
    requires period > 0
    ensures m == q * period && m <= x < m + period
  {
    q := x / period;
    m := q * period;
    assert x == q * period + x % period;
  }

  /** Reports that are not done before the next period starts make the node miss it. */
  lemma LongReportsSkip(period: nat, slot: nat, l: Limits)
    requires period > 0 && l.Sound() && Offset(slot) + Jitter(l, slot) + Busy(l) + l.poll >= period + 2
    ensures !AlwaysOncePerPeriod(period, slot, l)
  {
    var first := Latest(1 * period, slot, l);
    var base, q := LargestMultiple(first.done + l.poll + period - 2, period);
    var next := Latest(base, slot, l);
    LatestInSlot(1, period, slot, l);
    LatestInSlot(q, period, slot, l);
    assert Follows(first, next, period, l);
    var rs := [first, next];
    assert ReportRun(rs, period, slot, l) && rs[1].base != rs[0].base + 1 * period;
  }

  /** A board that polls less often than every two milliseconds can step over the start of a period. */
  lemma SlowPollsSkip(period: nat, slot: nat, l: Limits)
    requires period > 0 && l.Sound() && l.poll > 2
    ensures !AlwaysOncePerPeriod(period, slot, l)
  {
    var first := Latest(1 * period, slot, l);
    var base, q := LargestMultiple(first.done + 3 * period, period);
    var next := Latest(base, slot, l);
    LatestInSlot(1, period, slot, l);
    LatestInSlot(q, period, slot, l);
    var rs := [first, next];
    assert Follows(first, next, period, l);
    assert ReportRun(rs, period, slot, l) && rs[1].base != rs[0].base + 1 * period;
  }

  /** A node reports exactly once per period, whatever happens, exactly when it polls its clock at least
      every two milliseconds, its slot is not the first or a transmission takes at least two
      milliseconds, and its reports are done in time for the next period. */
  lemma OncePerPeriodIffPrompt(period: nat, slot: nat, l: Limits)
    requires period >= APP_DEFAULT_TIMESLOT_IN_MS && l.Sound()
    ensures AlwaysOncePerPeriod(period, slot, l) <==> Prompt(l, period, slot)
  {
    if Prompt(l, period, slot) {
      forall rs: seq<Report>, n: nat | n < |rs| && ReportRun(rs, period, slot, l)
        ensures rs[n].base == rs[0].base + n * period
      {
        ReportsDoNotDrift(rs, period, slot, l, n);
      }
    } else if l.poll > 2 {
      SlowPollsSkip(period, slot, l);
    } else if slot == 0 && l.minTx < 2 {
      ShortReportsRepeat(period, l);
    } else {
      LongReportsSkip(period, slot, l);
    }
  }

  /** The guard-time inequality for two nodes whose clocks differ by at most `skew`. */
  predicate Guarded(l: Limits, slot: nat, skew: nat) {
    Jitter(l, slot) + Burst(l) + skew < APP_DEFAULT_TIMESLOT_IN_MS
  }

  lemma NominalInstantsApart(base: nat, base': nat, slot: nat, slot': nat, period: nat)
    requires period >= APP_DEFAULT_TIMESLOT_IN_MS && base % period == 0 && base' % period == 0
    requires slot != slot' && slot < SlotCount(period) && slot' < SlotCount(period)
    requires base <= base'
    ensures base + Offset(slot) + APP_DEFAULT_TIMESLOT_IN_MS <= base' + Offset(slot')
         || base' + Offset(slot') + APP_DEFAULT_TIMESLOT_IN_MS <= base + Offset(slot)
  {
    MultiplesApart(base, base', period);
  }

  lemma MulOrder(a: nat, b: nat, c: nat)
    requires a <= b
    ensures a * c <= b * c
  {
  }

  /** Two nodes in different slots never have overlapping reports: not within a period, nor the last slot
      of one against slot 0 of the next. `error` is how far a node's clock is ahead of common time. */
  lemma ReportsNeverOverlap(rs: seq<Report>, l: Limits, slot: nat, error: int,
                            rs': seq<Report>, l': Limits, slot': nat, error': int,
                            period: nat, skew: nat, i: nat, j: nat)
    requires period >= APP_DEFAULT_TIMESLOT_IN_MS && slot != slot' && slot < SlotCount(period)
    requires slot' < SlotCount(period)
    requires ReportRun(rs, period, slot, l) && ReportRun(rs', period, slot', l') && i < |rs| && j < |rs'|
    requires error <= error' + skew && error' <= error + skew && Guarded(l, slot, skew) && Guarded(l', slot', skew)
    ensures rs[i].end - error < rs'[j].start - error' || rs'[j].end - error' < rs[i].start - error
  {
    assert InSlot(rs[i], period, slot, l) && InSlot(rs'[j], period, slot', l');
    if rs[i].base <= rs'[j].base {
      NominalInstantsApart(rs[i].base, rs'[j].base, slot, slot', period);
    } else {
      NominalInstantsApart(rs'[j].base, rs[i].base, slot', slot, period);
    }
  }

  // ---- How far apart synchronisation leaves the clocks ----

  /** How long a parameter reply takes from the sink's reading of its clock to the node's setting of its own. */
  datatype Transit = Transit(least: nat, most: nat) {
    predicate Sound() {
      least <= most
    }

    function Range(): nat
      requires Sound()
    {
      most - least
    }
  }

  /** How far a node's clock may be ahead of the sink's after `retries` failed attempts. */
  predicate Synchronised(retries: nat, transit: Transit, error: int) {
    100 * retries + 75 - transit.most <= error <= 100 * retries + 75 - transit.least
  }

  /** How far apart the clocks of nodes are that needed numbers of attempts `spread` apart. */
  function Skew(spread: nat, transit: Transit): nat
    requires transit.Sound()
  {
    100 * spread + transit.Range()
  }

  /** If `r` and `r'` are reports of different slots by nodes that needed at most `spread` more attempts
      than one another, they do not overlap. */
  predicate Apart(r: Report, slot: nat, error: int, retries: nat, r': Report, slot': nat, error': int, retries': nat,
                  period: nat, l: Limits, transit: Transit, spread: nat)
    requires period > 0
  {
    && slot != slot' && slot < SlotCount(period) && slot' < SlotCount(period) && InSlot(r, period, slot, l)
    && InSlot(r', period, slot', l)
    && retries < NODE_PARAM_RETRIES && retries' < NODE_PARAM_RETRIES && retries <= retries' + spread
    && retries' <= retries + spread
    && Synchronised(retries, transit, error) && Synchronised(retries', transit, error')
    ==> r.end - error < r'.start - error' || r'.end - error' < r.start - error
  }

  ghost predicate ToleratesRetries(period: nat, l: Limits, transit: Transit, spread: nat)
    requires period > 0
  {
    forall r, slot, error, retries, r', slot', error', retries' ::
      Apart(r, slot, error, retries, r', slot', error', retries', period, l, transit, spread)
  }

  lemma GuardedMeansApart(r: Report, slot: nat, error: int, retries: nat, r': Report, slot': nat, error': int,
                          retries': nat,
                          period: nat, l: Limits, transit: Transit, spread: nat)
    requires period >= APP_DEFAULT_TIMESLOT_IN_MS && transit.Sound() && Guarded(l, 0, Skew(spread, transit))
    ensures Apart(r, slot, error, retries, r', slot', error', retries', period, l, transit, spread)
  {
    if slot != slot' && slot < SlotCount(period) && slot' < SlotCount(period) && InSlot(r, period, slot, l)
        && InSlot(r', period, slot', l) {
      if error <= error' + Skew(spread, transit) && error' <= error + Skew(spread, transit) {
        ReportsNeverOverlap([r], l, slot, error, [r'], l, slot', error', period, Skew(spread, transit), 0, 0);
      }
    }
  }

  /** The node in slot 1 is ahead by enough attempts to start its report before slot 0's is over. */
  lemma UnguardedMeansOverlap(period: nat, l: Limits, transit: Transit, spread: nat)
    requires SlotCount(period) >= 2 && l.Sound() && transit.Sound() && spread < NODE_PARAM_RETRIES
    requires !Guarded(l, 0, Skew(spread, transit))
    ensures !ToleratesRetries(period, l, transit, spread)
  {
    var gap := APP_DEFAULT_TIMESLOT_IN_MS - Jitter(l, 0) - Burst(l);
    var slack := transit.Range();
    var retries' := if gap <= slack then 0 else (gap - slack + 99) / 100;
    assert retries' <= spread;
    var ahead := if gap <= 0 then 0 else if gap <= slack then gap else 100 * retries' + slack;
    var error := 75 - transit.least - (ahead - 100 * retries');
    var error' := error + ahead;
    var late := if gap >= 0 then Jitter(l, 0) else if Burst(l) <= APP_DEFAULT_TIMESLOT_IN_MS
        then APP_DEFAULT_TIMESLOT_IN_MS - Burst(l) else 0;
    var r := Report(period, period + late, false, period + late + Burst(l), period + late + Burst(l));
    var start' := period + APP_DEFAULT_TIMESLOT_IN_MS;
    var r' := Report(period, start', false, start' + Burst(l), start' + Burst(l));
    ModUnique(period, period, 1, 0);
    assert !Apart(r, 0, error, 0, r', 1, error', retries', period, l, transit, spread);
  }

  /** Nodes that synchronised with up to `spread` attempts between them never report at the same time, in
      any pair of slots, exactly when jitter, burst, the variation of the transit and 100 milliseconds per attempt
      stay below one slot. */
  lemma ToleratesRetriesIffGuarded(period: nat, l: Limits, transit: Transit, spread: nat)
    requires SlotCount(period) >= 2 && l.Sound() && transit.Sound() && spread < NODE_PARAM_RETRIES
    ensures ToleratesRetries(period, l, transit, spread) <==> Guarded(l, 0, Skew(spread, transit))
  {
    if Guarded(l, 0, Skew(spread, transit)) {
      forall r, slot, error, retries, r', slot', error', retries'
        ensures Apart(r, slot, error, retries, r', slot', error', retries', period, l, transit, spread)
      {
        GuardedMeansApart(r, slot, error, retries, r', slot', error', retries', period, l, transit, spread);
      }
    } else {
      UnguardedMeansOverlap(period, l, transit, spread);
    }
  }

  /** However fast the hardware, five attempts more than another node are too many: nine ack windows and
      500 milliseconds of clock error do not fit into one slot. */
  lemma FiveRetriesAreTooMany(period: nat, l: Limits, transit: Transit, spread: nat)
    requires SlotCount(period) >= 2 && l.Sound() && transit.Sound() && 5 <= spread < NODE_PARAM_RETRIES
    ensures !ToleratesRetries(period, l, transit, spread)
  {
    ToleratesRetriesIffGuarded(period, l, transit, spread);
  }
}
