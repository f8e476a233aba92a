/** What a station's radio log looks like over several acknowledged sends and the waits that follow them. */
module Exchanges {
  import opened Types
  import opened Framing
  import opened Board
  import opened Mac
  import opened Admission

  // ---- Several sends of one frame ----

  /** One exchange after the other, with these outcomes, and nothing else. */
  ghost predicate Rounds(ev: seq<RadioEvent>, oks: seq<bool>, me: MacAddress, dst: MacAddress, frame: Frame)
    decreases |oks|
  {
    if |oks| == 0 then ev == []
    else
      exists cut: nat :: cut <= |ev|
        && Rounds(ev[..cut], oks[..|oks| - 1], me, dst, frame) && Exchange(ev[cut..], me, dst, frame, oks[|oks| - 1])
  }

  lemma NoExchanges(me: MacAddress, dst: MacAddress, frame: Frame)
    ensures Rounds([], [], me, dst, frame)
  {
  }

  lemma OneMoreExchange(ev: seq<RadioEvent>, oks: seq<bool>, more: seq<RadioEvent>, ok: bool,
                        me: MacAddress, dst: MacAddress, frame: Frame)
    requires Rounds(ev, oks, me, dst, frame) && Exchange(more, me, dst, frame, ok)
    ensures Rounds(ev + more, oks + [ok], me, dst, frame)
  {
    hide Exchange;
    assert (ev + more)[..|ev|] == ev && (ev + more)[|ev|..] == more;
    assert (oks + [ok])[..|oks|] == oks;
  }

  /** Sending stops with the first success and is tried at most `most` times. */
  predicate StopsAtSuccess(oks: seq<bool>, most: nat) {
    && 0 < |oks| <= most
    && (forall i :: 0 <= i < |oks| - 1 ==> !oks[i])
    && (oks[|oks| - 1] || |oks| == most)
  }

  /** A failing exchange transmits ten times and a successful one up to nine times, always the same frame. */
  lemma {:induction false} ExchangesTransmit(ev: seq<RadioEvent>, oks: seq<bool>, me: MacAddress, dst: MacAddress,
                                             frame: Frame)
    requires Rounds(ev, oks, me, dst, frame)
    ensures forall i :: 0 <= i < |ev| && ev[i].Sent? ==> ev[i].frame == frame
    ensures |oks| <= SentCount(ev) <= MAC_MAX_RETRIES * |oks|
    ensures (forall i :: 0 <= i < |oks| ==> !oks[i]) ==> SentCount(ev) == MAC_MAX_RETRIES * |oks|
    decreases |oks|
  {
    hide Exchange, SentCount;
    if |oks| > 0 {
      var front, last := oks[..|oks| - 1], oks[|oks| - 1];
      var cut: nat :| cut <= |ev| && Rounds(ev[..cut], front, me, dst, frame)
          && Exchange(ev[cut..], me, dst, frame, last);
      ExchangesTransmit(ev[..cut], front, me, dst, frame);
      OneExchangeTransmits(ev[cut..], me, dst, frame, last);
      SentCountAppend(ev[..cut], ev[cut..]);
      assert ev == ev[..cut] + ev[cut..];
    } else {
      HeardSendsNothing([]);
    }
  }

  lemma OneExchangeTransmits(ev: seq<RadioEvent>, me: MacAddress, dst: MacAddress, frame: Frame, ok: bool)
    requires Exchange(ev, me, dst, frame, ok)
    ensures forall i :: 0 <= i < |ev| && ev[i].Sent? ==> ev[i].frame == frame
    ensures 1 <= SentCount(ev) <= MAC_MAX_RETRIES && (!ok ==> SentCount(ev) == MAC_MAX_RETRIES)
  {
  }

  predicate Unmatched(ev: seq<RadioEvent>, me: MacAddress, dst: MacAddress) {
    forall i :: 0 <= i < |ev| ==> !IsMatch(ev[i], me, dst)
  }

  lemma UnmatchedPieces(ev: seq<RadioEvent>, cut: nat, me: MacAddress, dst: MacAddress)
    requires cut <= |ev| && Unmatched(ev[..cut], me, dst) && Unmatched(ev[cut..], me, dst)
    ensures Unmatched(ev, me, dst)
  {
    hide IsMatch;
    assert ev == ev[..cut] + ev[cut..];
  }

  lemma FailureUnmatched(ev: seq<RadioEvent>, me: MacAddress, dst: MacAddress, frame: Frame)
    requires Exchange(ev, me, dst, frame, false)
    ensures Unmatched(ev, me, dst)
  {
    hide IsMatch;
  }

  lemma {:induction false} FailuresHearNothing(ev: seq<RadioEvent>, oks: seq<bool>, me: MacAddress, dst: MacAddress,
                                               frame: Frame)
    requires Rounds(ev, oks, me, dst, frame) && forall i :: 0 <= i < |oks| ==> !oks[i]
    ensures Unmatched(ev, me, dst)
    decreases |oks|
  {
    hide Exchange, Unmatched;
    if |oks| > 0 {
      var front := oks[..|oks| - 1];
      var cut: nat :| cut <= |ev| && Rounds(ev[..cut], front, me, dst, frame)
          && Exchange(ev[cut..], me, dst, frame, false);
      FailuresHearNothing(ev[..cut], front, me, dst, frame);
      FailureUnmatched(ev[cut..], me, dst, frame);
      UnmatchedPieces(ev, cut, me, dst);
    } else {
      NothingUnmatched(me, dst);
    }
  }

  lemma NothingUnmatched(me: MacAddress, dst: MacAddress)
    ensures Unmatched([], me, dst)
  {
  }

  lemma SuccessEndsWithMatch(ev: seq<RadioEvent>, me: MacAddress, dst: MacAddress, frame: Frame)
    requires Exchange(ev, me, dst, frame, true)
    ensures |ev| > 0 && IsMatch(ev[|ev| - 1], me, dst) && Unmatched(ev[..|ev| - 1], me, dst)
  {
    hide IsMatch;
  }

  /** Sending goes on until the first matching ack, which is the last thing that happens, or until all
      rounds of ten transmissions are spent. */
  lemma SentUntilAcknowledged(ev: seq<RadioEvent>, oks: seq<bool>, most: nat, me: MacAddress, dst: MacAddress,
                              frame: Frame)
    requires Rounds(ev, oks, me, dst, frame) && StopsAtSuccess(oks, most)
    ensures oks[|oks| - 1] ==> |ev| > 0 && IsMatch(ev[|ev| - 1], me, dst) && Unmatched(ev[..|ev| - 1], me, dst)
    ensures !oks[|oks| - 1] ==> Unmatched(ev, me, dst) && SentCount(ev) == MAC_MAX_RETRIES * most
  {
    hide Exchange, IsMatch, Unmatched, SentCount;
    var front, last := oks[..|oks| - 1], oks[|oks| - 1];
    if last {
      var cut: nat :| cut <= |ev| && Rounds(ev[..cut], front, me, dst, frame)
          && Exchange(ev[cut..], me, dst, frame, true);
      FailuresHearNothing(ev[..cut], front, me, dst, frame);
      SuccessEndsWithMatch(ev[cut..], me, dst, frame);
      var before := ev[..|ev| - 1];
      assert before[..cut] == ev[..cut] && before[cut..] == ev[cut..][..|ev| - cut - 1];
      UnmatchedPieces(before, cut, me, dst);
    } else {
      FailuresHearNothing(ev, oks, me, dst, frame);
      ExchangesTransmit(ev, oks, me, dst, frame);
    }
  }

  // ---- Asking until somebody answers ----

  /** Without an address a node takes any frame to it for the answer; afterwards it checks the addresses. */
  predicate Accepts(n: Option<NodeState>, b: Buffer, me: MacAddress) {
    n.None? || NodeAdmits(n.value, b, me)
  }

  /** An acknowledged exchange up to `mid`, then a wait that passes over `h` frames. */
  predicate AskedAndWaited(ev: seq<RadioEvent>, mid: nat, h: nat, me: MacAddress, dst: MacAddress, frame: Frame) {
    mid <= |ev| && Exchange(ev[..mid], me, dst, frame, true) && Reception(ev[mid..], h, me, false)
  }

  /** One round of asking that brought no answer: nobody acknowledged, or no frame came, or an unacceptable one. */
  ghost predicate Unanswered(ev: seq<RadioEvent>, me: MacAddress, dst: MacAddress, frame: Frame, n: Option<NodeState>) {
    || Exchange(ev, me, dst, frame, false)
    || exists mid: nat, h: nat ::
         AskedAndWaited(ev, mid, h, me, dst, frame) && (mid + h == |ev| || !Accepts(n, ev[mid + h].buffer, me))
  }

  /** One round of asking that `b` answered: the first frame to the station after an acknowledged exchange. */
  ghost predicate AnsweredBy(ev: seq<RadioEvent>, me: MacAddress, dst: MacAddress, frame: Frame, n: Option<NodeState>,
                             b: Buffer) {
    exists mid: nat, h: nat ::
      AskedAndWaited(ev, mid, h, me, dst, frame) && mid + h < |ev| && ev[mid + h] == Heard(b) && Accepts(n, b, me)
  }

  /** The question was acknowledged, and a frame came that is no answer. */
  ghost predicate Rejected(ev: seq<RadioEvent>, me: MacAddress, dst: MacAddress, frame: Frame, n: NodeState) {
    exists mid: nat, h: nat ::
      AskedAndWaited(ev, mid, h, me, dst, frame) && mid + h < |ev| && !NodeAdmits(n, ev[mid + h].buffer, me)
  }

  lemma RoundEnds(asked: seq<RadioEvent>, waited: seq<RadioEvent>, h: nat, me: MacAddress, dst: MacAddress,
                  frame: Frame,
                  n: Option<NodeState>)
    requires Exchange(asked, me, dst, frame, true) && Reception(waited, h, me, false)
    ensures if h < |waited|
            && Accepts(n, waited[h].buffer, me) then AnsweredBy(asked + waited, me, dst, frame, n, waited[h].buffer)
            else Unanswered(asked + waited, me, dst, frame, n)
    ensures h < |waited| && n.Some? && !Accepts(n, waited[h].buffer, me) ==>
              Rejected(asked + waited, me, dst, frame, n.value)
  {
    hide Exchange, NodeAdmits;
    var ev := asked + waited;
    assert ev[..|asked|] == asked && ev[|asked|..] == waited;
    assert AskedAndWaited(ev, |asked|, h, me, dst, frame);
    assert h < |waited| ==> ev[|asked| + h] == waited[h];
  }

  /** An acknowledged exchange and the wait after it can be told apart in only one way. */
  lemma OneReading(ev: seq<RadioEvent>, mid: nat, h: nat, mid': nat, h': nat, me: MacAddress, dst: MacAddress,
                   frame: Frame)
    requires AskedAndWaited(ev, mid, h, me, dst, frame) && AskedAndWaited(ev, mid', h', me, dst, frame)
    ensures mid == mid' && h == h'
  {
    hide IsMatch;
    AcknowledgedOnce(ev, mid, mid', me, dst, frame);
    AcknowledgedOnce(ev, mid', mid, me, dst, frame);
    OneReception(ev[mid..], h, h', me);
  }

  lemma AcknowledgedOnce(ev: seq<RadioEvent>, mid: nat, mid': nat, me: MacAddress, dst: MacAddress, frame: Frame)
    requires mid <= |ev| && mid' <= |ev|
    requires Exchange(ev[..mid], me, dst, frame, true) && Exchange(ev[..mid'], me, dst, frame, true)
    ensures mid <= mid'
  {
    hide IsMatch;
    var i :| 0 <= i < |ev[..mid']| && IsMatch(ev[..mid'][i], me, dst);
    assert IsMatch(ev[i], me, dst);
  }

  lemma OneReception(ev: seq<RadioEvent>, h: nat, h': nat, me: MacAddress)
    requires Reception(ev, h, me, false) && Reception(ev, h', me, false)
    ensures h == h'
  {
    hide Wanted, MacFrame;
  }

  /** A round of asking is answered or not, never both: an answer that came is not passed over. */
  lemma NoAnswerIsMissed(ev: seq<RadioEvent>, me: MacAddress, dst: MacAddress, frame: Frame, n: Option<NodeState>,
                         b: Buffer)
    requires Unanswered(ev, me, dst, frame, n)
    ensures !AnsweredBy(ev, me, dst, frame, n, b)
  {
    hide IsMatch, Wanted, MacFrame, Accepts, Exchange;
    if AnsweredBy(ev, me, dst, frame, n, b) {
      var mid: nat, h: nat :| AskedAndWaited(ev, mid, h, me, dst, frame) && mid + h < |ev|
        && ev[mid + h] == Heard(b) && Accepts(n, b, me);
      if Exchange(ev, me, dst, frame, false) {
        FailedOrNot(ev, mid, me, dst, frame);
      } else {
        var mid': nat, h': nat :| AskedAndWaited(ev, mid', h', me, dst, frame)
          && (mid' + h' == |ev| || !Accepts(n, ev[mid' + h'].buffer, me));
        OneReading(ev, mid, h, mid', h', me, dst, frame);
      }
    }
  }

  lemma FailedOrNot(ev: seq<RadioEvent>, mid: nat, me: MacAddress, dst: MacAddress, frame: Frame)
    requires mid <= |ev| && Exchange(ev, me, dst, frame, false)
    ensures !Exchange(ev[..mid], me, dst, frame, true)
  {
    hide IsMatch;
    if Exchange(ev[..mid], me, dst, frame, true) {
      var i :| 0 <= i < |ev[..mid]| && IsMatch(ev[..mid][i], me, dst);
      assert false;
    }
  }

  /** `k` rounds without an answer, and nothing else. */
  ghost predicate Tried(ev: seq<RadioEvent>, k: nat, me: MacAddress, dst: MacAddress, frame: Frame,
                        n: Option<NodeState>)
    decreases k
  {
    if k == 0 then ev == []
    else
      exists cut: nat :: cut <= |ev|
        && Tried(ev[..cut], k - 1, me, dst, frame, n) && Unanswered(ev[cut..], me, dst, frame, n)
  }

  /** `k` rounds without an answer and then one that `b` answers. */
  ghost predicate Obtained(ev: seq<RadioEvent>, k: nat, me: MacAddress, dst: MacAddress, frame: Frame,
                           n: Option<NodeState>, b: Buffer) {
    exists cut: nat :: cut <= |ev| && Tried(ev[..cut], k, me, dst, frame, n)
        && AnsweredBy(ev[cut..], me, dst, frame, n, b)
  }

  lemma NothingTried(me: MacAddress, dst: MacAddress, frame: Frame, n: Option<NodeState>)
    ensures Tried([], 0, me, dst, frame, n)
  {
  }

  lemma TriedAgain(ev: seq<RadioEvent>, k: nat, more: seq<RadioEvent>, me: MacAddress, dst: MacAddress, frame: Frame,
                   n: Option<NodeState>)
    requires Tried(ev, k, me, dst, frame, n) && Unanswered(more, me, dst, frame, n)
    ensures Tried(ev + more, k + 1, me, dst, frame, n)
  {
    hide Unanswered;
    assert (ev + more)[..|ev|] == ev && (ev + more)[|ev|..] == more;
  }

  lemma ObtainedAtLast(ev: seq<RadioEvent>, k: nat, more: seq<RadioEvent>, me: MacAddress, dst: MacAddress,
                       frame: Frame,
                       n: Option<NodeState>, b: Buffer)
    requires Tried(ev, k, me, dst, frame, n) && AnsweredBy(more, me, dst, frame, n, b)
    ensures Obtained(ev + more, k, me, dst, frame, n, b)
  {
    hide Tried, AnsweredBy;
    assert (ev + more)[..|ev|] == ev && (ev + more)[|ev|..] == more;
  }

  /** How often `frame` was sent. */
  function Transmissions(ev: seq<RadioEvent>, frame: Frame): nat {
    if |ev| == 0 then 0
    else Transmissions(ev[..|ev| - 1], frame) + if ev[|ev| - 1] == Sent(frame) then 1 else 0
  }

  lemma {:induction false} TransmissionsAdd(ev: seq<RadioEvent>, more: seq<RadioEvent>, frame: Frame)
    ensures Transmissions(ev + more, frame) == Transmissions(ev, frame) + Transmissions(more, frame)
    decreases |more|
  {
    if |more| == 0 {
      assert ev + more == ev;
    } else {
      var front := more[..|more| - 1];
      assert (ev + more)[..|ev + more| - 1] == ev + front;
      TransmissionsAdd(ev, front, frame);
    }
  }

  /** An exchange begins with a transmission, whatever follows it. */
  lemma BeginsWithTransmission(ev: seq<RadioEvent>, more: seq<RadioEvent>, me: MacAddress, dst: MacAddress,
                               frame: Frame, ok: bool)
    requires Exchange(ev, me, dst, frame, ok)
    ensures Transmissions(ev + more, frame) >= 1
  {
    var rest := (ev + more)[1..];
    assert ev + more == [Sent(frame)] + rest;
    TransmissionsAdd([Sent(frame)], rest, frame);
    assert [Sent(frame)][..0] == [];
  }

  lemma RoundTransmits(ev: seq<RadioEvent>, me: MacAddress, dst: MacAddress, frame: Frame, n: Option<NodeState>)
    requires Unanswered(ev, me, dst, frame, n)
    ensures Transmissions(ev, frame) >= 1
  {
    hide Exchange, Accepts, Reception, Transmissions;
    if Exchange(ev, me, dst, frame, false) {
      assert ev + [] == ev;
      BeginsWithTransmission(ev, [], me, dst, frame, false);
    } else {
      var mid: nat, h: nat :| AskedAndWaited(ev, mid, h, me, dst, frame);
      assert ev == ev[..mid] + ev[mid..];
      BeginsWithTransmission(ev[..mid], ev[mid..], me, dst, frame, true);
    }
  }

  /** Every round of asking puts the question on the air. */
  lemma {:induction false} TriedTransmits(ev: seq<RadioEvent>, k: nat, me: MacAddress, dst: MacAddress, frame: Frame,
                                          n: Option<NodeState>)
    requires Tried(ev, k, me, dst, frame, n)
    ensures Transmissions(ev, frame) >= k
    decreases k
  {
    hide Unanswered, Transmissions;
    if k > 0 {
      var cut: nat :| cut <= |ev| && Tried(ev[..cut], k - 1, me, dst, frame, n)
          && Unanswered(ev[cut..], me, dst, frame, n);
      TriedTransmits(ev[..cut], k - 1, me, dst, frame, n);
      assert ev == ev[..cut] + ev[cut..];
      TransmissionsAdd(ev[..cut], ev[cut..], frame);
      RoundTransmits(ev[cut..], me, dst, frame, n);
    }
  }
}
