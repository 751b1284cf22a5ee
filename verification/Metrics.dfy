/** The gateway's counters, crates/ar-gateway/src/metrics.rs: review recorders that run at
the same time, and a scrape that reads the counters one by one while they do.

Every increment and every read is one atomic step. Values are u64 and wrap. */
module Metrics {
  import opened Text

  /** The counters, in the order in which `render` lists them; then the histogram buckets. */
  datatype Counter =
    | WebhooksPullRequest | WebhooksIssueComment | WebhooksPing | WebhooksOther
    | WebhookSignatureFailures | WebhookPayloadFailures | WebhookRateLimited | WebhookDuplicates
    | JobsDispatched | ChatCommandsReceived | ChatHandlerUnconfigured | ReviewsStarted
    | ReviewsSucceeded | ReviewsFailedForgejo | ReviewsFailedWorkspace | ReviewsFailedLlm
    | ReviewsFailedUnhealable | ReviewsFailedPanic | ReviewsFailedUnknown
    | ReviewsSkippedSameSha | ReviewsSkippedTrivial | ReviewsSkippedDisabled | ReviewsSkippedUnknown
    | ReviewDurationMsSum | ReviewsCompletedCount | ReviewFindingsSum | VerifierFindingsDropped
    | ReviewQueueWaits | PollCycles | PollHistoryFailures | PollPrFailures
    | PollMentionsDispatched | PollChatFailures
    | Bucket(index: nat)

  type Counters = map<Counter, nat>

  function Get(counters: Counters, k: Counter): nat {
    if k in counters then counters[k] else 0
  }

  /** `fetch_add`. */
  function FetchAdd(counters: Counters, k: Counter, n: nat): Counters {
    if n == 0 then counters else counters[k := Wrap(Get(counters, k) + n)]
  }

  function Wrap(n: nat): nat {
    n % U64_LIMIT
  }

  lemma WrapAdds(a: nat, b: nat)
    ensures Wrap(Wrap(a) + b) == Wrap(a + b)
    ensures a < U64_LIMIT ==> Wrap(a) == a
  {
    var q := a / U64_LIMIT;
    assert a + b == Wrap(a) + b + q * U64_LIMIT;
  }

  const BUCKETS: nat := 8

  /** The bounds of the duration histogram, in milliseconds. */
  function BoundMs(i: nat): nat {
    if i == 0 then 1_000 else if i == 1 then 5_000 else if i == 2 then 15_000 else if i == 3 then 30_000
    else if i == 4 then 60_000 else if i == 5 then 120_000 else if i == 6 then 300_000 else 600_000
  }

  // ----- What one review adds -----

  /** A review that ended; `outcome` is the counter for how it ended. */
  datatype Review = Review(outcome: Counter, ms: nat, findings: nat, dropped: nat)

  predicate IsOutcome(k: Counter) {
    || k.ReviewsSucceeded? || k.ReviewsFailedForgejo? || k.ReviewsFailedWorkspace? || k.ReviewsFailedLlm?
    || k.ReviewsFailedUnhealable? || k.ReviewsFailedPanic? || k.ReviewsFailedUnknown?
  }

  function FailureCounter(errorClass: string): Counter {
    match errorClass
    case "forgejo" => ReviewsFailedForgejo
    case "workspace" => ReviewsFailedWorkspace
    case "llm" => ReviewsFailedLlm
    case "unhealable" => ReviewsFailedUnhealable
    case "panic" => ReviewsFailedPanic
    case _ => ReviewsFailedUnknown
  }

  /** Number of increments before the bucket loop: a failed review has no findings to add. */
  function BucketBase(r: Review): nat {
    if r.outcome == ReviewsSucceeded then 5 else 3
  }

  function Length(r: Review): nat {
    BucketBase(r) + BUCKETS
  }

  /** Increment number `pc` of the recorder. A bucket whose bound is exceeded gets nothing. */
  function Increment(r: Review, pc: nat): (op: (Counter, nat))
    requires pc < Length(r)
  {
    if pc == 0 then (r.outcome, 1)
    else if pc == 1 then (ReviewsCompletedCount, 1)
    else if pc == 2 then (ReviewDurationMsSum, r.ms)
    else if pc < BucketBase(r) then
      (if pc == 3 then (ReviewFindingsSum, r.findings) else (VerifierFindingsDropped, r.dropped))
    else
      var i := pc - BucketBase(r);
      (Bucket(i), if r.ms <= BoundMs(i) then 1 else 0)
  }

  /** What the first `pc` increments have added to `k`. */
  function Added(r: Review, pc: nat, k: Counter): nat
    requires pc <= Length(r)
  {
    if pc == 0 then 0
    else Added(r, pc - 1, k) + if Increment(r, pc - 1).0 == k then Increment(r, pc - 1).1 else 0
  }

  predicate WellFormed(r: Review) {
    IsOutcome(r.outcome)
  }

  // The closed form of `Added` for the counters that the histogram relates.

  lemma {:induction false} AddedToOutcome(r: Review, pc: nat, o: Counter)
    requires WellFormed(r) && IsOutcome(o) && pc <= Length(r)
    ensures Added(r, pc, o) == if pc >= 1 && o == r.outcome then 1 else 0
  {
    hide BoundMs;
    if pc > 0 {
      AddedToOutcome(r, pc - 1, o);
    }
  }

  lemma {:induction false} AddedToCompleted(r: Review, pc: nat)
    requires WellFormed(r) && pc <= Length(r)
    ensures Added(r, pc, ReviewsCompletedCount) == if pc >= 2 then 1 else 0
  {
    hide BoundMs;
    if pc > 0 {
      AddedToCompleted(r, pc - 1);
    }
  }

  lemma {:induction false} AddedToBucket(r: Review, pc: nat, i: nat)
    requires WellFormed(r) && pc <= Length(r) && i < BUCKETS
    ensures Added(r, pc, Bucket(i)) == if pc > BucketBase(r) + i && r.ms <= BoundMs(i) then 1 else 0
  {
    hide BoundMs;
    if pc > 0 {
      AddedToBucket(r, pc - 1, i);
    }
  }

  lemma FetchAddAdds(counters: Counters, k: Counter, n: nat, j: Counter)
    requires Get(counters, j) < U64_LIMIT
    ensures Get(FetchAdd(counters, k, n), j) == Wrap(Get(counters, j) + if k == j then n else 0)
    ensures Get(FetchAdd(counters, k, n), j) < U64_LIMIT
  {
    WrapAdds(Get(counters, j), 0);
  }

  /** The counters after the first `pc` increments of one undisturbed recorder. */
  function Recorded(before: Counters, r: Review, pc: nat): Counters
    requires pc <= Length(r)
  {
    if pc == 0 then before
    else
      var (k, n) := Increment(r, pc - 1);
      FetchAdd(Recorded(before, r, pc - 1), k, n)
  }

  lemma RecordedNothing(before: Counters, r: Review)
    ensures Recorded(before, r, 0) == before
  {
  }

  lemma RecordedNext(before: Counters, r: Review, pc: nat)
    requires pc < Length(r)
    ensures Recorded(before, r, pc + 1)
            == FetchAdd(Recorded(before, r, pc), Increment(r, pc).0, Increment(r, pc).1)
  {
    hide FetchAdd, Increment;
  }

  lemma {:induction false} RecordedAdds(before: Counters, r: Review, pc: nat, k: Counter)
    requires pc <= Length(r) && Get(before, k) < U64_LIMIT
    ensures Get(Recorded(before, r, pc), k) == Wrap(Get(before, k) + Added(r, pc, k))
  {
    hide Wrap, Increment;
    if pc > 0 {
      RecordedAdds(before, r, pc - 1, k);
      WrapBelow(Get(before, k) + Added(r, pc - 1, k));
      WrapAdds(Get(before, k) + Added(r, pc - 1, k), Increment(r, pc - 1).1);
      FetchAddAdds(Recorded(before, r, pc - 1), Increment(r, pc - 1).0, Increment(r, pc - 1).1, k);
    } else {
      WrapAdds(Get(before, k), 0);
    }
  }

  // ----- What one review adds, counter by counter -----

  lemma BoundsAre(i: nat)
    requires i < BUCKETS
    ensures BoundMs(i) == [1_000, 5_000, 15_000, 30_000, 60_000, 120_000, 300_000, 600_000][i]
  {
  }

  /** The counters that nothing but the amounts of a review is added to. */
  lemma {:induction false} AddedToSums(r: Review, pc: nat)
    requires WellFormed(r) && pc <= Length(r)
    ensures Added(r, pc, ReviewDurationMsSum) == if pc >= 3 then r.ms else 0
    ensures Added(r, pc, ReviewFindingsSum) == if pc >= 4 && r.outcome == ReviewsSucceeded then r.findings else 0
    ensures Added(r, pc, VerifierFindingsDropped) == if pc >= 5 && r.outcome == ReviewsSucceeded then r.dropped else 0
  {
    hide BoundMs;
    if pc > 0 {
      AddedToSums(r, pc - 1);
    }
  }

  predicate IsReviewCounter(k: Counter) {
    || IsOutcome(k) || k == ReviewsCompletedCount || k == ReviewDurationMsSum || k == ReviewFindingsSum
    || k == VerifierFindingsDropped || (k.Bucket? && k.index < 8)
  }

  lemma {:induction false} AddedToOthers(r: Review, pc: nat, k: Counter)
    requires WellFormed(r) && pc <= Length(r) && !IsReviewCounter(k)
    ensures Added(r, pc, k) == 0
  {
    hide BoundMs;
    if pc > 0 {
      AddedToOthers(r, pc - 1, k);
    }
  }

  /** `k` has gone up by `n`, wrapping as a u64 does. */
  predicate Gained(before: Counters, after: Counters, k: Counter, n: nat) {
    Get(after, k) == (Get(before, k) + n) % 0x1_0000_0000_0000_0000
  }

  ghost predicate AllU64(counters: Counters) {
    forall k :: Get(counters, k) < 0x1_0000_0000_0000_0000
  }

  /** What a whole recorder adds: one review, its amounts, and one to each bucket that holds it. */
  ghost predicate AddsReview(before: Counters, after: Counters, outcome: Counter, ms: nat, findings: nat,
                             dropped: nat) {
    && (forall k :: IsOutcome(k) ==> Gained(before, after, k, if k == outcome then 1 else 0))
    && Gained(before, after, ReviewsCompletedCount, 1)
    && Gained(before, after, ReviewDurationMsSum, ms)
    && Gained(before, after, ReviewFindingsSum, findings)
    && Gained(before, after, VerifierFindingsDropped, dropped)
    && (forall i :: 0 <= i < 8 ==>
          var bounds := [1_000, 5_000, 15_000, 30_000, 60_000, 120_000, 300_000, 600_000];
          Gained(before, after, Bucket(i), if ms <= bounds[i] then 1 else 0))
    && forall k :: !IsReviewCounter(k) ==> Get(after, k) == Get(before, k)
  }

  lemma RecordedGains(before: Counters, r: Review, k: Counter)
    requires Get(before, k) < U64_LIMIT
    ensures Gained(before, Recorded(before, r, Length(r)), k, Added(r, Length(r), k))
  {
    hide Recorded, Added, Get, Length;
    RecordedAdds(before, r, Length(r), k);
  }

  lemma RecordedInBucket(before: Counters, r: Review, i: nat)
    requires AllU64(before) && WellFormed(r) && i < 8
    ensures var bounds := [1_000, 5_000, 15_000, 30_000, 60_000, 120_000, 300_000, 600_000];
            Gained(before, Recorded(before, r, Length(r)), Bucket(i), if r.ms <= bounds[i] then 1 else 0)
  {
    hide Recorded, Added, Get, Gained, BoundMs, WellFormed;
    BoundsAre(i);
    AddedToBucket(r, Length(r), i);
    RecordedGains(before, r, Bucket(i));
  }

  lemma RecordedElsewhere(before: Counters, r: Review, k: Counter)
    requires AllU64(before) && WellFormed(r) && !IsReviewCounter(k)
    ensures Get(Recorded(before, r, Length(r)), k) == Get(before, k)
  {
    hide Recorded, Added, Get, WellFormed, IsReviewCounter;
    AddedToOthers(r, Length(r), k);
    RecordedGains(before, r, k);
  }

  lemma RecordedSums(before: Counters, r: Review)
    requires AllU64(before) && WellFormed(r)
    ensures var after, ok := Recorded(before, r, Length(r)), r.outcome == ReviewsSucceeded;
            && Gained(before, after, ReviewsCompletedCount, 1)
            && Gained(before, after, ReviewDurationMsSum, r.ms)
            && Gained(before, after, ReviewFindingsSum, if ok then r.findings else 0)
            && Gained(before, after, VerifierFindingsDropped, if ok then r.dropped else 0)
  {
    hide Recorded, Added, Get, Gained, WellFormed;
    AddedToCompleted(r, Length(r));
    AddedToSums(r, Length(r));
    RecordedGains(before, r, ReviewsCompletedCount);
    RecordedGains(before, r, ReviewDurationMsSum);
    RecordedGains(before, r, ReviewFindingsSum);
    RecordedGains(before, r, VerifierFindingsDropped);
  }

  lemma RecordedAddsReview(before: Counters, r: Review)
    requires AllU64(before) && WellFormed(r) && (r.outcome != ReviewsSucceeded ==> r.findings == 0 && r.dropped == 0)
    ensures AddsReview(before, Recorded(before, r, Length(r)), r.outcome, r.ms, r.findings, r.dropped)
  {
    hide Recorded, Added, Get, Gained, IsReviewCounter, IsOutcome, WellFormed;
    RecordedSums(before, r);
    forall k | IsOutcome(k)
      ensures Gained(before, Recorded(before, r, Length(r)), k, if k == r.outcome then 1 else 0)
    {
      AddedToOutcome(r, Length(r), k);
      RecordedGains(before, r, k);
    }
    forall i | 0 <= i < 8
      ensures var bounds := [1_000, 5_000, 15_000, 30_000, 60_000, 120_000, 300_000, 600_000];
              Gained(before, Recorded(before, r, Length(r)), Bucket(i), if r.ms <= bounds[i] then 1 else 0)
    {
      RecordedInBucket(before, r, i);
    }
    forall k | !IsReviewCounter(k)
      ensures Get(Recorded(before, r, Length(r)), k) == Get(before, k)
    {
      RecordedElsewhere(before, r, k);
    }
  }

  /** The counter of each class of errors. */
  lemma FailureCounterIff(errorClass: string)
    ensures var k := FailureCounter(errorClass);
            && (k == ReviewsFailedForgejo <==> errorClass == "forgejo")
            && (k == ReviewsFailedWorkspace <==> errorClass == "workspace")
            && (k == ReviewsFailedLlm <==> errorClass == "llm")
            && (k == ReviewsFailedUnhealable <==> errorClass == "unhealable")
            && (k == ReviewsFailedPanic <==> errorClass == "panic")
            && (k == ReviewsFailedUnknown <==> errorClass !in ["forgejo", "workspace", "llm", "unhealable", "panic"])
  {
  }

  // ----- The counters as an object: one recorder at a time -----

  class Metrics {
    var counters: Counters

    constructor ()
      ensures counters == map[]
    {
      counters := map[];
    }

    method BucketDuration(ghost before: Counters, r: Review)
      requires counters == Recorded(before, r, BucketBase(r))
      modifies this
      ensures counters == Recorded(before, r, Length(r))
    {
      hide Recorded, Wrap, Get, BoundMs;
      for i := 0 to BUCKETS
        invariant counters == Recorded(before, r, BucketBase(r) + i)
      {
        RecordedNext(before, r, BucketBase(r) + i);
        if r.ms <= BoundMs(i) {
          counters := FetchAdd(counters, Bucket(i), 1);
        }
      }
    }

    method RecordReviewSucceeded(ms: nat, findings: nat, dropped: nat)
      modifies this
      ensures var r := Review(ReviewsSucceeded, ms, findings, dropped);
              counters == Recorded(old(counters), r, Length(r))
      ensures AllU64(old(counters)) ==> AddsReview(old(counters), counters, ReviewsSucceeded, ms, findings, dropped)
    {
      hide AddsReview, AllU64;
      ghost var before := counters;
      var r := Review(ReviewsSucceeded, ms, findings, dropped);
      if AllU64(before) {
        RecordedAddsReview(before, r);
      }
      RecordedNothing(before, r);
      hide Recorded, FetchAdd, BoundMs;
      counters := FetchAdd(counters, ReviewsSucceeded, 1);
      RecordedNext(before, r, 0);
      counters := FetchAdd(counters, ReviewsCompletedCount, 1);
      RecordedNext(before, r, 1);
      counters := FetchAdd(counters, ReviewDurationMsSum, ms);
      RecordedNext(before, r, 2);
      counters := FetchAdd(counters, ReviewFindingsSum, findings);
      RecordedNext(before, r, 3);
      counters := FetchAdd(counters, VerifierFindingsDropped, dropped);
      RecordedNext(before, r, 4);
      BucketDuration(before, r);
    }

    method RecordReviewFailed(ms: nat, errorClass: string)
      modifies this
      ensures var r := Review(FailureCounter(errorClass), ms, 0, 0);
              counters == Recorded(old(counters), r, Length(r))
      ensures AllU64(old(counters)) ==>
                exists k ::
                  && AddsReview(old(counters), counters, k, ms, 0, 0)
                  && (k == ReviewsFailedForgejo <==> errorClass == "forgejo")
                  && (k == ReviewsFailedWorkspace <==> errorClass == "workspace")
                  && (k == ReviewsFailedLlm <==> errorClass == "llm")
                  && (k == ReviewsFailedUnhealable <==> errorClass == "unhealable")
                  && (k == ReviewsFailedPanic <==> errorClass == "panic")
                  && (k == ReviewsFailedUnknown
                      <==> errorClass !in ["forgejo", "workspace", "llm", "unhealable", "panic"])
    {
      hide AddsReview, AllU64;
      ghost var before := counters;
      var r := Review(FailureCounter(errorClass), ms, 0, 0);
      if AllU64(before) {
        FailureCounterIff(errorClass);
        RecordedAddsReview(before, r);
      }
      RecordedNothing(before, r);
      assert r.outcome != ReviewsSucceeded;
      hide Recorded, FetchAdd, BoundMs, FailureCounter;
      counters := FetchAdd(counters, FailureCounter(errorClass), 1);
      RecordedNext(before, r, 0);
      counters := FetchAdd(counters, ReviewsCompletedCount, 1);
      RecordedNext(before, r, 1);
      counters := FetchAdd(counters, ReviewDurationMsSum, ms);
      RecordedNext(before, r, 2);
      BucketDuration(before, r);
    }
  }

  // ----- Many recorders and a scrape, interleaved -----

  /** A recorder that has performed its first `pc` increments. */
  datatype Recorder = Recorder(review: Review, pc: nat) {
    predicate Valid() {
      WellFormed(review) && pc <= Length(review)
    }

    predicate InFlight()
      requires Valid()
    {
      pc < Length(review)
    }
  }

  type Recorders = seq<Recorder>

  predicate AllValid(rs: Recorders) {
    forall i :: 0 <= i < |rs| ==> rs[i].Valid()
  }

  /** What all recorders together have added to `k`. */
  function Sum(rs: Recorders, k: Counter): nat
    requires AllValid(rs)
  {
    if rs == [] then 0
    else
      var n := |rs| - 1;
      Sum(rs[..n], k) + Added(rs[n].review, rs[n].pc, k)
  }

  function InFlightCount(rs: Recorders): nat
    requires AllValid(rs)
  {
    if rs == [] then 0
    else
      var n := |rs| - 1;
      InFlightCount(rs[..n]) + if rs[n].InFlight() then 1 else 0
  }

  /** Finished reviews no longer than bound `i`. */
  function CountWithin(rs: Recorders, i: nat): nat {
    if rs == [] then 0
    else
      var n := |rs| - 1;
      CountWithin(rs[..n], i) + if rs[n].review.ms <= BoundMs(i) then 1 else 0
  }

  /** The order in which `render` reads the counters: the table, the buckets, and then the
      completed count again for the +Inf bucket and the count line, and the sum. */
  function Table(): seq<Counter> {
    [WebhooksPullRequest, WebhooksIssueComment, WebhooksPing, WebhooksOther,
     WebhookSignatureFailures, WebhookPayloadFailures, WebhookRateLimited, WebhookDuplicates,
     JobsDispatched, ChatCommandsReceived, ChatHandlerUnconfigured, ReviewsStarted,
     ReviewsSucceeded, ReviewsFailedForgejo, ReviewsFailedWorkspace, ReviewsFailedLlm,
     ReviewsFailedUnhealable, ReviewsFailedPanic, ReviewsFailedUnknown,
     ReviewsSkippedSameSha, ReviewsSkippedTrivial, ReviewsSkippedDisabled, ReviewsSkippedUnknown,
     ReviewDurationMsSum, ReviewsCompletedCount, ReviewFindingsSum, VerifierFindingsDropped,
     ReviewQueueWaits, PollCycles, PollHistoryFailures, PollPrFailures,
     PollMentionsDispatched, PollChatFailures]
  }

  function BucketReads(): seq<Counter> {
    seq(BUCKETS, i requires 0 <= i => Bucket(i))
  }

  function Reads(): seq<Counter> {
    Table() + BucketReads() + [ReviewsCompletedCount, ReviewDurationMsSum]
  }

  /** `page` holds the values the scrape has read so far. */
  datatype State = State(counters: Counters, recorders: Recorders, page: seq<nat>)

  datatype Step =
    | Begin(review: Review)
    | Advance(index: nat)
    | BeginScrape
    | Read

  const INITIAL := State(map[], [], [])

  predicate Enabled(s: State, step: Step) {
    match step
    case Begin(r) => WellFormed(r)
    case Advance(i) => i < |s.recorders| && s.recorders[i].Valid() && s.recorders[i].InFlight()
    case BeginScrape => true
    case Read => |s.page| < |Reads()|
  }

  function Next(s: State, step: Step): State {
    if !Enabled(s, step) then s else
    match step
    case Begin(r) => s.(recorders := s.recorders + [Recorder(r, 0)])
    case Advance(i) =>
      var r := s.recorders[i];
      var (k, n) := Increment(r.review, r.pc);
      s.(counters := FetchAdd(s.counters, k, n), recorders := s.recorders[i := r.(pc := r.pc + 1)])
    case BeginScrape => s.(page := [])
    case Read => s.(page := s.page + [Get(s.counters, Reads()[|s.page|])])
  }

  function Run(steps: seq<Step>): State {
    if steps == [] then INITIAL else Next(Run(steps[..|steps| - 1]), steps[|steps| - 1])
  }

  // ----- The counters are what the recorders have added -----

  ghost predicate Inv(s: State) {
    AllValid(s.recorders) && forall k :: Get(s.counters, k) == Wrap(Sum(s.recorders, k))
  }

  lemma {:induction false} SumAfterAdvance(rs: Recorders, i: nat, k: Counter)
    requires AllValid(rs) && i < |rs| && rs[i].InFlight()
    ensures var r, rs' := rs[i], rs[i := rs[i].(pc := rs[i].pc + 1)];
            var (c, n) := Increment(r.review, r.pc);
            AllValid(rs') && Sum(rs', k) == Sum(rs, k) + if c == k then n else 0
  {
    hide Increment;
    var n, rs' := |rs| - 1, rs[i := rs[i].(pc := rs[i].pc + 1)];
    if i < n {
      SumAfterAdvance(rs[..n], i, k);
      assert rs'[..n] == rs[..n][i := rs'[i]];
    } else {
      assert rs'[..n] == rs[..n];
    }
  }

  lemma BeginKeepsInv(s: State, r: Review)
    requires Inv(s) && WellFormed(r)
    ensures Inv(Next(s, Begin(r)))
  {
    var s' := Next(s, Begin(r));
    assert s'.recorders[..|s.recorders|] == s.recorders;
    forall k
      ensures Get(s'.counters, k) == Wrap(Sum(s'.recorders, k))
    {
      NothingAddedYet(r, k);
    }
    hide Wrap, Increment, Added, Get;
  }

  lemma AdvanceKeepsInv(s: State, i: nat)
    requires Inv(s) && Enabled(s, Advance(i))
    ensures Inv(Next(s, Advance(i)))
  {
    hide Wrap, Increment, Added, Sum, FetchAdd;
    var s', r := Next(s, Advance(i)), s.recorders[i];
    var op := Increment(r.review, r.pc);
    SumAfterAdvance(s.recorders, i, ReviewsCompletedCount);
    forall k
      ensures Get(s'.counters, k) == Wrap(Sum(s'.recorders, k))
    {
      SumAfterAdvance(s.recorders, i, k);
      WrapBelow(Sum(s.recorders, k));
      FetchAddAdds(s.counters, op.0, op.1, k);
      WrapAdds(Sum(s.recorders, k), if op.0 == k then op.1 else 0);
    }
  }

  lemma StepKeepsInv(s: State, step: Step)
    requires Inv(s)
    ensures Inv(Next(s, step))
  {
    if Enabled(s, step) {
      match step
      case Begin(r) => BeginKeepsInv(s, r);
      case Advance(i) => AdvanceKeepsInv(s, i);
      case _ =>
    }
  }

  lemma NothingAddedYet(r: Review, k: Counter)
    ensures Added(r, 0, k) == 0
  {
  }

  lemma WrapBelow(n: nat)
    ensures Wrap(n) < U64_LIMIT
  {
  }

  lemma {:induction false} RunKeepsInv(steps: seq<Step>)
    ensures Inv(Run(steps))
  {
    if steps == [] {
      assert Wrap(0) == 0;
    } else {
      RunKeepsInv(steps[..|steps| - 1]);
      StepKeepsInv(Run(steps[..|steps| - 1]), steps[|steps| - 1]);
    }
  }

  // ----- Safety in every reachable state -----

  /** Reviews counted by how they ended. */
  function OutcomeTotal(counters: Counters): nat {
    Get(counters, ReviewsSucceeded) + Get(counters, ReviewsFailedForgejo) + Get(counters, ReviewsFailedWorkspace)
    + Get(counters, ReviewsFailedLlm) + Get(counters, ReviewsFailedUnhealable)
    + Get(counters, ReviewsFailedPanic) + Get(counters, ReviewsFailedUnknown)
  }

  function OutcomeSum(rs: Recorders): nat
    requires AllValid(rs)
  {
    Sum(rs, ReviewsSucceeded) + Sum(rs, ReviewsFailedForgejo) + Sum(rs, ReviewsFailedWorkspace)
    + Sum(rs, ReviewsFailedLlm) + Sum(rs, ReviewsFailedUnhealable)
    + Sum(rs, ReviewsFailedPanic) + Sum(rs, ReviewsFailedUnknown)
  }

  /** What one recorder contributes to the outcome counters. */
  lemma OneOutcome(r: Review, pc: nat)
    requires WellFormed(r) && pc <= Length(r)
    ensures Added(r, pc, ReviewsSucceeded) + Added(r, pc, ReviewsFailedForgejo) + Added(r, pc, ReviewsFailedWorkspace)
            + Added(r, pc, ReviewsFailedLlm) + Added(r, pc, ReviewsFailedUnhealable)
            + Added(r, pc, ReviewsFailedPanic) + Added(r, pc, ReviewsFailedUnknown) == if pc >= 1 then 1 else 0
  {
    hide Added;
    AddedToOutcome(r, pc, ReviewsSucceeded);
    AddedToOutcome(r, pc, ReviewsFailedForgejo);
    AddedToOutcome(r, pc, ReviewsFailedWorkspace);
    AddedToOutcome(r, pc, ReviewsFailedLlm);
    AddedToOutcome(r, pc, ReviewsFailedUnhealable);
    AddedToOutcome(r, pc, ReviewsFailedPanic);
    AddedToOutcome(r, pc, ReviewsFailedUnknown);
  }

  lemma {:induction false} BucketWithinCompleted(rs: Recorders, i: nat)
    requires AllValid(rs) && i < BUCKETS
    ensures Sum(rs, Bucket(i)) <= Sum(rs, ReviewsCompletedCount)
  {
    hide BoundMs, Added, WellFormed;
    if rs != [] {
      var n := |rs| - 1;
      BucketWithinCompleted(rs[..n], i);
      assert rs[n].Valid();
      AddedToBucket(rs[n].review, rs[n].pc, i);
      AddedToCompleted(rs[n].review, rs[n].pc);
    }
  }

  lemma {:induction false} CompletedWithinOutcomes(rs: Recorders)
    requires AllValid(rs)
    ensures Sum(rs, ReviewsCompletedCount) <= OutcomeSum(rs) <= |rs|
  {
    hide BoundMs, Added, WellFormed;
    if rs != [] {
      var n := |rs| - 1;
      CompletedWithinOutcomes(rs[..n]);
      assert rs[n].Valid();
      AddedToCompleted(rs[n].review, rs[n].pc);
      OneOutcome(rs[n].review, rs[n].pc);
    }
  }

  lemma SumsOrdered(rs: Recorders, i: nat)
    requires AllValid(rs) && i < BUCKETS
    ensures Sum(rs, Bucket(i)) <= Sum(rs, ReviewsCompletedCount) <= OutcomeSum(rs) <= |rs|
  {
    hide Sum, OutcomeSum;
    BucketWithinCompleted(rs, i);
    CompletedWithinOutcomes(rs);
  }

  /** In every reachable state: bucket <= completed <= succeeded + failed. */
  lemma BucketsWithinCompletedWithinOutcomes(steps: seq<Step>, i: nat)
    requires i < BUCKETS && |Run(steps).recorders| < U64_LIMIT
    ensures var c := Run(steps).counters;
            Get(c, Bucket(i)) <= Get(c, ReviewsCompletedCount) <= OutcomeTotal(c) <= |Run(steps).recorders|
  {
    RunKeepsInv(steps);
    var s := Run(steps);
    SumsOrdered(s.recorders, i);
    CountersExact(s);
    hide Run, Wrap, Sum;
  }

  /** Below 2^64 reviews, the counters that count reviews have not wrapped. */
  lemma CountersExact(s: State)
    requires Inv(s) && |s.recorders| < U64_LIMIT
    ensures forall i :: 0 <= i < BUCKETS ==> Get(s.counters, Bucket(i)) == Sum(s.recorders, Bucket(i))
    ensures Get(s.counters, ReviewsCompletedCount) == Sum(s.recorders, ReviewsCompletedCount)
    ensures OutcomeTotal(s.counters) == OutcomeSum(s.recorders)
  {
    hide Sum, Wrap;
    forall i | 0 <= i < BUCKETS
      ensures Get(s.counters, Bucket(i)) == Sum(s.recorders, Bucket(i))
    {
      SumsOrdered(s.recorders, i);
      WrapSmall(Sum(s.recorders, Bucket(i)));
    }
    SumsOrdered(s.recorders, 0);
    WrapSmall(Sum(s.recorders, ReviewsCompletedCount));
    WrapSmall(Sum(s.recorders, ReviewsSucceeded));
    WrapSmall(Sum(s.recorders, ReviewsFailedForgejo));
    WrapSmall(Sum(s.recorders, ReviewsFailedWorkspace));
    WrapSmall(Sum(s.recorders, ReviewsFailedLlm));
    WrapSmall(Sum(s.recorders, ReviewsFailedUnhealable));
    WrapSmall(Sum(s.recorders, ReviewsFailedPanic));
    WrapSmall(Sum(s.recorders, ReviewsFailedUnknown));
  }

  lemma WrapSmall(n: nat)
    requires n < U64_LIMIT
    ensures Wrap(n) == n
  {
  }

  lemma {:induction false} AdjacentSums(rs: Recorders, i: nat)
    requires AllValid(rs) && i + 1 < BUCKETS
    ensures Sum(rs, Bucket(i)) <= Sum(rs, Bucket(i + 1)) + InFlightCount(rs)
  {
    if rs != [] {
      var n := |rs| - 1;
      AdjacentSums(rs[..n], i);
      assert rs[n].Valid();
      AddedToBucket(rs[n].review, rs[n].pc, i);
      AddedToBucket(rs[n].review, rs[n].pc, i + 1);
      hide Added, WellFormed;
    }
  }

  /** Adjacent buckets are out of order by at most the number of recorders in flight. */
  lemma BucketsNearlyMonotone(steps: seq<Step>, i: nat)
    requires i + 1 < BUCKETS && |Run(steps).recorders| < U64_LIMIT
    ensures var s := Run(steps);
            AllValid(s.recorders)
            && Get(s.counters, Bucket(i)) <= Get(s.counters, Bucket(i + 1)) + InFlightCount(s.recorders)
  {
    RunKeepsInv(steps);
    AdjacentSums(Run(steps).recorders, i);
    CountersExact(Run(steps));
    hide Run, Wrap, Sum;
  }

  lemma {:induction false} QuiescentBucket(rs: Recorders, i: nat)
    requires AllValid(rs) && i < BUCKETS && InFlightCount(rs) == 0
    ensures Sum(rs, Bucket(i)) == CountWithin(rs, i)
  {
    hide BoundMs, Added, WellFormed;
    if rs != [] {
      var n := |rs| - 1;
      QuiescentBucket(rs[..n], i);
      assert rs[n].Valid();
      AddedToBucket(rs[n].review, rs[n].pc, i);
    }
  }

  lemma {:induction false} QuiescentTotals(rs: Recorders)
    requires AllValid(rs) && InFlightCount(rs) == 0
    ensures Sum(rs, ReviewsCompletedCount) == |rs| == OutcomeSum(rs)
  {
    hide BoundMs, Added, WellFormed;
    if rs != [] {
      var n := |rs| - 1;
      QuiescentTotals(rs[..n]);
      assert rs[n].Valid();
      AddedToCompleted(rs[n].review, rs[n].pc);
      OneOutcome(rs[n].review, rs[n].pc);
    }
  }

  /** With no recorder in flight the histogram is exact. */
  lemma QuiescentHistogramIsExact(steps: seq<Step>, i: nat)
    requires i < BUCKETS && |Run(steps).recorders| < U64_LIMIT
    requires AllValid(Run(steps).recorders) && InFlightCount(Run(steps).recorders) == 0
    ensures var s := Run(steps);
            && Get(s.counters, Bucket(i)) == CountWithin(s.recorders, i)
            && Get(s.counters, ReviewsCompletedCount) == OutcomeTotal(s.counters) == |s.recorders|
  {
    RunKeepsInv(steps);
    hide Run, Wrap, Sum, OutcomeSum, OutcomeTotal;
    QuiescentBucket(Run(steps).recorders, i);
    QuiescentTotals(Run(steps).recorders);
    CountersExact(Run(steps));
  }

  /** Sum of one amount over the recorders. */
  function SumOf(rs: Recorders, amount: Review -> nat): nat {
    if rs == [] then 0 else SumOf(rs[..|rs| - 1], amount) + amount(rs[|rs| - 1].review)
  }

  function EndedAs(rs: Recorders, k: Counter): set<nat> {
    set j: nat | j < |rs| && rs[j].review.outcome == k
  }

  function NoLonger(rs: Recorders, ms: nat): set<nat> {
    set j: nat | j < |rs| && rs[j].review.ms <= ms
  }

  lemma EndedAsSnoc(rs: Recorders, k: Counter)
    requires rs != []
    ensures var n := |rs| - 1; |EndedAs(rs, k)| == |EndedAs(rs[..n], k)| + if rs[n].review.outcome == k then 1 else 0
  {
    var n: nat := |rs| - 1;
    var last: set<nat> := if rs[n].review.outcome == k then {n} else {};
    assert EndedAs(rs, k) == EndedAs(rs[..n], k) + last;
  }

  lemma {:induction false} OutcomesAreCounted(rs: Recorders, k: Counter)
    requires AllValid(rs) && InFlightCount(rs) == 0 && IsOutcome(k)
    ensures Sum(rs, k) == |EndedAs(rs, k)|
  {
    hide Added, WellFormed, EndedAs;
    if rs == [] {
      NoneEnded(k);
    } else {
      var n := |rs| - 1;
      OutcomesAreCounted(rs[..n], k);
      assert rs[n].Valid();
      EndedAsSnoc(rs, k);
      AddedToOutcome(rs[n].review, rs[n].pc, k);
    }
  }

  lemma NoneEnded(k: Counter)
    ensures EndedAs([], k) == {}
  {
  }

  lemma {:induction false} AmountsAreSummed(rs: Recorders)
    requires AllValid(rs) && InFlightCount(rs) == 0
    ensures Sum(rs, ReviewDurationMsSum) == SumOf(rs, (r: Review) => r.ms)
    ensures Sum(rs, ReviewFindingsSum)
            == SumOf(rs, (r: Review) => if r.outcome == ReviewsSucceeded then r.findings else 0)
    ensures Sum(rs, VerifierFindingsDropped)
            == SumOf(rs, (r: Review) => if r.outcome == ReviewsSucceeded then r.dropped else 0)
  {
    hide Added, WellFormed;
    if rs != [] {
      var n := |rs| - 1;
      AmountsAreSummed(rs[..n]);
      assert rs[n].Valid();
      AddedToSums(rs[n].review, rs[n].pc);
    }
  }

  lemma {:induction false} WithinIsCounted(rs: Recorders, i: nat)
    ensures CountWithin(rs, i) == |NoLonger(rs, BoundMs(i))|
  {
    hide BoundMs;
    if rs == [] {
      assert NoLonger(rs, BoundMs(i)) == {};
    } else {
      var n: nat := |rs| - 1;
      WithinIsCounted(rs[..n], i);
      var last: set<nat> := if rs[n].review.ms <= BoundMs(i) then {n} else {};
      assert NoLonger(rs, BoundMs(i)) == NoLonger(rs[..n], BoundMs(i)) + last;
    }
  }

  /** With no recorder in flight each counter is what the recorded reviews say: how many ended so,
      how many were no longer than the bound, and the sums of their amounts. */
  lemma QuiescentCountersAreExact(steps: seq<Step>, outcome: Counter, i: nat)
    requires IsOutcome(outcome) && i < 8 && |Run(steps).recorders| < U64_LIMIT
    requires AllValid(Run(steps).recorders) && InFlightCount(Run(steps).recorders) == 0
    ensures var c, rs := Run(steps).counters, Run(steps).recorders;
            && Get(c, outcome) == |EndedAs(rs, outcome)|
            && Get(c, ReviewsCompletedCount) == |rs|
            && Get(c, Bucket(i))
               == |NoLonger(rs, [1_000, 5_000, 15_000, 30_000, 60_000, 120_000, 300_000, 600_000][i])|
            && Get(c, ReviewDurationMsSum) == SumOf(rs, (r: Review) => r.ms) % U64_LIMIT
            && Get(c, ReviewFindingsSum)
               == SumOf(rs, (r: Review) => if r.outcome == ReviewsSucceeded then r.findings else 0) % U64_LIMIT
            && Get(c, VerifierFindingsDropped)
               == SumOf(rs, (r: Review) => if r.outcome == ReviewsSucceeded then r.dropped else 0) % U64_LIMIT
  {
    RunKeepsInv(steps);
    hide Run, Sum, SumOf, EndedAs, NoLonger, OutcomeSum, OutcomeTotal, IsOutcome, BoundMs, Get, InFlightCount;
    var s := Run(steps);
    OutcomesAreCounted(s.recorders, outcome);
    OutcomeIsReview(outcome);
    CountedExactly(s, outcome);
    BoundsAre(i);
    WithinIsCounted(s.recorders, i);
    QuiescentHistogramIsExact(steps, i);
    AmountsAreSummed(s.recorders);
  }

  lemma OutcomeIsReview(k: Counter)
    requires IsOutcome(k)
    ensures CountsReviews(k)
  {
  }

  lemma {:induction false} AllWithinIff(rs: Recorders, i: nat)
    ensures CountWithin(rs, i) <= |rs|
    ensures CountWithin(rs, i) == |rs| <==> forall j :: 0 <= j < |rs| ==> rs[j].review.ms <= BoundMs(i)
  {
    if rs != [] {
      AllWithinIff(rs[..|rs| - 1], i);
    }
  }

  /** A comment in the code says that the last bucket equals the completed count. At rest
      that holds exactly when no review took longer than the last bound. */
  lemma LastBucketIsCompletedIff(steps: seq<Step>)
    requires |Run(steps).recorders| < U64_LIMIT
    requires AllValid(Run(steps).recorders) && InFlightCount(Run(steps).recorders) == 0
    ensures var s := Run(steps);
            Get(s.counters, Bucket(7)) == Get(s.counters, ReviewsCompletedCount) <==>
              forall j :: 0 <= j < |s.recorders| ==> s.recorders[j].review.ms <= 600_000
  {
    hide Run, Sum, OutcomeTotal, CountWithin;
    QuiescentHistogramIsExact(steps, 7);
    AllWithinIff(Run(steps).recorders, 7);
  }

  // ----- What a scrape sees while recorders run -----

  /** A counter that no recorder wraps: each review adds at most one to it. */
  predicate CountsReviews(k: Counter) {
    k == ReviewsCompletedCount || IsOutcome(k) || (k.Bucket? && k.index < BUCKETS)
  }

  lemma OneReviewAddsAtMostOne(r: Review, pc: nat, k: Counter)
    requires WellFormed(r) && pc <= Length(r) && CountsReviews(k)
    ensures Added(r, pc, k) <= 1
  {
    hide Added, BoundMs;
    if k.Bucket? {
      AddedToBucket(r, pc, k.index);
    } else if k.ReviewsCompletedCount? {
      AddedToCompleted(r, pc);
    } else {
      AddedToOutcome(r, pc, k);
    }
  }

  lemma {:induction false} SumAtMostReviews(rs: Recorders, k: Counter)
    requires AllValid(rs) && CountsReviews(k)
    ensures Sum(rs, k) <= |rs|
  {
    hide CountsReviews, Added, WellFormed;
    if rs != [] {
      var n := |rs| - 1;
      SumAtMostReviews(rs[..n], k);
      assert rs[n].Valid();
      OneReviewAddsAtMostOne(rs[n].review, rs[n].pc, k);
    }
  }

  /** Below 2^64 reviews no step lowers a counter that counts reviews. */
  lemma StepNeverLowers(s: State, step: Step, k: Counter)
    requires Inv(s) && CountsReviews(k) && |Next(s, step).recorders| < U64_LIMIT
    ensures Get(s.counters, k) <= Get(Next(s, step).counters, k)
  {
    hide Sum, Wrap, Increment, FetchAdd, CountsReviews, Get, Inv;
    var s' := Next(s, step);
    StepKeepsInv(s, step);
    if Enabled(s, step) && step.Advance? {
      CountedExactly(s, k);
      CountedExactly(s', k);
      SumNeverFalls(s.recorders, step.index, k);
    }
  }

  lemma SumNeverFalls(rs: Recorders, i: nat, k: Counter)
    requires AllValid(rs) && i < |rs| && rs[i].InFlight()
    ensures var rs' := rs[i := rs[i].(pc := rs[i].pc + 1)]; AllValid(rs') && Sum(rs, k) <= Sum(rs', k)
  {
    hide Sum, Increment;
    SumAfterAdvance(rs, i, k);
    assert Increment(rs[i].review, rs[i].pc).1 >= 0;
  }

  lemma CountedExactly(s: State, k: Counter)
    requires Inv(s) && CountsReviews(k) && |s.recorders| < U64_LIMIT
    ensures AllValid(s.recorders) && Get(s.counters, k) == Sum(s.recorders, k)
  {
    hide Sum, Wrap, CountsReviews;
    SumAtMostReviews(s.recorders, k);
    WrapSmall(Sum(s.recorders, k));
  }

  /** Every value read so far is at most what the counter holds now. */
  ghost predicate PageBehind(s: State) {
    && |s.page| <= |Reads()|
    && forall j :: 0 <= j < |s.page| && CountsReviews(Reads()[j]) ==> s.page[j] <= Get(s.counters, Reads()[j])
  }

  /** Once the completed count has been read again, every bucket read before is at most
      that, and so is the first reading of the count. */
  ghost predicate BucketsBelowInf(s: State) {
    |s.page| > InfRead() ==>
      && s.page[COMPLETED_READ] <= s.page[InfRead()]
      && forall i :: 0 <= i < BUCKETS ==> s.page[BucketRead(i)] <= s.page[InfRead()]
  }

  /** Where the scrape reads the completed count for the counter table. */
  const COMPLETED_READ: nat := 24

  function BucketRead(i: nat): nat {
    |Table()| + i
  }

  /** Where the scrape reads the value of the +Inf bucket. */
  function InfRead(): nat {
    |Table()| + BUCKETS
  }

  lemma ReadsAre()
    ensures |Reads()| == InfRead() + 2 && Reads()[InfRead()] == ReviewsCompletedCount
    ensures Reads()[InfRead() + 1] == ReviewDurationMsSum
    ensures COMPLETED_READ < |Table()| == 33 && Reads()[COMPLETED_READ] == ReviewsCompletedCount
    ensures forall i :: 0 <= i < BUCKETS ==> Reads()[BucketRead(i)] == Bucket(i)
  {
    assert |Table()| == 33 && Table()[COMPLETED_READ] == ReviewsCompletedCount;
    hide Table;
  }

  lemma StepKeepsPage(s: State, step: Step)
    requires Inv(s) && PageBehind(s) && BucketsBelowInf(s) && |Next(s, step).recorders| < U64_LIMIT
    ensures PageBehind(Next(s, step)) && BucketsBelowInf(Next(s, step))
  {
    hide Reads, Table, Inv, CountsReviews;
    ReadsAre();
    var s' := Next(s, step);
    forall j | 0 <= j < |s'.page| && CountsReviews(Reads()[j])
      ensures s'.page[j] <= Get(s'.counters, Reads()[j])
    {
      StepNeverLowers(s, step, Reads()[j]);
    }
    if Enabled(s, step) && step.Read? && |s.page| == InfRead() {
      CompletedCountsReviews();
      assert CountsReviews(Reads()[COMPLETED_READ]);
      forall i | 0 <= i < BUCKETS
        ensures s'.page[BucketRead(i)] <= s'.page[InfRead()]
      {
        BucketBelowCompletedNow(s, i);
      }
    }
  }

  lemma CompletedCountsReviews()
    ensures CountsReviews(ReviewsCompletedCount)
  {
  }

  lemma BucketBelowCompletedNow(s: State, i: nat)
    requires Inv(s) && i < BUCKETS && |s.recorders| < U64_LIMIT
    ensures Get(s.counters, Bucket(i)) <= Get(s.counters, ReviewsCompletedCount)
    ensures CountsReviews(Bucket(i))
  {
    CountersExact(s);
    SumsOrdered(s.recorders, i);
    hide Sum, Wrap;
  }

  lemma {:induction false} RunKeepsPage(steps: seq<Step>)
    requires |Run(steps).recorders| < U64_LIMIT
    ensures PageBehind(Run(steps)) && BucketsBelowInf(Run(steps))
  {
    if steps != [] {
      var before := Run(steps[..|steps| - 1]);
      assert |before.recorders| <= |Run(steps).recorders|;
      RunKeepsInv(steps[..|steps| - 1]);
      RunKeepsPage(steps[..|steps| - 1]);
      StepKeepsPage(before, steps[|steps| - 1]);
    }
  }

  /** On every page that a scrape renders while recorders run, no bucket exceeds the +Inf
      bucket, and the count in the table does not exceed it either. */
  lemma ScrapedBucketsBelowInf(steps: seq<Step>, i: nat)
    requires |Run(steps).recorders| < U64_LIMIT && i < BUCKETS
    requires |Run(steps).page| == |Reads()|
    ensures BucketRead(i) < InfRead() < |Run(steps).page|
    ensures Run(steps).page[BucketRead(i)] <= Run(steps).page[InfRead()]
    ensures COMPLETED_READ < InfRead() && Run(steps).page[COMPLETED_READ] <= Run(steps).page[InfRead()]
  {
    RunKeepsPage(steps);
    ReadsAre();
    hide Run, Reads, Table;
  }

  /** What a scrape has read are u64 values. */
  lemma {:induction false} PageIsU64(steps: seq<Step>)
    ensures forall i :: 0 <= i < |Run(steps).page| ==> Run(steps).page[i] < U64_LIMIT
  {
    if steps != [] {
      var before, step := Run(steps[..|steps| - 1]), steps[|steps| - 1];
      PageIsU64(steps[..|steps| - 1]);
      RunKeepsInv(steps[..|steps| - 1]);
      if Enabled(before, step) && step.Read? {
        WrapBelow(Sum(before.recorders, Reads()[|before.page|]));
      }
      hide Run, Reads, Increment, FetchAdd, Wrap;
    }
  }
}
