/** The webhook throttle of crates/ar-gateway/src/ratelimit.rs, over exact reals.

A call at time `now` first refills the bucket, `rate` tokens a second up to
`capacity`, and then takes one token if there is one. Times are seconds; a clock
that steps backwards refills nothing (`saturating_duration_since`). */
module RateLimit {

  datatype Config = Config(capacity: real, rate: real) {
    predicate Valid() {
      capacity >= 1.0 && rate >= 1.0
    }
  }

  /** What the mutex protects. */
  datatype Bucket = Bucket(tokens: real, last: real) {
    predicate Within(c: Config) {
      0.0 <= tokens <= c.capacity
    }
  }

  function Clamp(n: nat): real {
    if n == 0 then 1.0 else n as real
  }

  function Forward(from: real, to: real): real {
    if from <= to then to - from else 0.0
  }

  /** Tokens that flow in over a stretch of time. */
  function Worth(c: Config, seconds: real): real {
    seconds * c.rate
  }

  /** Tokens that flow in between two readings of the clock. */
  function Gain(c: Config, from: real, to: real): real {
    Worth(c, Forward(from, to))
  }

  /** Tokens present after the refill at `now`, before one is taken. */
  function Level(c: Config, b: Bucket, now: real): real {
    var refilled := b.tokens + Gain(c, b.last, now);
    if refilled <= c.capacity then refilled else c.capacity
  }

  predicate Accepts(c: Config, b: Bucket, now: real) {
    Level(c, b, now) >= 1.0
  }

  function Cost(accepted: bool): real {
    if accepted then 1.0 else 0.0
  }

  function After(c: Config, b: Bucket, now: real): Bucket {
    Bucket(Level(c, b, now) - Cost(Accepts(c, b, now)), now)
  }

  class TokenBucket {
    const config: Config
    var tokens: real
    var lastRefilled: real

    ghost predicate Valid()
      reads this
    {
      config.Valid() && State().Within(config)
    }

    ghost function State(): Bucket
      reads this
    {
      Bucket(tokens, lastRefilled)
    }

    /** Starts full; a zero burst or rate is raised to one. */
    constructor (burst: nat, ratePerSec: nat, now: real)
      ensures Valid()
      ensures config == Config(Clamp(burst), Clamp(ratePerSec))
      ensures State() == Bucket(Clamp(burst), now)
      ensures tokens == config.capacity == (if burst == 0 then 1.0 else burst as real) && lastRefilled == now
      ensures config.rate == if ratePerSec == 0 then 1.0 else ratePerSec as real
    {
      config := Config(Clamp(burst), Clamp(ratePerSec));
      tokens := Clamp(burst);
      lastRefilled := now;
    }

    method TryTakeAt(now: real) returns (taken: bool)
      requires Valid()
      modifies this
      ensures Valid()
      ensures taken == Accepts(config, old(State()), now)
      ensures State() == After(config, old(State()), now)
      ensures var gained := if old(lastRefilled) <= now then (now - old(lastRefilled)) * config.rate else 0.0;
              var level := if old(tokens) + gained <= config.capacity then old(tokens) + gained else config.capacity;
              && taken == (level >= 1.0) && tokens == (if taken then level - 1.0 else level)
              && lastRefilled == now
    {
      var elapsed := if lastRefilled <= now then now - lastRefilled else 0.0;
      assert elapsed * config.rate >= 0.0;
      tokens := tokens + elapsed * config.rate;
      if tokens > config.capacity {
        tokens := config.capacity;
      }
      lastRefilled := now;
      if tokens >= 1.0 {
        tokens := tokens - 1.0;
        taken := true;
      } else {
        taken := false;
      }
    }
  }

  // ----- Runs: any number of calls, at any times -----

  /** The bucket just before call `n` of a run that starts in `b`. */
  function StateAt(c: Config, b: Bucket, ts: seq<real>, n: nat): Bucket
    requires n <= |ts|
  {
    if n == 0 then b else After(c, StateAt(c, b, ts, n - 1), ts[n - 1])
  }

  function LevelAt(c: Config, b: Bucket, ts: seq<real>, n: nat): real
    requires n < |ts|
  {
    Level(c, StateAt(c, b, ts, n), ts[n])
  }

  /** The answer to call `n`. */
  predicate Answer(c: Config, b: Bucket, ts: seq<real>, n: nat)
    requires n < |ts|
  {
    Accepts(c, StateAt(c, b, ts, n), ts[n])
  }

  /** How many of the calls `i..j` were accepted. */
  function Accepted(c: Config, b: Bucket, ts: seq<real>, i: nat, j: nat): real
    requires i <= j <= |ts|
  {
    if i == j then 0.0
    else Accepted(c, b, ts, i, j - 1) + Cost(Answer(c, b, ts, j - 1))
  }

  /** The forward time steps from call `i` to call `j`, summed. */
  function Elapsed(ts: seq<real>, i: nat, j: nat): real
    requires i <= j < |ts|
  {
    if i == j then 0.0 else Elapsed(ts, i, j - 1) + Forward(ts[j - 1], ts[j])
  }

  /** The tokens that flow in from call `i` to call `j`. */
  function Inflow(c: Config, ts: seq<real>, i: nat, j: nat): real
    requires i <= j < |ts|
  {
    if i == j then 0.0 else Inflow(c, ts, i, j - 1) + Gain(c, ts[j - 1], ts[j])
  }

  lemma {:induction false} InflowIsRateTimesElapsed(c: Config, ts: seq<real>, i: nat, j: nat)
    requires i <= j < |ts|
    ensures Inflow(c, ts, i, j) == Worth(c, Elapsed(ts, i, j))
  {
    if i < j {
      InflowIsRateTimesElapsed(c, ts, i, j - 1);
      WorthAdds(c, Elapsed(ts, i, j - 1), Forward(ts[j - 1], ts[j]));
      hide Worth;
    } else {
      assert Worth(c, 0.0) == 0.0;
    }
  }

  lemma WorthAdds(c: Config, x: real, y: real)
    ensures Worth(c, x + y) == Worth(c, x) + Worth(c, y)
  {
  }

  lemma GainIsNonnegative(c: Config, from: real, to: real)
    requires c.Valid()
    ensures Gain(c, from, to) >= 0.0
  {
  }

  /** Room that the window from call `i` leaves for call `n`. */
  function Room(c: Config, b: Bucket, ts: seq<real>, i: nat, n: nat): real
    requires i <= n < |ts|
  {
    c.capacity + Inflow(c, ts, i, n) - Accepted(c, b, ts, i, n)
  }

  /** Room that the tokens the run started with leave for call `n`. */
  function StartRoom(c: Config, b: Bucket, ts: seq<real>, n: nat): real
    requires n < |ts|
  {
    b.tokens + Gain(c, b.last, ts[0]) + Inflow(c, ts, 0, n) - Accepted(c, b, ts, 0, n)
  }

  lemma {:induction false} TokensStayWithin(c: Config, b: Bucket, ts: seq<real>, n: nat)
    requires c.Valid() && b.Within(c) && n <= |ts|
    ensures StateAt(c, b, ts, n).Within(c)
  {
    if n > 0 {
      TokensStayWithin(c, b, ts, n - 1);
      GainIsNonnegative(c, StateAt(c, b, ts, n - 1).last, ts[n - 1]);
    }
  }

  /** The level is the least room over all windows that end at this call. */
  lemma {:induction false} LevelIsLeastRoom(c: Config, b: Bucket, ts: seq<real>, n: nat, x: real)
    requires n < |ts|
    ensures x <= LevelAt(c, b, ts, n) <==>
            x <= StartRoom(c, b, ts, n) && forall i :: 0 <= i <= n ==> x <= Room(c, b, ts, i, n)
  {
    hide Worth;
    assert Room(c, b, ts, n, n) == c.capacity;
    if n > 0 {
      var step := Gain(c, ts[n - 1], ts[n]) - Cost(Answer(c, b, ts, n - 1));
      LevelIsLeastRoom(c, b, ts, n - 1, x - step);
      assert x <= LevelAt(c, b, ts, n) <==> x <= c.capacity && x - step <= LevelAt(c, b, ts, n - 1);
      assert StartRoom(c, b, ts, n) == StartRoom(c, b, ts, n - 1) + step;
      assert forall i {:trigger Room(c, b, ts, i, n)} {:trigger Room(c, b, ts, i, n - 1)} :: 0 <= i < n ==>
        Room(c, b, ts, i, n) == Room(c, b, ts, i, n - 1) + step;
    }
  }

  /** The window from call `i` still has room for call `n`: burst plus what was refilled. */
  predicate Conforms(c: Config, b: Bucket, ts: seq<real>, i: nat, n: nat)
    requires i <= n < |ts|
  {
    Accepted(c, b, ts, i, n) + 1.0 <= c.capacity + Worth(c, Elapsed(ts, i, n))
  }

  /** As `Conforms`, for the tokens the run started with. */
  predicate StartConforms(c: Config, b: Bucket, ts: seq<real>, n: nat)
    requires n < |ts|
  {
    Accepted(c, b, ts, 0, n) + 1.0
    <= b.tokens + Worth(c, Forward(b.last, ts[0])) + Worth(c, Elapsed(ts, 0, n))
  }

  /** A call is accepted exactly when every window that ends at it has room for it. */
  lemma AcceptsIffEveryWindowConforms(c: Config, b: Bucket, ts: seq<real>, n: nat)
    requires n < |ts|
    ensures Answer(c, b, ts, n) <==>
            StartConforms(c, b, ts, n) && forall i :: 0 <= i <= n ==> Conforms(c, b, ts, i, n)
  {
    hide Worth;
    LevelIsLeastRoom(c, b, ts, n, 1.0);
    forall i | 0 <= i <= n
      ensures Conforms(c, b, ts, i, n) <==> 1.0 <= Room(c, b, ts, i, n)
    {
      InflowIsRateTimesElapsed(c, ts, i, n);
    }
    InflowIsRateTimesElapsed(c, ts, 0, n);
  }

  /** Any contiguous run of calls `i..j`, whatever the clock does. */
  lemma WindowBound(c: Config, b: Bucket, ts: seq<real>, i: nat, j: nat)
    requires c.Valid() && b.Within(c) && i < j <= |ts|
    ensures Accepted(c, b, ts, i, j) <= c.capacity + Worth(c, Elapsed(ts, i, j - 1))
  {
    hide Worth;
    var level := LevelAt(c, b, ts, j - 1);
    LevelIsLeastRoom(c, b, ts, j - 1, level);
    assert level <= Room(c, b, ts, i, j - 1);
    TokensStayWithin(c, b, ts, j);
    assert StateAt(c, b, ts, j).tokens >= 0.0;
    InflowIsRateTimesElapsed(c, ts, i, j - 1);
  }

  ghost predicate Nondecreasing(ts: seq<real>) {
    forall i, j :: 0 <= i < j < |ts| ==> ts[i] <= ts[j]
  }

  lemma {:induction false} ElapsedIsDifference(ts: seq<real>, i: nat, j: nat)
    requires Nondecreasing(ts) && i <= j < |ts|
    ensures Elapsed(ts, i, j) == ts[j] - ts[i]
  {
    if i < j {
      ElapsedIsDifference(ts, i, j - 1);
    }
  }

  lemma WindowBoundOnAMonotoneClock(c: Config, b: Bucket, ts: seq<real>, i: nat, j: nat)
    requires c.Valid() && b.Within(c) && Nondecreasing(ts) && i < j <= |ts|
    ensures Accepted(c, b, ts, i, j) <= c.capacity + Worth(c, ts[j - 1] - ts[i])
  {
    hide Worth;
    WindowBound(c, b, ts, i, j);
    ElapsedIsDifference(ts, i, j - 1);
  }

  /** A caller that waits 1/rate after the previous call is never refused. */
  lemma PatientCallerIsAccepted(c: Config, b: Bucket, ts: seq<real>, n: nat)
    requires c.Valid() && b.Within(c) && 0 < n < |ts|
    requires ts[n] - ts[n - 1] >= 1.0 / c.rate
    ensures Answer(c, b, ts, n)
  {
    TokensStayWithin(c, b, ts, n);
    WaitRefillsOne(c, ts[n - 1], ts[n]);
    hide Worth;
  }

  lemma WaitRefillsOne(c: Config, from: real, to: real)
    requires c.Valid() && to - from >= 1.0 / c.rate
    ensures Gain(c, from, to) >= 1.0
  {
    var gap := to - from;
    assert (1.0 / c.rate) * c.rate == 1.0;
    assert (gap - 1.0 / c.rate) * c.rate >= 0.0;
  }

  // ----- Refused calls are stuttering steps -----

  /** Two buckets that a call at `t` sees as the same. */
  predicate SameAt(c: Config, b1: Bucket, b2: Bucket, t: real) {
    && b1.last <= t && b2.last <= t
    && b1.tokens + Gain(c, b1.last, t) == b2.tokens + Gain(c, b2.last, t)
  }

  lemma GainAdds(c: Config, x: real, y: real, z: real)
    requires x <= y <= z
    ensures Gain(c, x, z) == Gain(c, x, y) + Gain(c, y, z)
  {
    assert (z - x) * c.rate == (y - x) * c.rate + (z - y) * c.rate;
  }

  lemma RefusalStutters(c: Config, b: Bucket, now: real, t: real)
    requires c.Valid() && b.last <= now <= t && !Accepts(c, b, now)
    ensures SameAt(c, b, After(c, b, now), t)
  {
    GainAdds(c, b.last, now, t);
    hide Worth;
  }

  /** The run starts no later than its first call. */
  ghost predicate OnClock(b: Bucket, ts: seq<real>) {
    Nondecreasing(ts) && (|ts| > 0 ==> b.last <= ts[0])
  }

  lemma LastIsPast(c: Config, b: Bucket, ts: seq<real>, n: nat)
    requires OnClock(b, ts) && n < |ts|
    ensures StateAt(c, b, ts, n).last <= ts[n]
  {
  }

  function Without(ts: seq<real>, k: nat): seq<real>
    requires k < |ts|
  {
    ts[..k] + ts[k + 1..]
  }

  lemma {:induction false} StateDependsOnPrefix(c: Config, b: Bucket, ts: seq<real>, us: seq<real>, n: nat)
    requires n <= |ts| && n <= |us| && ts[..n] == us[..n]
    ensures StateAt(c, b, ts, n) == StateAt(c, b, us, n)
  {
    if n > 0 {
      assert ts[..n - 1] == ts[..n][..n - 1] == us[..n][..n - 1] == us[..n - 1];
      assert ts[n - 1] == ts[..n][n - 1] == us[..n][n - 1] == us[n - 1];
      StateDependsOnPrefix(c, b, ts, us, n - 1);
    }
  }

  /** The clock reading before call `n`. */
  function LastTime(b: Bucket, ts: seq<real>, n: nat): real
    requires n <= |ts|
  {
    if n == 0 then b.last else ts[n - 1]
  }

  lemma LastIsLastTime(c: Config, b: Bucket, ts: seq<real>, n: nat)
    requires n <= |ts|
    ensures StateAt(c, b, ts, n).last == LastTime(b, ts, n)
  {
    hide Level, Accepts;
  }

  /** Two buckets that look the same to a call are the same after it. */
  lemma SameAtBecomesSame(c: Config, b1: Bucket, b2: Bucket, t: real)
    requires SameAt(c, b1, b2, t)
    ensures Accepts(c, b1, t) == Accepts(c, b2, t) && After(c, b1, t) == After(c, b2, t)
  {
    hide Worth;
  }

  /** The clock does not step back at the refused call `k`, nor right after it. */
  predicate ForwardAround(b: Bucket, ts: seq<real>, k: nat)
    requires k < |ts|
  {
    LastTime(b, ts, k) <= ts[k] && (k + 1 < |ts| ==> ts[k] <= ts[k + 1])
  }

  /** The call after the deleted one finds a bucket that looks the same. */
  lemma DeletionIsUnseen(c: Config, b: Bucket, ts: seq<real>, k: nat)
    requires c.Valid() && k + 1 < |ts| && ForwardAround(b, ts, k)
    requires !Answer(c, b, ts, k)
    ensures SameAt(c, StateAt(c, b, ts, k + 1), StateAt(c, b, Without(ts, k), k), ts[k + 1])
  {
    hide Worth;
    StateDependsOnPrefix(c, b, ts, Without(ts, k), k);
    LastIsLastTime(c, b, ts, k);
    RefusalStutters(c, StateAt(c, b, ts, k), ts[k], ts[k + 1]);
  }

  /** From then on the two runs are in the same state. */
  lemma {:induction false} DeletionKeepsStates(c: Config, b: Bucket, ts: seq<real>, k: nat, n: nat)
    requires c.Valid() && k + 1 < n <= |ts| && ForwardAround(b, ts, k)
    requires !Answer(c, b, ts, k)
    ensures StateAt(c, b, ts, n) == StateAt(c, b, Without(ts, k), n - 1)
  {
    hide After, SameAt, Accepts;
    assert Without(ts, k)[n - 2] == ts[n - 1];
    if n == k + 2 {
      DeletionIsUnseen(c, b, ts, k);
      SameAtBecomesSame(c, StateAt(c, b, ts, k + 1), StateAt(c, b, Without(ts, k), k), ts[k + 1]);
    } else {
      DeletionKeepsStates(c, b, ts, k, n - 1);
    }
  }

  /** Deleting a refused call changes no other call's answer, whatever the clock does
      elsewhere, if it does not step back around that call. */
  lemma RefusedCallLeavesNoTrace(c: Config, b: Bucket, ts: seq<real>, k: nat, n: nat)
    requires c.Valid() && k < |ts| && n < |ts| && n != k && ForwardAround(b, ts, k)
    requires !Answer(c, b, ts, k)
    ensures Answer(c, b, ts, n) == Answer(c, b, Without(ts, k), if n < k then n else n - 1)
  {
    hide After, SameAt, Accepts;
    if n < k {
      StateDependsOnPrefix(c, b, ts, Without(ts, k), n);
    } else if n == k + 1 {
      DeletionIsUnseen(c, b, ts, k);
      SameAtBecomesSame(c, StateAt(c, b, ts, k + 1), StateAt(c, b, Without(ts, k), k), ts[k + 1]);
    } else {
      DeletionKeepsStates(c, b, ts, k, n);
    }
  }

  /** On a nondecreasing clock that is so for every refused call. */
  lemma RefusedCallsLeaveNoTrace(c: Config, b: Bucket, ts: seq<real>, k: nat, n: nat)
    requires c.Valid() && OnClock(b, ts) && k < |ts| && n < |ts| && n != k
    requires !Answer(c, b, ts, k)
    ensures Answer(c, b, ts, n) == Answer(c, b, Without(ts, k), if n < k then n else n - 1)
  {
    RefusedCallLeavesNoTrace(c, b, ts, k, n);
  }

  /** A refused call at `now`, after `ts`, makes no difference to the calls `us` that follow. */
  ghost predicate MakesNoDifference(c: Config, b: Bucket, ts: seq<real>, now: real, us: seq<real>) {
    forall n :: |ts| <= n < |ts + us| ==> Answer(c, b, ts + [now] + us, n + 1) == Answer(c, b, ts + us, n)
  }

  /** The calls that follow start no earlier than the refused call and the one before it. */
  ghost predicate StartsLater(b: Bucket, ts: seq<real>, now: real, us: seq<real>) {
    us != [] ==> us[0] >= now && us[0] >= LastTime(b, ts, |ts|)
  }

  /** A bucket that is refused on a clock that steps back is ahead of one that never was asked:
      the moment at which only the first is full enough. */
  lemma BackwardRefusalShows(c: Config, b: Bucket, now: real) returns (t: real)
    requires c.Valid() && b.Within(c) && !Accepts(c, b, now) && now < b.last
    ensures t >= b.last && Accepts(c, After(c, b, now), t) && !Accepts(c, b, t)
  {
    var lead := Worth(c, b.last - now);
    var missing := 1.0 - b.tokens - lead;
    assert lead > 0.0;
    assert Worth(c, 0.0) == 0.0;
    t := b.last + if missing > 0.0 then missing / c.rate else 0.0;
    assert Worth(c, t - b.last) == if missing > 0.0 then missing else 0.0;
    WorthAdds(c, t - b.last, b.last - now);
    hide Worth;
    assert t - now == (t - b.last) + (b.last - now);
  }

  /** A refused call leaves no trace in any later run if and only if the clock did not step back
      to it: the guard of `saturating_duration_since`. */
  lemma RefusedCallLeavesNoTraceIff(c: Config, b: Bucket, ts: seq<real>, now: real)
    requires c.Valid() && b.Within(c) && !Accepts(c, StateAt(c, b, ts, |ts|), now)
    ensures (forall us :: StartsLater(b, ts, now, us) ==> MakesNoDifference(c, b, ts, now, us))
            <==> LastTime(b, ts, |ts|) <= now
  {
    hide Accepts, After, SameAt;
    var m, s := |ts|, StateAt(c, b, ts, |ts|);
    LastIsLastTime(c, b, ts, m);
    TokensStayWithin(c, b, ts, m);
    if LastTime(b, ts, m) <= now {
      forall us | StartsLater(b, ts, now, us)
        ensures MakesNoDifference(c, b, ts, now, us)
      {
        DeletionMakesNoDifference(c, b, ts, now, us);
      }
    } else {
      var t := BackwardRefusalShows(c, s, now);
      StateDependsOnPrefix(c, b, ts, ts + [t], m);
      RefusedThen(c, b, ts, now, t);
      assert StartsLater(b, ts, now, [t]) && |ts + [t]| == m + 1;
      assert Answer(c, b, ts + [now] + [t], m + 1) != Answer(c, b, ts + [t], m);
    }
  }

  lemma RefusedThen(c: Config, b: Bucket, ts: seq<real>, now: real, t: real)
    ensures Answer(c, b, ts + [now] + [t], |ts| + 1) == Accepts(c, After(c, StateAt(c, b, ts, |ts|), now), t)
  {
    hide Accepts, After;
    StateDependsOnPrefix(c, b, ts, ts + [now] + [t], |ts|);
  }

  lemma DeletionMakesNoDifference(c: Config, b: Bucket, ts: seq<real>, now: real, us: seq<real>)
    requires c.Valid() && !Accepts(c, StateAt(c, b, ts, |ts|), now)
    requires LastTime(b, ts, |ts|) <= now && StartsLater(b, ts, now, us)
    ensures MakesNoDifference(c, b, ts, now, us)
  {
    hide Accepts, After;
    var m, all := |ts|, ts + [now] + us;
    StateDependsOnPrefix(c, b, ts, all, m);
    assert Without(all, m) == ts + us;
    assert all[m] == now && LastTime(b, all, m) == LastTime(b, ts, m);
    forall n | m <= n < |ts + us|
      ensures Answer(c, b, all, n + 1) == Answer(c, b, ts + us, n)
    {
      RefusedCallLeavesNoTrace(c, b, all, m, n + 1);
    }
  }

  /** The times of the accepted calls among the first `n`. */
  function Survivors(c: Config, b: Bucket, ts: seq<real>, n: nat): seq<real>
    requires n <= |ts|
  {
    if n == 0 then []
    else Survivors(c, b, ts, n - 1) + if Answer(c, b, ts, n - 1) then [ts[n - 1]] else []
  }

  /** Deleting every refused call at once: the accepted calls alone are all accepted,
      and any later call then finds the same bucket. */
  lemma {:induction false} SurvivorsAloneAreAllAccepted(c: Config, b: Bucket, ts: seq<real>, n: nat, t: real)
    requires c.Valid() && OnClock(b, ts) && n <= |ts|
    requires b.last <= t && forall i :: 0 <= i < n ==> ts[i] <= t
    ensures var us := Survivors(c, b, ts, n);
            && (forall m :: 0 <= m < |us| ==> Answer(c, b, us, m))
            && SameAt(c, StateAt(c, b, ts, n), StateAt(c, b, us, |us|), t)
  {
    hide Worth;
    if n > 0 {
      var us, vs := Survivors(c, b, ts, n - 1), Survivors(c, b, ts, n);
      SurvivorsAloneAreAllAccepted(c, b, ts, n - 1, ts[n - 1]);
      LastIsPast(c, b, ts, n - 1);
      if Answer(c, b, ts, n - 1) {
        forall m | 0 <= m <= |us|
          ensures StateAt(c, b, us, m) == StateAt(c, b, vs, m)
        {
          StateDependsOnPrefix(c, b, us, vs, m);
        }
        assert StateAt(c, b, ts, n) == StateAt(c, b, vs, |vs|);
        forall m | 0 <= m < |us|
          ensures Answer(c, b, vs, m)
        {
          assert Answer(c, b, us, m);
        }
      } else {
        assert vs == us;
        SurvivorsAloneAreAllAccepted(c, b, ts, n - 1, t);
        RefusalStutters(c, StateAt(c, b, ts, n - 1), ts[n - 1], t);
      }
    }
  }

  const ONE_PER_SECOND := Config(1.0, 1.0)

  lemma WorthAtOnePerSecond(x: real)
    ensures Worth(ONE_PER_SECOND, x) == x
  {
  }

  lemma LevelAtOnePerSecond(b: Bucket, now: real)
    ensures b.tokens + Forward(b.last, now) <= 1.0 ==>
              Level(ONE_PER_SECOND, b, now) == b.tokens + Forward(b.last, now)
    ensures b.tokens + Forward(b.last, now) > 1.0 ==> Level(ONE_PER_SECOND, b, now) == 1.0
    ensures Level(ONE_PER_SECOND, b, now) == 0.0 ==> After(ONE_PER_SECOND, b, now) == Bucket(0.0, now)
    ensures Level(ONE_PER_SECOND, b, now) == 1.0 ==> After(ONE_PER_SECOND, b, now) == Bucket(0.0, now)
  {
    WorthAtOnePerSecond(Forward(b.last, now));
    hide Worth;
  }

  /** A concrete run on a clock that steps back: the refused call at 0 moves the refill point
      back, and the third call is then accepted. */
  lemma BackwardClockBreaksStuttering(c: Config, b: Bucket, ts: seq<real>)
    requires c == ONE_PER_SECOND && b == Bucket(1.0, 0.0) && ts == [1.0, 0.0, 1.0]
    ensures !Answer(c, b, ts, 1) && Answer(c, b, ts, 2)
    ensures Without(ts, 1) == [1.0, 1.0] && !Answer(c, b, [1.0, 1.0], 1)
  {
    hide Level, StateAt, After;
    StateStep(c, b, ts, 0);
    StateStep(c, b, ts, 1);
    StateStep(c, b, [1.0, 1.0], 0);
    LevelAtOnePerSecond(b, 1.0);
    LevelAtOnePerSecond(Bucket(0.0, 1.0), 0.0);
    LevelAtOnePerSecond(Bucket(0.0, 1.0), 1.0);
    LevelAtOnePerSecond(Bucket(0.0, 0.0), 1.0);
  }

  lemma StateStep(c: Config, b: Bucket, ts: seq<real>, n: nat)
    requires n < |ts|
    ensures StateAt(c, b, ts, n + 1) == After(c, StateAt(c, b, ts, n), ts[n])
    ensures n == 0 ==> StateAt(c, b, ts, n) == b
  {
  }
}
