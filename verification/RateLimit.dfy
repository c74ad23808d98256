/**
 The fixed-window rate limiter of `beampipe-api`: counters in an expiring store shared by
 all API replicas, their keys, and the client address the counters are kept for.
 */
module RateLimit {
  import opened Options
  import opened Runs

  // ---------------------------------------------------------------- the limiter as a state machine

  /** The settings of a limiter; both are checked to be positive when it is built. */
  datatype Limiter = Limiter(limit: nat, period: nat) {
    ghost predicate Valid() { limit > 0 && period > 0 }
  }

  /** What a counter counts: one subject on one path in one window. */
  datatype Bucket = Bucket(subject: string, path: string, window: nat)

  datatype Counter = Counter(count: nat, expireAt: Option<nat>)

  /** `StoreError` if EXPIRE failed, `NoReply` if INCR counted but its reply was lost. */
  datatype Verdict = Pending | Admitted | Limited | StoreError | NoReply

  /** One check that was counted: its bucket, when, and the count the store came to. */
  datatype Check = Check(bucket: Bucket, at: nat, count: nat, verdict: Verdict)

  /** Seconds on the shared clock, the counters of the store, and all checks so far. */
  datatype State = State(now: nat, counters: map<Bucket, Counter>, checks: seq<Check>)

  const Init := State(0, map[], [])

  /**
   `Incr` reads the clock and increments as one step; it may also fail, with or without effect
   (`LoseIncr`). The first check of a counter that gets its reply then sends EXPIRE, which may come
   late (`Expire`), or fail with or without effect (`LoseExpire`).
   */
  datatype Event =
    | Incr(subject: string, path: string)
    | LoseIncr(subject: string, path: string, applied: bool)
    | Expire(i: nat)
    | LoseExpire(i: nat, applied: bool)
    | Tick(elapsed: nat)

  /** The counter of a bucket, unless it has expired. */
  function Live(s: State, b: Bucket): Option<Counter> {
    if b in s.counters && (s.counters[b].expireAt.Some? ==> s.now < s.counters[b].expireAt.value)
    then Some(s.counters[b])
    else None
  }

  function Incremented(s: State, b: Bucket): Counter {
    match Live(s, b)
    case Some(c) => Counter(c.count + 1, c.expireAt)
    case None => Counter(1, None)
  }

  /** EXPIRE has no effect on a key that is not there. */
  function Expiring(s: State, b: Bucket, period: nat): map<Bucket, Counter> {
    match Live(s, b)
    case Some(c) => s.counters[b := Counter(c.count, Some(s.now + period))]
    case None => s.counters
  }

  /** One more check has been counted. */
  function Counted(l: Limiter, s: State, subject: string, path: string, verdict: Verdict): State
    requires l.Valid()
  {
    var b := Bucket(subject, path, s.now / l.period);
    var c := Incremented(s, b);
    s.(counters := s.counters[b := c], checks := s.checks + [Check(b, s.now, c.count, verdict)])
  }

  function VerdictOf(l: Limiter, count: nat): Verdict {
    if count > l.limit then Limited else Admitted
  }

  ghost function Next(l: Limiter): (State, Event) -> Option<State>
    requires l.Valid()
  {
    (s: State, ev: Event) =>
      match ev
      case Incr(subject, path) =>
        var b := Bucket(subject, path, s.now / l.period);
        var count := Incremented(s, b).count;
        Some(Counted(l, s, subject, path, if count == 1 then Pending else VerdictOf(l, count)))
      case LoseIncr(subject, path, applied) =>
        Some(if applied then Counted(l, s, subject, path, NoReply) else s)
      case Expire(i) =>
        if i < |s.checks| && s.checks[i].verdict == Pending then
          var check := s.checks[i];
          Some(s.(counters := Expiring(s, check.bucket, l.period),
                  checks := s.checks[i := check.(verdict := VerdictOf(l, check.count))]))
        else None
      case LoseExpire(i, applied) =>
        if i < |s.checks| && s.checks[i].verdict == Pending then
          var check := s.checks[i];
          Some(s.(counters := if applied then Expiring(s, check.bucket, l.period) else s.counters,
                  checks := s.checks[i := check.(verdict := StoreError)]))
        else None
      case Tick(elapsed) => Some(s.(now := s.now + elapsed))
  }

  lemma NextCounts(l: Limiter, s: State, subject: string, path: string)
    requires l.Valid()
    ensures var count := Incremented(s, Bucket(subject, path, s.now / l.period)).count;
            Next(l)(s, Incr(subject, path)) ==
            Some(Counted(l, s, subject, path, if count == 1 then Pending else VerdictOf(l, count)))
  {
  }

  ghost function Run(l: Limiter, evs: seq<Event>): Option<State>
    requires l.Valid()
  {
    Exec(Next(l), Init, evs)
  }

  // ---------------------------------------------------------------- invariant

  /** How many checks of a bucket are among the first `n`. */
  ghost function Ordinal(checks: seq<Check>, b: Bucket, n: nat): nat
    requires n <= |checks|
  {
    if n == 0 then 0 else Ordinal(checks, b, n - 1) + (if checks[n - 1].bucket == b then 1 else 0)
  }

  /** A verdict for the check with this count; only the first check of a bucket depends on EXPIRE. */
  predicate VerdictOk(l: Limiter, count: nat, verdict: Verdict) {
    || verdict == VerdictOf(l, count)
    || verdict.NoReply?
    || (count == 1 && (verdict.Pending? || verdict.StoreError?))
  }

  /** A check is told its place among the checks of its bucket, and judged by it. */
  ghost predicate CheckOk(l: Limiter, s: State, i: nat)
    requires l.Valid() && i < |s.checks|
  {
    var check := s.checks[i];
    && check.at <= s.now
    && check.bucket.window == check.at / l.period
    && check.count == Ordinal(s.checks, check.bucket, i + 1)
    && VerdictOk(l, check.count, check.verdict)
  }

  /** A counter of the current window holds the number of checks so far and outlives the window. */
  ghost predicate CounterOk(l: Limiter, s: State, b: Bucket)
    requires l.Valid()
  {
    var n := Ordinal(s.checks, b, |s.checks|);
    && (b in s.counters ==>
          s.counters[b].expireAt.Some? ==> s.counters[b].expireAt.value >= (b.window + 1) * l.period)
    && (b.window > s.now / l.period ==> n == 0 && b !in s.counters)
    && (b.window == s.now / l.period ==>
          if n == 0 then b !in s.counters else b in s.counters && s.counters[b].count == n)
  }

  ghost predicate Inv(l: Limiter, s: State)
    requires l.Valid()
  {
    && (forall i | 0 <= i < |s.checks| :: CheckOk(l, s, i))
    && (forall b :: CounterOk(l, s, b))
  }

  lemma {:induction false} OrdinalFrame(checks: seq<Check>, checks': seq<Check>, b: Bucket, n: nat)
    requires n <= |checks| && n <= |checks'|
    requires forall i | 0 <= i < n :: checks'[i].bucket == checks[i].bucket
    ensures Ordinal(checks', b, n) == Ordinal(checks, b, n)
  {
    if n > 0 { OrdinalFrame(checks, checks', b, n - 1); }
  }

  /** A moment of window `w`, plus one period, is past the end of the window. */
  lemma ExpiryOutlivesWindow(now: nat, period: nat)
    requires period > 0
    ensures now < (now / period + 1) * period <= now + period
  {
    assert now == (now / period) * period + now % period;
    assert (now / period + 1) * period == (now / period) * period + period;
  }

  lemma WindowsAdvance(earlier: nat, later: nat, period: nat)
    requires period > 0 && earlier <= later
    ensures earlier / period <= later / period
  {
    var e, f := earlier / period, later / period;
    assert earlier == e * period + earlier % period && later == f * period + later % period;
    var t := e - f;
    assert t * period == e * period - f * period < period;
    assert t >= 1 ==> t * period >= period;
  }

  lemma LaterWindowsEndLater(w: nat, v: nat, period: nat)
    requires w <= v
    ensures w * period <= v * period
  {}

  /** A late EXPIRE still leaves the counter alive to the end of its own window. */
  lemma ExpiringKeepsCounters(l: Limiter, s: State, i: nat, verdict: Verdict, applied: bool)
    requires l.Valid() && Inv(l, s) && i < |s.checks| && s.checks[i].verdict.Pending?
    requires verdict == VerdictOf(l, s.checks[i].count) || verdict.StoreError?
    ensures Inv(l, s.(counters := if applied then Expiring(s, s.checks[i].bucket, l.period) else s.counters,
                      checks := s.checks[i := s.checks[i].(verdict := verdict)]))
  {
    var check := s.checks[i];
    var b := check.bucket;
    var s' := s.(counters := if applied then Expiring(s, b, l.period) else s.counters,
                 checks := s.checks[i := check.(verdict := verdict)]);
    assert CheckOk(l, s, i);
    WindowsAdvance(check.at, s.now, l.period);
    LaterWindowsEndLater(b.window + 1, s.now / l.period + 1, l.period);
    ExpiryOutlivesWindow(s.now, l.period);
    forall j | 0 <= j < |s'.checks| ensures CheckOk(l, s', j) {
      assert CheckOk(l, s, j);
      OrdinalFrame(s.checks, s'.checks, s.checks[j].bucket, j + 1);
    }
    forall c: Bucket ensures CounterOk(l, s', c) {
      assert CounterOk(l, s, c);
      OrdinalFrame(s.checks, s'.checks, c, |s.checks|);
    }
  }

  lemma CountingKeepsInv(l: Limiter, s: State, subject: string, path: string, verdict: Verdict)
    requires l.Valid() && Inv(l, s)
    requires VerdictOk(l, Incremented(s, Bucket(subject, path, s.now / l.period)).count, verdict)
    ensures Inv(l, Counted(l, s, subject, path, verdict))
  {
    var s' := Counted(l, s, subject, path, verdict);
    var b := Bucket(subject, path, s.now / l.period);
    var n := |s.checks|;
    ExpiryOutlivesWindow(s.now, l.period);
    assert CounterOk(l, s, b);
    var counter := Incremented(s, b);
    assert counter.count == Ordinal(s.checks, b, n) + 1;
    assert s'.checks == s.checks + [s'.checks[n]] && s'.checks[n].bucket == b;
    assert s'.counters == s.counters[b := counter];
    forall c: Bucket ensures CounterOk(l, s', c) {
      assert CounterOk(l, s, c);
      OrdinalFrame(s.checks, s'.checks, c, n);
    }
    OrdinalFrame(s.checks, s'.checks, b, n);
    forall j | 0 <= j < |s'.checks| ensures CheckOk(l, s', j) {
      if j < |s.checks| {
        assert CheckOk(l, s, j);
        OrdinalFrame(s.checks, s'.checks, s.checks[j].bucket, j + 1);
      }
    }
  }

  lemma TickKeepsInv(l: Limiter, s: State, elapsed: nat)
    requires l.Valid() && Inv(l, s)
    ensures Inv(l, s.(now := s.now + elapsed))
  {
    var s' := s.(now := s.now + elapsed);
    WindowsAdvance(s.now, s'.now, l.period);
    forall b: Bucket ensures CounterOk(l, s', b) {
      assert CounterOk(l, s, b);
    }
    forall j | 0 <= j < |s'.checks| ensures CheckOk(l, s', j) {
      assert CheckOk(l, s, j);
    }
  }

  lemma NextKeepsInv(l: Limiter, s: State, ev: Event)
    requires l.Valid() && Inv(l, s) && Next(l)(s, ev).Some?
    ensures Inv(l, Next(l)(s, ev).value)
  {
    match ev
    case Incr(subject, path) =>
      var count := Incremented(s, Bucket(subject, path, s.now / l.period)).count;
      CountingKeepsInv(l, s, subject, path, if count == 1 then Pending else VerdictOf(l, count));
    case LoseIncr(subject, path, applied) =>
      if applied { CountingKeepsInv(l, s, subject, path, NoReply); }
    case Expire(i) => ExpiringKeepsCounters(l, s, i, VerdictOf(l, s.checks[i].count), true);
    case LoseExpire(i, applied) => ExpiringKeepsCounters(l, s, i, StoreError, applied);
    case Tick(elapsed) => TickKeepsInv(l, s, elapsed);
  }

  lemma RunKeepsInv(l: Limiter, evs: seq<Event>)
    requires l.Valid() && Run(l, evs).Some?
    ensures Inv(l, Run(l, evs).value)
  {
    forall s, ev | Inv(l, s) && Next(l)(s, ev).Some? ensures Inv(l, Next(l)(s, ev).value) {
      NextKeepsInv(l, s, ev);
    }
    ExecKeeps(Next(l), s => Inv(l, s), Init, evs);
  }

  // ---------------------------------------------------------------- what the events say

  /** The time after a run: the ticks in it. */
  function Clock(evs: seq<Event>): nat {
    if evs == [] then 0
    else Clock(evs[..|evs| - 1]) + (if evs[|evs| - 1].Tick? then evs[|evs| - 1].elapsed else 0)
  }

  /** The store has counted a check. */
  predicate Counts(ev: Event) {
    ev.Incr? || (ev.LoseIncr? && ev.applied)
  }

  /** What was asked for, and when: one entry for each check that was counted, in order. */
  function Asked(l: Limiter, evs: seq<Event>): seq<(Bucket, nat)>
    requires l.period > 0
  {
    if evs == [] then []
    else
      var front, last := evs[..|evs| - 1], evs[|evs| - 1];
      Asked(l, front)
      + (if Counts(last) then [(Bucket(last.subject, last.path, Clock(front) / l.period), Clock(front))] else [])
  }

  ghost predicate ChecksAre(s: State, asked: seq<(Bucket, nat)>) {
    && |s.checks| == |asked|
    && forall i | 0 <= i < |asked| :: s.checks[i].bucket == asked[i].0 && s.checks[i].at == asked[i].1
  }

  lemma StepAsks(l: Limiter, s: State, ev: Event, asked: seq<(Bucket, nat)>)
    requires l.Valid() && Next(l)(s, ev).Some? && ChecksAre(s, asked)
    ensures var t := Next(l)(s, ev).value;
      && t.now == s.now + (if ev.Tick? then ev.elapsed else 0)
      && ChecksAre(t, asked + if Counts(ev) then [(Bucket(ev.subject, ev.path, s.now / l.period), s.now)] else [])
  {
    match ev
    case Incr(subject, path) => NextCounts(l, s, subject, path);
    case LoseIncr(subject, path, applied) =>
      assert Next(l)(s, ev) == Some(if applied then Counted(l, s, subject, path, NoReply) else s);
    case Expire(i) => assert Next(l)(s, ev).value.now == s.now;
    case LoseExpire(i, _) => assert Next(l)(s, ev).value.now == s.now;
    case Tick(elapsed) => assert Next(l)(s, ev) == Some(s.(now := s.now + elapsed));
  }

  /** The checks of a run are those asked for, each counted for its subject, path and window. */
  lemma {:induction false} ChecksAreAsked(l: Limiter, evs: seq<Event>)
    requires l.Valid() && Run(l, evs).Some?
    ensures Run(l, evs).value.now == Clock(evs) && ChecksAre(Run(l, evs).value, Asked(l, evs))
  {
    if evs != [] {
      var front, last := evs[..|evs| - 1], evs[|evs| - 1];
      ExecLast(Next(l), Init, evs);
      ChecksAreAsked(l, front);
      StepAsks(l, Run(l, front).value, last, Asked(l, front));
    }
  }

  /** A counter that has been given its expiry lives for one period from then on, and no longer. */
  lemma CountersExpire(l: Limiter, s: State, i: nat, elapsed: nat)
    requires l.Valid() && i < |s.checks| && s.checks[i].verdict.Pending? && Live(s, s.checks[i].bucket).Some?
    ensures var t := Next(l)(s, Expire(i)).value;
            Live(t.(now := t.now + elapsed), s.checks[i].bucket).Some? <==> elapsed < l.period
  {
  }

  // ---------------------------------------------------------------- the bound over whole runs

  /** A settled check is limited exactly when `limit` checks of its bucket came before it. */
  lemma LimitedExactlyAfterLimit(l: Limiter, evs: seq<Event>, i: nat)
    requires l.Valid() && Run(l, evs).Some? && i < |Run(l, evs).value.checks|
    ensures
      var checks := Run(l, evs).value.checks;
      var before := Ordinal(checks, checks[i].bucket, i);
      && checks[i].bucket.window == checks[i].at / l.period
      && (checks[i].verdict.Limited? ==> before >= l.limit)
      && (checks[i].verdict.Admitted? ==> before < l.limit)
      && (checks[i].verdict.Pending? || checks[i].verdict.StoreError? ==> before == 0)
      && (before >= l.limit ==> checks[i].verdict.Limited? || checks[i].verdict.NoReply?)
  {
    RunKeepsInv(l, evs);
    assert CheckOk(l, Run(l, evs).value, i);
  }

  ghost function AdmittedOf(checks: seq<Check>, b: Bucket, n: nat): nat
    requires n <= |checks|
  {
    if n == 0 then 0 else
      AdmittedOf(checks, b, n - 1) + (if checks[n - 1].bucket == b && checks[n - 1].verdict.Admitted? then 1 else 0)
  }

  /** The checks of a bucket that have not learned, or never learn, whether EXPIRE worked. */
  ghost function UnsettledOf(checks: seq<Check>, b: Bucket, n: nat): nat
    requires n <= |checks|
  {
    if n == 0 then 0 else
      UnsettledOf(checks, b, n - 1)
      + (if checks[n - 1].bucket == b && (checks[n - 1].verdict.Pending? || checks[n - 1].verdict.StoreError?) then 1 else 0)
  }

  /** The checks of a bucket that took one of its first `limit` places and never heard of it. */
  ghost function UnheardOf(l: Limiter, checks: seq<Check>, b: Bucket, n: nat): nat
    requires n <= |checks|
  {
    if n == 0 then 0 else
      UnheardOf(l, checks, b, n - 1)
      + (if checks[n - 1].bucket == b && checks[n - 1].verdict.NoReply? && checks[n - 1].count <= l.limit then 1 else 0)
  }

  function Min(a: nat, b: nat): nat { if a < b then a else b }

  /**
   Each bucket admits its first `limit` checks and no other, but for the first one if it is unsettled
   and for those that were counted without a reply.
   */
  lemma {:induction false} BucketAdmitsItsFirst(l: Limiter, s: State, b: Bucket, n: nat)
    requires l.Valid() && Inv(l, s) && n <= |s.checks|
    ensures AdmittedOf(s.checks, b, n) + UnsettledOf(s.checks, b, n) + UnheardOf(l, s.checks, b, n)
         == Min(l.limit, Ordinal(s.checks, b, n))
    ensures UnsettledOf(s.checks, b, n) <= 1
  {
    if n > 0 {
      BucketAdmitsItsFirst(l, s, b, n - 1);
      assert CheckOk(l, s, n - 1);
      if Ordinal(s.checks, b, n - 1) == 0 { NoneBeforeFirst(s.checks, b, n - 1); }
    }
  }

  lemma {:induction false} NoneBeforeFirst(checks: seq<Check>, b: Bucket, n: nat)
    requires n <= |checks| && Ordinal(checks, b, n) == 0
    ensures UnsettledOf(checks, b, n) == 0
  {
    if n > 0 { NoneBeforeFirst(checks, b, n - 1); }
  }

  /** Admitted checks of one subject on one path with `from <= at < until`, among the first `n`. */
  ghost function AdmittedBetween(checks: seq<Check>, subject: string, path: string, from: nat, until: nat, n: nat): nat
    requires n <= |checks|
  {
    if n == 0 then 0 else
      AdmittedBetween(checks, subject, path, from, until, n - 1)
      + (var c := checks[n - 1];
         if c.verdict.Admitted? && c.bucket.subject == subject && c.bucket.path == path && from <= c.at < until
         then 1 else 0)
  }

  lemma {:induction false} IntervalSplits(
      checks: seq<Check>, subject: string, path: string, from: nat, mid: nat, until: nat, n: nat)
    requires n <= |checks| && from <= mid <= until
    ensures AdmittedBetween(checks, subject, path, from, until, n)
         == AdmittedBetween(checks, subject, path, from, mid, n) + AdmittedBetween(checks, subject, path, mid, until, n)
  {
    if n > 0 { IntervalSplits(checks, subject, path, from, mid, until, n - 1); }
  }

  /** Within one window, the interval counts at most the window's bucket. */
  lemma {:induction false} IntervalInWindow(
      l: Limiter, s: State, b: Bucket, from: nat, until: nat, n: nat)
    requires l.Valid() && Inv(l, s) && n <= |s.checks|
    requires b.window * l.period <= from && until <= (b.window + 1) * l.period
    ensures AdmittedBetween(s.checks, b.subject, b.path, from, until, n) <= AdmittedOf(s.checks, b, n)
  {
    if n > 0 {
      IntervalInWindow(l, s, b, from, until, n - 1);
      var c := s.checks[n - 1];
      assert CheckOk(l, s, n - 1);
      if from <= c.at < until { WindowOf(c.at, b.window, l.period); }
    }
  }

  lemma WindowOf(at: nat, w: nat, period: nat)
    requires period > 0 && w * period <= at < (w + 1) * period
    ensures at / period == w
  {
    var q := at / period;
    assert at == q * period + at % period;
    var t := q - w;
    assert t * period == q * period - w * period && (w + 1) * period == w * period + period;
    assert 0 < t * period + period && t * period < period;
    assert t >= 1 ==> t * period >= period;
    assert t <= -1 ==> t * period + period <= 0;
  }

  /** An interval that fits into `m` windows from `w` on admits at most `m * limit` checks. */
  lemma {:induction false} WindowsAdmit(
      l: Limiter, s: State, subject: string, path: string, w: nat, m: nat, from: nat, until: nat)
    requires l.Valid() && Inv(l, s)
    requires w * l.period <= from <= until <= (w + m) * l.period
    ensures AdmittedBetween(s.checks, subject, path, from, until, |s.checks|) <= m * l.limit
  {
    var n := |s.checks|;
    if m == 0 {
      NothingBetween(s.checks, subject, path, from, until, n);
    } else {
      var last := (w + (m - 1)) * l.period;
      assert (w + m) * l.period == last + l.period;
      assert m * l.limit == (m - 1) * l.limit + l.limit;
      if until <= last {
        WindowsAdmit(l, s, subject, path, w, m - 1, from, until);
      } else if last <= from {
        OneWindowAdmits(l, s, subject, path, w + (m - 1), from, until);
      } else {
        IntervalSplits(s.checks, subject, path, from, last, until, n);
        OneWindowAdmits(l, s, subject, path, w + (m - 1), last, until);
        WindowsAdmit(l, s, subject, path, w, m - 1, from, last);
      }
    }
  }

  lemma OneWindowAdmits(l: Limiter, s: State, subject: string, path: string, w: nat, from: nat, until: nat)
    requires l.Valid() && Inv(l, s)
    requires w * l.period <= from <= until <= w * l.period + l.period
    ensures AdmittedBetween(s.checks, subject, path, from, until, |s.checks|) <= l.limit
  {
    var n, b := |s.checks|, Bucket(subject, path, w);
    assert (w + 1) * l.period == w * l.period + l.period;
    IntervalInWindow(l, s, b, from, until, n);
    BucketAdmitsItsFirst(l, s, b, n);
  }

  lemma {:induction false} NothingBetween(
      checks: seq<Check>, subject: string, path: string, from: nat, until: nat, n: nat)
    requires n <= |checks| && until <= from
    ensures AdmittedBetween(checks, subject, path, from, until, n) == 0
  {
    if n > 0 { NothingBetween(checks, subject, path, from, until, n - 1); }
  }

  /** Any interval of `periods` periods admits at most `(periods + 1) * limit` checks. */
  lemma IntervalBound(l: Limiter, evs: seq<Event>, subject: string, path: string, from: nat, periods: nat)
    requires l.Valid() && Run(l, evs).Some?
    ensures
      var checks := Run(l, evs).value.checks;
      AdmittedBetween(checks, subject, path, from, from + periods * l.period, |checks|) <= (periods + 1) * l.limit
  {
    RunKeepsInv(l, evs);
    var w := from / l.period;
    ExpiryOutlivesWindow(from, l.period);
    assert from == w * l.period + from % l.period;
    assert (w + (periods + 1)) * l.period == (w + 1) * l.period + periods * l.period;
    WindowsAdmit(l, Run(l, evs).value, subject, path, w, periods + 1, from, from + periods * l.period);
  }

  // ---------------------------------------------------------------- the bound is reached

  lemma {:induction false} BetweenFrame(
      checks: seq<Check>, checks': seq<Check>, subject: string, path: string, from: nat, until: nat, n: nat)
    requires n <= |checks| && n <= |checks'| && checks[..n] == checks'[..n]
    ensures AdmittedBetween(checks', subject, path, from, until, n) == AdmittedBetween(checks, subject, path, from, until, n)
  {
    if n > 0 {
      assert checks[n - 1] == checks[..n][n - 1] == checks'[n - 1];
      assert checks[..n - 1] == checks[..n][..n - 1] == checks'[..n - 1];
      BetweenFrame(checks, checks', subject, path, from, until, n - 1);
    }
  }

  /** `s'` extends `s` by `k` admitted checks of one subject and path, all at the present moment. */
  ghost predicate Bursts(l: Limiter, s: State, subject: string, path: string, k: nat, s': State)
    requires l.Valid()
  {
    && Inv(l, s') && s'.now == s.now
    && Ordinal(s'.checks, Bucket(subject, path, s.now / l.period), |s'.checks|) == k
    && forall from: nat, until: nat | from <= s.now < until ::
         AdmittedBetween(s'.checks, subject, path, from, until, |s'.checks|)
         == AdmittedBetween(s.checks, subject, path, from, until, |s.checks|) + k
  }

  lemma FirstAdmitted(l: Limiter, s: State, subject: string, path: string) returns (evs: seq<Event>, s': State)
    requires l.Valid() && Inv(l, s)
    requires Ordinal(s.checks, Bucket(subject, path, s.now / l.period), |s.checks|) == 0
    ensures Exec(Next(l), s, evs) == Some(s') && Bursts(l, s, subject, path, 1, s')
  {
    var b, n := Bucket(subject, path, s.now / l.period), |s.checks|;
    assert CounterOk(l, s, b);
    NextKeepsInv(l, s, Incr(subject, path));
    ExecOne(Next(l), s, Incr(subject, path));
    var s1 := Next(l)(s, Incr(subject, path)).value;
    assert Incremented(s, b) == Counter(1, None);
    assert s1 == Counted(l, s, subject, path, Pending);
    assert s1.checks == s.checks + [Check(b, s.now, 1, Pending)];
    NextKeepsInv(l, s1, Expire(n));
    ExecOne(Next(l), s1, Expire(n));
    s' := Next(l)(s1, Expire(n)).value;
    ExecConcat(Next(l), s, [Incr(subject, path)], [Expire(n)]);
    evs := [Incr(subject, path)] + [Expire(n)];
    assert s'.checks == s.checks + [Check(b, s.now, 1, Admitted)];
    forall from: nat, until: nat | from <= s.now < until ensures
      AdmittedBetween(s'.checks, subject, path, from, until, n + 1)
      == AdmittedBetween(s.checks, subject, path, from, until, n) + 1
    {
      BetweenFrame(s.checks, s'.checks, subject, path, from, until, n);
    }
    OrdinalFrame(s.checks, s'.checks, b, n);
  }

  lemma {:induction false} Burst(l: Limiter, s: State, subject: string, path: string, k: nat)
      returns (evs: seq<Event>, s': State)
    requires l.Valid() && Inv(l, s) && 1 <= k <= l.limit
    requires Ordinal(s.checks, Bucket(subject, path, s.now / l.period), |s.checks|) == 0
    ensures Exec(Next(l), s, evs) == Some(s') && Bursts(l, s, subject, path, k, s')
  {
    if k == 1 {
      evs, s' := FirstAdmitted(l, s, subject, path);
    } else {
      var first, s1 := Burst(l, s, subject, path, k - 1);
      var b, n, ev := Bucket(subject, path, s.now / l.period), |s1.checks|, Incr(subject, path);
      assert CounterOk(l, s1, b);
      NextKeepsInv(l, s1, ev);
      ExecOne(Next(l), s1, ev);
      s' := Next(l)(s1, ev).value;
      ExpiryOutlivesWindow(s.now, l.period);
      assert Live(s1, b).Some? && Incremented(s1, b).count == k;
      NextCounts(l, s1, subject, path);
      assert s' == Counted(l, s1, subject, path, Admitted);
      ExecConcat(Next(l), s, first, [ev]);
      evs := first + [ev];
      OrdinalFrame(s1.checks, s'.checks, b, n);
      assert CheckOk(l, s', n);
      assert s'.checks == s1.checks + [Check(b, s.now, k, Admitted)];
      forall from: nat, until: nat | from <= s.now < until ensures
        AdmittedBetween(s'.checks, subject, path, from, until, n + 1)
        == AdmittedBetween(s1.checks, subject, path, from, until, n) + 1
      {
        BetweenFrame(s1.checks, s'.checks, subject, path, from, until, n);
      }
    }
  }

  /** Time passes until a later window, whose bucket is still empty then. */
  lemma WaitForWindow(l: Limiter, s: State, subject: string, path: string, now: nat) returns (evs: seq<Event>)
    requires l.Valid() && Inv(l, s) && s.now <= now
    requires Ordinal(s.checks, Bucket(subject, path, now / l.period), |s.checks|) == 0
    ensures Exec(Next(l), s, evs) == Some(s.(now := now)) && Inv(l, s.(now := now))
  {
    var tick := Tick(now - s.now);
    NextKeepsInv(l, s, tick);
    ExecOne(Next(l), s, tick);
    evs := [tick];
  }

  lemma LaterWindowIsEmpty(l: Limiter, s: State, subject: string, path: string, w: nat)
    requires l.Valid() && Inv(l, s) && s.now < w * l.period
    ensures Ordinal(s.checks, Bucket(subject, path, w), |s.checks|) == 0
  {
    assert CounterOk(l, s, Bucket(subject, path, w));
    var v := s.now / l.period;
    assert s.now == v * l.period + s.now % l.period;
    assert (w - v) * l.period == w * l.period - v * l.period > 0;
    assert w - v <= 0 ==> (w - v) * l.period <= 0;
  }

  /** When the bursts happen: at the last second of window 0, and at the start of later windows. */
  function BurstTime(period: nat, w: nat): nat
    requires period > 0
  {
    if w == 0 then period - 1 else w * period
  }

  lemma BurstTimes(period: nat, w: nat)
    requires period > 1
    ensures BurstTime(period, w) / period == w
    ensures BurstTime(period, w) < (w + 1) * period <= BurstTime(period, w + 1)
  {
    assert (w + 1) * period == w * period + period;
    WindowOf(BurstTime(period, w), w, period);
  }

  /** Bursts at the last second of window 0 and in each of the next `periods` windows. */
  lemma {:induction false} BurstsInEachWindow(l: Limiter, subject: string, path: string, periods: nat, until: nat)
      returns (evs: seq<Event>, s: State)
    requires l.Valid() && l.period > 1 && BurstTime(l.period, periods) < until
    ensures Run(l, evs) == Some(s) && Inv(l, s) && s.now == BurstTime(l.period, periods)
    ensures AdmittedBetween(s.checks, subject, path, l.period - 1, until, |s.checks|) == (periods + 1) * l.limit
  {
    var earlier, s0 := [], Init;
    BurstTimes(l.period, periods);
    if periods > 0 {
      BurstTimes(l.period, periods - 1);
      earlier, s0 := BurstsInEachWindow(l, subject, path, periods - 1, until);
      LaterWindowIsEmpty(l, s0, subject, path, periods);
    }
    var now := BurstTime(l.period, periods);
    var wait := WaitForWindow(l, s0, subject, path, now);
    var burst;
    burst, s := Burst(l, s0.(now := now), subject, path, l.limit);
    ExecConcat(Next(l), s0, wait, burst);
    ExecConcat(Next(l), Init, earlier, wait + burst);
    evs := earlier + (wait + burst);
    assert l.period - 1 <= now by { if periods > 0 { LaterWindowsEndLater(1, periods, l.period); } }
    assert (periods + 1) * l.limit == periods * l.limit + l.limit;
  }

  /** With periods of at least two seconds, some run admits `(periods + 1) * limit` in `periods` periods. */
  lemma IntervalBoundIsReached(l: Limiter, subject: string, path: string, periods: nat)
      returns (evs: seq<Event>, from: nat)
    requires l.Valid() && l.period > 1 && periods > 0
    ensures Run(l, evs).Some?
    ensures
      var checks := Run(l, evs).value.checks;
      AdmittedBetween(checks, subject, path, from, from + periods * l.period, |checks|) == (periods + 1) * l.limit
  {
    from := l.period - 1;
    LaterWindowsEndLater(1, periods, l.period);
    var s;
    evs, s := BurstsInEachWindow(l, subject, path, periods, from + periods * l.period);
  }
}
