/**
 Job leases of `beampipe-db`: workers claim jobs for a time, renew the lease, and finish the job
 with the token of their claim. Each database transaction is one step on a shared clock.
 */
module JobLease {
  import opened Options
  import opened Runs

  type WorkerId = nat
  type JobId = nat
  type Token = nat

  datatype Worker = Worker(pool: string, active: bool, limit: nat)

  datatype Status = Queued | Running | Completed | Failed | Cancelled | DeadLetter

  datatype Lease = Lease(owner: WorkerId, token: Token, expires: nat)

  datatype Job = Job(pool: string, status: Status, attempts: nat, maxAttempts: nat, nextRun: nat, lease: Option<Lease>)

  datatype Mark = ClaimedMark | RecoveredMark | CompletedMark | RequeuedMark | FailedMark | DeadLetteredMark

  datatype Record = Record(job: JobId, worker: WorkerId, token: Token, mark: Mark)

  /** `issued` tells for each token so far which job and worker it was made for. */
  datatype State = State(
    now: nat,
    workers: map<WorkerId, Worker>,
    jobs: map<JobId, Job>,
    issued: seq<(JobId, WorkerId)>,
    history: seq<Record>)

  const Init := State(0, map[], map[], [], [])

  /** How a worker ends its claim. */
  datatype Ending = Complete | Reschedule(delay: nat) | FailForGood | FailOrRetry(delay: nat)

  datatype Event =
    | Claim(worker: WorkerId, job: JobId, seconds: nat)
    | Renew(worker: WorkerId, job: JobId, token: Token, seconds: nat)
    | End(worker: WorkerId, job: JobId, token: Token, ending: Ending)
    | Cancel(job: JobId)
    | Add(job: JobId, pool: string, maxAttempts: nat, nextRun: nat)
    | Requeue(job: JobId, target: Option<string>)
    | SetWorkers(workers: map<WorkerId, Worker>)
    | Tick(elapsed: nat)

  // ---------------------------------------------------------------- the statements

  function AtLeastOne(n: nat): nat {
    if n < 1 then 1 else n
  }

  /** A running job whose lease has not expired. */
  predicate Live(job: Job, now: nat) {
    job.status == Running && job.lease.Some? && job.lease.value.expires > now
  }

  function LiveInPool(s: State, pool: string): set<JobId> {
    set j | j in s.jobs && s.jobs[j].pool == pool && Live(s.jobs[j], s.now)
  }

  function LiveOfWorker(s: State, w: WorkerId): set<JobId> {
    set j | j in s.jobs && Live(s.jobs[j], s.now) && s.jobs[j].lease.value.owner == w
  }

  /** The sum of the limits of the active workers of a pool. */
  ghost function PoolLimit(workers: map<WorkerId, Worker>, pool: string): nat
    decreases |workers|
  {
    if workers == map[] then 0
    else
      var w :| w in workers;
      assert |workers - {w}| < |workers| by {
        assert (workers - {w}).Keys == workers.Keys - {w};
        assert |workers.Keys - {w}| < |workers.Keys|;
      }
      (if workers[w].active && workers[w].pool == pool then workers[w].limit else 0) + PoolLimit(workers - {w}, pool)
  }

  /** Queued jobs that are due, and running ones whose lease has run out or was never written. */
  predicate Eligible(job: Job, now: nat) {
    || (job.status == Queued && job.nextRun <= now && (job.lease.Some? ==> job.lease.value.expires <= now))
    || (job.status == Running && !Live(job, now))
  }

  ghost predicate MayClaim(s: State, w: WorkerId, j: JobId) {
    && w in s.workers && s.workers[w].active
    && |LiveOfWorker(s, w)| < s.workers[w].limit
    && j in s.jobs && s.jobs[j].pool == s.workers[w].pool && Eligible(s.jobs[j], s.now)
    && 1 <= PoolLimit(s.workers, s.workers[w].pool)
    && |LiveInPool(s, s.workers[w].pool)| < PoolLimit(s.workers, s.workers[w].pool)
  }

  /** The condition of every statement by which a worker changes its job. */
  predicate Holds(s: State, w: WorkerId, j: JobId, token: Token) {
    && j in s.jobs && s.jobs[j].status == Running
    && s.jobs[j].lease.Some? && s.jobs[j].lease.value.owner == w && s.jobs[j].lease.value.token == token
  }

  function Ended(job: Job, now: nat, ending: Ending): (Job, Mark) {
    match ending
    case Complete => (job.(status := Completed, lease := None), CompletedMark)
    case Reschedule(delay) =>
      (job.(status := Queued, nextRun := now + AtLeastOne(delay), lease := None, attempts := 0), RequeuedMark)
    case FailForGood => (job.(status := Failed, lease := None), FailedMark)
    case FailOrRetry(delay) =>
      if job.attempts >= job.maxAttempts then
        (job.(status := DeadLetter, nextRun := now + AtLeastOne(delay), lease := None), DeadLetteredMark)
      else
        (job.(status := Queued, nextRun := now + AtLeastOne(delay), lease := None), RequeuedMark)
  }

  /**
   The upserts of recurring jobs: a job that has ended starts over, any other goes on; one of the two
   upserts sets the pool in either case.
   */
  function Requeued(job: Job, pool: Option<string>, now: nat): Job {
    var moved := if pool.Some? then job.(pool := pool.value) else job;
    if job.status in {Completed, Failed, DeadLetter}
    then moved.(status := Queued, attempts := 0, nextRun := now, lease := None)
    else moved
  }

  ghost function Next(s: State, ev: Event): Option<State> {
    match ev
    case Claim(w, j, seconds) =>
      if !MayClaim(s, w, j) then None
      else
        var job := s.jobs[j];
        var lease := Lease(w, |s.issued|, s.now + AtLeastOne(seconds));
        var mark := if job.status == Running then RecoveredMark else ClaimedMark;
        Some(s.(jobs := s.jobs[j := job.(status := Running, attempts := job.attempts + 1, lease := Some(lease))],
                issued := s.issued + [(j, w)],
                history := s.history + [Record(j, w, |s.issued|, mark)]))
    case Renew(w, j, token, seconds) =>
      if !Holds(s, w, j, token) || !Live(s.jobs[j], s.now) then Some(s)
      else Some(s.(jobs := s.jobs[j := s.jobs[j].(lease := Some(Lease(w, token, s.now + AtLeastOne(seconds))))]))
    case End(w, j, token, ending) =>
      if !Holds(s, w, j, token) then Some(s)
      else
        var (job, mark) := Ended(s.jobs[j], s.now, ending);
        Some(s.(jobs := s.jobs[j := job], history := s.history + [Record(j, w, token, mark)]))
    case Cancel(j) =>
      if j !in s.jobs || s.jobs[j].status !in {Queued, Running} then Some(s)
      else Some(s.(jobs := s.jobs[j := s.jobs[j].(status := Cancelled, lease := None)]))
    case Add(j, pool, maxAttempts, nextRun) =>
      if j in s.jobs then None
      else Some(s.(jobs := s.jobs[j := Job(pool, Queued, 0, maxAttempts, nextRun, None)]))
    case Requeue(j, pool) =>
      if j !in s.jobs then None else Some(s.(jobs := s.jobs[j := Requeued(s.jobs[j], pool, s.now)]))
    case SetWorkers(workers) => Some(s.(workers := workers))
    case Tick(elapsed) => Some(s.(now := s.now + elapsed))
  }

  ghost predicate Reachable(s: State) {
    exists evs :: Exec(Next, Init, evs) == Some(s)
  }

  // ---------------------------------------------------------------- the invariant

  /** A lease is held with the token of the latest claim of its job, and only while it runs. */
  ghost predicate JobOk(s: State, j: JobId) {
    j in s.jobs && s.jobs[j].lease.Some? ==>
      var lease := s.jobs[j].lease.value;
      s.jobs[j].status == Running && lease.token < |s.issued| && s.issued[lease.token] == (j, lease.owner)
  }

  predicate IsEnd(mark: Mark) {
    mark != ClaimedMark && mark != RecoveredMark
  }

  /** No job is held with this token. */
  ghost predicate Stale(s: State, token: Token) {
    forall j <- s.jobs :: s.jobs[j].lease.Some? ==> s.jobs[j].lease.value.token != token
  }

  ghost predicate RecordOk(s: State, i: nat)
    requires i < |s.history|
  {
    var r := s.history[i];
    && r.token < |s.issued| && s.issued[r.token] == (r.job, r.worker)
    && (IsEnd(r.mark) ==> Stale(s, r.token))
  }

  ghost predicate EndsOnce(s: State) {
    forall i: nat, k: nat | i < k < |s.history| && IsEnd(s.history[i].mark) && IsEnd(s.history[k].mark) ::
      s.history[i].token != s.history[k].token
  }

  ghost predicate Inv(s: State) {
    && (forall j <- s.jobs :: JobOk(s, j))
    && (forall i: nat | i < |s.history| :: RecordOk(s, i))
    && EndsOnce(s)
  }

  /** A token that nobody holds is never held again: claims make fresh tokens. */
  lemma StaleStep(s: State, ev: Event, token: Token)
    requires token < |s.issued| && Stale(s, token) && Next(s, ev).Some?
    ensures token < |Next(s, ev).value.issued| && Stale(Next(s, ev).value, token)
  {
  }

  lemma StepKeepsJobs(s: State, ev: Event)
    requires Inv(s) && Next(s, ev).Some?
    ensures forall j <- Next(s, ev).value.jobs :: JobOk(Next(s, ev).value, j)
  {
    var t := Next(s, ev).value;
    forall j <- t.jobs ensures JobOk(t, j) {
      if j in s.jobs { assert JobOk(s, j); }
    }
  }

  lemma EndMakesStale(s: State, w: WorkerId, j: JobId, token: Token, ending: Ending)
    requires Inv(s) && Holds(s, w, j, token)
    ensures Stale(Next(s, End(w, j, token, ending)).value, token)
  {
    var t := Next(s, End(w, j, token, ending)).value;
    forall k <- t.jobs ensures t.jobs[k].lease.Some? ==> t.jobs[k].lease.value.token != token {
      if k != j {
        assert JobOk(s, k) && JobOk(s, j);
      }
    }
  }

  lemma StepKeepsRecords(s: State, ev: Event)
    requires Inv(s) && Next(s, ev).Some?
    ensures forall i: nat | i < |Next(s, ev).value.history| :: RecordOk(Next(s, ev).value, i)
  {
    var t := Next(s, ev).value;
    if ev.End? && Holds(s, ev.worker, ev.job, ev.token) {
      EndMakesStale(s, ev.worker, ev.job, ev.token, ev.ending);
      assert JobOk(s, ev.job);
    }
    forall i: nat | i < |t.history| ensures RecordOk(t, i) {
      if i < |s.history| {
        assert RecordOk(s, i);
        if IsEnd(s.history[i].mark) { StaleStep(s, ev, s.history[i].token); }
      }
    }
  }

  lemma StepEndsOnce(s: State, ev: Event)
    requires Inv(s) && Next(s, ev).Some?
    ensures EndsOnce(Next(s, ev).value)
  {
    var t := Next(s, ev).value;
    forall i: nat, k: nat | i < k < |t.history| && IsEnd(t.history[i].mark) && IsEnd(t.history[k].mark)
      ensures t.history[i].token != t.history[k].token
    {
      if k == |s.history| {
        assert RecordOk(s, i);
      }
    }
  }

  lemma StepKeepsInv(s: State, ev: Event)
    requires Inv(s) && Next(s, ev).Some?
    ensures Inv(Next(s, ev).value)
  {
    StepKeepsJobs(s, ev);
    StepKeepsRecords(s, ev);
    StepEndsOnce(s, ev);
  }

  lemma ReachableInv(s: State)
    requires Reachable(s)
    ensures Inv(s)
  {
    var evs :| Exec(Next, Init, evs) == Some(s);
    forall t, ev | Inv(t) && Next(t, ev).Some? ensures Inv(Next(t, ev).value) {
      StepKeepsInv(t, ev);
    }
    ExecKeeps(Next, Inv, Init, evs);
  }

  // ---------------------------------------------------------------- fencing

  /** The records of one token among the first `n`. */
  function RecordsOf(history: seq<Record>, token: Token): seq<Record> {
    if history == [] then []
    else
      RecordsOf(history[..|history| - 1], token)
      + (if history[|history| - 1].token == token then [history[|history| - 1]] else [])
  }

  /**
   A worker whose token is no longer held, because it ended its claim, was replaced after expiry, or
   was cancelled, can never change a job again: its statements change nothing and are not recorded.
   */
  lemma {:induction false} StaleForever(s: State, evs: seq<Event>, token: Token)
    requires token < |s.issued| && Stale(s, token) && Exec(Next, s, evs).Some?
    ensures Stale(Exec(Next, s, evs).value, token) && token < |Exec(Next, s, evs).value.issued|
    ensures RecordsOf(Exec(Next, s, evs).value.history, token) == RecordsOf(s.history, token)
    decreases |evs|
  {
    if evs != [] {
      var t := Next(s, evs[0]).value;
      StaleStep(s, evs[0], token);
      assert t.history == s.history || t.history[..|t.history| - 1] == s.history;
      StaleForever(t, evs[1..], token);
    }
  }

  lemma StaleChangesNothing(s: State, w: WorkerId, j: JobId, token: Token, seconds: nat, ending: Ending)
    requires Stale(s, token)
    ensures Next(s, Renew(w, j, token, seconds)) == Some(s) && Next(s, End(w, j, token, ending)) == Some(s)
  {
  }

  /** A recovered job is held by its new worker only. */
  lemma RecoveryFencesTheOldWorker(s: State, w: WorkerId, j: JobId, seconds: nat, lost: Token)
    requires Inv(s) && MayClaim(s, w, j) && s.jobs[j].lease.Some? && s.jobs[j].lease.value.token == lost
    ensures var t := Next(s, Claim(w, j, seconds)).value;
            && !Live(s.jobs[j], s.now) && Stale(t, lost) && Holds(t, w, j, |s.issued|)
  {
    var t := Next(s, Claim(w, j, seconds)).value;
    assert JobOk(s, j);
    forall k <- t.jobs ensures t.jobs[k].lease.Some? ==> t.jobs[k].lease.value.token != lost {
      if k != j { assert JobOk(s, k); }
    }
  }

  /** A queued job waits for its time, or has been cancelled. */
  predicate Waits(s: State, j: JobId, due: nat, attempts: nat) {
    && j in s.jobs && s.jobs[j].attempts == attempts
    && (s.jobs[j].status == Cancelled || (s.jobs[j].status == Queued && s.jobs[j].nextRun == due))
  }

  lemma WaitsStep(s: State, ev: Event, j: JobId, due: nat, attempts: nat)
    requires Waits(s, j, due, attempts) && s.now < due && Next(s, ev).Some?
    ensures Waits(Next(s, ev).value, j, due, attempts)
  {
  }

  lemma {:induction false} TimePasses(s: State, evs: seq<Event>)
    requires Exec(Next, s, evs).Some?
    ensures s.now <= Exec(Next, s, evs).value.now
    decreases |evs|
  {
    if evs != [] { TimePasses(Next(s, evs[0]).value, evs[1..]); }
  }

  /** Back-off is kept over every run: nobody starts a queued job before its time. */
  lemma QueuedJobsWait(s: State, evs: seq<Event>, j: JobId)
    requires j in s.jobs && s.jobs[j].status == Queued
    requires Exec(Next, s, evs).Some? && Exec(Next, s, evs).value.now < s.jobs[j].nextRun
    ensures Waits(Exec(Next, s, evs).value, j, s.jobs[j].nextRun, s.jobs[j].attempts)
  {
    StaysWaiting(s, evs, j, s.jobs[j].nextRun, s.jobs[j].attempts);
  }

  lemma {:induction false} StaysWaiting(s: State, evs: seq<Event>, j: JobId, due: nat, attempts: nat)
    requires Waits(s, j, due, attempts) && Exec(Next, s, evs).Some? && Exec(Next, s, evs).value.now < due
    ensures Waits(Exec(Next, s, evs).value, j, due, attempts)
    decreases |evs|
  {
    if evs != [] {
      TimePasses(s, evs);
      WaitsStep(s, evs[0], j, due, attempts);
      StaysWaiting(Next(s, evs[0]).value, evs[1..], j, due, attempts);
    }
  }

  /** A worker may claim a job exactly if it is active and free, as its pool is, and the job is due or lost. */
  lemma ClaimedExactly(s: State, w: WorkerId, j: JobId, seconds: nat)
    requires Inv(s)
    ensures Next(s, Claim(w, j, seconds)).Some? <==>
      && w in s.workers && s.workers[w].active && j in s.jobs && s.jobs[j].pool == s.workers[w].pool
      && |LiveOfWorker(s, w)| < s.workers[w].limit
      && |LiveInPool(s, s.workers[w].pool)| < PoolLimit(s.workers, s.workers[w].pool)
      && match s.jobs[j].status
         case Queued => s.jobs[j].nextRun <= s.now
         case Running => s.jobs[j].lease.Some? ==> s.jobs[j].lease.value.expires <= s.now
         case _ => false
  {
    assert JobOk(s, j);
  }

  /** Every claim is ended at most once, and by the worker it was made for. */
  lemma ClaimsEndOnce(s: State, i: nat, k: nat)
    requires Reachable(s) && i < k < |s.history| && IsEnd(s.history[i].mark)
    ensures s.history[k].token == s.history[i].token ==>
              !IsEnd(s.history[k].mark) && s.history[k].job == s.history[i].job && s.history[k].worker == s.history[i].worker
  {
    ReachableInv(s);
    assert RecordOk(s, i) && RecordOk(s, k);
  }

  // ---------------------------------------------------------------- a live lease is safe

  /** Events by which the holder itself or an operator gives a job up. */
  predicate GivesUp(ev: Event, w: WorkerId, j: JobId, token: Token) {
    match ev
    case End(w', j', token', _) => w' == w && j' == j && token' == token
    case Cancel(j') => j' == j
    case _ => false
  }

  lemma LiveStep(s: State, ev: Event, w: WorkerId, j: JobId, token: Token, until: nat)
    requires Next(s, ev).Some? && !GivesUp(ev, w, j, token)
    requires Holds(s, w, j, token) && s.now < until <= s.jobs[j].lease.value.expires
    requires ev.Renew? && ev.job == j && ev.token == token ==> s.now + AtLeastOne(ev.seconds) >= until
    ensures Holds(Next(s, ev).value, w, j, token) && until <= Next(s, ev).value.jobs[j].lease.value.expires
    ensures s.now <= Next(s, ev).value.now
  {
  }

  /**
   Until a lease expires, nothing other workers do takes the job from its holder, unless the holder
   ends its claim, renews it for another time, or an operator cancels the job.
   */
  lemma {:induction false} LiveLeaseIsSafe(s: State, evs: seq<Event>, w: WorkerId, j: JobId, token: Token, until: nat)
    requires Exec(Next, s, evs).Some? && Exec(Next, s, evs).value.now < until
    requires Holds(s, w, j, token) && until <= s.jobs[j].lease.value.expires
    requires forall ev <- evs :: !GivesUp(ev, w, j, token) && !(ev.Renew? && ev.job == j && ev.token == token)
    ensures Holds(Exec(Next, s, evs).value, w, j, token)
    decreases |evs|
  {
    if evs != [] {
      var t := Next(s, evs[0]).value;
      TimePasses(s, evs);
      LiveStep(s, evs[0], w, j, token, until);
      LiveLeaseIsSafe(t, evs[1..], w, j, token, until);
    }
  }

  // ---------------------------------------------------------------- capacity

  ghost predicate WithinLimits(s: State) {
    && (forall pool: string :: |LiveInPool(s, pool)| <= PoolLimit(s.workers, pool))
    && (forall w <- s.workers :: |LiveOfWorker(s, w)| <= s.workers[w].limit)
  }

  /** A job with a live lease is moved to another pool. */
  predicate MovesLive(s: State, ev: Event) {
    && ev.Requeue? && ev.target.Some? && ev.job in s.jobs
    && Live(s.jobs[ev.job], s.now) && s.jobs[ev.job].pool != ev.target.value
  }

  /** Only claims make leases live, one at a time, and only moves bring live leases into a pool. */
  lemma LiveSetsGrowByOne(s: State, ev: Event, pool: string, w: WorkerId)
    requires Next(s, ev).Some?
    ensures var t := Next(s, ev).value;
            if ev.Claim? then
              && LiveInPool(t, pool) <= LiveInPool(s, pool) + (if s.workers[ev.worker].pool == pool then {ev.job} else {})
              && LiveOfWorker(t, w) <= LiveOfWorker(s, w) + (if ev.worker == w then {ev.job} else {})
            else if MovesLive(s, ev) then
              && LiveInPool(t, pool) == (if ev.target.value == pool then LiveInPool(s, pool) + {ev.job} else LiveInPool(s, pool) - {ev.job})
              && LiveOfWorker(t, w) == LiveOfWorker(s, w)
            else LiveInPool(t, pool) <= LiveInPool(s, pool) && LiveOfWorker(t, w) <= LiveOfWorker(s, w)
  {
  }

  lemma SubsetIsSmaller<T>(a: set<T>, b: set<T>)
    requires a <= b
    ensures |a| <= |b|
  {
    assert a + (b - a) == b;
  }

  lemma StepStaysWithinLimits(s: State, ev: Event)
    requires WithinLimits(s) && Next(s, ev).Some? && !ev.SetWorkers? && !MovesLive(s, ev)
    ensures WithinLimits(Next(s, ev).value)
  {
    var t := Next(s, ev).value;
    forall pool: string ensures |LiveInPool(t, pool)| <= PoolLimit(t.workers, pool) {
      LiveSetsGrowByOne(s, ev, pool, 0);
      SubsetIsSmaller(LiveInPool(t, pool), LiveInPool(s, pool) + (if ev.Claim? && s.workers[ev.worker].pool == pool then {ev.job} else {}));
    }
    forall w <- t.workers ensures |LiveOfWorker(t, w)| <= t.workers[w].limit {
      LiveSetsGrowByOne(s, ev, "", w);
      SubsetIsSmaller(LiveOfWorker(t, w), LiveOfWorker(s, w) + (if ev.Claim? && ev.worker == w then {ev.job} else {}));
    }
  }

  /** The pool that a live job is moved to has room for it. */
  ghost predicate HasRoom(s: State, ev: Event) {
    MovesLive(s, ev) ==> |LiveInPool(s, ev.target.value)| < PoolLimit(s.workers, ev.target.value)
  }

  /** Moving a live job keeps the limits exactly if there is room. */
  lemma MoveKeepsLimitsExactly(s: State, ev: Event)
    requires WithinLimits(s) && MovesLive(s, ev)
    ensures WithinLimits(Next(s, ev).value) <==> HasRoom(s, ev)
  {
    var t, target := Next(s, ev).value, ev.target.value;
    LiveSetsGrowByOne(s, ev, target, 0);
    assert ev.job !in LiveInPool(s, target);
    assert |LiveInPool(t, target)| == |LiveInPool(s, target)| + 1;
    if HasRoom(s, ev) {
      forall pool: string ensures |LiveInPool(t, pool)| <= PoolLimit(t.workers, pool) {
        LiveSetsGrowByOne(s, ev, pool, 0);
        if pool != target { SubsetIsSmaller(LiveInPool(t, pool), LiveInPool(s, pool)); }
      }
      forall w <- t.workers ensures |LiveOfWorker(t, w)| <= t.workers[w].limit {
        LiveSetsGrowByOne(s, ev, "", w);
      }
    }
  }

  ghost predicate WithinLimitsAlong(s: State, evs: seq<Event>)
    requires Exec(Next, s, evs).Some?
    decreases |evs|
  {
    WithinLimits(s) && (evs != [] ==> WithinLimitsAlong(Next(s, evs[0]).value, evs[1..]))
  }

  ghost predicate RoomAlong(s: State, evs: seq<Event>)
    requires Exec(Next, s, evs).Some?
    decreases |evs|
  {
    evs != [] ==> HasRoom(s, evs[0]) && RoomAlong(Next(s, evs[0]).value, evs[1..])
  }

  /**
   While the registered workers stay the same, the live leases of a pool never exceed the sum of the
   limits of its active workers, and those of a worker never its own limit, exactly if every live job
   that an upsert moves finds room in its new pool.
   */
  lemma {:induction false} CapacityIsKeptExactly(s: State, evs: seq<Event>)
    requires WithinLimits(s) && Exec(Next, s, evs).Some? && forall ev <- evs :: !ev.SetWorkers?
    ensures WithinLimitsAlong(s, evs) <==> RoomAlong(s, evs)
    decreases |evs|
  {
    if evs != [] {
      var t := Next(s, evs[0]).value;
      assert evs[0] in evs && forall ev <- evs[1..] :: ev in evs;
      if MovesLive(s, evs[0]) {
        MoveKeepsLimitsExactly(s, evs[0]);
      } else {
        StepStaysWithinLimits(s, evs[0]);
      }
      if WithinLimits(t) {
        CapacityIsKeptExactly(t, evs[1..]);
      } else {
        assert !WithinLimitsAlong(t, evs[1..]);
      }
    }
  }

  /** Without room, a pool without any worker ends up with a live lease. */
  lemma MovingOverfills() returns (s: State)
    ensures Exec(Next, Init, [SetWorkers(map[0 := Worker("default", true, 1)]), Add(0, "default", 3, 0),
                              Claim(0, 0, 60), Requeue(0, Some("other"))]) == Some(s)
    ensures !WithinLimits(s) && |LiveInPool(s, "other")| == 1 && PoolLimit(s.workers, "other") == 0
  {
    var s1 := Next(Init, SetWorkers(map[0 := Worker("default", true, 1)])).value;
    var s2 := Next(s1, Add(0, "default", 3, 0)).value;
    OneWorkerMayClaim(s2);
    var s3 := Next(s2, Claim(0, 0, 60)).value;
    s := Next(s3, Requeue(0, Some("other"))).value;
    var evs := [SetWorkers(map[0 := Worker("default", true, 1)]), Add(0, "default", 3, 0), Claim(0, 0, 60), Requeue(0, Some("other"))];
    assert evs[1..][1..][1..] == [evs[3]] && evs[1..][1..] == [evs[2], evs[3]] && evs[1..] == [evs[1], evs[2], evs[3]];
    ExecOne(Next, s3, evs[3]);
    assert Exec(Next, s2, evs[1..][1..]) == Some(s);
    assert Exec(Next, s1, evs[1..]) == Some(s);
    assert LiveInPool(s, "other") == {0};
    NoWorkerInPool(s.workers);
  }

  lemma NoWorkerInPool(workers: map<WorkerId, Worker>)
    requires workers == map[0 := Worker("default", true, 1)]
    ensures PoolLimit(workers, "other") == 0
  {
    var w :| w in workers;
    assert workers - {0} == map[];
    assert PoolLimit(workers - {0}, "other") == 0;
  }

  // ---------------------------------------------------------------- attempts

  /** Queued jobs have attempts left, and dead-lettered ones have none. */
  ghost predicate AttemptsOk(s: State) {
    forall j <- s.jobs ::
      && (s.jobs[j].status == Queued && s.jobs[j].maxAttempts >= 1 ==> s.jobs[j].attempts < s.jobs[j].maxAttempts)
      && (s.jobs[j].status == DeadLetter ==> s.jobs[j].attempts >= s.jobs[j].maxAttempts)
  }

  lemma StepKeepsAttempts(s: State, ev: Event)
    requires AttemptsOk(s) && Next(s, ev).Some?
    ensures AttemptsOk(Next(s, ev).value)
  {
  }

  /** In every reachable state, a queued job has attempts left, and a dead-lettered one has used them up. */
  lemma QueuedJobsHaveAttempts(s: State)
    requires Reachable(s)
    ensures AttemptsOk(s)
  {
    var evs :| Exec(Next, Init, evs) == Some(s);
    forall t, ev | AttemptsOk(t) && Next(t, ev).Some? ensures AttemptsOk(Next(t, ev).value) {
      StepKeepsAttempts(t, ev);
    }
    ExecKeeps(Next, AttemptsOk, Init, evs);
  }

  predicate Exceeds(s: State, j: JobId) {
    j in s.jobs && s.jobs[j].attempts > s.jobs[j].maxAttempts
  }

  /** A claim of a job whose attempts are used up: one that takes it over from a worker that is gone. */
  predicate OverdueClaim(s: State, ev: Event, j: JobId) {
    && ev.Claim? && ev.job == j && j in s.jobs
    && s.jobs[j].attempts >= s.jobs[j].maxAttempts
    && (s.jobs[j].status == Running || s.jobs[j].maxAttempts == 0)
  }

  ghost predicate ExceedsAlong(s: State, evs: seq<Event>, j: JobId)
    requires Exec(Next, s, evs).Some?
    decreases |evs|
  {
    Exceeds(s, j) || (evs != [] && ExceedsAlong(Next(s, evs[0]).value, evs[1..], j))
  }

  ghost predicate OverdueAlong(s: State, evs: seq<Event>, j: JobId)
    requires Exec(Next, s, evs).Some?
    decreases |evs|
  {
    evs != [] && (OverdueClaim(s, evs[0], j) || OverdueAlong(Next(s, evs[0]).value, evs[1..], j))
  }

  lemma StepExceedsExactly(s: State, ev: Event, j: JobId)
    requires AttemptsOk(s) && !Exceeds(s, j) && Next(s, ev).Some?
    ensures Exceeds(Next(s, ev).value, j) <==> OverdueClaim(s, ev, j)
  {
  }

  /**
   In every run, a job exceeds its attempts somewhere exactly if some claim takes it over, with the
   attempts used up, from a worker that has lost its lease (or the job had no attempts to begin with).
   */
  lemma {:induction false} ExceedsExactlyByRecovery(s: State, evs: seq<Event>, j: JobId)
    requires AttemptsOk(s) && !Exceeds(s, j) && Exec(Next, s, evs).Some?
    ensures ExceedsAlong(s, evs, j) <==> OverdueAlong(s, evs, j)
    decreases |evs|
  {
    if evs != [] {
      var t := Next(s, evs[0]).value;
      StepExceedsExactly(s, evs[0], j);
      if Exceeds(t, j) {
        assert ExceedsAlong(t, evs[1..], j);
      } else {
        StepKeepsAttempts(s, evs[0]);
        ExceedsExactlyByRecovery(t, evs[1..], j);
      }
    }
  }

  /** The same from the start, for every run and every job. */
  lemma AttemptsExceededExactly(evs: seq<Event>, j: JobId)
    requires Exec(Next, Init, evs).Some?
    ensures ExceedsAlong(Init, evs, j) <==> OverdueAlong(Init, evs, j)
  {
    ExceedsExactlyByRecovery(Init, evs, j);
  }

  /** An ending dead-letters a job exactly if it reports a failure when the attempts are used up. */
  lemma DeadLetterExactly(s: State, w: WorkerId, j: JobId, token: Token, ending: Ending)
    requires Holds(s, w, j, token)
    ensures var t := Next(s, End(w, j, token, ending)).value;
            t.jobs[j].status == DeadLetter <==> ending.FailOrRetry? && s.jobs[j].attempts >= s.jobs[j].maxAttempts
  {
  }

  /** How each ending leaves its job: done, failed, given up, or waiting for a next try after a pause. */
  lemma EndingsExactly(s: State, w: WorkerId, j: JobId, token: Token, ending: Ending)
    requires Holds(s, w, j, token)
    ensures var job, after := s.jobs[j], Next(s, End(w, j, token, ending)).value.jobs[j];
      var spent := job.attempts >= job.maxAttempts;
      && (after.status == Completed <==> ending == Complete)
      && (after.status == Failed <==> ending == FailForGood)
      && (after.status == DeadLetter <==> ending.FailOrRetry? && spent)
      && (after.status == Queued <==> ending.Reschedule? || (ending.FailOrRetry? && !spent))
      && after.lease.None?
      && (after.status == Queued ==> after.nextRun > s.now && after.nextRun >= s.now + ending.delay)
      && after.attempts == (if ending.Reschedule? then 0 else job.attempts)
  {
  }

  /** A claim gives its worker the lease for the time asked for, at least a second, and counts as an attempt. */
  lemma ClaimGrantsLease(s: State, w: WorkerId, j: JobId, seconds: nat)
    requires Inv(s) && MayClaim(s, w, j)
    ensures var t := Next(s, Claim(w, j, seconds)).value;
      && Holds(t, w, j, |s.issued|) && t.jobs[j].attempts == s.jobs[j].attempts + 1
      && forall later: nat :: Live(t.jobs[j], later) <==> later < s.now + seconds || later < s.now + 1
  {
  }

  /** Time passes until the lease of a job is over, and the worker claims it again. */
  function LostRuns(w: WorkerId, j: JobId, n: nat): seq<Event> {
    if n == 0 then [] else LostRuns(w, j, n - 1) + [Claim(w, j, 1), Tick(1)]
  }

  /** However small the number of attempts is, a job can be claimed any number of times by recovery. */
  lemma {:induction false} RecoveryIgnoresAttempts(maxAttempts: nat, n: nat) returns (s: State)
    ensures var evs := [Add(0, "default", maxAttempts, 0), SetWorkers(map[0 := Worker("default", true, 1)])] + LostRuns(0, 0, n);
            Exec(Next, Init, evs) == Some(s)
    ensures s.jobs.Keys == {0} && s.jobs[0].attempts == n && s.jobs[0].maxAttempts == maxAttempts
    ensures s.workers == map[0 := Worker("default", true, 1)] && s.jobs[0].pool == "default"
    ensures !Live(s.jobs[0], s.now) && Eligible(s.jobs[0], s.now)
  {
    var start := [Add(0, "default", maxAttempts, 0), SetWorkers(map[0 := Worker("default", true, 1)])];
    if n == 0 {
      assert start + LostRuns(0, 0, 0) == start;
      assert start[1..] == [start[1]] && start[1..][1..] == [];
      s := Next(Next(Init, start[0]).value, start[1]).value;
      assert Exec(Next, Init, start) == Exec(Next, Next(Init, start[0]).value, start[1..]);
    } else {
      var before := RecoveryIgnoresAttempts(maxAttempts, n - 1);
      var evs := start + LostRuns(0, 0, n - 1);
      assert start + LostRuns(0, 0, n) == evs + [Claim(0, 0, 1), Tick(1)];
      ExecConcat(Next, Init, evs, [Claim(0, 0, 1), Tick(1)]);
      OneWorkerMayClaim(before);
      var claimed := Next(before, Claim(0, 0, 1)).value;
      s := Next(claimed, Tick(1)).value;
      assert [Claim(0, 0, 1), Tick(1)][1..] == [Tick(1)];
      ExecOne(Next, claimed, Tick(1));
    }
  }

  lemma OneWorkerMayClaim(s: State)
    requires s.workers == map[0 := Worker("default", true, 1)]
    requires s.jobs.Keys == {0} && s.jobs[0].pool == "default" && Eligible(s.jobs[0], s.now) && !Live(s.jobs[0], s.now)
    ensures MayClaim(s, 0, 0)
  {
    assert LiveOfWorker(s, 0) == {} && LiveInPool(s, "default") == {};
    var w :| w in s.workers;
    assert s.workers - {0} == map[];
    assert PoolLimit(s.workers - {0}, "default") == 0;
    assert PoolLimit(s.workers, "default") == 1;
  }
}
