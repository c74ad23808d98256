/**
 TAP queries of `beampipe-adapters`: the life of an asynchronous UWS job from its creation to
 its deletion, the polling loop in between, and the retries around both query modes.

 The replies, and how long they take, are arbitrary: `Send` answers anything. The methods return
 the log of the exchanges they made, and their contracts are about it. Times are in milliseconds,
 and a sleep takes exactly the time asked for.
 */
module TapAsync {
  import opened Options
  import opened Text

  // ---------------------------------------------------------------- the other side

  datatype Failure = TimedOut | ConnectFailed | RequestFailed | OtherFailure

  /** `body` is None if reading it fails. */
  datatype Reply =
    | Answer(status: nat, location: Option<string>, body: Option<string>, took: nat)
    | NoAnswer(failure: Failure, took: nat)

  datatype AdapterError = Http | Transient | Permanent | InvalidRowShape | Timeout

  type Row = string

  datatype Outcome = Rows(rows: seq<Row>) | Failed(error: AdapterError)

  /** The parsers of job addresses, phases and result bodies. */
  datatype Parsers = Parsers(
    join: string -> Option<string>,
    phaseOf: string -> Option<string>,
    rowsOf: string -> Outcome)

  datatype Request = Create | Start | Poll | Fetch | Abort | Delete | Query

  datatype Exchange = Exchange(request: Request, job: string, answer: Reply)

  function Min(a: nat, b: nat): nat { if a < b then a else b }

  function RequestTimeout(r: Request, timeout: nat): nat {
    match r
    case Create => Min(timeout, 30_000)
    case Start => Min(timeout, 30_000)
    case Poll => 15_000
    case Fetch => Min(timeout, 60_000)
    case Abort => 5_000
    case Delete => 5_000
    case Query => timeout
  }

  /** Sends one request; a reply that takes longer than the request may take is a timeout. */
  method Send(r: Request, job: string, timeout: nat) returns (e: Exchange)
    ensures e.request == r && e.job == job && e.answer.took <= RequestTimeout(r, timeout)
  {
    var reply: Reply := *;
    var limit := RequestTimeout(r, timeout);
    e := Exchange(r, job, if reply.took <= limit then reply else NoAnswer(TimedOut, limit));
  }

  predicate Accepted(status: nat) { 200 <= status < 400 }

  predicate ErrorStatus(status: nat) { 400 <= status < 600 }

  function StatusError(status: nat): AdapterError {
    if status == 429 || 500 <= status < 600 then Transient else Permanent
  }

  // ---------------------------------------------------------------- polling

  datatype Phase = Phase(name: string) | NoPhase(error: AdapterError)

  /** What one poll tells, and whether it is worth repeating. */
  function Judge(p: Parsers, answer: Reply): Phase {
    match answer
    case Answer(status, _, body, _) =>
      if ErrorStatus(status) then NoPhase(Http)
      else if body.None? then NoPhase(Http)
      else if p.phaseOf(body.value).None? then NoPhase(InvalidRowShape)
      else Phase(p.phaseOf(body.value).value)
    case NoAnswer(TimedOut, _) => NoPhase(Timeout)
    case NoAnswer(ConnectFailed, _) => NoPhase(Transient)
    case NoAnswer(RequestFailed, _) => NoPhase(Transient)
    case NoAnswer(OtherFailure, _) => NoPhase(Http)
  }

  predicate Repeatable(answer: Reply) {
    match answer
    case Answer(status, _, _, _) => ErrorStatus(status)
    case NoAnswer(failure, _) => failure != OtherFailure
  }

  /** An error status, or any lack of an answer but an unknown failure. */
  predicate WorthRepeating(answer: Reply) {
    if answer.Answer? then 400 <= answer.status < 600 else answer.failure in {TimedOut, ConnectFailed, RequestFailed}
  }

  const POLL_TRIES: nat := 3
  const POLL_PAUSE: nat := 500
  const POLL_INTERVAL: nat := 2_000
  const LONGEST_POLL: nat := POLL_TRIES * (15_000 + POLL_PAUSE)

  /**
   What a phase means to the caller of the wait: None to go on, Some(None) for success, else the
   error.
   */
  function Verdict(phase: Phase): Option<Option<AdapterError>> {
    match phase
    case NoPhase(error) => Some(Some(error))
    case Phase(name) =>
      if name == "COMPLETED" then Some(None)
      else if name == "ERROR" || name == "ABORTED" then Some(Some(Permanent))
      else None
  }

  // What the answers mean, apart from the code that looks at them.

  /** A poll that was answered without an error status, with this phase in its body. */
  predicate ReportsPhase(p: Parsers, e: Exchange, phase: string) {
    && e.request == Poll && e.answer.Answer? && !(400 <= e.answer.status < 600)
    && e.answer.body.Some? && p.phaseOf(e.answer.body.value) == Some(phase)
  }

  predicate ReportsCompleted(p: Parsers, e: Exchange) {
    ReportsPhase(p, e, "COMPLETED")
  }

  /** A last poll that ends the wait: with success on COMPLETED, else with this error. */
  predicate Ends(p: Parsers, e: Exchange, error: Option<AdapterError>) {
    match error
    case None => ReportsPhase(p, e, "COMPLETED")
    case Some(Permanent) => ReportsPhase(p, e, "ERROR") || ReportsPhase(p, e, "ABORTED")
    case Some(Timeout) => e.answer.NoAnswer? && e.answer.failure == TimedOut
    case Some(Transient) => e.answer.NoAnswer? && e.answer.failure in {ConnectFailed, RequestFailed}
    case Some(Http) =>
      if e.answer.NoAnswer? then e.answer.failure == OtherFailure
      else 400 <= e.answer.status < 600 || e.answer.body.None?
    case Some(InvalidRowShape) =>
      && e.answer.Answer? && !(400 <= e.answer.status < 600)
      && e.answer.body.Some? && p.phaseOf(e.answer.body.value).None?
  }

  /** A last poll that does not end the wait. */
  ghost predicate GoesOn(p: Parsers, e: Exchange) {
    forall error: Option<AdapterError> :: !Ends(p, e, error)
  }

  /** What is made of a poll: None to go on, else how it ends the wait. */
  ghost predicate Means(p: Parsers, e: Exchange, verdict: Option<Option<AdapterError>>) {
    if verdict.None? then GoesOn(p, e) else Ends(p, e, verdict.value)
  }

  lemma VerdictMeans(p: Parsers, e: Exchange)
    requires e.request == Poll
    ensures Means(p, e, Verdict(Judge(p, e.answer)))
    ensures ReportsCompleted(p, e) <==> Verdict(Judge(p, e.answer)) == Some(None)
  {
  }

  /** How a wait ends: as its last poll says, or by a time-out if that is not final. */
  ghost predicate WaitEnds(p: Parsers, log: seq<Exchange>, error: Option<AdapterError>) {
    || (log != [] && Ends(p, log[|log| - 1], error))
    || (error == Some(Timeout) && (log == [] || GoesOn(p, log[|log| - 1])))
  }

  ghost predicate CompletedObserved(p: Parsers, log: seq<Exchange>) {
    exists e <- log :: ReportsCompleted(p, e)
  }

  lemma CompletedInEither(p: Parsers, a: seq<Exchange>, b: seq<Exchange>)
    ensures CompletedObserved(p, a + b) <==> CompletedObserved(p, a) || CompletedObserved(p, b)
  {
    if CompletedObserved(p, a) {
      var e :| e in a && ReportsCompleted(p, e);
      assert e in a + b;
    }
    if CompletedObserved(p, b) {
      var e :| e in b && ReportsCompleted(p, e);
      assert e in a + b;
    }
  }

  /** At most three tries; the last one decides, and the ones before it were worth repeating. */
  method FetchPhase(p: Parsers, job: string, timeout: nat)
      returns (phase: Phase, log: seq<Exchange>, took: nat)
    ensures 1 <= |log| <= 3
    ensures forall e <- log :: e.request == Poll && e.job == job
    ensures phase == Judge(p, log[|log| - 1].answer)
    ensures forall i | 0 <= i < |log| - 1 :: WorthRepeating(log[i].answer)
    ensures |log| < 3 ==> !WorthRepeating(log[|log| - 1].answer)
    ensures CompletedObserved(p, log) <==> ReportsCompleted(p, log[|log| - 1])
    ensures Means(p, log[|log| - 1], Verdict(phase))
    ensures took <= 46_500
  {
    log, took := [], 0;
    phase := NoPhase(Transient);
    for i := 0 to POLL_TRIES
      invariant |log| == i
      invariant forall e <- log :: e.request == Poll && e.job == job && Repeatable(e.answer)
      invariant i > 0 ==> phase == Judge(p, log[i - 1].answer) && !ReportsCompleted(p, log[i - 1])
      invariant !CompletedObserved(p, log)
      invariant took <= i * (15_000 + POLL_PAUSE)
    {
      var exchange := Send(Poll, job, timeout);
      CompletedInEither(p, log, [exchange]);
      assert CompletedObserved(p, [exchange]) <==> ReportsCompleted(p, exchange) by { assert exchange in [exchange]; }
      log, took := log + [exchange], took + exchange.answer.took;
      phase := Judge(p, exchange.answer);
      VerdictMeans(p, exchange);
      if !Repeatable(exchange.answer) {
        return;
      }
      took := took + POLL_PAUSE;
    }
  }

  /** Polls until a poll is final or the time is over; `error` is None exactly on COMPLETED. */
  method WaitForJob(p: Parsers, job: string, timeout: nat)
      returns (error: Option<AdapterError>, log: seq<Exchange>, took: nat, ghost rounds: nat)
    ensures forall e <- log :: e.request == Poll && e.job == job
    ensures WaitEnds(p, log, error)
    ensures error.None? <==> log != [] && ReportsPhase(p, log[|log| - 1], "COMPLETED")
    ensures error.None? <==> CompletedObserved(p, log)
    ensures error == Some(Permanent) <==>
      log != [] && (ReportsPhase(p, log[|log| - 1], "ERROR") || ReportsPhase(p, log[|log| - 1], "ABORTED"))
    ensures forall i | 0 <= i < |log| - 1, phase: string ::
      ReportsPhase(p, log[i], phase) ==> phase !in {"COMPLETED", "ERROR", "ABORTED"}
    ensures 2_000 * rounds <= timeout + 1_999 && rounds <= |log| <= 3 * rounds
    ensures took <= timeout + 48_499
    ensures (log == [] || GoesOn(p, log[|log| - 1])) ==> took >= timeout
  {
    log, took, rounds := [], 0, 0;
    while took < timeout
      invariant forall e <- log :: e.request == Poll && e.job == job
      invariant !CompletedObserved(p, log)
      invariant forall i | 0 <= i < |log| :: NotFinal(p, log[i])
      invariant log != [] ==> GoesOn(p, log[|log| - 1])
      invariant 2_000 * rounds <= took && rounds <= |log| <= 3 * rounds
      invariant 2_000 * rounds <= timeout + 1_999
      invariant took <= timeout + 48_499
      decreases timeout - took
    {
      var phase, polls, spent := FetchPhase(p, job, timeout);
      CompletedInEither(p, log, polls);
      RepeatedAreNotFinal(p, polls);
      assert (log + polls)[|log + polls| - 1] == polls[|polls| - 1];
      log, took, rounds := log + polls, took + spent, rounds + 1;
      if Verdict(phase).Some? {
        return Verdict(phase).value, log, took, rounds;
      }
      NoEndIsNotFinal(p, log[|log| - 1]);
      took := took + POLL_INTERVAL;
    }
    error := Some(Timeout);
  }

  /** A poll that reports none of the phases that end a wait. */
  ghost predicate NotFinal(p: Parsers, e: Exchange) {
    forall phase: string :: ReportsPhase(p, e, phase) ==> phase !in {"COMPLETED", "ERROR", "ABORTED"}
  }

  lemma RepeatedAreNotFinal(p: Parsers, polls: seq<Exchange>)
    requires forall i | 0 <= i < |polls| - 1 :: WorthRepeating(polls[i].answer)
    ensures forall i | 0 <= i < |polls| - 1 :: NotFinal(p, polls[i])
  {
  }

  lemma NoEndIsNotFinal(p: Parsers, e: Exchange)
    requires GoesOn(p, e)
    ensures NotFinal(p, e)
  {
    assert !Ends(p, e, None) && !Ends(p, e, Some(Permanent));
  }

  // ---------------------------------------------------------------- one job

  /** The address of the job, if the answer to its creation tells one. */
  function JobOf(p: Parsers, answer: Reply): Option<string> {
    if answer.Answer? && Accepted(answer.status) && answer.location.Some?
    then p.join(answer.location.value)
    else None
  }

  /** Why no job came out of a creation. */
  function CreationError(answer: Reply): AdapterError {
    match answer
    case NoAnswer(_, _) => Http
    case Answer(status, location, _, _) =>
      if !Accepted(status) then StatusError(status)
      else if location.None? then Transient
      else InvalidRowShape
  }

  /** The error of a start that failed or was refused. */
  function StartError(answer: Reply): Option<AdapterError> {
    match answer
    case NoAnswer(_, _) => Some(Http)
    case Answer(status, _, _, _) => if Accepted(status) then None else Some(StatusError(status))
  }

  // The same, apart from the code: which answers tell a job, and which error each of the others stands for.

  predicate KnowsJob(p: Parsers, answer: Reply, job: string) {
    && answer.Answer? && 200 <= answer.status < 400
    && answer.location.Some? && p.join(answer.location.value) == Some(job)
  }

  /** Too many requests, or a server error: statuses worth another job. */
  predicate Overloaded(status: nat) {
    status == 429 || 500 <= status < 600
  }

  predicate CreationFails(p: Parsers, answer: Reply, error: AdapterError) {
    match error
    case Http => answer.NoAnswer?
    case Transient =>
      answer.Answer? && (Overloaded(answer.status) || (200 <= answer.status < 400 && answer.location.None?))
    case Permanent => answer.Answer? && !(200 <= answer.status < 400) && !Overloaded(answer.status)
    case InvalidRowShape =>
      && answer.Answer? && 200 <= answer.status < 400
      && answer.location.Some? && p.join(answer.location.value).None?
    case Timeout => false
  }

  predicate StartFails(answer: Reply, error: AdapterError) {
    match error
    case Http => answer.NoAnswer?
    case Transient => answer.Answer? && Overloaded(answer.status)
    case Permanent => answer.Answer? && !(200 <= answer.status < 400) && !Overloaded(answer.status)
    case _ => false
  }

  /** The rows in the body of a result that has no error status; anything else is an HTTP error. */
  predicate Yields(p: Parsers, answer: Reply, outcome: Outcome) {
    if answer.Answer? && !(400 <= answer.status < 600) && answer.body.Some?
    then outcome == p.rowsOf(answer.body.value)
    else outcome == Failed(Http)
  }

  lemma AnswersMean(p: Parsers, answer: Reply)
    ensures forall job: string :: JobOf(p, answer) == Some(job) <==> KnowsJob(p, answer, job)
    ensures JobOf(p, answer).None? ==> CreationFails(p, answer, CreationError(answer))
    ensures StartError(answer).None? <==> answer.Answer? && 200 <= answer.status < 400
    ensures StartError(answer).Some? ==> StartFails(answer, StartError(answer).value)
    ensures Yields(p, answer, RowsFrom(p, answer))
  {
  }

  /** What the answer to a result request yields. */
  function RowsFrom(p: Parsers, answer: Reply): Outcome {
    match answer
    case Answer(status, _, body, _) =>
      if ErrorStatus(status) || body.None? then Failed(Http) else p.rowsOf(body.value)
    case NoAnswer(_, _) => Failed(Http)
  }

  method BestEffortCleanup(job: string, abort: bool, timeout: nat)
      returns (log: seq<Exchange>, took: nat)
    ensures |log| == if abort then 2 else 1
    ensures log[|log| - 1].request == Delete && (abort ==> log[0].request == Abort)
    ensures forall e <- log :: e.job == job
    ensures took <= 10_000
  {
    log, took := [], 0;
    if abort {
      var exchange := Send(Abort, job, timeout);
      log, took := [exchange], exchange.answer.took;
    }
    var exchange := Send(Delete, job, timeout);
    log, took := log + [exchange], took + exchange.answer.took;
  }

  ghost function CountOf(log: seq<Exchange>, r: Request): nat {
    if log == [] then 0 else (if log[0].request == r then 1 else 0) + CountOf(log[1..], r)
  }

  /**
   What a run that learnt of a job does with it: it addresses this job only, its last request and
   no other is a DELETE, and an ABORT stands before it exactly if COMPLETED was never observed.
   */
  ghost predicate CleanedUp(p: Parsers, log: seq<Exchange>, job: string) {
    && |log| >= 4
    && (forall i | 0 < i < |log| :: log[i].job == job)
    && log[1].request == Start
    && CountOf(log, Delete) == 1 && log[|log| - 1].request == Delete
    && CountOf(log, Abort) == (if CompletedObserved(p, log) then 0 else 1)
    && CountOf(log, Fetch) == (if CompletedObserved(p, log) then 1 else 0)
    && log[|log| - 2].request == (if CompletedObserved(p, log) then Fetch else Abort)
  }

  /** The rows of a finished job, or the first error on the way to them. */
  ghost predicate Explained(p: Parsers, log: seq<Exchange>, outcome: Outcome)
    requires |log| >= 4
  {
    if !(log[1].answer.Answer? && 200 <= log[1].answer.status < 400) then
      |log| == 4 && outcome.Failed? && StartFails(log[1].answer, outcome.error)
    else if CompletedObserved(p, log) then
      Yields(p, log[|log| - 2].answer, outcome)
    else
      outcome.Failed? && WaitEnds(p, log[2..|log| - 2], Some(outcome.error))
  }

  /** What every run that is not cancelled does, whatever the world answers. */
  ghost predicate Lifecycle(p: Parsers, log: seq<Exchange>, outcome: Outcome) {
    && log != [] && log[0].request == Create && CountOf(log, Create) == 1
    && (|| (|log| == 1 && outcome.Failed? && CreationFails(p, log[0].answer, outcome.error))
        || (exists job: string ::
              KnowsJob(p, log[0].answer, job) && CleanedUp(p, log, job) && Explained(p, log, outcome)))
  }

  /** Rows come only from the result of a job that was seen to be COMPLETED. */
  lemma RowsOnlyAfterCompleted(p: Parsers, log: seq<Exchange>, outcome: Outcome)
    requires Lifecycle(p, log, outcome) && outcome.Rows?
    ensures CompletedObserved(p, log)
    ensures log[|log| - 2].request == Fetch && Yields(p, log[|log| - 2].answer, outcome)
  {
  }

  lemma {:induction false} CountConcat(a: seq<Exchange>, b: seq<Exchange>, r: Request)
    ensures CountOf(a + b, r) == CountOf(a, r) + CountOf(b, r)
  {
    if a == [] {
      assert a + b == b;
    } else {
      assert (a + b)[1..] == a[1..] + b;
      CountConcat(a[1..], b, r);
    }
  }

  lemma {:induction false} CountNone(a: seq<Exchange>, r: Request)
    requires forall e <- a :: e.request != r
    ensures CountOf(a, r) == 0
  {
    if a != [] { CountNone(a[1..], r); }
  }

  function Life(create: Exchange, start: Exchange, polls: seq<Exchange>, tail: seq<Exchange>): seq<Exchange> {
    [create, start] + polls + tail
  }

  /** Polls do not change the counts of the other requests. */
  lemma CountsOfLife(create: Exchange, start: Exchange, polls: seq<Exchange>, tail: seq<Exchange>, r: Request)
    requires forall e <- polls :: e.request == Poll
    requires r != Poll
    ensures CountOf(Life(create, start, polls, tail), r) ==
            (if create.request == r then 1 else 0) + (if start.request == r then 1 else 0) + CountOf(tail, r)
  {
    CountConcat([create, start] + polls, tail, r);
    CountConcat([create, start], polls, r);
    CountNone(polls, r);
    assert [create, start][1..] == [start];
  }

  lemma {:induction false} TailCounts(tail: seq<Exchange>, r: Request)
    requires |tail| == 2
    ensures CountOf(tail, r) == (if tail[0].request == r then 1 else 0) + (if tail[1].request == r then 1 else 0)
  {
    CountConcat([tail[0]], [tail[1]], r);
    assert tail == [tail[0]] + [tail[1]];
  }

  lemma LifeIsCleanedUp(p: Parsers, create: Exchange, start: Exchange, polls: seq<Exchange>,
                        tail: seq<Exchange>, job: string)
    requires create.request == Create && start.request == Start && start.job == job
    requires forall e <- polls :: e.request == Poll && e.job == job
    requires |tail| == 2 && tail[0].job == job && tail[1].job == job
    requires tail[0].request == (if CompletedObserved(p, polls) then Fetch else Abort) && tail[1].request == Delete
    ensures CleanedUp(p, Life(create, start, polls, tail), job)
    ensures CountOf(Life(create, start, polls, tail), Create) == 1
    ensures CompletedObserved(p, Life(create, start, polls, tail)) <==> CompletedObserved(p, polls)
  {
    CompletedInEither(p, [create, start] + polls, tail);
    CompletedInEither(p, [create, start], polls);
    forall r | r in {Create, Delete, Abort, Fetch}
      ensures CountOf(Life(create, start, polls, tail), r) ==
              (if r == Create then 1 else 0) + (if tail[0].request == r then 1 else 0)
              + (if tail[1].request == r then 1 else 0)
    {
      CountsOfLife(create, start, polls, tail, r);
      TailCounts(tail, r);
    }
  }

  function LongestRun(timeout: nat): nat {
    2 * Min(timeout, 30_000) + (timeout + 48_499) + Min(timeout, 60_000) + 10_000
  }

  lemma NoJob(p: Parsers, create: Exchange)
    requires create.request == Create && JobOf(p, create.answer).None?
    ensures Lifecycle(p, [create], Failed(CreationError(create.answer)))
  {
    assert [create][1..] == [];
  }

  /** How a run that learnt of a job ends, from the facts its steps establish. */
  lemma LifeOfJob(p: Parsers, create: Exchange, start: Exchange, polls: seq<Exchange>,
                  tail: seq<Exchange>, outcome: Outcome, job: string)
    requires JobOf(p, create.answer) == Some(job)
    requires create.request == Create && start.request == Start && start.job == job
    requires forall e <- polls :: e.request == Poll && e.job == job
    requires |tail| == 2 && tail[0].job == job && tail[1].job == job
    requires tail[0].request == (if CompletedObserved(p, polls) then Fetch else Abort) && tail[1].request == Delete
    requires
      if StartError(start.answer).Some? then
        polls == [] && outcome == Failed(StartError(start.answer).value)
      else if CompletedObserved(p, polls) then
        outcome == RowsFrom(p, tail[0].answer)
      else
        outcome.Failed? && WaitEnds(p, polls, Some(outcome.error))
    ensures Lifecycle(p, Life(create, start, polls, tail), outcome)
  {
    LifeIsCleanedUp(p, create, start, polls, tail, job);
    var log := Life(create, start, polls, tail);
    assert log[2..|log| - 2] == polls;
  }

  /** A run from the moment it knows its job. */
  method RunJob(p: Parsers, timeout: nat, create: Exchange, job: string)
      returns (outcome: Outcome, log: seq<Exchange>, took: nat)
    requires create.request == Create && JobOf(p, create.answer) == Some(job)
    ensures log != [] && log[0] == create
    ensures Lifecycle(p, log, outcome)
    ensures took <= Min(timeout, 30_000) + (timeout + 48_499) + Min(timeout, 60_000) + 10_000
  {
    var start := Send(Start, job, timeout);
    var tail, spent;
    var refused := StartError(start.answer);
    if refused.Some? {
      tail, spent := BestEffortCleanup(job, true, timeout);
      LifeOfJob(p, create, start, [], tail, Failed(refused.value), job);
      return Failed(refused.value), Life(create, start, [], tail), start.answer.took + spent;
    }
    var error, polls, waited, _ := WaitForJob(p, job, timeout);
    if error.Some? {
      outcome := Failed(error.value);
      tail, spent := BestEffortCleanup(job, true, timeout);
    } else {
      var fetch := Send(Fetch, job, timeout);
      outcome := RowsFrom(p, fetch.answer);
      tail, spent := BestEffortCleanup(job, false, timeout);
      tail, spent := [fetch] + tail, fetch.answer.took + spent;
    }
    LifeOfJob(p, create, start, polls, tail, outcome, job);
    log, took := Life(create, start, polls, tail), start.answer.took + waited + spent;
  }

  method QueryRowsAsync(p: Parsers, timeout: nat)
      returns (outcome: Outcome, log: seq<Exchange>, took: nat)
    ensures Lifecycle(p, log, outcome)
    ensures took <= LongestRun(timeout)
  {
    var create := Send(Create, "", timeout);
    log, took := [create], create.answer.took;
    if JobOf(p, create.answer).None? {
      NoJob(p, create);
    }
    if create.answer.NoAnswer? {
      return Failed(Http), log, took;
    }
    if !Accepted(create.answer.status) {
      return Failed(StatusError(create.answer.status)), log, took;
    }
    if create.answer.location.None? {
      return Failed(Transient), log, took;
    }
    var job := p.join(create.answer.location.value);
    if job.None? {
      return Failed(InvalidRowShape), log, took;
    }
    var spent;
    outcome, log, spent := RunJob(p, timeout, create, job.value);
    took := took + spent;
  }

  // ---------------------------------------------------------------- retries of whole jobs

  predicate WorthAnotherJob(outcome: Outcome) {
    outcome == Failed(Timeout) || outcome == Failed(Transient)
  }

  ghost function Flat(runs: seq<seq<Exchange>>): seq<Exchange> {
    if runs == [] then [] else runs[0] + Flat(runs[1..])
  }

  /** The job mode: jobs are retried one after the other, only after a time-out or a transient error. */
  method QueryRowsByJobs(p: Parsers, timeout: nat, retries: nat)
      returns (outcome: Outcome, runs: seq<seq<Exchange>>, outcomes: seq<Outcome>)
    ensures 1 <= |runs| == |outcomes| <= retries + 1
    ensures forall i | 0 <= i < |runs| :: Lifecycle(p, runs[i], outcomes[i])
    ensures forall i | 0 <= i < |runs| - 1 :: outcomes[i] in {Failed(Timeout), Failed(Transient)}
    ensures outcome == outcomes[|runs| - 1]
    ensures |runs| < retries + 1 ==> outcome !in {Failed(Timeout), Failed(Transient)}
  {
    runs, outcomes := [], [];
    outcome := Failed(Transient);
    for attempt := 0 to retries + 1
      invariant |runs| == |outcomes| == attempt
      invariant forall i | 0 <= i < |runs| :: Lifecycle(p, runs[i], outcomes[i]) && WorthAnotherJob(outcomes[i])
      invariant attempt > 0 ==> outcome == outcomes[attempt - 1]
    {
      var log, took;
      outcome, log, took := QueryRowsAsync(p, timeout);
      runs, outcomes := runs + [log], outcomes + [outcome];
      if !WorthAnotherJob(outcome) {
        return;
      }
    }
  }

  /** Between two creations, the job of the first one is deleted. */
  ghost predicate DeletedBeforeNext(p: Parsers, log: seq<Exchange>) {
    forall i: nat, j: nat | i < j < |log| && log[i].request == Create && log[j].request == Create ::
      DeletedBetween(p, log, i, j)
  }

  ghost predicate DeletedBetween(p: Parsers, log: seq<Exchange>, i: nat, j: nat)
    requires i < j < |log|
  {
    JobOf(p, log[i].answer).Some? ==>
      exists k | i < k < j :: log[k].request == Delete && log[k].job == JobOf(p, log[i].answer).value
  }

  lemma {:induction false} CountPositive(log: seq<Exchange>, i: nat, r: Request)
    requires i < |log| && log[i].request == r
    ensures CountOf(log, r) >= 1
  {
    if i > 0 { CountPositive(log[1..], i - 1, r); }
  }

  lemma CreateIsFirst(log: seq<Exchange>, i: nat)
    requires log != [] && log[0].request == Create && CountOf(log, Create) == 1
    requires i < |log| && log[i].request == Create
    ensures i == 0
  {
    if i > 0 { CountPositive(log[1..], i - 1, Create); }
  }

  /** A run that creates one job and deletes it last may precede others. */
  lemma DeletionPrecedes(p: Parsers, first: seq<Exchange>, others: seq<Exchange>)
    requires first != [] && first[0].request == Create && CountOf(first, Create) == 1
    requires JobOf(p, first[0].answer).Some? ==>
               |first| > 1 && first[|first| - 1].request == Delete &&
               first[|first| - 1].job == JobOf(p, first[0].answer).value
    requires DeletedBeforeNext(p, others)
    ensures DeletedBeforeNext(p, first + others)
  {
    var log := first + others;
    forall i: nat, j: nat | i < j < |log| && log[i].request == Create && log[j].request == Create
      ensures DeletedBetween(p, log, i, j)
    {
      if i < |first| {
        CreateIsFirst(first, i);
        assert j >= |first| by {
          if j < |first| { CreateIsFirst(first, j); }
        }
        if JobOf(p, log[0].answer).Some? { assert log[|first| - 1] == first[|first| - 1]; }
      } else {
        assert DeletedBetween(p, others, i - |first|, j - |first|);
        if JobOf(p, log[i].answer).Some? {
          var k :| i - |first| < k < j - |first| && others[k].request == Delete &&
                   others[k].job == JobOf(p, others[i - |first|].answer).value;
          assert log[|first| + k] == others[k];
        }
      }
    }
  }

  /**
   A retried query creates exactly one job per run, so at most `retries + 1`, and requests the
   deletion of each job it learnt of before it creates the next one.
   */
  lemma {:induction false} JobsAreDeletedInTurn(p: Parsers, runs: seq<seq<Exchange>>, outcomes: seq<Outcome>)
    requires |runs| == |outcomes|
    requires forall i | 0 <= i < |runs| :: Lifecycle(p, runs[i], outcomes[i])
    ensures CountOf(Flat(runs), Create) == |runs|
    ensures DeletedBeforeNext(p, Flat(runs))
  {
    if runs != [] {
      assert Lifecycle(p, runs[0], outcomes[0]);
      JobsAreDeletedInTurn(p, runs[1..], outcomes[1..]);
      CountConcat(runs[0], Flat(runs[1..]), Create);
      DeletionPrecedes(p, runs[0], Flat(runs[1..]));
    }
  }

  // ---------------------------------------------------------------- synchronous queries

  const U64_MAX: nat := 0xFFFF_FFFF_FFFF_FFFF

  function Shift(attempt: nat): nat {
    if attempt == 0 then 1 else 2 * Shift(attempt - 1)
  }

  /** The pause after an attempt, in milliseconds; the product saturates at the largest u64. */
  function RetryDelay(attempt: nat): nat {
    Min(500 * Shift(Min(attempt, 3)), U64_MAX)
  }

  predicate SaysBusy(body: string) {
    var lower := LowerAscii(body);
    || Contains(lower, "tap service too busy")
    || Contains(lower, "no connection available")
    || Contains(lower, "unable to check the adql query")
    || Contains(lower, "temporarily unavailable")
  }

  predicate TransientResponse(status: nat, body: string) {
    || status == 429 || 500 <= status < 600
    || (status == 400 && SaysBusy(body))
  }

  /** The outcome of one attempt. */
  function SyncOutcome(p: Parsers, answer: Reply): Outcome {
    match answer
    case Answer(status, _, body, _) =>
      if body.None? then Failed(Http)
      else if ErrorStatus(status) then
        Failed(if TransientResponse(status, body.value) then Transient else Http)
      else p.rowsOf(body.value)
    case NoAnswer(TimedOut, _) => Failed(Timeout)
    case NoAnswer(ConnectFailed, _) => Failed(Transient)
    case NoAnswer(RequestFailed, _) => Failed(Transient)
    case NoAnswer(OtherFailure, _) => Failed(Http)
  }

  /** One of the texts by which services say that they are busy, in upper or lower case. */
  ghost predicate HasBusyText(body: string) {
    exists text: string :: Contains(LowerAscii(body), text) && IsBusyText(text)
  }

  predicate IsBusyText(text: string) {
    text in {"tap service too busy", "no connection available", "unable to check the adql query", "temporarily unavailable"}
  }

  /** The same, apart from the code: what an answer to a synchronous query amounts to. */
  ghost predicate Amounts(p: Parsers, answer: Reply, outcome: Outcome) {
    if answer.NoAnswer? then
      && (outcome == Failed(Timeout) <==> answer.failure == TimedOut)
      && (outcome == Failed(Transient) <==> answer.failure in {ConnectFailed, RequestFailed})
      && (outcome == Failed(Http) <==> answer.failure == OtherFailure)
    else if answer.body.Some? && !(400 <= answer.status < 600) then outcome == p.rowsOf(answer.body.value)
    else
      && outcome in {Failed(Transient), Failed(Http)}
      && (outcome == Failed(Transient) <==>
            && answer.body.Some?
            && (|| Overloaded(answer.status)
                || (answer.status == 400 && HasBusyText(answer.body.value))))
  }

  lemma SyncOutcomeAmounts(p: Parsers, answer: Reply)
    ensures Amounts(p, answer, SyncOutcome(p, answer))
  {
    if answer.Answer? && answer.body.Some? { BusyMeans(answer.body.value); }
  }

  lemma BusyMeans(body: string)
    ensures SaysBusy(body) <==> HasBusyText(body)
  {
  }

  ghost function BackOff(pauses: nat): nat {
    if pauses == 0 then 0 else BackOff(pauses - 1) + RetryDelay(pauses - 1)
  }

  ghost function Spent(log: seq<Exchange>): nat {
    if log == [] then 0 else Spent(log[..|log| - 1]) + log[|log| - 1].answer.took
  }

  lemma SpentOnOneMore(log: seq<Exchange>, e: Exchange)
    ensures Spent(log + [e]) == Spent(log) + e.answer.took
  {
    assert (log + [e])[..|log|] == log;
  }

  lemma {:induction false} SpentIsBounded(timeout: nat, log: seq<Exchange>)
    requires forall i | 0 <= i < |log| :: log[i].answer.took <= timeout
    ensures Spent(log) <= |log| * timeout
  {
    if log != [] {
      SpentIsBounded(timeout, log[..|log| - 1]);
      assert |log| * timeout == (|log| - 1) * timeout + timeout;
    }
  }

  /** The synchronous modes: attempts with growing pauses until one is not worth repeating. */
  method QueryRowsSync(p: Parsers, timeout: nat, retries: nat)
      returns (outcome: Outcome, log: seq<Exchange>, took: nat)
    ensures 1 <= |log| <= retries + 1
    ensures forall i | 0 <= i < |log| :: log[i].request == Query && log[i].answer.took <= timeout
    ensures Amounts(p, log[|log| - 1].answer, outcome)
    ensures forall i | 0 <= i < |log| - 1 :: log[i].answer.NoAnswer? || Amounts(p, log[i].answer, Failed(Transient))
    ensures |log| < retries + 1 ==> log[|log| - 1].answer.Answer? && outcome != Failed(Transient)
    ensures took == Spent(log) + BackOff(|log| - 1)
  {
    log, took := [], 0;
    ghost var pauses := 0;
    outcome := Failed(Transient);
    for attempt := 0 to retries + 1
      invariant |log| == attempt
      invariant forall i | 0 <= i < |log| :: log[i].request == Query && log[i].answer.took <= timeout
      invariant forall i | 0 <= i < |log| :: log[i].answer.NoAnswer? || Amounts(p, log[i].answer, Failed(Transient))
      invariant attempt > 0 ==> Amounts(p, log[attempt - 1].answer, outcome)
      invariant pauses == if attempt <= retries then attempt else retries
      invariant took == Spent(log) + BackOff(pauses)
    {
      var exchange := Send(Query, "", timeout);
      SpentOnOneMore(log, exchange);
      log, took := log + [exchange], took + exchange.answer.took;
      outcome := SyncOutcome(p, exchange.answer);
      SyncOutcomeAmounts(p, exchange.answer);
      if exchange.answer.Answer? && !(outcome == Failed(Transient) && attempt < retries) {
        return;
      }
      if attempt < retries {
        took, pauses := took + RetryDelay(attempt), attempt + 1;
      }
    }
  }

  /** Delays never reach the saturation, and `r` retries pause for 500, 1000, 2000 and then 4000 ms each. */
  lemma {:induction false} BackOffTotal(r: nat)
    ensures BackOff(r) == 500 * (Shift(Min(r, 3)) - 1) + 4_000 * (if r > 3 then r - 3 else 0)
    ensures RetryDelay(r) == 500 * Shift(Min(r, 3)) <= 4_000 < U64_MAX
  {
    assert Shift(0) == 1 && Shift(1) == 2 && Shift(2) == 4 && Shift(3) == 8;
    if r > 0 { BackOffTotal(r - 1); }
  }
}
