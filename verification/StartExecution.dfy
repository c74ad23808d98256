/**
 The start of an execution in `beampipe-api`, which may be requested any number of times and by
 several clients at once: the handler reads the ledger row, looks for the job of an earlier
 start, and otherwise enqueues one by an atomic get-or-insert on the idempotency key.

 Everything else that happens between these database calls is an event: other requests, workers
 that set job statuses, changes of the ledger row, automated admission, and retries.
 */
module StartExecution {
  import opened Options
  import opened Json
  import opened Runs
  import CounterKeys

  /** The text of a UUID. */
  type Uuid = s: string | ':' !in s witness ""

  datatype Status =
    | Pending | Running | AwaitingScheduler | NotSubmitted | Completed | Failed | Retrying | Cancelled

  /** A ledger row; `status` is None for a text that names no status. */
  datatype Execution = Execution(status: Option<Status>, abandoned: bool)

  datatype JobStatus = JobQueued | JobRunning | JobCompleted | JobFailed | JobCancelled | DeadLetter

  type Payload = map<string, Json>

  datatype Job = Job(id: nat, payload: Payload, status: JobStatus)

  datatype Request = Request(execution: Uuid, doStage: bool, doSubmit: bool)

  datatype Reply = Accepted(job: nat) | Conflict | NotFound | StoreError

  datatype Answer = Answer(request: Request, reply: Reply)

  /** How far a request has come; `Loaded` remembers the status of the row it read. */
  datatype Progress = Arrived | Loaded(status: Option<Status>) | Checked

  datatype Ongoing = Ongoing(request: Request, progress: Progress)

  /** Jobs stand under their idempotency keys; `created` lists these keys in order of insertion. */
  datatype State = State(
    executions: map<Uuid, Execution>,
    jobs: map<string, Job>,
    created: seq<string>,
    requests: map<nat, Ongoing>,
    answers: seq<Answer>)

  const Init := State(map[], map[], [], map[], [])

  datatype Event =
    | Arrive(r: nat, request: Request)
    | Load(r: nat)
    | Lookup(r: nat)
    | Enqueue(r: nat, capable: bool)
    | Leave(r: nat)
    | Work(key: string, status: JobStatus)
    | Change(execution: Uuid, row: Execution)
    | Admit(execution: Uuid, automated: Option<Payload>)
    | Retry(execution: Uuid, count: nat, payload: Payload)

  function StartKey(id: Uuid): string {
    "execute:" + id
  }

  function RetryKey(id: Uuid, count: nat): string {
    StartKey(id) + ":retry:" + CounterKeys.Decimal(count)
  }

  function BoolOr(payload: Payload, name: string, default: bool): bool {
    if name in payload && payload[name].Bool? then payload[name].b else default
  }

  /** The options a payload asks for; what it does not say is true. */
  function JobOptions(payload: Payload): (bool, bool) {
    (BoolOr(payload, "do_stage", true), BoolOr(payload, "do_submit", true))
  }

  function OptionsOf(request: Request): (bool, bool) {
    (request.doStage, request.doSubmit)
  }

  function PayloadOf(request: Request): Payload {
    map[
      "execution_id" := Str(request.execution),
      "do_stage" := Bool(request.doStage),
      "do_submit" := Bool(request.doSubmit)
    ]
  }

  predicate Replayable(status: JobStatus) {
    status in {JobQueued, JobRunning, JobCompleted}
  }

  predicate Terminal(status: Option<Status>) {
    status in {Some(Completed), Some(Failed), Some(Cancelled), Some(NotSubmitted)}
  }

  /** What the job found by the lookup answers; None to go on. */
  function FoundReply(job: Job, request: Request): Option<Reply> {
    if JobOptions(job.payload) != OptionsOf(request) then Some(Conflict)
    else if Replayable(job.status) then Some(Accepted(job.id))
    else None
  }

  /** What the job returned by the get-or-insert answers. */
  function QueuedReply(job: Job, request: Request): Reply {
    if JobOptions(job.payload) != OptionsOf(request) then Conflict
    else if !Replayable(job.status) then Conflict
    else Accepted(job.id)
  }

  /** INSERT with ON CONFLICT: an existing job stays as it is. */
  function GetOrInsert(s: State, key: string, payload: Payload): State {
    if key in s.jobs then s
    else s.(jobs := s.jobs[key := Job(|s.created|, payload, JobQueued)], created := s.created + [key])
  }

  /** The request is over, with an answer to its client. */
  function Respond(s: State, r: nat, reply: Reply): State
    requires r in s.requests
  {
    s.(requests := s.requests - {r}, answers := s.answers + [Answer(s.requests[r].request, reply)])
  }

  function Next(s: State, ev: Event): Option<State> {
    match ev
    case Arrive(r, request) =>
      if r in s.requests then None
      else Some(s.(requests := s.requests[r := Ongoing(request, Arrived)]))

    case Load(r) =>
      if r !in s.requests || s.requests[r].progress != Arrived then None
      else
        var request := s.requests[r].request;
        if request.execution !in s.executions then Some(Respond(s, r, NotFound))
        else
          var status := s.executions[request.execution].status;
          Some(s.(requests := s.requests[r := Ongoing(request, Loaded(status))]))

    case Lookup(r) =>
      if r !in s.requests || !s.requests[r].progress.Loaded? then None
      else
        var request := s.requests[r].request;
        var key := StartKey(request.execution);
        if key in s.jobs && FoundReply(s.jobs[key], request).Some? then
          Some(Respond(s, r, FoundReply(s.jobs[key], request).value))
        else if s.requests[r].progress.status != Some(Pending) then
          Some(Respond(s, r, Conflict))
        else
          Some(s.(requests := s.requests[r := Ongoing(request, Checked)]))

    case Enqueue(r, capable) =>
      if r !in s.requests || s.requests[r].progress != Checked then None
      else
        var request := s.requests[r].request;
        var id := request.execution;
        if !capable || id !in s.executions || s.executions[id].abandoned || Terminal(s.executions[id].status) then
          Some(Respond(s, r, StoreError))
        else
          var s' := GetOrInsert(s, StartKey(id), PayloadOf(request));
          Some(Respond(s', r, QueuedReply(s'.jobs[StartKey(id)], request)))

    case Leave(r) =>
      if r !in s.requests then None else Some(s.(requests := s.requests - {r}))

    case Work(key, status) =>
      if key !in s.jobs then None
      else Some(s.(jobs := s.jobs[key := s.jobs[key].(status := status)]))

    case Change(id, row) =>
      if id !in s.executions then None else Some(s.(executions := s.executions[id := row]))

    case Admit(id, automated) =>
      if id in s.executions || (automated.Some? && StartKey(id) in s.jobs) then None
      else
        var s' := s.(executions := s.executions[id := Execution(Some(Pending), false)]);
        Some(if automated.Some? then GetOrInsert(s', StartKey(id), automated.value) else s')

    case Retry(id, count, payload) =>
      if id !in s.executions || RetryKey(id, count) in s.jobs then None
      else Some(GetOrInsert(s, RetryKey(id, count), payload))
  }

  ghost predicate Reachable(s: State) {
    exists evs :: Exec(Next, Init, evs) == Some(s)
  }

  // ---------------------------------------------------------------- safety over all runs

  /** An acceptance names the job under the key of the execution, which has the options asked for. */
  ghost predicate Honest(s: State, answer: Answer) {
    answer.reply.Accepted? ==>
      && StartKey(answer.request.execution) in s.jobs
      && s.jobs[StartKey(answer.request.execution)].id == answer.reply.job
      && JobOptions(s.jobs[StartKey(answer.request.execution)].payload) == OptionsOf(answer.request)
  }

  /** Keys of insertions and ids of jobs belong together. */
  ghost predicate Listed(s: State) {
    && (forall i: nat | i < |s.created| :: s.created[i] in s.jobs && s.jobs[s.created[i]].id == i)
    && (forall key <- s.jobs :: s.jobs[key].id < |s.created| && s.created[s.jobs[key].id] == key)
  }

  ghost predicate Inv(s: State) {
    && Listed(s)
    && (forall i: nat | i < |s.answers| :: Honest(s, s.answers[i]))
  }

  /** Jobs only gain statuses: their keys, ids and payloads stay. */
  ghost predicate Keeps(s: State, t: State) {
    forall key <- s.jobs :: key in t.jobs && t.jobs[key].id == s.jobs[key].id && t.jobs[key].payload == s.jobs[key].payload
  }

  lemma StepKeepsJobs(s: State, ev: Event)
    requires Next(s, ev).Some?
    ensures Keeps(s, Next(s, ev).value)
  {
  }

  lemma {:induction false} JobsArePermanent(s: State, evs: seq<Event>)
    requires Exec(Next, s, evs).Some?
    ensures Keeps(s, Exec(Next, s, evs).value)
    decreases |evs|
  {
    if evs != [] {
      StepKeepsJobs(s, evs[0]);
      JobsArePermanent(Next(s, evs[0]).value, evs[1..]);
    }
  }

  lemma InsertKeepsListing(s: State, key: string, payload: Payload)
    requires Listed(s)
    ensures Listed(GetOrInsert(s, key, payload))
  {
  }

  lemma StepKeepsListing(s: State, ev: Event)
    requires Listed(s) && Next(s, ev).Some?
    ensures Listed(Next(s, ev).value)
  {
    match ev
    case Enqueue(r, _) =>
      var request := s.requests[r].request;
      InsertKeepsListing(s, StartKey(request.execution), PayloadOf(request));
    case Admit(id, automated) =>
      if automated.Some? {
        InsertKeepsListing(s.(executions := s.executions[id := Execution(Some(Pending), false)]), StartKey(id), automated.value);
      }
    case Retry(id, count, payload) => InsertKeepsListing(s, RetryKey(id, count), payload);
    case _ =>
  }

  lemma StepKeepsAnswers(s: State, ev: Event)
    requires Inv(s) && Next(s, ev).Some?
    ensures var t := Next(s, ev).value; s.answers <= t.answers && |t.answers| <= |s.answers| + 1
    ensures var t := Next(s, ev).value; |t.answers| > |s.answers| ==> Honest(t, t.answers[|s.answers|])
  {
  }

  lemma StepKeepsInv(s: State, ev: Event)
    requires Inv(s) && Next(s, ev).Some?
    ensures Inv(Next(s, ev).value)
  {
    StepKeepsListing(s, ev);
    StepKeepsJobs(s, ev);
    StepKeepsAnswers(s, ev);
    HonestyLasts(s, Next(s, ev).value);
  }

  /** Answers stay honest as long as jobs keep their ids and payloads. */
  lemma HonestyLasts(s: State, t: State)
    requires Inv(s) && Keeps(s, t)
    ensures forall i: nat | i < |s.answers| :: Honest(t, s.answers[i])
  {
    forall i: nat | i < |s.answers| ensures Honest(t, s.answers[i]) {
      assert Honest(s, s.answers[i]);
    }
  }

  lemma KeepsInv(evs: seq<Event>)
    requires Exec(Next, Init, evs).Some?
    ensures Inv(Exec(Next, Init, evs).value)
  {
    forall s, ev | Inv(s) && Next(s, ev).Some? ensures Inv(Next(s, ev).value) {
      StepKeepsInv(s, ev);
    }
    ExecKeeps(Next, Inv, Init, evs);
  }

  lemma ReachableInv(s: State)
    requires Reachable(s)
    ensures Inv(s)
  {
    var evs :| Exec(Next, Init, evs) == Some(s);
    KeepsInv(evs);
  }

  /**
   All acceptances for one execution, whenever and by whomever they were asked for, name the same
   job, and it has the options of each of these requests.
   */
  lemma AcceptancesAgree(s: State, a: Answer, b: Answer)
    requires Reachable(s) && a in s.answers && b in s.answers
    requires a.reply.Accepted? && b.reply.Accepted? && a.request.execution == b.request.execution
    ensures a.reply == b.reply && a.request == b.request
    ensures StartKey(a.request.execution) in s.jobs
    ensures s.jobs[StartKey(a.request.execution)].id == a.reply.job
    ensures JobOptions(s.jobs[StartKey(a.request.execution)].payload) == OptionsOf(a.request)
  {
    ReachableInv(s);
    var i :| 0 <= i < |s.answers| && s.answers[i] == a;
    var j :| 0 <= j < |s.answers| && s.answers[j] == b;
    assert Honest(s, s.answers[i]) && Honest(s, s.answers[j]);
  }

  /** No key is ever inserted twice, and jobs of different executions are different. */
  lemma OneJobPerKey(s: State)
    requires Reachable(s)
    ensures forall i: nat, j: nat | i < j < |s.created| :: s.created[i] != s.created[j]
    ensures forall a <- s.answers, b <- s.answers ::
              a.reply.Accepted? && b.reply.Accepted? && a.reply == b.reply ==> a.request.execution == b.request.execution
  {
    ReachableInv(s);
    forall a <- s.answers, b <- s.answers | a.reply.Accepted? && b.reply.Accepted? && a.reply == b.reply
      ensures a.request.execution == b.request.execution
    {
      var i :| 0 <= i < |s.answers| && s.answers[i] == a;
      var j :| 0 <= j < |s.answers| && s.answers[j] == b;
      assert Honest(s, s.answers[i]) && Honest(s, s.answers[j]);
      StartKeysDiffer(a.request.execution, b.request.execution);
    }
  }

  lemma StartKeysDiffer(a: Uuid, b: Uuid)
    ensures StartKey(a) == StartKey(b) ==> a == b
  {
    assert StartKey(a)[8..] == a && StartKey(b)[8..] == b;
  }

  /** A retry never takes the key of a start. */
  lemma RetryKeysAreApart(a: Uuid, b: Uuid, count: nat)
    ensures StartKey(a) != RetryKey(b, count)
  {
    var at := 8 + |b|;
    assert RetryKey(b, count)[at] == ':';
    if at < |StartKey(a)| { assert StartKey(a)[at] == a[|b|]; }
  }

  // ---------------------------------------------------------------- what one step answers

  /** A request that inserts a job is accepted with it; every refusal leaves the jobs alone. */
  lemma InsertionIsAccepted(s: State, ev: Event)
    requires Inv(s) && Next(s, ev).Some? && |Next(s, ev).value.answers| > |s.answers|
    ensures var t := Next(s, ev).value;
            var answer := t.answers[|s.answers|];
            && t.answers == s.answers + [answer]
            && (if StartKey(answer.request.execution) !in s.jobs && answer.reply.Accepted? then
                  t.created == s.created + [StartKey(answer.request.execution)] &&
                  answer.reply.job == |s.created|
                else t.jobs == s.jobs)
            && (answer.reply.Accepted? ==>
                  t.jobs[StartKey(answer.request.execution)].status in {JobQueued, JobRunning, JobCompleted})
  {
    if ev.Enqueue? {
      var request := s.requests[ev.r].request;
      assert JobOptions(PayloadOf(request)) == OptionsOf(request);
    }
  }

  // ---------------------------------------------------------------- a request without interference

  function Apply(s: State, ev: Event): State {
    if Next(s, ev).Some? then Next(s, ev).value else s
  }

  /** All database calls of one request in a row. */
  function Alone(s: State, r: nat, request: Request, capable: bool): State {
    Apply(Apply(Apply(Apply(s, Arrive(r, request)), Load(r)), Lookup(r)), Enqueue(r, capable))
  }

  /** The options of a payload are those of a request; one that it does not set to false is on. */
  predicate AsksTheSame(payload: Payload, request: Request) {
    && (request.doStage <==> !("do_stage" in payload && payload["do_stage"] == Bool(false)))
    && (request.doSubmit <==> !("do_submit" in payload && payload["do_submit"] == Bool(false)))
  }

  lemma OptionsAreAsked(payload: Payload, request: Request)
    ensures JobOptions(payload) == OptionsOf(request) <==> AsksTheSame(payload, request)
  {
  }

  /** Whether a start would be accepted now. */
  predicate Startable(s: State, request: Request, capable: bool) {
    && request.execution in s.executions
    && var row := s.executions[request.execution];
       if StartKey(request.execution) in s.jobs then
         var job := s.jobs[StartKey(request.execution)];
         job.status in {JobQueued, JobRunning, JobCompleted} && AsksTheSame(job.payload, request)
       else row.status == Some(Pending) && !row.abandoned && capable
  }

  /** What an undisturbed start answers. */
  function AloneReply(s: State, request: Request, capable: bool): Reply {
    if request.execution !in s.executions then NotFound
    else
      var row, key := s.executions[request.execution], StartKey(request.execution);
      if key in s.jobs && FoundReply(s.jobs[key], request).Some? then FoundReply(s.jobs[key], request).value
      else if row.status != Some(Pending) then Conflict
      else if !capable || row.abandoned then StoreError
      else QueuedReply(GetOrInsert(s, key, PayloadOf(request)).jobs[key], request)
  }

  lemma OnceGone(requests: map<nat, Ongoing>, r: nat, ongoing: Ongoing)
    requires r !in requests
    ensures requests[r := ongoing] - {r} == requests
  {
  }

  lemma AloneLoads(s: State, r: nat, request: Request)
    requires r !in s.requests
    ensures Apply(Apply(s, Arrive(r, request)), Load(r)) ==
            if request.execution !in s.executions then s.(answers := s.answers + [Answer(request, NotFound)])
            else s.(requests := s.requests[r := Ongoing(request, Loaded(s.executions[request.execution].status))])
  {
    OnceGone(s.requests, r, Ongoing(request, Arrived));
    assert s.requests[r := Ongoing(request, Arrived)][r := Ongoing(request, Checked)]
        == s.requests[r := Ongoing(request, Checked)];
  }

  lemma AloneEnqueues(s: State, r: nat, request: Request, capable: bool)
    requires r !in s.requests && request.execution in s.executions
    requires s.executions[request.execution].status == Some(Pending)
    ensures var row, key := s.executions[request.execution], StartKey(request.execution);
            var s' := if capable && !row.abandoned then GetOrInsert(s, key, PayloadOf(request)) else s;
            Apply(s.(requests := s.requests[r := Ongoing(request, Checked)]), Enqueue(r, capable)) ==
              s'.(answers := s.answers + [Answer(request,
                    if capable && !row.abandoned then QueuedReply(s'.jobs[key], request) else StoreError)])
  {
    OnceGone(s.requests, r, Ongoing(request, Checked));
  }

  /** Exactly the startable requests are accepted. */
  lemma AcceptedExactlyWhenStartable(s: State, request: Request, capable: bool)
    ensures AloneReply(s, request, capable).Accepted? <==> Startable(s, request, capable)
  {
    assert JobOptions(PayloadOf(request)) == OptionsOf(request);
    if StartKey(request.execution) in s.jobs { OptionsAreAsked(s.jobs[StartKey(request.execution)].payload, request); }
  }

  /** The job of a start has failed, was cancelled or was given up. */
  predicate HasSpentJob(s: State, id: Uuid) {
    StartKey(id) in s.jobs && s.jobs[StartKey(id)].status in {JobFailed, JobCancelled, DeadLetter}
  }

  lemma StatusesAre(status: JobStatus)
    ensures Replayable(status) <==> status !in {JobFailed, JobCancelled, DeadLetter}
  {
    assert || status.JobQueued? || status.JobRunning? || status.JobCompleted?
           || status.JobFailed? || status.JobCancelled? || status.DeadLetter?;
  }

  /** There is a job for the start already, with other options. */
  predicate AsksOtherwise(s: State, request: Request) {
    StartKey(request.execution) in s.jobs && !AsksTheSame(s.jobs[StartKey(request.execution)].payload, request)
  }

  /** What the refusals of an undisturbed start say, and which job an acceptance names. */
  lemma RefusalsExactly(s: State, request: Request, capable: bool)
    ensures var id, key, reply := request.execution, StartKey(request.execution), AloneReply(s, request, capable);
      && (reply == NotFound <==> id !in s.executions)
      && (reply == StoreError <==>
            && id in s.executions && !AsksOtherwise(s, request) && (key in s.jobs ==> HasSpentJob(s, id))
            && s.executions[id].status == Some(Pending) && (s.executions[id].abandoned || !capable))
      && (reply == Conflict <==>
            && id in s.executions
            && (|| AsksOtherwise(s, request)
                || (HasSpentJob(s, id) &&
                      (s.executions[id].status == Some(Pending) ==> capable && !s.executions[id].abandoned))
                || (key !in s.jobs && s.executions[id].status != Some(Pending))))
      && (reply.Accepted? ==> reply.job == if key in s.jobs then s.jobs[key].id else |s.created|)
  {
    var key := StartKey(request.execution);
    assert JobOptions(PayloadOf(request)) == OptionsOf(request);
    if key in s.jobs {
      OptionsAreAsked(s.jobs[key].payload, request);
      StatusesAre(s.jobs[key].status);
    }
  }

  /** The transaction of the enqueue refuses exactly what is not there, given up or over. */
  lemma EnqueueRefusesExactly(s: State, r: nat, capable: bool)
    requires r in s.requests && s.requests[r].progress == Checked
    ensures var request, t := s.requests[r].request, Next(s, Enqueue(r, capable)).value;
      && |t.answers| == |s.answers| + 1
      && (t.answers[|s.answers|] == Answer(request, StoreError) <==>
            || !capable || request.execution !in s.executions
            || s.executions[request.execution].abandoned
            || s.executions[request.execution].status in
                 {Some(Completed), Some(Failed), Some(Cancelled), Some(NotSubmitted)})
  {
  }

  /**
   An undisturbed start gets exactly one answer, and leaves nothing under way. It is accepted
   exactly if it was startable, and then its job is there.
   */
  lemma AloneAnswersOnce(s: State, r: nat, request: Request, capable: bool)
    requires r !in s.requests
    ensures var t := Alone(s, r, request, capable);
            && t.answers == s.answers + [Answer(request, AloneReply(s, request, capable))]
            && t.requests == s.requests && t.executions == s.executions
            && (AloneReply(s, request, capable).Accepted? <==> Startable(s, request, capable))
            && (AloneReply(s, request, capable).Accepted? ==>
                  t.jobs == GetOrInsert(s, StartKey(request.execution), PayloadOf(request)).jobs)
            && (StartKey(request.execution) in s.jobs ==> t.jobs == s.jobs && t.created == s.created)
  {
    AcceptedExactlyWhenStartable(s, request, capable);
    AloneLoads(s, r, request);
    if request.execution in s.executions {
      var loaded := Ongoing(request, Loaded(s.executions[request.execution].status));
      OnceGone(s.requests, r, loaded);
      assert s.requests[r := loaded][r := Ongoing(request, Checked)] == s.requests[r := Ongoing(request, Checked)];
      if s.executions[request.execution].status == Some(Pending) {
        AloneEnqueues(s, r, request, capable);
      }
    }
  }

  /** Asking again after an acceptance gets the same answer and changes no job. */
  lemma ReplayIsIdempotent(s: State, r: nat, request: Request, capable: bool, r': nat, capable': bool)
    requires r !in s.requests && r' !in s.requests && Startable(s, request, capable)
    ensures var t := Alone(s, r, request, capable);
            var u := Alone(t, r', request, capable');
            && u.jobs == t.jobs && u.created == t.created
            && |u.answers| == |s.answers| + 2 && u.answers[|s.answers|] == u.answers[|s.answers| + 1]
  {
    AloneAnswersOnce(s, r, request, capable);
    var t := Alone(s, r, request, capable);
    AloneAnswersOnce(t, r', request, capable');
    assert JobOptions(PayloadOf(request)) == OptionsOf(request);
  }

  // ---------------------------------------------------------------- a start that has failed

  ghost predicate Spent(s: State, id: Uuid) {
    HasSpentJob(s, id)
  }

  function AcceptancesOf(answers: seq<Answer>, id: Uuid): nat {
    if answers == [] then 0
    else (if answers[0].request.execution == id && answers[0].reply.Accepted? then 1 else 0)
         + AcceptancesOf(answers[1..], id)
  }

  lemma {:induction false} AcceptancesConcat(a: seq<Answer>, b: seq<Answer>, id: Uuid)
    ensures AcceptancesOf(a + b, id) == AcceptancesOf(a, id) + AcceptancesOf(b, id)
  {
    if a == [] {
      assert a + b == b;
    } else {
      assert (a + b)[1..] == a[1..] + b;
      AcceptancesConcat(a[1..], b, id);
    }
  }

  /**
   Once the job of a start has failed, been cancelled or dead-lettered, no request, not even one
   already under way, is accepted until a worker touches this very job again.
   */
  lemma {:induction false} SpentStartsStaySpent(s: State, evs: seq<Event>, id: Uuid)
    requires Spent(s, id) && Exec(Next, s, evs).Some?
    requires forall ev <- evs :: ev.Work? ==> ev.key != StartKey(id)
    ensures Spent(Exec(Next, s, evs).value, id)
    ensures AcceptancesOf(Exec(Next, s, evs).value.answers, id) == AcceptancesOf(s.answers, id)
    decreases |evs|
  {
    if evs != [] {
      var t := Next(s, evs[0]).value;
      SpentStep(s, evs[0], id);
      AcceptancesConcat(s.answers, t.answers[|s.answers|..], id);
      SpentStartsStaySpent(t, evs[1..], id);
    }
  }

  lemma SpentStep(s: State, ev: Event, id: Uuid)
    requires Spent(s, id) && Next(s, ev).Some? && (ev.Work? ==> ev.key != StartKey(id))
    ensures var t := Next(s, ev).value;
            && Spent(t, id)
            && s.answers <= t.answers && |t.answers| <= |s.answers| + 1
            && t.answers == s.answers + t.answers[|s.answers|..]
            && AcceptancesOf(t.answers[|s.answers|..], id) == 0
  {
    var t := Next(s, ev).value;
    if |t.answers| > |s.answers| {
      assert t.answers == s.answers + [t.answers[|s.answers|]];
      assert t.answers[|s.answers|..] == [t.answers[|s.answers|]];
      StartKeysDiffer(t.answers[|s.answers|].request.execution, id);
    } else {
      assert t.answers == s.answers;
    }
  }
}
