/** The priority queue with retries and its worker pool (internal/worker/pool.go). */
module WorkQueue {
  import opened Common
  import opened Sorting

  /** A job.  The ticket says which submission it stems from, the stamp when it was
      last pushed and attempts how often its handler has run: bookkeeping that the
      code does not look at. */
  datatype Job = Job(kind: string, priority: int, retries: int, maxRetries: int, ticket: nat, stamp: nat, attempts: nat)

  datatype Failure = NoHandler | HandlerFailed

  datatype Result = Result(job: Job, success: bool, error: Option<Failure>)

  /** What is reported for a job that ended, with or without a handler. */
  function Outcome(job: Job, handled: bool, failed: bool): Result {
    if !handled then Result(job, false, Some(NoHandler))
    else if failed then Result(job, false, Some(HandlerFailed))
    else Result(job, true, None)
  }

  // --- The queue -------------------------------------------------------------------------

  /** Where a job goes: before the first of lower priority. */
  function Position(queue: seq<Job>, priority: int): (p: nat)
    ensures p <= |queue|
    ensures forall i :: 0 <= i < p ==> queue[i].priority >= priority
    ensures p < |queue| ==> priority > queue[p].priority
  {
    if queue == [] || priority > queue[0].priority then 0 else 1 + Position(queue[1..], priority)
  }

  function Pushed(queue: seq<Job>, job: Job): seq<Job> {
    var p := Position(queue, job.priority);
    queue[..p] + [job] + queue[p..]
  }

  /** Higher priority first; within one priority, earlier pushed first. */
  predicate Ahead(a: Job, b: Job) {
    a.priority > b.priority || (a.priority == b.priority && a.stamp < b.stamp)
  }

  ghost predicate InOrder(queue: seq<Job>) {
    forall i, j :: 0 <= i < j < |queue| ==> Ahead(queue[i], queue[j])
  }

  ghost predicate StampedBelow(queue: seq<Job>, stamp: nat) {
    forall i :: 0 <= i < |queue| ==> queue[i].stamp < stamp
  }

  lemma PushPair(queue: seq<Job>, job: Job, p: nat, r: seq<Job>, i: nat, j: nat)
    requires InOrder(queue) && StampedBelow(queue, job.stamp) && p == Position(queue, job.priority)
    requires |r| == |queue| + 1 && i < j < |r|
    requires r[i] == (if i < p then queue[i] else if i == p then job else queue[i - 1])
    requires r[j] == (if j < p then queue[j] else if j == p then job else queue[j - 1])
    ensures Ahead(r[i], r[j])
  {
    var i', j' := if i < p then i else i - 1, if j < p then j else j - 1;
    if i != p && j != p {
      assert Ahead(queue[i'], queue[j']);
    } else if i == p && j > p + 1 {
      assert Ahead(queue[p], queue[j']);
    }
  }

  /** Pushing a job with a new stamp keeps the order. */
  lemma PushOrdered(queue: seq<Job>, job: Job)
    requires InOrder(queue) && StampedBelow(queue, job.stamp)
    ensures InOrder(Pushed(queue, job)) && StampedBelow(Pushed(queue, job), job.stamp + 1)
  {
    var p := Position(queue, job.priority);
    var r := Pushed(queue, job);
    forall i | 0 <= i < |r| ensures r[i] == (if i < p then queue[i] else if i == p then job else queue[i - 1]) {}
    forall i, j | 0 <= i < j < |r| ensures Ahead(r[i], r[j]) { PushPair(queue, job, p, r, i, j); }
  }

  class MemoryQueue {
    var jobs: seq<Job>

    constructor ()
      ensures jobs == []
    {
      jobs := [];
    }

    method Push(job: Job)
      modifies this
      ensures jobs == Pushed(old(jobs), job)
    {
      var inserted := false;
      for i := 0 to |jobs|
        invariant !inserted && jobs == old(jobs)
        invariant forall k :: 0 <= k < i ==> jobs[k].priority >= job.priority
      {
        if job.priority > jobs[i].priority {
          PositionIs(jobs, job.priority, i);
          jobs := jobs[..i] + [job] + jobs[i..];
          inserted := true;
          break;
        }
      }
      if !inserted {
        PositionIs(jobs, job.priority, |jobs|);
        assert jobs + [job] == jobs[..|jobs|] + [job] + jobs[|jobs|..];
        jobs := jobs + [job];
      }
    }

    /** The caller waits until the queue holds a job. */
    method Pop() returns (job: Job)
      requires |jobs| > 0
      modifies this
      ensures old(jobs) == [job] + jobs
    {
      job := jobs[0];
      jobs := jobs[1..];
    }
  }

  lemma {:induction false} PositionIs(queue: seq<Job>, priority: int, p: nat)
    requires p <= |queue| && (forall i :: 0 <= i < p ==> queue[i].priority >= priority)
    requires p < |queue| ==> priority > queue[p].priority
    ensures Position(queue, priority) == p
  {
    if p > 0 { PositionIs(queue[1..], priority, p - 1); }
  }

  // --- The pool ------------------------------------------------------------------------------

  /** Jobs waiting, jobs in the hands of workers, and what was reported. */
  datatype Pool = Pool(queue: seq<Job>, running: seq<Job>, results: seq<Result>, submitted: nat, pushes: nat)

  const EMPTY: Pool := Pool([], [], [], 0, 0)

  /** Submit a job; a worker takes the first job; running job i ends, with a
      handler registered for its kind or not, and failing or not. */
  datatype Op = Submit(job: Job) | Take | End(i: nat, handled: bool, failed: bool)

  /** A submission without a retry limit gets three retries. */
  function Accepted(s: Pool, job: Job): Job {
    job.(maxRetries := if job.maxRetries == 0 then 3 else job.maxRetries,
         ticket := s.submitted, stamp := s.pushes, attempts := 0)
  }

  predicate Enabled(s: Pool, op: Op) {
    match op
    case Submit(_) => true
    case Take => s.queue != []
    case End(i, _, _) => i < |s.running|
  }

  function Without<T>(s: seq<T>, i: nat): seq<T>
    requires i < |s|
  {
    s[..i] + s[i + 1..]
  }

  predicate Retried(job: Job, handled: bool, failed: bool) {
    handled && failed && job.retries < job.maxRetries
  }

  function Step(s: Pool, op: Op): Pool
    requires Enabled(s, op)
  {
    match op
    case Submit(job) =>
      s.(queue := Pushed(s.queue, Accepted(s, job)), submitted := s.submitted + 1, pushes := s.pushes + 1)
    case Take => s.(queue := s.queue[1..], running := s.running + [s.queue[0]])
    case End(i, handled, failed) => Ended(s, i, handled, failed)
  }

  function Ended(s: Pool, i: nat, handled: bool, failed: bool): Pool
    requires i < |s.running|
  {
    var job := s.running[i];
    var tried := if handled then job.(attempts := job.attempts + 1) else job;
    var rest := s.(running := Without(s.running, i));
    if Retried(job, handled, failed) then
      rest.(queue := Pushed(s.queue, tried.(retries := job.retries + 1, stamp := s.pushes)), pushes := s.pushes + 1)
    else rest.(results := s.results + [Outcome(tried, handled, failed)])
  }

  class WorkerPool {
    const queue: MemoryQueue
    var running: seq<Job>
    var results: seq<Result>
    var submitted: nat
    var pushes: nat

    constructor ()
      ensures fresh(queue) && State() == EMPTY
    {
      queue := new MemoryQueue();
      running, results, submitted, pushes := [], [], 0, 0;
    }

    ghost function State(): Pool
      reads this, queue
    {
      Pool(queue.jobs, running, results, submitted, pushes)
    }

    method SubmitJob(job: Job)
      modifies this, queue
      ensures State() == Step(old(State()), Submit(job))
    {
      var accepted := job;
      if accepted.maxRetries == 0 { accepted := accepted.(maxRetries := 3); }
      queue.Push(accepted.(ticket := submitted, stamp := pushes, attempts := 0));
      submitted, pushes := submitted + 1, pushes + 1;
    }

    method TakeJob() returns (job: Job)
      requires queue.jobs != []
      modifies this, queue
      ensures State() == Step(old(State()), Take) && job == old(queue.jobs)[0]
    {
      job := queue.Pop();
      running := running + [job];
    }

    /** The end of running job i, whose handler is missing, or has failed or not. */
    method ProcessJob(i: nat, handled: bool, failed: bool)
      requires i < |running|
      modifies this, queue
      ensures State() == Step(old(State()), End(i, handled, failed))
    {
      var job := running[i];
      running := running[..i] + running[i + 1..];
      if !handled {
        results := results + [Result(job, false, Some(NoHandler))];
        return;
      }
      job := job.(attempts := job.attempts + 1);
      if failed && job.retries < job.maxRetries {
        job := job.(retries := job.retries + 1);
        queue.Push(job.(stamp := pushes));
        pushes := pushes + 1;
        return;
      }
      results := results + [Result(job, !failed, if failed then Some(HandlerFailed) else None)];
    }
  }

  // --- Every job is in one place ----------------------------------------------------------------

  function TicketOf(job: Job): nat { job.ticket }

  function TicketOfResult(r: Result): nat { r.job.ticket }

  ghost function ReportedTickets(s: Pool): multiset<nat> {
    multiset(Map(TicketOfResult, s.results))
  }

  ghost function Tickets(s: Pool): multiset<nat> {
    multiset(Map(TicketOf, s.queue)) + multiset(Map(TicketOf, s.running)) + ReportedTickets(s)
  }

  lemma PushedPermutes(queue: seq<Job>, job: Job)
    ensures multiset(Pushed(queue, job)) == multiset(queue + [job])
  {
    var p := Position(queue, job.priority);
    assert queue == queue[..p] + queue[p..];
  }

  lemma PushedBag<T>(f: Job -> T, queue: seq<Job>, job: Job)
    ensures multiset(Map(f, Pushed(queue, job))) == multiset(Map(f, queue)) + multiset{f(job)}
  {
    PushedPermutes(queue, job);
    MapPermutes(f, Pushed(queue, job), queue + [job]);
    AppendBag(f, queue, job);
  }

  lemma AppendBag<A, T>(f: A -> T, s: seq<A>, x: A)
    ensures multiset(Map(f, s + [x])) == multiset(Map(f, s)) + multiset{f(x)}
  {
    assert Map(f, s + [x]) == Map(f, s) + [f(x)];
  }

  lemma TakeTickets(s: Pool)
    requires s.queue != []
    ensures Tickets(Step(s, Take)) == Tickets(s)
  {
    AppendBag(TicketOf, s.running, s.queue[0]);
    MapRemove(TicketOf, s.queue, 0);
    assert s.queue[..0] + s.queue[1..] == s.queue[1..];
  }

  lemma RetryTickets(s: Pool, i: nat, again: Job)
    requires i < |s.running| && again.ticket == s.running[i].ticket
    ensures Tickets(s.(queue := Pushed(s.queue, again), running := Without(s.running, i), pushes := s.pushes + 1))
      == Tickets(s)
  {
    MapRemove(TicketOf, s.running, i);
    PushedBag(TicketOf, s.queue, again);
  }

  lemma ReportTickets(s: Pool, i: nat, r: Result)
    requires i < |s.running| && r.job.ticket == s.running[i].ticket
    ensures Tickets(s.(running := Without(s.running, i), results := s.results + [r])) == Tickets(s)
  {
    MapRemove(TicketOf, s.running, i);
    AppendBag(TicketOfResult, s.results, r);
  }

  /** A job goes back to the queue. */
  lemma RetriedIs(s: Pool, i: nat, handled: bool, failed: bool)
    requires i < |s.running| && Retried(s.running[i], handled, failed)
    ensures var job := s.running[i];
      var again := job.(attempts := job.attempts + 1, retries := job.retries + 1, stamp := s.pushes);
      Ended(s, i, handled, failed)
      == s.(queue := Pushed(s.queue, again), running := Without(s.running, i), pushes := s.pushes + 1)
  {}

  /** A job is reported. */
  lemma ReportedIs(s: Pool, i: nat, handled: bool, failed: bool)
    requires i < |s.running| && !Retried(s.running[i], handled, failed)
    ensures var job := s.running[i];
      var tried := if handled then job.(attempts := job.attempts + 1) else job;
      Ended(s, i, handled, failed)
      == s.(running := Without(s.running, i), results := s.results + [Outcome(tried, handled, failed)])
  {}

  lemma EndTickets(s: Pool, i: nat, handled: bool, failed: bool)
    requires i < |s.running|
    ensures Tickets(Ended(s, i, handled, failed)) == Tickets(s)
  {
    var job := s.running[i];
    var tried := if handled then job.(attempts := job.attempts + 1) else job;
    if Retried(job, handled, failed) {
      RetriedIs(s, i, handled, failed);
      RetryTickets(s, i, tried.(retries := job.retries + 1, stamp := s.pushes));
    } else {
      ReportedIs(s, i, handled, failed);
      ReportTickets(s, i, Outcome(tried, handled, failed));
    }
  }

  /** Only a submission adds a ticket, the next one. */
  lemma StepTickets(s: Pool, op: Op)
    requires Enabled(s, op)
    ensures Tickets(Step(s, op)) == Tickets(s) + if op.Submit? then multiset{s.submitted} else multiset{}
  {
    match op
    case Submit(job) => PushedBag(TicketOf, s.queue, Accepted(s, job));
    case Take => TakeTickets(s);
    case End(i, handled, failed) => EndTickets(s, i, handled, failed);
  }

  /** Each of the first n tickets once. */
  ghost function FirstTickets(n: nat): multiset<nat> {
    if n == 0 then multiset{} else FirstTickets(n - 1) + multiset{n - 1}
  }

  lemma {:induction false} TicketOnce(n: nat, t: nat)
    ensures FirstTickets(n)[t] == if t < n then 1 else 0
  {
    if n > 0 { TicketOnce(n - 1, t); }
  }

  // --- Runs ----------------------------------------------------------------------------------------

  ghost predicate Possible(s: Pool, ops: seq<Op>)
    decreases ops
  {
    ops == [] || (Enabled(s, ops[0]) && Possible(Step(s, ops[0]), ops[1..]))
  }

  ghost function Run(s: Pool, ops: seq<Op>): Pool
    requires Possible(s, ops)
    decreases ops
  {
    if ops == [] then s else Run(Step(s, ops[0]), ops[1..])
  }

  /** What was submitted, in order: ticket t is the t-th. */
  ghost function Submissions(s: Pool, ops: seq<Op>): seq<Job>
    requires Possible(s, ops)
    decreases ops
  {
    if ops == [] then []
    else Added(s, ops[0]) + Submissions(Step(s, ops[0]), ops[1..])
  }

  /** How many more times a job may be retried. */
  function Left(job: Job): nat {
    if job.retries < job.maxRetries then job.maxRetries - job.retries else 0
  }

  /** The retry limit of a submission: 3 unless it says otherwise. */
  function LimitOf(first: Job): int { if first.maxRetries == 0 then 3 else first.maxRetries }

  /** How often a submission may be retried. */
  function Allowed(first: Job): nat {
    if first.retries < LimitOf(first) then LimitOf(first) - first.retries else 0
  }

  /** A job that has not been reported: it went back once for each attempt. */
  ghost predicate Tracked(job: Job, subs: seq<Job>) {
    && job.ticket < |subs|
    && var first := subs[job.ticket];
    && job.kind == first.kind && job.priority == first.priority && job.maxRetries == LimitOf(first)
    && job.retries == first.retries + job.attempts
    && job.attempts <= Allowed(first)
  }

  /** A reported job ran at most once more than it could be retried: a success
      comes from a run and a failure of the handler from the very last run allowed;
      a missing handler ends a job that could still have run. */
  ghost predicate Reported(r: Result, subs: seq<Job>) {
    && r.job.ticket < |subs|
    && var first := subs[r.job.ticket];
    && r.job.kind == first.kind && r.job.priority == first.priority
    && (r.success <==> r.error == None)
    && match r.error
       case None => 1 <= r.job.attempts <= Allowed(first) + 1
       case Some(HandlerFailed) => r.job.attempts == Allowed(first) + 1
       case Some(NoHandler) => r.job.attempts <= Allowed(first)
  }

  ghost predicate AllTracked(s: Pool, subs: seq<Job>) {
    && (forall j :: j in s.queue ==> Tracked(j, subs))
    && (forall j :: j in s.running ==> Tracked(j, subs))
    && (forall r :: r in s.results ==> Reported(r, subs))
  }

  ghost predicate Sound(s: Pool, subs: seq<Job>) {
    && |subs| == s.submitted
    && Ordered(s)
    && Tickets(s) == FirstTickets(s.submitted)
    && AllTracked(s, subs)
  }

  lemma PushedMembers(queue: seq<Job>, job: Job, x: Job)
    ensures x in Pushed(queue, job) <==> x in queue || x == job
  {
    var p := Position(queue, job.priority);
    assert queue == queue[..p] + queue[p..];
  }

  lemma TrackedMore(s: Pool, subs: seq<Job>, more: seq<Job>)
    requires AllTracked(s, subs)
    ensures AllTracked(s, subs + more)
  {}

  ghost function Added(s: Pool, op: Op): seq<Job> {
    if op.Submit? then [op.job] else []
  }

  lemma StepTracked(s: Pool, op: Op, subs: seq<Job>)
    requires Enabled(s, op) && AllTracked(s, subs) && |subs| == s.submitted
    ensures AllTracked(Step(s, op), subs + Added(s, op))
  {
    var t := Step(s, op);
    TrackedMore(s, subs, Added(s, op));
    match op
    case Submit(job) =>
      forall j | j in t.queue ensures Tracked(j, subs + Added(s, op)) { PushedMembers(s.queue, Accepted(s, job), j); }
    case Take =>
      forall j | j in t.queue ensures j in s.queue {}
    case End(i, handled, failed) =>
      EndTracked(s, i, handled, failed, subs);
      assert subs + Added(s, op) == subs;
  }

  lemma EndTracked(s: Pool, i: nat, handled: bool, failed: bool, subs: seq<Job>)
    requires i < |s.running| && AllTracked(s, subs)
    ensures AllTracked(Ended(s, i, handled, failed), subs)
  {
    var t := Ended(s, i, handled, failed);
    var job := s.running[i];
    assert job in s.running;
    forall j | j in t.running ensures j in s.running {}
    if Retried(job, handled, failed) {
      var again := job.(attempts := job.attempts + 1, retries := job.retries + 1, stamp := s.pushes);
      forall j | j in t.queue ensures Tracked(j, subs) { PushedMembers(s.queue, again, j); }
    }
  }

  ghost predicate Ordered(s: Pool) { InOrder(s.queue) && StampedBelow(s.queue, s.pushes) }

  lemma TakeOrdered(s: Pool)
    requires s.queue != [] && Ordered(s)
    ensures Ordered(Step(s, Take))
  {
    forall i, j | 0 <= i < j < |s.queue| - 1 ensures Ahead(s.queue[1..][i], s.queue[1..][j]) {
      assert Ahead(s.queue[i + 1], s.queue[j + 1]);
    }
  }

  lemma EndOrdered(s: Pool, i: nat, handled: bool, failed: bool)
    requires i < |s.running| && Ordered(s)
    ensures Ordered(Ended(s, i, handled, failed))
  {
    var job := s.running[i];
    if Retried(job, handled, failed) {
      PushOrdered(s.queue, job.(attempts := job.attempts + 1, retries := job.retries + 1, stamp := s.pushes));
    }
  }

  lemma StepOrdered(s: Pool, op: Op)
    requires Enabled(s, op) && Ordered(s)
    ensures Ordered(Step(s, op))
  {
    match op
    case Submit(job) => PushOrdered(s.queue, Accepted(s, job));
    case Take => TakeOrdered(s);
    case End(i, handled, failed) => EndOrdered(s, i, handled, failed);
  }

  lemma StepSound(s: Pool, op: Op, subs: seq<Job>)
    requires Enabled(s, op) && Sound(s, subs)
    ensures Sound(Step(s, op), subs + Added(s, op))
  {
    StepOrdered(s, op);
    StepTickets(s, op);
    StepTracked(s, op, subs);
    assert Tickets(s) + multiset{} == Tickets(s);
  }

  lemma {:induction false} RunSound(s: Pool, ops: seq<Op>, subs: seq<Job>, all: seq<Job>)
    requires Possible(s, ops) && Sound(s, subs) && all == subs + Submissions(s, ops)
    ensures Sound(Run(s, ops), all)
    decreases ops
  {
    if ops == [] {
      assert all == subs;
    } else {
      var next, more := Step(s, ops[0]), Added(s, ops[0]);
      Associate(subs, more, Submissions(next, ops[1..]));
      StepSound(s, ops[0], subs);
      RunSound(next, ops[1..], subs + more, all);
    }
  }

  lemma EmptySound()
    ensures Sound(EMPTY, [])
  {
    var noJobs: seq<Job>, noResults: seq<Result> := [], [];
    assert Map(TicketOf, noJobs) == [] && Map(TicketOfResult, noResults) == [];
    assert Tickets(EMPTY) == multiset{};
  }

  /** Main result: in every run from an empty pool the queue is in order, every
      submitted job is in exactly one place, and no job runs more often than its
      retries allow. */
  lemma PoolConserves(ops: seq<Op>)
    requires Possible(EMPTY, ops)
    ensures Sound(Run(EMPTY, ops), Submissions(EMPTY, ops))
  {
    EmptySound();
    RunSound(EMPTY, ops, [], Submissions(EMPTY, ops));
  }

  /** Whatever a worker takes is ahead of all that waits. */
  lemma TakesTheFirst(ops: seq<Op>, j: Job)
    requires Possible(EMPTY, ops) && Run(EMPTY, ops).queue != [] && j in Run(EMPTY, ops).queue[1..]
    ensures Ahead(Run(EMPTY, ops).queue[0], j)
  {
    PoolConserves(ops);
    var q := Run(EMPTY, ops).queue;
    var i :| 0 <= i < |q[1..]| && q[1..][i] == j;
    assert Ahead(q[0], q[i + 1]);
  }

  // --- What the handlers did decides ------------------------------------------------------------------

  /** One end of a run: whether a handler was there, and whether it failed. */
  datatype Try = Try(ticket: nat, handled: bool, failed: bool)

  ghost function TryOf(s: Pool, op: Op): seq<Try>
    requires Enabled(s, op)
  {
    if op.End? then [Try(s.running[op.i].ticket, op.handled, op.failed)] else []
  }

  ghost function Tries(s: Pool, ops: seq<Op>): seq<Try>
    requires Possible(s, ops)
    decreases ops
  {
    if ops == [] then [] else TryOf(s, ops[0]) + Tries(Step(s, ops[0]), ops[1..])
  }

  function HasTicket(ticket: nat): Try -> bool { (t: Try) => t.ticket == ticket }

  /** The tries of one job, in order. */
  function TriesOf(tries: seq<Try>, ticket: nat): seq<Try> { Filter(HasTicket(ticket), tries) }

  ghost predicate AllFailed(tries: seq<Try>) {
    forall i :: 0 <= i < |tries| ==> tries[i].handled && tries[i].failed
  }

  /** A job that still waits or runs has only failed so far, once for each attempt. */
  ghost predicate Unfinished(job: Job, own: seq<Try>) {
    AllFailed(own) && |own| == job.attempts
  }

  /** The last try decides, and every earlier one failed. */
  ghost predicate Finished(r: Result, own: seq<Try>) {
    own != [] && AllFailed(own[..|own| - 1]) &&
    var last := own[|own| - 1];
    && (r.success <==> last.handled && !last.failed)
    && (r.error == Some(NoHandler) <==> !last.handled)
    && (r.error == Some(HandlerFailed) <==> last.handled && last.failed)
    && r.job.attempts == |own| - if last.handled then 0 else 1
  }

  ghost predicate JobsUnfinished(jobs: seq<Job>, tries: seq<Try>) {
    forall j :: j in jobs ==> Unfinished(j, TriesOf(tries, j.ticket))
  }

  ghost predicate ResultsFinished(results: seq<Result>, tries: seq<Try>) {
    forall r :: r in results ==> Finished(r, TriesOf(tries, r.job.ticket))
  }

  ghost predicate Decided(s: Pool, tries: seq<Try>) {
    && (forall t :: t in tries ==> t.ticket < s.submitted)
    && JobsUnfinished(s.queue, tries) && JobsUnfinished(s.running, tries) && ResultsFinished(s.results, tries)
  }

  lemma MapMember<A, T>(f: A -> T, s: seq<A>, x: A)
    requires x in s
    ensures multiset(Map(f, s))[f(x)] >= 1
  {
    var i :| 0 <= i < |s| && s[i] == x;
    assert Map(f, s)[i] == f(x);
    assert f(x) in Map(f, s);
  }

  /** No other job and no result has the ticket of a running job. */
  lemma OthersDiffer(s: Pool, i: nat)
    requires Tickets(s) == FirstTickets(s.submitted) && i < |s.running|
    ensures forall j :: j in s.queue || j in Without(s.running, i) ==> j.ticket != s.running[i].ticket
    ensures forall r :: r in s.results ==> r.job.ticket != s.running[i].ticket
  {
    var t := s.running[i].ticket;
    MapRemove(TicketOf, s.running, i);
    TicketOnce(s.submitted, t);
    forall j | j in s.queue ensures j.ticket != t { MapMember(TicketOf, s.queue, j); }
    forall j | j in Without(s.running, i) ensures j.ticket != t { MapMember(TicketOf, Without(s.running, i), j); }
    forall r | r in s.results ensures r.job.ticket != t { MapMember(TicketOfResult, s.results, r); }
  }

  lemma TriesNext(tries: seq<Try>, last: Try, ticket: nat)
    ensures TriesOf(tries + [last], ticket) == TriesOf(tries, ticket) + if last.ticket == ticket then [last] else []
  {
    FilterSnoc(HasTicket(ticket), tries, last);
  }

  /** The job that ends, after one more try. */
  lemma EndDecides(job: Job, own: seq<Try>, last: Try)
    requires Unfinished(job, own)
    ensures var tried := if last.handled then job.(attempts := job.attempts + 1) else job;
      if Retried(job, last.handled, last.failed)
      then forall again: Job :: again.attempts == tried.attempts ==> Unfinished(again, own + [last])
      else Finished(Outcome(tried, last.handled, last.failed), own + [last])
  {
    assert (own + [last])[..|own|] == own;
  }

  /** A try of another job changes nothing. */
  lemma OthersKept(jobs: seq<Job>, results: seq<Result>, tries: seq<Try>, last: Try)
    requires JobsUnfinished(jobs, tries) && ResultsFinished(results, tries)
    requires forall j :: j in jobs ==> j.ticket != last.ticket
    requires forall r :: r in results ==> r.job.ticket != last.ticket
    ensures JobsUnfinished(jobs, tries + [last]) && ResultsFinished(results, tries + [last])
  {
    forall j | j in jobs ensures Unfinished(j, TriesOf(tries + [last], j.ticket)) { TriesNext(tries, last, j.ticket); }
    forall r | r in results ensures Finished(r, TriesOf(tries + [last], r.job.ticket)) {
      TriesNext(tries, last, r.job.ticket);
    }
  }

  lemma EndDecided(s: Pool, i: nat, handled: bool, failed: bool, tries: seq<Try>)
    requires i < |s.running| && Decided(s, tries) && Tickets(s) == FirstTickets(s.submitted)
    requires s.running[i].ticket < s.submitted
    ensures Decided(Ended(s, i, handled, failed), tries + [Try(s.running[i].ticket, handled, failed)])
  {
    var job := s.running[i];
    var last := Try(job.ticket, handled, failed);
    var rest := Without(s.running, i);
    assert job in s.running && forall j :: j in rest ==> j in s.running;
    OthersDiffer(s, i);
    OthersKept(s.queue, s.results, tries, last);
    OthersKept(rest, s.results, tries, last);
    TriesNext(tries, last, job.ticket);
    EndDecides(job, TriesOf(tries, job.ticket), last);
    if Retried(job, handled, failed) {
      var again := job.(attempts := job.attempts + 1, retries := job.retries + 1, stamp := s.pushes);
      PushedUnfinished(s.queue, again, tries + [last]);
    } else {
      var tried := if handled then job.(attempts := job.attempts + 1) else job;
      ReportFinished(s.results, Outcome(tried, handled, failed), tries + [last]);
    }
  }

  lemma PushedUnfinished(queue: seq<Job>, job: Job, tries: seq<Try>)
    requires JobsUnfinished(queue, tries) && Unfinished(job, TriesOf(tries, job.ticket))
    ensures JobsUnfinished(Pushed(queue, job), tries)
  {
    forall j | j in Pushed(queue, job) ensures Unfinished(j, TriesOf(tries, j.ticket)) { PushedMembers(queue, job, j); }
  }

  lemma ReportFinished(results: seq<Result>, r: Result, tries: seq<Try>)
    requires ResultsFinished(results, tries) && Finished(r, TriesOf(tries, r.job.ticket))
    ensures ResultsFinished(results + [r], tries)
  {}

  lemma SubmitDecided(s: Pool, job: Job, tries: seq<Try>)
    requires Decided(s, tries)
    ensures Decided(Step(s, Submit(job)), tries)
  {
    FilterNone(HasTicket(s.submitted), tries);
    PushedUnfinished(s.queue, Accepted(s, job), tries);
  }

  lemma StepDecided(s: Pool, op: Op, tries: seq<Try>)
    requires Enabled(s, op) && Decided(s, tries) && Tickets(s) == FirstTickets(s.submitted)
    ensures Decided(Step(s, op), tries + TryOf(s, op))
  {
    match op
    case Submit(job) =>
      assert tries + TryOf(s, op) == tries;
      SubmitDecided(s, job, tries);
    case Take =>
      assert tries + TryOf(s, op) == tries;
    case End(i, handled, failed) =>
      RunningTicket(s, i);
      EndDecided(s, i, handled, failed, tries);
  }

  lemma RunningTicket(s: Pool, i: nat)
    requires Tickets(s) == FirstTickets(s.submitted) && i < |s.running|
    ensures s.running[i].ticket < s.submitted
  {
    MapMember(TicketOf, s.running, s.running[i]);
    TicketOnce(s.submitted, s.running[i].ticket);
  }

  lemma {:induction false} RunDecided(s: Pool, ops: seq<Op>, subs: seq<Job>, tries: seq<Try>, all: seq<Try>)
    requires Possible(s, ops) && Sound(s, subs) && Decided(s, tries) && all == tries + Tries(s, ops)
    ensures Decided(Run(s, ops), all)
    decreases ops
  {
    if ops == [] {
      assert all == tries;
    } else {
      var next, more := Step(s, ops[0]), TryOf(s, ops[0]);
      Associate(tries, more, Tries(next, ops[1..]));
      StepSound(s, ops[0], subs);
      StepDecided(s, ops[0], tries);
      RunDecided(next, ops[1..], subs + Added(s, ops[0]), tries + more, all);
    }
  }

  /** Main result: in every run a job is reported as its last try ended, a success
      exactly when its handler did not fail; every earlier try of it failed, and a job
      that was not reported has only failed.  By PoolConserves a failure of the
      handler is reported only when no retry is left. */
  lemma LastTryDecides(ops: seq<Op>)
    requires Possible(EMPTY, ops)
    ensures Decided(Run(EMPTY, ops), Tries(EMPTY, ops))
  {
    EmptySound();
    var tries := Tries(EMPTY, ops);
    assert [] + tries == tries;
    RunDecided(EMPTY, ops, [], [], tries);
  }

  // --- Draining ends ----------------------------------------------------------------------------------

  /** Steps a job still needs at most, waiting or running. */
  function Weight(job: Job, base: nat): nat { 2 * Left(job) + base }

  ghost function Weights(jobs: seq<Job>, base: nat): nat {
    if jobs == [] then 0 else Weights(jobs[..|jobs| - 1], base) + Weight(jobs[|jobs| - 1], base)
  }

  ghost function Work(s: Pool): nat {
    Weights(s.queue, 2) + Weights(s.running, 1)
  }

  lemma {:induction false} WeightsAppend(a: seq<Job>, b: seq<Job>, base: nat)
    ensures Weights(a + b, base) == Weights(a, base) + Weights(b, base)
  {
    if b == [] {
      assert a + b == a;
    } else {
      assert (a + b)[..|a + b| - 1] == a + b[..|b| - 1];
      WeightsAppend(a, b[..|b| - 1], base);
    }
  }

  lemma WeightsOne(job: Job, base: nat)
    ensures Weights([job], base) == Weight(job, base)
  {
    assert [job][..0] == [];
  }

  lemma WeightsPushed(queue: seq<Job>, job: Job, base: nat)
    ensures Weights(Pushed(queue, job), base) == Weights(queue, base) + Weight(job, base)
  {
    var p := Position(queue, job.priority);
    assert queue == queue[..p] + queue[p..];
    WeightsAppend(queue[..p], queue[p..], base);
    WeightsAppend(queue[..p] + [job], queue[p..], base);
    WeightsAppend(queue[..p], [job], base);
    WeightsOne(job, base);
  }

  lemma WeightsWithout(jobs: seq<Job>, i: nat, base: nat)
    requires i < |jobs|
    ensures Weights(jobs, base) == Weights(Without(jobs, i), base) + Weight(jobs[i], base)
  {
    assert jobs == jobs[..i] + [jobs[i]] + jobs[i + 1..];
    WeightsAppend(jobs[..i] + [jobs[i]], jobs[i + 1..], base);
    WeightsAppend(jobs[..i], [jobs[i]], base);
    WeightsAppend(jobs[..i], jobs[i + 1..], base);
    WeightsOne(jobs[i], base);
  }

  /** Every step but a submission uses up work. */
  lemma StepWorks(s: Pool, op: Op)
    requires Enabled(s, op) && !op.Submit?
    ensures Work(Step(s, op)) < Work(s)
  {
    match op
    case Take =>
      WeightsWithout(s.queue, 0, 2);
      assert Without(s.queue, 0) == s.queue[1..];
      WeightsAppend(s.running, [s.queue[0]], 1);
      WeightsOne(s.queue[0], 1);
    case End(i, handled, failed) =>
      var job := s.running[i];
      WeightsWithout(s.running, i, 1);
      if Retried(job, handled, failed) {
        WeightsPushed(s.queue, job.(attempts := job.attempts + 1, retries := job.retries + 1, stamp := s.pushes), 2);
      }
  }

  ghost predicate Draining(ops: seq<Op>) { forall i :: 0 <= i < |ops| ==> !ops[i].Submit? }

  /** Without submissions a pool makes only so many steps. */
  lemma {:induction false} DrainEnds(s: Pool, ops: seq<Op>)
    requires Possible(s, ops) && Draining(ops)
    ensures |ops| + Work(Run(s, ops)) <= Work(s)
    decreases ops
  {
    if ops != [] {
      StepWorks(s, ops[0]);
      DrainEnds(Step(s, ops[0]), ops[1..]);
    }
  }

  /** Some step other than a submission is possible until all is reported. */
  lemma SomeStep(s: Pool)
    ensures (exists op :: Enabled(s, op) && !op.Submit?) <==> s.queue != [] || s.running != []
  {
    assert s.queue != [] ==> Enabled(s, Take) && !Take.Submit?;
    assert s.running != [] ==> Enabled(s, End(0, true, true)) && !End(0, true, true).Submit?;
  }

  /** When no step but a submission is left, each submission has its one result. */
  lemma DrainedReported(ops: seq<Op>, t: nat)
    requires Possible(EMPTY, ops)
    requires !exists op :: Enabled(Run(EMPTY, ops), op) && !op.Submit?
    ensures ReportedTickets(Run(EMPTY, ops))[t] == if t < |Submissions(EMPTY, ops)| then 1 else 0
  {
    PoolConserves(ops);
    var s := Run(EMPTY, ops);
    SomeStep(s);
    assert Map(TicketOf, s.queue) == [] && Map(TicketOf, s.running) == [];
    assert ReportedTickets(s) == FirstTickets(s.submitted);
    TicketOnce(s.submitted, t);
  }
}
