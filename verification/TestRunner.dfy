/** The parallel test runner (test.py:570-575, 987-1055, 1427-1483, 1697-1721, 1858-1859,
    1942-1945) as a transition system: the main thread dispatches the jobs and one
    break job per worker, collects the results and joins the workers, while the workers
    and the interrupt handler take their steps at any time in between. */
module TestRunner {
  import opened Options
  import opened TestSummary

  // ---------------------------------------------------------------- data model

  /** What a run is given: the jobs to dispatch, the number of worker threads, and the
      return code that each job would produce if it were executed. */
  datatype Config = Config(work: seq<Job>, workers: nat, outcomes: seq<int>)
  {
    ghost predicate Valid() {
      && |outcomes| == |work|
      && forall i | 0 <= i < |work| :: work[i].id == i && !work[i].isBreak
    }
  }

  /** Where the main thread is. */
  datatype Main =
    | Dispatch(next: nat)
    | Shutdown(sent: nat)
    | Collect(got: nat)
    | Join(joined: nat)
    | Returned

  datatype Worker =
    | Waiting
    | Fetched(job: Job)
    | Running(job: Job)
    | Delivering(job: Job)
    | Exited

  /** `collected` remembers what was taken off the output queue so far. */
  datatype State = State(
    main: Main,
    input: seq<Job>,
    workers: seq<Worker>,
    output: seq<Job>,
    threadExit: bool,
    collected: seq<Job>,
    summary: Summary)

  datatype Action = MainStep | WorkerStep(index: nat) | Interrupt

  function BreakJob(id: nat): Job {
    Job(id, "", false, "", 0, true)
  }

  function Init(c: Config): State {
    State(Dispatch(0), [], seq(c.workers, _ => Waiting), [], false, [], EMPTY)
  }

  // ---------------------------------------------------------------- transitions

  /** The main thread blocks on an empty output queue and on a live worker. */
  function MainNext(c: Config, s: State): Option<State> {
    match s.main
    case Dispatch(k) =>
      if k < |c.work| then Some(s.(input := s.input + [c.work[k]], main := Dispatch(k + 1)))
      else Some(s.(main := Shutdown(0)))
    case Shutdown(k) =>
      if k < c.workers then Some(s.(input := s.input + [BreakJob(|c.work| + k)], main := Shutdown(k + 1)))
      else Some(s.(main := Collect(0)))
    case Collect(k) =>
      if k >= |c.work| then Some(s.(main := Join(0)))
      else if s.output == [] then None
      else Some(s.(output := s.output[1..], main := Collect(k + 1),
                   collected := s.collected + [s.output[0]],
                   summary := Record(s.summary, s.output[0])))
    case Join(k) =>
      if k >= |s.workers| then Some(s.(main := Returned))
      else if s.workers[k].Exited? then Some(s.(main := Join(k + 1)))
      else None
    case Returned => None
  }

  /** One step of `worker_thread.run`. A worker blocks on an empty input queue. */
  function WorkerNext(c: Config, s: State, i: nat): Option<State>
    requires i < |s.workers|
  {
    match s.workers[i]
    case Waiting =>
      if s.input == [] then None else
      var job := s.input[0];
      Some(s.(input := s.input[1..], workers := s.workers[i := if job.isBreak then Exited else Fetched(job)]))
    case Fetched(job) =>
      Some(s.(workers := s.workers[i :=
        if s.threadExit then Delivering(job.(isBreak := true))
        else if job.isSkip then Delivering(job)
        else Running(job)]))
    case Running(job) =>
      if job.id >= |c.outcomes| then None else
      Some(s.(workers := s.workers[i := Delivering(job.(returncode := c.outcomes[job.id]))]))
    case Delivering(job) =>
      Some(s.(output := s.output + [job], workers := s.workers[i := Waiting]))
    case Exited => None
  }

  function Next(c: Config, s: State, a: Action): Option<State> {
    match a
    case MainStep => MainNext(c, s)
    case WorkerStep(i) => if i < |s.workers| then WorkerNext(c, s, i) else None
    case Interrupt => if s.threadExit then None else Some(s.(threadExit := true))
  }

  /** The state after a schedule, if every action of it was enabled when its turn came. */
  function After(c: Config, schedule: seq<Action>): Option<State> {
    if schedule == [] then Some(Init(c))
    else match After(c, schedule[..|schedule| - 1])
      case None => None
      case Some(s) => Next(c, s, schedule[|schedule| - 1])
  }

  // ---------------------------------------------------------------- invariant: the input queue

  /** Everything the main thread ever puts on the input queue, in order. */
  ghost function Feed(c: Config): seq<Job> {
    c.work + seq(c.workers, (k: nat) => BreakJob(|c.work| + k))
  }

  ghost function Put(c: Config, s: State): int {
    match s.main
    case Dispatch(k) => k
    case Shutdown(k) => |c.work| + k
    case _ => |c.work| + c.workers
  }

  ghost function Taken(c: Config, s: State): int {
    Put(c, s) - |s.input|
  }

  ghost predicate QueueInv(c: Config, s: State) {
    && 0 <= Taken(c, s) <= Put(c, s) <= |Feed(c)|
    && s.input == Feed(c)[Taken(c, s)..Put(c, s)]
  }

  // ---------------------------------------------------------------- invariant: who has which job

  predicate Holds(w: Worker, id: nat) {
    (w.Fetched? || w.Running? || w.Delivering?) && w.job.id == id
  }

  predicate Busy(w: Worker) {
    w.Fetched? || w.Running? || w.Delivering?
  }

  ghost function Holders(ws: seq<Worker>, id: nat): nat {
    if ws == [] then 0 else Holders(ws[..|ws| - 1], id) + if Holds(ws[|ws| - 1], id) then 1 else 0
  }

  ghost function BusyCount(ws: seq<Worker>): nat {
    if ws == [] then 0 else BusyCount(ws[..|ws| - 1]) + if Busy(ws[|ws| - 1]) then 1 else 0
  }

  ghost function ExitedCount(ws: seq<Worker>): nat {
    if ws == [] then 0 else ExitedCount(ws[..|ws| - 1]) + if ws[|ws| - 1].Exited? then 1 else 0
  }

  /** How often the job with identity `id` occurs. */
  ghost function Occurrences(jobs: seq<Job>, id: nat): nat {
    if jobs == [] then 0 else Occurrences(jobs[..|jobs| - 1], id) + if jobs[|jobs| - 1].id == id then 1 else 0
  }

  ghost function JobsTaken(c: Config, s: State): int {
    if Taken(c, s) < |c.work| then Taken(c, s) else |c.work|
  }

  /** A job that left the input queue is at exactly one place further on. */
  ghost predicate PlaceOf(c: Config, s: State, id: nat) {
    Holders(s.workers, id) + Occurrences(s.output, id) + Occurrences(s.collected, id)
    == if id < JobsTaken(c, s) then 1 else 0
  }

  /** Nothing is lost or made up, and each break job that left the input queue has
      ended exactly one worker. */
  ghost predicate CountInv(c: Config, s: State) {
    && BusyCount(s.workers) + |s.output| + |s.collected| == JobsTaken(c, s)
    && ExitedCount(s.workers) == Taken(c, s) - JobsTaken(c, s)
  }

  // ---------------------------------------------------------------- invariant: job contents

  /** What a job looks like when it is given back without an interrupt. */
  ghost function Finished(c: Config, id: nat): Job
    requires c.Valid() && id < |c.work|
  {
    if c.work[id].isSkip then c.work[id] else c.work[id].(returncode := c.outcomes[id])
  }

  ghost predicate IsResult(c: Config, job: Job, threadExit: bool)
    requires c.Valid()
  {
    && job.id < |c.work|
    && (job == Finished(c, job.id) || (threadExit && job == c.work[job.id].(isBreak := true)))
  }

  ghost predicate WorkerOk(c: Config, w: Worker, threadExit: bool)
    requires c.Valid()
  {
    match w
    case Fetched(job) => job.id < |c.work| && job == c.work[job.id]
    case Running(job) => job.id < |c.work| && job == c.work[job.id] && !job.isSkip
    case Delivering(job) => IsResult(c, job, threadExit)
    case _ => true
  }

  ghost predicate ContentInv(c: Config, s: State)
    requires c.Valid()
  {
    && (forall w | w in s.workers :: WorkerOk(c, w, s.threadExit))
    && (forall job | job in s.output :: IsResult(c, job, s.threadExit))
    && (forall job | job in s.collected :: IsResult(c, job, s.threadExit))
  }

  // ---------------------------------------------------------------- invariant: the main thread

  ghost predicate MainInv(c: Config, s: State) {
    && |s.workers| == c.workers
    && s.summary == Tally(s.collected)
    && match s.main
       case Dispatch(k) => k <= |c.work| && s.collected == []
       case Shutdown(k) => k <= c.workers && s.collected == []
       case Collect(k) => k <= |c.work| && |s.collected| == k
       case Join(k) => k <= c.workers && |s.collected| == |c.work| && forall i | 0 <= i < k :: s.workers[i].Exited?
       case Returned => |s.collected| == |c.work| && forall i | 0 <= i < c.workers :: s.workers[i].Exited?
  }

  ghost predicate Inv(c: Config, s: State) {
    && c.Valid() && MainInv(c, s) && QueueInv(c, s) && CountInv(c, s) && ContentInv(c, s)
    && forall id :: PlaceOf(c, s, id)
  }

  // ---------------------------------------------------------------- counting lemmas

  lemma {:induction false} WorkersUpdate(ws: seq<Worker>, i: nat, w: Worker, id: nat)
    requires i < |ws|
    ensures Holders(ws[i := w], id) + (if Holds(ws[i], id) then 1 else 0) ==
            Holders(ws, id) + if Holds(w, id) then 1 else 0
    ensures BusyCount(ws[i := w]) + (if Busy(ws[i]) then 1 else 0) == BusyCount(ws) + if Busy(w) then 1 else 0
    ensures ExitedCount(ws[i := w]) + (if ws[i].Exited? then 1 else 0) == ExitedCount(ws) + if w.Exited? then 1 else 0
  {
    var front := ws[..|ws| - 1];
    if i < |front| {
      WorkersUpdate(front, i, w, id);
      assert ws[i := w][..|ws| - 1] == front[i := w];
    } else {
      assert ws[i := w][..|ws| - 1] == front;
    }
  }

  lemma {:induction false} AllWaiting(n: nat, id: nat)
    ensures var ws := seq(n, _ => Waiting); Holders(ws, id) == 0 && BusyCount(ws) == 0 && ExitedCount(ws) == 0
  {
    if n > 0 {
      AllWaiting(n - 1, id);
      assert seq(n, _ => Waiting)[..n - 1] == seq(n - 1, _ => Waiting);
    }
  }

  lemma OccurrencesSnoc(jobs: seq<Job>, job: Job, id: nat)
    ensures Occurrences(jobs + [job], id) == Occurrences(jobs, id) + if job.id == id then 1 else 0
  {
    assert (jobs + [job])[..|jobs|] == jobs;
  }

  lemma {:induction false} OccurrencesCons(jobs: seq<Job>, id: nat)
    requires jobs != []
    ensures Occurrences(jobs, id) == Occurrences(jobs[1..], id) + if jobs[0].id == id then 1 else 0
  {
    if |jobs| > 1 {
      OccurrencesCons(jobs[..|jobs| - 1], id);
      assert jobs[..|jobs| - 1][1..] == jobs[1..][..|jobs| - 2];
    }
  }

  /** The counts tell whether any worker is busy and whether all have exited. */
  lemma {:induction false} CountsTell(ws: seq<Worker>)
    ensures BusyCount(ws) + ExitedCount(ws) <= |ws|
    ensures BusyCount(ws) == 0 <==> forall w | w in ws :: !Busy(w)
    ensures ExitedCount(ws) == |ws| <==> forall w | w in ws :: w.Exited?
    ensures ExitedCount(ws) == 0 <==> forall w | w in ws :: !w.Exited?
  {
    if ws != [] {
      var front, last := ws[..|ws| - 1], ws[|ws| - 1];
      CountsTell(front);
      assert forall w :: w in ws <==> w in front || w == last;
    }
  }

  // ---------------------------------------------------------------- the invariant holds always

  lemma InitInv(c: Config)
    requires c.Valid()
    ensures Inv(c, Init(c))
  {
    forall id
      ensures PlaceOf(c, Init(c), id)
    {
      AllWaiting(c.workers, id);
    }
    AllWaiting(c.workers, 0);
  }

  lemma MainStepKeepsMain(c: Config, s: State, s': State)
    requires MainInv(c, s) && MainNext(c, s) == Some(s')
    ensures MainInv(c, s')
  {
    if s.main.Collect? && s.main.got < |c.work| {
      assert s'.collected[..|s.collected|] == s.collected;
    }
  }

  lemma MainStepKeepsQueue(c: Config, s: State, s': State)
    requires MainInv(c, s) && QueueInv(c, s) && MainNext(c, s) == Some(s')
    ensures QueueInv(c, s') && Taken(c, s') == Taken(c, s)
  {
    var t, p := Taken(c, s), Put(c, s);
    if s'.input != s.input {
      assert s'.input == s.input + [Feed(c)[p]];
      assert Feed(c)[t..p + 1] == Feed(c)[t..p] + [Feed(c)[p]];
    }
  }

  lemma MainStepKeepsPlace(c: Config, s: State, s': State, id: nat)
    requires MainInv(c, s) && QueueInv(c, s) && MainNext(c, s) == Some(s')
    requires CountInv(c, s) && PlaceOf(c, s, id)
    ensures CountInv(c, s') && PlaceOf(c, s', id)
  {
    MainStepKeepsQueue(c, s, s');
    if s.main.Collect? && s.main.got < |c.work| {
      OccurrencesCons(s.output, id);
      OccurrencesSnoc(s.collected, s.output[0], id);
    }
  }

  lemma MainStepKeepsContent(c: Config, s: State, s': State)
    requires c.Valid() && ContentInv(c, s) && MainNext(c, s) == Some(s')
    ensures ContentInv(c, s')
  {
  }

  /** The input queue holds jobs first and break jobs last. */
  lemma HeadOfInput(c: Config, s: State)
    requires c.Valid() && QueueInv(c, s) && s.input != []
    ensures Taken(c, s) < |c.work| ==>
              s.input[0] == c.work[Taken(c, s)] && !s.input[0].isBreak && s.input[0].id == Taken(c, s)
    ensures Taken(c, s) >= |c.work| ==> s.input[0].isBreak
  {
    var t := Taken(c, s);
    assert s.input[0] == Feed(c)[t];
    if t >= |c.work| {
      assert Feed(c)[t] == BreakJob(|c.work| + (t - |c.work|));
    }
  }

  lemma WorkerStepKeepsQueue(c: Config, s: State, s': State, i: nat)
    requires QueueInv(c, s) && i < |s.workers| && WorkerNext(c, s, i) == Some(s')
    ensures QueueInv(c, s') && Taken(c, s') == Taken(c, s) + if s.workers[i].Waiting? then 1 else 0
  {
  }

  lemma WorkerStepKeepsPlace(c: Config, s: State, s': State, i: nat, id: nat)
    requires c.Valid() && QueueInv(c, s) && i < |s.workers| && WorkerNext(c, s, i) == Some(s')
    requires CountInv(c, s) && PlaceOf(c, s, id)
    ensures CountInv(c, s') && PlaceOf(c, s', id)
  {
    WorkerStepKeepsQueue(c, s, s', i);
    WorkersUpdate(s.workers, i, s'.workers[i], id);
    if s.workers[i].Waiting? {
      HeadOfInput(c, s);
    }
    if s.workers[i].Delivering? {
      OccurrencesSnoc(s.output, s.workers[i].job, id);
    }
  }

  lemma WorkerStepKeepsContent(c: Config, s: State, s': State, i: nat)
    requires c.Valid() && QueueInv(c, s) && ContentInv(c, s)
    requires i < |s.workers| && WorkerNext(c, s, i) == Some(s')
    ensures ContentInv(c, s')
  {
    assert s.workers[i] in s.workers;
    if s.workers[i].Waiting? {
      HeadOfInput(c, s);
    }
    assert WorkerOk(c, s'.workers[i], s'.threadExit);
  }

  lemma WorkerStepKeepsMain(c: Config, s: State, s': State, i: nat)
    requires MainInv(c, s) && i < |s.workers| && WorkerNext(c, s, i) == Some(s')
    ensures MainInv(c, s')
  {
  }

  lemma MainStepInv(c: Config, s: State, s': State)
    requires Inv(c, s) && MainNext(c, s) == Some(s')
    ensures Inv(c, s')
  {
    MainStepKeepsMain(c, s, s');
    MainStepKeepsQueue(c, s, s');
    MainStepKeepsContent(c, s, s');
    assert PlaceOf(c, s, 0);
    MainStepKeepsPlace(c, s, s', 0);
    forall id
      ensures PlaceOf(c, s', id)
    {
      assert PlaceOf(c, s, id);
      MainStepKeepsPlace(c, s, s', id);
    }
  }

  lemma WorkerStepInv(c: Config, s: State, s': State, i: nat)
    requires Inv(c, s) && i < |s.workers| && WorkerNext(c, s, i) == Some(s')
    ensures Inv(c, s')
  {
    WorkerStepKeepsMain(c, s, s', i);
    WorkerStepKeepsQueue(c, s, s', i);
    WorkerStepKeepsContent(c, s, s', i);
    assert PlaceOf(c, s, 0);
    WorkerStepKeepsPlace(c, s, s', i, 0);
    forall id
      ensures PlaceOf(c, s', id)
    {
      assert PlaceOf(c, s, id);
      WorkerStepKeepsPlace(c, s, s', i, id);
    }
  }

  lemma InterruptInv(c: Config, s: State)
    requires Inv(c, s)
    ensures Inv(c, s.(threadExit := true))
  {
    var s' := s.(threadExit := true);
    forall id
      ensures PlaceOf(c, s', id)
    {
      assert PlaceOf(c, s, id);
    }
  }

  /** Every step of any thread keeps the invariant. */
  lemma StepInv(c: Config, s: State, a: Action, s': State)
    requires Inv(c, s) && Next(c, s, a) == Some(s')
    ensures Inv(c, s')
  {
    match a
    case MainStep => MainStepInv(c, s, s');
    case WorkerStep(i) => WorkerStepInv(c, s, s', i);
    case Interrupt => InterruptInv(c, s);
  }

  lemma {:induction false} AlwaysInv(c: Config, schedule: seq<Action>)
    requires c.Valid() && After(c, schedule).Some?
    ensures Inv(c, After(c, schedule).value)
  {
    if schedule == [] {
      InitInv(c);
    } else {
      var front := schedule[..|schedule| - 1];
      AlwaysInv(c, front);
      StepInv(c, After(c, front).value, schedule[|schedule| - 1], After(c, schedule).value);
    }
  }

  // ---------------------------------------------------------------- progress

  predicate Enabled(c: Config, s: State, a: Action) {
    Next(c, s, a).Some?
  }

  lemma BusyWorkerCanStep(c: Config, s: State, i: nat)
    requires Inv(c, s) && i < |s.workers| && Busy(s.workers[i])
    ensures Enabled(c, s, WorkerStep(i))
  {
    assert s.workers[i] in s.workers;
    assert WorkerOk(c, s.workers[i], s.threadExit);
  }

  /** While the main thread waits for a result, some worker can go on. */
  lemma CollectNotStuck(c: Config, s: State)
    requires Inv(c, s) && c.workers > 0
    requires s.main.Collect? && s.main.got < |c.work| && s.output == []
    ensures exists i: nat :: Enabled(c, s, WorkerStep(i))
  {
    CountsTell(s.workers);
    if BusyCount(s.workers) > 0 {
      var w :| w in s.workers && Busy(w);
      var i :| 0 <= i < |s.workers| && s.workers[i] == w;
      BusyWorkerCanStep(c, s, i);
    } else {
      assert s.workers[0] in s.workers;
      assert Taken(c, s) < |c.work| && s.input != [];
      assert Enabled(c, s, WorkerStep(0));
    }
  }

  /** While the main thread waits for a worker to end, that worker can go on. */
  lemma JoinNotStuck(c: Config, s: State)
    requires Inv(c, s)
    requires s.main.Join? && s.main.joined < c.workers && !s.workers[s.main.joined].Exited?
    ensures Enabled(c, s, WorkerStep(s.main.joined))
  {
    var i := s.main.joined;
    CountsTell(s.workers);
    if Busy(s.workers[i]) {
      BusyWorkerCanStep(c, s, i);
    } else {
      assert s.workers[i] in s.workers;
      assert s.input != [];
    }
  }

  lemma SomeStepEnabled(c: Config, s: State)
    requires Inv(c, s) && (c.workers > 0 || c.work == []) && s.main != Returned
    ensures exists a :: a != Interrupt && Enabled(c, s, a)
  {
    if Enabled(c, s, MainStep) {
      assert MainStep != Interrupt;
    } else if s.main.Collect? {
      CollectNotStuck(c, s);
      var i: nat :| Enabled(c, s, WorkerStep(i));
      assert WorkerStep(i) != Interrupt;
    } else {
      JoinNotStuck(c, s);
      assert WorkerStep(s.main.joined) != Interrupt;
    }
  }

  /** No deadlock: until the main thread returns, some thread can take a step. */
  lemma NoDeadlock(c: Config, schedule: seq<Action>)
    requires c.Valid() && After(c, schedule).Some?
    requires c.workers > 0 || c.work == []
    ensures var s := After(c, schedule).value;
            s.main != Returned ==> exists a :: a != Interrupt && Enabled(c, s, a)
  {
    hide After, Inv, Enabled;
    AlwaysInv(c, schedule);
    if After(c, schedule).value.main != Returned {
      SomeStepEnabled(c, After(c, schedule).value);
    }
  }

  /** A negative process limit leaves no workers; then a run with jobs never returns. */
  lemma NoWorkersNeverReturns(c: Config, schedule: seq<Action>)
    requires c.Valid() && After(c, schedule).Some?
    requires c.workers == 0 && c.work != []
    ensures After(c, schedule).value.main != Returned
  {
    var s := After(c, schedule).value;
    AlwaysInv(c, schedule);
    CountsTell(s.workers);
    NothingTakenWithoutWorkers(c, schedule);
  }

  lemma {:induction false} NothingTakenWithoutWorkers(c: Config, schedule: seq<Action>)
    requires c.Valid() && After(c, schedule).Some? && c.workers == 0
    ensures Taken(c, After(c, schedule).value) == 0
  {
    if schedule != [] {
      var front := schedule[..|schedule| - 1];
      NothingTakenWithoutWorkers(c, front);
      AlwaysInv(c, front);
      if schedule[|schedule| - 1] == MainStep {
        MainStepKeepsQueue(c, After(c, front).value, After(c, schedule).value);
      }
    }
  }

  // ---------------------------------------------------------------- termination

  ghost function MainLeft(c: Config, m: Main): int {
    match m
    case Dispatch(k) => 2 * |c.work| - k + 2 * c.workers + 4
    case Shutdown(k) => |c.work| - k + 2 * c.workers + 3
    case Collect(k) => |c.work| - k + c.workers + 2
    case Join(k) => c.workers - k + 1
    case Returned => 0
  }

  ghost function WorkerLeft(w: Worker): nat {
    match w
    case Fetched(_) => 3
    case Running(_) => 2
    case Delivering(_) => 1
    case _ => 0
  }

  ghost function WorkersLeft(ws: seq<Worker>): nat {
    if ws == [] then 0 else WorkersLeft(ws[..|ws| - 1]) + WorkerLeft(ws[|ws| - 1])
  }

  /** The number of steps that are left at most. */
  ghost function Left(c: Config, s: State): int {
    MainLeft(c, s.main) + 4 * (|Feed(c)| - Taken(c, s)) + WorkersLeft(s.workers) + if s.threadExit then 0 else 1
  }

  lemma {:induction false} WorkersLeftUpdate(ws: seq<Worker>, i: nat, w: Worker)
    requires i < |ws|
    ensures WorkersLeft(ws[i := w]) + WorkerLeft(ws[i]) == WorkersLeft(ws) + WorkerLeft(w)
  {
    var front := ws[..|ws| - 1];
    if i < |front| {
      WorkersLeftUpdate(front, i, w);
      assert ws[i := w][..|ws| - 1] == front[i := w];
    } else {
      assert ws[i := w][..|ws| - 1] == front;
    }
  }

  lemma {:induction false} WaitingHaveNothingLeft(n: nat)
    ensures WorkersLeft(seq(n, _ => Waiting)) == 0
  {
    if n > 0 {
      WaitingHaveNothingLeft(n - 1);
      assert seq(n, _ => Waiting)[..n - 1] == seq(n - 1, _ => Waiting);
    }
  }

  lemma MainStepCostsOne(c: Config, s: State, s': State)
    requires MainInv(c, s) && QueueInv(c, s) && MainNext(c, s) == Some(s')
    ensures MainLeft(c, s'.main) < MainLeft(c, s.main) && Left(c, s') < Left(c, s)
  {
    MainStepKeepsQueue(c, s, s');
  }

  lemma WorkerStepCostsOne(c: Config, s: State, s': State, i: nat)
    requires QueueInv(c, s) && i < |s.workers| && WorkerNext(c, s, i) == Some(s')
    ensures Left(c, s') < Left(c, s)
  {
    WorkerStepKeepsQueue(c, s, s', i);
    WorkersLeftUpdate(s.workers, i, s'.workers[i]);
  }

  lemma StepCostsOne(c: Config, s: State, a: Action, s': State)
    requires Inv(c, s) && Next(c, s, a) == Some(s')
    ensures Left(c, s') < Left(c, s)
  {
    match a
    case MainStep => MainStepCostsOne(c, s, s');
    case WorkerStep(i) => WorkerStepCostsOne(c, s, s', i);
    case Interrupt =>
  }

  lemma {:induction false} ScheduleCosts(c: Config, schedule: seq<Action>)
    requires c.Valid() && After(c, schedule).Some?
    ensures |schedule| + Left(c, After(c, schedule).value) <= 6 * |c.work| + 6 * c.workers + 5
  {
    if schedule == [] {
      WaitingHaveNothingLeft(c.workers);
    } else {
      var front := schedule[..|schedule| - 1];
      ScheduleCosts(c, front);
      AlwaysInv(c, front);
      StepCostsOne(c, After(c, front).value, schedule[|schedule| - 1], After(c, schedule).value);
    }
  }

  /** No schedule goes on for ever, whichever threads it favours and wherever the
      interrupt falls, and one that cannot be continued has let the main thread return. */
  lemma EveryRunReturns(c: Config, schedule: seq<Action>)
    requires c.Valid() && After(c, schedule).Some?
    requires c.workers > 0 || c.work == []
    ensures |schedule| <= 6 * |c.work| + 6 * c.workers + 5
    ensures (forall a | a != Interrupt :: !Enabled(c, After(c, schedule).value, a)) ==>
            After(c, schedule).value.main == Returned
  {
    var s := After(c, schedule).value;
    AlwaysInv(c, schedule);
    ScheduleCosts(c, schedule);
    NoDeadlock(c, schedule);
  }

  // ---------------------------------------------------------------- the state at the end

  /** When the main thread returns, both queues are empty, every worker has ended on
      its own break job, and each job came back exactly once, with its own result or, after
      an interrupt only, marked as a break. */
  lemma NothingIsLost(c: Config, schedule: seq<Action>)
    requires c.Valid() && After(c, schedule).Some?
    requires After(c, schedule).value.main == Returned
    ensures var s := After(c, schedule).value;
            && s.input == [] && s.output == [] && Taken(c, s) == |Feed(c)|
            && (forall w | w in s.workers :: w.Exited?)
            && |s.collected| == |c.work|
            && (forall id | 0 <= id < |c.work| :: Occurrences(s.collected, id) == 1)
            && forall job | job in s.collected ::
                 && IsResult(c, job, s.threadExit)
                 && (c.work[job.id].isSkip && !job.isBreak ==> job == c.work[job.id])
                 && (!c.work[job.id].isSkip && !job.isBreak ==>
                     job == c.work[job.id].(returncode := c.outcomes[job.id]))
  {
    var s := After(c, schedule).value;
    AlwaysInv(c, schedule);
    CountsTell(s.workers);
    assert s.output == [];
    forall id | 0 <= id < |c.work|
      ensures Occurrences(s.collected, id) == 1
    {
      assert PlaceOf(c, s, id);
      NoHolders(s.workers, id);
    }
  }

  lemma {:induction false} NoHolders(ws: seq<Worker>, id: nat)
    requires forall w | w in ws :: !Busy(w)
    ensures Holders(ws, id) == 0
  {
    if ws != [] {
      assert ws[|ws| - 1] in ws;
      NoHolders(ws[..|ws| - 1], id);
    }
  }

  /** In every run, interrupted or not, the report is that of the return codes of the jobs
      that came back, every job is counted in exactly one place, and the exit code is 0
      exactly when all were skipped or returned 0 and none was interrupted. */
  lemma FinalReport(c: Config, schedule: seq<Action>)
    requires c.Valid() && After(c, schedule).Some?
    requires After(c, schedule).value.main == Returned
    ensures var s := After(c, schedule).value;
            && ReportsByCode(s.summary, s.collected)
            && Total(s.summary) + |Names(s.collected, Interrupted)| == |c.work|
            && (ExitCode(s.summary, |c.work|) == 0 <==> AllGood(s.collected))
  {
    AlwaysInv(c, schedule);
    TallyReportsByCode(After(c, schedule).value.collected);
    hide ReportsByCode;
    ReportTotals(c, After(c, schedule).value);
    ReportExitCode(c, After(c, schedule).value);
  }

  lemma ReportTotals(c: Config, s: State)
    requires MainInv(c, s) && s.main.Returned?
    ensures Total(s.summary) + |Names(s.collected, Interrupted)| == |c.work|
  {
    hide Tally, Names;
    TotalsAddUp(s.collected);
  }

  lemma ReportExitCode(c: Config, s: State)
    requires MainInv(c, s) && s.main.Returned?
    ensures ExitCode(s.summary, |c.work|) == 0 <==> AllGood(s.collected)
  {
    ExitCodeMeaning(s.collected);
  }

  // ---------------------------------------------------------------- what an interrupt does

  /** The job waits in the input queue, or a worker has it that did not look yet whether
      there was an interrupt. */
  ghost predicate NotStarted(c: Config, s: State, id: nat) {
    id < |c.work| && (Taken(c, s) <= id || exists w :: w in s.workers && w.Fetched? && w.job.id == id)
  }

  ghost function JobsNotStarted(c: Config, s: State): set<nat> {
    set id | 0 <= id < |c.work| && NotStarted(c, s, id)
  }

  ghost predicate WorkerCutOff(w: Worker, late: set<nat>) {
    match w
    case Fetched(job) => job.id in late
    case Running(job) => job.id !in late
    case Delivering(job) => job.isBreak <==> job.id in late
    case _ => true
  }

  /** The interrupt cuts off the jobs in `late` and no others. */
  ghost predicate CutOff(c: Config, s: State, late: set<nat>) {
    && s.threadExit
    && (forall w | w in s.workers :: WorkerCutOff(w, late))
    && (forall job | job in s.output :: job.isBreak <==> job.id in late)
    && (forall job | job in s.collected :: job.isBreak <==> job.id in late)
    && forall id | Taken(c, s) <= id < |c.work| :: id in late
  }

  lemma CutOffStep(c: Config, s: State, a: Action, s': State, late: set<nat>)
    requires Inv(c, s) && Next(c, s, a) == Some(s') && CutOff(c, s, late)
    ensures CutOff(c, s', late)
  {
    match a
    case MainStep => MainStepKeepsQueue(c, s, s');
    case WorkerStep(i) => WorkerStepCutOff(c, s, s', i, late);
    case Interrupt =>
  }

  lemma WorkerStepCutOff(c: Config, s: State, s': State, i: nat, late: set<nat>)
    requires Inv(c, s) && i < |s.workers| && WorkerNext(c, s, i) == Some(s') && CutOff(c, s, late)
    ensures CutOff(c, s', late)
  {
    WorkerStepKeepsQueue(c, s, s', i);
    assert s.workers[i] in s.workers;
    assert WorkerOk(c, s.workers[i], true) && WorkerCutOff(s.workers[i], late);
    if s.workers[i].Waiting? {
      HeadOfInput(c, s);
    }
    assert WorkerCutOff(s'.workers[i], late);
  }

  lemma {:induction false} HeldIsCounted(ws: seq<Worker>, w: Worker)
    requires w in ws && Busy(w)
    ensures Holders(ws, w.job.id) > 0
  {
    if ws[|ws| - 1] != w {
      HeldIsCounted(ws[..|ws| - 1], w);
    }
  }

  lemma TwoHoldersCounted(ws: seq<Worker>, v: Worker, w: Worker)
    requires v in ws && w in ws && v != w && Busy(v) && Busy(w) && v.job.id == w.job.id
    ensures Holders(ws, w.job.id) > 1
  {
    var i :| 0 <= i < |ws| && ws[i] == v;
    WorkersUpdate(ws, i, Waiting, w.job.id);
    var j :| 0 <= j < |ws| && ws[j] == w;
    assert ws[i := Waiting][j] == w;
    HeldIsCounted(ws[i := Waiting], w);
  }

  lemma {:induction false} MemberIsCounted(jobs: seq<Job>, job: Job)
    requires job in jobs
    ensures Occurrences(jobs, job.id) > 0
  {
    if jobs[|jobs| - 1] != job {
      MemberIsCounted(jobs[..|jobs| - 1], job);
    }
  }

  /** What is on its way back, or was checked for an interrupt already, has been started. */
  lemma StartedJobs(c: Config, s: State)
    requires Inv(c, s)
    ensures forall w | w in s.workers && (w.Running? || w.Delivering?) :: !NotStarted(c, s, w.job.id)
    ensures forall job | job in s.output || job in s.collected :: !NotStarted(c, s, job.id)
  {
    forall w | w in s.workers && (w.Running? || w.Delivering?)
      ensures !NotStarted(c, s, w.job.id)
    {
      assert PlaceOf(c, s, w.job.id);
      HeldIsCounted(s.workers, w);
      if v :| v in s.workers && v.Fetched? && v.job.id == w.job.id {
        TwoHoldersCounted(s.workers, v, w);
      }
    }
    forall job | job in s.output || job in s.collected
      ensures !NotStarted(c, s, job.id)
    {
      assert PlaceOf(c, s, job.id);
      MemberIsCounted(if job in s.output then s.output else s.collected, job);
      if v :| v in s.workers && v.Fetched? && v.job.id == job.id {
        HeldIsCounted(s.workers, v);
      }
    }
  }

  lemma CutOffStart(c: Config, s: State)
    requires Inv(c, s) && !s.threadExit
    ensures CutOff(c, s.(threadExit := true), JobsNotStarted(c, s))
  {
    StartedJobs(c, s);
    var late := JobsNotStarted(c, s);
    forall w | w in s.workers
      ensures WorkerCutOff(w, late)
    {
      assert WorkerOk(c, w, false);
    }
  }

  lemma {:induction false} AlwaysCutOff(c: Config, before: seq<Action>, rest: seq<Action>)
    requires c.Valid() && After(c, before + [Interrupt] + rest).Some?
    ensures After(c, before).Some?
    ensures CutOff(c, After(c, before + [Interrupt] + rest).value, JobsNotStarted(c, After(c, before).value))
  {
    var schedule := before + [Interrupt] + rest;
    var front := schedule[..|schedule| - 1];
    if rest == [] {
      assert front == before;
      AlwaysInv(c, before);
      CutOffStart(c, After(c, before).value);
    } else {
      assert front == before + [Interrupt] + rest[..|rest| - 1];
      AlwaysCutOff(c, before, rest[..|rest| - 1]);
      AlwaysInv(c, front);
      CutOffStep(c, After(c, front).value, schedule[|schedule| - 1], After(c, schedule).value,
                 JobsNotStarted(c, After(c, before).value));
    }
  }

  /** Exactly the jobs that were not started when the interrupt came are given back as
      breaks; all others are given back with their own results. */
  lemma InterruptCutsOff(c: Config, before: seq<Action>, rest: seq<Action>)
    requires c.Valid() && After(c, before + [Interrupt] + rest).Some?
    ensures After(c, before).Some?
    ensures forall job | job in After(c, before + [Interrupt] + rest).value.collected ::
              && job.id < |c.work|
              && job == if NotStarted(c, After(c, before).value, job.id) then c.work[job.id].(isBreak := true)
                        else Finished(c, job.id)
  {
    AlwaysCutOff(c, before, rest);
    AlwaysInv(c, before + [Interrupt] + rest);
  }

  /** Every interrupted run is of that form. */
  lemma {:induction false} InterruptedRun(c: Config, schedule: seq<Action>)
    returns (before: seq<Action>, rest: seq<Action>)
    requires After(c, schedule).Some? && After(c, schedule).value.threadExit
    ensures schedule == before + [Interrupt] + rest
  {
    var n := |schedule| - 1;
    if schedule[n] == Interrupt {
      before, rest := schedule[..n], [];
    } else {
      before, rest := InterruptedRun(c, schedule[..n]);
      rest := rest + [schedule[n]];
    }
  }

  // ---------------------------------------------------------------- the schedule does not matter

  /** The results of running the jobs one after the other, in dispatch order. */
  ghost function OneAtATime(c: Config): (r: seq<Job>)
    requires c.Valid()
    ensures |r| == |c.work|
  {
    seq(|c.work|, i requires 0 <= i < |c.work| => Finished(c, i))
  }

  lemma {:induction false} OccurrencesAsCount(jobs: seq<Job>, job: Job)
    requires forall j | j in jobs && j.id == job.id :: j == job
    ensures multiset(jobs)[job] == Occurrences(jobs, job.id)
  {
    if jobs != [] {
      var front, last := jobs[..|jobs| - 1], jobs[|jobs| - 1];
      assert jobs == front + [last];
      assert forall j :: j in jobs <==> j in front || j == last;
      OccurrencesAsCount(front, job);
    }
  }

  lemma {:induction false} OccurrencesInOrder(jobs: seq<Job>, id: nat)
    requires forall i | 0 <= i < |jobs| :: jobs[i].id == i
    ensures Occurrences(jobs, id) == if id < |jobs| then 1 else 0
  {
    if jobs != [] {
      OccurrencesInOrder(jobs[..|jobs| - 1], id);
    }
  }

  /** Without an interrupt the collected results are those of a one-at-a-time run in
      some order. */
  lemma CollectedIsPermutation(c: Config, collected: seq<Job>)
    requires c.Valid() && forall j | j in collected :: IsResult(c, j, false)
    requires forall id | 0 <= id < |c.work| :: Occurrences(collected, id) == 1
    ensures multiset(collected) == multiset(OneAtATime(c))
  {
    var r := OneAtATime(c);
    forall job: Job
      ensures multiset(collected)[job] == multiset(r)[job]
    {
      if job.id < |c.work| && job == Finished(c, job.id) {
        OccurrencesAsCount(collected, job);
        OccurrencesAsCount(r, job);
        OccurrencesInOrder(r, job.id);
      } else {
        assert job !in collected;
        assert job !in r;
      }
    }
  }

  /** Whatever the schedule and the number of workers, a run that is not interrupted
      reports what a one-at-a-time run reports, and exits with the same code. */
  lemma ScheduleDoesNotMatter(c: Config, schedule: seq<Action>)
    requires c.Valid() && After(c, schedule).Some?
    requires After(c, schedule).value.main == Returned && !After(c, schedule).value.threadExit
    ensures var r := After(c, schedule).value.summary;
            && SameReport(r, Tally(OneAtATime(c)))
            && ExitCode(r, |c.work|) == ExitCode(Tally(OneAtATime(c)), |c.work|)
  {
    var s := After(c, schedule).value;
    AlwaysInv(c, schedule);
    NothingIsLost(c, schedule);
    CollectedIsPermutation(c, s.collected);
    ReportIgnoresOrder(s.collected, OneAtATime(c));
  }

  // ---------------------------------------------------------------- every run can be completed

  /** The schedule lets the main thread return, and was or was not interrupted. */
  ghost predicate Returns(c: Config, schedule: seq<Action>, interrupted: bool) {
    && After(c, schedule).Some?
    && After(c, schedule).value.main == Returned
    && After(c, schedule).value.threadExit == interrupted
  }

  /** One step further, without a further interrupt. */
  lemma OneMoreStep(c: Config, schedule: seq<Action>) returns (a: Action)
    requires c.Valid() && After(c, schedule).Some? && After(c, schedule).value.main != Returned
    requires c.workers > 0 || c.work == []
    ensures a != Interrupt
    ensures After(c, schedule + [a]).Some?
    ensures After(c, schedule + [a]).value.threadExit == After(c, schedule).value.threadExit
  {
    NoDeadlock(c, schedule);
    a :| a != Interrupt && Enabled(c, After(c, schedule).value, a);
    assert (schedule + [a])[..|schedule|] == schedule;
  }

  /** Whatever has happened so far, the run can go on without a further interrupt until
      the main thread returns. */
  lemma {:induction false} Completion(c: Config, schedule: seq<Action>) returns (rest: seq<Action>)
    requires c.Valid() && After(c, schedule).Some?
    requires c.workers > 0 || c.work == []
    ensures Interrupt !in rest
    ensures Returns(c, schedule + rest, After(c, schedule).value.threadExit)
    decreases 6 * |c.work| + 6 * c.workers + 5 - |schedule|
  {
    hide After;
    if After(c, schedule).value.main == Returned {
      rest := [];
      assert schedule + [] == schedule;
    } else {
      var a := OneMoreStep(c, schedule);
      EveryRunReturns(c, schedule + [a]);
      var tail := Completion(c, schedule + [a]);
      rest := [a] + tail;
      assert schedule + rest == schedule + [a] + tail;
    }
  }

  /** For every configuration with a worker, or without jobs, there are runs in which the
      main thread returns, interrupted ones and ones that are not. */
  lemma RunsReturn(c: Config, interrupted: bool)
    requires c.Valid() && (c.workers > 0 || c.work == [])
    ensures exists schedule :: Returns(c, schedule, interrupted)
  {
    var start := if interrupted then [Interrupt] else [];
    assert [Interrupt][..0] == [];
    var rest := Completion(c, start);
  }

  // ---------------------------------------------------------------- the one-at-a-time run

  /** With a single worker the jobs come back in dispatch order: the finished ones first,
      then the one in hand. */
  ghost predicate InTurn(c: Config, s: State)
    requires c.Valid()
  {
    var done := s.collected + s.output;
    && |s.workers| == 1 && !s.threadExit
    && |done| <= |c.work| && (forall i | 0 <= i < |done| :: done[i] == Finished(c, i))
    && (Busy(s.workers[0]) ==> s.workers[0].job.id == |done|)
  }

  lemma MainKeepsTurn(c: Config, s: State, s': State)
    requires c.Valid() && InTurn(c, s) && MainNext(c, s) == Some(s')
    ensures InTurn(c, s')
  {
    assert s'.collected + s'.output == s.collected + s.output;
  }

  lemma WorkerKeepsTurn(c: Config, s: State, s': State)
    requires Inv(c, s) && InTurn(c, s) && WorkerNext(c, s, 0) == Some(s')
    ensures InTurn(c, s')
  {
    assert s.workers[0] in s.workers;
    CountsTell(s.workers);
    if s.workers[0].Waiting? {
      HeadOfInput(c, s);
    } else if s.workers[0].Delivering? {
      assert s'.collected + s'.output == s.collected + s.output + [s.workers[0].job];
    }
  }

  lemma {:induction false} AlwaysInTurn(c: Config, schedule: seq<Action>)
    requires c.Valid() && c.workers == 1 && After(c, schedule).Some? && !After(c, schedule).value.threadExit
    ensures InTurn(c, After(c, schedule).value)
  {
    if schedule != [] {
      var front := schedule[..|schedule| - 1];
      AlwaysInv(c, front);
      assert !After(c, front).value.threadExit;
      AlwaysInTurn(c, front);
      if schedule[|schedule| - 1] == MainStep {
        MainKeepsTurn(c, After(c, front).value, After(c, schedule).value);
      } else {
        WorkerKeepsTurn(c, After(c, front).value, After(c, schedule).value);
      }
    }
  }

  /** `OneAtATime` is what the runner itself delivers with one worker and no interrupt:
      there is such a run, and all of them end with these results in this order. */
  lemma OneWorkerIsOneAtATime(c: Config)
    requires c.Valid() && c.workers == 1
    ensures exists schedule :: Returns(c, schedule, false)
    ensures forall schedule | Returns(c, schedule, false) :: After(c, schedule).value.collected == OneAtATime(c)
  {
    RunsReturn(c, false);
    forall schedule | Returns(c, schedule, false)
      ensures After(c, schedule).value.collected == OneAtATime(c)
    {
      AlwaysInTurn(c, schedule);
      NothingIsLost(c, schedule);
    }
  }
}
