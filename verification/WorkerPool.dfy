// The worker pools of the scanner: a producer sends job indices over an
// unbuffered channel, workers write fixed result slots and publish into a map
// under a mutex, and the results are merged after all workers have exited.
module WorkerPool {
  import opened Options

  type Finding = string
  type FileName = string
  type Entry = int

  // What one job computes: its findings, and the files it publishes in order.
  datatype Job = Job(findings: seq<Finding>, published: seq<(FileName, Entry)>)

  datatype Worker = Idle | Running(job: nat, count: nat) | Exited

  // `wrote` says that the holder has published since it took the lock.
  datatype Lock = Free | Held(worker: nat, wrote: bool)

  datatype State = State(
    next: nat,                            // the next index to send
    closed: bool,                         // the channel is closed
    workers: seq<Worker>,
    lock: Lock,
    slots: seq<Option<seq<Finding>>>,
    shared: map<FileName, Entry>)

  datatype Step =
    | Send(w: nat)
    | Close
    | Acquire(w: nat)
    | Publish(w: nat)
    | Release(w: nat)
    | Store(w: nat)
    | Exit(w: nat)

  function Init(jobs: seq<Job>, workers: nat): State {
    State(0, false, seq(workers, _ => Idle), Free, seq(|jobs|, _ => None), map[])
  }

  predicate IsRunning(jobs: seq<Job>, s: State, w: nat) {
    w < |s.workers| && s.workers[w].Running? && s.workers[w].job < |jobs|
  }

  predicate Enabled(jobs: seq<Job>, s: State, step: Step) {
    match step
    case Send(w) => !s.closed && s.next < |jobs| && w < |s.workers| && s.workers[w] == Idle
    case Close => !s.closed && s.next == |jobs|
    case Acquire(w) => IsRunning(jobs, s, w) && s.workers[w].count < |jobs[s.workers[w].job].published| &&
      s.lock == Free
    case Publish(w) => IsRunning(jobs, s, w) && s.workers[w].count < |jobs[s.workers[w].job].published|
                       && s.lock.Held? && s.lock.worker == w
    case Release(w) => s.lock == Held(w, true)
    case Store(w) => IsRunning(jobs, s, w) && s.workers[w].count == |jobs[s.workers[w].job].published|
                     && !(s.lock.Held? && s.lock.worker == w) && s.workers[w].job < |s.slots|
    case Exit(w) => s.closed && w < |s.workers| && s.workers[w] == Idle
  }

  function Apply(jobs: seq<Job>, s: State, step: Step): State
    requires Enabled(jobs, s, step)
  {
    match step
    case Send(w) => s.(next := s.next + 1, workers := s.workers[w := Running(s.next, 0)])
    case Close => s.(closed := true)
    case Acquire(w) => s.(lock := Held(w, false))
    case Publish(w) =>
      var i, k := s.workers[w].job, s.workers[w].count;
      var (file, entry) := jobs[i].published[k];
      s.(workers := s.workers[w := Running(i, k + 1)], lock := Held(w, true),
         shared := if file in s.shared then s.shared else s.shared[file := entry])
    case Release(w) => s.(lock := Free)
    case Store(w) =>
      var i := s.workers[w].job;
      s.(workers := s.workers[w := Idle], slots := s.slots[i := Some(jobs[i].findings)])
    case Exit(w) => s.(workers := s.workers[w := Exited])
  }

  // wg.Wait has returned.
  predicate Final(s: State) {
    s.closed && forall w :: 0 <= w < |s.workers| ==> s.workers[w] == Exited
  }

  // ---- Invariant ---------------------------------------------------------

  predicate InFlight(s: State, i: int, w: int) {
    0 <= w < |s.workers| && s.workers[w].Running? && s.workers[w].job == i
  }

  // Index i is in exactly one of: not sent yet, at one worker, or done.
  ghost predicate Pending(s: State, i: int) {
    i >= s.next && (forall w :: !InFlight(s, i, w)) && (0 <= i < |s.slots| ==> s.slots[i] == None)
  }

  ghost predicate AtOneWorker(s: State, i: int) {
    && 0 <= i < s.next && i < |s.slots| && s.slots[i] == None
    && exists w :: InFlight(s, i, w) && forall v :: InFlight(s, i, v) ==> v == w
  }

  ghost predicate Done(jobs: seq<Job>, s: State, i: int) {
    && 0 <= i < s.next && i < |jobs| && i < |s.slots| && s.slots[i] == Some(jobs[i].findings)
    && forall w :: !InFlight(s, i, w)
  }

  // Publication k of job i has happened.
  ghost predicate Published(jobs: seq<Job>, s: State, i: int, k: int) {
    0 <= i < |jobs| && 0 <= k < |jobs[i].published|
    && (Done(jobs, s, i) || exists w :: InFlight(s, i, w) && k < s.workers[w].count)
  }

  // The first entry job i publishes for a file.
  predicate FirstFor(jobs: seq<Job>, i: int, k: int) {
    0 <= i < |jobs| && 0 <= k < |jobs[i].published|
    && forall j :: 0 <= j < k ==> jobs[i].published[j].0 != jobs[i].published[k].0
  }

  ghost predicate Shape(jobs: seq<Job>, s: State) {
    && |s.slots| == |jobs| && s.next <= |jobs| && |s.workers| >= 1
    && (s.closed ==> s.next == |jobs|)
    && (forall w :: 0 <= w < |s.workers| && s.workers[w] == Exited ==> s.closed)
    && (forall w :: 0 <= w < |s.workers| && s.workers[w].Running? ==>
          s.workers[w].job < |jobs| && s.workers[w].count <= |jobs[s.workers[w].job].published|)
    && (s.lock.Held? ==> s.lock.worker < |s.workers| && s.workers[s.lock.worker].Running?)
    && (s.lock.Held? && !s.lock.wrote ==>
          s.workers[s.lock.worker].count < |jobs[s.workers[s.lock.worker].job].published|)
  }

  ghost predicate Partitioned(jobs: seq<Job>, s: State) {
    forall i :: 0 <= i < |jobs| ==> Pending(s, i) || AtOneWorker(s, i) || Done(jobs, s, i)
  }

  // The map holds exactly the files published so far, each with the first
  // entry some job has for it.
  ghost predicate SharedExact(jobs: seq<Job>, s: State) {
    && (forall i, k :: Published(jobs, s, i, k) ==> jobs[i].published[k].0 in s.shared)
    && (forall file :: file in s.shared ==>
          exists i, k :: Published(jobs, s, i, k) && FirstFor(jobs, i, k) &&
            jobs[i].published[k] == (file, s.shared[file]))
  }

  ghost predicate Inv(jobs: seq<Job>, s: State) {
    Shape(jobs, s) && Partitioned(jobs, s) && SharedExact(jobs, s)
  }

  lemma InitInv(jobs: seq<Job>, workers: nat)
    requires workers >= 1
    ensures Inv(jobs, Init(jobs, workers))
  {
    var s := Init(jobs, workers);
    forall i | 0 <= i < |jobs|
      ensures Pending(s, i)
    {
    }
  }

  // The three conditions on an index exclude each other.
  lemma OneConditionOnly(jobs: seq<Job>, s: State, i: nat)
    requires Inv(jobs, s) && i < |jobs|
    ensures (if Pending(s, i) then 1 else 0) + (if AtOneWorker(s, i) then 1 else 0)
      + (if Done(jobs, s, i) then 1 else 0) == 1
  {
    assert Pending(s, i) || AtOneWorker(s, i) || Done(jobs, s, i);
  }

  lemma StepShape(jobs: seq<Job>, s: State, step: Step)
    requires Inv(jobs, s) && Enabled(jobs, s, step)
    ensures Shape(jobs, Apply(jobs, s, step))
  {
  }

  lemma OthersInFlight(s: State, s': State, w: nat, i: nat)
    requires |s.workers| == |s'.workers| && w < |s.workers|
    requires s'.workers == s.workers[w := s'.workers[w]]
    requires !InFlight(s, i, w) && !InFlight(s', i, w)
    ensures forall v :: InFlight(s', i, v) <==> InFlight(s, i, v)
  {
  }

  lemma StepPartitioned(jobs: seq<Job>, s: State, step: Step)
    requires Inv(jobs, s) && Enabled(jobs, s, step)
    ensures Partitioned(jobs, Apply(jobs, s, step))
  {
    var s' := Apply(jobs, s, step);
    forall i | 0 <= i < |jobs|
      ensures Pending(s', i) || AtOneWorker(s', i) || Done(jobs, s', i)
    {
      assert Pending(s, i) || AtOneWorker(s, i) || Done(jobs, s, i);
      IndexStep(jobs, s, step, i);
    }
  }

  lemma IndexStep(jobs: seq<Job>, s: State, step: Step, i: nat)
    requires Inv(jobs, s) && Enabled(jobs, s, step) && i < |jobs|
    requires Pending(s, i) || AtOneWorker(s, i) || Done(jobs, s, i)
    ensures var s' := Apply(jobs, s, step); Pending(s', i) || AtOneWorker(s', i) || Done(jobs, s', i)
  {
    var s' := Apply(jobs, s, step);
    match step
    case Send(w) =>
      if i == s.next {
        assert InFlight(s', i, w);
        forall v | InFlight(s', i, v)
          ensures v == w
        {
          assert v != w ==> !InFlight(s, i, v);
        }
        assert AtOneWorker(s', i);
      } else {
        OthersInFlight(s, s', w, i);
        SameCondition(jobs, s, s', i);
      }
    case Publish(w) =>
      forall v
        ensures InFlight(s', i, v) <==> InFlight(s, i, v)
      {
      }
      SameCondition(jobs, s, s', i);
    case Store(w) =>
      if i == s.workers[w].job {
        assert InFlight(s, i, w) && AtOneWorker(s, i);
        forall v
          ensures !InFlight(s', i, v)
        {
          assert v != w ==> !InFlight(s, i, v);
        }
        assert Done(jobs, s', i);
      } else {
        OthersInFlight(s, s', w, i);
        SameCondition(jobs, s, s', i);
      }
    case Exit(w) =>
      OthersInFlight(s, s', w, i);
      SameCondition(jobs, s, s', i);
    case Close => SameCondition(jobs, s, s', i);
    case Acquire(w) => SameCondition(jobs, s, s', i);
    case Release(w) => SameCondition(jobs, s, s', i);
  }

  lemma SameCondition(jobs: seq<Job>, s: State, s': State, i: nat)
    requires forall v :: InFlight(s', i, v) <==> InFlight(s, i, v)
    requires |s.slots| == |s'.slots| && (i < |s.slots| ==> s'.slots[i] == s.slots[i])
    requires i >= s.next <==> i >= s'.next
    ensures Pending(s, i) ==> Pending(s', i)
    ensures AtOneWorker(s, i) ==> AtOneWorker(s', i)
    ensures Done(jobs, s, i) <==> Done(jobs, s', i)
  {
    if AtOneWorker(s, i) {
      var w :| InFlight(s, i, w) && forall v :: InFlight(s, i, v) ==> v == w;
      assert InFlight(s', i, w);
    }
  }

  // Publications stay published, and only the publishing step adds one.
  lemma PublishedStep(jobs: seq<Job>, s: State, step: Step, i: nat, k: nat)
    requires Inv(jobs, s) && Enabled(jobs, s, step) && i < |jobs|
    ensures var s' := Apply(jobs, s, step);
      Published(jobs, s', i, k) <==>
        Published(jobs, s, i, k)
        || (step.Publish? && s.workers[step.w].job == i && s.workers[step.w].count == k)
  {
    var s' := Apply(jobs, s, step);
    IndexStep(jobs, s, step, i) by { assert Pending(s, i) || AtOneWorker(s, i) || Done(jobs, s, i); }
    OneConditionOnly(jobs, s, i);
    if k < |jobs[i].published| {
      if step.Close? || step.Acquire? || step.Release? {
        SameCondition(jobs, s, s', i);
        assert forall v :: InFlight(s', i, v) <==> InFlight(s, i, v);
      } else {
        WorkerStepPublished(jobs, s, step, i, k);
      }
    }
  }

  lemma WorkerStepPublished(jobs: seq<Job>, s: State, step: Step, i: nat, k: nat)
    requires Inv(jobs, s) && Enabled(jobs, s, step) && i < |jobs| && k < |jobs[i].published|
    requires step.Send? || step.Publish? || step.Store? || step.Exit?
    ensures var s' := Apply(jobs, s, step);
      Published(jobs, s', i, k) <==>
        Published(jobs, s, i, k)
        || (step.Publish? && s.workers[step.w].job == i && s.workers[step.w].count == k)
  {
    var s', w := Apply(jobs, s, step), step.w;
    assert Pending(s, i) || AtOneWorker(s, i) || Done(jobs, s, i);
    if !InFlight(s, i, w) && !InFlight(s', i, w) {
      OthersInFlight(s, s', w, i);
      SameCondition(jobs, s, s', i);
    } else if step.Send? {
      assert i == s.next && Pending(s, i);
      forall v | InFlight(s', i, v)
        ensures v == w
      {
        assert v != w ==> !InFlight(s, i, v);
      }
    } else {
      assert InFlight(s, i, w) && AtOneWorker(s, i);
      assert forall v :: InFlight(s, i, v) ==> v == w;
      if step.Publish? {
        assert InFlight(s', i, w);
        forall v | InFlight(s', i, v)
          ensures v == w
        {
          assert v != w ==> InFlight(s, i, v);
        }
      } else {
        forall v
          ensures !InFlight(s', i, v)
        {
          assert v != w ==> !InFlight(s, i, v);
        }
        assert Done(jobs, s', i);
      }
    }
  }

  lemma StepShared(jobs: seq<Job>, s: State, step: Step)
    requires Inv(jobs, s) && Enabled(jobs, s, step)
    ensures SharedExact(jobs, Apply(jobs, s, step))
  {
    var s' := Apply(jobs, s, step);
    forall i, k | Published(jobs, s', i, k)
      ensures jobs[i].published[k].0 in s'.shared
    {
      PublishedStep(jobs, s, step, i, k);
    }
    forall file | file in s'.shared
      ensures exists i, k ::
        Published(jobs, s', i, k) && FirstFor(jobs, i, k) && jobs[i].published[k] == (file, s'.shared[file])
    {
      if file in s.shared {
        var i, k :| Published(jobs, s, i, k) && FirstFor(jobs, i, k) && jobs[i].published[k] == (file, s.shared[file]);
        PublishedStep(jobs, s, step, i, k);
      } else {
        var w := step.w;
        var i, k := s.workers[w].job, s.workers[w].count;
        assert InFlight(s, i, w);
        forall j | 0 <= j < k
          ensures jobs[i].published[j].0 != file
        {
          assert Published(jobs, s, i, j);
        }
        PublishedStep(jobs, s, step, i, k);
      }
    }
  }

  lemma StepInv(jobs: seq<Job>, s: State, step: Step)
    requires Inv(jobs, s) && Enabled(jobs, s, step)
    ensures Inv(jobs, Apply(jobs, s, step))
  {
    StepShape(jobs, s, step);
    StepPartitioned(jobs, s, step);
    StepShared(jobs, s, step);
  }

  // The map changes only when the holder of the lock publishes, and what is
  // there stays: the first to publish a file decides its entry.
  lemma FirstPublisherWins(jobs: seq<Job>, s: State, step: Step)
    requires Enabled(jobs, s, step)
    ensures var s' := Apply(jobs, s, step);
      && (forall file :: file in s.shared ==> file in s'.shared && s'.shared[file] == s.shared[file])
      && (s'.shared != s.shared ==> step.Publish? && s.lock.Held? && s.lock.worker == step.w)
  {
  }

  // While one worker holds the lock no other takes it or publishes, and it
  // stays with that worker until the worker lets go.
  lemma LockExcludes(jobs: seq<Job>, s: State, step: Step, w: nat)
    requires Enabled(jobs, s, step) && s.lock.Held? && s.lock.worker == w
    ensures !step.Acquire? && (step.Publish? ==> step.w == w)
    ensures step != Release(w) ==> Apply(jobs, s, step).lock.Held? && Apply(jobs, s, step).lock.worker == w
    ensures step == Release(w) ==> Apply(jobs, s, step).lock == Free
  {
  }

  // ---- Progress ----------------------------------------------------------

  // No reachable state before the end is stuck.
  lemma NotStuck(jobs: seq<Job>, s: State) returns (step: Step)
    requires Inv(jobs, s) && !Final(s)
    ensures Enabled(jobs, s, step)
  {
    if s.lock.Held? {
      step := if s.lock.wrote then Release(s.lock.worker) else Publish(s.lock.worker);
    } else if w :| 0 <= w < |s.workers| && s.workers[w].Running? {
      step := if s.workers[w].count < |jobs[s.workers[w].job].published| then Acquire(w) else Store(w);
    } else if s.closed {
      var w :| 0 <= w < |s.workers| && s.workers[w] != Exited;
      step := Exit(w);
    } else {
      step := if s.next < |jobs| then Send(0) else Close;
    }
  }

  function JobCost(job: Job): nat { 3 * |job.published| + 2 }

  function PendingCost(jobs: seq<Job>, next: nat): nat
    requires next <= |jobs|
    decreases |jobs| - next
  {
    if next == |jobs| then 0 else JobCost(jobs[next]) + PendingCost(jobs, next + 1)
  }

  function WorkerCost(jobs: seq<Job>, w: Worker): nat {
    match w
    case Idle => 1
    case Exited => 0
    case Running(i, k) => if i < |jobs| && k <= |jobs[i].published| then 2 + 3 * (|jobs[i].published| - k) else 0
  }

  function WorkersCost(jobs: seq<Job>, workers: seq<Worker>): nat {
    if workers == [] then 0 else WorkerCost(jobs, workers[0]) + WorkersCost(jobs, workers[1..])
  }

  function LockCost(lock: Lock): int {
    if lock == Free then 0 else if lock.wrote then 1 else -1
  }

  function Measure(jobs: seq<Job>, s: State): int
    requires s.next <= |jobs|
  {
    PendingCost(jobs, s.next) + WorkersCost(jobs, s.workers) + LockCost(s.lock) + if s.closed then 0 else 1
  }

  lemma {:induction false} WorkersCostUpdate(jobs: seq<Job>, workers: seq<Worker>, w: nat, v: Worker)
    requires w < |workers|
    ensures WorkersCost(jobs, workers[w := v])
      == WorkersCost(jobs, workers) - WorkerCost(jobs, workers[w]) + WorkerCost(jobs, v)
  {
    if w == 0 {
      assert workers[0 := v][1..] == workers[1..];
    } else {
      assert workers[w := v][1..] == workers[1..][w - 1 := v];
      WorkersCostUpdate(jobs, workers[1..], w - 1, v);
    }
  }

  lemma {:induction false} WorkersCostAtLeast(jobs: seq<Job>, workers: seq<Worker>, w: nat)
    requires w < |workers|
    ensures WorkersCost(jobs, workers) >= WorkerCost(jobs, workers[w])
  {
    if w > 0 {
      WorkersCostAtLeast(jobs, workers[1..], w - 1);
    }
  }

  // Every step brings the pool closer to the end.
  lemma MeasureDecreases(jobs: seq<Job>, s: State, step: Step)
    requires Inv(jobs, s) && Enabled(jobs, s, step)
    ensures Apply(jobs, s, step).next <= |jobs|
    ensures 0 <= Measure(jobs, Apply(jobs, s, step)) < Measure(jobs, s)
  {
    var s' := Apply(jobs, s, step);
    StepShape(jobs, s, step);
    if s'.lock.Held? {
      WorkersCostAtLeast(jobs, s'.workers, s'.lock.worker);
    }
    if !step.Close? && !step.Acquire? && !step.Release? {
      WorkersCostUpdate(jobs, s.workers, step.w, s'.workers[step.w]);
    }
  }

  // ---- Runs --------------------------------------------------------------

  ghost predicate IsRun(jobs: seq<Job>, workers: nat, states: seq<State>) {
    && states != [] && states[0] == Init(jobs, workers)
    && forall n :: 0 <= n < |states| - 1 ==> Next(jobs, states[n], states[n + 1])
  }

  ghost predicate Next(jobs: seq<Job>, s: State, s': State) {
    exists step :: Enabled(jobs, s, step) && s' == Apply(jobs, s, step)
  }

  lemma {:induction false} RunInv(jobs: seq<Job>, workers: nat, states: seq<State>, n: nat)
    requires workers >= 1 && IsRun(jobs, workers, states) && n < |states|
    ensures Inv(jobs, states[n])
    ensures Measure(jobs, states[n]) + n <= Measure(jobs, states[0])
  {
    if n == 0 {
      InitInv(jobs, workers);
    } else {
      RunInv(jobs, workers, states, n - 1);
      assert Next(jobs, states[n - 1], states[n - 1 + 1]);
      var step :| Enabled(jobs, states[n - 1], step) && states[n] == Apply(jobs, states[n - 1], step);
      StepInv(jobs, states[n - 1], step);
      MeasureDecreases(jobs, states[n - 1], step);
    }
  }

  // So an entry once seen is the one the run ends with.
  lemma {:induction false} EntriesStay(jobs: seq<Job>, workers: nat, states: seq<State>, m: nat, n: nat)
    requires IsRun(jobs, workers, states) && m <= n < |states|
    ensures forall file :: file in states[m].shared ==>
      file in states[n].shared && states[n].shared[file] == states[m].shared[file]
  {
    if m < n {
      EntriesStay(jobs, workers, states, m, n - 1);
      assert Next(jobs, states[n - 1], states[n - 1 + 1]);
      var step :| Enabled(jobs, states[n - 1], step) && states[n] == Apply(jobs, states[n - 1], step);
      FirstPublisherWins(jobs, states[n - 1], step);
    }
  }

  // ---- The result --------------------------------------------------------

  function Merge(slots: seq<Option<seq<Finding>>>): seq<Finding> {
    if slots == [] then [] else (if slots[0].Some? then slots[0].value else []) + Merge(slots[1..])
  }

  function InOrder(jobs: seq<Job>): seq<Finding> {
    if jobs == [] then [] else jobs[0].findings + InOrder(jobs[1..])
  }

  lemma {:induction false} MergeIsInOrder(jobs: seq<Job>, slots: seq<Option<seq<Finding>>>)
    requires |slots| == |jobs| && forall i :: 0 <= i < |jobs| ==> slots[i] == Some(jobs[i].findings)
    ensures Merge(slots) == InOrder(jobs)
  {
    if jobs != [] {
      MergeIsInOrder(jobs[1..], slots[1..]);
    }
  }

  // The findings of earlier jobs come before those of later ones.
  lemma {:induction false} InOrderSplits(a: seq<Job>, b: seq<Job>, job: Job)
    ensures InOrder(a + b) == InOrder(a) + InOrder(b) && InOrder([job]) == job.findings
  {
    assert [job][1..] == [];
    if a == [] {
      assert a + b == b;
    } else {
      assert (a + b)[1..] == a[1..] + b;
      InOrderSplits(a[1..], b, job);
    }
  }

  // Some job publishes this file, with this as its first entry for it.
  ghost predicate Offers(jobs: seq<Job>, file: FileName, entry: Entry) {
    exists i, k :: FirstFor(jobs, i, k) && jobs[i].published[k] == (file, entry)
  }

  lemma {:induction false} FirstExists(jobs: seq<Job>, i: nat, k: nat) returns (f: nat)
    requires i < |jobs| && k < |jobs[i].published|
    ensures f <= k && FirstFor(jobs, i, f) && jobs[i].published[f].0 == jobs[i].published[k].0
  {
    if j :| 0 <= j < k && jobs[i].published[j].0 == jobs[i].published[k].0 {
      f := FirstExists(jobs, i, j);
    } else {
      f := k;
    }
  }

  // Whatever the schedule: the findings are the jobs' in job order, and the
  // shared map holds exactly the published files with entries jobs offer.
  lemma RunResult(jobs: seq<Job>, workers: nat, states: seq<State>)
    requires workers >= 1 && IsRun(jobs, workers, states) && Final(states[|states| - 1])
    ensures var end := states[|states| - 1];
      && Merge(end.slots) == InOrder(jobs)
      && (forall i, k :: 0 <= i < |jobs| && 0 <= k < |jobs[i].published| ==> jobs[i].published[k].0 in end.shared)
      && (forall file :: file in end.shared ==> Offers(jobs, file, end.shared[file]))
  {
    var end := states[|states| - 1];
    RunInv(jobs, workers, states, |states| - 1);
    forall i | 0 <= i < |jobs|
      ensures Done(jobs, end, i) && end.slots[i] == Some(jobs[i].findings)
    {
      assert Pending(end, i) || AtOneWorker(end, i) || Done(jobs, end, i);
    }
    MergeIsInOrder(jobs, end.slots);
    forall i, k | 0 <= i < |jobs| && 0 <= k < |jobs[i].published|
      ensures jobs[i].published[k].0 in end.shared
    {
      assert Published(jobs, end, i, k);
    }
  }

  // Jobs that publish one file agree on its first entry. It holds when a file
  // is published by one job only, and when entries carry no information.
  ghost predicate JobsAgree(jobs: seq<Job>) {
    forall file, x, y :: Offers(jobs, file, x) && Offers(jobs, file, y) ==> x == y
  }

  // Covered files carry no entry worth telling apart.
  lemma PlainSetsAgree(jobs: seq<Job>)
    requires forall i, k :: 0 <= i < |jobs| && 0 <= k < |jobs[i].published| ==> jobs[i].published[k].1 == 0
    ensures JobsAgree(jobs)
  {
  }

  // Modules own different files, so only one job has an entry for each.
  lemma DisjointJobsAgree(jobs: seq<Job>)
    requires forall i, j, k, m ::
      0 <= i < j < |jobs| && 0 <= k < |jobs[i].published| && 0 <= m < |jobs[j].published| ==>
        jobs[i].published[k].0 != jobs[j].published[m].0
    ensures JobsAgree(jobs)
  {
    forall file, x, y | Offers(jobs, file, x) && Offers(jobs, file, y)
      ensures x == y
    {
      var i, k :| FirstFor(jobs, i, k) && jobs[i].published[k] == (file, x);
      var j, m :| FirstFor(jobs, j, m) && jobs[j].published[m] == (file, y);
      assert i == j;
      assert k == m;
    }
  }

  // Then every two complete runs, on any numbers of workers, end alike.
  lemma ScheduleIrrelevant(jobs: seq<Job>, workers: nat, states: seq<State>, workers': nat, states': seq<State>)
    requires workers >= 1 && IsRun(jobs, workers, states) && Final(states[|states| - 1])
    requires workers' >= 1 && IsRun(jobs, workers', states') && Final(states'[|states'| - 1])
    ensures Merge(states[|states| - 1].slots) == Merge(states'[|states'| - 1].slots)
    ensures states[|states| - 1].shared.Keys == states'[|states'| - 1].shared.Keys
    ensures JobsAgree(jobs) ==> states[|states| - 1].shared == states'[|states'| - 1].shared
  {
    RunResult(jobs, workers, states);
    RunResult(jobs, workers', states');
    var a, b := states[|states| - 1].shared, states'[|states'| - 1].shared;
    forall file
      ensures file in a <==> file in b
    {
      if file in a {
        assert Offers(jobs, file, a[file]);
      }
      if file in b {
        assert Offers(jobs, file, b[file]);
      }
    }
    assert a.Keys == b.Keys;
    if JobsAgree(jobs) {
      forall file | file in a
        ensures a[file] == b[file]
      {
        assert Offers(jobs, file, a[file]) && Offers(jobs, file, b[file]);
      }
    }
  }

  // No run is longer than the initial measure allows, and every run can be
  // extended to a complete one.
  lemma {:induction false} EveryRunCompletes(jobs: seq<Job>, workers: nat,
                                             states: seq<State>) returns (full: seq<State>)
    requires workers >= 1 && IsRun(jobs, workers, states)
    ensures IsRun(jobs, workers, full) && Final(full[|full| - 1]) && states <= full
    decreases Measure(jobs, Init(jobs, workers)) - |states|
  {
    var end := states[|states| - 1];
    RunInv(jobs, workers, states, |states| - 1);
    if Final(end) {
      full := states;
    } else {
      var step := NotStuck(jobs, end);
      MeasureDecreases(jobs, end, step);
      var more := states + [Apply(jobs, end, step)];
      assert Next(jobs, end, Apply(jobs, end, step));
      forall n | 0 <= n < |more| - 1
        ensures Next(jobs, more[n], more[n + 1])
      {
        if n < |states| - 1 {
          assert Next(jobs, states[n], states[n + 1]);
        }
      }
      full := EveryRunCompletes(jobs, workers, more);
    }
  }
}
