/** The thread pool as a protocol: each action is one critical section under the lock of the queue, or one step
    of a thread outside it. */
module ThreadPool {

  type Task = nat

  datatype Policy = AllTasksComplete | CurrentTaskComplete

  /** Where a worker is: before the lock, executing, back from its task but not yet counted off, or
      out of its loop. */
  datatype Worker = Idle | Running(task: Task) | Returned(task: Task) | Exited

  /** The shared fields, the workers, and the history: tasks in the order in which they were enqueued,
      started and counted off, and those that have returned. */
  datatype State = State(
    policy: Policy, tasks: seq<Task>, activeTasks: int, exitCondition: bool, workers: seq<Worker>,
    enqueued: seq<Task>, started: seq<Task>, completed: multiset<Task>, finished: seq<Task>)

  datatype Action = Enqueue(task: Task) | Wake(w: nat) | Return(w: nat) | CountOff(w: nat) | SetExit

  function Init(n: nat, policy: Policy): (s: State) {
    State(policy, [], 0, false, seq(n, i => Idle), [], [], multiset{}, [])
  }

  predicate Enabled(s: State, a: Action) {
    match a
    case Enqueue(_) => true
    case SetExit => true
    case Wake(w) => w < |s.workers| && s.workers[w].Idle? && (s.exitCondition || s.tasks != [])
    case Return(w) => w < |s.workers| && s.workers[w].Running?
    case CountOff(w) => w < |s.workers| && s.workers[w].Returned?
  }

  /** Passing the condition variable: with the exit flag set no task is taken any more. */
  function AfterWake(s: State, w: nat): (r: State)
    requires Enabled(s, Wake(w))
  {
    if s.exitCondition then
      if s.policy == CurrentTaskComplete || s.tasks == [] then s.(workers := s.workers[w := Exited]) else s
    else
      s.(tasks := s.tasks[1..], activeTasks := s.activeTasks + 1, workers := s.workers[w := Running(s.tasks[0])],
         started := s.started + [s.tasks[0]])
  }

  function Do(s: State, a: Action): (r: State)
    requires Enabled(s, a)
  {
    match a
    case Enqueue(t) => s.(tasks := s.tasks + [t], enqueued := s.enqueued + [t])
    case SetExit => s.(exitCondition := true)
    case Wake(w) => AfterWake(s, w)
    case Return(w) =>
      s.(workers := s.workers[w := Returned(s.workers[w].task)], completed := s.completed + multiset{s.workers[w].task})
    case CountOff(w) =>
      s.(activeTasks := s.activeTasks - 1, workers := s.workers[w := Idle], finished := s.finished + [s.workers[w].task])
  }

  /** A run: the states before each action and at the end. */
  ghost predicate IsRun(states: seq<State>, actions: seq<Action>) {
    && |states| == |actions| + 1
    && forall i :: 0 <= i < |actions| ==> Enabled(states[i], actions[i]) && states[i + 1] == Do(states[i], actions[i])
  }

  /** What `wait` waits for. */
  predicate WaitReturns(s: State) { s.tasks == [] && s.activeTasks == 0 }

  // ----- the invariant -----

  predicate Busy(w: Worker) { w.Running? || w.Returned? }

  function BusyCount(ws: seq<Worker>): (n: nat) {
    if ws == [] then 0 else BusyCount(ws[1..]) + if Busy(ws[0]) then 1 else 0
  }

  /** A task in a worker's hand; once returned, it is held until it is counted off. */
  function Hand(w: Worker, held: bool): (m: multiset<Task>) {
    if w.Running? || (held && w.Returned?) then multiset{w.task} else multiset{}
  }

  /** The tasks in execution, or all those held. */
  function InHand(ws: seq<Worker>, held: bool): (m: multiset<Task>) {
    if ws == [] then multiset{} else Hand(ws[0], held) + InHand(ws[1..], held)
  }

  /** Started and queued tasks are the enqueued ones in order; the counter counts the busy workers;
      what was started is in execution or has returned, and is held or has been counted off. */
  predicate Inv(s: State) {
    && s.enqueued == s.started + s.tasks
    && s.activeTasks == BusyCount(s.workers)
    && multiset(s.started) == s.completed + InHand(s.workers, false)
    && multiset(s.started) == multiset(s.finished) + InHand(s.workers, true)
  }

  lemma {:induction false} ChangeBusy(ws: seq<Worker>, i: nat, w: Worker)
    requires i < |ws|
    ensures BusyCount(ws[i := w]) == BusyCount(ws) - (if Busy(ws[i]) then 1 else 0) + (if Busy(w) then 1 else 0)
  {
    var vs := ws[i := w];
    if i == 0 {
      assert vs[1..] == ws[1..];
    } else {
      assert vs[1..] == ws[1..][i - 1 := w];
      ChangeBusy(ws[1..], i - 1, w);
    }
  }

  lemma {:induction false} ChangeHand(ws: seq<Worker>, i: nat, w: Worker, held: bool)
    requires i < |ws|
    ensures InHand(ws[i := w], held) + Hand(ws[i], held) == InHand(ws, held) + Hand(w, held)
  {
    var vs := ws[i := w];
    InHandCons(ws, held);
    InHandCons(vs, held);
    hide InHand;
    hide Hand;
    if i == 0 {
      assert vs[1..] == ws[1..];
      Regroup(InHand(ws[1..], held), Hand(w, held), Hand(ws[0], held), Hand(ws[0], held), Hand(w, held));
    } else {
      assert vs[1..] == ws[1..][i - 1 := w];
      ChangeHand(ws[1..], i - 1, w, held);
      Regroup(Hand(ws[0], held), InHand(vs[1..], held), Hand(ws[i], held), InHand(ws[1..], held), Hand(w, held));
    }
  }

  lemma InHandCons(ws: seq<Worker>, held: bool)
    requires ws != []
    ensures InHand(ws, held) == Hand(ws[0], held) + InHand(ws[1..], held)
  {
  }

  lemma Regroup(h: multiset<Task>, a: multiset<Task>, x: multiset<Task>, b: multiset<Task>, y: multiset<Task>)
    requires a + x == b + y
    ensures (h + a) + x == (h + b) + y && (a + h) + x == (b + h) + y
  {
    assert (h + a) + x == h + (a + x) && (a + h) + x == h + (a + x);
    assert (h + b) + y == h + (b + y) && (b + h) + y == h + (b + y);
  }

  /** A task that leaves a worker's hand, if it had one, joins those out of hand. */
  lemma LeavesHand(s: State, w: nat, v: Worker, held: bool, out: multiset<Task>)
    requires w < |s.workers| && Hand(v, held) == multiset{} && multiset(s.started) == out + InHand(s.workers, held)
    ensures multiset(s.started) == (out + Hand(s.workers[w], held)) + InHand(s.workers[w := v], held)
  {
    ChangeHand(s.workers, w, v, held);
    hide InHand;
    hide Hand;
    var before, after, t := InHand(s.workers, held), InHand(s.workers[w := v], held), Hand(s.workers[w], held);
    assert before + multiset{} == before;
    assert out + (after + t) == (out + t) + after;
  }

  /** Same hand, same tasks in hand. */
  lemma SameHand(ws: seq<Worker>, w: nat, v: Worker, held: bool)
    requires w < |ws| && Hand(v, held) == Hand(ws[w], held)
    ensures InHand(ws[w := v], held) == InHand(ws, held)
  {
    ChangeHand(ws, w, v, held);
    hide InHand;
    hide Hand;
    Cancel(InHand(ws[w := v], held), InHand(ws, held), Hand(v, held));
  }

  lemma Cancel(a: multiset<Task>, b: multiset<Task>, t: multiset<Task>)
    requires a + t == b + t
    ensures a == b
  {
    forall x ensures a[x] == b[x] {
      assert (a + t)[x] == (b + t)[x];
    }
  }

  lemma {:induction false} NoneBusy(n: nat)
    ensures var ws := seq(n, i => Idle);
            BusyCount(ws) == 0 && InHand(ws, false) == multiset{} && InHand(ws, true) == multiset{}
  {
    if n > 0 {
      var ws := seq(n, i => Idle);
      assert ws[1..] == seq(n - 1, i => Idle);
      NoneBusy(n - 1);
    }
  }

  lemma StepKeepsInv(s: State, a: Action)
    requires Inv(s) && Enabled(s, a)
    ensures Inv(Do(s, a))
  {
    match a
    case Enqueue(t) =>
      assert s.started + (s.tasks + [t]) == s.started + s.tasks + [t];
    case SetExit =>
    case Wake(w) => WakeKeepsInv(s, w);
    case Return(w) => ReturnKeepsInv(s, w);
    case CountOff(w) => CountOffKeepsInv(s, w);
  }

  lemma ReturnKeepsInv(s: State, w: nat)
    requires Inv(s) && Enabled(s, Return(w))
    ensures Inv(Do(s, Return(w)))
  {
    hide BusyCount;
    hide InHand;
    var v := Returned(s.workers[w].task);
    ChangeBusy(s.workers, w, v);
    LeavesHand(s, w, v, false, s.completed);
    SameHand(s.workers, w, v, true);
  }

  lemma CountOffKeepsInv(s: State, w: nat)
    requires Inv(s) && Enabled(s, CountOff(w))
    ensures Inv(Do(s, CountOff(w)))
  {
    hide BusyCount;
    hide InHand;
    ChangeBusy(s.workers, w, Idle);
    LeavesHand(s, w, Idle, true, multiset(s.finished));
    SameHand(s.workers, w, Idle, false);
    assert multiset(s.finished + [s.workers[w].task]) == multiset(s.finished) + multiset{s.workers[w].task};
  }

  lemma WakeKeepsInv(s: State, w: nat)
    requires Inv(s) && Enabled(s, Wake(w))
    ensures Inv(AfterWake(s, w))
  {
    if s.exitCondition {
      ChangeBusy(s.workers, w, Exited);
      SameHand(s.workers, w, Exited, false);
      SameHand(s.workers, w, Exited, true);
    } else {
      TakeKeepsInv(s, w);
    }
  }

  /** A task taken into an empty hand. */
  lemma EntersHand(s: State, w: nat, t: Task, held: bool, out: multiset<Task>)
    requires w < |s.workers| && s.workers[w].Idle? && multiset(s.started) == out + InHand(s.workers, held)
    ensures multiset(s.started + [t]) == out + InHand(s.workers[w := Running(t)], held)
  {
    ChangeHand(s.workers, w, Running(t), held);
    var before, after := InHand(s.workers, held), InHand(s.workers[w := Running(t)], held);
    hide InHand;
    assert after + multiset{} == after;
    assert after == before + multiset{t};
    assert (out + before) + multiset{t} == out + (before + multiset{t});
  }

  lemma TakeKeepsInv(s: State, w: nat)
    requires Inv(s) && Enabled(s, Wake(w)) && !s.exitCondition
    ensures Inv(AfterWake(s, w))
  {
    hide BusyCount;
    hide InHand;
    ChangeBusy(s.workers, w, Running(s.tasks[0]));
    assert s.started + s.tasks == s.started + [s.tasks[0]] + s.tasks[1..];
    EntersHand(s, w, s.tasks[0], false, s.completed);
    EntersHand(s, w, s.tasks[0], true, multiset(s.finished));
  }

  /** The invariant holds throughout every run. */
  lemma {:induction false} RunKeepsInv(states: seq<State>, actions: seq<Action>, k: nat, n: nat, policy: Policy)
    requires IsRun(states, actions) && states[0] == Init(n, policy) && k < |states|
    ensures Inv(states[k])
    decreases k
  {
    if k == 0 {
      NoneBusy(n);
    } else {
      RunKeepsInv(states, actions, k - 1, n, policy);
      StepKeepsInv(states[k - 1], actions[k - 1]);
    }
  }

  // ----- what follows for every run -----

  lemma {:induction false} HeldAreBusy(ws: seq<Worker>)
    ensures |InHand(ws, true)| == BusyCount(ws)
  {
    if ws != [] {
      HeldAreBusy(ws[1..]);
    }
  }

  /** Enqueued = queued + active + finished, task by task and in numbers; tasks start in the order in
      which they were enqueued, each at most once per enqueueing; and a finished task has returned. */
  lemma Conservation(states: seq<State>, actions: seq<Action>, k: nat, n: nat, policy: Policy)
    requires IsRun(states, actions) && states[0] == Init(n, policy) && k < |states|
    ensures var s := states[k];
            && multiset(s.enqueued) == multiset(s.tasks) + InHand(s.workers, true) + multiset(s.finished)
            && |s.enqueued| == |s.tasks| + s.activeTasks + |s.finished|
            && s.started <= s.enqueued
            && multiset(s.finished) <= s.completed <= multiset(s.started)
  {
    RunKeepsInv(states, actions, k, n, policy);
    var s := states[k];
    HeldAreBusy(s.workers);
    RunningAreHeld(s.workers);
    hide InHand;
    Squeeze(multiset(s.finished), InHand(s.workers, true), s.completed, InHand(s.workers, false));
    Balance(s.enqueued, s.started, s.tasks, s.finished, InHand(s.workers, true));
  }

  lemma Squeeze(f: multiset<Task>, h: multiset<Task>, c: multiset<Task>, r: multiset<Task>)
    requires f + h == c + r && r <= h
    ensures f <= c
  {
    forall t ensures f[t] <= c[t] {
      assert (f + h)[t] == (c + r)[t];
    }
  }

  lemma Balance(enqueued: seq<Task>, started: seq<Task>, tasks: seq<Task>, finished: seq<Task>, held: multiset<Task>)
    requires enqueued == started + tasks && multiset(started) == multiset(finished) + held
    ensures multiset(enqueued) == multiset(tasks) + held + multiset(finished)
    ensures |enqueued| == |tasks| + |held| + |finished|
  {
    assert |multiset(started)| == |multiset(finished)| + |held|;
    assert |multiset(started)| == |started| && |multiset(finished)| == |finished|;
  }

  lemma {:induction false} RunningAreHeld(ws: seq<Worker>)
    ensures InHand(ws, false) <= InHand(ws, true)
  {
    if ws != [] {
      RunningAreHeld(ws[1..]);
    }
  }

  lemma {:induction false} NotBusyNothingInHand(ws: seq<Worker>)
    requires BusyCount(ws) == 0
    ensures InHand(ws, false) == multiset{}
  {
    if ws != [] {
      NotBusyNothingInHand(ws[1..]);
    }
  }

  /** When `wait` may return, every task enqueued so far has returned. */
  lemma WaitMeansDone(states: seq<State>, actions: seq<Action>, k: nat, n: nat, policy: Policy)
    requires IsRun(states, actions) && states[0] == Init(n, policy) && k < |states| && WaitReturns(states[k])
    ensures states[k].completed == multiset(states[k].enqueued)
  {
    RunKeepsInv(states, actions, k, n, policy);
    NotBusyNothingInHand(states[k].workers);
    assert states[k].started + [] == states[k].started;
  }

  // ----- leaving the loop -----

  /** A worker leaves only after the exit flag, and under AllTasksComplete only with an empty queue. */
  lemma ExitsOnlyWhenAllowed(s: State, a: Action, w: nat)
    requires Enabled(s, a) && w < |s.workers| && s.workers[w] != Exited && Do(s, a).workers[w] == Exited
    ensures s.exitCondition && (s.policy == AllTasksComplete ==> s.tasks == [])
  {
  }

  /** Stuck: the exit flag is set while tasks are still queued, under the policy that wants them done. */
  predicate Stuck(s: State) { s.exitCondition && s.policy == AllTasksComplete && s.tasks != [] }

  lemma StuckStep(s: State, a: Action)
    requires Stuck(s) && Enabled(s, a)
    ensures var r := Do(s, a);
            && Stuck(r)
            && s.tasks <= r.tasks
            && r.started == s.started
            && |r.workers| == |s.workers|
            && forall w :: 0 <= w < |s.workers| ==> (r.workers[w].Exited? <==> s.workers[w].Exited?)
  {
  }

  /** From then on no queued task is ever started and no further worker ever leaves its loop. */
  lemma {:induction false} StuckForever(states: seq<State>, actions: seq<Action>, i: nat, k: nat)
    requires IsRun(states, actions) && i <= k < |states| && Stuck(states[i])
    ensures Stuck(states[k]) && states[i].tasks <= states[k].tasks && states[k].started == states[i].started
    ensures |states[k].workers| == |states[i].workers|
    ensures forall w :: 0 <= w < |states[i].workers| ==> (states[k].workers[w].Exited? <==> states[i].workers[w].Exited?)
    decreases k
  {
    if i < k {
      StuckForever(states, actions, i, k - 1);
      StuckStep(states[k - 1], actions[k - 1]);
    }
  }

  predicate AllExited(s: State) { forall w :: 0 <= w < |s.workers| ==> s.workers[w].Exited? }

  // ----- the destructor -----

  /** Once the flag is set and nothing keeps the workers, they may leave one by one. */
  predicate Free(s: State) { s.exitCondition && (s.policy == AllTasksComplete ==> s.tasks == []) }

  /** Some run leads from one state to the other. */
  ghost predicate Reaches(s: State, r: State) {
    exists states, actions :: IsRun(states, actions) && states[0] == s && states[|states| - 1] == r
  }

  lemma ReachesSelf(s: State)
    ensures Reaches(s, s)
  {
    assert IsRun([s], []) && [s][0] == s;
  }

  lemma ReachesStep(s: State, r: State, a: Action)
    requires Reaches(s, r) && Enabled(r, a)
    ensures Reaches(s, Do(r, a))
  {
    var states, actions :| IsRun(states, actions) && states[0] == s && states[|states| - 1] == r;
    var more := states + [Do(r, a)];
    assert IsRun(more, actions + [a]) && more[0] == s && more[|more| - 1] == Do(r, a);
  }

  /** The first n workers have left. */
  predicate Left(s: State, n: nat) { n <= |s.workers| && forall w :: 0 <= w < n ==> s.workers[w].Exited? }

  /** Worker n can finish what it does and leave. */
  lemma LeavesNext(s: State, r: State, n: nat) returns (q: State)
    requires Reaches(s, r) && Free(r) && Left(r, n) && n < |r.workers|
    ensures Reaches(s, q) && Free(q) && Left(q, n + 1) && |q.workers| == |r.workers|
  {
    q := r;
    if q.workers[n].Running? {
      ReachesStep(s, q, Return(n));
      q := Do(q, Return(n));
    }
    if q.workers[n].Returned? {
      ReachesStep(s, q, CountOff(n));
      q := Do(q, CountOff(n));
    }
    if q.workers[n].Idle? {
      ReachesStep(s, q, Wake(n));
      q := Do(q, Wake(n));
    }
  }

  lemma {:induction false} AllCanLeave(s: State, r: State, n: nat) returns (q: State)
    requires Reaches(s, r) && Free(r) && Left(r, n)
    ensures Reaches(s, q) && AllExited(q)
    decreases |r.workers| - n
  {
    if n == |r.workers| {
      q := r;
    } else {
      var next := LeavesNext(s, r, n);
      q := AllCanLeave(s, next, n + 1);
    }
  }

  /** After the exit flag, the destructor can still join every worker exactly if nothing is queued,
      the policy does not ask for it, or all have left already. */
  lemma JoinPossibleIff(s: State)
    requires s.exitCondition
    ensures (exists r :: Reaches(s, r) && AllExited(r)) <==> (s.policy == CurrentTaskComplete || s.tasks == [] || AllExited(s))
  {
    if Free(s) {
      ReachesSelf(s);
      var q := AllCanLeave(s, s, 0);
    } else if AllExited(s) {
      ReachesSelf(s);
    } else {
      forall r | Reaches(s, r) ensures !AllExited(r) {
        var states, actions :| IsRun(states, actions) && states[0] == s && states[|states| - 1] == r;
        StuckForever(states, actions, 0, |states| - 1);
      }
    }
  }
}
