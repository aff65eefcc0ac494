/** The round-robin scheduler. A context is the address of the registers saved on a task's own stack. */
module Multitasking {
  const MAX_TASKS: nat := 256

  class Task {
    var cpuState: nat

    constructor (cpuState: nat)
      ensures this.cpuState == cpuState
    {
      this.cpuState := cpuState;
    }
  }

  // ----- the scheduler on values

  /** The task table, the slot that runs (-1 before the first tick), and the context kept for each task. A task may
      stand in several slots. */
  datatype Schedule = Schedule(slots: seq<Task>, curr: int, saved: map<Task, nat>)

  /** A task is added with its context at that time, or a timer interrupt arrives with the context it found. */
  datatype Event = Added(task: Task, context: nat) | Tick(context: nat)

  ghost function Tasks(slots: seq<Task>): set<Task> { set task | task in slots }

  ghost predicate Sound(s: Schedule) {
    && |s.slots| <= MAX_TASKS && -1 <= s.curr < |s.slots|
    && s.saved.Keys == Tasks(s.slots)
  }

  const EMPTY: Schedule := Schedule([], -1, map[])

  /** Refused when the table is full. */
  ghost function Add(s: Schedule, task: Task, context: nat): (r: Schedule)
    requires Sound(s)
    ensures Sound(r) && s.slots <= r.slots
  {
    assert Tasks(s.slots + [task]) == Tasks(s.slots) + {task};
    if |s.slots| >= MAX_TASKS then s
    else s.(slots := s.slots + [task], saved := if task in s.saved then s.saved else s.saved[task := context])
  }

  /** Saves the interrupted task, if there is one, and moves to the next slot, round and round. */
  ghost function Preempt(s: Schedule, context: nat): Schedule
    requires Sound(s)
  {
    if s.slots == [] then s
    else
      s.(saved := if s.curr >= 0 then s.saved[s.slots[s.curr] := context] else s.saved,
         curr := if s.curr + 1 >= |s.slots| then (s.curr + 1) % |s.slots| else s.curr + 1)
  }

  ghost function Next(s: Schedule, e: Event): (r: Schedule)
    requires Sound(s)
    ensures Sound(r) && s.slots <= r.slots
  {
    match e
    case Added(task, context) => Add(s, task, context)
    case Tick(context) => Preempt(s, context)
  }

  ghost function Run(s: Schedule, es: seq<Event>): (r: Schedule)
    requires Sound(s)
    ensures Sound(r) && s.slots <= r.slots
    decreases |es|
  {
    if es == [] then s else Next(Run(s, es[..|es| - 1]), es[|es| - 1])
  }

  /** The task the processor is in. */
  ghost predicate Runs(s: Schedule, task: Task) {
    0 <= s.curr < |s.slots| && s.slots[s.curr] == task
  }

  /** The context a tick resumes. */
  ghost function Resumed(s: Schedule, context: nat): nat
    requires Sound(s)
  {
    var r := Preempt(s, context);
    if r.slots == [] then context else r.saved[r.slots[r.curr]]
  }

  // ----- contexts survive

  /** State after the first `k` events. */
  ghost function At(es: seq<Event>, k: nat): (s: Schedule)
    requires k <= |es|
    ensures Sound(s)
  {
    Run(EMPTY, es[..k])
  }

  lemma AtNext(es: seq<Event>, k: nat)
    requires k < |es|
    ensures At(es, k + 1) == Next(At(es, k), es[k])
  {
    assert es[..k + 1][..k] == es[..k];
  }

  /** A task that does not run keeps its context. */
  lemma {:induction false} Kept(es: seq<Event>, i: nat, j: nat, task: Task)
    requires i <= j <= |es| && task in At(es, i).saved
    requires forall k {:trigger At(es, k)} :: i <= k < j && es[k].Tick? ==> !Runs(At(es, k), task)
    ensures task in At(es, j).saved && At(es, j).saved[task] == At(es, i).saved[task]
    decreases j - i
  {
    hide At;
    if i < j {
      Kept(es, i, j - 1, task);
      AtNext(es, j - 1);
      assert !(es[j - 1].Tick? && Runs(At(es, j - 1), task));
    }
  }

  /** Over every run: a task interrupted at event `i` and next chosen by the tick `j` is resumed with exactly the
      context it was interrupted with. */
  lemma ContextPreserved(es: seq<Event>, i: nat, j: nat, task: Task)
    requires i <= j < |es| && es[i].Tick? && es[j].Tick?
    requires Runs(At(es, i), task) && Runs(At(es, j + 1), task)
    requires forall k {:trigger At(es, k)} :: i < k <= j && es[k].Tick? ==> !Runs(At(es, k), task)
    ensures Resumed(At(es, j), es[j].context) == es[i].context
  {
    hide At;
    AtNext(es, i);
    AtNext(es, j);
    if i < j { Kept(es, i + 1, j, task); }
  }

  /** Over every run: a task that is chosen for the first time gets the context it was added with. */
  lemma FirstContext(es: seq<Event>, i: nat, j: nat, task: Task)
    requires i < j < |es| && es[i].Added? && es[i].task == task && es[j].Tick?
    requires |At(es, i).slots| < 256 && task !in At(es, i).slots
    requires Runs(At(es, j + 1), task)
    requires forall k {:trigger At(es, k)} :: i < k <= j && es[k].Tick? ==> !Runs(At(es, k), task)
    ensures Resumed(At(es, j), es[j].context) == es[i].context
  {
    hide At;
    AtNext(es, i);
    AtNext(es, j);
    Kept(es, i + 1, j, task);
  }

  /** Over every run: as long as no task has been added, every tick resumes exactly the context it found, and there is
      still no task. */
  lemma {:induction false} NoTasks(es: seq<Event>, j: nat)
    requires j <= |es| && forall k :: 0 <= k < j ==> !es[k].Added?
    ensures At(es, j) == EMPTY
    ensures j < |es| && es[j].Tick? ==> Resumed(At(es, j), es[j].context) == es[j].context && At(es, j + 1) == EMPTY
    decreases j
  {
    hide At;
    if j == 0 {
      AtStart(es);
    } else {
      NoTasks(es, j - 1);
      assert es[j - 1].Tick?;
    }
    if j < |es| { AtNext(es, j); }
  }

  lemma AtStart(es: seq<Event>)
    ensures At(es, 0) == EMPTY
  {
  }

  /** The context that arrives with the first tick belongs to no task and is dropped. */
  lemma FirstTickDropped(s: Schedule, c: nat, d: nat)
    requires Sound(s) && s.curr == -1 && s.slots != []
    ensures Preempt(s, c) == Preempt(s, d) && Resumed(s, c) == Resumed(s, d) == s.saved[s.slots[0]]
  {
  }

  // ----- every slot has its turn

  function Ticks(es: seq<Event>): nat {
    if es == [] then 0 else Ticks(es[..|es| - 1]) + (if es[|es| - 1].Tick? then 1 else 0)
  }

  /** Ticks until the slot's turn at the latest, however many tasks are added meanwhile. */
  function Wait(s: Schedule, slot: nat): int {
    if s.curr < slot then slot - s.curr else MAX_TASKS + slot - s.curr
  }

  /** The slot that runs after event `k`. */
  ghost function ChosenAt(s: Schedule, es: seq<Event>, k: nat): int
    requires Sound(s) && k < |es|
  {
    Run(s, es[..k + 1]).curr
  }

  /** Slot `slot` was chosen by one of the events. */
  ghost predicate HadTurn(s: Schedule, es: seq<Event>, slot: nat)
    requires Sound(s)
  {
    exists k: nat {:trigger ChosenAt(s, es, k)} :: k < |es| && es[k].Tick? && ChosenAt(s, es, k) == slot
  }

  lemma WaitShrinks(s: Schedule, e: Event, slot: nat)
    requires Sound(s) && slot < |s.slots|
    ensures var r := Next(s, e);
            if e.Tick? then r.curr == slot || Wait(r, slot) <= Wait(s, slot) - 1 else Wait(r, slot) == Wait(s, slot)
  {
    hide Preempt, Around;
    if e.Tick? { PreemptTurn(s, e.context); }
  }

  lemma {:induction false} WaitOver(s: Schedule, es: seq<Event>, slot: nat)
    requires Sound(s) && slot < |s.slots| && !HadTurn(s, es, slot)
    ensures Wait(Run(s, es), slot) <= Wait(s, slot) - Ticks(es)
    decreases |es|
  {
    hide Wait, Next;
    if es != [] {
      var n := |es| - 1;
      var was := es[..n];
      forall k: nat | k < n && was[k].Tick?
        ensures ChosenAt(s, was, k) != slot
      {
        assert was[..k + 1] == es[..k + 1] && ChosenAt(s, es, k) != slot;
      }
      WaitOver(s, was, slot);
      assert es[..n + 1] == es;
      assert es[n].Tick? ==> ChosenAt(s, es, n) != slot;
      WaitShrinks(Run(s, was), es[n], slot);
    }
  }

  /** Every added task is chosen within 256 ticks, whatever is added in between. */
  lemma Fair(s: Schedule, es: seq<Event>, slot: nat)
    requires Sound(s) && slot < |s.slots| && Ticks(es) >= 256
    ensures HadTurn(s, es, slot)
  {
    if !HadTurn(s, es, slot) {
      WaitOver(s, es, slot);
      WaitIsPositive(s, es, slot);
    }
  }

  lemma WaitIsPositive(s: Schedule, es: seq<Event>, slot: nat)
    requires Sound(s) && slot < |s.slots|
    ensures 0 < Wait(Run(s, es), slot) && Wait(s, slot) <= MAX_TASKS
  {
  }

  ghost predicate OnlyTicks(es: seq<Event>) {
    forall k {:trigger es[k]} :: 0 <= k < |es| ==> es[k].Tick?
  }

  /** The slot `x` places after the start of the table, round and round. */
  function Around(x: int, n: nat): (slot: int)
    requires n > 0
  {
    x % n
  }

  lemma AroundNext(x: nat, n: nat)
    requires n > 0
    ensures 0 <= Around(x, n) < n
    ensures Around(x + 1, n) == if Around(x, n) + 1 == n then 0 else Around(x, n) + 1
  {
    var q, c := x / n, x % n;
    assert x == n * q + c;
    if c + 1 == n {
      assert x + 1 == n * (q + 1);
      Residue(x + 1, n, q + 1, 0);
    } else {
      Residue(x + 1, n, q, c + 1);
    }
  }

  lemma Residue(x: int, n: nat, q: int, c: int)
    requires x == n * q + c && 0 <= c < n
    ensures Around(x, n) == c
  {
    var d := x / n - q;
    assert n * d == c - x % n;
    Between(n, d);
  }

  lemma Between(n: nat, d: int)
    requires n > 0 && -(n as int) < n * d < n
    ensures d == 0
  {
  }

  lemma PreemptTurn(s: Schedule, context: nat)
    requires Sound(s) && s.slots != []
    ensures var r := Preempt(s, context);
            r.slots == s.slots && r.curr == if s.curr + 1 == |s.slots| then 0 else s.curr + 1
  {
    if s.curr + 1 == |s.slots| { Residue(s.curr + 1, |s.slots|, 1, 0); }
  }

  /** With `n` tasks and no additions the slots follow one another cyclically. */
  lemma {:induction false} RoundRobin(s: Schedule, es: seq<Event>)
    requires Sound(s) && s.slots != [] && OnlyTicks(es) && es != []
    ensures var r := Run(s, es);
            r.slots == s.slots && r.curr == Around(s.curr + |es|, |s.slots|)
    decreases |es|
  {
    hide Around, Preempt, Sound;
    var m, n := |es| - 1, |s.slots|;
    assert es[m].Tick?;
    CurrBounds(s);
    if m == 0 {
      PreemptTurn(s, es[0].context);
      if s.curr + 1 == n { Residue(n, n, 1, 0); } else { Residue(s.curr + 1, n, 0, s.curr + 1); }
    } else {
      RoundRobin(s, es[..m]);
      PreemptTurn(Run(s, es[..m]), es[m].context);
      AroundNext(s.curr + m, n);
    }
  }

  lemma CurrBounds(s: Schedule)
    requires Sound(s)
    ensures -1 <= s.curr < |s.slots| <= MAX_TASKS
  {
  }

  /** In any `n` consecutive ticks each of the `n` slots runs exactly once. */
  lemma OncePerRound(s: Schedule, es: seq<Event>, slot: nat)
    requires Sound(s) && slot < |s.slots| == |es| && OnlyTicks(es)
    ensures exists k: nat {:trigger ChosenAt(s, es, k)} :: k < |es| && ChosenAt(s, es, k) == slot
                && forall j: nat {:trigger ChosenAt(s, es, j)} :: j < |es| && ChosenAt(s, es, j) == slot ==> j == k
  {
    hide Around, Run, Next, Sound;
    CurrBounds(s);
    var n, c := |s.slots|, s.curr;
    forall j: nat {:trigger ChosenAt(s, es, j)} | j < |es|
      ensures ChosenAt(s, es, j) == if c + j + 1 >= n then c + j + 1 - n else c + j + 1
    {
      RoundRobin(s, es[..j + 1]);
      if c + j + 1 >= n { Residue(c + j + 1, n, 1, c + j + 1 - n); } else { Residue(c + j + 1, n, 0, c + j + 1); }
    }
    var k := if c < slot then slot - c - 1 else slot - c - 1 + n;
    assert ChosenAt(s, es, k) == slot;
  }

  // ----- the task manager

  class TaskManager {
    const tasks: array<Task?>
    var numTasks: int
    var currTask: int

    ghost var s: Schedule

    ghost predicate Valid()
      reads this, tasks, s.slots
    {
      && Sound(s) && tasks.Length == MAX_TASKS && numTasks == |s.slots| && currTask == s.curr
      && (forall i {:trigger s.slots[i]} :: 0 <= i < |s.slots| ==>
            tasks[i] == s.slots[i] && s.slots[i].cpuState == s.saved[s.slots[i]])
    }

    constructor ()
      ensures Valid() && fresh(tasks) && s == EMPTY
    {
      tasks := new Task?[MAX_TASKS](_ => null);
      numTasks, currTask := 0, -1;
      s := EMPTY;
    }

    method AddTask(task: Task) returns (added: bool)
      requires Valid()
      modifies this, tasks
      ensures Valid() && s == Next(old(s), Added(task, task.cpuState))
      ensures added <==> old(numTasks) < 256
      ensures numTasks == (if added then old(numTasks) + 1 else old(numTasks)) && currTask == old(currTask)
      ensures tasks[..old(numTasks)] == old(tasks[..numTasks]) && (added ==> tasks[old(numTasks)] == task)
    {
      s := Next(s, Added(task, task.cpuState));
      if numTasks >= 256 {
        return false;
      }
      tasks[numTasks] := task;
      numTasks := numTasks + 1;
      return true;
    }

    /** Called by the timer interrupt with the interrupted context; yields the context to resume. */
    method Scheduler(cpuState: nat) returns (resumed: nat)
      requires Valid()
      modifies this, s.slots
      ensures Valid() && s == Next(old(s), Tick(cpuState)) && resumed == Resumed(old(s), cpuState)
      ensures numTasks == old(numTasks)
      ensures numTasks == 0 ==> resumed == cpuState && currTask == old(currTask)
      ensures numTasks > 0 ==>
                && currTask == (if old(currTask) + 1 == numTasks then 0 else old(currTask) + 1)
                && tasks[currTask] != null && resumed == tasks[currTask].cpuState
                && (old(currTask) >= 0 ==> tasks[old(currTask)] != null && tasks[old(currTask)].cpuState == cpuState)
      ensures forall task :: task in old(s.slots) && (old(currTask) < 0 || task != tasks[old(currTask)]) ==>
                task.cpuState == old(task.cpuState)
    {
      s := Next(s, Tick(cpuState));
      if numTasks <= 0 {
        return cpuState;
      }
      if currTask >= 0 {
        var task := tasks[currTask];
        task.cpuState := cpuState;
      }
      currTask := currTask + 1;
      if currTask >= numTasks {
        currTask := currTask % numTasks;
      }
      PreemptTurn(old(s), cpuState);
      assert s.slots[currTask] == tasks[currTask];
      var next := tasks[currTask];
      return next.cpuState;
    }
  }
}
