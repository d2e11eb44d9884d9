/** Round-robin scheduling as a state machine over system calls: between two switches a
    task runs undisturbed, so a call up to its next switch is one step. */
module Scheduler {
  import Words
  import opened Options
  import List

  datatype TaskState = Running | Waiting | Zombie

  /** A task, and the pid whose end it is waiting for, if it is inside waitpid. */
  datatype Task = Task(pid: nat, state: TaskState, waitsFor: Option<nat>)

  /** The task list, the index of the current task and the pid counter. */
  datatype System = System(tasks: seq<Task>, cur: nat, nextPid: nat)

  /** The index after i in a ring of n. */
  function Wrap(i: nat, n: nat): nat { if i >= n then i - n else i }

  predicate IsRunning(tasks: seq<Task>, i: nat)
    requires i < |tasks|
  {
    tasks[i].state == Running
  }

  ghost predicate HasRunning(tasks: seq<Task>) { exists i :: 0 <= i < |tasks| && IsRunning(tasks, i) }

  /** The search of task_yield: the first running task from the k-th after cur on, cur itself
      being the last one looked at. */
  function Search(tasks: seq<Task>, cur: nat, k: nat): (r: Option<nat>)
    requires cur < |tasks| && 1 <= k <= |tasks| + 1
    ensures r.Some? ==> r.value < |tasks| && IsRunning(tasks, r.value)
    decreases |tasks| + 1 - k
  {
    if k > |tasks| then None
    else
      var i := Wrap(cur + k, |tasks|);
      if IsRunning(tasks, i) then Some(i) else Search(tasks, cur, k + 1)
  }

  /** Tasks from cur's successor up to and including i, around the ring. */
  function Ahead(cur: nat, i: nat, n: nat): (k: nat)
    requires cur < n && i < n
    ensures 1 <= k <= n && Wrap(cur + k, n) == i
  {
    if i > cur then i - cur else i + n - cur
  }

  /** The search never goes past a running task. */
  lemma {:induction false} SearchStops(tasks: seq<Task>, cur: nat, k: nat, i: nat)
    requires cur < |tasks| && i < |tasks| && IsRunning(tasks, i) && 1 <= k <= Ahead(cur, i, |tasks|)
    ensures Search(tasks, cur, k).Some?
    ensures k <= Ahead(cur, Search(tasks, cur, k).value, |tasks|) <= Ahead(cur, i, |tasks|)
    decreases |tasks| - k
  {
    if !IsRunning(tasks, Wrap(cur + k, |tasks|)) { SearchStops(tasks, cur, k + 1, i); }
  }

  /** It ends exactly when some task is running. */
  lemma SearchEnds(tasks: seq<Task>, cur: nat)
    requires cur < |tasks|
    ensures Search(tasks, cur, 1).Some? <==> HasRunning(tasks)
  {
    if HasRunning(tasks) {
      var i :| 0 <= i < |tasks| && IsRunning(tasks, i);
      SearchStops(tasks, cur, 1, i);
    }
  }

  // ---- system calls

  /** kill looks for the low 32 bits of its argument, waitpid for all of it. */
  datatype Call = Yield | Fork | Exit | Kill(arg: nat) | WaitPid(pid: nat)

  /** Position of a pid in the list. */
  function FindPid(tasks: seq<Task>, pid: nat): (r: Option<nat>)
    ensures r.Some? ==> r.value < |tasks| && tasks[r.value].pid == pid
    ensures r.None? ==> forall i :: 0 <= i < |tasks| ==> tasks[i].pid != pid
  {
    if tasks == [] then None
    else if tasks[0].pid == pid then Some(0)
    else
      var r := FindPid(tasks[1..], pid);
      if r.None? then None else Some(r.value + 1)
  }

  function MarkZombie(tasks: seq<Task>, i: nat): seq<Task>
    requires i < |tasks|
  {
    tasks[i := tasks[i].(state := Zombie)]
  }

  /** The tasks as they are when task_yield starts to search, if the call gets there. */
  function BeforeSwitch(s: System, call: Call): Option<seq<Task>>
    requires s.cur < |s.tasks|
  {
    match call
    case Yield => Some(s.tasks)
    case Fork => None
    case Exit => Some(MarkZombie(s.tasks, s.cur))
    case Kill(arg) =>
      var k := FindPid(s.tasks, Words.U32(arg));
      if k.None? then None else Some(MarkZombie(s.tasks, k.value))
    case WaitPid(pid) =>
      var k := FindPid(s.tasks, pid);
      if k.None? || s.tasks[k.value].state == Zombie then None
      else Some(s.tasks[s.cur := s.tasks[s.cur].(waitsFor := Some(pid))])
  }

  /** What the current task may do: go on waiting if it waits, else anything; and where it
      gives up the processor some task must be able to take it, or the kernel idles. */
  ghost predicate Enabled(s: System, call: Call)
    requires s.cur < |s.tasks|
  {
    && (s.tasks[s.cur].waitsFor.Some? ==> call == WaitPid(s.tasks[s.cur].waitsFor.value))
    && var tasks := BeforeSwitch(s, call);
       tasks.Some? ==> HasRunning(tasks.value)
  }

  /** The list without the k-th task, which is not the current one. */
  function Reap(s: System, k: nat): System
    requires s.cur < |s.tasks| && k < |s.tasks| && k != s.cur
  {
    var tasks := s.tasks[s.cur := s.tasks[s.cur].(waitsFor := None)];
    s.(tasks := List.Remove(tasks, k), cur := if k < s.cur then s.cur - 1 else s.cur)
  }

  function Next(s: System, call: Call): System
    requires s.cur < |s.tasks| && IsRunning(s.tasks, s.cur) && Enabled(s, call)
  {
    var tasks := BeforeSwitch(s, call);
    if tasks.Some? then
      SearchEnds(tasks.value, s.cur);
      s.(tasks := tasks.value, cur := Search(tasks.value, s.cur, 1).value)
    else
      match call
      case Fork =>
        System(s.tasks + [Task(s.nextPid, s.tasks[s.cur].state, None)], s.cur, Words.U32(s.nextPid + 1))
      case WaitPid(pid) =>
        var k := FindPid(s.tasks, pid);
        if k.None? then s else Reap(s, k.value)
      case _ => s
  }

  // ---- what each call does, task by task

  lemma {:induction false} FindPidIs(tasks: seq<Task>, k: nat)
    requires k < |tasks| && forall i, j :: 0 <= i < j < |tasks| ==> tasks[i].pid < tasks[j].pid
    ensures FindPid(tasks, tasks[k].pid) == Some(k)
  {}

  /** A call that gives up the processor selects the first running task after the caller. */
  lemma SwitchSelects(s: System, call: Call, i: nat)
    requires s.cur < |s.tasks| && IsRunning(s.tasks, s.cur) && Enabled(s, call)
    requires match call
             case Yield | Exit => true
             case Kill(arg) => exists k :: 0 <= k < |s.tasks| && s.tasks[k].pid == Words.U32(arg)
             case WaitPid(pid) => FindPid(s.tasks, pid).Some? && s.tasks[FindPid(s.tasks, pid).value].state != Zombie
             case Fork => false
    requires i < |Next(s, call).tasks| && IsRunning(Next(s, call).tasks, i)
    ensures var t := Next(s, call);
            && t.cur < |t.tasks| == |s.tasks| && IsRunning(t.tasks, t.cur)
            && Ahead(s.cur, t.cur, |s.tasks|) <= Ahead(s.cur, i, |s.tasks|)
  {
    SearchStops(BeforeSwitch(s, call).value, s.cur, 1, i);
  }

  /** sched_yield changes no task. */
  lemma YieldEffect(s: System)
    requires s.cur < |s.tasks| && IsRunning(s.tasks, s.cur) && Enabled(s, Yield)
    ensures var t := Next(s, Yield); t.tasks == s.tasks && t.nextPid == s.nextPid
  {}

  /** fork adds a running task with the next pid at the end and does not switch. */
  lemma ForkEffect(s: System)
    requires s.cur < |s.tasks| && IsRunning(s.tasks, s.cur) && Enabled(s, Fork)
    ensures var t := Next(s, Fork);
            && t.tasks == s.tasks + [Task(s.nextPid, Running, None)] && t.cur == s.cur
            && t.nextPid == Words.U32(s.nextPid + 1)
  {}

  /** exit ends the caller and nobody else. */
  lemma ExitEffect(s: System)
    requires s.cur < |s.tasks| && IsRunning(s.tasks, s.cur) && Enabled(s, Exit)
    ensures var t := Next(s, Exit);
            && |t.tasks| == |s.tasks| && t.nextPid == s.nextPid
            && t.tasks[s.cur] == Task(s.tasks[s.cur].pid, Zombie, s.tasks[s.cur].waitsFor)
            && forall i :: 0 <= i < |s.tasks| && i != s.cur ==> t.tasks[i] == s.tasks[i]
  {}

  /** kill ends the task with the pid and nobody else; without one nothing changes at all. */
  lemma KillEffect(s: System, arg: nat, k: nat)
    requires Inv(s) && Enabled(s, Kill(arg)) && k < |s.tasks|
    ensures var t := Next(s, Kill(arg));
            && |t.tasks| == |s.tasks| && t.nextPid == s.nextPid
            && t.tasks[k].pid == s.tasks[k].pid && t.tasks[k].waitsFor == s.tasks[k].waitsFor
            && t.tasks[k].state == (if s.tasks[k].pid == Words.U32(arg) then Zombie else s.tasks[k].state)
    ensures (forall i :: 0 <= i < |s.tasks| ==> s.tasks[i].pid != Words.U32(arg)) ==> Next(s, Kill(arg)) == s
  {
    FindPidIs(s.tasks, k);
  }

  /** waitpid of nobody: nothing; of the k-th task: while it is no zombie the caller waits for
      it and nothing else changes, and when it is one it, and only it, leaves the list, and
      the caller waits no more. */
  lemma WaitEffect(s: System, pid: nat, k: nat, i: nat)
    requires Inv(s) && Enabled(s, WaitPid(pid)) && k < |s.tasks| && s.tasks[k].pid == pid && i < |s.tasks|
    ensures var t := Next(s, WaitPid(pid));
            t.nextPid == s.nextPid
            && if s.tasks[k].state == Zombie then
                 && |t.tasks| == |s.tasks| - 1 && t.cur == (if k < s.cur then s.cur - 1 else s.cur)
                 && (i != k ==> t.tasks[if i < k then i else i - 1]
                                == if i == s.cur then Task(s.tasks[i].pid, s.tasks[i].state, None) else s.tasks[i])
               else
                 && |t.tasks| == |s.tasks|
                 && t.tasks[i] == if i == s.cur then Task(s.tasks[i].pid, s.tasks[i].state, Some(pid)) else s.tasks[i]
  {
    FindPidIs(s.tasks, k);
  }

  lemma WaitForNobody(s: System, pid: nat)
    requires s.cur < |s.tasks| && IsRunning(s.tasks, s.cur) && Enabled(s, WaitPid(pid))
    requires forall i :: 0 <= i < |s.tasks| ==> s.tasks[i].pid != pid
    ensures Next(s, WaitPid(pid)) == s
  {}

  // ---- what every call keeps

  ghost predicate Increasing(tasks: seq<Task>, bound: nat) {
    && (forall i, j :: 0 <= i < j < |tasks| ==> tasks[i].pid < tasks[j].pid)
    && (forall i :: 0 <= i < |tasks| ==> tasks[i].pid < bound)
  }

  /** The current task is in the list and running; pids increase along it; and nobody who can
      still run waits for a task that is gone. */
  ghost predicate Inv(s: System) {
    && s.cur < |s.tasks| && IsRunning(s.tasks, s.cur)
    && Increasing(s.tasks, s.nextPid)
    && (forall i :: 0 <= i < |s.tasks| && IsRunning(s.tasks, i) && s.tasks[i].waitsFor.Some? ==>
          FindPid(s.tasks, s.tasks[i].waitsFor.value).Some?)
  }

  /** A pid has one waiter at a time, and the pid counter does not wrap around. */
  ghost predicate Proper(s: System, call: Call) {
    && (call.WaitPid? ==> forall i :: 0 <= i < |s.tasks| && i != s.cur && IsRunning(s.tasks, i) ==>
          s.tasks[i].waitsFor != Some(call.pid))
    && (call.Fork? ==> s.nextPid < Words.B32 - 1)
  }

  lemma {:induction false} FindPidIn(tasks: seq<Task>, pid: nat, k: nat)
    requires k < |tasks| && tasks[k].pid == pid
    ensures FindPid(tasks, pid).Some?
  {}

  ghost predicate SamePids(a: seq<Task>, b: seq<Task>) {
    |a| == |b| && forall i :: 0 <= i < |a| ==> a[i].pid == b[i].pid
  }

  lemma RemoveIncreasing(tasks: seq<Task>, k: nat, bound: nat)
    requires Increasing(tasks, bound) && k < |tasks|
    ensures Increasing(List.Remove(tasks, k), bound)
  {}

  lemma SwitchKeepsPids(s: System, call: Call)
    requires s.cur < |s.tasks|
    ensures var t := BeforeSwitch(s, call); t.Some? ==> SamePids(t.value, s.tasks)
  {}

  lemma PidsIncrease(s: System, call: Call)
    requires Inv(s) && Enabled(s, call) && Proper(s, call)
    ensures var t := Next(s, call);
            t.cur < |t.tasks| && IsRunning(t.tasks, t.cur) && Increasing(t.tasks, t.nextPid)
  {
    var tasks := BeforeSwitch(s, call);
    if tasks.Some? {
      SwitchKeepsPids(s, call);
      SearchEnds(tasks.value, s.cur);
    } else if call.WaitPid? && FindPid(s.tasks, call.pid).Some? {
      RemoveIncreasing(s.tasks[s.cur := s.tasks[s.cur].(waitsFor := None)], FindPid(s.tasks, call.pid).value, s.nextPid);
    }
  }

  /** Who is waited for stays in the list. */
  lemma TargetStays(s: System, call: Call, i: nat)
    requires Inv(s) && Enabled(s, call) && Proper(s, call)
    requires var t := Next(s, call).tasks; i < |t| && IsRunning(t, i) && t[i].waitsFor.Some?
    ensures var t := Next(s, call).tasks; FindPid(t, t[i].waitsFor.value).Some?
  {
    if BeforeSwitch(s, call).Some? {
      SwitchTarget(s, call, i);
    } else if call.WaitPid? && FindPid(s.tasks, call.pid).Some? {
      ReapTarget(s, FindPid(s.tasks, call.pid).value, i);
    } else {
      var t := Next(s, call).tasks;
      assert i < |s.tasks| && t[i] == s.tasks[i];
      FindPidIn(t, t[i].waitsFor.value, FindPid(s.tasks, t[i].waitsFor.value).value);
    }
  }

  lemma SwitchTarget(s: System, call: Call, i: nat)
    requires Inv(s) && BeforeSwitch(s, call).Some?
    requires var t := BeforeSwitch(s, call).value; i < |t| && IsRunning(t, i) && t[i].waitsFor.Some?
    ensures var t := BeforeSwitch(s, call).value; FindPid(t, t[i].waitsFor.value).Some?
  {
    var t := BeforeSwitch(s, call).value;
    SwitchKeepsPids(s, call);
    FindPidIn(t, t[i].waitsFor.value, FindPid(s.tasks, t[i].waitsFor.value).value);
  }

  lemma ReapTarget(s: System, k: nat, i: nat)
    requires Inv(s) && k < |s.tasks| && k != s.cur
    requires forall j :: 0 <= j < |s.tasks| && j != s.cur && IsRunning(s.tasks, j) ==> s.tasks[j].waitsFor != Some(s.tasks[k].pid)
    requires var t := Reap(s, k).tasks; i < |t| && IsRunning(t, i) && t[i].waitsFor.Some?
    ensures var t := Reap(s, k).tasks; FindPid(t, t[i].waitsFor.value).Some?
  {
    var t := Reap(s, k).tasks;
    var from := if i < k then i else i + 1;
    assert t[i] == s.tasks[from] && IsRunning(s.tasks, from);
    ReapFinds(s, k, FindPid(s.tasks, t[i].waitsFor.value).value);
  }

  lemma StepKeeps(s: System, call: Call)
    requires Inv(s) && Enabled(s, call) && Proper(s, call)
    ensures Inv(Next(s, call))
  {
    PidsIncrease(s, call);
    var t := Next(s, call).tasks;
    forall i | 0 <= i < |t| && IsRunning(t, i) && t[i].waitsFor.Some?
      ensures FindPid(t, t[i].waitsFor.value).Some?
    {
      TargetStays(s, call, i);
    }
  }

  // ---- whole runs

  /** states is what calls lead through. */
  ghost predicate IsRun(states: seq<System>, calls: seq<Call>) {
    && |states| == |calls| + 1 && Inv(states[0])
    && forall k :: 0 <= k < |calls| ==> Goes(states[k], calls[k], states[k + 1])
  }

  ghost predicate Goes(s: System, call: Call, t: System) {
    Inv(s) && Enabled(s, call) && Proper(s, call) && t == Next(s, call)
  }

  /** In every state of a run the current task is in the list and running, never a zombie. */
  lemma RunKeeps(states: seq<System>, calls: seq<Call>)
    requires IsRun(states, calls)
    ensures forall k :: 0 <= k < |states| ==> Inv(states[k])
  {
    forall k | 0 <= k < |states|
      ensures Inv(states[k])
    {
      if k > 0 {
        assert Goes(states[k - 1], calls[k - 1], states[k]);
        StepKeeps(states[k - 1], calls[k - 1]);
      }
    }
  }

  /** The task is there, able to run, and not the current one. */
  ghost predicate Ready(s: System, pid: nat) {
    var i := FindPid(s.tasks, pid);
    s.cur < |s.tasks| && i.Some? && IsRunning(s.tasks, i.value) && i.value != s.cur
  }

  /** Its place in the queue: one plus the tasks between the current one and it. */
  function Place(s: System, pid: nat): nat
    requires Ready(s, pid)
  {
    Ahead(s.cur, FindPid(s.tasks, pid).value, |s.tasks|)
  }

  predicate Switches(s: System, call: Call) {
    s.cur < |s.tasks| && BeforeSwitch(s, call).Some?
  }

  function SwitchCount(states: seq<System>, calls: seq<Call>): nat
    requires |states| == |calls| + 1
  {
    if calls == [] then 0
    else (if Switches(states[0], calls[0]) then 1 else 0) + SwitchCount(states[1..], calls[1..])
  }

  function ForkCount(calls: seq<Call>): nat {
    if calls == [] then 0 else (if calls[0] == Fork then 1 else 0) + ForkCount(calls[1..])
  }

  lemma SwitchCloser(s: System, call: Call, pid: nat)
    requires Inv(s) && Enabled(s, call) && Switches(s, call)
    requires Ready(s, pid) && Ready(Next(s, call), pid)
    ensures Place(Next(s, call), pid) < Place(s, pid)
  {
    var t, i, tasks := Next(s, call).tasks, FindPid(s.tasks, pid).value, BeforeSwitch(s, call).value;
    SwitchKeepsPids(s, call);
    FindPidIs(t, i);
    SearchStops(tasks, s.cur, 1, i);
  }

  lemma ReapCloser(s: System, k: nat, pid: nat)
    requires Inv(s) && k < |s.tasks| && k != s.cur && Ready(s, pid) && Ready(Reap(s, k), pid) && s.tasks[k].pid != pid
    ensures Place(Reap(s, k), pid) <= Place(s, pid)
  {
    var i := FindPid(s.tasks, pid).value;
    ReapFinds(s, k, i);
    AheadCloser(s.cur, i, |s.tasks|, k);
  }

  /** Where a task is once the k-th is gone. */
  lemma ReapFinds(s: System, k: nat, i: nat)
    requires Inv(s) && k < |s.tasks| && k != s.cur && i < |s.tasks| && i != k
    ensures FindPid(Reap(s, k).tasks, s.tasks[i].pid) == Some(if i < k then i else i - 1)
  {
    var tasks := s.tasks[s.cur := s.tasks[s.cur].(waitsFor := None)];
    RemoveIncreasing(tasks, k, s.nextPid);
    var at := if i < k then i else i - 1;
    assert List.Remove(tasks, k)[at] == tasks[i];
    FindPidIs(List.Remove(tasks, k), at);
  }

  lemma AheadCloser(cur: nat, i: nat, n: nat, k: nat)
    requires cur < n && i < n && k < n && i != cur && k != cur && k != i
    ensures Ahead(if k < cur then cur - 1 else cur, if i < k then i else i - 1, n - 1) <= Ahead(cur, i, n)
  {}

  /** A switch brings a waiting task forward, a fork may put one task before it. */
  lemma StepCloser(s: System, call: Call, pid: nat)
    requires Inv(s) && Enabled(s, call) && Proper(s, call)
    requires Ready(s, pid) && Ready(Next(s, call), pid)
    ensures Place(Next(s, call), pid) + (if Switches(s, call) then 1 else 0)
         <= Place(s, pid) + (if call == Fork then 1 else 0)
  {
    if Switches(s, call) {
      SwitchCloser(s, call, pid);
    } else if call.WaitPid? && FindPid(s.tasks, call.pid).Some? {
      ReapCloser(s, FindPid(s.tasks, call.pid).value, pid);
    } else if call.Fork? {
      PidsIncrease(s, call);
      FindPidIs(Next(s, call).tasks, FindPid(s.tasks, pid).value);
    }
  }

  /** A task that can run and is not selected has seen no more switches than there were tasks
      before it and forks since: it is selected at the latest at the next one. */
  lemma {:induction false} BoundedWait(states: seq<System>, calls: seq<Call>, pid: nat)
    requires IsRun(states, calls)
    requires forall k :: 0 <= k < |states| ==> Ready(states[k], pid)
    ensures SwitchCount(states, calls) < Place(states[0], pid) + ForkCount(calls)
    decreases |calls|
  {
    if calls != [] {
      assert Goes(states[0], calls[0], states[1]);
      assert Ready(states[0], pid) && Ready(states[1], pid);
      StepKeeps(states[0], calls[0]);
      StepCloser(states[0], calls[0], pid);
      var (rest, more) := (states[1..], calls[1..]);
      forall k | 0 <= k < |more|
        ensures Goes(rest[k], more[k], rest[k + 1])
      {
        assert Goes(states[k + 1], calls[k + 1], states[k + 2]);
      }
      BoundedWait(rest, more, pid);
    }
  }
}
