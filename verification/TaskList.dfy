/** The task list and the search for the next task, over the intrusive list itself. */
module TaskList {
  import Words
  import opened Options
  import opened List
  import opened Scheduler

  /** struct task_struct */
  class TaskStruct {
    const pid: nat
    var state: TaskState

    constructor (pid: nat, state: TaskState)
      ensures this.pid == pid && this.state == state
    {
      this.pid, this.state := pid, state;
    }
  }

  class Tasks {
    const head: Node<TaskStruct?>
    var current: Node<TaskStruct?>
    var pidCounter: nat
    ghost var ring: seq<Node<TaskStruct?>>
    ghost var structs: seq<TaskStruct>
    ghost var tasks: seq<Task>  // what the list holds
    ghost var cur: nat          // position of the current task

    ghost predicate Valid()
      reads this, ring, structs
    {
      && Ring(ring) && ring[0] == head && |ring| == |structs| + 1 && |tasks| == |structs|
      && (forall i :: 0 <= i < |structs| ==> ring[i + 1].item == structs[i])
      && (forall i, j :: 0 <= i < j < |structs| ==> structs[i] != structs[j])
      && (forall i :: 0 <= i < |structs| ==> tasks[i].pid == structs[i].pid && tasks[i].state == structs[i].state)
      && cur < |tasks| && current == ring[cur + 1]
    }

    /** The list and its current task as the system's state. */
    ghost function Sys(): System
      reads this
    {
      System(tasks, cur, pidCounter)
    }

    constructor (first: TaskStruct, pidCounter: nat)
      ensures Valid() && Sys() == System([Task(first.pid, first.state, None)], 0, pidCounter)
    {
      head := new Node(null);
      current := new Node(first);
      this.pidCounter := pidCounter;
      new;
      InitList(head);
      ListAddTail(current, head, [head], 0);
      assert Insert([head], 1, current) == [head, current];
      Become([head, current], [first], [Task(first.pid, first.state, None)], 0);
    }

    /** The ghost state follows the list. */
    ghost method Become(r: seq<Node<TaskStruct?>>, s: seq<TaskStruct>, t: seq<Task>, c: nat)
      requires Ring(r) && r[0] == head && |r| == |s| + 1 && |t| == |s| && c < |t| && current == r[c + 1]
      requires forall i :: 0 <= i < |s| ==> r[i + 1].item == s[i]
      requires forall i, j :: 0 <= i < j < |s| ==> s[i] != s[j]
      requires forall i :: 0 <= i < |s| ==> t[i].pid == s[i].pid && t[i].state == s[i].state
      modifies `ring, `structs, `tasks, `cur
      ensures Valid() && ring == r && structs == s && tasks == t && cur == c
    {
      ring, structs, tasks, cur := r, s, t, c;
    }

    /** next_task_struct: the successor in the list, past the head. */
    method NextTask(node: Node<TaskStruct?>, ghost i: nat) returns (next: Node<TaskStruct?>)
      requires Valid() && i < |tasks| && node == ring[i + 1]
      ensures var j := Wrap(i + 1, |tasks|);
              next == ring[j + 1] && next.item == structs[j] && structs[j].state == tasks[j].state
    {
      assert node.next == if i + 1 < |tasks| then ring[i + 2] else head;
      next := node.next;
      if next == head {
        assert head.next == ring[1];
        next := head.next;
      }
    }

    /** The search is at node t, the k-th after the current one, without having passed a
        running task. */
    ghost predicate Looking(t: Node<TaskStruct?>, k: nat, i: nat)
      reads this
    {
      && cur < |tasks| && 1 <= k <= |tasks| && i == Wrap(cur + k, |tasks|) < |tasks| == |structs| == |ring| - 1
      && t == ring[i + 1] && t.item == structs[i]
      && Search(tasks, cur, k) == Search(tasks, cur, 1) && Search(tasks, cur, 1).Some?
    }

    /** One turn of the search. */
    method LookOn(t: Node<TaskStruct?>, ghost k: nat, ghost i: nat) returns (next: Node<TaskStruct?>, ghost j: nat)
      requires Valid() && Looking(t, k, i) && structs[i].state != Running
      ensures Looking(next, k + 1, j)
    {
      SearchOn(tasks, cur, k);
      next := NextTask(t, i);
      j := Wrap(i + 1, |tasks|);
    }

    /** The loop of task_yield: when some task can run it ends, at the first such task after
        the current one. */
    method FirstRunning() returns (t: Node<TaskStruct?>, ghost i: nat)
      requires Valid() && HasRunning(tasks)
      ensures Search(tasks, cur, 1) == Some(i) && t == ring[Search(tasks, cur, 1).value + 1]
    {
      SearchEnds(tasks, cur);
      t := NextTask(current, cur);
      ghost var k: nat := 1;
      i := Wrap(cur + 1, |tasks|);
      while t.item.state != Running
        invariant Looking(t, k, i)
        decreases |tasks| - k
      {
        t, i := LookOn(t, k, i);
        k := k + 1;
      }
    }

    /** task_yield */
    method Yield()
      requires Valid() && HasRunning(tasks)
      modifies this`current, this`cur
      ensures Valid() && Search(tasks, old(cur), 1) == Some(cur)
    {
      var t, i := FirstRunning();
      current, cur := t, i;
    }

    /** The loop that looks for a pid: its task, where it is linked in, and its position. */
    method FindNode(pid: nat) returns (task: TaskStruct?, node: Node<TaskStruct?>, ghost k: nat)
      requires Valid()
      ensures var r := FindPid(tasks, pid);
              if r.None? then task == null
              else k == r.value && task == structs[r.value] && node == ring[r.value + 1]
    {
      assert head.next == ring[1];
      node := head.next;
      k := 0;
      while node != head
        invariant k <= |tasks| && node == ring[if k < |tasks| then k + 1 else 0]
        invariant forall i :: 0 <= i < k ==> tasks[i].pid != pid
        decreases |tasks| - k
      {
        assert node.item == structs[k];
        if node.item.pid == pid {
          FindPidFirst(tasks, k);
          return node.item, node, k;
        }
        assert node.next == ring[if k + 1 < |tasks| then k + 2 else 0];
        node := node.next;
        k := k + 1;
      }
      return null, head, k;
    }

    /** task_struct_find, whose parameter has 32 bits. */
    method Find(arg: nat) returns (task: TaskStruct?)
      requires Valid()
      ensures var k := FindPid(tasks, Words.U32(arg)); task == if k.Some? then structs[k.value] else null
    {
      var node;
      ghost var k;
      task, node, k := FindNode(Words.U32(arg));
    }

    /** A new task joins the end of the list. */
    method Add(child: TaskStruct)
      requires Valid() && child !in structs
      modifies this`ring, this`structs, this`tasks, this`cur, ring
      ensures Valid() && tasks == old(tasks) + [Task(child.pid, child.state, None)] && cur == old(cur)
    {
      var node := new Node<TaskStruct?>(child);
      ListAddTail(node, head, ring, 0);
      Become(Insert(ring, |ring|, node), structs + [child], tasks + [Task(child.pid, child.state, None)], cur);
    }

    /** free_task of another task: it leaves the list. */
    method Free(node: Node<TaskStruct?>, ghost k: nat)
      requires Valid() && k < |tasks| && node == ring[k + 1] && k != cur
      modifies this`ring, this`structs, this`tasks, this`cur, ring
      ensures Valid() && tasks == Remove(old(tasks), k)
      ensures cur == if k < old(cur) then old(cur) - 1 else old(cur)
    {
      ListDel(node, ring, k + 1);
      Unwoven(ring, structs, tasks, k);
      Become(Remove(ring, k + 1), Remove(structs, k), Remove(tasks, k), if k < cur then cur - 1 else cur);
    }

    static lemma Unwoven(ring: seq<Node<TaskStruct?>>, structs: seq<TaskStruct>, tasks: seq<Task>, k: nat)
      requires |ring| == |structs| + 1 && |tasks| == |structs| && k < |tasks|
      requires forall i :: 0 <= i < |structs| ==> ring[i + 1].item == structs[i]
      requires forall i, j :: 0 <= i < j < |structs| ==> structs[i] != structs[j]
      requires forall i :: 0 <= i < |structs| ==> tasks[i].pid == structs[i].pid && tasks[i].state == structs[i].state
      ensures var (r, s, t) := (Remove(ring, k + 1), Remove(structs, k), Remove(tasks, k));
              && (forall i :: 0 <= i < |s| ==> r[i + 1].item == s[i])
              && (forall i, j :: 0 <= i < j < |s| ==> s[i] != s[j])
              && (forall i :: 0 <= i < |s| ==> t[i].pid == s[i].pid && t[i].state == s[i].state)
    {
      forall i | 0 <= i < |structs| - 1
        ensures Remove(ring, k + 1)[i + 1].item == Remove(structs, k)[i]
      {
        assert ring[i + 2].item == structs[i + 1];
      }
    }

    /** task_state = TS_ZOMBIE */
    method Mark(task: TaskStruct, ghost k: nat)
      requires Valid() && k < |structs| && task == structs[k]
      modifies this`tasks, task
      ensures Valid() && tasks == MarkZombie(old(tasks), k)
    {
      task.state := Zombie;
      tasks := MarkZombie(tasks, k);
    }

    // ---- the system calls, each up to its next switch

    ghost predicate Ready(call: Call)
      reads this, ring, structs
    {
      Valid() && IsRunning(tasks, cur) && Enabled(Sys(), call)
    }

    /** SYSCALL_SCHED_YIELD */
    method CallYield()
      requires Ready(Call.Yield)
      modifies this`current, this`cur
      ensures Valid() && Sys() == Next(old(Sys()), Call.Yield)
      ensures tasks == old(tasks) && IsRunning(tasks, cur)
    {
      Yield();
    }

    /** SYSCALL_FORK, its part in the task list. */
    method CallFork() returns (pid: nat)
      requires Ready(Fork)
      modifies this`ring, this`structs, this`tasks, this`cur, this`pidCounter, ring
      ensures Valid() && Sys() == Next(old(Sys()), Fork) && pid == old(pidCounter)
      ensures tasks == old(tasks) + [Task(pid, Running, None)] && cur == old(cur) && current == old(current)
      ensures pidCounter == Words.U32(old(pidCounter) + 1)
    {
      pid := pidCounter;
      assert current.item == structs[cur];
      var child := new TaskStruct(pid, current.item.state);
      pidCounter := Words.U32(pidCounter + 1);
      Add(child);
    }

    /** SYSCALL_EXIT, its part in the task list. */
    method CallExit()
      requires Ready(Exit)
      modifies this`current, this`cur, this`tasks, structs
      ensures Valid() && Sys() == Next(old(Sys()), Exit)
      ensures |tasks| == |old(tasks)| && IsRunning(tasks, cur)
      ensures tasks[old(cur)] == old(tasks)[old(cur)].(state := Zombie)
      ensures forall i :: 0 <= i < |tasks| && i != old(cur) ==> tasks[i] == old(tasks)[i]
    {
      assert current.item == structs[cur];
      Mark(current.item, cur);
      Yield();
    }

    /** SYSCALL_KILL: the first task with the pid, and only it, becomes a zombie. */
    method CallKill(arg: nat) returns (ok: bool)
      requires Ready(Kill(arg))
      modifies this`current, this`cur, this`tasks, structs
      ensures Valid() && Sys() == Next(old(Sys()), Kill(arg))
      ensures ok <==> exists i :: 0 <= i < |old(tasks)| && old(tasks)[i].pid == Words.U32(arg)
      ensures !ok ==> tasks == old(tasks) && cur == old(cur)
      ensures ok ==> IsRunning(tasks, cur) && exists k :: Ended(old(tasks), tasks, Words.U32(arg), k)
    {
      var task, node, k := FindNode(Words.U32(arg));
      if task == null {
        return false;
      }
      KillFound(arg, task, k);
      ok := true;
    }

    /** There is such a task: it becomes a zombie, and the caller yields. */
    method KillFound(arg: nat, task: TaskStruct, ghost k: nat)
      requires Ready(Kill(arg)) && FindPid(tasks, Words.U32(arg)) == Some(k) && task == structs[k]
      modifies this`current, this`cur, this`tasks, structs
      ensures Valid() && Sys() == Next(old(Sys()), Kill(arg)) && IsRunning(tasks, cur)
      ensures Ended(old(tasks), tasks, Words.U32(arg), k)
    {
      EndedIs(tasks, Words.U32(arg), k);
      Mark(task, k);
      Yield();
    }

    /** One turn of SYSCALL_WAITPID: the task is reaped, or waited for with a switch. None
        while it waits, else whether there was such a task. */
    method CallWaitPid(pid: nat) returns (done: Option<bool>)
      requires Ready(WaitPid(pid))
      modifies this`current, this`cur, this`tasks, this`ring, this`structs, ring
      ensures Valid() && Sys() == Next(old(Sys()), WaitPid(pid))
      ensures done == var k := FindPid(old(tasks), pid);
                      if k.None? then Some(false)
                      else if old(tasks)[k.value].state == Zombie then Some(true) else None
      ensures done == Some(false) ==> tasks == old(tasks) && cur == old(cur)
      ensures done == None ==> |tasks| == |old(tasks)| && IsRunning(tasks, cur) && forall i :: 0 <= i < |tasks| ==>
        tasks[i] == if i == old(cur) then old(tasks)[i].(waitsFor := Some(pid)) else old(tasks)[i]
      ensures done == Some(true) ==> exists k :: Reaped(old(tasks), tasks, old(cur), cur, pid, k)
    {
      var task, node, k := FindNode(pid);
      if task == null {
        return Some(false);
      }
      if task.state != Zombie {
        WaitTurn(pid);
        return None;
      }
      ReapTask(pid, node, k);
      done := Some(true);
    }

    /** The task is still running: wait for it. */
    method WaitTurn(pid: nat)
      requires Ready(WaitPid(pid)) && BeforeSwitch(Sys(), WaitPid(pid)).Some?
      modifies this`current, this`cur, this`tasks
      ensures Valid() && Sys() == Next(old(Sys()), WaitPid(pid)) && IsRunning(tasks, cur)
      ensures tasks == old(tasks)[old(cur) := old(tasks)[old(cur)].(waitsFor := Some(pid))]
    {
      tasks := tasks[cur := tasks[cur].(waitsFor := Some(pid))];
      Yield();
    }

    /** The task has ended: it leaves the list, and the wait is over. */
    method ReapTask(pid: nat, node: Node<TaskStruct?>, ghost k: nat)
      requires Ready(WaitPid(pid)) && FindPid(tasks, pid) == Some(k) && node == ring[k + 1] && tasks[k].state == Zombie
      modifies this`cur, this`tasks, this`ring, this`structs, ring
      ensures Valid() && Sys() == Next(old(Sys()), WaitPid(pid))
      ensures Reaped(old(tasks), tasks, old(cur), cur, pid, k)
    {
      ReapedIs(tasks, cur, pid, k);
      NextReaps(Sys(), pid, k);
      EndWait(node, k);
    }

    /** The wait is over, and the k-th task leaves. */
    method EndWait(node: Node<TaskStruct?>, ghost k: nat)
      requires Valid() && cur < |tasks| && k < |tasks| && node == ring[k + 1] && k != cur
      modifies this`cur, this`tasks, this`ring, this`structs, ring
      ensures Valid() && Sys() == Reap(old(Sys()), k)
    {
      StopWaiting();
      Free(node, k);
    }

    ghost method StopWaiting()
      requires Valid() && cur < |tasks|
      modifies this`tasks
      ensures Valid() && tasks == old(tasks)[cur := old(tasks)[cur].(waitsFor := None)]
    {
      tasks := tasks[cur := tasks[cur].(waitsFor := None)];
    }
  }

  /** The k-th task, the first with the pid, has become a zombie, and no other task changed. */
  ghost predicate Ended(before: seq<Task>, after: seq<Task>, pid: nat, k: nat) {
    && k < |before| == |after| && before[k].pid == pid && (forall i :: 0 <= i < k ==> before[i].pid != pid)
    && after[k].pid == pid && after[k].state == Zombie && after[k].waitsFor == before[k].waitsFor
    && forall i :: 0 <= i < |before| && i != k ==> after[i] == before[i]
  }

  /** The k-th task, the first with the pid and a zombie, has left the list; the current task
      is the same, waiting for nobody, and no other task changed. */
  ghost predicate Reaped(before: seq<Task>, after: seq<Task>, cur: nat, cur': nat, pid: nat, k: nat) {
    && k < |before| == |after| + 1 && before[k].pid == pid && before[k].state == Zombie
    && (forall i :: 0 <= i < k ==> before[i].pid != pid)
    && k != cur < |before| && cur' == (if cur < k then cur else cur - 1)
    && forall i {:trigger before[i]} :: 0 <= i < |before| && i != k ==>
         after[if i < k then i else i - 1] == if i == cur then before[i].(waitsFor := None) else before[i]
  }

  lemma ReapedIs(before: seq<Task>, cur: nat, pid: nat, k: nat)
    requires FindPid(before, pid) == Some(k) && before[k].state == Zombie && k != cur < |before|
    ensures Reaped(before, Remove(before[cur := before[cur].(waitsFor := None)], k), cur,
                   if k < cur then cur - 1 else cur, pid, k)
  {
    FindPidLeast(before, pid, k);
  }

  lemma NextReaps(s: System, pid: nat, k: nat)
    requires s.cur < |s.tasks| && IsRunning(s.tasks, s.cur) && Enabled(s, WaitPid(pid))
    requires FindPid(s.tasks, pid) == Some(k) && s.tasks[k].state == Zombie
    ensures Next(s, WaitPid(pid)) == Reap(s, k)
  {}

  lemma EndedIs(before: seq<Task>, pid: nat, k: nat)
    requires FindPid(before, pid) == Some(k)
    ensures Ended(before, MarkZombie(before, k), pid, k)
  {
    FindPidLeast(before, pid, k);
  }

  lemma {:induction false} FindPidLeast(tasks: seq<Task>, pid: nat, k: nat)
    requires FindPid(tasks, pid) == Some(k)
    ensures forall i :: 0 <= i < k ==> tasks[i].pid != pid
  {
    if k > 0 { FindPidLeast(tasks[1..], pid, k - 1); }
  }

  /** A turn of the search that finds no running task. */
  lemma SearchOn(tasks: seq<Task>, cur: nat, k: nat)
    requires cur < |tasks| && 1 <= k <= |tasks| && !IsRunning(tasks, Wrap(cur + k, |tasks|))
    ensures Search(tasks, cur, k) == Search(tasks, cur, k + 1)
    ensures k == |tasks| ==> Search(tasks, cur, k).None?
    ensures k < |tasks| ==> Wrap(Wrap(cur + k, |tasks|) + 1, |tasks|) == Wrap(cur + k + 1, |tasks|)
  {}

  lemma {:induction false} FindPidFirst(tasks: seq<Task>, k: nat)
    requires k < |tasks| && forall i :: 0 <= i < k ==> tasks[i].pid != tasks[k].pid
    ensures FindPid(tasks, tasks[k].pid) == Some(k)
  {
    if k > 0 { FindPidFirst(tasks[1..], k - 1); }
  }
}
