/** Every interleaving of submitting tasks, a controller that obeys sections 4.1 and 4.6 of
    NVM Express 1.4, and the interrupt handler, over the queue pair of NvmeQueues.

    A ticket numbers a submission. History is what no participant can see: which id each
    ticket got, which tickets were posted in which order, and how far each side has come. */
module NvmeProtocol {
  import opened NvmeQueues

  datatype Controller = Controller(sqFetch: nat, cqTail: nat, phase: bool, executing: map<nat, nat>)

  /** A task inside await_command_finish. */
  datatype Wait = Wait(cid: nat, ticket: nat)

  datatype History = History(submitted: seq<nat>, fetched: nat, posted: seq<nat>, heads: seq<nat>,
                             consumed: nat, rung: nat, returned: set<nat>)
  {
    /** Submissions the driver knows to have left the ring. */
    function Known(): nat
      requires consumed <= |heads|
    {
      if consumed == 0 then 0 else heads[consumed - 1]
    }

    predicate Live(t: int) { 0 <= t < |submitted| && t !in returned }

    predicate Consumed(t: int)
      requires consumed <= |posted|
    {
      t in posted[..consumed]
    }
  }

  datatype State = State(d: Driver, c: Controller, tasks: map<nat, Wait>, h: History)

  function Initial(): State {
    State(Driver(0, 0, 0, false, seq(COMMANDS, _ => FreeId), seq(QUEUE, _ => 0), seq(QUEUE, _ => Entry(0, 0, false)), 0, 0),
          Controller(0, 0, true, map[]), map[], History([], 0, [], [], 0, 0, {}))
  }

  datatype Action =
    | Submit(task: nat, cid: nat)
    | Fetch
    | Post(ticket: nat)
    | Consume
    | Ring
    | Return(task: nat)

  predicate Enabled(s: State, a: Action) {
    && s.d.WellFormed()
    && match a
       case Submit(task, cid) =>
         task !in s.tasks && !s.d.SqFull() && cid < COMMANDS && s.d.status[cid] == FreeId
       case Fetch => s.c.sqFetch < QUEUE && s.c.sqFetch != s.d.sqBell
       case Post(t) => t in s.c.executing && s.c.cqTail < QUEUE && (s.c.cqTail + 1) % QUEUE != s.d.cqBell
                       && s.c.executing[t] < COMMANDS && s.c.sqFetch < QUEUE
       case Consume => s.d.NewEntry()
       case Ring => true
       case Return(task) => task in s.tasks && s.tasks[task].cid < COMMANDS && s.d.status[s.tasks[task].cid] != InFlight
  }

  function Step(s: State, a: Action): State
    requires Enabled(s, a)
  {
    match a
    case Submit(task, cid) =>
      s.(d := s.d.Enqueue(cid),
         tasks := s.tasks[task := Wait(cid, |s.h.submitted|)],
         h := s.h.(submitted := s.h.submitted + [cid]))
    case Fetch =>
      s.(c := s.c.(sqFetch := (s.c.sqFetch + 1) % QUEUE,
                   executing := s.c.executing[s.h.fetched := s.d.sq[s.c.sqFetch]]),
         h := s.h.(fetched := s.h.fetched + 1))
    case Post(t) =>
      var wraps := s.c.cqTail + 1 == QUEUE;
      s.(d := s.d.(cq := s.d.cq[s.c.cqTail := Entry(s.c.executing[t], s.c.sqFetch, s.c.phase)]),
         c := s.c.(cqTail := if wraps then 0 else s.c.cqTail + 1, phase := if wraps then !s.c.phase else s.c.phase,
                   executing := s.c.executing - {t}),
         h := s.h.(posted := s.h.posted + [t], heads := s.h.heads + [s.h.fetched]))
    case Consume =>
      s.(d := s.d.Consume(), h := s.h.(consumed := s.h.consumed + 1))
    case Ring =>
      s.(d := s.d.Ring(), h := s.h.(rung := s.h.consumed))
    case Return(task) =>
      s.(d := s.d.Release(s.tasks[task].cid), tasks := s.tasks - {task},
         h := s.h.(returned := s.h.returned + {s.tasks[task].ticket}))
  }

  /** Both rings: every counter, reduced, is where its side believes it is, and the slots
      between the counters hold what was put there. */
  ghost predicate Rings(s: State) {
    var h := s.h;
    && s.d.WellFormed() && |h.heads| == |h.posted| && h.consumed <= |h.posted|
    && h.Known() <= h.fetched <= |h.submitted| <= h.Known() + 63
    && h.rung <= h.consumed && |h.posted| <= h.rung + 63
    && s.d.sqTail == s.d.sqBell == |h.submitted| % QUEUE && s.d.sqHead == h.Known() % QUEUE
    && s.c.sqFetch == h.fetched % QUEUE
    && s.d.cqHead == h.consumed % QUEUE && s.d.cqPhase == (h.consumed / QUEUE % 2 == 1)
    && s.c.cqTail == |h.posted| % QUEUE && s.c.phase == (|h.posted| / QUEUE % 2 == 0)
    && s.d.cqBell == h.rung % QUEUE
    && (forall n :: h.fetched <= n < |h.submitted| ==> s.d.sq[n % QUEUE] == h.submitted[n])
    && (forall n :: 0 <= n < |h.heads| ==> h.heads[n] <= h.fetched)
    && (forall n, k :: 0 <= n < k < |h.heads| ==> h.heads[n] <= h.heads[k])
  }

  /** What slot n % 64 of the completion ring holds: posting n, or nothing yet. */
  ghost predicate Slot(s: State, n: nat)
    requires s.d.WellFormed() && |s.h.heads| == |s.h.posted|
  {
    if n < |s.h.posted| then
      s.h.posted[n] < |s.h.submitted| &&
      s.d.cq[n % QUEUE] == Entry(s.h.submitted[s.h.posted[n]], s.h.heads[n] % QUEUE, n / QUEUE % 2 == 0)
    else
      s.d.cq[n % QUEUE].phase == (n / QUEUE % 2 == 1)
  }

  /** The slots of the last lap up to the next one hold their posting; the rest of the lap
      still shows the previous lap's phase. */
  ghost predicate Completions(s: State)
    requires s.d.WellFormed() && |s.h.heads| == |s.h.posted|
  {
    forall n {:trigger Slot(s, n)} :: |s.h.posted| - 64 <= n < |s.h.posted| + 64 && 0 <= n ==> Slot(s, n)
  }

  /** A live ticket owns its id alone, and the id's status says whether its completion has
      been consumed; a busy id belongs to some live ticket. */
  ghost predicate Ids(s: State)
    requires Rings(s)
  {
    var h := s.h;
    && (forall t :: 0 <= t < |h.submitted| ==> h.submitted[t] < COMMANDS)
    && (forall t :: t in h.returned ==> t < |h.submitted| && h.Consumed(t))
    && (forall t, u :: h.Live(t) && h.Live(u) && t != u ==> h.submitted[t] != h.submitted[u])
    && (forall t :: h.Live(t) ==> s.d.status[h.submitted[t]] == if h.Consumed(t) then Completed else InFlight)
    && (forall i :: 0 <= i < COMMANDS && s.d.status[i] != FreeId ==> exists t :: h.Live(t) && h.submitted[t] == i)
  }

  /** Every fetched ticket is being executed or was posted, once. */
  ghost predicate Executions(s: State)
    requires Rings(s)
  {
    var h := s.h;
    && (forall n :: 0 <= n < |h.posted| ==> h.posted[n] < h.fetched)
    && (forall n, k :: 0 <= n < k < |h.posted| ==> h.posted[n] != h.posted[k])
    && (forall t :: t in s.c.executing ==> t < h.fetched && t !in h.posted && s.c.executing[t] == h.submitted[t])
    && (forall t :: 0 <= t < h.fetched ==> t in s.c.executing || t in h.posted)
  }

  /** A waiting task waits for a live ticket of its own. */
  ghost predicate Waiters(s: State) {
    && (forall k :: k in s.tasks ==> s.h.Live(s.tasks[k].ticket) && s.tasks[k].cid == s.h.submitted[s.tasks[k].ticket])
    && (forall k, l :: k in s.tasks && l in s.tasks && k != l ==> s.tasks[k].ticket != s.tasks[l].ticket)
  }

  ghost predicate Inv(s: State) {
    Rings(s) && Completions(s) && Executions(s) && Ids(s) && Waiters(s)
  }

  lemma InitialInv()
    ensures Inv(Initial())
  {
    var s := Initial();
    assert forall n :: -64 <= n < 64 && 0 <= n ==> Slot(s, n);
  }

  /** Two numbers of one lap have different slots. */
  lemma SlotDistinct(n: nat, k: nat)
    requires n < k < n + 64
    ensures n % QUEUE != k % QUEUE
  {}

  lemma RingAdvance(n: nat)
    ensures (n % QUEUE + 1) % QUEUE == (n + 1) % QUEUE
    ensures (n % QUEUE + 1 == QUEUE) == ((n + 1) % QUEUE == 0)
    ensures n % QUEUE + 1 == QUEUE ==> (n + 1) / QUEUE == n / QUEUE + 1
    ensures n % QUEUE + 1 != QUEUE ==> (n + 1) % QUEUE == n % QUEUE + 1 && (n + 1) / QUEUE == n / QUEUE
  {}

  /** The full test allows exactly 63 entries beyond the known head. */
  lemma FullTest(s: State)
    requires Rings(s)
    ensures s.d.SqFull() <==> |s.h.submitted| == s.h.Known() + 63
  {
    RingFull(|s.h.submitted|, s.h.Known());
  }

  lemma RingFull(t: nat, k: nat)
    requires k <= t <= k + 63
    ensures (t % QUEUE + 1) % QUEUE == k % QUEUE <==> t == k + 63
  {
    RingAdvance(t);
    if t < k + 63 { SlotDistinct(k, t + 1); }
  }

  lemma SubmitRings(s: State, task: nat, cid: nat)
    requires Inv(s) && Enabled(s, Submit(task, cid))
    ensures Rings(Step(s, Submit(task, cid)))
  {
    var s' := Step(s, Submit(task, cid));
    var t := |s.h.submitted|;
    FullTest(s);
    RingAdvance(t);
    forall n | s.h.fetched <= n < t + 1
      ensures s'.d.sq[n % QUEUE] == s'.h.submitted[n]
    {
      if n < t { SlotDistinct(n, t); }
    }
  }

  /** Nothing that a lap of completions depends on changed. */
  lemma SameCompletions(s: State, s': State)
    requires Rings(s) && Rings(s') && Completions(s)
    requires s'.d.cq == s.d.cq && s'.h.posted == s.h.posted && s'.h.heads == s.h.heads
    requires s.h.submitted <= s'.h.submitted
    ensures Completions(s')
  {
    forall n | |s'.h.posted| - 64 <= n < |s'.h.posted| + 64 && 0 <= n
      ensures Slot(s', n)
    {
      assert Slot(s, n);
    }
  }

  lemma SubmitIds(s: State, task: nat, cid: nat)
    requires Inv(s) && Enabled(s, Submit(task, cid)) && Rings(Step(s, Submit(task, cid)))
    ensures Ids(Step(s, Submit(task, cid)))
  {
    var s' := Step(s, Submit(task, cid));
    var h, h', t := s.h, s'.h, |s.h.submitted|;
    NotYetConsumed(s, t);
    forall i | 0 <= i < COMMANDS && s'.d.status[i] != FreeId
      ensures exists u :: h'.Live(u) && h'.submitted[u] == i
    {
      if i == cid {
        assert h'.Live(t) && h'.submitted[t] == i;
      } else {
        var u :| h.Live(u) && h.submitted[u] == i;
        assert h'.Live(u) && h'.submitted[u] == i;
      }
    }
  }

  /** Only fetched tickets are posted, so only they are consumed. */
  lemma NotYetConsumed(s: State, t: nat)
    requires Rings(s) && Executions(s) && t >= s.h.fetched
    ensures !s.h.Consumed(t) && t !in s.h.posted && t !in s.c.executing
  {
    assert forall n :: 0 <= n < |s.h.posted| ==> s.h.posted[n] != t;
  }

  lemma SubmitKeeps(s: State, task: nat, cid: nat)
    requires Inv(s) && Enabled(s, Submit(task, cid))
    ensures Inv(Step(s, Submit(task, cid)))
  {
    var s' := Step(s, Submit(task, cid));
    SubmitRings(s, task, cid);
    SubmitIds(s, task, cid);
    SameCompletions(s, s');
    assert |s.h.submitted| !in s.h.returned;
  }

  lemma FetchRings(s: State)
    requires Rings(s) && Enabled(s, Fetch)
    ensures Rings(Step(s, Fetch)) && s.h.fetched < |s.h.submitted|
    ensures s.d.sq[s.c.sqFetch] == s.h.submitted[s.h.fetched]
  {
    RingAdvance(s.h.fetched);
  }

  lemma FetchExecutions(s: State)
    requires Inv(s) && Enabled(s, Fetch) && Rings(Step(s, Fetch))
    ensures Executions(Step(s, Fetch))
  {
    FetchRings(s);
    NotYetConsumed(s, s.h.fetched);
  }

  lemma FetchKeeps(s: State)
    requires Inv(s) && Enabled(s, Fetch)
    ensures Inv(Step(s, Fetch))
  {
    FetchRings(s);
    FetchExecutions(s);
    SameCompletions(s, Step(s, Fetch));
  }

  lemma PostRings(s: State, t: nat)
    requires Rings(s) && Enabled(s, Post(t))
    ensures Rings(Step(s, Post(t)))
  {
    PostAdvance(|s.h.posted|, s.h.rung, s.c.cqTail, s.c.phase);
  }

  /** The controller's tail and phase follow the number of postings. */
  lemma PostAdvance(p: nat, rung: nat, tail: nat, phase: bool)
    requires tail == p % QUEUE && phase == (p / QUEUE % 2 == 0)
    requires rung <= p <= rung + 63 && (tail + 1) % QUEUE != rung % QUEUE
    ensures p + 1 <= rung + 63
    ensures (if tail + 1 == QUEUE then 0 else tail + 1) == (p + 1) % QUEUE
    ensures (if tail + 1 == QUEUE then !phase else phase) == ((p + 1) / QUEUE % 2 == 0)
  {
    PhaseAdvance(p, tail, phase);
    RingFull(p, rung);
  }

  /** A pointer that wraps around and the phase that flips there follow a running number. */
  lemma PhaseAdvance(n: nat, at: nat, phase: bool)
    requires at == n % QUEUE && phase == (n / QUEUE % 2 == 0)
    ensures (if at + 1 == QUEUE then 0 else at + 1) == (n + 1) % QUEUE
    ensures (if at + 1 == QUEUE then !phase else phase) == ((n + 1) / QUEUE % 2 == 0)
  {
    RingAdvance(n);
  }

  lemma PostCompletions(s: State, t: nat)
    requires Inv(s) && Enabled(s, Post(t)) && Rings(Step(s, Post(t)))
    ensures Completions(Step(s, Post(t)))
  {
    var p := |s.h.posted|;
    forall n | p + 1 - 64 <= n < p + 1 + 64 && 0 <= n
      ensures Slot(Step(s, Post(t)), n)
    {
      if n < p + 64 { assert Slot(s, n); }
      PostSlot(s, t, n);
    }
  }

  lemma PostSlot(s: State, t: nat, n: nat)
    requires Rings(s) && Executions(s) && Enabled(s, Post(t)) && Rings(Step(s, Post(t)))
    requires |s.h.posted| + 1 - 64 <= n < |s.h.posted| + 1 + 64
    requires n < |s.h.posted| + 64 ==> Slot(s, n)
    ensures Slot(Step(s, Post(t)), n)
  {
    var p := |s.h.posted|;
    if n == p {
      assert t < s.h.fetched && s.c.executing[t] == s.h.submitted[t];
    } else if n == p + 64 {
      NextLap(p);
    } else {
      if n < p { SlotDistinct(n, p); } else { SlotDistinct(p, n); }
      OtherSlot(s, t, n);
    }
  }

  lemma NextLap(p: nat)
    ensures (p + 64) % QUEUE == p % QUEUE && (p / QUEUE % 2 == 0) == ((p + 64) / QUEUE % 2 == 1)
  {}

  /** A slot that was not written says what it said. */
  lemma OtherSlot(s: State, t: nat, n: nat)
    requires Rings(s) && Enabled(s, Post(t)) && Rings(Step(s, Post(t)))
    requires n != |s.h.posted| && n % QUEUE != |s.h.posted| % QUEUE && Slot(s, n)
    ensures Slot(Step(s, Post(t)), n)
  {}

  lemma PostKeeps(s: State, t: nat)
    requires Inv(s) && Enabled(s, Post(t))
    ensures Inv(Step(s, Post(t)))
  {
    var s' := Step(s, Post(t));
    PostRings(s, t);
    PostCompletions(s, t);
    assert s'.h.posted[..s.h.consumed] == s.h.posted[..s.h.consumed];
    forall u | 0 <= u < s'.h.fetched
      ensures u in s'.c.executing || u in s'.h.posted
    {
      if u == t { assert s'.h.posted[|s.h.posted|] == t; }
    }
  }

  /** The handler's phase test finds exactly the postings not yet consumed, in order. */
  lemma PhaseTestExact(s: State)
    requires Inv(s)
    ensures s.d.NewEntry() <==> s.h.consumed < |s.h.posted|
    ensures s.d.NewEntry() ==>
              var t := s.h.posted[s.h.consumed];
              s.d.cq[s.d.cqHead] == Entry(s.h.submitted[t], s.h.heads[s.h.consumed] % QUEUE, !s.d.cqPhase)
  {
    assert Slot(s, s.h.consumed);
  }

  lemma ConsumeRings(s: State)
    requires Inv(s) && Enabled(s, Consume)
    ensures Rings(Step(s, Consume))
  {
    PhaseTestExact(s);
    ConsumedRings(s);
  }

  lemma ConsumedRings(s: State)
    requires Rings(s) && s.h.consumed < |s.h.posted|
    requires var e := s.d.cq[s.d.cqHead]; e.cid < COMMANDS && e.sqHead == s.h.heads[s.h.consumed] % QUEUE
    ensures Rings(s.(d := s.d.Consume(), h := s.h.(consumed := s.h.consumed + 1)))
  {
    var c := s.h.consumed;
    PhaseAdvance(c, s.d.cqHead, !s.d.cqPhase);
    if c > 0 { assert s.h.heads[c - 1] <= s.h.heads[c]; }
  }

  lemma ConsumeIds(s: State)
    requires Inv(s) && Enabled(s, Consume) && Rings(Step(s, Consume))
    ensures Ids(Step(s, Consume))
  {
    PhaseTestExact(s);
    var c := s.h.consumed;
    var t := s.h.posted[c];
    assert forall n :: 0 <= n < c ==> s.h.posted[n] != t;
    ConsumedIds(s, Step(s, Consume), t);
  }

  lemma ConsumedMore(s: State, s': State, t: nat)
    requires s.h.consumed < |s.h.posted| && t == s.h.posted[s.h.consumed]
    requires s'.h == s.h.(consumed := s.h.consumed + 1)
    ensures forall u :: s'.h.Consumed(u) <==> s.h.Consumed(u) || u == t
  {
    var c := s.h.consumed;
    assert s'.h.posted[..c + 1] == s.h.posted[..c] + [t];
  }

  /** The id of the ticket whose completion was consumed. */
  lemma ConsumedIds(s: State, s': State, t: nat)
    requires Rings(s) && Ids(s) && Rings(s') && s.h.consumed < |s.h.posted| && t == s.h.posted[s.h.consumed]
    requires t < |s.h.submitted| && !s.h.Consumed(t)
    requires s'.h == s.h.(consumed := s.h.consumed + 1) && s'.d.status == s.d.status[s.h.submitted[t] := Completed]
    ensures Ids(s')
  {
    var h, h', c := s.h, s'.h, s.h.consumed;
    ConsumedMore(s, s', t);
    assert h.Live(t);
    forall i | 0 <= i < COMMANDS && s'.d.status[i] != FreeId
      ensures exists u :: h'.Live(u) && h'.submitted[u] == i
    {
      if i == h.submitted[t] {
        assert h'.Live(t);
      } else {
        var u :| h.Live(u) && h.submitted[u] == i;
        assert h'.Live(u);
      }
    }
  }

  lemma ConsumeKeeps(s: State)
    requires Inv(s) && Enabled(s, Consume)
    ensures Inv(Step(s, Consume))
  {
    ConsumeRings(s);
    ConsumeIds(s);
    SameCompletions(s, Step(s, Consume));
  }

  lemma RingKeeps(s: State)
    requires Inv(s)
    ensures Inv(Step(s, Ring))
  {
    SameCompletions(s, Step(s, Ring));
  }

  /** A waiting task that sees its id out of flight was waiting for a consumed ticket. */
  lemma WaitIsOver(s: State, task: nat)
    requires Inv(s) && Enabled(s, Return(task))
    ensures s.h.Live(s.tasks[task].ticket) && s.h.Consumed(s.tasks[task].ticket)
    ensures s.tasks[task].cid == s.h.submitted[s.tasks[task].ticket]
  {}

  lemma ReturnIds(s: State, task: nat)
    requires Inv(s) && Enabled(s, Return(task)) && Rings(Step(s, Return(task)))
    ensures Ids(Step(s, Return(task)))
  {
    WaitIsOver(s, task);
    ReleasedIds(s, Step(s, Return(task)), s.tasks[task].ticket);
  }

  /** The id of a consumed ticket becomes free. */
  lemma ReleasedIds(s: State, s': State, t: nat)
    requires Rings(s) && Ids(s) && Rings(s') && s.h.Live(t) && s.h.Consumed(t)
    requires s'.h == s.h.(returned := s.h.returned + {t}) && s'.d.status == s.d.status[s.h.submitted[t] := FreeId]
    ensures Ids(s')
  {
    forall i | 0 <= i < COMMANDS && s'.d.status[i] != FreeId
      ensures exists u :: s'.h.Live(u) && s'.h.submitted[u] == i
    {
      StillOwned(s, s', t, i);
    }
  }

  lemma StillOwned(s: State, s': State, t: nat, i: nat)
    requires Rings(s) && Ids(s) && s.h.Live(t) && i < COMMANDS && i != s.h.submitted[t] && s.d.status[i] != FreeId
    requires s'.h == s.h.(returned := s.h.returned + {t})
    ensures exists u :: s'.h.Live(u) && s'.h.submitted[u] == i
  {
    var u :| s.h.Live(u) && s.h.submitted[u] == i;
    assert s'.h.Live(u);
  }

  lemma ReturnKeeps(s: State, task: nat)
    requires Inv(s) && Enabled(s, Return(task))
    ensures Inv(Step(s, Return(task)))
  {
    ReturnRings(s, task);
    ReturnIds(s, task);
    ReturnOthers(s, task);
    SameCompletions(s, Step(s, Return(task)));
  }

  lemma ReturnOthers(s: State, task: nat)
    requires Inv(s) && Enabled(s, Return(task)) && Rings(Step(s, Return(task)))
    ensures Executions(Step(s, Return(task))) && Waiters(Step(s, Return(task)))
  {
    ReturnWaiters(s, task);
  }

  lemma ReturnWaiters(s: State, task: nat)
    requires Inv(s) && Enabled(s, Return(task))
    ensures Waiters(Step(s, Return(task)))
  {
    WaitIsOver(s, task);
  }

  lemma ReturnRings(s: State, task: nat)
    requires Inv(s) && Enabled(s, Return(task))
    ensures Rings(Step(s, Return(task)))
  {
    WaitIsOver(s, task);
  }

  lemma StepKeeps(s: State, a: Action)
    requires Inv(s) && Enabled(s, a)
    ensures Inv(Step(s, a))
  {
    match a
    case Submit(task, cid) => SubmitKeeps(s, task, cid);
    case Fetch => FetchKeeps(s);
    case Post(t) => PostKeeps(s, t);
    case Consume => ConsumeKeeps(s);
    case Ring => RingKeeps(s);
    case Return(task) => ReturnKeeps(s, task);
  }

  /** Runs. */
  predicate CanRun(s: State, run: seq<Action>)
    decreases |run|
  {
    run == [] || (Enabled(s, run[0]) && CanRun(Step(s, run[0]), run[1..]))
  }

  function After(s: State, run: seq<Action>): State
    requires CanRun(s, run)
    decreases |run|
  {
    if run == [] then s else After(Step(s, run[0]), run[1..])
  }

  lemma {:induction false} RunKeeps(s: State, run: seq<Action>)
    requires Inv(s) && CanRun(s, run)
    ensures Inv(After(s, run))
    decreases |run|
  {
    if run != [] {
      StepKeeps(s, run[0]);
      RunKeeps(Step(s, run[0]), run[1..]);
    }
  }

  /** Safety over every run: at most 63 commands wait in the submission ring and at most 63
      completions in the other, a command id is handed out only while no command in flight
      has it, and a task leaves its wait only after its own command was posted and consumed. */
  lemma Safety(run: seq<Action>)
    requires CanRun(Initial(), run)
    ensures var s := After(Initial(), run);
            && s.h.fetched <= |s.h.submitted| <= s.h.fetched + 63
            && s.h.consumed <= |s.h.posted| <= s.h.consumed + 63
            && (forall task, cid :: Enabled(s, Submit(task, cid)) ==>
                  forall t :: s.h.Live(t) ==> s.h.submitted[t] != cid)
            && (forall task :: Enabled(s, Return(task)) ==> s.h.Consumed(s.tasks[task].ticket))
  {
    InitialInv();
    RunKeeps(Initial(), run);
    var s := After(Initial(), run);
    forall task | Enabled(s, Return(task))
      ensures s.h.Consumed(s.tasks[task].ticket)
    {
      WaitIsOver(s, task);
    }
  }

  /** The history only grows: what was posted keeps its place, and the handler's turns
      advance through it one by one, so each posting is consumed once and in order. */
  lemma {:induction false} InOrder(s: State, run: seq<Action>)
    requires Inv(s) && CanRun(s, run)
    ensures var s' := After(s, run);
            && s.h.posted <= s'.h.posted && s.h.submitted <= s'.h.submitted
            && s'.h.consumed == s.h.consumed + Count(run, Consume)
    decreases |run|
  {
    if run != [] {
      StepKeeps(s, run[0]);
      InOrder(Step(s, run[0]), run[1..]);
    }
  }

  function Count(run: seq<Action>, a: Action): nat {
    if run == [] then 0 else (if run[0] == a then 1 else 0) + Count(run[1..], a)
  }
}
