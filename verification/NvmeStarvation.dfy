/** start_command loops without yielding until an id is free. A submission ring that is not
    full does not guarantee one: completions can come back long before their ids do. */
module NvmeStarvation {
  import opened NvmeQueues
  import opened NvmeProtocol
  import Sets

  /** start_command would go round for ever: the ring has room but every id is taken. */
  predicate Stuck(s: State)
    requires s.d.WellFormed()
  {
    !s.d.SqFull() && forall i :: 0 <= i < COMMANDS ==> s.d.status[i] != FreeId
  }

  /** Ids have been handed out in order and none returned. */
  ghost predicate Filling(s: State) {
    && Inv(s) && s.h.returned == {} && |s.h.submitted| <= COMMANDS
    && (forall t :: 0 <= t < |s.h.submitted| ==> s.h.submitted[t] == t)
    && (forall i :: |s.h.submitted| <= i < COMMANDS ==> s.d.status[i] == FreeId)
    && (forall k :: k in s.tasks ==> k < |s.h.submitted|)
  }

  /** From s some run leads to s'. */
  ghost predicate Leads(s: State, s': State) {
    exists run :: CanRun(s, run) && After(s, run) == s'
  }

  lemma {:induction false} RunJoin(s: State, r1: seq<Action>, r2: seq<Action>)
    requires CanRun(s, r1) && CanRun(After(s, r1), r2)
    ensures CanRun(s, r1 + r2) && After(s, r1 + r2) == After(After(s, r1), r2)
    decreases |r1|
  {
    if r1 == [] {
      assert r1 + r2 == r2;
    } else {
      assert (r1 + r2)[1..] == r1[1..] + r2;
      RunJoin(Step(s, r1[0]), r1[1..], r2);
    }
  }

  lemma LeadsTrans(s: State, s1: State, s2: State)
    requires Leads(s, s1) && Leads(s1, s2)
    ensures Leads(s, s2)
  {
    var r1 :| CanRun(s, r1) && After(s, r1) == s1;
    var r2 :| CanRun(s1, r2) && After(s1, r2) == s2;
    RunJoin(s, r1, r2);
  }

  lemma LeadsStep(s: State, a: Action)
    requires Enabled(s, a)
    ensures Leads(s, Step(s, a))
  {
    assert CanRun(Step(s, a), [a][1..]) && After(s, [a]) == Step(s, a);
  }

  lemma LeadsNowhere(s: State)
    ensures Leads(s, s)
  {
    assert CanRun(s, []) && After(s, []) == s;
  }

  lemma SubmitOne(s: State) returns (s': State)
    requires Filling(s) && |s.h.submitted| < COMMANDS && |s.h.submitted| < s.h.Known() + 63
    ensures Leads(s, s') && Filling(s') && |s'.h.submitted| == |s.h.submitted| + 1
    ensures s'.h.fetched == s.h.fetched && s'.h.posted == s.h.posted && s'.h.consumed == s.h.consumed
    ensures s'.h.heads == s.h.heads && s'.c == s.c && s'.h.rung == s.h.rung
  {
    var t := |s.h.submitted|;
    FullTest(s);
    SubmitKeeps(s, t, t);
    s' := Step(s, Submit(t, t));
    LeadsStep(s, Submit(t, t));
  }

  /** Room in the ring and unused ids allow n more submissions. */
  lemma {:induction false} SubmitMany(s: State, n: nat) returns (s': State)
    requires Filling(s) && |s.h.submitted| + n <= COMMANDS && |s.h.submitted| + n <= s.h.Known() + 63
    ensures Leads(s, s') && Filling(s') && |s'.h.submitted| == |s.h.submitted| + n
    ensures s'.h.fetched == s.h.fetched && s'.h.posted == s.h.posted && s'.h.consumed == s.h.consumed
    ensures s'.h.heads == s.h.heads && s'.c == s.c && s'.h.rung == s.h.rung
    decreases n
  {
    if n == 0 {
      LeadsNowhere(s);
      s' := s;
    } else {
      var s1 := SubmitOne(s);
      s' := SubmitMany(s1, n - 1);
      LeadsTrans(s, s1, s');
    }
  }

  lemma {:induction false} FetchMany(s: State, n: nat) returns (s': State)
    requires Filling(s) && s.h.fetched + n == |s.h.submitted|
    ensures Leads(s, s') && Filling(s') && s'.h.submitted == s.h.submitted && s'.h.fetched == |s.h.submitted|
    ensures s'.h.posted == s.h.posted && s'.h.consumed == s.h.consumed && s'.h.heads == s.h.heads && s'.h.rung == s.h.rung
    decreases n
  {
    if n == 0 {
      LeadsNowhere(s);
      s' := s;
    } else {
      SlotDistinct(s.h.fetched, |s.h.submitted|);
      FetchKeeps(s);
      var s1 := Step(s, Fetch);
      LeadsStep(s, Fetch);
      s' := FetchMany(s1, n - 1);
      LeadsTrans(s, s1, s');
    }
  }

  lemma PostOne(s: State, t: nat) returns (s': State)
    requires Filling(s) && t < s.h.fetched == |s.h.submitted| && t !in s.h.posted
    requires s.h.consumed == |s.h.posted| < s.h.rung + 63
    ensures Leads(s, s') && Filling(s') && s'.h.submitted == s.h.submitted && s'.h.fetched == s.h.fetched
    ensures s'.h.posted == s.h.posted + [t] && s'.h.heads == s.h.heads + [s.h.fetched]
    ensures s'.h.consumed == s.h.consumed && s'.h.rung == s.h.rung
  {
    var p := |s.h.posted|;
    RingAdvance(p);
    SlotDistinct(s.h.rung, p + 1);
    PostKeeps(s, t);
    s' := Step(s, Post(t));
    LeadsStep(s, Post(t));
  }

  lemma ConsumeOne(s: State) returns (s': State)
    requires Filling(s) && s.h.consumed < |s.h.posted|
    ensures Leads(s, s') && Filling(s') && s'.h.submitted == s.h.submitted && s'.h.fetched == s.h.fetched
    ensures s'.h.posted == s.h.posted && s'.h.heads == s.h.heads && s'.h.consumed == s.h.consumed + 1
    ensures s'.h.rung == s.h.rung
  {
    PhaseTestExact(s);
    ConsumeKeeps(s);
    s' := Step(s, Consume);
    LeadsStep(s, Consume);
    var e := s.d.cq[s.d.cqHead];
    assert e.cid == s.h.submitted[s.h.posted[s.h.consumed]] < |s.h.submitted|;
  }

  /** 63 submissions, all fetched; the completion of one tells the driver the ring is empty. */
  lemma Round(s: State, t: nat) returns (s': State)
    requires Filling(s) && |s.h.submitted| + 63 <= COMMANDS && s.h.Known() == s.h.fetched == |s.h.submitted|
    requires t < |s.h.submitted| + 63 && t !in s.h.posted && s.h.consumed == |s.h.posted| < s.h.rung + 63
    ensures Leads(s, s') && Filling(s') && |s'.h.submitted| == |s.h.submitted| + 63
    ensures s'.h.posted == s.h.posted + [t] && s'.h.consumed == |s'.h.posted| && s'.h.rung == s.h.rung
    ensures s'.h.Known() == s'.h.fetched == |s'.h.submitted|
  {
    var s1 := SubmitMany(s, 63);
    var s2 := FetchMany(s1, 63);
    var s3 := PostOne(s2, t);
    s' := ConsumeOne(s3);
    LeadsTrans(s, s1, s2);
    LeadsTrans(s, s2, s3);
    LeadsTrans(s, s3, s');
  }

  /** A run of 128 submissions, two of them completed, ends with the ring not full and
      no free id: the 129th submitter never leaves start_command. */
  lemma StarvationReachable() returns (s: State)
    ensures Leads(Initial(), s) && Inv(s) && Stuck(s)
    ensures |s.h.submitted| == COMMANDS && s.h.consumed == 2
  {
    InitialInv();
    var s1 := Round(Initial(), 0);
    var s2 := Round(s1, 1);
    s := SubmitMany(s2, 2);
    LeadsTrans(Initial(), s1, s2);
    LeadsTrans(Initial(), s2, s);
    FullTest(s);
    forall i | 0 <= i < COMMANDS
      ensures s.d.status[i] != FreeId
    {
      assert s.h.Live(i) && s.h.submitted[i] == i;
    }
  }

  /** In general an id is free exactly when fewer than 128 tickets are live. */
  lemma FreeIdIffRoom(s: State)
    requires Inv(s)
    ensures (exists i :: 0 <= i < COMMANDS && s.d.status[i] == FreeId) <==> |LiveTickets(s)| < COMMANDS
  {
    ImageSize(s, LiveTickets(s));
    LiveIdsBounded(s, COMMANDS);
    if i :| 0 <= i < COMMANDS && s.d.status[i] == FreeId {
      LiveIdsMiss(s, COMMANDS, i);
    } else {
      AllIdsLive(s, COMMANDS);
    }
  }

  lemma LiveIdsBounded(s: State, n: nat)
    requires Inv(s) && n == COMMANDS
    ensures LiveIds(s) <= Upto(n)
  {}

  lemma LiveIdsMiss(s: State, n: nat, i: nat)
    requires Inv(s) && i < n == COMMANDS && s.d.status[i] == FreeId
    ensures |LiveIds(s)| < n
  {
    LiveIdsBounded(s, n);
    FreeIsNotLive(s, i);
    PartOfRange(LiveIds(s), n, i);
  }

  lemma FreeIsNotLive(s: State, i: nat)
    requires Inv(s) && i < COMMANDS && s.d.status[i] == FreeId
    ensures i !in LiveIds(s)
  {}

  lemma PartOfRange(a: set<nat>, n: nat, i: nat)
    requires a <= Upto(n) && i < n && i !in a
    ensures |a| < n
  {
    Sets.SubsetSize(a, Upto(n) - {i});
  }

  lemma AllIdsLive(s: State, n: nat)
    requires Inv(s) && n == COMMANDS && forall i :: 0 <= i < COMMANDS ==> s.d.status[i] != FreeId
    ensures |LiveIds(s)| == n
  {
    LiveIdsBounded(s, n);
    forall i | 0 <= i < n
      ensures i in LiveIds(s)
    {
      TakenIsLive(s, i);
    }
    WholeRange(LiveIds(s), n);
  }

  lemma WholeRange(a: set<nat>, n: nat)
    requires a <= Upto(n) && forall i :: 0 <= i < n ==> i in a
    ensures |a| == n
  {
    assert a == Upto(n);
  }

  lemma TakenIsLive(s: State, i: nat)
    requires Inv(s) && i < COMMANDS && s.d.status[i] != FreeId
    ensures i in LiveIds(s)
  {
    var t :| s.h.Live(t) && s.h.submitted[t] == i;
    assert t in LiveTickets(s);
  }

  ghost function LiveTickets(s: State): set<nat> {
    set t | 0 <= t < |s.h.submitted| && s.h.Live(t)
  }

  ghost function LiveIds(s: State): set<nat> {
    Image(s, LiveTickets(s))
  }

  ghost function Image(s: State, ts: set<nat>): set<nat>
    requires forall t :: t in ts ==> t < |s.h.submitted|
  {
    set t | t in ts :: s.h.submitted[t]
  }

  lemma {:induction false} ImageSize(s: State, ts: set<nat>)
    requires Inv(s) && forall t :: t in ts ==> s.h.Live(t)
    ensures |Image(s, ts)| == |ts|
    decreases |ts|
  {
    if ts != {} {
      var t :| t in ts;
      ImageSize(s, ts - {t});
      assert Image(s, ts) == Image(s, ts - {t}) + {s.h.submitted[t]};
    }
  }

  function Upto(n: nat): (r: set<nat>)
    ensures |r| == n && forall i :: i in r <==> 0 <= i < n
  {
    if n == 0 then {} else Upto(n - 1) + {n - 1}
  }
}
