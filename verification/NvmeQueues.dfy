/** The I/O queue pair of the NVMe driver: what the driver, the controller and the
    interrupt handler do to the two rings, one atomic step at a time. */
module NvmeQueues {
  const QUEUE: nat := 64
  const COMMANDS: nat := 128

  datatype IdStatus = FreeId | InFlight | Completed

  /** A completion queue entry: the fields the driver reads. */
  datatype Entry = Entry(cid: nat, sqHead: nat, phase: bool)

  /** The driver's side, with the rings and doorbells it shares with the controller. */
  datatype Driver = Driver(sqTail: nat, sqHead: nat, cqHead: nat, cqPhase: bool, status: seq<IdStatus>,
                           sq: seq<nat>, cq: seq<Entry>, sqBell: nat, cqBell: nat)
  {
    predicate WellFormed() {
      && sqTail < QUEUE && sqHead < QUEUE && cqHead < QUEUE && sqBell < QUEUE && cqBell < QUEUE
      && |status| == COMMANDS && |sq| == QUEUE && |cq| == QUEUE
      && forall i :: 0 <= i < QUEUE ==> cq[i].cid < COMMANDS && cq[i].sqHead < QUEUE
    }

    predicate SqFull() { (sqTail + 1) % QUEUE == sqHead }

    /** The handler's phase test: the entry at the head has not been seen. */
    predicate NewEntry()
      requires WellFormed()
    {
      cq[cqHead].phase != cqPhase
    }

    /** Enqueue command cid and ring the doorbell. */
    function Enqueue(cid: nat): Driver
      requires WellFormed() && cid < COMMANDS
    {
      var tail := (sqTail + 1) % QUEUE;
      this.(status := status[cid := InFlight], sq := sq[sqTail := cid], sqTail := tail, sqBell := tail)
    }

    /** One turn of the handler's loop. */
    function Consume(): (d: Driver)
      requires WellFormed()
      ensures d.WellFormed()
    {
      var e := cq[cqHead];
      var wraps := cqHead + 1 == QUEUE;
      this.(status := status[e.cid := Completed], sqHead := e.sqHead,
            cqHead := if wraps then 0 else cqHead + 1, cqPhase := if wraps then !cqPhase else cqPhase)
    }

    function Ring(): (d: Driver)
      requires WellFormed()
      ensures d.WellFormed()
    {
      this.(cqBell := cqHead)
    }

    function Release(cid: nat): Driver
      requires WellFormed() && cid < COMMANDS
    {
      this.(status := status[cid := FreeId])
    }
  }

  /** n turns of the handler's loop, each of which finds a new entry. */
  predicate CanConsume(d: Driver, n: nat)
    requires d.WellFormed()
    decreases n
  {
    n == 0 || (d.NewEntry() && CanConsume(d.Consume(), n - 1))
  }

  function ConsumeN(d: Driver, n: nat): (r: Driver)
    requires d.WellFormed()
    ensures r.WellFormed()
    decreases n
  {
    if n == 0 then d else ConsumeN(d.Consume(), n - 1)
  }

  lemma {:induction false} ConsumeOneMore(d: Driver, n: nat)
    requires d.WellFormed() && CanConsume(d, n) && ConsumeN(d, n).NewEntry()
    ensures CanConsume(d, n + 1) && ConsumeN(d, n + 1) == ConsumeN(d, n).Consume()
    decreases n
  {
    if n == 0 {
      assert CanConsume(d.Consume(), 0);
      assert ConsumeN(d, 1) == ConsumeN(d.Consume(), 0);
    } else { ConsumeOneMore(d.Consume(), n - 1); }
  }

  /** struct nvme_device, its I/O queue part. */
  class Device {
    var sqTail: nat
    var sqHead: nat
    var cqHead: nat
    var cqPhase: bool
    var sqBell: nat
    var cqBell: nat
    const status: array<IdStatus>
    const sq: array<nat>
    const cq: array<Entry>

    ghost function Abs(): Driver
      reads this, status, sq, cq
    {
      Driver(sqTail, sqHead, cqHead, cqPhase, status[..], sq[..], cq[..], sqBell, cqBell)
    }

    constructor ()
      ensures Abs().WellFormed() && fresh(status) && fresh(sq) && fresh(cq)
      ensures Abs() == Driver(0, 0, 0, false, seq(COMMANDS, _ => FreeId), seq(QUEUE, _ => 0),
                              seq(QUEUE, _ => Entry(0, 0, false)), 0, 0)
    {
      sqTail, sqHead, cqHead, cqPhase, sqBell, cqBell := 0, 0, 0, false, 0, 0;
      status := new IdStatus[COMMANDS](_ => FreeId);
      sq := new nat[QUEUE](_ => 0);
      cq := new Entry[QUEUE](_ => Entry(0, 0, false));
    }

    /** start_command: the lowest free id. The source's loop goes round for ever when
        there is none, so a free id is its caller's obligation. */
    method StartCommand() returns (cid: nat)
      requires Abs().WellFormed() && exists i :: 0 <= i < COMMANDS && status[i] == FreeId
      modifies status
      ensures cid < COMMANDS && old(status[cid]) == FreeId && forall i :: 0 <= i < cid ==> old(status[i]) != FreeId
      ensures Abs() == old(Abs()).(status := old(status[..])[cid := InFlight])
    {
      ghost var lowest :| 0 <= lowest < COMMANDS && status[lowest] == FreeId;
      cid := 0;
      while status[cid] != FreeId
        invariant 0 <= cid <= lowest
        invariant forall i :: 0 <= i < cid ==> status[i] != FreeId
        decreases lowest - cid
      {
        cid := (cid + 1) % COMMANDS;
      }
      status[cid] := InFlight;
    }

    /** The submission half of nvme_readpage and nvme_writepage, the queue not being full. */
    method Submit() returns (cid: nat)
      requires Abs().WellFormed() && !Abs().SqFull() && exists i :: 0 <= i < COMMANDS && status[i] == FreeId
      modifies this, status, sq
      ensures cid < COMMANDS && old(status[cid]) == FreeId
      ensures Abs() == old(Abs()).Enqueue(cid)
    {
      cid := StartCommand();
      sq[sqTail] := cid;
      sqTail := (sqTail + 1) % QUEUE;
      sqBell := sqTail;
    }

    /** await_command_finish has seen the id leave the in-flight state; free_command. */
    method Free(cid: nat)
      requires Abs().WellFormed() && cid < COMMANDS
      modifies status
      ensures Abs() == old(Abs()).Release(cid)
    {
      status[cid] := FreeId;
    }

    /** nvme_handle_interrupt: consumes entries until the phase test fails, then rings. */
    method HandleInterrupt() returns (ghost n: nat)
      requires Abs().WellFormed()
      modifies this, status
      ensures CanConsume(old(Abs()), n) && !ConsumeN(old(Abs()), n).NewEntry()
      ensures Abs() == if n == 0 then old(Abs()) else ConsumeN(old(Abs()), n).Ring()
    {
      ghost var d, head, phase := Abs(), cqHead, cqPhase;
      n := 0;
      var needed := false;
      while true
        invariant Abs().WellFormed() && Abs() == ConsumeN(d, n) && CanConsume(d, n)
        invariant needed == (n > 0) && cq[..] == d.cq
        invariant cqPhase == phase ==> cqHead >= head && forall i :: head <= i < cqHead ==> cq[i].phase != phase
        invariant cqPhase != phase ==> cqHead <= head && cq[head].phase != phase
        decreases cqPhase == phase, QUEUE - cqHead
      {
        var e := cq[cqHead];
        if e.phase == cqPhase { break; }
        ConsumeOneMore(d, n);
        status[e.cid] := Completed;
        cqHead := cqHead + 1;
        sqHead := e.sqHead;
        needed := true;
        if cqHead == QUEUE {
          cqHead := 0;
          cqPhase := !cqPhase;
        }
        n := n + 1;
        assert Abs() == ConsumeN(d, n - 1).Consume();
      }
      if needed { cqBell := cqHead; }
    }
  }
}
