/** The main loop of sysd as a program: whatever the other clients of the database, the database server
    and the IDL do, it only ever goes through runs of the boot barrier's transition system.
 */
module MainLoop {
  import opened Wrappers
  import opened HwCheck
  import opened BootBarrier

  /** The answer to a blocking commit, and what happens before it comes: other clients write, and the
      replica takes in updates. */
  datatype Answer = Answer(meanwhile: seq<Step>, success: bool, seqno: nat, rows: nat)

  /** What the surroundings decide in one iteration: what ovsdb_idl_run delivers, whether the lock is
      held, the iteration order of the Daemon table, the answers to commits, and what others write
      before and after sysd_run.  What is impossible at its time does not happen. */
  datatype Inputs = Inputs(
    before: seq<Step>,
    to: nat,
    seqno: nat,
    hasLock: bool,
    order: seq<nat>,
    configured: Answer,
    done: Answer,
    packages: seq<Answer>,
    after: seq<Step>)

  lemma Extend(m: Manifest, run: seq<State>, step: Step, t: State)
    requires IsRun(m, run)
    requires var s := run[|run| - 1]; s.replica < |s.history| && Takes(m, s, step, t)
    ensures IsRun(m, run + [t])
  {
    var s, longer := run[|run| - 1], run + [t];
    assert Next(m, s, t);
    forall i | 0 <= i < |longer| - 1
      ensures Next(m, longer[i], longer[i + 1])
    {
      if i < |run| - 1 {
        assert Next(m, run[i], run[i + 1]);
      }
    }
  }

  class Sysd {
    const daemons: Manifest
    const numHwDaemons: int
    /** The server's versions, and the IDL: the version it holds and its sequence number. */
    var history: seq<Db>
    var replica: nat
    var seqno: nat
    /** idl_seqno and hw_init_done_set. */
    var idlSeqno: nat
    var hwInitDoneSet: bool
    /** The run so far, and the result of the commit that opens the barrier. */
    ghost var run: seq<State>
    ghost var doneCommit: Option<bool>

    /** The program is where the run is. */
    ghost predicate IsAt(pc: Pc, doneSet: bool)
      reads this
    {
      && replica < |history| && numHwDaemons == CountHw(daemons)
      && IsRun(daemons, run)
      && run[|run| - 1] == State(history, replica, seqno, idlSeqno, doneSet, pc, doneCommit)
    }

    constructor (m: Manifest)
      ensures IsAt(LoopTop, hwInitDoneSet) && daemons == m
    {
      daemons, numHwDaemons := m, CountHw(m);
      history, replica, seqno, idlSeqno, hwInitDoneSet := [EMPTY], 0, 0, 0, false;
      doneCommit, run := None, [State([EMPTY], 0, 0, 0, false, LoopTop, None)];
    }

    function Seen(): Db
      requires replica < |history|
      reads this
    {
      history[replica]
    }

    function Head(): Db
      requires history != []
      reads this
    {
      history[|history| - 1]
    }

    /** Where the replica is, for the conditions on updates. */
    function Now(pc: Pc): State
      reads this
    {
      State(history, replica, seqno, idlSeqno, hwInitDoneSet, pc, None)
    }

    ghost method Step(step: Step, pc: Pc, doneSet: bool)
      requires IsRun(daemons, run) && numHwDaemons == CountHw(daemons) && replica < |history|
      requires var s := run[|run| - 1];
               s.replica < |s.history|
               && Takes(daemons, s, step, State(history, replica, seqno, idlSeqno, doneSet, pc, doneCommit))
      modifies this`run
      ensures IsAt(pc, doneSet) && old(run) <= run && |run| == |old(run)| + 1
    {
      var t := State(history, replica, seqno, idlSeqno, doneSet, pc, doneCommit);
      Extend(daemons, run, step, t);
      run := run + [t];
    }

    /** One thing that happens beside sysd. */
    method Elsewhere(step: Step, pc: Pc)
      requires IsAt(pc, hwInitDoneSet)
      modifies this`history, this`replica, this`seqno, this`run
      ensures IsAt(pc, hwInitDoneSet) && old(run) <= run
    {
      match step {
        case DaemonRaises(i, v) =>
          if i < |Head().cur| && v >= Head().cur[i] {
            history := history + [Head().(cur := Head().cur[i := v])];
            Step(step, pc, hwInitDoneSet);
          }
        case OtherWrite(v) =>
          history := history + [Head().(other := v)];
          Step(step, pc, hwInitDoneSet);
        case CommitWaits(to, n) =>
          if InCommit(pc) && Delivers(Now(pc), history, to, n) {
            replica, seqno := to, n;
            Step(step, pc, hwInitDoneSet);
          }
        case _ =>
      }
    }

    method Meanwhile(steps: seq<Step>, pc: Pc)
      requires IsAt(pc, hwInitDoneSet)
      modifies this`history, this`replica, this`seqno, this`run
      ensures IsAt(pc, hwInitDoneSet) && old(run) <= run
    {
      for i := 0 to |steps|
        invariant IsAt(pc, hwInitDoneSet) && old(run) <= run
      {
        Elsewhere(steps[i], pc);
      }
    }

    /** A commit is answered with success: the server has a new version, and the replica holds it. */
    method CommitDone(pc: Pc, n: nat, rows: nat)
      requires IsAt(pc, hwInitDoneSet) && InCommit(pc)
      requires Delivers(Now(pc), history + [Committed(daemons, pc, Head(), rows)], |history|, n)
      modifies this`history, this`replica, this`seqno, this`run, this`doneCommit
      ensures IsAt(if pc == PackageCommit then pc else PackageCheck, hwInitDoneSet || pc == DoneCommit)
      ensures old(run) <= run
      ensures doneCommit == if pc == DoneCommit then Some(true) else old(doneCommit)
    {
      history := history + [Committed(daemons, pc, Head(), rows)];
      replica, seqno := |history| - 1, n;
      doneCommit := if pc == DoneCommit then Some(true) else doneCommit;
      Step(CommitSucceeds(n, rows), if pc == PackageCommit then pc else PackageCheck,
           hwInitDoneSet || pc == DoneCommit);
    }

    /** It is answered otherwise: the database is as it was. */
    method CommitLost(pc: Pc)
      requires IsAt(pc, hwInitDoneSet) && InCommit(pc)
      modifies this`run, this`doneCommit
      ensures IsAt(if pc == PackageCommit then pc else PackageCheck, hwInitDoneSet || pc == DoneCommit)
      ensures old(run) <= run
      ensures doneCommit == if pc == DoneCommit then Some(false) else old(doneCommit)
    {
      doneCommit := if pc == DoneCommit then Some(false) else doneCommit;
      Step(CommitFails, if pc == PackageCommit then pc else PackageCheck, hwInitDoneSet || pc == DoneCommit);
    }

    /** ovsdb_idl_txn_commit_block. */
    method CommitBlock(pc: Pc, answer: Answer) returns (success: bool)
      requires IsAt(pc, hwInitDoneSet) && InCommit(pc)
      modifies this`history, this`replica, this`seqno, this`run, this`doneCommit
      ensures IsAt(if pc == PackageCommit then pc else PackageCheck, hwInitDoneSet || pc == DoneCommit)
      ensures old(run) <= run && (pc != DoneCommit ==> doneCommit == old(doneCommit))
      ensures pc == DoneCommit ==> doneCommit == Some(success)
    {
      Meanwhile(answer.meanwhile, pc);
      var longer := history + [Committed(daemons, pc, Head(), answer.rows)];
      success := answer.success && Delivers(Now(pc), longer, |history|, answer.seqno);
      if success {
        CommitDone(pc, answer.seqno, answer.rows);
      } else {
        CommitLost(pc);
      }
    }

    /** sysd_set_hw_done. */
    method SetHwDone(answer: Answer)
      requires IsAt(DoneCommit, hwInitDoneSet)
      modifies this
      ensures IsAt(PackageCheck, hwInitDoneSet) && old(run) <= run
      ensures hwInitDoneSet
    {
      var success := CommitBlock(DoneCommit, answer);
      hwInitDoneSet := true;
    }

    /** The run is at the top of the loop, and the IDL has taken in updates since. */
    ghost predicate HasRunIdl()
      reads this
    {
      && numHwDaemons == CountHw(daemons) && IsRun(daemons, run) && replica < |history|
      && var s := run[|run| - 1];
         && s == State(history, s.replica, s.seqno, idlSeqno, hwInitDoneSet, LoopTop, doneCommit)
         && Delivers(s, history, replica, seqno)
    }

    /** ovsdb_idl_run; an impossible update delivers nothing. */
    method IdlRun(to: nat, n: nat)
      requires IsAt(LoopTop, hwInitDoneSet)
      modifies this`replica, this`seqno
      ensures HasRunIdl()
      ensures Seen().system.Some? ==> |Seen().cur| == |daemons|
    {
      ReachableNow(LoopTop);
      if Delivers(Now(LoopTop), history, to, n) {
        replica, seqno := to, n;
      }
    }

    /** sysd_run after ovsdb_idl_run, up to its first transaction or its end: where it goes on. */
    method Decide(hasLock: bool, order: seq<nat>) returns (next: Pc)
      requires HasRunIdl() && (Seen().system.Some? ==> |Seen().cur| == |daemons|)
      requires IsOrder(order, |daemons|)
      modifies this`idlSeqno, this`run
      ensures IsAt(next, hwInitDoneSet) && old(run) <= run
      ensures idlSeqno == if hasLock then seqno else old(idlSeqno)
      ensures var acts := hasLock && seqno != old(idlSeqno);
              && (next == LoopEnd <==> !acts)
              && (next == InitialCommit <==> acts && Seen().system == None)
              && (next == DoneCommit <==>
                    && acts && Seen().system != None && !hwInitDoneSet
                    && Passes(daemons, numHwDaemons, Rows(daemons, Seen().cur, order)))
              && (next == LoopEnd || next == InitialCommit || next == DoneCommit || next == PackageCheck)
    {
      next := LoopEnd;
      if hasLock && seqno != idlSeqno {
        idlSeqno := seqno;
        if Seen().system.None? {
          next := InitialCommit;
        } else {
          next := PackageCheck;
          if !hwInitDoneSet {
            var done := ChkIfHwDaemonsDone(daemons, numHwDaemons, Rows(daemons, Seen().cur, order));
            next := if done then DoneCommit else PackageCheck;
          }
        }
      }
      Step(BootBarrier.SysdRun(replica, seqno, hasLock, order), next, hwInitDoneSet);
    }

    /** sysd_run. */
    method SysdRun(inputs: Inputs)
      requires IsAt(LoopTop, hwInitDoneSet) && IsOrder(inputs.order, |daemons|)
      modifies this
      ensures IsAt(LoopEnd, hwInitDoneSet) && old(run) <= run
      ensures !inputs.hasLock ==>
                history == old(history) && idlSeqno == old(idlSeqno) && hwInitDoneSet == old(hwInitDoneSet)
    {
      IdlRun(inputs.to, inputs.seqno);
      var next := Decide(inputs.hasLock, inputs.order);
      if next == LoopEnd {
        return;
      }
      if next == InitialCommit {
        var success := CommitBlock(InitialCommit, inputs.configured);
      } else if next == DoneCommit {
        SetHwDone(inputs.done);
      }
      AddPackageInfoIfNone(inputs.packages);
    }

    /** The package table is filled, in one transaction after the other, if it is empty. */
    method AddPackageInfoIfNone(answers: seq<Answer>)
      requires IsAt(PackageCheck, hwInitDoneSet)
      modifies this`history, this`replica, this`seqno, this`run, this`doneCommit
      ensures IsAt(LoopEnd, hwInitDoneSet) && old(run) <= run
      ensures old(Seen().packages) != 0 ==> history == old(history)
      ensures (exists i :: |old(run)| <= i < |run| && run[i].pc == PackageCommit) <==> old(Seen().packages) == 0
    {
      if Seen().packages != 0 {
        Step(LookAtPackages, LoopEnd, hwInitDoneSet);
        return;
      }
      Step(LookAtPackages, PackageCommit, hwInitDoneSet);
      assert run[|old(run)|].pc == PackageCommit;
      for i := 0 to |answers|
        invariant IsAt(PackageCommit, hwInitDoneSet) && old(run) <= run
        invariant |old(run)| < |run| && run[|old(run)|].pc == PackageCommit
      {
        var success := CommitBlock(PackageCommit, answers[i]);
      }
      Step(PackagesDone, LoopEnd, hwInitDoneSet);
    }

    /** What is known about the state the program is in. */
    lemma ReachableNow(pc: Pc)
      requires IsAt(pc, hwInitDoneSet)
      ensures Reachable(daemons, run[|run| - 1]) && Inv(daemons, run[|run| - 1])
      ensures forall i :: replica <= i < |history| && history[i].system.Some? ==> |history[i].cur| == |daemons|
    {
      assert Reachable(daemons, run[|run| - 1]);
      ReachableInv(daemons, run[|run| - 1]);
    }

    /** The body of the loop in main after sysd_run. */
    method MayBlock(after: seq<Step>) returns (blocks: bool)
      requires IsAt(LoopEnd, hwInitDoneSet)
      modifies this`history, this`replica, this`seqno, this`run
      ensures IsAt(if blocks then Blocked else LoopTop, hwInitDoneSet) && old(run) <= run
      ensures blocks <==> idlSeqno == seqno
      ensures blocks && Seen().system.Some? && !hwInitDoneSet ==> SomeUnready(daemons, Seen().cur)
      ensures PrefixFree(daemons) && Head().system == Some(1) ==> !SomeUnready(daemons, Head().cur)
    {
      Meanwhile(after, LoopEnd);
      blocks := idlSeqno == seqno;
      Step(EndOfIteration, if blocks then Blocked else LoopTop, hwInitDoneSet);
      RunSafety(daemons, run, run[|run| - 1]);
    }

    /** The body of the loop in main; it ends in poll_block unless the sequence number has moved. */
    method Iterate(inputs: Inputs) returns (blocks: bool)
      requires IsAt(LoopTop, hwInitDoneSet) && IsOrder(inputs.order, |daemons|)
      modifies this
      ensures IsAt(if blocks then Blocked else LoopTop, hwInitDoneSet) && old(run) <= run
      ensures blocks <==> idlSeqno == seqno
      ensures blocks && Seen().system.Some? && !hwInitDoneSet ==> SomeUnready(daemons, Seen().cur)
      ensures PrefixFree(daemons) && Head().system == Some(1) ==> !SomeUnready(daemons, Head().cur)
    {
      Meanwhile(inputs.before, LoopTop);
      SysdRun(inputs);
      blocks := MayBlock(inputs.after);
    }

    /** poll_block returns. */
    method PollBlock(others: seq<Step>)
      requires IsAt(Blocked, hwInitDoneSet)
      modifies this`history, this`replica, this`seqno, this`run
      ensures IsAt(LoopTop, hwInitDoneSet) && old(run) <= run
    {
      Meanwhile(others, Blocked);
      Step(Wake, LoopTop, hwInitDoneSet);
    }

    /** The loop in main, until it is told to exit. */
    method Loop(inputs: seq<Inputs>)
      requires IsAt(LoopTop, hwInitDoneSet) && forall k :: 0 <= k < |inputs| ==> IsOrder(inputs[k].order, |daemons|)
      modifies this
      ensures IsAt(LoopTop, hwInitDoneSet) && old(run) <= run
      ensures PrefixFree(daemons) ==> forall i :: 0 <= i < |run| ==> !OpenedEarly(daemons, run[i])
    {
      for k := 0 to |inputs|
        invariant IsAt(LoopTop, hwInitDoneSet) && old(run) <= run
      {
        var blocks := Iterate(inputs[k]);
        if blocks {
          PollBlock([]);
        }
      }
      if PrefixFree(daemons) {
        forall i | 0 <= i < |run|
          ensures !OpenedEarly(daemons, run[i])
        {
          RunState(daemons, run, i);
          NeverOpensEarlyIffPrefixFree(daemons);
        }
      }
    }
  }

  lemma RunState(m: Manifest, run: seq<State>, i: nat)
    requires IsRun(m, run) && i < |run|
    ensures Reachable(m, run[i])
  {
    var part := run[..i + 1];
    forall k | 0 <= k < |part| - 1
      ensures Next(m, part[k], part[k + 1])
    {
      assert Next(m, run[k], run[k + 1]);
    }
    assert IsRun(m, part) && part[|part| - 1] == run[i];
  }
}
