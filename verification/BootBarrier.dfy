/** The boot barrier as a transition system: the database server with its history of versions, the
    replica the IDL keeps of it, the main loop of sysd, and everybody else who writes the database.
 */
module BootBarrier {
  import opened Wrappers
  import opened HwCheck

  /** The part of the database sysd's main loop looks at: cur_hw of the System row, if there is one;
      cur_hw of the Daemon rows, one for each manifest daemon; the number of Package_Info rows; and
      whatever else wakes up a client. */
  datatype Db = Db(system: Option<int>, cur: seq<int>, packages: nat, other: int)

  const EMPTY := Db(None, [], 0, 0)

  /** Where sysd is: at the top of the main loop, inside one of its blocking commits, about to look
      at the package table, at the end of an iteration, or in poll_block. */
  datatype Pc = LoopTop | InitialCommit | DoneCommit | PackageCheck | PackageCommit | LoopEnd | Blocked

  datatype State = State(
    history: seq<Db>,          // every version the server has had, the current one last
    replica: nat,              // the version the replica holds
    seqno: nat,                // ovsdb_idl_get_seqno
    recorded: nat,             // idl_seqno
    hwInitDoneSet: bool,       // hw_init_done_set
    pc: Pc,
    doneCommit: Option<bool>   // whether System.cur_hw = 1 was committed, and with what success
  )
  {
    function Head(): Db requires history != [] { history[|history| - 1] }
    function Seen(): Db requires replica < |history| { history[replica] }
  }

  datatype Step =
    | DaemonRaises(daemon: nat, value: int)
    | OtherWrite(value: int)
    | SysdRun(to: nat, seqno: nat, hasLock: bool, order: seq<nat>)
    | CommitWaits(to: nat, seqno: nat)
    | CommitSucceeds(seqno: nat, rows: nat)
    | CommitFails
    | LookAtPackages
    | PackagesDone
    | EndOfIteration
    | Wake

  // ----- steps

  /** What the IDL counts as a change; System.cur_hw is registered without alert. */
  function Alerting(db: Db): (bool, seq<int>, nat, int) {
    (db.system.Some?, db.cur, db.packages, db.other)
  }

  /** The IDL takes in updates up to version `to`.  The sequence number moves if something alerting
      has changed, and may move for other reasons, such as gaining the lock. */
  predicate Delivers(s: State, history: seq<Db>, to: nat, seqno: nat) {
    && s.replica < |s.history| && s.replica <= to < |history|
    && s.seqno <= seqno
    && (Alerting(s.Seen()) != Alerting(history[to]) ==> s.seqno < seqno)
  }

  /** What the commit sysd is in writes to the current version. */
  function Committed(m: Manifest, pc: Pc, db: Db, rows: nat): Db {
    match pc
    case InitialCommit => db.(system := Some(0), cur := InitialCur(m))
    case DoneCommit => if db.system.Some? then db.(system := Some(1)) else db
    case _ => db.(packages := db.packages + rows)
  }

  function InitialCur(m: Manifest): (cur: seq<int>)
    ensures |cur| == |m| && forall i :: 0 <= i < |m| ==> cur[i] == m[i].curHw
  {
    seq(|m|, i requires 0 <= i < |m| => m[i].curHw)
  }

  function AfterCommit(s: State, success: bool): State {
    match s.pc
    case InitialCommit => s.(pc := PackageCheck)
    case DoneCommit => s.(pc := PackageCheck, hwInitDoneSet := true, doneCommit := Some(success))
    case _ => s
  }

  predicate InCommit(pc: Pc) {
    pc == InitialCommit || pc == DoneCommit || pc == PackageCommit
  }

  ghost predicate Init(s: State) {
    s == State([EMPTY], 0, 0, 0, false, LoopTop, None)
  }

  /** sysd_run from the IDL run to its first commit, with the given iteration order of the Daemon
      table. */
  ghost predicate Runs(m: Manifest, s: State, to: nat, seqno: nat, hasLock: bool, order: seq<nat>, t: State) {
    && s.pc == LoopTop
    && Delivers(s, s.history, to, seqno)
    && var u := s.(replica := to, seqno := seqno);
       if !hasLock || seqno == s.recorded then t == u.(pc := LoopEnd)
       else if u.Seen().system.None? then t == u.(recorded := seqno, pc := InitialCommit)
       else
         && |u.Seen().cur| == |m| && IsOrder(order, |m|)
         && var commits := !s.hwInitDoneSet && Passes(m, CountHw(m), Rows(m, u.Seen().cur, order));
            t == u.(recorded := seqno, pc := if commits then DoneCommit else PackageCheck)
  }

  ghost predicate Takes(m: Manifest, s: State, step: Step, t: State)
    requires s.replica < |s.history|
  {
    match step
    // the others: a hardware daemon raises its own cur_hw, somebody writes something unrelated
    case DaemonRaises(i, v) =>
      && i < |s.Head().cur| && v >= s.Head().cur[i]
      && t == s.(history := s.history + [s.Head().(cur := s.Head().cur[i := v])])
    case OtherWrite(v) =>
      t == s.(history := s.history + [s.Head().(other := v)])
    // sysd
    case SysdRun(to, seqno, hasLock, order) =>
      Runs(m, s, to, seqno, hasLock, order, t)
    case CommitWaits(to, seqno) =>
      && InCommit(s.pc) && Delivers(s, s.history, to, seqno)
      && t == s.(replica := to, seqno := seqno)
    case CommitSucceeds(seqno, rows) =>
      && InCommit(s.pc)
      && var history := s.history + [Committed(m, s.pc, s.Head(), rows)];
      && Delivers(s, history, |s.history|, seqno)
      && t == AfterCommit(s, true).(history := history, replica := |s.history|, seqno := seqno)
    case CommitFails =>
      InCommit(s.pc) && t == AfterCommit(s, false)
    case LookAtPackages =>
      s.pc == PackageCheck && t == s.(pc := if s.Seen().packages == 0 then PackageCommit else LoopEnd)
    case PackagesDone =>
      s.pc == PackageCommit && t == s.(pc := LoopEnd)
    case EndOfIteration =>
      s.pc == LoopEnd && t == s.(pc := if s.recorded != s.seqno then LoopTop else Blocked)
    case Wake =>
      s.pc == Blocked && t == s.(pc := LoopTop)
  }

  ghost predicate Next(m: Manifest, s: State, t: State) {
    s.replica < |s.history| && exists step :: Takes(m, s, step, t)
  }

  ghost predicate IsRun(m: Manifest, run: seq<State>) {
    && run != [] && Init(run[0])
    && forall i :: 0 <= i < |run| - 1 ==> Next(m, run[i], run[i + 1])
  }

  // ----- what holds throughout every run

  ghost predicate DbOk(m: Manifest, db: Db) {
    if db.system.Some? then Raised(m, db.cur) else db.cur == []
  }

  /** Rows stay, and cur_hw values only grow. */
  ghost predicate Grows(a: Db, b: Db) {
    a.system.Some? ==> b.system.Some? && |b.cur| == |a.cur| && forall i :: 0 <= i < |a.cur| ==> a.cur[i] <= b.cur[i]
  }

  /** The barrier is open: the configuration daemon may go ahead. */
  predicate Open(db: Db) {
    db.system == Some(1)
  }

  ghost predicate Inv(m: Manifest, s: State) {
    && s.replica < |s.history|
    && s.recorded <= s.seqno
    && (forall i :: 0 <= i < |s.history| ==> DbOk(m, s.history[i]))
    && (forall i, j :: 0 <= i <= j < |s.history| ==> Grows(s.history[i], s.history[j]))
    // sysd has seen the System row it has inserted
    && (s.Head().system.Some? ==> s.Seen().system.Some?)
    && (s.pc == InitialCommit ==> s.Seen().system.None?)
    && (s.pc == DoneCommit ==> s.Seen().system.Some? && !s.hwInitDoneSet)
    // nobody but the done commit opens the barrier
    && (s.hwInitDoneSet <==> s.doneCommit.Some?)
    && (s.doneCommit == Some(true) <==> Open(s.Head()))
    && (s.doneCommit != Some(true) ==> forall i :: 0 <= i < |s.history| ==> !Open(s.history[i]))
    // no readiness goes unnoticed
    && (s.recorded == s.seqno && s.pc != DoneCommit && s.Seen().system.Some? && AllReady(m, s.Seen().cur)
        ==> s.hwInitDoneSet)
  }

  /** The safety part, for which names have to be prefix-free. */
  ghost predicate Safe(m: Manifest, s: State) {
    && s.replica < |s.history|
    && (s.pc == DoneCommit ==> AllReady(m, s.Seen().cur))
    && forall i :: 0 <= i < |s.history| && Open(s.history[i]) ==> AllReady(m, s.history[i].cur)
  }

  // ----- every step keeps it

  /** Appending a version that grows out of the current one keeps the history in order. */
  lemma AppendGrows(m: Manifest, history: seq<Db>, db: Db)
    requires history != [] && Grows(history[|history| - 1], db) && DbOk(m, db)
    requires forall i :: 0 <= i < |history| ==> DbOk(m, history[i])
    requires forall i, j :: 0 <= i <= j < |history| ==> Grows(history[i], history[j])
    ensures var h := history + [db];
            && (forall i :: 0 <= i < |h| ==> DbOk(m, h[i]))
            && (forall i, j :: 0 <= i <= j < |h| ==> Grows(h[i], h[j]))
  {
    var h := history + [db];
    forall i, j | 0 <= i <= j < |h|
      ensures Grows(h[i], h[j])
    {
      if i < |history| && j == |history| {
        assert Grows(history[i], history[|history| - 1]);
      }
    }
  }

  lemma OthersKeepInv(m: Manifest, s: State, step: Step, t: State)
    requires Inv(m, s) && Takes(m, s, step, t)
    requires step.DaemonRaises? || step.OtherWrite?
    ensures Inv(m, t)
  {
    assert t.history == s.history + [t.Head()];
    AppendGrows(m, s.history, t.Head());
    assert t.Seen() == s.Seen();
    assert Open(t.Head()) == Open(s.Head());
  }

  lemma SysdRunKeepsInv(m: Manifest, s: State, step: Step, t: State)
    requires Inv(m, s) && Takes(m, s, step, t) && step.SysdRun?
    ensures Inv(m, t)
  {
    var u := s.(replica := step.to, seqno := step.seqno);
    assert Grows(s.Seen(), u.Seen()) && Grows(u.Seen(), s.Head());
    if step.hasLock && step.seqno != s.recorded && u.Seen().system.Some? && AllReady(m, u.Seen().cur) {
      ReadyPasses(m, u.Seen().cur, step.order);
    }
  }

  lemma CommitKeepsInv(m: Manifest, s: State, step: Step, t: State)
    requires Inv(m, s) && Takes(m, s, step, t)
    requires step.CommitWaits? || step.CommitSucceeds? || step.CommitFails?
    ensures Inv(m, t)
  {
    if step.CommitSucceeds? {
      var db := Committed(m, s.pc, s.Head(), step.rows);
      assert t.history == s.history + [db] && t.Head() == t.Seen() == db;
      AppendGrows(m, s.history, db);
    } else if step.CommitWaits? {
      assert Grows(s.Seen(), t.Seen()) && Grows(t.Seen(), s.Head());
    }
  }

  lemma StepKeepsInv(m: Manifest, s: State, t: State)
    requires Inv(m, s) && Next(m, s, t)
    ensures Inv(m, t)
  {
    var step :| Takes(m, s, step, t);
    match step {
      case DaemonRaises(_, _) => OthersKeepInv(m, s, step, t);
      case OtherWrite(_) => OthersKeepInv(m, s, step, t);
      case SysdRun(_, _, _, _) => SysdRunKeepsInv(m, s, step, t);
      case CommitWaits(_, _) => CommitKeepsInv(m, s, step, t);
      case CommitSucceeds(_, _) => CommitKeepsInv(m, s, step, t);
      case CommitFails => CommitKeepsInv(m, s, step, t);
      case _ => LocalKeepsInv(m, s, step, t);
    }
  }

  lemma LocalKeepsInv(m: Manifest, s: State, step: Step, t: State)
    requires Inv(m, s) && Takes(m, s, step, t)
    requires step.LookAtPackages? || step.PackagesDone? || step.EndOfIteration? || step.Wake?
    ensures Inv(m, t)
  {
    assert t == s.(pc := t.pc);
  }

  /** Readiness, once there, stays. */
  lemma ReadyStays(m: Manifest, a: Db, b: Db)
    requires Grows(a, b) && a.system.Some? && AllReady(m, a.cur)
    ensures AllReady(m, b.cur)
  {
  }

  lemma StepKeepsSafe(m: Manifest, s: State, t: State)
    requires PrefixFree(m)
    requires Inv(m, s) && Safe(m, s) && Next(m, s, t)
    ensures Safe(m, t)
  {
    var step :| Takes(m, s, step, t);
    match step {
      case DaemonRaises(_, _) => OthersKeepSafe(m, s, step, t);
      case OtherWrite(_) => OthersKeepSafe(m, s, step, t);
      case SysdRun(_, _, _, _) => SysdRunKeepsSafe(m, s, step, t);
      case CommitWaits(_, _) => CommitKeepsSafe(m, s, step, t);
      case CommitSucceeds(_, _) => CommitKeepsSafe(m, s, step, t);
      case _ =>
        assert t.history == s.history && t.replica == s.replica;
    }
  }

  lemma SysdRunKeepsSafe(m: Manifest, s: State, step: Step, t: State)
    requires PrefixFree(m)
    requires Inv(m, s) && Safe(m, s) && Takes(m, s, step, t) && step.SysdRun?
    ensures Safe(m, t)
  {
    assert t.history == s.history;
    if t.pc == DoneCommit {
      PassesReady(m, t.Seen().cur, step.order);
    }
  }

  lemma CommitKeepsSafe(m: Manifest, s: State, step: Step, t: State)
    requires Inv(m, s) && Safe(m, s) && Takes(m, s, step, t)
    requires step.CommitWaits? || step.CommitSucceeds?
    ensures Safe(m, t)
  {
    if step.CommitWaits? {
      if t.pc == DoneCommit {
        ReadyStays(m, s.Seen(), t.Seen());
      }
    } else {
      var db := Committed(m, s.pc, s.Head(), step.rows);
      assert t.history == s.history + [db];
      if s.pc == DoneCommit {
        ReadyStays(m, s.Seen(), s.Head());
      }
    }
  }

  lemma OthersKeepSafe(m: Manifest, s: State, step: Step, t: State)
    requires Inv(m, s) && Safe(m, s) && Takes(m, s, step, t)
    requires step.DaemonRaises? || step.OtherWrite?
    ensures Safe(m, t)
  {
    OthersKeepInv(m, s, step, t);
    assert t.history == s.history + [t.Head()] && t.Seen() == s.Seen();
    if Open(t.Head()) {
      assert Grows(t.history[|s.history| - 1], t.Head());
      ReadyStays(m, s.Head(), t.Head());
    }
  }

  lemma InitInv(m: Manifest, s: State)
    requires Init(s)
    ensures Inv(m, s) && Safe(m, s)
  {
  }

  lemma RunPrefix(m: Manifest, run: seq<State>)
    requires IsRun(m, run) && |run| > 1
    ensures IsRun(m, run[..|run| - 1]) && Next(m, run[|run| - 2], run[|run| - 1])
  {
    var prefix := run[..|run| - 1];
    forall i | 0 <= i < |prefix| - 1
      ensures Next(m, prefix[i], prefix[i + 1])
    {
      assert Next(m, run[i], run[i + 1]);
    }
    assert Next(m, run[|run| - 2], run[|run| - 2 + 1]);
  }

  lemma {:induction false} RunKeepsInv(m: Manifest, run: seq<State>)
    requires IsRun(m, run)
    ensures Inv(m, run[|run| - 1])
    ensures PrefixFree(m) ==> Safe(m, run[|run| - 1])
    ensures run[|run| - 1].pc == Blocked ==> run[|run| - 1].recorded == run[|run| - 1].seqno
    decreases |run|
  {
    var n := |run| - 1;
    if n == 0 {
      InitInv(m, run[0]);
    } else {
      RunPrefix(m, run);
      RunKeepsInv(m, run[..n]);
      StepKeepsInv(m, run[n - 1], run[n]);
      if PrefixFree(m) {
        StepKeepsSafe(m, run[n - 1], run[n]);
      }
      if run[n].pc == Blocked {
        StepToBlocked(m, run[n - 1], run[n]);
      }
    }
  }

  /** poll_block is entered only with the sequence number recorded. */
  lemma StepToBlocked(m: Manifest, s: State, t: State)
    requires Next(m, s, t) && t.pc == Blocked
    requires s.pc == Blocked ==> s.recorded == s.seqno
    ensures t.recorded == t.seqno
  {
  }

  // ----- the theorems

  /** s occurs in some run. */
  ghost predicate Reachable(m: Manifest, s: State) {
    exists run :: IsRun(m, run) && run[|run| - 1] == s
  }

  lemma ReachableInv(m: Manifest, s: State)
    requires Reachable(m, s)
    ensures Inv(m, s)
    ensures PrefixFree(m) ==> Safe(m, s)
    ensures s.pc == Blocked ==> s.recorded == s.seqno
  {
    var run :| IsRun(m, run) && run[|run| - 1] == s;
    RunKeepsInv(m, run);
  }

  /** The barrier has been opened too early in some version of the database. */
  ghost predicate OpenedEarly(m: Manifest, s: State) {
    exists v :: 0 <= v < |s.history| && s.history[v].system == Some(1) && SomeUnready(m, s.history[v].cur)
  }

  /** Some hardware daemon has not reported, or has no row at all. */
  ghost predicate SomeUnready(m: Manifest, cur: seq<int>) {
    exists i :: 0 <= i < |m| && m[i].isHw && (i >= |cur| || cur[i] <= 0)
  }

  /** Safety: at no point of any run is the barrier open, in any version of the database, before
      every hardware daemon of the manifest has reported in that version.  This holds exactly for
      prefix-free manifests. */
  lemma NeverOpensEarlyIffPrefixFree(m: Manifest)
    ensures (forall s :: Reachable(m, s) ==> !OpenedEarly(m, s)) <==> PrefixFree(m)
  {
    if PrefixFree(m) {
      forall s | Reachable(m, s)
        ensures !OpenedEarly(m, s)
      {
        ReachableInv(m, s);
        assert forall v :: 0 <= v < |s.history| && Open(s.history[v]) ==> AllReady(m, s.history[v].cur);
      }
    } else {
      var i, j :| Clash(m, i, j);
      var s := EarlyRun(m, i, j);
    }
  }

  /** No lost wake-up: when the main loop blocks on a replica that has a System row, either the
      barrier has been dealt with or some hardware daemon has not reported in that replica. */
  lemma NoLostWakeup(m: Manifest, s: State)
    requires Reachable(m, s) && s.pc == Blocked
    ensures s.replica < |s.history|
    ensures s.Seen().system.Some? && !s.hwInitDoneSet ==> SomeUnready(m, s.Seen().cur)
  {
    ReachableInv(m, s);
    if s.Seen().system.Some? && !s.hwInitDoneSet {
      assert DbOk(m, s.Seen()) && !AllReady(m, s.Seen().cur);
    }
  }

  /** The state a run has reached, in the terms of the loop. */
  lemma RunSafety(m: Manifest, run: seq<State>, s: State)
    requires IsRun(m, run) && run[|run| - 1] == s
    ensures s.replica < |s.history|
    ensures s.pc == Blocked && s.Seen().system.Some? && !s.hwInitDoneSet ==> SomeUnready(m, s.Seen().cur)
    ensures PrefixFree(m) && s.Head().system == Some(1) ==> !SomeUnready(m, s.Head().cur)
  {
    assert Reachable(m, s);
    if s.pc == Blocked {
      NoLostWakeup(m, s);
    }
    ReachableInv(m, s);
    NeverOpensEarlyIffPrefixFree(m);
  }

  /** Progress: a main loop that has come to rest, with nothing left to deliver, a System row, and
      every hardware daemon ready, has opened the barrier, unless its one attempt failed. */
  lemma RestsOnlyWhenOpen(m: Manifest, s: State)
    requires Reachable(m, s) && s.pc == Blocked && s.replica == |s.history| - 1
    requires s.Head().system.Some? && !SomeUnready(m, s.Head().cur)
    ensures s.Head().system == Some(1) <==> s.doneCommit != Some(false)
  {
    ReachableInv(m, s);
    assert DbOk(m, s.Head()) && AllReady(m, s.Head().cur);
    assert s.Head() == s.Seen();
    assert s.doneCommit.Some?;
    if s.doneCommit.value {
      assert s.doneCommit == Some(true);
    } else {
      assert s.doneCommit == Some(false);
    }
  }

  /** The attempt is made once: if the commit that opens the barrier fails, hw_init_done_set is set
      all the same, and the barrier stays closed in every continuation of the run. */
  lemma {:induction false} FailedDoneCommitNeverOpens(m: Manifest, run: seq<State>, i: nat, v: nat)
    requires IsRun(m, run) && i < |run| && run[i].doneCommit == Some(false)
    ensures var s := run[|run| - 1];
            s.hwInitDoneSet && s.doneCommit == Some(false) && (v < |s.history| ==> s.history[v].system != Some(1))
    decreases |run|
  {
    RunKeepsInv(m, run);
    if i < |run| - 1 {
      RunPrefix(m, run);
      RunKeepsInv(m, run[..|run| - 1]);
      FailedDoneCommitNeverOpens(m, run[..|run| - 1], i, 0);
      StaysFailed(m, run[|run| - 2], run[|run| - 1]);
    }
  }

  lemma StaysFailed(m: Manifest, s: State, t: State)
    requires Inv(m, s) && Next(m, s, t) && s.doneCommit == Some(false)
    ensures t.doneCommit == Some(false)
  {
  }

  // ----- what single steps of sysd do

  /** sysd_run does nothing without the lock, and nothing for a sequence number it has dealt with; it
      writes nothing by itself, and configures, opens the barrier or goes on to the packages by what its
      replica says. */
  lemma SysdRunMeans(m: Manifest, s: State, to: nat, n: nat, hasLock: bool, order: seq<nat>, t: State)
    requires s.replica < |s.history| && Takes(m, s, SysdRun(to, n, hasLock, order), t)
    ensures t.history == s.history && t.hwInitDoneSet == s.hwInitDoneSet && t.doneCommit == s.doneCommit
    ensures t.replica == to && t.seqno == n && t.recorded == if hasLock then n else s.recorded
    ensures to < |s.history|
    ensures var acts, db := hasLock && n != s.recorded, s.history[to];
            && (t.pc == LoopEnd <==> !acts)
            && (t.pc == InitialCommit <==> acts && db.system == None)
            && (t.pc == DoneCommit <==>
                  && acts && db.system != None && !s.hwInitDoneSet
                  && |db.cur| == |m| && IsOrder(order, |m|) && Passes(m, CountHw(m), Rows(m, db.cur, order)))
            && (t.pc == PackageCheck <==> acts && db.system != None && t.pc != DoneCommit)
  {
  }

  /** What a commit that succeeds leaves in the database. */
  lemma CommitMeans(m: Manifest, s: State, n: nat, rows: nat, t: State)
    requires s.replica < |s.history| && Takes(m, s, CommitSucceeds(n, rows), t)
    ensures |t.history| == |s.history| + 1 && t.history[..|s.history|] == s.history && t.replica == |s.history|
    ensures var a, b := s.history[|s.history| - 1], t.history[|s.history|];
            && b.other == a.other
            && (s.pc == InitialCommit ==>
                  && b.system == Some(0) && b.packages == a.packages
                  && |b.cur| == |m| && forall i :: 0 <= i < |m| ==> b.cur[i] == m[i].curHw)
            && (s.pc == DoneCommit && a.system != None ==>
                  b.system == Some(1) && b.cur == a.cur && b.packages == a.packages)
            && (s.pc == PackageCommit ==>
                  b.system == a.system && b.cur == a.cur && b.packages == a.packages + rows)
  {
  }

  // ----- the package table

  /** Nobody but sysd writes the package table. */
  ghost predicate PackagesSeen(s: State) {
    s.replica < |s.history| && forall v :: s.replica <= v < |s.history| ==> s.history[v].packages == s.Seen().packages
  }

  lemma StepKeepsPackagesSeen(m: Manifest, s: State, t: State)
    requires PackagesSeen(s) && Next(m, s, t)
    ensures PackagesSeen(t)
    ensures s.pc != PackageCommit ==> t.Head().packages == s.Head().packages
    ensures s.pc != PackageCommit && t.pc == PackageCommit ==> s.Head().packages == 0
  {
    assert s.Head().packages == s.Seen().packages;
  }

  lemma {:induction false} RunKeepsPackagesSeen(m: Manifest, run: seq<State>)
    requires IsRun(m, run)
    ensures PackagesSeen(run[|run| - 1])
    decreases |run|
  {
    if |run| > 1 {
      RunPrefix(m, run);
      RunKeepsPackagesSeen(m, run[..|run| - 1]);
      StepKeepsPackagesSeen(m, run[|run| - 2], run[|run| - 1]);
    }
  }

  /** The package table is filled at most once: when sysd has left it with rows in it, it never changes
      again.  It is gone about exactly if the replica shows it empty. */
  lemma {:induction false} PackagesFilledOnce(m: Manifest, run: seq<State>, i: nat)
    requires IsRun(m, run) && i < |run|
    requires run[i].pc != PackageCommit && run[i].history != [] && run[i].Head().packages > 0
    ensures var s := run[|run| - 1];
            s.pc != PackageCommit && s.history != [] && s.Head().packages == run[i].Head().packages
    decreases |run|
  {
    if i < |run| - 1 {
      RunPrefix(m, run);
      var prefix := run[..|run| - 1];
      var s, t := run[|run| - 2], run[|run| - 1];
      assert prefix[|prefix| - 1] == s && prefix[i] == run[i];
      PackagesFilledOnce(m, prefix, i);
      RunKeepsPackagesSeen(m, prefix);
      StepAfterFilled(m, s, t);
    }
  }

  lemma StepAfterFilled(m: Manifest, s: State, t: State)
    requires PackagesSeen(s) && Next(m, s, t)
    requires s.pc != PackageCommit && s.Head().packages > 0
    ensures t.pc != PackageCommit && t.history != [] && t.Head().packages == s.Head().packages
  {
    StepKeepsPackagesSeen(m, s, t);
  }

  lemma LookAtPackagesMeans(m: Manifest, s: State, t: State)
    requires s.replica < |s.history| && Takes(m, s, LookAtPackages, t)
    ensures t.history == s.history && (t.pc == PackageCommit || t.pc == LoopEnd)
    ensures t.pc == PackageCommit <==> s.history[s.replica].packages == 0
  {
  }

  // ----- the run that opens the barrier early

  lemma ReachNext(m: Manifest, s: State, t: State, step: Step)
    requires Reachable(m, s) && s.replica < |s.history| && Takes(m, s, step, t)
    ensures Reachable(m, t)
  {
    var run :| IsRun(m, run) && run[|run| - 1] == s;
    var longer := run + [t];
    assert Next(m, s, t);
    assert forall i :: 0 <= i < |run| - 1 ==> Next(m, run[i], run[i + 1]);
    assert IsRun(m, longer) && longer[|longer| - 1] == t;
  }

  lemma ReachInit(m: Manifest) returns (s: State)
    ensures Init(s) && Reachable(m, s)
  {
    s := State([EMPTY], 0, 0, 0, false, LoopTop, None);
    assert IsRun(m, [s]) && [s][|[s]| - 1] == s;
  }

  /** sysd has inserted its rows and is about to look at the package table. */
  lemma ReachConfigured(m: Manifest) returns (s: State)
    ensures Reachable(m, s)
    ensures s == State([EMPTY, Db(Some(0), InitialCur(m), 0, 0)], 1, 2, 1, false, PackageCheck, None)
  {
    var s0 := ReachInit(m);
    var s1 := s0.(seqno := 1, recorded := 1, pc := InitialCommit);
    ReachNext(m, s0, s1, SysdRun(0, 1, true, []));
    s := State([EMPTY, Db(Some(0), InitialCur(m), 0, 0)], 1, 2, 1, false, PackageCheck, None);
    assert s1.history + [Committed(m, s1.pc, s1.Head(), 0)] == s.history;
    ReachNext(m, s1, s, CommitSucceeds(2, 0));
  }

  /** The daemons before k have raised their cur_hw to the target. */
  lemma {:induction false} ReachRaised(m: Manifest, s: State, target: seq<int>, k: nat) returns (t: State)
    requires Reachable(m, s) && s.replica < |s.history|
    requires |s.Head().cur| == |target| && forall i :: 0 <= i < |target| ==> s.Head().cur[i] <= target[i]
    requires k <= |target| && forall i :: 0 <= i < k ==> s.Head().cur[i] == target[i]
    ensures Reachable(m, t)
    ensures t == s.(history := t.history) && |s.history| <= |t.history| && t.history[..|s.history|] == s.history
    ensures t.Head() == s.Head().(cur := target)
    decreases |target| - k
  {
    if k == |target| {
      assert s.Head().cur == target;
      t := s;
    } else {
      var db := s.Head().(cur := s.Head().cur[k := target[k]]);
      var u := s.(history := s.history + [db]);
      ReachNext(m, s, u, DaemonRaises(k, target[k]));
      t := ReachRaised(m, u, target, k + 1);
      assert t.history[..|s.history|] == t.history[..|u.history|][..|s.history|] == s.history;
    }
  }

  /** The daemons have raised their cur_hw to the target, and sysd, which has not seen it, is back at the
      top of its loop. */
  lemma ReachTop(m: Manifest, target: seq<int>) returns (s: State)
    requires Raised(m, target)
    ensures Reachable(m, s)
    ensures s == State(s.history, 1, 2, 1, false, LoopTop, None) && 1 < |s.history|
    ensures s.Head() == Db(Some(0), target, 0, 0)
  {
    var s2 := ReachConfigured(m);
    var s3 := ReachRaised(m, s2, target, 0);
    assert s3.Seen() == s3.history[..2][1] == s2.Seen();
    var s4 := s3.(pc := PackageCommit);
    ReachNext(m, s3, s4, LookAtPackages);
    var s5 := s4.(pc := LoopEnd);
    ReachNext(m, s4, s5, PackagesDone);
    s := s5.(pc := LoopTop);
    ReachNext(m, s5, s, EndOfIteration);
  }

  /** The check for i stops at j's row, and the barrier is opened. */
  lemma EarlyRun(m: Manifest, i: nat, j: nat) returns (s: State)
    requires Clash(m, i, j)
    ensures Reachable(m, s) && OpenedEarly(m, s)
  {
    ClashPasses(m, i, j);
    var s6 := ReachTop(m, AllBut(m, i));
    var last := |s6.history| - 1;
    var s7 := s6.(replica := last, seqno := 3, recorded := 3, pc := DoneCommit);
    ReachNext(m, s6, s7, SysdRun(last, 3, true, RowLast(|m|, i)));
    var db := s7.Head().(system := Some(1));
    s := s7.(history := s7.history + [db], replica := last + 1, seqno := 4, pc := PackageCheck,
             hwInitDoneSet := true, doneCommit := Some(true));
    assert Committed(m, s7.pc, s7.Head(), 0) == db;
    ReachNext(m, s7, s, CommitSucceeds(4, 0));
    assert s.history[last + 1] == db && Open(db);
  }

  // ----- a run in which the attempt to open the barrier fails

  function Ready(m: Manifest): (cur: seq<int>)
    ensures Raised(m, cur) && AllReady(m, cur)
  {
    seq(|m|, k requires 0 <= k < |m| => if m[k].curHw > 0 then m[k].curHw else 1)
  }

  function InOrder(n: nat): (order: seq<nat>)
    ensures |order| == n && forall i :: 0 <= i < n ==> order[i] == i
  {
    seq(n, k => k)
  }

  lemma InOrderIsOrder(n: nat)
    ensures IsOrder(InOrder(n), n)
  {
    forall i: nat | i < n
      ensures i in InOrder(n)
    {
      assert InOrder(n)[i] == i;
    }
  }

  /** Every manifest has a run that comes to rest with everything delivered and every hardware daemon
      ready, but with the barrier closed. */
  lemma FailedRun(m: Manifest) returns (s: State)
    ensures Reachable(m, s) && s.pc == Blocked && s.doneCommit == Some(false)
    ensures s.replica == |s.history| - 1 && s.Head().system.Some? && s.Head().system != Some(1)
    ensures !SomeUnready(m, s.Head().cur)
  {
    var s0 := ReachTop(m, Ready(m));
    var last := |s0.history| - 1;
    var s1 := s0.(replica := last, seqno := 3, recorded := 3, pc := DoneCommit);
    InOrderIsOrder(|m|);
    ReadyPasses(m, Ready(m), InOrder(|m|));
    ReachNext(m, s0, s1, SysdRun(last, 3, true, InOrder(|m|)));
    var s2 := s1.(pc := PackageCheck, hwInitDoneSet := true, doneCommit := Some(false));
    ReachNext(m, s1, s2, CommitFails);
    var s3 := s2.(pc := PackageCommit);
    ReachNext(m, s2, s3, LookAtPackages);
    var s4 := s3.(pc := LoopEnd);
    ReachNext(m, s3, s4, PackagesDone);
    s := s4.(pc := Blocked);
    ReachNext(m, s4, s, EndOfIteration);
  }
}
