/**
 The interleavings of `begin_op`, `log_write` and `end_op` in kernel/log.c.

 Each step is one critical section of `log.lock`, plus one step for the body of `commit`,
 which runs without the lock.  The machine also remembers, for every operation ever begun,
 which blocks it has logged and how many commits had happened when it began.  Nothing is
 assumed of the operations: they may log any blocks, any number of times.
 */
module GroupCommit {

  import opened Bytes
  import opened Params

  datatype Process =
    | Idle
    | InOp(op: nat)   // between begin_op and end_op
    | Committing      // in end_op, running commit
    | Committed       // in end_op, commit returned

  datatype Operation = Operation(epoch: nat, blocks: set<int>, ended: bool)

  datatype State = State(
    outstanding: int,
    committing: bool,
    header: seq<int>,            // lh.block[..lh.n]
    panicked: bool,
    procs: seq<Process>,
    ops: seq<Operation>,         // every operation begun so far
    commits: seq<seq<int>>       // the headers committed so far
  )

  datatype Label =
    | Begin(p: nat)
    | LogWrite(p: nat, block: int)
    | End(p: nat)
    | Commit(p: nat)
    | Finish(p: nat)

  predicate Init(s: State) {
    && s.outstanding == 0 && !s.committing && s.header == [] && !s.panicked
    && (forall p :: 0 <= p < |s.procs| ==> s.procs[p] == Idle)
    && s.ops == [] && s.commits == []
  }

  /** `begin_op` lets the caller in; otherwise it sleeps and nothing changes. */
  predicate Admits(s: State) {
    !s.committing && |s.header| + (s.outstanding + 1) * MAXOPBLOCKS <= LOGBLOCKS
  }

  predicate Enabled(s: State, l: Label) {
    && !s.panicked
    && l.p < |s.procs|
    && match l
       case Begin(p) => s.procs[p].Idle? && Admits(s)
       case LogWrite(p, _) => s.procs[p].InOp? && s.procs[p].op < |s.ops|
       case End(p) => s.procs[p].InOp? && s.procs[p].op < |s.ops|
       case Commit(p) => s.procs[p].Committing?
       case Finish(p) => s.procs[p].Committed?
  }

  /** `log_write` absorbs a block that is already in the header. */
  function Absorb(header: seq<int>, block: int): seq<int> {
    if block in header then header else header + [block]
  }

  function Next(s: State, l: Label): State
    requires Enabled(s, l)
  {
    match l
    case Begin(p) =>
      s.(outstanding := s.outstanding + 1,
         procs := s.procs[p := InOp(|s.ops|)],
         ops := s.ops + [Operation(|s.commits|, {}, false)])
    case LogWrite(p, block) =>
      if |s.header| >= LOGBLOCKS then s.(panicked := true)       // too big a transaction
      else if s.outstanding < 1 then s.(panicked := true)        // log_write outside of trans
      else
        var op := s.procs[p].op;
        s.(header := Absorb(s.header, block),
           ops := s.ops[op := s.ops[op].(blocks := s.ops[op].blocks + {block})])
    case End(p) =>
      var s1 := s.(outstanding := s.outstanding - 1,
                   ops := s.ops[s.procs[p].op := s.ops[s.procs[p].op].(ended := true)]);
      if s.committing then s1.(panicked := true)                 // log.committing
      else if s1.outstanding == 0 then s1.(committing := true, procs := s.procs[p := Committing])
      else s1.(procs := s.procs[p := Idle])
    case Commit(p) =>
      s.(header := [], commits := s.commits + [s.header], procs := s.procs[p := Committed])
    case Finish(p) =>
      s.(committing := false, procs := s.procs[p := Idle])
  }

  predicate Step(s: State, l: Label, s': State) {
    Enabled(s, l) && s' == Next(s, l)
  }

  /** A run: the states it goes through and the steps between them */
  ghost predicate Run(ss: seq<State>, ls: seq<Label>) {
    && |ss| == |ls| + 1 && Init(ss[0])
    && forall i :: 0 <= i < |ls| ==> Step(ss[i], ls[i], ss[i + 1])
  }

  // ----- Counting -----

  /** The operations that have not ended */
  function Running(ops: seq<Operation>): nat {
    if ops == [] then 0
    else Running(ops[..|ops| - 1]) + (if ops[|ops| - 1].ended then 0 else 1)
  }

  /** What an operation leaves of the MAXOPBLOCKS blocks set aside for it */
  function Rest(o: Operation): int {
    if o.ended then 0 else MAXOPBLOCKS - |o.blocks|
  }

  function Spare(ops: seq<Operation>): int {
    if ops == [] then 0 else Spare(ops[..|ops| - 1]) + Rest(ops[|ops| - 1])
  }

  lemma CountNew(ops: seq<Operation>, o: Operation)
    ensures Running(ops + [o]) == Running(ops) + (if o.ended then 0 else 1)
    ensures Spare(ops + [o]) == Spare(ops) + Rest(o)
  {
    assert (ops + [o])[..|ops|] == ops;
  }

  lemma {:induction false} CountChanged(ops: seq<Operation>, i: nat, o: Operation)
    requires i < |ops|
    ensures Running(ops[i := o]) == Running(ops) - (if ops[i].ended then 0 else 1) + (if o.ended then 0 else 1)
    ensures Spare(ops[i := o]) == Spare(ops) - Rest(ops[i]) + Rest(o)
    decreases |ops|
  {
    var n := |ops| - 1;
    if i == n {
      assert ops[i := o][..n] == ops[..n];
    } else {
      CountChanged(ops[..n], i, o);
      assert ops[i := o][..n] == ops[..n][i := o];
    }
  }

  lemma {:induction false} SomeRuns(ops: seq<Operation>, i: nat)
    requires i < |ops| && !ops[i].ended
    ensures Running(ops) >= 1
    decreases |ops|
  {
    if i < |ops| - 1 {
      SomeRuns(ops[..|ops| - 1], i);
    }
  }

  lemma NoneRuns(ops: seq<Operation>)
    requires Running(ops) == 0
    ensures forall i :: 0 <= i < |ops| ==> ops[i].ended
  {
    forall i | 0 <= i < |ops| ensures ops[i].ended {
      if !ops[i].ended {
        SomeRuns(ops, i);
      }
    }
  }

  // ----- What every reachable state satisfies -----

  predicate InEnd(q: Process) {
    q.Committing? || q.Committed?
  }

  /** A commit runs only when no operation does, and in one process. */
  ghost predicate Exclusive(s: State) {
    && s.outstanding == Running(s.ops)
    && (s.committing ==> s.outstanding == 0)
    && (forall p :: 0 <= p < |s.procs| && InEnd(s.procs[p]) ==> s.committing)
    && (forall p, q :: 0 <= p < q < |s.procs| && InEnd(s.procs[p]) ==> !InEnd(s.procs[q]))
  }

  /** The blocks that the operations of an epoch have logged */
  ghost function LoggedIn(ops: seq<Operation>, epoch: nat): set<int> {
    set i, b | 0 <= i < |ops| && ops[i].epoch == epoch && b in ops[i].blocks :: b
  }

  ghost function Blocks(header: seq<int>): set<int> {
    set i | 0 <= i < |header| :: header[i]
  }

  /** Epochs partition the operations among the commits; only the current epoch runs. */
  ghost predicate Epochs(s: State) {
    && (forall i :: 0 <= i < |s.ops| ==> s.ops[i].epoch <= |s.commits|)
    && (forall i :: 0 <= i < |s.ops| && s.ops[i].epoch < |s.commits| ==> s.ops[i].ended)
    && (forall p :: 0 <= p < |s.procs| && s.procs[p].InOp? ==>
          s.procs[p].op < |s.ops| && s.ops[s.procs[p].op].epoch == |s.commits| && !s.ops[s.procs[p].op].ended)
    && (forall i :: 0 <= i < |s.ops| && !s.ops[i].ended ==>
          exists p :: 0 <= p < |s.procs| && s.procs[p].InOp? && s.procs[p].op == i)
    && (forall p, q :: 0 <= p < q < |s.procs| && s.procs[p].InOp? && s.procs[q].InOp? ==>
          s.procs[p].op != s.procs[q].op)
  }

  /** Every header, committed or not, holds exactly what the operations of its epoch logged. */
  ghost predicate Whole(s: State) {
    && Blocks(s.header) == LoggedIn(s.ops, |s.commits|)
    && (forall e :: 0 <= e < |s.commits| ==> Blocks(s.commits[e]) == LoggedIn(s.ops, e))
  }

  /** The processes between begin_op and end_op */
  ghost function Inside(procs: seq<Process>): set<int> {
    set p | 0 <= p < |procs| && procs[p].InOp?
  }

  /** Nothing is logged, and every operation belongs to an epoch already committed. */
  ghost predicate Flushed(s: State) {
    s.header == [] && forall i :: 0 <= i < |s.ops| ==> s.ops[i].epoch < |s.commits|
  }

  /** The counter counts, the flag is set for someone, and what is logged is on its way to a commit. */
  ghost predicate Settled(s: State) {
    && s.outstanding == |Inside(s.procs)|
    && (s.committing ==> exists p :: 0 <= p < |s.procs| && InEnd(s.procs[p]))
    && (!s.committing && s.outstanding == 0 ==> Flushed(s))
    && (forall p :: 0 <= p < |s.procs| && s.procs[p].Committed? ==> Flushed(s))
  }

  ghost predicate Core(s: State) {
    Distinct(s.header) && Exclusive(s) && Epochs(s) && Whole(s)
  }

  ghost predicate Inv(s: State) {
    Core(s) && Settled(s)
  }

  lemma InitInv(s: State)
    requires Init(s)
    ensures Inv(s)
  {
  }

  /** A process in an operation keeps commits away. */
  lemma InOpRuns(s: State, p: nat)
    requires Exclusive(s) && Epochs(s) && p < |s.procs| && s.procs[p].InOp?
    ensures s.outstanding >= 1 && !s.committing
  {
    SomeRuns(s.ops, s.procs[p].op);
  }

  /** Of the three panics only one can happen: `log_write` finds the header full. */
  lemma PanicsExactly(s: State, l: Label)
    requires Inv(s) && Enabled(s, l)
    ensures Next(s, l).panicked <==> l.LogWrite? && |s.header| >= LOGBLOCKS
  {
    if l.LogWrite? || l.End? {
      InOpRuns(s, l.p);
    }
  }

  lemma LoggedByNew(ops: seq<Operation>, epoch: nat, e: nat)
    ensures LoggedIn(ops + [Operation(epoch, {}, false)], e) == LoggedIn(ops, e)
  {
    var ops' := ops + [Operation(epoch, {}, false)];
    assert forall i :: 0 <= i < |ops| ==> ops'[i] == ops[i];
    assert forall i :: 0 <= i < |ops'| && ops'[i].blocks != {} ==> i < |ops|;
  }

  lemma BeginKeepsEpochs(s: State, p: nat)
    requires Epochs(s) && Enabled(s, Begin(p))
    ensures Epochs(Next(s, Begin(p)))
  {
    var s' := Next(s, Begin(p));
    assert s'.procs[p].op == |s.ops|;
    forall i | 0 <= i < |s'.ops| && !s'.ops[i].ended
      ensures exists q :: 0 <= q < |s'.procs| && s'.procs[q].InOp? && s'.procs[q].op == i
    {
      if i < |s.ops| {
        assert s.ops[i] == s'.ops[i];
        var q :| 0 <= q < |s.procs| && s.procs[q].InOp? && s.procs[q].op == i;
        assert s'.procs[q] == s.procs[q];
      }
    }
  }

  lemma BeginKeeps(s: State, p: nat)
    requires Inv(s) && Enabled(s, Begin(p))
    ensures Core(Next(s, Begin(p)))
  {
    hide Epochs, LoggedIn, Blocks, Running;
    var s' := Next(s, Begin(p));
    CountNew(s.ops, Operation(|s.commits|, {}, false));
    BeginKeepsEpochs(s, p);
    forall e: nat ensures LoggedIn(s'.ops, e) == LoggedIn(s.ops, e) {
      LoggedByNew(s.ops, |s.commits|, e);
    }
  }

  lemma AbsorbBlocks(header: seq<int>, block: int)
    requires Distinct(header)
    ensures Distinct(Absorb(header, block))
    ensures Blocks(Absorb(header, block)) == Blocks(header) + {block}
    ensures |header| <= |Absorb(header, block)| <= |header| + 1
  {
    var h := Absorb(header, block);
    if block in header {
      assert block in Blocks(header);
    } else {
      assert h[|header|] == block;
      assert forall i :: 0 <= i < |header| ==> h[i] == header[i];
    }
  }

  lemma LogWriteKeepsWhole(s: State, p: nat, block: int)
    requires Inv(s) && Enabled(s, LogWrite(p, block)) && !Next(s, LogWrite(p, block)).panicked
    ensures Whole(Next(s, LogWrite(p, block)))
  {
    var s' := Next(s, LogWrite(p, block));
    var op := s.procs[p].op;
    AbsorbBlocks(s.header, block);
    assert forall i :: 0 <= i < |s.ops| ==> s'.ops[i].epoch == s.ops[i].epoch;
    assert forall i :: 0 <= i < |s.ops| && i != op ==> s'.ops[i] == s.ops[i];
    forall e: nat | e != |s.commits| ensures LoggedIn(s'.ops, e) == LoggedIn(s.ops, e) {
    }
    assert s.ops[op].epoch == |s.commits|;
    assert LoggedIn(s'.ops, |s.commits|) == LoggedIn(s.ops, |s.commits|) + {block} by {
      assert block in s'.ops[op].blocks;
    }
  }

  lemma LogWriteKeepsEpochs(s: State, p: nat, block: int)
    requires Epochs(s) && Enabled(s, LogWrite(p, block)) && !Next(s, LogWrite(p, block)).panicked
    ensures Epochs(Next(s, LogWrite(p, block)))
  {
    var s' := Next(s, LogWrite(p, block));
    forall i | 0 <= i < |s'.ops| && !s'.ops[i].ended
      ensures exists q :: 0 <= q < |s'.procs| && s'.procs[q].InOp? && s'.procs[q].op == i
    {
      var q :| 0 <= q < |s.procs| && s.procs[q].InOp? && s.procs[q].op == i;
      assert s'.procs[q].op == i;
    }
  }

  lemma LogWriteKeeps(s: State, p: nat, block: int)
    requires Inv(s) && Enabled(s, LogWrite(p, block))
    ensures Core(Next(s, LogWrite(p, block)))
  {
    hide Epochs, Whole, Running, Distinct;
    var s' := Next(s, LogWrite(p, block));
    if !s'.panicked {
      CountChanged(s.ops, s.procs[p].op, s'.ops[s.procs[p].op]);
      AbsorbBlocks(s.header, block);
      LogWriteKeepsWhole(s, p, block);
      LogWriteKeepsEpochs(s, p, block);
    } else {
      SameButPanic(s);
    }
  }

  lemma SameButPanic(s: State)
    requires Epochs(s) && Whole(s)
    ensures Epochs(s.(panicked := true)) && Whole(s.(panicked := true))
  {
  }

  lemma EndKeepsEpochs(s: State, p: nat)
    requires Epochs(s) && Enabled(s, End(p)) && !Next(s, End(p)).panicked
    ensures Epochs(Next(s, End(p)))
  {
    var s' := Next(s, End(p));
    forall i | 0 <= i < |s'.ops| && !s'.ops[i].ended
      ensures exists q :: 0 <= q < |s'.procs| && s'.procs[q].InOp? && s'.procs[q].op == i
    {
      var q :| 0 <= q < |s.procs| && s.procs[q].InOp? && s.procs[q].op == i;
      assert s'.procs[q] == s.procs[q];
    }
  }

  lemma EndKeepsWhole(s: State, p: nat)
    requires Whole(s) && Enabled(s, End(p)) && !Next(s, End(p)).panicked
    ensures Whole(Next(s, End(p)))
  {
    var s' := Next(s, End(p));
    assert forall i :: 0 <= i < |s.ops| ==> s'.ops[i].epoch == s.ops[i].epoch && s'.ops[i].blocks == s.ops[i].blocks;
    assert forall e :: LoggedIn(s'.ops, e) == LoggedIn(s.ops, e);
  }

  lemma EndKeeps(s: State, p: nat)
    requires Inv(s) && Enabled(s, End(p))
    ensures Core(Next(s, End(p)))
  {
    hide Whole, Running, Distinct;
    var s' := Next(s, End(p));
    PanicsExactly(s, End(p));
    CountChanged(s.ops, s.procs[p].op, s'.ops[s.procs[p].op]);
    EndKeepsEpochs(s, p);
    EndKeepsWhole(s, p);
  }

  lemma CommitKeeps(s: State, p: nat)
    requires Inv(s) && Enabled(s, Commit(p))
    ensures Core(Next(s, Commit(p)))
  {
    var s' := Next(s, Commit(p));
    NoneRuns(s.ops);
    assert LoggedIn(s'.ops, |s'.commits|) == {};
  }

  lemma FinishKeeps(s: State, p: nat)
    requires Inv(s) && Enabled(s, Finish(p))
    ensures Core(Next(s, Finish(p)))
  {
    NoneRuns(s.ops);
  }

  lemma EntrySettles(s: State, p: nat)
    requires Inv(s) && Enabled(s, Begin(p))
    ensures Settled(Next(s, Begin(p)))
  {
    hide Running, Whole, Distinct, Epochs, Flushed;
    assert Inside(Next(s, Begin(p)).procs) == Inside(s.procs) + {p};
  }

  lemma LogWriteSettles(s: State, l: Label)
    requires Inv(s) && Enabled(s, l) && l.LogWrite?
    ensures Settled(Next(s, l))
  {
    hide Running, Whole, Distinct, Epochs, Flushed, Inside;
    InOpRuns(s, l.p);
  }

  lemma EndSettles(s: State, p: nat)
    requires Inv(s) && Enabled(s, End(p))
    ensures Settled(Next(s, End(p)))
  {
    hide Running, Whole, Distinct, Epochs, Flushed;
    var s' := Next(s, End(p));
    InOpRuns(s, p);
    assert Inside(s'.procs) == Inside(s.procs) - {p};
    assert s'.committing ==> InEnd(s'.procs[p]);
  }

  lemma CommitSettles(s: State, p: nat)
    requires Inv(s) && (Enabled(s, Commit(p)) || Enabled(s, Finish(p)))
    ensures Enabled(s, Commit(p)) ==> Settled(Next(s, Commit(p)))
    ensures Enabled(s, Finish(p)) ==> Settled(Next(s, Finish(p)))
  {
    hide Running, Whole, Distinct;
    assert Enabled(s, Commit(p)) ==> Inside(s.procs[p := Committed]) == Inside(s.procs);
    assert Inside(s.procs[p := Idle]) == Inside(s.procs);
    assert InEnd(s.procs[p := Committed][p]);
  }

  lemma StepKeeps(s: State, l: Label, s': State)
    requires Inv(s) && Step(s, l, s')
    ensures Inv(s')
  {
    hide Settled, Exclusive, Epochs, Whole, Next;
    match l
    case Begin(p) => BeginKeeps(s, p); EntrySettles(s, p);
    case LogWrite(p, block) => LogWriteKeeps(s, p, block); LogWriteSettles(s, l);
    case End(p) => EndKeeps(s, p); EndSettles(s, p);
    case Commit(p) => CommitKeeps(s, p); CommitSettles(s, p);
    case Finish(p) => FinishKeeps(s, p); CommitSettles(s, p);
  }

  /**
   Over every interleaving, whatever the operations log: a running commit excludes running
   operations, and each committed header holds exactly the blocks of the operations of its
   epoch, all of which had ended.
   */
  lemma {:induction false} EveryRun(ss: seq<State>, ls: seq<Label>, i: nat)
    requires Run(ss, ls) && i < |ss|
    ensures Inv(ss[i])
  {
    if i == 0 {
      InitInv(ss[0]);
    } else {
      EveryRun(ss, ls, i - 1);
      StepKeeps(ss[i - 1], ls[i - 1], ss[i]);
    }
  }

  /** While a commit runs, only the commit itself changes the header, and nobody enters or logs. */
  lemma HeaderStable(s: State, l: Label, s': State)
    requires Inv(s) && s.committing && Step(s, l, s')
    ensures l.Commit? || l.Finish?
    ensures s'.header != s.header ==> l.Commit? && s'.header == [] && s'.commits == s.commits + [s.header]
  {
    NoneRuns(s.ops);
  }

  // ----- What a run does, read off its steps -----

  /** Once every process is out of the log, nothing is left in it, and any of them may come in. */
  lemma Quiet(ss: seq<State>, ls: seq<Label>, i: nat)
    requires Run(ss, ls) && i < |ss| && !ss[i].panicked
    requires forall p :: 0 <= p < |ss[i].procs| ==> ss[i].procs[p] == Idle
    ensures ss[i].header == [] && ss[i].outstanding == 0 && !ss[i].committing
    ensures forall p :: 0 <= p < |ss[i].procs| ==> Enabled(ss[i], Begin(p))
    ensures forall k :: 0 <= k < |ss[i].ops| ==> ss[i].ops[k].ended && ss[i].ops[k].epoch < |ss[i].commits|
  {
    var s := ss[i];
    EveryRun(ss, ls, i);
    assert Inside(s.procs) == {};
    NoneRuns(s.ops);
  }

  /** Some process can always move. */
  lemma NeverStuck(ss: seq<State>, ls: seq<Label>, i: nat)
    requires Run(ss, ls) && i < |ss| && !ss[i].panicked && |ss[i].procs| > 0
    ensures exists l :: Enabled(ss[i], l)
  {
    var s := ss[i];
    EveryRun(ss, ls, i);
    if p: nat :| p < |s.procs| && s.procs[p] != Idle {
      var l := if s.procs[p].InOp? then End(p) else if s.procs[p].Committing? then Commit(p) else Finish(p);
      assert Enabled(s, l);
    } else {
      Quiet(ss, ls, i);
      assert Enabled(s, Begin(0));
    }
  }

  /** `begin_op` lets a caller in exactly when no commit runs and MAXOPBLOCKS blocks for each process
      inside, and for the caller, still fit beside what is logged. */
  lemma WhenAdmitted(ss: seq<State>, ls: seq<Label>, i: nat, p: nat)
    requires Run(ss, ls) && i < |ss| && !ss[i].panicked && p < |ss[i].procs| && ss[i].procs[p] == Idle
    ensures Enabled(ss[i], Begin(p)) <==>
              && (forall q :: 0 <= q < |ss[i].procs| ==> !InEnd(ss[i].procs[q]))
              && |ss[i].header| + 10 * |Inside(ss[i].procs)| <= 20
  {
    EveryRun(ss, ls, i);
  }

  /** Block b was logged in epoch e, among the first i steps. */
  ghost predicate LoggedAt(ss: seq<State>, ls: seq<Label>, i: nat, e: nat, b: int)
    requires i <= |ls| < |ss|
  {
    exists j :: 0 <= j < i && ls[j].LogWrite? && ls[j].block == b && |ss[j].commits| == e && !ss[j + 1].panicked
  }

  lemma LoggedOneMore(ss: seq<State>, ls: seq<Label>, i: nat, e: nat, b: int)
    requires i <= |ls| < |ss|
    ensures !LoggedAt(ss, ls, 0, e, b)
    ensures i > 0 ==>
              (LoggedAt(ss, ls, i, e, b) <==>
              || LoggedAt(ss, ls, i - 1, e, b)
              || (ls[i - 1].LogWrite? && ls[i - 1].block == b && |ss[i - 1].commits| == e && !ss[i].panicked))
  {
  }

  lemma HeaderOneMore(s: State, l: Label, b: int)
    requires Inv(s) && Enabled(s, l)
    ensures l.Commit? ==> Next(s, l).commits == s.commits + [s.header] && Next(s, l).header == []
    ensures !l.Commit? ==> Next(s, l).commits == s.commits
    ensures !l.Commit? ==> (b in Next(s, l).header <==>
                              b in s.header || (l.LogWrite? && l.block == b && !Next(s, l).panicked))
  {
    PanicsExactly(s, l);
  }

  /** A commit writes exactly the blocks that `log_write` was called with since the commit before it,
      and the header holds exactly those since the last. */
  lemma {:induction false} LoggedExactly(ss: seq<State>, ls: seq<Label>, i: nat, e: nat, b: int)
    requires Run(ss, ls) && i < |ss|
    ensures e < |ss[i].commits| ==> (b in ss[i].commits[e] <==> LoggedAt(ss, ls, i, e, b))
    ensures e == |ss[i].commits| ==> (b in ss[i].header <==> LoggedAt(ss, ls, i, e, b))
    ensures e > |ss[i].commits| ==> !LoggedAt(ss, ls, i, e, b)
  {
    hide LoggedAt, Inv, Next;
    LoggedOneMore(ss, ls, i, e, b);
    if i > 0 {
      LoggedExactly(ss, ls, i - 1, e, b);
      EveryRun(ss, ls, i - 1);
      assert Step(ss[i - 1], ls[i - 1], ss[i]);
      HeaderOneMore(ss[i - 1], ls[i - 1], b);
    }
  }

  /** An operation is never split: from its `begin_op` to its `end_op` no commit runs. */
  lemma {:induction false} Undivided(ss: seq<State>, ls: seq<Label>, p: nat, j: nat, i: nat)
    requires Run(ss, ls) && j < i <= |ls| && ls[j] == Begin(p) && forall k :: j < k < i ==> ls[k] != End(p)
    ensures p < |ss[i].procs| && ss[i].procs[p].InOp? && ss[i].commits == ss[j].commits
    ensures i < |ls| ==> !ls[i].Commit?
    decreases i
  {
    hide Inv;
    assert Step(ss[i - 1], ls[i - 1], ss[i]);
    EveryRun(ss, ls, i - 1);
    EveryRun(ss, ls, i);
    if j + 1 < i {
      Undivided(ss, ls, p, j, i - 1);
      StaysInside(ss[i - 1], ls[i - 1], p);
    }
    if i < |ls| {
      assert Step(ss[i], ls[i], ss[i + 1]);
      NoCommitYet(ss[i], ls[i], p);
    }
  }

  lemma StaysInside(s: State, l: Label, p: nat)
    requires Inv(s) && Enabled(s, l) && p < |s.procs| && s.procs[p].InOp? && l != End(p)
    ensures p < |Next(s, l).procs| && Next(s, l).procs[p].InOp? && Next(s, l).commits == s.commits
  {
    InOpRuns(s, p);
  }

  lemma NoCommitYet(s: State, l: Label, p: nat)
    requires Inv(s) && Enabled(s, l) && p < |s.procs| && s.procs[p].InOp?
    ensures !l.Commit?
  {
    InOpRuns(s, p);
  }

  // ----- When `log_write` never finds the header full -----

  /** No operation calls `log_write` once it has logged n different blocks. */
  predicate Frugal(s: State, l: Label, n: nat) {
    l.LogWrite? && Enabled(s, l) ==> |s.ops[s.procs[l.p].op].blocks| < n
  }

  ghost predicate AllFrugal(ss: seq<State>, ls: seq<Label>, n: nat) {
    |ss| == |ls| + 1 && forall i :: 0 <= i < |ls| ==> Frugal(ss[i], ls[i], n)
  }

  /** The header and what is set aside for running operations fit the log. */
  ghost predicate Room(s: State) {
    && (forall i :: 0 <= i < |s.ops| ==> |s.ops[i].blocks| <= MAXOPBLOCKS)
    && |s.header| + Spare(s.ops) <= LOGBLOCKS
  }

  lemma {:induction false} SpareBound(ops: seq<Operation>)
    requires forall i :: 0 <= i < |ops| ==> |ops[i].blocks| <= MAXOPBLOCKS
    ensures 0 <= Spare(ops) <= Running(ops) * MAXOPBLOCKS
    decreases |ops|
  {
    if ops != [] {
      SpareBound(ops[..|ops| - 1]);
    }
  }

  lemma {:induction false} RestSpare(ops: seq<Operation>, i: nat)
    requires i < |ops| && forall k :: 0 <= k < |ops| ==> |ops[k].blocks| <= MAXOPBLOCKS
    ensures Spare(ops) >= Rest(ops[i])
    decreases |ops|
  {
    var before := ops[..|ops| - 1];
    SpareBound(before);
    if i < |before| {
      RestSpare(before, i);
    }
  }

  /** What an operation has logged is in the header until the commit. */
  lemma LoggedStays(s: State, p: nat, block: int)
    requires Epochs(s) && Whole(s) && p < |s.procs| && s.procs[p].InOp? && block in s.ops[s.procs[p].op].blocks
    ensures block in s.header
  {
    assert block in LoggedIn(s.ops, |s.commits|);
    assert block in Blocks(s.header);
  }

  lemma LogWriteKeepsRoom(s: State, p: nat, block: int)
    requires Inv(s) && Room(s) && Enabled(s, LogWrite(p, block)) && Frugal(s, LogWrite(p, block), MAXOPBLOCKS)
    ensures !Next(s, LogWrite(p, block)).panicked && Room(Next(s, LogWrite(p, block)))
  {
    hide Whole, Running, Spare, Distinct, Blocks;
    var op := s.procs[p].op;
    RestSpare(s.ops, op);
    PanicsExactly(s, LogWrite(p, block));
    var s' := Next(s, LogWrite(p, block));
    CountChanged(s.ops, op, s'.ops[op]);
    AbsorbBlocks(s.header, block);
    if block in s.ops[op].blocks {
      LoggedStays(s, p, block);
      assert s'.ops[op].blocks == s.ops[op].blocks;
    } else {
      assert |s'.ops[op].blocks| == |s.ops[op].blocks| + 1;
    }
  }

  lemma StepKeepsRoom(s: State, l: Label, s': State)
    requires Inv(s) && Room(s) && Step(s, l, s') && Frugal(s, l, MAXOPBLOCKS)
    ensures !s'.panicked && Room(s')
  {
    hide Whole, Running, Spare, Distinct, Epochs;
    PanicsExactly(s, l);
    match l
    case Begin(p) =>
      SpareBound(s.ops);
      CountNew(s.ops, Operation(|s.commits|, {}, false));
    case LogWrite(p, block) => LogWriteKeepsRoom(s, p, block);
    case End(p) => CountChanged(s.ops, s.procs[p].op, s'.ops[s.procs[p].op]);
    case Commit(p) =>
    case Finish(p) =>
  }

  /** If no operation logs on after MAXOPBLOCKS different blocks, nothing panics. */
  lemma {:induction false} FrugalRun(ss: seq<State>, ls: seq<Label>, i: nat)
    requires Run(ss, ls) && AllFrugal(ss, ls, MAXOPBLOCKS) && i < |ss|
    ensures !ss[i].panicked && Room(ss[i])
  {
    if i > 0 {
      FrugalRun(ss, ls, i - 1);
      EveryRun(ss, ls, i - 1);
      StepKeepsRoom(ss[i - 1], ls[i - 1], ss[i]);
    }
  }

  /** So it is enough that every operation logs fewer than MAXOPBLOCKS different blocks. */
  lemma FewBlocks(ss: seq<State>, ls: seq<Label>)
    requires Run(ss, ls)
    requires forall i, k :: 0 <= i < |ss| && 0 <= k < |ss[i].ops| ==> |ss[i].ops[k].blocks| < MAXOPBLOCKS
    ensures forall i :: 0 <= i < |ss| ==> !ss[i].panicked
  {
    forall i | 0 <= i < |ss| ensures !ss[i].panicked {
      FrugalRun(ss, ls, i);
    }
  }

  // ----- A run that panics -----

  function Numbers(lo: nat, hi: nat): (r: set<int>)
    ensures |r| == (if lo < hi then hi - lo else 0) && forall b :: b in r <==> lo <= b < hi
  {
    if lo < hi then Numbers(lo, hi - 1) + {hi - 1} else {}
  }

  /** Operation op has logged those of its MAXOPBLOCKS blocks that are below j. */
  function Share(j: nat, op: nat): Operation {
    Operation(0, Numbers(op * MAXOPBLOCKS, Min(j, (op + 1) * MAXOPBLOCKS)), false)
  }

  /** Three operations run, and have logged blocks 0 to j - 1 among them. */
  function Filled(j: nat): State {
    State(3, false, seq(j, i => i), false, [InOp(0), InOp(1), InOp(2)], [Share(j, 0), Share(j, 1), Share(j, 2)], [])
  }

  function Begun(n: nat): State {
    State(n, false, [], false, seq(3, (p: nat) => if p < n then InOp(p) else Idle),
          seq(n, i => Operation(0, {}, false)), [])
  }

  lemma Begins(n: nat)
    requires n < 3
    ensures Step(Begun(n), Begin(n), Begun(n + 1))
  {
    var s := Next(Begun(n), Begin(n));
    assert s.procs == Begun(n + 1).procs && s.ops == Begun(n + 1).ops;
  }

  lemma AllBegun()
    ensures Init(Begun(0)) && Begun(3) == Filled(0)
  {
    assert Share(0, 0) == Share(0, 1) == Share(0, 2) == Operation(0, {}, false);
    assert Begun(3).ops == Filled(0).ops && Begun(3).procs == Filled(0).procs && Begun(3).header == Filled(0).header;
  }

  lemma ShareNext(j: nat, op: nat)
    ensures Share(j + 1, op) == if op == j / MAXOPBLOCKS then Share(j, op).(blocks := Share(j, op).blocks + {j})
                                else Share(j, op)
  {
    hide Numbers;
    assert Share(j + 1, op).blocks == if op == j / MAXOPBLOCKS then Share(j, op).blocks + {j} else Share(j, op).blocks;
  }

  lemma Fills(j: nat)
    requires j < LOGBLOCKS
    ensures Step(Filled(j), LogWrite(j / MAXOPBLOCKS, j), Filled(j + 1))
  {
    hide Share;
    var op := j / MAXOPBLOCKS;
    var s := Next(Filled(j), LogWrite(op, j));
    assert s.header == Filled(j + 1).header;
    ShareNext(j, 0);
    ShareNext(j, 1);
    ShareNext(j, 2);
    assert s.ops == Filled(j + 1).ops;
  }

  /** The states of the run, and its steps: three operations begin, each logs MAXOPBLOCKS blocks, and
      the last one logs its last block again. */
  function StateAt(i: nat): State {
    if i < 3 then Begun(i)
    else if i <= 3 + LOGBLOCKS then Filled(i - 3)
    else Filled(LOGBLOCKS).(panicked := true)
  }

  function LabelAt(i: nat): Label {
    if i < 3 then Begin(i)
    else if i < 3 + LOGBLOCKS then LogWrite((i - 3) / MAXOPBLOCKS, i - 3)
    else LogWrite(2, LOGBLOCKS - 1)
  }

  lemma StepAt(i: nat)
    requires i < 4 + LOGBLOCKS
    ensures Step(StateAt(i), LabelAt(i), StateAt(i + 1))
  {
    hide Next, Init, Begun, Filled, Step;
    AllBegun();
    if i < 3 {
      Begins(i);
    } else if i < 3 + LOGBLOCKS {
      Fills(i - 3);
    } else {
      FullPanics();
    }
  }

  lemma FullPanics()
    ensures Step(Filled(LOGBLOCKS), LogWrite(2, LOGBLOCKS - 1), Filled(LOGBLOCKS).(panicked := true))
  {
    hide Share;
  }

  lemma FewAt(i: nat, k: nat)
    requires k < |StateAt(i).ops|
    ensures |StateAt(i).ops[k].blocks| <= MAXOPBLOCKS
  {
    hide Numbers;
  }

  /** In this run the operations stay within MAXOPBLOCKS different blocks, and the kernel panics. */
  lemma PanicRun() returns (ss: seq<State>, ls: seq<Label>)
    ensures Run(ss, ls) && ss[|ls|].panicked
    ensures forall i, k :: 0 <= i < |ss| && 0 <= k < |ss[i].ops| ==> |ss[i].ops[k].blocks| <= MAXOPBLOCKS
  {
    hide Step, StateAt, LabelAt;
    ss, ls := seq(5 + LOGBLOCKS, (i: nat) => StateAt(i)), seq(4 + LOGBLOCKS, (i: nat) => LabelAt(i));
    Ends();
    forall i | 0 <= i < |ls| ensures Step(ss[i], ls[i], ss[i + 1]) {
      StepAt(i);
    }
    forall i, k | 0 <= i < |ss| && 0 <= k < |ss[i].ops| ensures |ss[i].ops[k].blocks| <= MAXOPBLOCKS {
      FewAt(i, k);
    }
  }

  lemma Ends()
    ensures Init(StateAt(0)) && StateAt(4 + LOGBLOCKS).panicked
  {
    AllBegun();
  }

  ghost predicate NeverPanics(n: nat) {
    forall ss: seq<State>, ls: seq<Label> :: Run(ss, ls) && AllFrugal(ss, ls, n) ==> !ss[|ls|].panicked
  }

  /** The limit on the different blocks after which an operation may log no more is exactly MAXOPBLOCKS. */
  lemma LimitExactly(n: nat)
    ensures NeverPanics(n) <==> n <= MAXOPBLOCKS
  {
    hide Step;
    if n <= MAXOPBLOCKS {
      forall ss: seq<State>, ls: seq<Label> | Run(ss, ls) && AllFrugal(ss, ls, n) ensures !ss[|ls|].panicked {
        FrugalRun(ss, ls, |ls|);
      }
    } else {
      var ss, ls := PanicRun();
      assert AllFrugal(ss, ls, n);
    }
  }
}
