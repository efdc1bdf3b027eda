/**
 Parents, children and sleepers over every run of the exit/wait protocol: who has a parent, how a
 parent changes, who waits for whom and what wakes a sleeper.
 */
module Family {
  import opened Params
  import opened WaitExit

  /** In kwait and past a child, or going to sleep there, or asleep */
  predicate Waits(pc: Pc) {
    || pc.WaitLocked? || pc.WaitReleased? || pc.WaitSwitch? || pc.WaitAsleep? || pc.WaitWoken?
    || ((pc.WaitScan? || pc.WaitCheck?) && pc.kids)
  }

  predicate Started(q: Proc) {
    q.state != Unused && q.state != Used
  }

  /** A process that waits has somebody to wait for. */
  ghost predicate Company(s: State)
    requires |s.procs| == NPROC
  {
    forall p :: IsProc(p) && Waits(s.procs[p].pc) ==> exists c :: IsChild(s, c, p)
  }

  /** Every process but init has a parent, which is another process; init has none. */
  ghost predicate Rooted(s: State)
    requires |s.procs| == NPROC
  {
    forall c :: IsProc(c) ==>
                  && s.procs[c].parent != c
                  && if c == s.init then s.procs[c].parent == NOBODY
                     else Started(s.procs[c]) ==> IsProc(s.procs[c].parent)
  }

  ghost predicate ForkedBy(s: State)
    requires |s.procs| == NPROC
  {
    forall p :: IsProc(p) ==> BornTo(s, p, s.procs[p].pc)
  }

  predicate BornTo(s: State, p: int, pc: Pc)
    requires |s.procs| == NPROC
  {
    (pc.ForkRelease? || pc.ForkReady?) && IsProc(pc.np) ==> s.procs[pc.np].parent == p
  }

  /** A slot being set up is in the hands of some fork. */
  ghost predicate Claimed(s: State)
    requires |s.procs| == NPROC
  {
    forall c :: IsProc(c) && s.procs[c].state == Used ==> exists p :: ClaimedBy(s, c, p)
  }

  predicate ClaimedBy(s: State, c: int, p: int)
    requires |s.procs| == NPROC
  {
    IsProc(p) && ForkTarget(s.procs[p].pc) == c
  }

  ghost predicate Napping(s: State)
    requires |s.procs| == NPROC
  {
    forall p :: IsProc(p) && s.procs[p].pc.Nap? ==> !IsProc(s.procs[p].chan)
  }

  ghost predicate Kin(s: State)
    requires |s.procs| == NPROC
  {
    Company(s) && Rooted(s) && ForkedBy(s) && Claimed(s) && Napping(s)
  }

  // ----- How a step changes one entry -----

  /** The ways an entry's parent can change: set by fork, handed to init by the parent's exit, or
      cleared when the parent reaps the zombie. */
  predicate ParentMove(s: State, l: Label, c: int, q': Proc)
    requires |s.procs| == NPROC && IsProc(c) && IsProc(l.p)
  {
    var q, pc := s.procs[c], s.procs[l.p].pc;
    || q'.parent == q.parent
    || (q.parent == NOBODY && q.state == Used && l.Step? && pc == ForkAcquire(c) && q'.parent == l.p)
    || (q.parent == l.p && l.Step? && pc == ExitScan(c) && q'.parent == s.init)
    || (q.parent == l.p && l.Step? && pc.WaitCheck? && pc.i == c && q.state == Zombie && q' == FreeSlot())
  }

  /** What a step leaves alone in the entry of another process: only a fork's new slot and a reaped
      one change their place in the code. */
  predicate OtherMove(s: State, l: Label, c: int, q': Proc)
    requires |s.procs| == NPROC && IsProc(c) && IsProc(l.p)
  {
    var q := s.procs[c];
    || (q'.pc == q.pc && q'.chan == q.chan && Started(q') == Started(q))
    || (q.pc.Idle? && (q'.pc.Idle? || q'.pc.User?) && (Started(q') ==> l.Step? && s.procs[l.p].pc == ForkReady(c)))
    || (q.pc.Dead? && q' == FreeSlot())
  }

  /** What ends a sleep */
  predicate WakeMove(s: State, l: Label, c: int, q': Proc)
    requires |s.procs| == NPROC && IsProc(c) && IsProc(l.p)
  {
    var q, r := s.procs[c], s.procs[l.p];
    q.state == Sleeping && q'.state != Sleeping ==>
      || l == Kill(c) || l == Rouse(c)
      || (l.Step? && r.pc == ExitWakeParent(c) && q.chan == r.parent)
      || (l.Step? && r.pc.ExitWakeInit? && r.pc.k == c && q.chan == s.init)
  }

  predicate Effect(s: State, l: Label, c: int, s': State)
    requires |s.procs| == NPROC && IsProc(c) && IsProc(l.p)
  {
    && |s'.procs| == NPROC && s'.init == s.init
    && ParentMove(s, l, c, s'.procs[c]) && (c != l.p ==> OtherMove(s, l, c, s'.procs[c]))
    && WakeMove(s, l, c, s'.procs[c])
  }

  lemma WaitEffect(s: State, p: int, choice: bool, c: int)
    requires Inv(s) && |s.procs| == NPROC && IsProc(p) && StepEnabled(s, p) && IsProc(c)
    requires !Exiting(s.procs[p].pc) && ForkTarget(s.procs[p].pc) == NOBODY
    requires !s.procs[p].pc.ForkAcquire? && !s.procs[p].pc.ForkRelease? && !s.procs[p].pc.ForkReady?
    ensures Effect(s, Step(p, choice), c, Advance(s, p, choice))
  {
    hide Inv, PlaceOk;
    Entry(s, p);
    if s.procs[p].pc.WaitCheck? && c == s.procs[p].pc.i && s.procs[c].state == Zombie {
      ReapKeeps(s, p, c);
      Dying(s, c);
    }
  }

  lemma ExitEffect(s: State, p: int, choice: bool, c: int)
    requires Inv(s) && |s.procs| == NPROC && IsProc(p) && StepEnabled(s, p) && IsProc(c) && Exiting(s.procs[p].pc)
    ensures Effect(s, Step(p, choice), c, Advance(s, p, choice))
  {
    hide Inv, PlaceOk;
    Entry(s, p);
  }

  lemma ForkEffect(s: State, p: int, choice: bool, c: int)
    requires Inv(s) && |s.procs| == NPROC && IsProc(p) && StepEnabled(s, p) && IsProc(c)
    requires s.procs[p].pc.ForkAcquire? || s.procs[p].pc.ForkRelease? || s.procs[p].pc.ForkReady?
    ensures Effect(s, Step(p, choice), c, Advance(s, p, choice))
  {
    hide Inv, PlaceOk;
    Entry(s, c);
    if s.procs[p].pc.np != NOBODY {
      OnlyTarget(s, p);
    }
  }

  lemma OtherEffect(s: State, l: Label, c: int)
    requires Inv(s) && |s.procs| == NPROC && Enabled(s, l) && !l.Step? && IsProc(c)
    ensures Effect(s, l, c, Next(s, l))
  {
    hide Inv, PlaceOk;
    Entry(s, l.p);
    Entry(s, c);
    if s.procs[l.p].pc.ForkAcquire? && s.procs[l.p].pc.np != NOBODY {
      OnlyTarget(s, l.p);
    }
  }

  lemma Effects(s: State, l: Label, c: int)
    requires Inv(s) && |s.procs| == NPROC && Enabled(s, l) && IsProc(c)
    ensures Effect(s, l, c, Next(s, l))
  {
    hide Inv, Effect, Advance;
    if l.Step? {
      var pc := s.procs[l.p].pc;
      if Exiting(pc) {
        ExitEffect(s, l.p, l.choice, c);
      } else if pc.ForkAcquire? || pc.ForkRelease? || pc.ForkReady? {
        ForkEffect(s, l.p, l.choice, c);
      } else {
        WaitEffect(s, l.p, l.choice, c);
      }
    } else {
      OtherEffect(s, l, c);
    }
  }

  /** A parent changes in no other way. */
  lemma ParentMoves(s: State, l: Label, c: int)
    requires Inv(s) && |s.procs| == NPROC && Enabled(s, l) && IsProc(c)
    ensures |Next(s, l).procs| == NPROC && Next(s, l).init == s.init
    ensures ParentMove(s, l, c, Next(s, l).procs[c])
  {
    hide Inv, Next, Enabled;
    Effects(s, l, c);
  }

  lemma OthersStay(s: State, l: Label, c: int)
    requires Inv(s) && |s.procs| == NPROC && Enabled(s, l) && IsProc(c) && c != l.p
    ensures |Next(s, l).procs| == NPROC && OtherMove(s, l, c, Next(s, l).procs[c])
  {
    hide Inv, Next, Enabled;
    Effects(s, l, c);
  }

  // ----- Every step keeps it -----

  lemma ChildStays(s: State, l: Label, c: int, p: int)
    requires Inv(s) && |s.procs| == NPROC && Enabled(s, l) && IsChild(s, c, p) && IsProc(p)
    requires |Next(s, l).procs| == NPROC && Waits(Next(s, l).procs[p].pc)
    ensures IsChild(Next(s, l), c, p)
  {
    hide Inv;
    ParentMoves(s, l, c);
    if p == l.p && (s.procs[p].pc.ExitScan? || s.procs[p].pc.WaitCheck?) {
      LeavesWait(s, l);
    }
  }

  lemma LeavesWait(s: State, l: Label)
    requires |s.procs| == NPROC && Enabled(s, l) && |Next(s, l).procs| == NPROC && Waits(Next(s, l).procs[l.p].pc)
    ensures l.Step? ==> !s.procs[l.p].pc.ExitScan?
    ensures l.Step? && s.procs[l.p].pc.WaitCheck? ==> s.procs[s.procs[l.p].pc.i].state != Zombie
  {
  }

  /** A process starts to count on a child only after it has seen one. */
  lemma ChildSeen(s: State, l: Label)
    requires Inv(s) && |s.procs| == NPROC && Enabled(s, l)
    requires |Next(s, l).procs| == NPROC && Waits(Next(s, l).procs[l.p].pc)
    ensures Waits(s.procs[l.p].pc) || (s.procs[l.p].pc.WaitCheck? && IsChild(s, s.procs[l.p].pc.i, l.p))
  {
    hide Entries, WaitOk, Forks, Pids, NoneMissed, Scans, InitLives;
    Entry(s, l.p);
  }

  lemma CompanyKept(s: State, l: Label)
    requires Inv(s) && |s.procs| == NPROC && Company(s) && Enabled(s, l)
    ensures |Next(s, l).procs| == NPROC && Company(Next(s, l))
  {
    hide Inv, Enabled, Next;
    ParentMovesSize(s, l);
    var s' := Next(s, l);
    forall p | IsProc(p) && Waits(s'.procs[p].pc) ensures exists c :: IsChild(s', c, p) {
      if p == l.p {
        ChildSeen(s, l);
      } else {
        OthersStay(s, l, p);
      }
      var c :| IsChild(s, c, p);
      ChildStays(s, l, c, p);
    }
  }

  lemma ParentMovesSize(s: State, l: Label)
    requires Inv(s) && |s.procs| == NPROC && Enabled(s, l)
    ensures |Next(s, l).procs| == NPROC && Next(s, l).init == s.init && IsProc(l.p) && IsProc(s.init)
  {
    ParentMoves(s, l, 0);
  }

  lemma RootedKept(s: State, l: Label)
    requires Inv(s) && |s.procs| == NPROC && Rooted(s) && ForkedBy(s) && Enabled(s, l)
    ensures |Next(s, l).procs| == NPROC && Rooted(Next(s, l))
  {
    hide Inv, Enabled, Next;
    ParentMovesSize(s, l);
    var s' := Next(s, l);
    forall c | IsProc(c)
      ensures s'.procs[c].parent != c
      ensures if c == s.init then s'.procs[c].parent == NOBODY
              else Started(s'.procs[c]) ==> IsProc(s'.procs[c].parent)
    {
      ParentMoves(s, l, c);
      NewStart(s, l, c);
      if s.procs[l.p].pc == ForkAcquire(c) {
        OnlyTarget(s, l.p);
      }
    }
  }

  /** A process starts only through the last step of the fork that made it. */
  lemma NewStart(s: State, l: Label, c: int)
    requires Inv(s) && |s.procs| == NPROC && Enabled(s, l) && IsProc(c)
    ensures |Next(s, l).procs| == NPROC
    ensures Started(Next(s, l).procs[c]) ==>
              Started(s.procs[c]) || (l.Step? && IsProc(l.p) && s.procs[l.p].pc == ForkReady(c))
    ensures c == s.init ==> s.procs[c].state !in {Unused, Used, Zombie}
    ensures FreeSlot().parent == NOBODY && !Started(FreeSlot())
  {
    hide Entries, WaitOk, Forks, Pids, NoneMissed, Scans, PlaceOk;
    Entry(s, c);
    if c != l.p {
      OthersStay(s, l, c);
    }
  }

  lemma ForkedByKept(s: State, l: Label)
    requires Inv(s) && |s.procs| == NPROC && ForkedBy(s) && Enabled(s, l)
    ensures |Next(s, l).procs| == NPROC && ForkedBy(Next(s, l))
  {
    hide Inv, Enabled, Next;
    ParentMovesSize(s, l);
    var s' := Next(s, l);
    forall p | IsProc(p) ensures BornTo(s', p, s'.procs[p].pc) {
      if p == l.p {
        ForkPlace(s, l);
      } else {
        OthersStay(s, l, p);
      }
      var np := ForkTarget(s.procs[p].pc);
      if np != NOBODY {
        OnlyTarget(s, p);
        ParentMoves(s, l, np);
      }
    }
  }

  lemma ForkPlace(s: State, l: Label)
    requires Inv(s) && |s.procs| == NPROC && Enabled(s, l)
    ensures |Next(s, l).procs| == NPROC
    ensures var pc, pc' := s.procs[l.p].pc, Next(s, l).procs[l.p].pc;
            pc'.ForkRelease? || pc'.ForkReady? ==>
              || pc' == pc || (l.Step? && pc == ForkRelease(pc'.np) && pc' == ForkReady(pc.np))
              || (l.Step? && pc == ForkAcquire(pc'.np) && Next(s, l).procs[pc'.np].parent == l.p)
  {
    hide Entries, WaitOk, Pids, NoneMissed, Scans, PlaceOk, Forks;
    if ForkTarget(s.procs[l.p].pc) != NOBODY {
      OnlyTarget(s, l.p);
    }
  }

  lemma NappingKept(s: State, l: Label)
    requires Inv(s) && |s.procs| == NPROC && Napping(s) && Enabled(s, l)
    ensures |Next(s, l).procs| == NPROC && Napping(Next(s, l))
  {
    hide Inv, Next, Enabled;
    ParentMovesSize(s, l);
    var s' := Next(s, l);
    forall p | IsProc(p) && s'.procs[p].pc.Nap? ensures !IsProc(s'.procs[p].chan) {
      if p != l.p {
        OthersStay(s, l, p);
      } else {
        OwnNap(s, l);
      }
    }
  }

  lemma OwnNap(s: State, l: Label)
    requires Inv(s) && |s.procs| == NPROC && Enabled(s, l)
    ensures |Next(s, l).procs| == NPROC
    ensures var q, q' := s.procs[l.p], Next(s, l).procs[l.p];
            q'.pc.Nap? ==> (q.pc.Nap? && q'.chan == q.chan) || !IsProc(q'.chan)
  {
    hide Entries, WaitOk, Pids, NoneMissed, Scans, PlaceOk, Forks;
    if ForkTarget(s.procs[l.p].pc) != NOBODY {
      OnlyTarget(s, l.p);
    }
  }

  lemma ClaimedKept(s: State, l: Label)
    requires Inv(s) && |s.procs| == NPROC && Claimed(s) && Enabled(s, l)
    ensures |Next(s, l).procs| == NPROC && Claimed(Next(s, l))
  {
    hide Inv, Next, Enabled;
    ParentMovesSize(s, l);
    var s' := Next(s, l);
    forall c | IsProc(c) && s'.procs[c].state == Used ensures exists p :: ClaimedBy(s', c, p) {
      UsedBefore(s, l, c);
      if s.procs[c].state == Used {
        var p :| ClaimedBy(s, c, p);
        if p != l.p {
          Entry(s, p);
          OthersStay(s, l, p);
        }
        assert ClaimedBy(s', c, p);
      } else {
        assert ClaimedBy(s', c, l.p);
      }
    }
  }

  lemma UsedBefore(s: State, l: Label, c: int)
    requires Inv(s) && |s.procs| == NPROC && Enabled(s, l) && IsProc(c)
    ensures |Next(s, l).procs| == NPROC
    ensures Next(s, l).procs[c].state == Used && s.procs[c].state != Used ==> l.Allocate? && l.np == c
    ensures l.Allocate? ==> ForkTarget(Next(s, l).procs[l.p].pc) == l.np
    ensures Next(s, l).procs[c].state == Used && ForkTarget(s.procs[l.p].pc) == c ==>
              ForkTarget(Next(s, l).procs[l.p].pc) == c
  {
    hide Inv, PlaceOk;
    Entry(s, l.p);
    Entry(s, c);
    if ForkTarget(s.procs[l.p].pc) != NOBODY {
      OnlyTarget(s, l.p);
    }
  }

  lemma StepKeepsKin(s: State, l: Label)
    requires Inv(s) && |s.procs| == NPROC && Kin(s) && Enabled(s, l)
    ensures |Next(s, l).procs| == NPROC && Kin(Next(s, l))
  {
    hide Inv, Next, Enabled, Company, Rooted, ForkedBy, Claimed, Napping;
    CompanyKept(s, l);
    RootedKept(s, l);
    ForkedByKept(s, l);
    ClaimedKept(s, l);
    NappingKept(s, l);
  }

  lemma {:induction false} EveryRunKin(s0: State, ls: seq<Label>, s: State)
    requires Initial(s0) && Run(s0, ls, s)
    ensures Inv(s) && |s.procs| == NPROC && Kin(s)
    decreases |ls|
  {
    hide Inv, Next, Enabled;
    EveryRun(s0, ls, s);
    if ls != [] {
      var before, l := ls[..|ls| - 1], ls[|ls| - 1];
      var r :| Run(s0, before, r) && |r.procs| == NPROC && Enabled(r, l) && s == Next(r, l);
      EveryRunKin(s0, before, r);
      StepKeepsKin(r, l);
    }
  }

  // ----- What it says -----

  /** Nobody waits alone: whoever goes to sleep in kwait, or is asleep there, has a child. */
  lemma NobodyWaitsAlone(s0: State, ls: seq<Label>, s: State, p: int)
    requires Initial(s0) && Run(s0, ls, s) && |s.procs| == NPROC && IsProc(p) && Waits(s.procs[p].pc)
    ensures exists c :: IsChild(s, c, p)
  {
    EveryRunKin(s0, ls, s);
  }

  /** Every process but init, running or exited, has a parent that can still wait for it. */
  lemma NoOrphans(s0: State, ls: seq<Label>, s: State, c: int)
    requires Initial(s0) && Run(s0, ls, s) && |s.procs| == NPROC && IsProc(c) && c != s.init
    requires s.procs[c].state !in {Unused, Used}
    ensures IsProc(s.procs[c].parent) && s.procs[s.procs[c].parent].state in {Runnable, Sleeping}
  {
    EveryRunKin(s0, ls, s);
    ParentsLive(s0, ls, s, c);
  }

  /** A new process starts as the child of the process that forked it. */
  lemma BornToForker(s0: State, ls: seq<Label>, s: State, l: Label, c: int)
    requires Initial(s0) && Run(s0, ls, s) && |s.procs| == NPROC && Enabled(s, l) && IsProc(c)
    requires |Next(s, l).procs| == NPROC && !Started(s.procs[c]) && Started(Next(s, l).procs[c])
    ensures l.Step? && s.procs[l.p].pc == ForkReady(c) && Next(s, l).procs[c].parent == l.p
    ensures Next(s, l).procs[c].state == Runnable
  {
    hide Inv, Next, Enabled;
    EveryRunKin(s0, ls, s);
    NewStart(s, l, c);
    ParentMoves(s, l, c);
    OnlyTarget(s, l.p);
    ReadyState(s, l, c);
  }

  lemma ReadyState(s: State, l: Label, c: int)
    requires |s.procs| == NPROC && IsProc(c) && Enabled(s, l) && l.Step? && s.procs[l.p].pc == ForkReady(c) && c != l.p
    ensures |Next(s, l).procs| == NPROC && Next(s, l).procs[c].state == Runnable
  {
  }

  /** No slot is lost: one that is being set up is being set up by a fork. */
  lemma NoSlotLost(s0: State, ls: seq<Label>, s: State, c: int)
    requires Initial(s0) && Run(s0, ls, s) && |s.procs| == NPROC && IsProc(c) && s.procs[c].state == Used
    ensures exists p :: IsProc(p) && ForkTarget(s.procs[p].pc) == c
  {
    EveryRunKin(s0, ls, s);
    var p :| ClaimedBy(s, c, p);
  }

  // ----- How the calls end -----

  predicate InWait(pc: Pc) {
    || pc.WaitAcquire? || pc.WaitScan? || pc.WaitCheck? || pc.WaitLocked? || pc.WaitReleased? || pc.WaitSwitch?
    || pc.WaitAsleep? || pc.WaitWoken?
  }

  /** From kwait and kfork a process gets nowhere but back to its caller; from kexit, nowhere but into a
      free slot, once its parent has reaped it. */
  predicate StaysInCall(pc: Pc, q': Proc) {
    && (InWait(pc) ==> InWait(q'.pc) || q'.pc.User?)
    && (ForkTarget(pc) != NOBODY ==> ForkTarget(q'.pc) == ForkTarget(pc) || q'.pc.User?)
    && (Exiting(pc) ==> Exiting(q'.pc) || (pc.Dead? && q' == FreeSlot()))
  }

  lemma CallsEnd(s0: State, ls: seq<Label>, s: State, l: Label, p: int)
    requires Initial(s0) && Run(s0, ls, s) && |s.procs| == NPROC && Enabled(s, l) && IsProc(p)
    ensures |Next(s, l).procs| == NPROC && StaysInCall(s.procs[p].pc, Next(s, l).procs[p])
  {
    hide Inv, Next, Enabled;
    EveryRun(s0, ls, s);
    hide Run, Initial;
    ParentMovesSize(s, l);
    if p == l.p {
      OwnCall(s, l);
    } else {
      OthersStay(s, l, p);
    }
  }

  lemma OwnCall(s: State, l: Label)
    requires Inv(s) && |s.procs| == NPROC && Enabled(s, l)
    ensures |Next(s, l).procs| == NPROC && StaysInCall(s.procs[l.p].pc, Next(s, l).procs[l.p])
  {
    hide Inv, PlaceOk;
    Entry(s, l.p);
    if ForkTarget(s.procs[l.p].pc) != NOBODY {
      OnlyTarget(s, l.p);
    }
  }

  /** `kwait` returns only with a child reaped, without any child, killed, or unable to copy the status
      of a zombie child out. */
  lemma WaitReturnsFor(s0: State, ls: seq<Label>, s: State, l: Label, p: int)
    requires Initial(s0) && Run(s0, ls, s) && |s.procs| == NPROC && Enabled(s, l) && IsProc(p)
    requires |Next(s, l).procs| == NPROC && InWait(s.procs[p].pc) && Next(s, l).procs[p].pc.User?
    ensures l.p == p && l.Step?
    ensures || l.choice
            || (forall c :: !IsChild(s, c, p))
            || (exists c :: ZombieOf(s, c, p) && Next(s, l).reaped == s.reaped + [Reap(s.procs[c].pid, c, p)])
  {
    hide Inv, Next, Enabled;
    EveryRun(s0, ls, s);
    hide Run, Initial;
    ParentMovesSize(s, l);
    if p != l.p {
      OthersStay(s, l, p);
    }
    WaitReturnsAt(s, l);
  }

  lemma WaitReturnsAt(s: State, l: Label)
    requires Inv(s) && |s.procs| == NPROC && Enabled(s, l)
    requires |Next(s, l).procs| == NPROC && InWait(s.procs[l.p].pc) && Next(s, l).procs[l.p].pc.User?
    ensures l.Step?
    ensures || l.choice
            || (forall c :: !IsChild(s, c, l.p))
            || (exists c :: ZombieOf(s, c, l.p) && Next(s, l).reaped == s.reaped + [Reap(s.procs[c].pid, c, l.p)])
  {
    hide Inv;
    Entry(s, l.p);
    var pc := s.procs[l.p].pc;
    if pc.WaitCheck? {
      assert l.choice || ZombieOf(s, pc.i, l.p);
    }
  }

  /** In the middle of a call, and neither asleep nor exited */
  predicate Underway(q: Proc) {
    || q.pc.ForkAcquire? || q.pc.ForkRelease? || q.pc.ForkReady?
    || (InWait(q.pc) && !(q.pc.WaitAsleep? && q.state == Sleeping))
    || (Exiting(q.pc) && !q.pc.Dead?)
  }

  /** The locks deadlock nobody: while some call is under way, some process in one can go on. */
  lemma NoDeadlock(s0: State, ls: seq<Label>, s: State, p: int)
    requires Initial(s0) && Run(s0, ls, s) && |s.procs| == NPROC && IsProc(p) && Underway(s.procs[p])
    ensures exists l: Label :: (l.Step? || l.Schedule?) && Enabled(s, l)
  {
    hide Inv, Enabled, StepEnabled;
    EveryRun(s0, ls, s);
    hide Run, Initial;
    WaitHolder(s);
    if s.wait == NOBODY {
      var l := FreeToGo(s, p);
    } else {
      var h := s.wait;
      Entry(s, h);
      var k := WaitsForLock(s, h);
      if k == NOBODY {
        assert Enabled(s, Step(h, false)) by { Entering(s, h); }
      } else {
        Entry(s, k);
        OwnLockGoes(s, k);
        assert Enabled(s, Step(k, false)) by { Entering(s, k); }
      }
    }
  }

  lemma WaitHolder(s: State)
    requires Inv(s) && |s.procs| == NPROC
    ensures s.wait == NOBODY || (IsProc(s.wait) && HoldsWait(s.procs[s.wait].pc))
  {
  }

  lemma Entering(s: State, p: int)
    requires |s.procs| == NPROC && IsProc(p) && StepEnabled(s, p)
    ensures Enabled(s, Step(p, false))
  {
  }

  lemma FreeToGo(s: State, p: int) returns (l: Label)
    requires Inv(s) && |s.procs| == NPROC && IsProc(p) && Underway(s.procs[p]) && s.wait == NOBODY
    ensures (l.Step? || l.Schedule?) && Enabled(s, l)
  {
    hide Inv, PlaceOk;
    Entry(s, p);
    l := if s.procs[p].pc.WaitAsleep? then Schedule(p) else Step(p, false);
  }

  /** The process whose own lock the holder of wait_lock needs and has not got; NOBODY if there is none */
  lemma WaitsForLock(s: State, h: int) returns (k: int)
    requires Inv(s) && |s.procs| == NPROC && IsProc(h) && s.wait == h && HoldsWait(s.procs[h].pc)
    ensures k == NOBODY ==> StepEnabled(s, h)
    ensures k != NOBODY ==> IsProc(k) && k != h && OwnLock(s.procs[k].pc)
  {
    hide Inv;
    Entry(s, h);
    var pc := s.procs[h].pc;
    k := if StepEnabled(s, h) then NOBODY else if pc.WaitCheck? then pc.i else pc.k;
  }

  lemma OwnLockGoes(s: State, k: int)
    requires |s.procs| == NPROC && IsProc(k) && OwnLock(s.procs[k].pc)
    ensures StepEnabled(s, k)
  {
  }

  /** What wakes a sleeper: a kill; the event it naps for; the exit of a child of its own; for init,
      the exit of a process that hands children over to it. */
  predicate Wakes(s: State, l: Label, p: int)
    requires |s.procs| == NPROC && IsProc(l.p)
  {
    var q := s.procs[l.p];
    || l == Kill(p) || l == Rouse(p)
    || (l.Step? && q.pc == ExitWakeParent(p) && q.parent == p)
    || (l.Step? && p == s.init && q.pc.ExitWakeInit? && q.pc.k == p)
  }

  /** Nothing else does. */
  lemma WokenOnlyFor(s0: State, ls: seq<Label>, s: State, l: Label, p: int)
    requires Initial(s0) && Run(s0, ls, s) && |s.procs| == NPROC && Enabled(s, l) && IsProc(p)
    requires |Next(s, l).procs| == NPROC && s.procs[p].state == Sleeping && Next(s, l).procs[p].state != Sleeping
    ensures Wakes(s, l, p)
  {
    hide Inv, Next, Enabled;
    EveryRunKin(s0, ls, s);
    hide Run, Initial, EntryOk, PlaceOk, Company, ForkedBy, Napping;
    SleepsOn(s, p);
    ParentMovesSize(s, l);
    Effects(s, l, p);
    if s.procs[l.p].pc.ExitWakeParent? {
      ExitsHaveParents(s, l.p);
    }
  }

  lemma ExitsHaveParents(s: State, p: int)
    requires Inv(s) && |s.procs| == NPROC && Rooted(s) && IsProc(p) && Exiting(s.procs[p].pc)
    ensures IsProc(s.procs[p].parent)
  {
    Entry(s, p);
  }

  lemma SleepsOn(s: State, p: int)
    requires Inv(s) && |s.procs| == NPROC && Napping(s) && IsProc(p) && s.procs[p].state == Sleeping
    ensures s.procs[p].pc.Nap? ==> !IsProc(s.procs[p].chan)
    ensures !s.procs[p].pc.Nap? ==> s.procs[p].chan == p
    ensures forall r :: IsProc(r) ==> s.procs[r].parent == NOBODY || IsProc(s.procs[r].parent)
    ensures s.procs[p].pc.Nap? || s.procs[p].pc.WaitSwitch? || s.procs[p].pc.WaitAsleep?
  {
    Entry(s, p);
  }
}
