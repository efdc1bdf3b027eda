/**
 The exit/wait protocol of kernel/proc.c: `kwait`, `kexit`, `reparent`, `sleep`, `wakeup` and
 the part of `kfork` that sets the parent, as steps of concurrent processes.

 A step is what one process does up to its next lock operation.  A critical section on another
 process's lock that contains no other lock operation is one step, enabled when that lock is
 free; a process's own lock and `wait_lock`, which are held across steps, are explicit.
 RUNNABLE and RUNNING are not distinguished.  Processes are named by their table index.
 */
module WaitExit {
  import opened Params

  const NOBODY := -1

  datatype RunState = Unused | Used | Runnable | Sleeping | Zombie

  /** Where a process is in the code */
  datatype Pc =
    | Idle                          // slot not in use, or still being set up by fork
    | User                          // in user space or elsewhere in the kernel
    | Nap                           // asleep on a channel that is not a process
    // kfork, from the allocated slot on
    | ForkAcquire(np: int)
    | ForkRelease(np: int)
    | ForkReady(np: int)
    // kwait
    | WaitAcquire
    | WaitScan(i: int, kids: bool)
    | WaitCheck(i: int, kids: bool) // the process at i is a child
    | WaitLocked                    // sleep: own lock taken, wait_lock about to be released
    | WaitReleased
    | WaitSwitch                    // marked SLEEPING, own lock still held
    | WaitAsleep
    | WaitWoken                     // scheduled again, own lock held
    // kexit
    | ExitAcquire
    | ExitScan(i: int)
    | ExitWakeInit(i: int, k: int)
    | ExitWakeParent(k: int)
    | ExitLock
    | ExitMark                      // own lock taken
    | ExitRelease                   // marked ZOMBIE
    | ExitSwitch
    | Dead

  datatype Proc = Proc(state: RunState, chan: int, parent: int, pid: int, pc: Pc)
  datatype Reap = Reap(pid: int, child: int, parent: int)
  datatype State = State(procs: seq<Proc>, wait: int, init: int, nextpid: int, reaped: seq<Reap>)

  predicate OwnLock(pc: Pc) {
    pc.WaitLocked? || pc.WaitReleased? || pc.WaitSwitch? || pc.WaitWoken? || pc.ExitMark? || pc.ExitRelease? ||
    pc.ExitSwitch?
  }

  predicate HoldsWait(pc: Pc) {
    || pc.ForkRelease? || pc.WaitScan? || pc.WaitCheck? || pc.WaitLocked?
    || pc.ExitScan? || pc.ExitWakeInit? || pc.ExitWakeParent? || pc.ExitLock? || pc.ExitMark? || pc.ExitRelease?
  }

  function FreeSlot(): Proc {
    Proc(Unused, NOBODY, NOBODY, 0, Idle)
  }

  /** The body of wakeup for one process */
  function Woken(q: Proc, chan: int): Proc {
    if q.state == Sleeping && q.chan == chan then q.(state := Runnable) else q
  }

  datatype Label =
    | Begin(p: int, exits: bool)     // p calls kexit or kwait
    | Allocate(p: int, np: int)      // p calls kfork and gets slot np
    | ForkFails(p: int)              // and gives it back
    | Step(p: int, choice: bool)     // p goes on; choice: killed(p), or copyout fails
    | Schedule(p: int)               // the scheduler runs a process woken in kwait
    | Kill(p: int)
    | Doze(p: int, chan: int)        // p sleeps on something else
    | Rouse(p: int)                  // and is woken

  predicate IsProc(p: int) {
    0 <= p < NPROC
  }

  ghost predicate Enabled(s: State, l: Label)
    requires |s.procs| == NPROC
  {
    IsProc(l.p) &&
    var q := s.procs[l.p];
    match l
    case Begin(p, exits) => q.pc.User? && (exits ==> p != s.init)
    case Allocate(p, np) => q.pc.User? && IsProc(np) && s.procs[np].state == Unused
    case ForkFails(p) => q.pc.ForkAcquire?
    case Step(p, choice) => StepEnabled(s, p)
    case Schedule(p) => q.pc.WaitAsleep? && q.state == Runnable
    case Kill(p) => q.state == Sleeping && !OwnLock(q.pc)
    case Doze(p, chan) => q.pc.User? && !IsProc(chan)
    case Rouse(p) => q.pc.Nap?
  }

  /** What a step waits for: a lock, or being scheduled. */
  ghost predicate StepEnabled(s: State, p: int)
    requires |s.procs| == NPROC && IsProc(p)
  {
    match s.procs[p].pc
    case Idle => false
    case User => false
    case Nap => false
    case WaitAsleep => false
    case Dead => false
    case ForkAcquire(_) => s.wait == NOBODY
    case WaitAcquire => s.wait == NOBODY
    case ExitAcquire => s.wait == NOBODY
    case WaitCheck(i, _) => IsProc(i) && !OwnLock(s.procs[i].pc)
    case ExitWakeInit(_, k) => IsProc(k) ==> k == p || !OwnLock(s.procs[k].pc)
    case ExitWakeParent(k) => IsProc(k) ==> k == p || !OwnLock(s.procs[k].pc)
    case _ => true
  }

  function Goto(s: State, p: int, pc: Pc): State
    requires |s.procs| == NPROC && IsProc(p)
  {
    s.(procs := s.procs[p := s.procs[p].(pc := pc)])
  }

  function Change(s: State, p: int, q: Proc): State
    requires |s.procs| == NPROC && IsProc(p)
  {
    s.(procs := s.procs[p := q])
  }

  ghost function Next(s: State, l: Label): State
    requires |s.procs| == NPROC && Enabled(s, l)
  {
    var q := s.procs[l.p];
    match l
    case Begin(p, exits) => Goto(s, p, if exits then ExitAcquire else WaitAcquire)
    case Allocate(p, np) =>
      Goto(Change(s, np, Proc(Used, NOBODY, NOBODY, s.nextpid, Idle)), p, ForkAcquire(np)).(nextpid := s.nextpid + 1)
    case ForkFails(p) => if IsProc(q.pc.np) then Goto(Change(s, q.pc.np, FreeSlot()), p, User) else s
    case Step(p, choice) => Advance(s, p, choice)
    case Schedule(p) => Goto(s, p, WaitWoken)
    case Kill(p) => Change(s, p, q.(state := Runnable))
    case Doze(p, chan) => Change(s, p, q.(state := Sleeping, chan := chan, pc := Nap))
    case Rouse(p) => Change(s, p, q.(state := Runnable, chan := NOBODY, pc := User))
  }

  ghost function Advance(s: State, p: int, choice: bool): State
    requires |s.procs| == NPROC && IsProc(p) && StepEnabled(s, p)
  {
    var q := s.procs[p];
    match q.pc
    // kfork
    case ForkAcquire(np) =>
      if IsProc(np) then Goto(Change(s, np, s.procs[np].(parent := p)), p, ForkRelease(np)).(wait := p) else s
    case ForkRelease(np) => Goto(s, p, ForkReady(np)).(wait := NOBODY)
    case ForkReady(np) =>
      if IsProc(np) then Goto(Change(s, np, s.procs[np].(state := Runnable, pc := User)), p, User) else s
    // kwait
    case WaitAcquire => Goto(s, p, WaitScan(0, false)).(wait := p)
    case WaitScan(i, kids) =>
      if IsProc(i) then
        Goto(s, p, if s.procs[i].parent == p then WaitCheck(i, kids) else WaitScan(i + 1, kids))
      else if !kids || choice then Goto(s, p, User).(wait := NOBODY)
      else Goto(s, p, WaitLocked)
    case WaitCheck(i, kids) =>
      if s.procs[i].state != Zombie then Goto(s, p, WaitScan(i + 1, true))
      else if choice then Goto(s, p, User).(wait := NOBODY)
      else Goto(Change(s, i, FreeSlot()), p, User).(wait := NOBODY, reaped := s.reaped + [Reap(s.procs[i].pid, i, p)])
    case WaitLocked => Goto(s, p, WaitReleased).(wait := NOBODY)
    case WaitReleased => Change(s, p, q.(state := Sleeping, chan := p, pc := WaitSwitch))
    case WaitSwitch => Goto(s, p, WaitAsleep)
    case WaitWoken => Change(s, p, q.(chan := NOBODY, pc := WaitAcquire))
    // kexit
    case ExitAcquire => Goto(s, p, ExitScan(0)).(wait := p)
    case ExitScan(i) =>
      if !IsProc(i) then Goto(s, p, ExitWakeParent(0))
      else if s.procs[i].parent == p then
        Goto(Change(s, i, s.procs[i].(parent := s.init)), p, ExitWakeInit(i, 0))
      else Goto(s, p, ExitScan(i + 1))
    case ExitWakeInit(i, k) =>
      if !IsProc(k) then Goto(s, p, ExitScan(i + 1))
      else Goto(if k == p then s else Change(s, k, Woken(s.procs[k], s.init)), p, ExitWakeInit(i, k + 1))
    case ExitWakeParent(k) =>
      if !IsProc(k) then Goto(s, p, ExitLock)
      else Goto(if k == p then s else Change(s, k, Woken(s.procs[k], q.parent)), p, ExitWakeParent(k + 1))
    case ExitLock => Goto(s, p, ExitMark)
    case ExitMark => Change(s, p, q.(state := Zombie, pc := ExitRelease))
    case ExitRelease => Goto(s, p, ExitSwitch).(wait := NOBODY)
    case ExitSwitch => Goto(s, p, Dead)
  }

  ghost predicate Initial(s: State) {
    && |s.procs| == NPROC && IsProc(s.init) && s.wait == NOBODY && s.nextpid == 2 && s.reaped == []
    && s.procs[s.init] == Proc(Runnable, NOBODY, NOBODY, 1, User)
    && forall p :: 0 <= p < NPROC && p != s.init ==> s.procs[p] == FreeSlot()
  }

  ghost predicate Run(s0: State, ls: seq<Label>, s: State)
    decreases |ls|
  {
    if ls == [] then
      s == s0
    else
      var before, l := ls[..|ls| - 1], ls[|ls| - 1];
      exists r :: Run(s0, before, r) && |r.procs| == NPROC && Enabled(r, l) && s == Next(r, l)
  }

  // ----- The invariant -----

  /** Asleep in kwait, or certain to be: wait_lock is given up and the scan will not be redone. */
  predicate Committed(q: Proc) {
    q.pc.WaitReleased? || q.pc.WaitSwitch? || (q.pc.WaitAsleep? && q.state == Sleeping)
  }

  /** What the code position says about a process's own entry */
  predicate EntryOk(q: Proc, p: int) {
    && (q.state == Zombie ==> q.pc.ExitRelease? || q.pc.ExitSwitch? || q.pc.Dead?)
    && (q.pc.ExitRelease? || q.pc.ExitSwitch? || q.pc.Dead? ==> q.state == Zombie)
    && (q.state == Unused || q.state == Used <==> q.pc.Idle?)
    && (q.state == Unused ==> q.parent == NOBODY)
    && (q.state == Sleeping ==> q.pc.Nap? || q.pc.WaitSwitch? || q.pc.WaitAsleep?)
    && (q.pc.WaitSwitch? ==> q.state == Sleeping)
    && (q.pc.WaitSwitch? || q.pc.WaitAsleep? ==> q.chan == p)
    && (q.parent == NOBODY || IsProc(q.parent))
  }

  ghost predicate Entries(s: State)
    requires |s.procs| == NPROC
  {
    forall p :: IsProc(p) ==> EntryOk(s.procs[p], p)
  }

  ghost predicate WaitOk(s: State)
    requires |s.procs| == NPROC
  {
    && (s.wait == NOBODY || IsProc(s.wait))
    && forall p :: IsProc(p) ==> (HoldsWait(s.procs[p].pc) <==> s.wait == p)
  }

  /** c is a zombie child of p. */
  predicate ZombieOf(s: State, c: int, p: int)
    requires |s.procs| == NPROC
  {
    IsProc(c) && IsProc(p) && s.procs[c].parent == p && s.procs[c].state == Zombie
  }

  /** The one time a process may be asleep with a zombie child: init, while the process handing
      children over has yet to reach it in wakeup. */
  predicate Excused(s: State, p: int)
    requires |s.procs| == NPROC
  {
    p == s.init && IsProc(s.wait) && s.procs[s.wait].pc.ExitWakeInit? && s.procs[s.wait].pc.k <= p
  }

  ghost predicate NoneMissed(s: State)
    requires |s.procs| == NPROC
  {
    forall c, p :: ZombieOf(s, c, p) && Committed(s.procs[p]) ==> Excused(s, p)
  }

  predicate IsChild(s: State, c: int, p: int)
    requires |s.procs| == NPROC
  {
    IsProc(c) && s.procs[c].parent == p
  }

  ghost predicate ScannedTo(s: State, p: int, n: int, kids: bool)
    requires |s.procs| == NPROC
  {
    forall c :: IsChild(s, c, p) && c < n ==> kids && s.procs[c].state != Zombie
  }

  ghost predicate Childless(s: State, p: int, n: int)
    requires |s.procs| == NPROC
  {
    forall c :: IsChild(s, c, p) ==> c >= n
  }

  ghost predicate ParentAwake(s: State, x: int, k: int)
    requires |s.procs| == NPROC && IsProc(x)
  {
    var p := s.procs[x].parent;
    IsProc(p) && p < k ==> !Committed(s.procs[p])
  }

  /** What code position pc of process p claims about its children and its parent */
  ghost predicate PlaceOk(s: State, p: int, pc: Pc)
    requires |s.procs| == NPROC && IsProc(p)
  {
    && (pc.WaitScan? || pc.WaitCheck? ==> 0 <= pc.i <= NPROC && ScannedTo(s, p, pc.i, pc.kids))
    && (pc.WaitCheck? ==> IsChild(s, pc.i, p))
    && (pc.WaitLocked? ==> forall c :: IsChild(s, c, p) ==> s.procs[c].state != Zombie)
    && (pc.ExitScan? ==> 0 <= pc.i <= NPROC && Childless(s, p, pc.i))
    && (pc.ExitWakeInit? ==> 0 <= pc.i < NPROC && 0 <= pc.k <= NPROC && Childless(s, p, pc.i + 1))
    && (pc.ExitWakeParent? ==> 0 <= pc.k <= NPROC && Childless(s, p, NPROC) && ParentAwake(s, p, pc.k))
    && (pc.ExitLock? || pc.ExitMark? || pc.ExitRelease? ==> Childless(s, p, NPROC) && ParentAwake(s, p, NPROC))
    && (pc.ExitSwitch? || pc.Dead? || pc.Idle? ==> Childless(s, p, NPROC))
  }

  ghost predicate Scans(s: State)
    requires |s.procs| == NPROC
  {
    forall p :: IsProc(p) ==> PlaceOk(s, p, s.procs[p].pc)
  }

  function ForkTarget(pc: Pc): int {
    if pc.ForkAcquire? || pc.ForkRelease? || pc.ForkReady? then pc.np else NOBODY
  }

  /** A slot being set up that no fork works on */
  ghost predicate ForkFree(s: State, np: int)
    requires |s.procs| == NPROC
  {
    IsProc(np) && s.procs[np].state == Used && forall r :: IsProc(r) ==> ForkTarget(s.procs[r].pc) != np
  }

  /** A slot being set up belongs to one fork. */
  ghost predicate Forks(s: State)
    requires |s.procs| == NPROC
  {
    && (forall p :: IsProc(p) && ForkTarget(s.procs[p].pc) != NOBODY ==>
          IsProc(ForkTarget(s.procs[p].pc)) && s.procs[ForkTarget(s.procs[p].pc)].state == Used)
    && (forall p, p' :: IsProc(p) && IsProc(p') && p != p' && ForkTarget(s.procs[p].pc) != NOBODY ==>
          ForkTarget(s.procs[p].pc) != ForkTarget(s.procs[p'].pc))
    && (forall p :: IsProc(p) && s.procs[p].pc.ForkAcquire? && IsProc(s.procs[p].pc.np) ==>
          s.procs[s.procs[p].pc.np].parent == NOBODY)
  }

  ghost predicate Pids(s: State)
    requires |s.procs| == NPROC
  {
    && (forall p :: IsProc(p) && s.procs[p].state != Unused ==> s.procs[p].pid < s.nextpid)
    && (forall p, p' ::
          IsProc(p) && IsProc(p') && p != p' && s.procs[p].state != Unused && s.procs[p'].state != Unused ==>
            s.procs[p].pid != s.procs[p'].pid)
    && (forall i :: 0 <= i < |s.reaped| ==> s.reaped[i].pid < s.nextpid)
    && (forall i, p :: 0 <= i < |s.reaped| && IsProc(p) && s.procs[p].state != Unused ==>
          s.reaped[i].pid != s.procs[p].pid)
    && (forall i, j :: 0 <= i < j < |s.reaped| ==> s.reaped[i].pid != s.reaped[j].pid)
  }

  predicate Exiting(pc: Pc) {
    || pc.ExitAcquire? || pc.ExitScan? || pc.ExitWakeInit? || pc.ExitWakeParent? || pc.ExitLock?
    || pc.ExitMark? || pc.ExitRelease? || pc.ExitSwitch? || pc.Dead?
  }

  ghost predicate InitLives(s: State)
    requires |s.procs| == NPROC && IsProc(s.init)
  {
    !s.procs[s.init].pc.Idle? && !Exiting(s.procs[s.init].pc)
  }

  ghost predicate Inv(s: State) {
    && |s.procs| == NPROC && IsProc(s.init) && InitLives(s)
    && Entries(s) && WaitOk(s) && NoneMissed(s) && Scans(s) && Forks(s) && Pids(s)
  }

  // ----- Every step keeps it -----

  /** One process changes its own entry, and perhaps takes or gives up wait_lock. */
  function Solo(s: State, p: int, q: Proc, wait: int): State
    requires |s.procs| == NPROC && IsProc(p)
  {
    s.(procs := s.procs[p := q], wait := wait)
  }

  /** The changes of that kind that keep the invariant, apart from what the new position
      claims about children. */
  ghost predicate Safe(s: State, p: int, q': Proc, wait': int)
    requires |s.procs| == NPROC && IsProc(p) && IsProc(s.init)
  {
    var q := s.procs[p];
    && EntryOk(q', p) && q'.parent == q.parent && q'.pid == q.pid
    && q.state != Unused && q.state != Used && q'.state != Unused && q'.state != Used
    && (p == s.init ==> !Exiting(q'.pc))
    && wait' == (if HoldsWait(q'.pc) then p else if HoldsWait(q.pc) then NOBODY else s.wait)
    && (HoldsWait(q'.pc) && !HoldsWait(q.pc) ==> s.wait == NOBODY)
    && (ForkTarget(q'.pc) == ForkTarget(q.pc) || ForkTarget(q'.pc) == NOBODY || ForkFree(s, ForkTarget(q'.pc)))
    && (q'.pc.ForkAcquire? ==> ForkFree(s, q'.pc.np) && s.procs[q'.pc.np].parent == NOBODY)
    && (q'.state == Zombie && q.state != Zombie ==> s.wait == p && wait' == p && ParentAwake(s, p, NPROC))
    && (Committed(q') && !Committed(q) ==> s.wait == p && forall c :: IsChild(s, c, p) ==> s.procs[c].state != Zombie)
    && (q.pc.ExitWakeInit? && q.pc.k <= s.init && Committed(s.procs[s.init]) ==>
          q'.pc.ExitWakeInit? && q'.pc.k <= s.init)
  }

  lemma SoloBasics(s: State, p: int, q': Proc, wait': int)
    requires Inv(s) && IsProc(p) && Safe(s, p, q', wait')
    ensures var s' := Solo(s, p, q', wait');
            Entries(s') && InitLives(s') && WaitOk(s')
  {
    hide NoneMissed, Pids, PlaceOk, Committed, ParentAwake, Forks, ForkFree;
  }

  lemma SoloForks(s: State, p: int, q': Proc, wait': int)
    requires Inv(s) && IsProc(p) && Safe(s, p, q', wait')
    ensures Forks(Solo(s, p, q', wait'))
  {
    hide NoneMissed, Pids, PlaceOk, Committed, ParentAwake, WaitOk, EntryOk;
  }

  lemma SoloPids(s: State, p: int, q': Proc, wait': int)
    requires Inv(s) && IsProc(p) && Safe(s, p, q', wait')
    ensures Pids(Solo(s, p, q', wait'))
  {
    hide NoneMissed, WaitOk, PlaceOk, Committed, EntryOk, ParentAwake, Forks;
  }

  lemma SoloNoneMissed(s: State, p: int, q': Proc, wait': int)
    requires Inv(s) && IsProc(p) && Safe(s, p, q', wait')
    ensures NoneMissed(Solo(s, p, q', wait'))
  {
    hide PlaceOk, EntryOk, Forks, Pids;
    var s' := Solo(s, p, q', wait');
    forall c, r | ZombieOf(s', c, r) && Committed(s'.procs[r]) ensures Excused(s', r) {
      assert IsChild(s, c, r);
      if ZombieOf(s, c, r) && Committed(s.procs[r]) {
        assert Excused(s, r);
      }
    }
  }

  lemma SoloScans(s: State, p: int, q': Proc, wait': int)
    requires Inv(s) && IsProc(p) && Safe(s, p, q', wait')
    requires PlaceOk(Solo(s, p, q', wait'), p, q'.pc)
    ensures Scans(Solo(s, p, q', wait'))
  {
    hide EntryOk, Forks, Pids, NoneMissed;
    var s' := Solo(s, p, q', wait');
    assert forall c, r :: IsChild(s', c, r) == IsChild(s, c, r);
    forall r | IsProc(r) && r != p ensures PlaceOk(s', r, s'.procs[r].pc) {
      assert PlaceOk(s, r, s.procs[r].pc);
    }
  }

  lemma SoloKeeps(s: State, p: int, q': Proc, wait': int)
    requires Inv(s) && IsProc(p) && Safe(s, p, q', wait')
    requires PlaceOk(Solo(s, p, q', wait'), p, q'.pc)
    ensures Inv(Solo(s, p, q', wait'))
  {
    hide Entries, InitLives, WaitOk, Forks, Pids, NoneMissed, Scans, Safe, PlaceOk;
    SoloBasics(s, p, q', wait');
    SoloForks(s, p, q', wait');
    SoloPids(s, p, q', wait');
    SoloNoneMissed(s, p, q', wait');
    SoloScans(s, p, q', wait');
  }

  lemma Entry(s: State, p: int)
    requires Inv(s) && IsProc(p)
    ensures EntryOk(s.procs[p], p) && PlaceOk(s, p, s.procs[p].pc)
    ensures HoldsWait(s.procs[p].pc) <==> s.wait == p
    ensures p == s.init ==> !Exiting(s.procs[p].pc) && !s.procs[p].pc.Idle?
  {
  }

  /** A step that changes only the process's own entry: what is left to show is what its new
      position claims. */
  lemma Moves(s: State, p: int, q': Proc, wait': int)
    requires Inv(s) && IsProc(p) && Safe(s, p, q', wait')
    requires PlaceOk(s, p, q'.pc)
    ensures Inv(Solo(s, p, q', wait'))
  {
    hide Entries, WaitOk, Forks, Pids, NoneMissed, Scans, InitLives;
    var s' := Solo(s, p, q', wait');
    assert forall c, r :: IsChild(s', c, r) == IsChild(s, c, r);
    assert forall c :: IsProc(c) && c != p ==> s'.procs[c] == s.procs[c];
    Entry(s, p);
    SoloKeeps(s, p, q', wait');
  }

  // kwait

  lemma WaitAcquireKeeps(s: State, p: int)
    requires Inv(s) && IsProc(p) && s.procs[p].pc.WaitAcquire? && s.wait == NOBODY
    ensures Inv(Solo(s, p, s.procs[p].(pc := WaitScan(0, false)), p))
  {
    hide Entries, WaitOk, Forks, Pids, NoneMissed, Scans, InitLives;
    Entry(s, p);
    Moves(s, p, s.procs[p].(pc := WaitScan(0, false)), p);
  }

  lemma WaitScanKeeps(s: State, p: int, pc: Pc)
    requires Inv(s) && IsProc(p) && s.procs[p].pc.WaitScan?
    requires var at := s.procs[p].pc;
             if IsProc(at.i) then
               pc == if s.procs[at.i].parent == p then WaitCheck(at.i, at.kids) else WaitScan(at.i + 1, at.kids)
             else pc == WaitLocked
    ensures Inv(Solo(s, p, s.procs[p].(pc := pc), p))
  {
    hide Entries, WaitOk, Forks, Pids, NoneMissed, Scans, InitLives;
    Entry(s, p);
    Moves(s, p, s.procs[p].(pc := pc), p);
  }

  lemma WaitReturnKeeps(s: State, p: int)
    requires Inv(s) && IsProc(p) && (s.procs[p].pc.WaitScan? || s.procs[p].pc.WaitCheck?)
    ensures Inv(Solo(s, p, s.procs[p].(pc := User), NOBODY))
  {
    hide Entries, WaitOk, Forks, Pids, NoneMissed, Scans, InitLives;
    Entry(s, p);
    Moves(s, p, s.procs[p].(pc := User), NOBODY);
  }

  lemma WaitCheckKeeps(s: State, p: int)
    requires Inv(s) && IsProc(p) && s.procs[p].pc.WaitCheck? && IsProc(s.procs[p].pc.i)
    requires s.procs[s.procs[p].pc.i].state != Zombie
    ensures Inv(Solo(s, p, s.procs[p].(pc := WaitScan(s.procs[p].pc.i + 1, true)), p))
  {
    hide Entries, WaitOk, Forks, Pids, NoneMissed, Scans, InitLives;
    Entry(s, p);
    Moves(s, p, s.procs[p].(pc := WaitScan(s.procs[p].pc.i + 1, true)), p);
  }

  /** wait_lock is given up while the process's own lock is held: no zombie is missed. */
  lemma WaitLockedKeeps(s: State, p: int)
    requires Inv(s) && IsProc(p) && s.procs[p].pc.WaitLocked?
    ensures Inv(Solo(s, p, s.procs[p].(pc := WaitReleased), NOBODY))
  {
    hide Entries, WaitOk, Forks, Pids, NoneMissed, Scans, InitLives;
    Entry(s, p);
    Moves(s, p, s.procs[p].(pc := WaitReleased), NOBODY);
  }

  lemma WaitSleepKeeps(s: State, p: int)
    requires Inv(s) && IsProc(p)
    ensures s.procs[p].pc.WaitReleased? ==>
              Inv(Solo(s, p, s.procs[p].(state := Sleeping, chan := p, pc := WaitSwitch), s.wait))
    ensures s.procs[p].pc.WaitSwitch? ==> Inv(Solo(s, p, s.procs[p].(pc := WaitAsleep), s.wait))
    ensures s.procs[p].pc.WaitAsleep? && s.procs[p].state == Runnable ==>
              Inv(Solo(s, p, s.procs[p].(pc := WaitWoken), s.wait))
    ensures s.procs[p].pc.WaitWoken? ==> Inv(Solo(s, p, s.procs[p].(chan := NOBODY, pc := WaitAcquire), s.wait))
  {
    hide Entries, WaitOk, Forks, Pids, NoneMissed, Scans, InitLives;
    Entry(s, p);
    var q := s.procs[p];
    if q.pc.WaitReleased? {
      Moves(s, p, q.(state := Sleeping, chan := p, pc := WaitSwitch), s.wait);
    } else if q.pc.WaitSwitch? {
      Moves(s, p, q.(pc := WaitAsleep), s.wait);
    } else if q.pc.WaitAsleep? && q.state == Runnable {
      Moves(s, p, q.(pc := WaitWoken), s.wait);
    } else if q.pc.WaitWoken? {
      Moves(s, p, q.(chan := NOBODY, pc := WaitAcquire), s.wait);
    }
  }

  // kexit

  lemma ExitMoves(s: State, p: int, pc: Pc)
    requires Inv(s) && IsProc(p) && HoldsWait(pc)
    requires var at := s.procs[p].pc;
             || (at.ExitAcquire? && s.wait == NOBODY && pc == ExitScan(0))
             || (at.ExitScan? && !IsProc(at.i) && pc == ExitWakeParent(0))
             || (at.ExitScan? && IsProc(at.i) && s.procs[at.i].parent != p && pc == ExitScan(at.i + 1))
             || (at.ExitWakeInit? && !IsProc(at.k) && pc == ExitScan(at.i + 1))
             || (at.ExitWakeInit? && IsProc(at.k) && (at.k == s.init ==> !Committed(s.procs[at.k])) &&
                 pc == ExitWakeInit(at.i, at.k + 1))
             || (at.ExitWakeParent? && !IsProc(at.k) && pc == ExitLock)
             || (at.ExitWakeParent? && IsProc(at.k) && (at.k == s.procs[p].parent ==> !Committed(s.procs[at.k])) &&
                 pc == ExitWakeParent(at.k + 1))
             || (at.ExitLock? && pc == ExitMark)
    ensures Inv(Solo(s, p, s.procs[p].(pc := pc), p))
  {
    hide Entries, WaitOk, Forks, Pids, NoneMissed, Scans, InitLives;
    Entry(s, p);
    Moves(s, p, s.procs[p].(pc := pc), p);
  }

  lemma ExitLastKeeps(s: State, p: int)
    requires Inv(s) && IsProc(p)
    ensures s.procs[p].pc.ExitMark? ==> Inv(Solo(s, p, s.procs[p].(state := Zombie, pc := ExitRelease), p))
    ensures s.procs[p].pc.ExitRelease? ==> Inv(Solo(s, p, s.procs[p].(pc := ExitSwitch), NOBODY))
    ensures s.procs[p].pc.ExitSwitch? ==> Inv(Solo(s, p, s.procs[p].(pc := Dead), s.wait))
  {
    hide Entries, WaitOk, Forks, Pids, NoneMissed, Scans, InitLives;
    Entry(s, p);
    var q := s.procs[p];
    if q.pc.ExitMark? {
      Moves(s, p, q.(state := Zombie, pc := ExitRelease), p);
    } else if q.pc.ExitRelease? {
      Moves(s, p, q.(pc := ExitSwitch), NOBODY);
    } else if q.pc.ExitSwitch? {
      Moves(s, p, q.(pc := Dead), s.wait);
    }
  }

  /** Waking a process, by wakeup or kill, if its lock is free */
  lemma WakeKeeps(s: State, k: int, chan: int)
    requires Inv(s) && IsProc(k) && !OwnLock(s.procs[k].pc)
    ensures Inv(Solo(s, k, Woken(s.procs[k], chan), s.wait))
    ensures chan == k ==> !Committed(Woken(s.procs[k], chan))
  {
    hide Entries, WaitOk, Forks, Pids, NoneMissed, Scans, InitLives;
    Entry(s, k);
    assert s.procs == s.procs[k := s.procs[k]];
    if s.procs[k].state == Sleeping && s.procs[k].chan == chan {
      Moves(s, k, s.procs[k].(state := Runnable), s.wait);
    }
  }

  function HandedOver(s: State, p: int, i: int): State
    requires |s.procs| == NPROC && IsProc(p) && IsProc(i)
  {
    Goto(Change(s, i, s.procs[i].(parent := s.init)), p, ExitWakeInit(i, 0))
  }

  lemma HandOverBasics(s: State, p: int, i: int)
    requires Inv(s) && IsProc(p) && s.procs[p].pc == ExitScan(i) && IsChild(s, i, p)
    ensures var s' := HandedOver(s, p, i);
            Entries(s') && InitLives(s') && WaitOk(s')
  {
    hide NoneMissed, PlaceOk, Forks, Pids;
  }

  lemma HandOverForks(s: State, p: int, i: int)
    requires Inv(s) && IsProc(p) && s.procs[p].pc == ExitScan(i) && IsChild(s, i, p)
    ensures Forks(HandedOver(s, p, i))
  {
    hide NoneMissed, PlaceOk, EntryOk, WaitOk, Pids;
  }

  lemma HandOverPids(s: State, p: int, i: int)
    requires Inv(s) && IsProc(p) && s.procs[p].pc == ExitScan(i) && IsChild(s, i, p)
    ensures Pids(HandedOver(s, p, i))
  {
    hide NoneMissed, PlaceOk, EntryOk, WaitOk, Forks;
    var s' := HandedOver(s, p, i);
    assert forall r :: IsProc(r) ==> s'.procs[r].pid == s.procs[r].pid && s'.procs[r].state == s.procs[r].state;
  }

  lemma HandOverNoneMissed(s: State, p: int, i: int)
    requires Inv(s) && IsProc(p) && s.procs[p].pc == ExitScan(i) && IsChild(s, i, p)
    ensures NoneMissed(HandedOver(s, p, i))
  {
    hide Forks, Pids, PlaceOk, EntryOk;
    var s' := HandedOver(s, p, i);
    assert s.wait == p;
    forall c, r | ZombieOf(s, c, r) ensures !Committed(s.procs[r]) {
    }
    forall c, r | ZombieOf(s', c, r) && Committed(s'.procs[r]) ensures Excused(s', r) {
      assert c == i || ZombieOf(s, c, r);
    }
  }

  lemma HandOverScans(s: State, p: int, i: int)
    requires Inv(s) && IsProc(p) && s.procs[p].pc == ExitScan(i) && IsChild(s, i, p)
    ensures Scans(HandedOver(s, p, i))
  {
    hide Forks, Pids, EntryOk, NoneMissed;
    var s' := HandedOver(s, p, i);
    Entry(s, p);
    assert forall c, r :: IsChild(s', c, r) <==> if c == i then r == s.init else IsChild(s, c, r);
    forall r | IsProc(r) ensures PlaceOk(s', r, s'.procs[r].pc) {
      assert PlaceOk(s, r, s.procs[r].pc);
    }
  }

  /** Handing child i over to init */
  lemma ReparentKeeps(s: State, p: int, i: int)
    requires Inv(s) && IsProc(p) && s.procs[p].pc == ExitScan(i) && IsChild(s, i, p)
    ensures Inv(HandedOver(s, p, i))
  {
    hide Entries, WaitOk, Forks, Pids, NoneMissed, Scans, InitLives;
    HandOverBasics(s, p, i);
    HandOverForks(s, p, i);
    HandOverPids(s, p, i);
    HandOverNoneMissed(s, p, i);
    HandOverScans(s, p, i);
  }

  // kfork and freeproc

  /** Changes to a slot that is not running: being allocated, set up, or freed */
  ghost predicate SlotSafe(s: State, c: int, r': Proc)
    requires |s.procs| == NPROC && IsProc(c)
  {
    var r := s.procs[c];
    && EntryOk(r', c) && c != s.init && r'.state != Zombie && !Exiting(r'.pc)
    && (r.pc.Idle? || r.pc.Dead?) && (r'.pc.Idle? || r'.pc.User?)
    && (r'.state == Used || forall p :: IsProc(p) ==> ForkTarget(s.procs[p].pc) != c)
    && (r'.parent == r.parent || (r'.parent == NOBODY && s.wait == NOBODY)
        || (IsProc(r'.parent) && s.procs[r'.parent].pc == ForkRelease(c)))
  }

  lemma SlotBasics(s: State, c: int, r': Proc)
    requires Inv(s) && IsProc(c) && SlotSafe(s, c, r')
    ensures var s' := Change(s, c, r');
            Entries(s') && InitLives(s') && WaitOk(s') && NoneMissed(s')
  {
    hide Forks, Pids, PlaceOk;
    var s' := Change(s, c, r');
    forall d, p | ZombieOf(s', d, p) && Committed(s'.procs[p]) ensures Excused(s', p) {
      assert ZombieOf(s, d, p);
    }
  }

  lemma SlotPlace(s: State, c: int, r': Proc, p: int)
    requires Inv(s) && IsProc(c) && SlotSafe(s, c, r') && IsProc(p)
    ensures PlaceOk(Change(s, c, r'), p, Change(s, c, r').procs[p].pc)
  {
    hide Entries, WaitOk, Forks, Pids, NoneMissed, Scans, InitLives, EntryOk;
    var s' := Change(s, c, r');
    Entry(s, c);
    Entry(s, p);
    if IsProc(r'.parent) {
      Entry(s, r'.parent);
    }
    assert forall d :: d != c ==> IsChild(s', d, p) == IsChild(s, d, p);
    assert IsChild(s', c, p) ==> IsChild(s, c, p) || s.procs[p].pc == ForkRelease(c);
  }

  lemma SlotScans(s: State, c: int, r': Proc)
    requires Inv(s) && IsProc(c) && SlotSafe(s, c, r')
    ensures Scans(Change(s, c, r'))
  {
    hide Entries, WaitOk, Forks, Pids, NoneMissed, InitLives, PlaceOk, SlotSafe;
    forall p | IsProc(p) ensures PlaceOk(Change(s, c, r'), p, Change(s, c, r').procs[p].pc) {
      SlotPlace(s, c, r', p);
    }
  }

  lemma SlotForks(s: State, c: int, r': Proc)
    requires Inv(s) && IsProc(c) && SlotSafe(s, c, r')
    ensures Forks(Change(s, c, r'))
  {
    hide Pids, NoneMissed, PlaceOk, WaitOk;
  }

  lemma SlotPids(s: State, c: int, r': Proc)
    requires Inv(s) && IsProc(c) && (r'.state == Unused || (s.procs[c].state != Unused && r'.pid == s.procs[c].pid))
    ensures Pids(Change(s, c, r'))
  {
    hide WaitOk, NoneMissed, Forks, EntryOk, PlaceOk;
  }

  lemma SlotKeeps(s: State, c: int, r': Proc)
    requires Inv(s) && IsProc(c) && SlotSafe(s, c, r')
    requires r'.state == Unused || (s.procs[c].state != Unused && r'.pid == s.procs[c].pid)
    ensures Inv(Change(s, c, r'))
  {
    hide Entries, WaitOk, Forks, Pids, NoneMissed, Scans, InitLives, SlotSafe, PlaceOk;
    SlotBasics(s, c, r');
    SlotScans(s, c, r');
    SlotForks(s, c, r');
    SlotPids(s, c, r');
  }

  lemma AllocateKeeps(s: State, p: int, np: int)
    requires Inv(s) && IsProc(p) && IsProc(np) && s.procs[p].pc.User? && s.procs[np].state == Unused
    ensures var s1 := Change(s, np, Proc(Used, NOBODY, NOBODY, s.nextpid, Idle)).(nextpid := s.nextpid + 1);
            Inv(Goto(s1, p, ForkAcquire(np)))
  {
    hide Entries, WaitOk, Forks, Pids, NoneMissed, Scans, InitLives;
    var r' := Proc(Used, NOBODY, NOBODY, s.nextpid, Idle);
    var s0 := Change(s, np, r');
    var s1 := s0.(nextpid := s.nextpid + 1);
    Entry(s, np);
    Entry(s, p);
    NotTarget(s, np);
    AllocatePids(s, np);
    SlotBasics(s, np, r');
    SlotScans(s, np, r');
    SlotForks(s, np, r');
    SameView(s0, s1);
    Moves(s1, p, s1.procs[p].(pc := ForkAcquire(np)), s.wait);
  }

  lemma AllocatePids(s: State, np: int)
    requires Inv(s) && IsProc(np) && s.procs[np].state == Unused
    ensures Pids(Change(s, np, Proc(Used, NOBODY, NOBODY, s.nextpid, Idle)).(nextpid := s.nextpid + 1))
  {
    hide WaitOk, NoneMissed, Forks, EntryOk, PlaceOk;
  }

  lemma ReapPids(s: State, p: int, i: int)
    requires Inv(s) && IsProc(i) && s.procs[i].state == Zombie
    ensures Pids(Change(s, i, FreeSlot()).(reaped := s.reaped + [Reap(s.procs[i].pid, i, p)]))
  {
    hide WaitOk, NoneMissed, Forks, EntryOk, PlaceOk;
  }

  /** The counters have no part in the rest of the invariant. */
  lemma SameView(s: State, s': State)
    requires |s.procs| == NPROC && IsProc(s.init) && InitLives(s) && Entries(s) && WaitOk(s) && NoneMissed(s) &&
             Scans(s) && Forks(s)
    requires s'.procs == s.procs && s'.wait == s.wait && s'.init == s.init && Pids(s')
    ensures Inv(s')
  {
    hide Pids;
    assert forall c, p :: IsChild(s', c, p) == IsChild(s, c, p);
    forall p | IsProc(p) ensures PlaceOk(s', p, s'.procs[p].pc) {
      assert PlaceOk(s, p, s.procs[p].pc);
    }
    forall c, p | ZombieOf(s', c, p) && Committed(s'.procs[p]) ensures Excused(s', p) {
      assert ZombieOf(s, c, p);
    }
  }

  lemma NotTarget(s: State, c: int)
    requires Inv(s) && IsProc(c) && s.procs[c].state != Used
    ensures forall p :: IsProc(p) ==> ForkTarget(s.procs[p].pc) != c
  {
  }

  lemma OnlyTarget(s: State, p: int)
    requires Inv(s) && IsProc(p) && ForkTarget(s.procs[p].pc) != NOBODY
    ensures var np := ForkTarget(s.procs[p].pc);
            && IsProc(np) && s.procs[np].state == Used && np != p
            && (forall r :: IsProc(r) && r != p ==> ForkTarget(s.procs[r].pc) != np)
            && (s.procs[p].pc.ForkAcquire? ==> s.procs[np].parent == NOBODY)
  {
    Entry(s, p);
  }

  lemma ForkAcquireKeeps(s: State, p: int)
    requires Inv(s) && IsProc(p) && s.procs[p].pc.ForkAcquire? && s.procs[p].pc.np != NOBODY && s.wait == NOBODY
    ensures var np := s.procs[p].pc.np;
            IsProc(np) && np != p &&
            Inv(Change(Solo(s, p, s.procs[p].(pc := ForkRelease(np)), p), np, s.procs[np].(parent := p)))
  {
    hide Entries, WaitOk, Forks, Pids, NoneMissed, Scans, InitLives;
    var np := s.procs[p].pc.np;
    Entry(s, p);
    OnlyTarget(s, p);
    Entry(s, np);
    Moves(s, p, s.procs[p].(pc := ForkRelease(np)), p);
    var s1 := Solo(s, p, s.procs[p].(pc := ForkRelease(np)), p);
    SlotKeeps(s1, np, s.procs[np].(parent := p));
  }

  lemma ForkReleaseKeeps(s: State, p: int)
    requires Inv(s) && IsProc(p) && s.procs[p].pc.ForkRelease?
    ensures Inv(Solo(s, p, s.procs[p].(pc := ForkReady(s.procs[p].pc.np)), NOBODY))
  {
    hide Entries, WaitOk, Forks, Pids, NoneMissed, Scans, InitLives;
    Entry(s, p);
    Moves(s, p, s.procs[p].(pc := ForkReady(s.procs[p].pc.np)), NOBODY);
  }

  /** The new process starts, or its slot is given back. */
  lemma ForkEndKeeps(s: State, p: int)
    requires Inv(s) && IsProc(p) && ForkTarget(s.procs[p].pc) != NOBODY && !s.procs[p].pc.ForkRelease?
    ensures var np, s1 := ForkTarget(s.procs[p].pc), Solo(s, p, s.procs[p].(pc := User), s.wait);
            && IsProc(np) && np != p
            && Inv(Change(s1, np, s.procs[np].(state := Runnable, pc := User)))
            && (s.procs[p].pc.ForkAcquire? ==> Inv(Change(s1, np, FreeSlot())))
  {
    hide Entries, WaitOk, Forks, Pids, NoneMissed, Scans, InitLives;
    var np, s1 := ForkTarget(s.procs[p].pc), Solo(s, p, s.procs[p].(pc := User), s.wait);
    Entry(s, p);
    OnlyTarget(s, p);
    Entry(s, np);
    Moves(s, p, s.procs[p].(pc := User), s.wait);
    assert forall r :: IsProc(r) ==> ForkTarget(s1.procs[r].pc) != np;
    SlotKeeps(s1, np, s.procs[np].(state := Runnable, pc := User));
    if s.procs[p].pc.ForkAcquire? {
      SlotKeeps(s1, np, FreeSlot());
    }
  }

  /** A zombie is reaped by the process that is its parent at the time. */
  lemma ReapKeeps(s: State, p: int, i: int)
    requires Inv(s) && IsProc(p) && s.procs[p].pc.WaitCheck? && s.procs[p].pc.i == i && IsProc(i)
    requires s.procs[i].state == Zombie && !OwnLock(s.procs[i].pc)
    ensures p != i && s.procs[i].parent == p
    ensures Inv(Change(Solo(s, p, s.procs[p].(pc := User), NOBODY), i, FreeSlot())
                .(reaped := s.reaped + [Reap(s.procs[i].pid, i, p)]))
  {
    hide Entries, WaitOk, Forks, Pids, NoneMissed, Scans, InitLives;
    var s1 := Solo(s, p, s.procs[p].(pc := User), NOBODY);
    WaitReturnKeeps(s, p);
    Entry(s, p);
    Entry(s, i);
    Entry(s1, i);
    NotTarget(s1, i);
    var s2 := Change(s1, i, FreeSlot());
    ReapPids(s1, p, i);
    SlotBasics(s1, i, FreeSlot());
    SlotScans(s1, i, FreeSlot());
    SlotForks(s1, i, FreeSlot());
    SameView(s2, s2.(reaped := s.reaped + [Reap(s.procs[i].pid, i, p)]));
  }

  // ----- All steps -----

  lemma WaitKeeps(s: State, p: int, choice: bool)
    requires Inv(s) && IsProc(p) && StepEnabled(s, p)
    requires var pc := s.procs[p].pc;
             pc.WaitAcquire? || pc.WaitScan? || pc.WaitCheck? || pc.WaitLocked? || pc.WaitReleased? ||
             pc.WaitSwitch? || pc.WaitWoken?
    ensures Inv(Advance(s, p, choice))
  {
    hide Inv;
    Sized(s);
    Entry(s, p);
    hide EntryOk, PlaceOk;
    var pc := s.procs[p].pc;
    match pc {
      case WaitAcquire => WaitAcquireKeeps(s, p);
      case WaitScan(i, kids) =>
        if IsProc(i) {
          WaitScanKeeps(s, p, if s.procs[i].parent == p then WaitCheck(i, kids) else WaitScan(i + 1, kids));
        } else if !kids || choice {
          WaitReturnKeeps(s, p);
        } else {
          WaitScanKeeps(s, p, WaitLocked);
        }
      case WaitCheck(i, kids) =>
        if s.procs[i].state != Zombie {
          WaitCheckKeeps(s, p);
        } else if choice {
          WaitReturnKeeps(s, p);
        } else {
          ReapKeeps(s, p, i);
          assert s.procs[p := s.procs[p].(pc := User)][i := FreeSlot()] ==
                 s.procs[i := FreeSlot()][p := s.procs[p].(pc := User)];
        }
      case WaitLocked => WaitLockedKeeps(s, p);
      case _ => WaitSleepKeeps(s, p);
    }
  }

  lemma Sized(s: State)
    requires Inv(s)
    ensures |s.procs| == NPROC && IsProc(s.init)
  {
  }

  lemma ExitKeeps(s: State, p: int, choice: bool)
    requires Inv(s) && IsProc(p) && StepEnabled(s, p) && Exiting(s.procs[p].pc)
    ensures Inv(Advance(s, p, choice))
  {
    hide Inv;
    Sized(s);
    Entry(s, p);
    hide EntryOk, PlaceOk;
    var q := s.procs[p];
    match q.pc {
      case ExitAcquire => ExitMoves(s, p, ExitScan(0));
      case ExitScan(i) =>
        if !IsProc(i) {
          ExitMoves(s, p, ExitWakeParent(0));
        } else if s.procs[i].parent == p {
          ReparentKeeps(s, p, i);
        } else {
          ExitMoves(s, p, ExitScan(i + 1));
        }
      case ExitWakeInit(i, k) =>
        if !IsProc(k) {
          ExitMoves(s, p, ExitScan(i + 1));
        } else {
          WakeThenMove(s, p, k, s.init, ExitWakeInit(i, k + 1));
        }
      case ExitWakeParent(k) =>
        if !IsProc(k) {
          ExitMoves(s, p, ExitLock);
        } else {
          WakeThenMove(s, p, k, q.parent, ExitWakeParent(k + 1));
        }
      case ExitLock => ExitMoves(s, p, ExitMark);
      case _ => ExitLastKeeps(s, p);
    }
  }

  /** One round of a wakeup loop: process k is woken if it sleeps on the channel. */
  lemma WakeThenMove(s: State, p: int, k: int, chan: int, pc: Pc)
    requires Inv(s) && IsProc(p) && IsProc(k) && s.wait == p && (k == p || !OwnLock(s.procs[k].pc))
    requires var at := s.procs[p].pc;
             || (at.ExitWakeInit? && at.k == k && chan == s.init && pc == ExitWakeInit(at.i, k + 1))
             || (at.ExitWakeParent? && at.k == k && chan == s.procs[p].parent && pc == ExitWakeParent(k + 1))
    ensures Inv(Goto(if k == p then s else Change(s, k, Woken(s.procs[k], chan)), p, pc))
  {
    hide Entries, WaitOk, Forks, Pids, NoneMissed, Scans, InitLives, PlaceOk;
    Entry(s, p);
    if k == p {
      ExitMoves(s, p, pc);
    } else {
      WakeKeeps(s, k, chan);
      var s1 := Solo(s, k, Woken(s.procs[k], chan), s.wait);
      ExitMoves(s1, p, pc);
    }
  }

  lemma ForkKeeps(s: State, p: int, choice: bool)
    requires Inv(s) && IsProc(p) && StepEnabled(s, p)
    requires s.procs[p].pc.ForkAcquire? || s.procs[p].pc.ForkRelease? || s.procs[p].pc.ForkReady?
    ensures Inv(Advance(s, p, choice))
  {
    hide Inv;
    Sized(s);
    Entry(s, p);
    hide EntryOk, PlaceOk;
    match s.procs[p].pc {
      case ForkAcquire(np) =>
        if np != NOBODY {
          ForkAcquireKeeps(s, p);
          assert s.procs[p := s.procs[p].(pc := ForkRelease(np))][np := s.procs[np].(parent := p)]
              == s.procs[np := s.procs[np].(parent := p)][p := s.procs[p].(pc := ForkRelease(np))];
        }
      case ForkRelease(np) => ForkReleaseKeeps(s, p);
      case ForkReady(np) =>
        if np != NOBODY {
          ForkEndKeeps(s, p);
          assert s.procs[p := s.procs[p].(pc := User)][np := s.procs[np].(state := Runnable, pc := User)]
              == s.procs[np := s.procs[np].(state := Runnable, pc := User)][p := s.procs[p].(pc := User)];
        }
    }
  }

  lemma ForkFailsKeeps(s: State, p: int)
    requires Inv(s) && IsProc(p) && s.procs[p].pc.ForkAcquire?
    ensures Inv(Next(s, ForkFails(p)))
  {
    hide Inv;
    Sized(s);
    var np := s.procs[p].pc.np;
    if np != NOBODY {
      ForkEndKeeps(s, p);
      assert s.procs[p := s.procs[p].(pc := User)][np := FreeSlot()] ==
             s.procs[np := FreeSlot()][p := s.procs[p].(pc := User)];
    }
  }

  /** Steps outside the protocol */
  lemma OtherKeeps(s: State, l: Label)
    requires Inv(s) && Enabled(s, l) && (l.Begin? || l.Doze? || l.Rouse? || l.Kill? || l.Schedule?)
    ensures Inv(Next(s, l))
  {
    hide Entries, WaitOk, Forks, Pids, NoneMissed, Scans, InitLives;
    var q := s.procs[l.p];
    Entry(s, l.p);
    match l {
      case Begin(p, exits) => Moves(s, p, q.(pc := if exits then ExitAcquire else WaitAcquire), s.wait);
      case Doze(p, chan) => Moves(s, p, q.(state := Sleeping, chan := chan, pc := Nap), s.wait);
      case Rouse(p) => Moves(s, p, q.(state := Runnable, chan := NOBODY, pc := User), s.wait);
      case Kill(p) => WakeKeeps(s, p, q.chan);
      case Schedule(p) => WaitSleepKeeps(s, p);
    }
  }

  lemma StepKeeps(s: State, l: Label)
    requires Inv(s) && |s.procs| == NPROC && Enabled(s, l)
    ensures Inv(Next(s, l))
  {
    hide Inv, Advance;
    Sized(s);
    match l {
      case Allocate(p, np) => AllocateKeeps(s, p, np);
      case ForkFails(p) => ForkFailsKeeps(s, p);
      case Step(p, choice) =>
        var pc := s.procs[p].pc;
        if Exiting(pc) {
          ExitKeeps(s, p, choice);
        } else if pc.ForkAcquire? || pc.ForkRelease? || pc.ForkReady? {
          ForkKeeps(s, p, choice);
        } else {
          WaitKeeps(s, p, choice);
        }
      case _ => OtherKeeps(s, l);
    }
  }

  lemma InitialInv(s: State)
    requires Initial(s)
    ensures Inv(s)
  {
    hide PlaceOk;
    forall p | IsProc(p) ensures PlaceOk(s, p, s.procs[p].pc) {
      InitialPlace(s, p);
    }
  }

  lemma InitialPlace(s: State, p: int)
    requires Initial(s) && IsProc(p)
    ensures PlaceOk(s, p, s.procs[p].pc)
  {
    assert forall c :: IsProc(c) ==> s.procs[c].parent == NOBODY;
  }

  lemma {:induction false} EveryRun(s0: State, ls: seq<Label>, s: State)
    requires Initial(s0) && Run(s0, ls, s)
    ensures Inv(s)
    decreases |ls|
  {
    hide Inv, Next, Enabled;
    if ls == [] {
      InitialInv(s0);
    } else {
      var before, l := ls[..|ls| - 1], ls[|ls| - 1];
      var r :| Run(s0, before, r) && |r.procs| == NPROC && Enabled(r, l) && s == Next(r, l);
      EveryRun(s0, before, r);
      StepKeeps(r, l);
    }
  }

  // ----- What the invariant says -----

  /** Whenever wait_lock is free, no process sleeps in kwait, or is about to, while it has a
      zombie child. */
  lemma NoMissedZombie(s0: State, ls: seq<Label>, s: State, p: int, c: int)
    requires Initial(s0) && Run(s0, ls, s) && |s.procs| == NPROC && s.wait == NOBODY
    requires ZombieOf(s, c, p)
    ensures !Committed(s.procs[p])
  {
    EveryRun(s0, ls, s);
  }

  /** No process is reaped twice. */
  lemma ReapedOnce(s0: State, ls: seq<Label>, s: State, i: nat, j: nat)
    requires Initial(s0) && Run(s0, ls, s) && i < j < |s.reaped|
    ensures s.reaped[i].pid != s.reaped[j].pid
  {
    EveryRun(s0, ls, s);
  }

  /** What is reaped is a zombie, by the process that is its parent at that moment. */
  lemma ReapedByParent(s0: State, ls: seq<Label>, s: State, p: int, choice: bool)
    requires Initial(s0) && Run(s0, ls, s) && |s.procs| == NPROC && Enabled(s, Step(p, choice))
    requires Advance(s, p, choice).reaped != s.reaped
    ensures exists c ::
              ZombieOf(s, c, p) && s.procs[c].pc.Dead? &&
              Advance(s, p, choice).reaped == s.reaped + [Reap(s.procs[c].pid, c, p)]
  {
    hide Inv;
    EveryRun(s0, ls, s);
    ReapsAt(s, p, choice);
    hide Advance, Run, Initial, EntryOk, PlaceOk;
    var c := s.procs[p].pc.i;
    ReapKeeps(s, p, c);
    Dying(s, c);
    assert ZombieOf(s, c, p);
  }

  lemma Dying(s: State, c: int)
    requires Inv(s) && IsProc(c) && s.procs[c].state == Zombie && !OwnLock(s.procs[c].pc)
    ensures s.procs[c].pc.Dead?
  {
    Entry(s, c);
  }

  lemma ReapsAt(s: State, p: int, choice: bool)
    requires |s.procs| == NPROC && IsProc(p) && StepEnabled(s, p) && Advance(s, p, choice).reaped != s.reaped
    ensures s.procs[p].pc.WaitCheck?
    ensures var c := s.procs[p].pc.i;
            && IsProc(c) && !OwnLock(s.procs[c].pc) && s.procs[c].state == Zombie
            && Advance(s, p, choice).reaped == s.reaped + [Reap(s.procs[c].pid, c, p)]
  {
  }

  /** The parent of a process is never a free slot or an exited process. */
  lemma ParentsLive(s0: State, ls: seq<Label>, s: State, c: int)
    requires Initial(s0) && Run(s0, ls, s) && |s.procs| == NPROC && IsProc(c) && s.procs[c].parent != NOBODY
    ensures IsProc(s.procs[c].parent) && s.procs[s.procs[c].parent].state !in {Unused, Used, Zombie}
  {
    EveryRun(s0, ls, s);
    Entry(s, c);
    var p := s.procs[c].parent;
    Entry(s, p);
    assert IsChild(s, c, p);
  }

  /** kwait reports that there are no children only when there are none. */
  lemma NoChildrenIsTrue(s0: State, ls: seq<Label>, s: State, p: int, c: int)
    requires Initial(s0) && Run(s0, ls, s) && |s.procs| == NPROC && IsProc(p) && s.procs[p].pc == WaitScan(NPROC, false)
    ensures !IsChild(s, c, p)
  {
    EveryRun(s0, ls, s);
    Entry(s, p);
  }
}
