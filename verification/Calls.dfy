/**
 What the calls of the exit/wait protocol do when nobody comes in between: the small steps of one
 process add up to the sequential meaning of `kfork`, `kwait` and `kexit`.
 */
module Calls {
  import opened Params
  import opened WaitExit
  import opened Family

  /** n steps of process p, or fewer if it can take no more; it is not killed, and copyout works. */
  ghost function Alone(s: State, p: int, n: nat): (r: State)
    requires |s.procs| == NPROC && IsProc(p)
    ensures |r.procs| == NPROC
    decreases n
  {
    if n == 0 || !StepEnabled(s, p) then s else Alone(Advance(s, p, false), p, n - 1)
  }

  /** Process p, left alone in state s, gets to state t. */
  ghost predicate Leads(s: State, p: int, t: State)
    requires |s.procs| == NPROC && IsProc(p)
  {
    exists n: nat :: Alone(s, p, n) == t
  }

  lemma Stays(s: State, p: int)
    requires |s.procs| == NPROC && IsProc(p)
    ensures Leads(s, p, s)
  {
    assert Alone(s, p, 0) == s;
  }

  lemma OneStep(s: State, p: int, t: State)
    requires |s.procs| == NPROC && IsProc(p) && StepEnabled(s, p) && |Advance(s, p, false).procs| == NPROC
    requires Leads(Advance(s, p, false), p, t)
    ensures Leads(s, p, t)
  {
    hide StepEnabled, Advance;
    var n: nat :| Alone(Advance(s, p, false), p, n) == t;
    assert Alone(s, p, n + 1) == t;
  }

  lemma {:induction false} AloneAdds(s: State, p: int, n: nat, m: nat)
    requires |s.procs| == NPROC && IsProc(p)
    ensures Alone(s, p, n + m) == Alone(Alone(s, p, n), p, m)
    decreases n
  {
    hide StepEnabled, Advance;
    if n > 0 && StepEnabled(s, p) {
      SameSize(s, p);
      AloneAdds(Advance(s, p, false), p, n - 1, m);
    }
  }

  lemma SameSize(s: State, p: int)
    requires |s.procs| == NPROC && IsProc(p) && StepEnabled(s, p)
    ensures |Advance(s, p, false).procs| == NPROC
  {
  }

  /** Steps taken alone are steps of the protocol. */
  lemma {:induction false} AloneIsRun(s0: State, ls: seq<Label>, s: State, p: int, n: nat) returns (more: seq<Label>)
    requires Run(s0, ls, s) && |s.procs| == NPROC && IsProc(p)
    ensures Run(s0, ls + more, Alone(s, p, n)) && forall i :: 0 <= i < |more| ==> more[i] == Step(p, false)
    decreases n
  {
    hide StepEnabled, Advance;
    if n == 0 || !StepEnabled(s, p) {
      more := [];
      assert ls + [] == ls;
    } else {
      SameSize(s, p);
      assert (ls + [Step(p, false)])[..|ls|] == ls;
      var rest := AloneIsRun(s0, ls + [Step(p, false)], Advance(s, p, false), p, n - 1);
      more := [Step(p, false)] + rest;
      assert ls + more == ls + [Step(p, false)] + rest;
    }
  }

  lemma Onward(s: State, p: int, t: State, u: State)
    requires |s.procs| == NPROC && IsProc(p) && |t.procs| == NPROC && Leads(s, p, t) && Leads(t, p, u)
    ensures Leads(s, p, u)
  {
    hide Alone;
    var n: nat :| Alone(s, p, n) == t;
    var m: nat :| Alone(t, p, m) == u;
    AloneAdds(s, p, n, m);
  }

  // ----- kfork -----

  /** A fork that does not fail leaves a runnable child of the caller's, and wait_lock free. */
  lemma ForkAlone(s: State, p: int, np: int)
    requires |s.procs| == NPROC && IsProc(p) && IsProc(np) && np != p && s.wait == NOBODY
    requires s.procs[p].pc == ForkAcquire(np)
    ensures Leads(s, p, s.(procs := s.procs[np := s.procs[np].(parent := p, state := Runnable, pc := User)]
                                           [p := s.procs[p].(pc := User)]))
  {
    hide Leads;
    var s1 := Advance(s, p, false);
    var s2 := Advance(s1, p, false);
    var s3 := Advance(s2, p, false);
    Stays(s3, p);
    OneStep(s2, p, s3);
    OneStep(s1, p, s3);
    OneStep(s, p, s3);
    assert s3.procs == s.procs[np := s.procs[np].(parent := p, state := Runnable, pc := User)]
                              [p := s.procs[p].(pc := User)];
  }

  // ----- kwait -----

  /** Whether the scan can take the lock of whatever child it finds from i on */
  ghost predicate Unlocked(s: State, p: int, i: int)
    requires |s.procs| == NPROC
  {
    forall d :: IsChild(s, d, p) && i <= d ==> !OwnLock(s.procs[d].pc)
  }

  /** The state after process p, with c its zombie child, has reaped c */
  function AfterReap(s: State, p: int, c: int): State
    requires |s.procs| == NPROC && IsProc(p) && IsProc(c)
  {
    s.(procs := s.procs[c := Proc(Unused, NOBODY, NOBODY, 0, Idle)][p := s.procs[p].(pc := User)], wait := NOBODY,
       reaped := s.reaped + [Reap(s.procs[c].pid, c, p)])
  }

  function AfterSleep(s: State, p: int): State
    requires |s.procs| == NPROC && IsProc(p)
  {
    s.(procs := s.procs[p := s.procs[p].(state := Sleeping, chan := p, pc := WaitAsleep)], wait := NOBODY)
  }

  function AfterReturn(s: State, p: int): State
    requires |s.procs| == NPROC && IsProc(p)
  {
    s.(procs := s.procs[p := s.procs[p].(pc := User)], wait := NOBODY)
  }

  /** Only the position of p differs. */
  ghost predicate SameBut(s: State, s': State, p: int)
    requires |s.procs| == NPROC && IsProc(p)
  {
    && |s'.procs| == NPROC && s'.init == s.init && s'.nextpid == s.nextpid && s'.reaped == s.reaped
    && (forall d :: IsProc(d) && d != p ==> s'.procs[d] == s.procs[d])
    && s'.procs[p] == s.procs[p].(pc := s'.procs[p].pc)
  }

  lemma SameEnds(s: State, s': State, p: int, c: int)
    requires |s.procs| == NPROC && IsProc(p) && SameBut(s, s', p)
    ensures AfterReturn(s', p) == AfterReturn(s, p) && AfterSleep(s', p) == AfterSleep(s, p)
    ensures IsProc(c) && c != p ==> AfterReap(s', p, c) == AfterReap(s, p, c)
  {
    assert AfterReturn(s', p).procs == AfterReturn(s, p).procs;
    assert AfterSleep(s', p).procs == AfterSleep(s, p).procs;
    if IsProc(c) && c != p {
      assert AfterReap(s', p, c).procs == AfterReap(s, p, c).procs;
    }
  }

  /** One entry of the scan that is not a zombie child */
  lemma PassBy(s: State, p: int, i: int, kids: bool) returns (s': State)
    requires |s.procs| == NPROC && IsProc(p) && s.procs[p].pc == WaitScan(i, kids) && IsProc(i)
    requires !ZombieOf(s, i, p) && (IsChild(s, i, p) ==> !OwnLock(s.procs[i].pc))
    ensures SameBut(s, s', p) && s'.procs[p].pc == WaitScan(i + 1, kids || IsChild(s, i, p)) && s'.wait == s.wait
    ensures Leads(s, p, s')
  {
    hide Leads;
    var s1 := Advance(s, p, false);
    if IsChild(s, i, p) {
      s' := Advance(s1, p, false);
      Stays(s', p);
      OneStep(s1, p, s');
      OneStep(s, p, s');
    } else {
      s' := s1;
      Stays(s', p);
      OneStep(s, p, s');
    }
  }

  /** The scan gets to the first zombie child, and reaps it. */
  lemma {:induction false} ScanReaps(s: State, p: int, i: int, kids: bool, c: int)
    requires |s.procs| == NPROC && IsProc(p) && s.procs[p].pc == WaitScan(i, kids)
    requires 0 <= i <= c && ZombieOf(s, c, p) && c != p && Unlocked(s, p, i)
    requires forall d :: i <= d < c ==> !ZombieOf(s, d, p)
    ensures Leads(s, p, AfterReap(s, p, c))
    decreases c - i
  {
    hide Leads, OwnLock;
    if i == c {
      var s1 := Advance(s, p, false);
      var s2 := Advance(s1, p, false);
      assert IsChild(s, c, p);
      Stays(s2, p);
      OneStep(s1, p, s2);
      OneStep(s, p, s2);
      assert s2.procs == AfterReap(s, p, c).procs;
    } else {
      var s1 := PassBy(s, p, i, kids);
      SameEnds(s, s1, p, c);
      ScanIsUnlocked(s1, p);
      SameUnlocked(s, s1, p, i);
      ScanReaps(s1, p, i + 1, kids || IsChild(s, i, p), c);
      Onward(s, p, s1, AfterReap(s, p, c));
    }
  }

  lemma SameUnlocked(s: State, s': State, p: int, i: int)
    requires |s.procs| == NPROC && IsProc(p) && SameBut(s, s', p) && Unlocked(s, p, i) && !OwnLock(s'.procs[p].pc)
    ensures Unlocked(s', p, i + 1)
    ensures forall d :: ZombieOf(s', d, p) == ZombieOf(s, d, p) && IsChild(s', d, p) == IsChild(s, d, p)
  {
    forall d | IsChild(s', d, p) && i + 1 <= d ensures !OwnLock(s'.procs[d].pc) {
      assert IsChild(s, d, p);
    }
  }

  /** With no zombie child ahead, the scan ends: back to the caller if no child was seen at all, asleep
      on the caller's own channel otherwise. */
  lemma {:induction false} ScanEnds(s: State, p: int, i: int, kids: bool)
    requires |s.procs| == NPROC && IsProc(p) && s.procs[p].pc == WaitScan(i, kids)
    requires 0 <= i <= NPROC && Unlocked(s, p, i) && forall d :: i <= d ==> !ZombieOf(s, d, p)
    ensures Leads(s, p, if kids || exists d :: IsChild(s, d, p) && i <= d then AfterSleep(s, p) else AfterReturn(s, p))
    decreases NPROC - i
  {
    hide Leads, OwnLock;
    if i == NPROC {
      ScanIsOver(s, p, kids);
    } else {
      var s1 := PassBy(s, p, i, kids);
      SameEnds(s, s1, p, NOBODY);
      ScanIsUnlocked(s1, p);
      SameUnlocked(s, s1, p, i);
      ScanEnds(s1, p, i + 1, kids || IsChild(s, i, p));
      assert (exists d :: IsChild(s1, d, p) && i + 1 <= d) || IsChild(s, i, p) <==>
             exists d :: IsChild(s, d, p) && i <= d;
      Onward(s, p, s1, if kids || exists d :: IsChild(s, d, p) && i <= d then AfterSleep(s, p) else AfterReturn(s, p));
    }
  }

  lemma ScanIsOver(s: State, p: int, kids: bool)
    requires |s.procs| == NPROC && IsProc(p) && s.procs[p].pc == WaitScan(NPROC, kids)
    ensures Leads(s, p, if kids then AfterSleep(s, p) else AfterReturn(s, p))
  {
    hide Leads;
    var s1 := Advance(s, p, false);
    if kids {
      var s2 := Advance(s1, p, false);
      var s3 := Advance(s2, p, false);
      var s4 := Advance(s3, p, false);
      Stays(s4, p);
      OneStep(s3, p, s4);
      OneStep(s2, p, s4);
      OneStep(s1, p, s4);
      OneStep(s, p, s4);
      assert s4.procs == AfterSleep(s, p).procs;
    } else {
      Stays(s1, p);
      OneStep(s, p, s1);
    }
  }

  /** `kwait`, left alone, reaps the zombie child with the lowest index if there is one; sleeps if there
      are children but no zombie; and returns with nothing changed if there are no children. */
  lemma WaitAlone(s: State, p: int)
    requires |s.procs| == NPROC && IsProc(p) && s.procs[p].pc == WaitAcquire && s.procs[p].state != Zombie
    requires s.wait == NOBODY && forall k :: IsProc(k) ==> !OwnLock(s.procs[k].pc)
    ensures forall c :: ZombieOf(s, c, p) && (forall d :: 0 <= d < c ==> !ZombieOf(s, d, p)) ==>
                          Leads(s, p, AfterReap(s, p, c))
    ensures (forall c :: !ZombieOf(s, c, p)) ==>
              Leads(s, p, if exists c :: IsChild(s, c, p) then AfterSleep(s, p) else AfterReturn(s, p))
  {
    hide Leads, OwnLock;
    var s1 := Advance(s, p, false);
    assert SameBut(s, s1, p);
    assert Unlocked(s, p, -1);
    ScanIsUnlocked(s1, p);
    SameUnlocked(s, s1, p, -1);
    forall c | ZombieOf(s, c, p) && forall d :: 0 <= d < c ==> !ZombieOf(s, d, p)
      ensures Leads(s, p, AfterReap(s, p, c))
    {
      SameEnds(s, s1, p, c);
      ScanReaps(s1, p, 0, false, c);
      OneStep(s, p, AfterReap(s, p, c));
    }
    if forall c :: !ZombieOf(s, c, p) {
      SameEnds(s, s1, p, NOBODY);
      ScanEnds(s1, p, 0, false);
      assert (exists d :: IsChild(s1, d, p) && 0 <= d) <==> exists c :: IsChild(s, c, p);
      OneStep(s, p, if exists c :: IsChild(s, c, p) then AfterSleep(s, p) else AfterReturn(s, p));
    }
  }

  lemma ScanIsUnlocked(s: State, p: int)
    requires |s.procs| == NPROC && IsProc(p) && s.procs[p].pc.WaitScan?
    ensures !OwnLock(s.procs[p].pc)
  {
  }

  // ----- kexit -----

  /** The locks that a process's wakeups take are free. */
  predicate Calm(procs: seq<Proc>, p: int) {
    |procs| == NPROC && forall k :: 0 <= k < NPROC && k != p ==> !OwnLock(procs[k].pc)
  }

  /** The entries from k on woken if they sleep on the channel, except p's own */
  function WokenFrom(procs: seq<Proc>, p: int, k: int, chan: int): seq<Proc> {
    seq(|procs|, j requires 0 <= j < |procs| =>
      if j >= k && j != p && procs[j].state == Sleeping && procs[j].chan == chan then procs[j].(state := Runnable)
      else procs[j])
  }

  lemma {:induction false} WakeInitLeads(s: State, p: int, i: int, k: int)
    requires IsProc(p) && Calm(s.procs, p) && s.procs[p].pc == ExitWakeInit(i, k) && 0 <= k <= NPROC
    ensures Leads(s, p, s.(procs := WokenFrom(s.procs, p, k, s.init)[p := s.procs[p].(pc := ExitScan(i + 1))]))
    decreases NPROC - k
  {
    hide Leads, OwnLock;
    var t := s.(procs := WokenFrom(s.procs, p, k, s.init)[p := s.procs[p].(pc := ExitScan(i + 1))]);
    var s1 := Advance(s, p, false);
    if k == NPROC {
      assert s1.procs == t.procs;
      Stays(s1, p);
    } else {
      WakeInitLeads(s1, p, i, k + 1);
      assert WokenFrom(s1.procs, p, k + 1, s.init)[p := s1.procs[p].(pc := ExitScan(i + 1))] == t.procs;
    }
    OneStep(s, p, t);
  }

  lemma {:induction false} WakeParentLeads(s: State, p: int, k: int)
    requires IsProc(p) && Calm(s.procs, p) && s.procs[p].pc == ExitWakeParent(k) && 0 <= k <= NPROC
    ensures Leads(s, p, s.(procs := WokenFrom(s.procs, p, k, s.procs[p].parent)[p := s.procs[p].(pc := ExitLock)]))
    decreases NPROC - k
  {
    hide Leads, OwnLock;
    var t := s.(procs := WokenFrom(s.procs, p, k, s.procs[p].parent)[p := s.procs[p].(pc := ExitLock)]);
    var s1 := Advance(s, p, false);
    if k == NPROC {
      assert s1.procs == t.procs;
      Stays(s1, p);
    } else {
      WakeParentLeads(s1, p, k + 1);
      assert WokenFrom(s1.procs, p, k + 1, s.procs[p].parent)[p := s1.procs[p].(pc := ExitLock)] == t.procs;
    }
    OneStep(s, p, t);
  }

  ghost predicate HasChild(procs: seq<Proc>, p: int, i: int) {
    exists c :: 0 <= c < |procs| && i <= c && procs[c].parent == p
  }

  /** Entry j once p's children from i on are given to init, and init is woken if there are any */
  ghost function GivenAt(procs: seq<Proc>, p: int, i: int, init: int, j: int): Proc
    requires 0 <= j < |procs|
  {
    var q := procs[j];
    var q1 := if HasChild(procs, p, i) && q.state == Sleeping && q.chan == init then q.(state := Runnable) else q;
    if j >= i && q.parent == p then q1.(parent := init) else q1
  }

  ghost function Given(procs: seq<Proc>, p: int, i: int, init: int, pc: Pc): seq<Proc>
  {
    seq(|procs|, j requires 0 <= j < |procs| =>
      if j == p then procs[j].(pc := pc) else GivenAt(procs, p, i, init, j))
  }

  /** Giving one child away, waking init, and then giving away the rest */
  lemma GiveFirst(procs: seq<Proc>, p: int, i: int, init: int, procs': seq<Proc>)
    requires 0 <= i < |procs| && 0 <= p < |procs| && i != p && init != p && procs[i].parent == p && procs[p].parent != p
    requires |procs'| == |procs| && procs'[p] == procs[p].(pc := procs'[p].pc)
    requires forall j :: 0 <= j < |procs| && j != p ==>
               var q := if j == i then procs[j].(parent := init) else procs[j];
               procs'[j] == if q.state == Sleeping && q.chan == init then q.(state := Runnable) else q
    ensures Given(procs', p, i + 1, init, ExitWakeParent(0)) == Given(procs, p, i, init, ExitWakeParent(0))
  {
    assert HasChild(procs, p, i);
    forall j | 0 <= j < |procs| && j != p ensures GivenAt(procs', p, i + 1, init, j) == GivenAt(procs, p, i, init, j) {
    }
  }

  lemma PassNonChild(procs: seq<Proc>, p: int, i: int, init: int, procs': seq<Proc>)
    requires 0 <= i < |procs| && 0 <= p < |procs| && procs[i].parent != p && procs[p].parent != p
    requires |procs'| == |procs| && procs'[p] == procs[p].(pc := procs'[p].pc)
    requires forall j :: 0 <= j < |procs| && j != p ==> procs'[j] == procs[j]
    ensures Given(procs', p, i + 1, init, ExitWakeParent(0)) == Given(procs, p, i, init, ExitWakeParent(0))
  {
    assert forall j :: 0 <= j < |procs| ==> procs'[j].parent == procs[j].parent;
    assert HasChild(procs', p, i + 1) == HasChild(procs, p, i) by {
      if c :| 0 <= c < |procs| && i <= c && procs[c].parent == p {
        assert procs'[c].parent == p;
      }
    }
    forall j | 0 <= j < |procs| && j != p ensures GivenAt(procs', p, i + 1, init, j) == GivenAt(procs, p, i, init, j) {
    }
  }

  lemma {:induction false} GiveLeads(s: State, p: int, i: int)
    requires IsProc(p) && Calm(s.procs, p) && s.procs[p].pc == ExitScan(i) && 0 <= i <= NPROC
    requires IsProc(s.init) && s.init != p && s.procs[p].parent != p
    ensures Leads(s, p, s.(procs := Given(s.procs, p, i, s.init, ExitWakeParent(0))))
    decreases NPROC - i
  {
    hide Leads, OwnLock, Given;
    var t := s.(procs := Given(s.procs, p, i, s.init, ExitWakeParent(0)));
    var s1 := Advance(s, p, false);
    if i == NPROC {
      NoneLeft(s, p);
      Stays(s1, p);
      OneStep(s, p, s1);
    } else if s.procs[i].parent == p {
      var s2 := s1.(procs := WokenFrom(s1.procs, p, 0, s.init)[p := s1.procs[p].(pc := ExitScan(i + 1))]);
      GiveFirst(s.procs, p, i, s.init, s2.procs);
      WakeInitLeads(s1, p, i, 0);
      GiveLeads(s2, p, i + 1);
      Onward(s1, p, s2, t);
      OneStep(s, p, t);
    } else {
      PassNonChild(s.procs, p, i, s.init, s1.procs);
      GiveLeads(s1, p, i + 1);
      OneStep(s, p, t);
    }
  }

  lemma NoneLeft(s: State, p: int)
    requires IsProc(p) && |s.procs| == NPROC && s.procs[p].pc == ExitScan(NPROC)
    ensures Given(s.procs, p, NPROC, s.init, ExitWakeParent(0)) == Advance(s, p, false).procs
  {
  }

  /** The entry of process k after process p has exited: p's children are init's, p is a zombie, and
      whoever slept in kwait as p's parent, or as init if p had children, is runnable. */
  ghost function AfterExit(s: State, p: int, k: int): Proc
    requires |s.procs| == NPROC && IsProc(p) && IsProc(k)
  {
    var q := s.procs[k];
    if k == p then q.(state := Zombie, pc := Dead)
    else
      var parent := if q.parent == p then s.init else q.parent;
      var wakes := q.chan == s.procs[p].parent || (q.chan == s.init && HasChild(s.procs, p, 0));
      q.(parent := parent, state := if q.state == Sleeping && wakes then Runnable else q.state)
  }

  lemma WakeThenMark(s: State, p: int)
    requires IsProc(p) && Calm(s.procs, p) && s.procs[p].pc == ExitWakeParent(0)
    ensures Leads(s, p, s.(wait := NOBODY,
                           procs := WokenFrom(s.procs, p, 0, s.procs[p].parent)
                                    [p := s.procs[p].(state := Zombie, pc := Dead)]))
  {
    hide Leads, OwnLock;
    var s1 := s.(procs := WokenFrom(s.procs, p, 0, s.procs[p].parent)[p := s.procs[p].(pc := ExitLock)]);
    var s2 := Advance(s1, p, false);
    var s3 := Advance(s2, p, false);
    var s4 := Advance(s3, p, false);
    var s5 := Advance(s4, p, false);
    WakeParentLeads(s, p, 0);
    Stays(s5, p);
    OneStep(s4, p, s5);
    OneStep(s3, p, s5);
    OneStep(s2, p, s5);
    OneStep(s1, p, s5);
    Onward(s, p, s1, s5);
    assert s5.procs == WokenFrom(s.procs, p, 0, s.procs[p].parent)[p := s.procs[p].(state := Zombie, pc := Dead)];
  }

  /** `kexit`, left alone, does all of that and nothing else. */
  lemma ExitAlone(s: State, p: int)
    requires IsProc(p) && Calm(s.procs, p) && s.procs[p].pc == ExitAcquire && s.wait == NOBODY
    requires IsProc(s.init) && s.init != p && s.procs[p].parent != p
    ensures Leads(s, p, s.(procs := seq(NPROC, k requires 0 <= k < NPROC => AfterExit(s, p, k))))
  {
    hide Leads, OwnLock;
    var t := s.(procs := seq(NPROC, k requires 0 <= k < NPROC => AfterExit(s, p, k)));
    var s1 := Advance(s, p, false);
    var s2 := s1.(procs := Given(s1.procs, p, 0, s.init, ExitWakeParent(0)));
    GiveLeads(s1, p, 0);
    WakeThenMark(s2, p);
    assert HasChild(s1.procs, p, 0) == HasChild(s.procs, p, 0) by {
      assert forall j :: 0 <= j < NPROC ==> s1.procs[j].parent == s.procs[j].parent;
    }
    assert WokenFrom(s2.procs, p, 0, s2.procs[p].parent)[p := s2.procs[p].(state := Zombie, pc := Dead)] == t.procs;
    Onward(s1, p, s2, t);
    OneStep(s, p, t);
  }

  /** In every run: a process that calls kexit while the locks it needs are free can go on, by steps of its
      own alone, to the state where it is a zombie, its children are init's and those it must wake are awake. */
  lemma ExitInRun(s0: State, ls: seq<Label>, s: State, p: int) returns (more: seq<Label>, t: State)
    requires Initial(s0) && Run(s0, ls, s) && IsProc(p) && Calm(s.procs, p) && s.procs[p].pc == ExitAcquire
    requires s.wait == NOBODY
    ensures Run(s0, ls + more, t) && forall i :: 0 <= i < |more| ==> more[i] == Step(p, false)
    ensures |t.procs| == NPROC && t == s.(procs := t.procs) && forall k :: IsProc(k) ==>
              t.procs[k] == AfterExit(s, p, k)
  {
    hide Inv, Run, Calm, AfterExit, Alone;
    EveryRunKin(s0, ls, s);
    Entry(s, p);
    Sized(s);
    t := s.(procs := seq(NPROC, k requires 0 <= k < NPROC => AfterExit(s, p, k)));
    ExitAlone(s, p);
    var n: nat :| Alone(s, p, n) == t;
    more := AloneIsRun(s0, ls, s, p, n);
  }

  /** And one that calls kwait and has a zombie child can go on to reap one. */
  lemma WaitInRun(s0: State, ls: seq<Label>, s: State, p: int, c: int) returns (more: seq<Label>, t: State)
    requires Initial(s0) && Run(s0, ls, s) && |s.procs| == NPROC && IsProc(p) && s.procs[p].pc == WaitAcquire
    requires s.wait == NOBODY && (forall k :: IsProc(k) ==> !OwnLock(s.procs[k].pc)) && ZombieOf(s, c, p)
    ensures Run(s0, ls + more, t) && forall i :: 0 <= i < |more| ==> more[i] == Step(p, false)
    ensures exists d :: ZombieOf(s, d, p) && d <= c && t == AfterReap(s, p, d)
  {
    hide Inv, Run, Alone;
    EveryRun(s0, ls, s);
    Entry(s, p);
    var d := FirstZombie(s, p, c);
    t := AfterReap(s, p, d);
    WaitAlone(s, p);
    assert Leads(s, p, t);
    var n: nat :| Alone(s, p, n) == t;
    more := AloneIsRun(s0, ls, s, p, n);
  }

  lemma {:induction false} FirstZombie(s: State, p: int, c: int) returns (d: int)
    requires |s.procs| == NPROC && ZombieOf(s, c, p)
    ensures ZombieOf(s, d, p) && d <= c && forall e :: 0 <= e < d ==> !ZombieOf(s, e, p)
    decreases c
  {
    if e :| 0 <= e < c && ZombieOf(s, e, p) {
      d := FirstZombie(s, p, e);
    } else {
      d := c;
    }
  }
}
