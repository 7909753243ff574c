/**
  Runs of the process table: any sequence of system calls, each by whoever is current, with
  idleproc only ever yielding (cpu_idle, lab5/cow/proc.c:924-931).  Every step is one of
  ProcMachine.
 */
module ProcRun {
  import opened Family
  import opened Lifecycle
  import opened Pids
  import opened Procs
  import opened ProcMachine

  // ---- the table as a value ----

  ghost function Zombies(all: set<Proc>): map<Proc, int>
    reads all
  {
    map p | p in all && p.state == Zombie :: p.exitCode
  }

  ghost function MarkedOnes(all: set<Proc>): set<Proc>
    reads all
  {
    set p | p in all && p.exiting
  }

  ghost function NumbersOf(t: ProcTable): Numbers
    reads t, t.All()
  {
    Numbers(t.All(), Zombies(t.All()), MarkedOnes(t.All()))
  }

  ghost function SnapOf(t: ProcTable): Snap
    reads t, t.All(), t.alloc
  {
    Snap(t.idle, t.boss, t.current, t.procList, t.kids, LivesOf(t.All()), NumbersOf(t), t.alloc.lastPid)
  }

  lemma {:induction false} PidsAgree(list: seq<Proc>, all: set<Proc>)
    requires Members(list) <= all
    ensures PidsIn(list, LivesOf(all)) == PidsOf(list)
  {
    if list != [] {
      assert Members(list[1..]) <= Members(list);
      PidsAgree(list[1..], all);
    }
  }

  lemma ListedFacts(t: ProcTable)
    requires t.Valid()
    ensures t.idle !in t.procList && t.idle.pid == 0 && t.idle.state == Runnable
    ensures t.procList != [] && t.procList[|t.procList| - 1] == t.boss && t.boss.state != Zombie
    ensures Distinct(t.procList) && |t.procList| < MAX_PROCESS && DistinctPids(PidsOf(t.procList))
    ensures t.nrProcess == |t.procList| + 1 && t.current in t.All() && t.current.state == Runnable
    ensures AllSound(LivesOf(t.All()), t.kids)
  {
    hide Hashed, ProcTable.Related, PidsOf;
  }

  /** The parent of a listed process has it as a child and comes later on the list. */
  lemma ParentLater(t: ProcTable, i: nat)
    requires t.Valid() && i < |t.procList|
    ensures var dad := t.procList[i].parent;
            && dad != null && dad in t.kids && t.procList[i] in t.kids[dad]
            && (dad == t.idle || dad in t.procList[i + 1..])
  {
    hide ProcTable.Catalogued, Peaceful, Chain;
    assert t.procList[i] in t.All();
    assert t.procList[i].parent == t.idle || t.procList[i].parent in t.procList[i + 1..];
  }

  lemma KidsAre(t: ProcTable, p: Proc, k: Proc)
    requires t.Valid() && p in t.kids && k in t.kids[p]
    ensures k in t.procList && k.parent == p
  {
    hide ProcTable.Catalogued, Peaceful, Chain;
    t.KidsWithin(p, t.All(), t.kids);
    assert t.idle.parent == null;
    assert k in Members(t.kids[p]);
  }

  lemma TreeFacts(t: ProcTable)
    requires t.Valid()
    ensures t.kids.Keys == t.All() && Tree(t.procList, t.kids, t.idle)
  {
    hide ProcTable.Valid;
    ValidFacts(t);
    forall p, k | p in t.kids && k in t.kids[p] ensures k in t.procList && k.parent == p { KidsAre(t, p, k); }
    forall i | 0 <= i < |t.procList|
      ensures exists dad :: dad in t.kids && t.procList[i] in t.kids[dad]
                            && (dad == t.idle || dad in t.procList[i + 1..])
    {
      ParentLater(t, i);
      var dad: Proc := t.procList[i].parent;
      assert t.procList[i] in t.kids[dad];
    }
    assert forall p, k :: p in t.kids && k in t.kids[p] ==> k in t.procList;
    forall p, q, k | p in t.kids && q in t.kids && k in t.kids[p] && k in t.kids[q] ensures p == q {
      assert k.parent == p && k.parent == q;
    }
  }

  /** Every valid table is coherent as a value. */
  lemma Coherence(t: ProcTable)
    requires t.Valid()
    ensures Coherent(SnapOf(t))
  {
    hide ProcTable.Valid, PidsOf, PidsIn, DistinctPids, Distinct, AllSound, Tree;
    ListedFacts(t);
    TreeFacts(t);
    PidsAgree(t.procList, t.All());
  }

  // ---- one step ----

  ghost function Born(o: Outcome): set<Proc> {
    if o.Forked? then {o.child} else {}
  }

  ghost function Buried(o: Outcome): set<Proc> {
    if o.Reaped? then {o.who} else {}
  }

  /** What one call may do to the set of processes, to the zombies and the marked ones among them
      and to the children of idleproc. */
  twostate predicate Effect(t: ProcTable, new o: Outcome)
    reads t, t.All()
  {
    && Census(t, o) && Deaths(t, o) && Marks(t, o)
    && t.idle in old(t.kids) && t.idle in t.kids && t.kids[t.idle] == old(t.kids)[t.idle]
  }

  twostate predicate Census(t: ProcTable, new o: Outcome)
    reads t
  {
    && t.All() == old(t.All()) - Buried(o) + Born(o)
    && match o
       case Forked(child) => !old(allocated(child))
       case Reaped(z, code) => z in old(t.All())
       case _ => true
  }

  /** A process is a zombie from its exit until it is reaped, and keeps its code. */
  twostate predicate Deaths(t: ProcTable, new o: Outcome)
    reads t, t.All()
  {
    && (forall q :: q in t.All() && old(allocated(q)) ==>
          && (old(q.state) == Zombie ==> q.state == Zombie && q.exitCode == old(q.exitCode))
          && (q.state == Zombie && old(q.state) != Zombie ==> o == Exited(q, q.exitCode)))
    && match o
       case Forked(child) => child in t.All() && child.state != Zombie
       case Exited(p, code) =>
         && p in old(t.All()) && old(p.state) != Zombie
         && p in t.All() && p.state == Zombie && p.exitCode == code
       case Reaped(z, code) => z in old(t.All()) && old(z.state) == Zombie && old(z.exitCode) == code
       case _ => true
  }

  /** Only a kill marks a process, and only once. */
  twostate predicate Marks(t: ProcTable, new o: Outcome)
    reads t, t.All()
  {
    && (forall q :: q in t.All() && q.exiting ==> (old(allocated(q)) && old(q.exiting)) || o == Marked(q))
    && (forall q :: q in t.All() && old(allocated(q)) && old(q.exiting) ==> q.exiting)
    && (o.Marked? ==> o.who in t.All() && o.who in old(t.All()) && !old(o.who.exiting) && o.who.exiting)
  }

  lemma ValidFacts(t: ProcTable)
    requires t.Valid()
    ensures t.kids.Keys == t.All() && {t.idle, t.boss, t.current} <= t.All()
    ensures t.idle.state == Runnable && t.current.state == Runnable && t.idle != t.boss
    ensures forall p :: p in t.kids ==> Members(t.kids[p]) <= t.All()
  {
    hide Peaceful;
    forall p | p in t.kids ensures Members(t.kids[p]) <= t.All() {
      t.KidsWithin(p, t.All(), t.kids);
    }
  }

  twostate lemma ZombiesMove(t: ProcTable, new o: Outcome)
    requires Census(t, o) && Deaths(t, o)
    ensures var z := old(Zombies(t.All()));
            Zombies(t.All()) == match o
                                case Exited(p, code) => z[p := code]
                                case Reaped(q, _) => z - {q}
                                case _ => z
  {
  }

  twostate lemma MarkedMove(t: ProcTable, new o: Outcome)
    requires Census(t, o) && Marks(t, o)
    ensures var m := old(MarkedOnes(t.All()));
            MarkedOnes(t.All()) == match o
                                   case Marked(p) => m + {p}
                                   case Reaped(q, _) => m - {q}
                                   case _ => m
  {
  }

  twostate lemma EffectMoves(t: ProcTable, new o: Outcome)
    requires Effect(t, o)
    ensures Moved(old(NumbersOf(t)), NumbersOf(t), o)
    ensures o.Forked? ==> o.child !in old(t.All())
  {
    ZombiesMove(t, o);
    MarkedMove(t, o);
  }

  /** What do_fork comes to. */
  twostate predicate ForkDone(t: ProcTable, memory: bool, new o: Outcome)
    reads t, t.All(), t.alloc
  {
    if old(t.nrProcess) >= MAX_PROCESS then o == Returned(-E_NO_FREE_PROC) && Untouched(t)
    else if !memory then o == Returned(-E_NO_MEM) && Untouched(t)
    else
      && o.Forked? && o.child in t.All() && o.child !in old(t.All()) && t.Admitted(o.child)
      && t.current == old(t.current)
      && LivesOf(t.All()) == old(LivesOf(t.All()))[o.child := Life(o.child.pid, Runnable, false, Program)]
  }

  twostate predicate Untouched(t: ProcTable)
    reads t, t.All(), t.alloc
  {
    && t.procList == old(t.procList) && t.kids == old(t.kids) && t.current == old(t.current)
    && t.alloc.lastPid == old(t.alloc.lastPid) && LivesOf(t.All()) == old(LivesOf(t.All()))
  }

  twostate predicate ExitDone(t: ProcTable, code: int, new o: Outcome)
    reads t, t.All(), t.alloc
  {
    && t.Ended(old(t.current), code, o) && t.procList == old(t.procList) && t.alloc.lastPid == old(t.alloc.lastPid)
    && if o.Exited? then t.current == Elected(t.procList, LivesOf(t.All()), old(t.current), t.idle) else Untouched(t)
  }

  twostate predicate WaitDone(t: ProcTable, caller: Proc, pid: int, writable: bool, new o: Outcome)
    reads t, t.All(), t.alloc, caller
  {
    && caller == old(t.current) && t.Answer(pid, writable, o, caller) && t.alloc.lastPid == old(t.alloc.lastPid)
    && LivesOf(t.All()) == AfterWait(old(LivesOf(t.All())), caller, pid, writable, o)
    && t.current == if o.Slept? then Elected(t.procList, LivesOf(t.All()), caller, t.idle) else caller
  }

  /** What do_kill comes to. */
  twostate predicate KillDone(t: ProcTable, pid: int, new o: Outcome)
    reads t, t.All(), t.alloc
  {
    && t.procList == old(t.procList) && t.kids == old(t.kids) && t.current == old(t.current)
    && t.alloc.lastPid == old(t.alloc.lastPid)
    && match o
       case Marked(p) =>
         && p in t.procList && old(p.pid) == pid && !old(p.exiting)
         && LivesOf(t.All()) == Waking(old(LivesOf(t.All())), p)
       case Returned(r) =>
         && LivesOf(t.All()) == old(LivesOf(t.All()))
         && if r == -E_INVAL then forall q :: q in old(t.procList) ==> old(q.pid) != pid
            else r == -E_KILLED && exists q :: q in old(t.procList) && old(q.pid) == pid && old(q.exiting)
       case _ => false
  }

  twostate predicate YieldDone(t: ProcTable, new o: Outcome)
    reads t, t.All(), t.alloc
  {
    && o == Yielded && t.procList == old(t.procList) && t.kids == old(t.kids)
    && t.alloc.lastPid == old(t.alloc.lastPid) && LivesOf(t.All()) == old(LivesOf(t.All()))
    && t.current == Elected(t.procList, LivesOf(t.All()), old(t.current), t.idle)
  }

  lemma LivesWith(all: set<Proc>, p: Proc)
    ensures LivesOf(all + {p}) == LivesOf(all)[p := LifeOf(p)]
  {
  }

  method StepFork(t: ProcTable, memory: bool) returns (o: Outcome)
    requires t.Valid() && t.current != t.idle
    modifies t, t.All(), t.alloc
    ensures t.Valid() && Effect(t, o) && ForkDone(t, memory, o)
  {
    hide ProcTable.Catalogued, ProcTable.Social, LivesOf, FirstUnused, PidsOf;
    ValidFacts(t);
    ghost var all := t.All();
    o := t.Fork(memory);
    assert LivesOf(all) == old(LivesOf(t.All()));
    if o.Forked? {
      assert t.All() == all + {o.child};
      LivesWith(all, o.child);
    } else {
      assert t.All() == all;
    }
  }

  method StepExit(t: ProcTable, code: int) returns (o: Outcome)
    requires t.Valid()
    modifies t, t.All(), t.alloc
    ensures t.Valid() && Effect(t, o) && ExitDone(t, code, o)
  {
    hide ProcTable.Catalogued, ProcTable.Social, ProcTable.Wakes, Onto, LivesOf, Elected, Bereft;
    ValidFacts(t);
    o := t.Exit(code);
  }

  /** Only the caller's state changes, and it is no zombie before or after. */
  twostate predicate OnlySleeps(t: ProcTable, caller: Proc)
    reads t, t.All()
  {
    && t.All() <= old(t.All())
    && (forall q :: q in t.All() ==> q.exiting == old(q.exiting) && q.exitCode == old(q.exitCode))
    && (forall q :: q in t.All() ==> if q == caller then old(q.state) != Zombie && q.state != Zombie
                                     else q.state == old(q.state))
    && t.idle in old(t.kids) && t.idle in t.kids && t.kids[t.idle] == old(t.kids)[t.idle]
  }

  method FramedWait(t: ProcTable, pid: int, writable: bool) returns (o: Outcome)
    requires t.Valid() && t.current != t.idle
    modifies t, t.All(), t.alloc
    ensures t.Valid() && OnlySleeps(t, old(t.current)) && WaitDone(t, old(t.current), pid, writable, o)
  {
    hide ProcTable.Catalogued, ProcTable.Social, LivesOf, Elected, AfterWait, Matches, Removed, YoungestDead;
    ValidFacts(t);
    o := t.Wait(pid, writable);
    ValidFacts(t);
  }

  twostate lemma WaitEffect(t: ProcTable, new pid: int, new writable: bool, new o: Outcome)
    requires OnlySleeps(t, old(t.current)) && WaitDone(t, old(t.current), pid, writable, o)
    ensures Effect(t, o)
  {
    hide LivesOf, Elected, AfterWait, Matches, Without, YoungestDead;
  }

  method StepWait(t: ProcTable, pid: int, writable: bool) returns (o: Outcome)
    requires t.Valid() && t.current != t.idle
    modifies t, t.All(), t.alloc
    ensures t.Valid() && Effect(t, o) && WaitDone(t, old(t.current), pid, writable, o)
  {
    hide ProcTable.Valid, OnlySleeps, Effect, WaitDone;
    o := FramedWait(t, pid, writable);
    WaitEffect(t, pid, writable, o);
  }

  method StepKill(t: ProcTable, pid: int) returns (o: Outcome)
    requires t.Valid()
    modifies t, t.All(), t.alloc
    ensures t.Valid() && Effect(t, o) && KillDone(t, pid, o)
  {
    hide ProcTable.Catalogued, ProcTable.Social, LivesOf, Waking;
    ValidFacts(t);
    var r, target := t.Kill(pid);
    o := if target != null && r == 0 then Marked(target) else Returned(r);
  }

  method StepYield(t: ProcTable) returns (o: Outcome)
    requires t.Valid()
    modifies t
    ensures t.Valid() && Effect(t, o) && YieldDone(t, o)
  {
    hide ProcTable.Catalogued, ProcTable.Social, LivesOf, Elected;
    ValidFacts(t);
    t.ValidParts();
    t.Resched(t.current);
    o := Yielded;
  }

  /** How a process goes on after it slept in do_wait: it exits if it was killed meanwhile,
      and looks for a zombie again otherwise. */
  method StepGoOn(t: ProcTable) returns (o: Outcome)
    requires t.Valid() && t.current != t.idle && t.current.resume.Waiting?
    modifies t, t.All(), t.alloc
    ensures t.Valid() && Effect(t, o)
    ensures if old(t.current.exiting) then ExitDone(t, -E_KILLED, o)
            else WaitDone(t, old(t.current), old(t.current.resume.pid), true, o)
  {
    hide ProcTable.Valid, Effect, ExitDone, WaitDone;
    if t.current.exiting {
      o := StepExit(t, -E_KILLED);
    } else {
      o := StepWait(t, t.current.resume.pid, true);
    }
  }

  // ---- the step as values ----

  /** What a deed came to, from one value to the next. */
  twostate predicate Made(t: ProcTable, deed: Deed, new o: Outcome)
    reads t, t.All(), t.alloc
  {
    var a, b := old(SnapOf(t)), SnapOf(t);
    && Comes(a, deed, o) && LivesMove(a, b, deed, o) && ListsMove(a, b, o)
    && (!o.Forked? ==> b.lastPid == a.lastPid)
    && b.current == if o.Exited? || o.Slept? || o.Yielded?
                    then Elected(b.list, b.lives, a.current, a.idle) else a.current
  }

  /** What a valid table says about itself as a value. */
  ghost predicate Readable(t: ProcTable)
    reads t, t.All(), t.alloc
  {
    && t.nrProcess == |t.procList| + 1 && PidsIn(t.procList, LivesOf(t.All())) == PidsOf(t.procList)
    && t.kids.Keys == t.All() && (forall p :: p in t.kids ==> Members(t.kids[p]) <= t.All())
    && t.current in t.All()
  }

  lemma ValidIsReadable(t: ProcTable)
    requires t.Valid()
    ensures Readable(t)
  {
    hide ProcTable.Valid, PidsIn, PidsOf, DistinctPids, AllSound;
    ValidFacts(t);
    ListedFacts(t);
    PidsAgree(t.procList, t.All());
  }

  twostate lemma ForkMakes(t: ProcTable, new memory: bool, new o: Outcome)
    requires old(Readable(t)) && ForkDone(t, memory, o)
    ensures Made(t, Makes(CallFork(memory)), o)
  {
    hide PidsIn, PidsOf, FirstUnused, Elected;
  }

  twostate lemma ExitMakes(t: ProcTable, new code: int, new deed: Deed, new o: Outcome)
    requires old(Readable(t)) && ExitDone(t, code, o)
    requires deed == Makes(CallExit(code)) || (deed.GoesOn? && deed.killed && code == -E_KILLED)
    ensures Made(t, deed, o)
  {
    hide PidsIn, PidsOf, Elected, LivesOf, Bereft, ProcTable.Wakes, ProcTable.OthersKept;
  }

  twostate lemma WaitMakes(t: ProcTable, new pid: int, new writable: bool, new deed: Deed, new o: Outcome)
    requires old(Readable(t)) && WaitDone(t, old(t.current), pid, writable, o)
    requires deed == Makes(CallWait(pid, writable)) || (writable && deed == GoesOn(pid, false))
    ensures Made(t, deed, o)
  {
    hide PidsIn, PidsOf, Elected, AfterWait, Matches, Removed, Without, YoungestDead;
  }

  twostate lemma KillMakes(t: ProcTable, new pid: int, new o: Outcome)
    requires old(Readable(t)) && KillDone(t, pid, o)
    ensures Made(t, Makes(CallKill(pid)), o)
  {
    hide PidsIn, PidsOf, Elected, Waking;
  }

  twostate lemma YieldMakes(t: ProcTable, new deed: Deed, new o: Outcome)
    requires old(Readable(t)) && YieldDone(t, o) && deed in {Idles, Makes(CallYield)}
    ensures Made(t, deed, o)
  {
    hide PidsIn, PidsOf, Elected;
  }

  method TakeFork(t: ProcTable, memory: bool) returns (o: Outcome)
    requires t.Valid() && t.current != t.idle
    modifies t, t.All(), t.alloc
    ensures t.Valid() && Effect(t, o) && Made(t, Makes(CallFork(memory)), o)
  {
    hide ProcTable.Valid, Effect, ForkDone, Made, Readable;
    ValidIsReadable(t);
    o := StepFork(t, memory);
    ForkMakes(t, memory, o);
  }

  method TakeExit(t: ProcTable, code: int, ghost deed: Deed) returns (o: Outcome)
    requires t.Valid()
    requires deed == Makes(CallExit(code)) || (deed.GoesOn? && deed.killed && code == -E_KILLED)
    modifies t, t.All(), t.alloc
    ensures t.Valid() && Effect(t, o) && Made(t, deed, o)
  {
    hide ProcTable.Valid, Effect, ExitDone, Made, Readable;
    ValidIsReadable(t);
    o := StepExit(t, code);
    ExitMakes(t, code, deed, o);
  }

  method TakeWait(t: ProcTable, pid: int, writable: bool, ghost deed: Deed) returns (o: Outcome)
    requires t.Valid() && t.current != t.idle
    requires deed == Makes(CallWait(pid, writable)) || (writable && deed == GoesOn(pid, false))
    modifies t, t.All(), t.alloc
    ensures t.Valid() && Effect(t, o) && Made(t, deed, o)
  {
    hide ProcTable.Valid, Effect, WaitDone, Made, Readable;
    ValidIsReadable(t);
    o := StepWait(t, pid, writable);
    WaitMakes(t, pid, writable, deed, o);
  }

  method TakeKill(t: ProcTable, pid: int) returns (o: Outcome)
    requires t.Valid()
    modifies t, t.All(), t.alloc
    ensures t.Valid() && Effect(t, o) && Made(t, Makes(CallKill(pid)), o)
  {
    hide ProcTable.Valid, Effect, KillDone, Made, Readable;
    ValidIsReadable(t);
    o := StepKill(t, pid);
    KillMakes(t, pid, o);
  }

  method TakeYield(t: ProcTable, ghost deed: Deed) returns (o: Outcome)
    requires t.Valid() && deed in {Idles, Makes(CallYield)}
    modifies t
    ensures t.Valid() && Effect(t, o) && Made(t, deed, o)
  {
    hide ProcTable.Valid, Effect, YieldDone, Made, Readable;
    ValidIsReadable(t);
    o := StepYield(t);
    YieldMakes(t, deed, o);
  }

  function Turn(t: ProcTable, c: Call): Deed
    reads t`current, t.current`resume, t.current`exiting
  {
    if t.current == t.idle then Idles
    else if t.current.resume.Waiting? then GoesOn(t.current.resume.pid, t.current.exiting)
    else Makes(c)
  }

  lemma TurnAgrees(t: ProcTable, c: Call)
    requires t.current in t.All()
    ensures Turn(t, c) == TurnOf(SnapOf(t), c)
  {
  }

  /** The next atomic step: a process that slept in do_wait goes on there, idleproc yields,
      and anybody else makes its system call. */
  method Perform(t: ProcTable, c: Call) returns (o: Outcome)
    requires t.Valid()
    modifies t, t.All(), t.alloc
    ensures t.Valid() && Effect(t, o) && Made(t, old(Turn(t, c)), o)
  {
    hide ProcTable.Valid, Effect, Made;
    match Turn(t, c) {
      case Idles => o := TakeYield(t, Idles);
      case GoesOn(pid, killed) =>
        if killed {
          o := TakeExit(t, -E_KILLED, GoesOn(pid, killed));
        } else {
          o := TakeWait(t, pid, true, GoesOn(pid, killed));
        }
      case Makes(call) =>
        match call {
          case CallFork(memory) => o := TakeFork(t, memory);
          case CallExit(code) => o := TakeExit(t, code, Makes(call));
          case CallWait(pid, writable) => o := TakeWait(t, pid, writable, Makes(call));
          case CallKill(pid) => o := TakeKill(t, pid);
          case CallYield => o := TakeYield(t, Makes(call));
        }
    }
  }

  /** Main step result: it is a step of the machine of values, from one coherent table to the next. */
  method Step(t: ProcTable, c: Call) returns (e: Entry)
    requires t.Valid()
    modifies t, t.All(), t.alloc
    ensures t.Valid() && Coherent(SnapOf(t)) && Follows(old(SnapOf(t)), SnapOf(t), c, e)
    ensures e.out.Forked? ==> fresh(e.out.child)
    ensures fresh(t.All() - old(t.All()))
  {
    hide ProcTable.Valid, Comes, LivesMove, ListsMove, Coherent, Moved, LivesOf, NumbersOf, Deaths, Marks, Elected;
    ValidFacts(t);
    TurnAgrees(t, c);
    var who, deed := t.current, Turn(t, c);
    var o := Perform(t, c);
    e := Entry(who, deed, o);
    EffectMoves(t, o);
    Coherence(t);
  }

  /** Main result: every run of the table is one of the machine of values, moment by moment, from
      the table it starts with to the one it ends with; every call is answered unless initproc
      exits.  If it starts without zombies and marks, each process exits at most once and with
      the code of its call, or with -E_KILLED after somebody killed it; it is reaped at most
      once, and the wait that reaps it delivers that code. */
  method Run(t: ProcTable, calls: seq<Call>) returns (log: seq<Entry>, ghost snaps: seq<Snap>)
    requires t.Valid()
    modifies t, t.All(), t.alloc
    ensures t.Valid() && Traced(snaps, calls, log)
    ensures snaps[0] == old(SnapOf(t)) && snaps[|log|] == SnapOf(t)
    ensures |log| == |calls| || (log != [] && log[|log| - 1].out == Panicked)
    ensures forall i :: 0 <= i < |log| - 1 ==> log[i].out != Panicked
    ensures old(forall p :: p in t.All() ==> p.state != Zombie && !p.exiting) ==> History(t, log)
    ensures t.idle in t.kids && old(t.idle in t.kids) && t.kids[t.idle] == old(t.kids)[t.idle]
  {
    hide ProcTable.Valid, Coherent, Follows, Recorded, Chronicle, Traced, SnapOf;
    log, snaps := [], [SnapOf(t)];
    ValidFacts(t);
    Coherence(t);
    NothingTraced(SnapOf(t), calls);
    SnapFields(t);

    var n := 0;
    while n < |calls|
      invariant n <= |calls| && |log| == n && |snaps| == n + 1 && t.Valid() && Traced(snaps, calls, log)
      invariant snaps[0] == old(SnapOf(t)) && snaps[n] == SnapOf(t)
      invariant fresh(t.All() - old(t.All()))
      invariant forall i :: 0 <= i < n ==> log[i].out != Panicked
    {
      var e := Step(t, calls[n]);
      OneMoreEntry(snaps, calls, log, SnapOf(t), e);
      log, snaps := log + [e], snaps + [SnapOf(t)];
      if e.out == Panicked { break; }
      n := n + 1;
    }
    SnapFields(t);
    IdleChildren(snaps, calls, log);
    if old(forall p :: p in t.All() ==> p.state != Zombie && !p.exiting) { TracedHistory(snaps, calls, log); }
  }

  lemma SnapFields(t: ProcTable)
    ensures SnapOf(t).idle == t.idle && SnapOf(t).kids == t.kids && SnapOf(t).numbers == NumbersOf(t)
    ensures SnapOf(t).current == t.current
    ensures (forall p :: p in t.All() ==> p.state != Zombie && !p.exiting) ==>
              NumbersOf(t).zombies == map[] && NumbersOf(t).marked == {}
  {
  }

  ghost predicate History(t: ProcTable, log: seq<Entry>)
    reads t, t.All()
  {
    Recorded(NumbersOf(t), log) && Chronicle(log)
  }

  lemma Booted(t: ProcTable)
    requires t.AsBooted()
    ensures t.idle in t.kids && t.kids[t.idle] == [t.boss] && t.current == t.idle
    ensures t.All() == {t.idle, t.boss} && forall p :: p in t.All() ==> p.state != Zombie && !p.exiting
  {
    assert t.All() == {t.idle, t.boss};
  }

  /** From boot on, initproc stays the only child of idleproc, and idleproc takes no turn but the
      first: there is always somebody who can run. */
  method BootAndRun(calls: seq<Call>) returns (t: ProcTable, log: seq<Entry>, ghost snaps: seq<Snap>)
    ensures t.Valid() && History(t, log) && Traced(snaps, calls, log) && snaps[|log|] == SnapOf(t)
    ensures t.idle in t.kids && t.kids[t.idle] == [t.boss]
    ensures forall i :: 0 <= i < |log| ==> (log[i].deed == Idles <==> i == 0)
  {
    hide ProcTable.AsBooted, ProcTable.Valid, History, Coherent, Follows;
    t := ProcInit();
    Booted(t);
    ghost var s := SnapOf(t);
    log, snaps := Run(t, calls);
    forall i | 0 <= i < |log| ensures log[i].deed == Idles <==> i == 0 {
      if i > 0 { IdleOnlyFirst(snaps, calls, log, i); } else { IdleFirst(snaps, calls, log); }
    }
  }

  /** No wakeup is lost: while a process sleeps in do_wait, no zombie that it waits for names
      it as parent, whether born to it or handed over by an exit. */
  lemma NoLostWakeup(t: ProcTable, p: Proc, k: Proc)
    requires t.Valid() && p in t.All() && k in t.All()
    requires p.state == Sleeping && k.parent == p && Matches(LifeOf(k), p.resume.pid)
    ensures k.state != Zombie && p.waitsForChild
  {
    hide PidsOf, Chain;
    assert k in t.kids[k.parent];
    AllSoundAt(LivesOf(t.All()), t.kids, p);
  }

  /** n parent links lead from p to idleproc, or fewer. */
  ghost predicate ReachesIdle(t: ProcTable, p: Proc, n: nat)
    reads t, t.All(), p
  {
    p == t.idle || (n > 0 && p.parent != null && p.parent in t.All() && ReachesIdle(t, p.parent, n - 1))
  }

  /** The parent links form a tree with idleproc as root. */
  lemma {:induction false} RootedAtIdle(t: ProcTable, i: nat)
    requires t.Valid() && i < |t.procList|
    ensures ReachesIdle(t, t.procList[i], |t.procList| - i)
    decreases |t.procList| - i
  {
    hide ProcTable.Valid;
    var j := OlderParent(t, i);
    if j < |t.procList| {
      RootedAtIdle(t, j);
      ReachesFurther(t, t.procList[j], |t.procList| - j, |t.procList| - i - 1);
    }
  }

  /** The parent of a listed process comes later on the list, or is idleproc. */
  lemma OlderParent(t: ProcTable, i: nat) returns (j: nat)
    requires t.Valid() && i < |t.procList|
    ensures i < j <= |t.procList|
    ensures t.procList[i].parent == if j < |t.procList| then t.procList[j] else t.idle
    ensures Members(t.procList) <= t.All()
  {
    hide PidsOf, Hashed, Chain, Peaceful, ProcTable.Numbered;
    var dad := t.procList[i].parent;
    var later := t.procList[i + 1..];
    assert dad == t.idle || dad in later;
    if dad == t.idle {
      j := |t.procList|;
    } else {
      var k :| 0 <= k < |later| && later[k] == dad;
      j := i + 1 + k;
    }
  }

  lemma {:induction false} ReachesFurther(t: ProcTable, p: Proc, m: nat, n: nat)
    requires ReachesIdle(t, p, m) && m <= n
    ensures ReachesIdle(t, p, n)
    decreases m
  {
    if p != t.idle {
      ReachesFurther(t, p.parent, m - 1, n - 1);
    }
  }

  /** No link of a listed process leads out of the table, in particular none to a process that
      was reaped and freed. */
  lemma NothingDangles(t: ProcTable, p: Proc)
    requires t.Valid() && p in t.procList
    ensures p.parent != null && {p.parent} <= t.All()
    ensures forall q :: q in {p.cptr, p.yptr, p.optr} && q != null ==> q in t.procList
  {
    hide ProcTable.Valid, ProcTable.Catalogued, ProcTable.Related, Peaceful, Chain;
    t.ValidParts();
    t.SocialParts(t.procList, t.All(), t.kids, t.current);
    t.Lineage(p);
    KidsListed(t, p);
    KidsListed(t, p.parent);
    ChainLinks(p, t.kids[p], p);
    ChainLinks(p.parent, t.kids[p.parent], p);
  }

  lemma KidsListed(t: ProcTable, q: Proc)
    requires t.Valid() && q in t.All()
    ensures q in t.kids && Chain(q, t.kids[q]) && forall k :: k in t.kids[q] ==> k in t.procList
  {
    hide PidsOf, ProcTable.Catalogued, Peaceful;
    t.KidsWithin(q, t.All(), t.kids);
    forall k | k in t.kids[q] ensures k in t.procList {
      assert k in Members(t.kids[q]) && k.parent == q && t.idle.parent == null;
    }
  }

  lemma ChainLinks(q: Proc, ks: seq<Proc>, p: Proc)
    requires Chain(q, ks)
    ensures q.cptr != null ==> q.cptr in ks
    ensures p in ks ==> (p.optr != null ==> p.optr in ks) && (p.yptr != null ==> p.yptr in ks)
  {
    if p in ks {
      var i :| 0 <= i < |ks| && ks[i] == p;
      assert ks[i].optr == if i + 1 < |ks| then ks[i + 1] else null;
      assert ks[i].yptr == if i > 0 then ks[i - 1] else null;
    }
  }

  /** What init_main asserts once do_wait finds no child of initproc (lab5/cow/proc.c:878-881):
      nobody else is left, because everybody descends from initproc. */
  lemma InitIsAlone(t: ProcTable)
    requires t.Valid() && t.idle in t.kids && t.boss in t.kids
    requires t.kids[t.idle] == [t.boss] && t.kids[t.boss] == []
    ensures t.procList == [t.boss] && t.nrProcess == 2
    ensures t.boss.cptr == t.boss.yptr == t.boss.optr == null
  {
    hide PidsOf, Hashed, Peaceful;
    assert Chain(t.idle, [t.boss]) && [t.boss][0] == t.boss;
    OldestDescends(t);
  }

  /** The oldest process beside initproc is a child of idleproc or of initproc. */
  lemma OldestDescends(t: ProcTable)
    requires t.Valid() && t.idle in t.kids && t.boss in t.kids
    ensures |t.procList| > 1 ==>
              var p := t.procList[|t.procList| - 2];
              p != t.boss && (p in t.kids[t.idle] || p in t.kids[t.boss])
  {
    hide PidsOf, Hashed, Peaceful, Chain;
    var list := t.procList;
    if |list| > 1 {
      var i := |list| - 2;
      assert list[i + 1..] == [t.boss];
      assert list[i].parent == t.idle || list[i].parent in list[i + 1..];
      assert list[i] in t.kids[list[i].parent];
    }
  }
}
