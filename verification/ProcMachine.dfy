/**
  The processes as values: what a run of the process table looks like from outside, step by
  step.  ProcRun shows that the table moves exactly like this.
 */
module ProcMachine {
  import opened Family
  import opened Lifecycle
  import opened Pids
  import opened Procs

  datatype Call =
    | CallFork(memory: bool)
    | CallExit(code: int)
    | CallWait(pid: int, writable: bool)
    | CallKill(pid: int)
    | CallYield

  /** What a process does with its turn: idleproc yields, a process that slept in do_wait goes on
      there, anybody else makes a system call. */
  datatype Deed =
    | Idles
    | GoesOn(pid: int, killed: bool)
    | Makes(call: Call)

  datatype Entry = Entry(who: Proc, deed: Deed, out: Outcome)

  /** The processes there are, the codes of the zombies among them, and who is marked. */
  datatype Numbers = Numbers(all: set<Proc>, zombies: map<Proc, int>, marked: set<Proc>)

  /** The table at one moment. */
  datatype Snap = Snap(idle: Proc, boss: Proc, current: Proc, list: seq<Proc>, kids: Kids, lives: Lives,
                       numbers: Numbers, lastPid: nat)

  // ---- one step ----

  ghost function TurnOf(a: Snap, c: Call): Deed
    requires a.current in a.lives
  {
    if a.current == a.idle then Idles
    else if a.lives[a.current].resume.Waiting?
    then GoesOn(a.lives[a.current].resume.pid, a.current in a.numbers.marked)
    else Makes(c)
  }

  ghost function PidsIn(list: seq<Proc>, lives: Lives): (r: seq<nat>)
    ensures |r| == |list|
  {
    if list == [] then [] else [if list[0] in lives then lives[list[0]].pid else 0] + PidsIn(list[1..], lives)
  }

  ghost predicate ExitComes(a: Snap, code: int, o: Outcome) {
    o == if a.current in {a.idle, a.boss} then Panicked else Exited(a.current, code)
  }

  /** A matching zombie child is reaped and its code delivered; without one the caller sleeps;
      without a matching child there is nothing to wait for. */
  ghost predicate WaitComes(a: Snap, pid: int, writable: bool, o: Outcome) {
    && a.current in a.kids && Members(a.kids[a.current]) <= a.lives.Keys
    && var ks := a.kids[a.current];
    if !writable then o == Returned(-E_INVAL)
    else match o
      case Reaped(z, code) =>
        && z in ks && Matches(a.lives[z], pid) && z in a.numbers.zombies && a.numbers.zombies[z] == code
        && (pid == 0 ==> YoungestDead(ks, a.lives, z))
      case Slept(p) =>
        && p == a.current && (exists k :: k in ks && Matches(a.lives[k], pid))
        && forall k :: k in ks && Matches(a.lives[k], pid) ==> a.lives[k].state != Zombie
      case Returned(r) => r == -E_BAD_PROC && forall k :: k in ks ==> !Matches(a.lives[k], pid)
      case _ => false
  }

  ghost predicate KillComes(a: Snap, pid: int, o: Outcome) {
    && Members(a.list) <= a.lives.Keys
    && match o
       case Marked(p) => p in a.list && a.lives[p].pid == pid && p !in a.numbers.marked
       case Returned(r) =>
         if r == -E_INVAL then forall q :: q in a.list ==> a.lives[q].pid != pid
         else r == -E_KILLED && exists q :: q in a.list && a.lives[q].pid == pid && q in a.numbers.marked
       case _ => false
  }

  /** What a deed comes to. */
  ghost predicate Comes(a: Snap, deed: Deed, o: Outcome) {
    match deed
    case Idles => o == Yielded
    case GoesOn(pid, killed) => if killed then ExitComes(a, -E_KILLED, o) else WaitComes(a, pid, true, o)
    case Makes(c) =>
      match c
      case CallFork(memory) =>
        if |a.list| + 1 >= MAX_PROCESS then o == Returned(-E_NO_FREE_PROC)
        else if !memory then o == Returned(-E_NO_MEM)
        else o.Forked? && o.child !in a.lives
      case CallExit(code) => ExitComes(a, code, o)
      case CallWait(pid, writable) => WaitComes(a, pid, writable, o)
      case CallKill(pid) => KillComes(a, pid, o)
      case CallYield => o == Yielded
  }

  /** A fork adds a process, a reap removes a zombie and delivers its code, only an exit makes a
      zombie, with its code, and only a kill marks anybody. */
  ghost predicate Moved(a: Numbers, b: Numbers, o: Outcome) {
    match o
    case Forked(child) => child !in a.all && b == a.(all := a.all + {child})
    case Exited(p, code) => p in a.all && p !in a.zombies && b == a.(zombies := a.zombies[p := code])
    case Reaped(z, code) =>
      && z in a.zombies && a.zombies[z] == code
      && b == Numbers(a.all - {z}, a.zombies - {z}, a.marked - {z})
    case Marked(p) => p in a.all && p !in a.marked && b == a.(marked := a.marked + {p})
    case _ => b == a
  }

  /** Everybody's life after the deed. */
  ghost predicate LivesMove(a: Snap, b: Snap, deed: Deed, o: Outcome) {
    match o
    case Forked(child) =>
      && child in b.lives && FirstUnused(Succ(a.lastPid), b.lives[child].pid, PidsIn(a.list, a.lives))
      && b.lastPid == b.lives[child].pid
      && b.lives == a.lives[child := Life(b.lastPid, Runnable, false, Program)]
    case Exited(p, _) =>
      exists dad :: dad in a.kids && p in a.kids[dad] && p in a.kids
                    && b.lives == Bereft(a.lives, p, dad, a.kids[p], a.boss)
    case Marked(p) => b.lives == Waking(a.lives, p)
    case _ =>
      b.lives == match deed
                 case GoesOn(pid, false) => AfterWait(a.lives, a.current, pid, true, o)
                 case Makes(CallWait(pid, writable)) => AfterWait(a.lives, a.current, pid, writable, o)
                 case _ => a.lives
  }

  /** The list and the child lists after the deed. */
  ghost predicate ListsMove(a: Snap, b: Snap, o: Outcome) {
    match o
    case Forked(child) =>
      a.current in a.kids && b.list == [child] + a.list && b.kids == Joined(a.kids, child, a.current)
    case Exited(p, _) => p in a.kids && a.boss in a.kids && b.list == a.list && b.kids == Adopted(a.kids, p, a.boss)
    case Reaped(z, _) =>
      && (exists i: nat :: i < |a.list| && a.list[i] == z && b.list == Removed(a.list, i))
      && a.current in a.kids
      && (exists j: nat :: j < |a.kids[a.current]| && a.kids[a.current][j] == z
                           && b.kids == Without(a.kids, z, a.current, j))
    case _ => b.list == a.list && b.kids == a.kids
  }

  /** The step from a to b that one entry of the log records, for the call that was due. */
  ghost predicate Follows(a: Snap, b: Snap, c: Call, e: Entry) {
    && a.current in a.lives && e.who == a.current && e.deed == TurnOf(a, c) && Comes(a, e.deed, e.out)
    && b.idle == a.idle && b.boss == a.boss
    && Moved(a.numbers, b.numbers, e.out) && LivesMove(a, b, e.deed, e.out) && ListsMove(a, b, e.out)
    && (!e.out.Forked? ==> b.lastPid == a.lastPid)
    && b.current == if e.out.Exited? || e.out.Slept? || e.out.Yielded?
                    then Elected(b.list, b.lives, a.current, a.idle) else a.current
  }

  // ---- every moment ----

  /** What holds at every moment: idleproc is beside the list and initproc at its end, pids are
      distinct, parents are older than their children, and everybody's state fits what it waits
      for. */
  ghost predicate Coherent(s: Snap) {
    && s.lives.Keys == s.kids.Keys == s.numbers.all == {s.idle} + Members(s.list)
    && s.current in s.lives && s.lives[s.current].state == Runnable
    && s.idle !in s.list && s.lives[s.idle].state == Runnable && s.lives[s.idle].pid == 0
    && s.list != [] && s.list[|s.list| - 1] == s.boss && s.boss in s.lives && s.lives[s.boss].state != Zombie
    && Distinct(s.list) && |s.list| < MAX_PROCESS && DistinctPids(PidsIn(s.list, s.lives))
    && AllSound(s.lives, s.kids) && Tree(s.list, s.kids, s.idle)
    && (forall p :: p in s.lives ==> (s.lives[p].state == Zombie <==> p in s.numbers.zombies))
    && s.numbers.zombies.Keys <= s.numbers.all && s.numbers.marked <= s.numbers.all
  }

  /** Everybody's children stand before it on the list, and nobody has two parents. */
  ghost predicate Tree(list: seq<Proc>, kids: Kids, idle: Proc) {
    && (forall p, k :: p in kids && k in kids[p] ==> k in list)
    && (forall p, q, k :: p in kids && q in kids && k in kids[p] && k in kids[q] ==> p == q)
    && (forall i {:trigger list[i]} :: 0 <= i < |list| ==>
          exists dad :: dad in kids && list[i] in kids[dad] && (dad == idle || dad in list[i + 1..]))
  }

  lemma ChildStandsBefore(list: seq<Proc>, kids: Kids, idle: Proc, i: nat, k: Proc) returns (j: nat)
    requires Tree(list, kids, idle) && Distinct(list) && i < |list| && idle !in list
    requires list[i] in kids && k in kids[list[i]]
    ensures j < i && list[j] == k
  {
    var p := list[i];
    assert p in kids && k in kids[p];
    assert k in list;
    j :| 0 <= j < |list| && list[j] == k;
    var later := list[j + 1..];
    var dad: Proc :| dad in kids && list[j] in kids[dad] && (dad == idle || dad in later);
    assert dad == p && p != idle;
    var n :| 0 <= n < |later| && later[n] == p;
    assert list[j + 1 + n] == p;
  }

  /** A sleeper has a child that is no zombie. */
  lemma AwaitedChild(lives: Lives, kids: Kids, p: Proc) returns (k: Proc)
    requires AllSound(lives, kids) && p in lives && lives[p].state == Sleeping
    ensures p in kids && k in kids[p] && k in lives && lives[k].state !in {Zombie, Uninit}
  {
    hide AllSound;
    AllSoundAt(lives, kids, p);
    k :| k in kids[p] && Matches(lives[k], lives[p].resume.pid);
    AllSoundAt(lives, kids, k);
  }

  /** That one stands before it. */
  lemma YoungerOne(s: Snap, i: nat) returns (j: nat)
    requires Coherent(s) && i < |s.list| && s.list[i] in s.lives && s.lives[s.list[i]].state == Sleeping
    ensures j < i && s.list[j] in s.lives && s.lives[s.list[j]].state !in {Zombie, Uninit}
  {
    hide PidsIn, DistinctPids, Tree, AllSound, Distinct;
    var k := AwaitedChild(s.lives, s.kids, s.list[i]);
    j := ChildStandsBefore(s.list, s.kids, s.idle, i, k);
  }

  lemma {:induction false} SomebodyUpTo(s: Snap, i: nat) returns (j: nat)
    requires Coherent(s) && i < |s.list| && s.list[i] in s.lives && s.lives[s.list[i]].state !in {Zombie, Uninit}
    ensures j <= i && s.list[j] in s.lives && s.lives[s.list[j]].state == Runnable
  {
    hide Coherent;
    if s.lives[s.list[i]].state == Sleeping {
      j := YoungerOne(s, i);
      j := SomebodyUpTo(s, j);
    } else {
      j := i;
    }
  }

  /** There is no deadlock: somebody on the list can run, because initproc is there and every
      sleeper waits for somebody. */
  lemma SomebodyCanRun(s: Snap) returns (j: nat)
    requires Coherent(s)
    ensures j < |s.list| && s.list[j] in s.lives && s.lives[s.list[j]].state == Runnable
  {
    hide PidsIn, DistinctPids, Tree;
    AllSoundAt(s.lives, s.kids, s.boss);
    j := SomebodyUpTo(s, |s.list| - 1);
  }

  /** So schedule never chooses idleproc. */
  lemma NeverIdle(a: Snap, b: Snap, c: Call, e: Entry)
    requires Coherent(a) && Coherent(b) && Follows(a, b, c, e)
    ensures b.current != b.idle
  {
    hide Coherent, Moved, LivesMove, ListsMove;
    var j := SomebodyCanRun(b);
    OrderMembers(b.list, a.current, b.list[j]);
    OrderMembers(b.list, a.current, b.idle);
    IdleBeside(b);
  }

  lemma IdleBeside(s: Snap)
    requires Coherent(s)
    ensures s.idle !in s.list
  {
  }

  /** The children of idleproc stay what they are. */
  lemma IdleKeepsChildren(a: Snap, b: Snap, c: Call, e: Entry)
    requires Coherent(a) && Follows(a, b, c, e)
    ensures b.idle == a.idle && b.boss == a.boss
    ensures a.idle in a.kids && a.idle in b.kids && b.kids[a.idle] == a.kids[a.idle]
  {
    ActorIsNotIdle(a, b, c, e);
    BossIsListed(a);
    hide Coherent, Comes, LivesMove, Moved, TurnOf, Elected, Removed;
  }

  lemma ActorIsNotIdle(a: Snap, b: Snap, c: Call, e: Entry)
    requires Follows(a, b, c, e)
    ensures e.out.Forked? || e.out.Reaped? ==> a.current != a.idle
    ensures e.out.Exited? ==> e.out.who == a.current && e.out.who !in {a.idle, a.boss}
  {
    hide LivesMove, ListsMove, Moved, Elected;
  }

  lemma BossIsListed(a: Snap)
    requires Coherent(a)
    ensures a.boss in a.list && a.idle != a.boss && a.idle in a.kids && a.idle !in a.list
    ensures a.kids.Keys == a.numbers.all && a.lives.Keys == a.kids.Keys
  {
    assert a.boss in a.list;
  }

  /** What can be told of an entry alone: its outcome fits its deed, and an exit has the code of
      its call, or -E_KILLED if the process was killed in its sleep. */
  predicate Fits(e: Entry) {
    match e.deed
    case Idles => e.out == Yielded
    case GoesOn(_, killed) =>
      if killed then e.out in {Exited(e.who, -E_KILLED), Panicked}
      else e.out.Reaped? || e.out == Slept(e.who) || e.out == Returned(-E_BAD_PROC)
    case Makes(c) =>
      match c
      case CallFork(memory) => e.out.Forked? || e.out in {Returned(-E_NO_FREE_PROC), Returned(-E_NO_MEM)}
      case CallExit(code) => e.out in {Exited(e.who, code), Panicked}
      case CallWait(_, _) =>
        e.out.Reaped? || e.out == Slept(e.who) || e.out in {Returned(-E_BAD_PROC), Returned(-E_INVAL)}
      case CallKill(_) => e.out.Marked? || e.out in {Returned(-E_INVAL), Returned(-E_KILLED)}
      case CallYield => e.out == Yielded
  }

  lemma FollowsFits(a: Snap, b: Snap, c: Call, e: Entry)
    requires Follows(a, b, c, e)
    ensures Fits(e)
    ensures e.deed.GoesOn? && e.deed.killed ==> e.who in a.numbers.marked
    ensures e.deed.Makes? ==> e.deed.call == c
  {
    hide LivesMove, ListsMove, Moved;
  }

  // ---- whole runs ----

  /** snaps[i] is the table before entry i; nobody is forked who was there before. */
  ghost predicate Traced(snaps: seq<Snap>, calls: seq<Call>, log: seq<Entry>) {
    && |snaps| == |log| + 1 && |log| <= |calls|
    && (forall i :: 0 <= i < |snaps| ==> Coherent(snaps[i]))
    && (forall i :: 0 <= i < |log| ==> TracedAt(snaps, calls, log, i))
    && (forall i, j :: 0 <= j <= i < |log| && log[i].out.Forked? ==> log[i].out.child !in snaps[j].lives)
  }

  ghost predicate TracedAt(snaps: seq<Snap>, calls: seq<Call>, log: seq<Entry>, i: nat)
    requires |snaps| == |log| + 1 && i < |log| <= |calls|
  {
    Follows(snaps[i], snaps[i + 1], calls[i], log[i])
  }

  /** idleproc takes no turn but the first. */
  lemma IdleOnlyFirst(snaps: seq<Snap>, calls: seq<Call>, log: seq<Entry>, i: nat)
    requires Traced(snaps, calls, log) && 0 < i < |snaps|
    ensures snaps[i].current != snaps[i].idle
    ensures i < |log| ==> log[i].deed != Idles
  {
    hide Coherent, Follows;
    assert TracedAt(snaps, calls, log, i - 1);
    NeverIdle(snaps[i - 1], snaps[i], calls[i - 1], log[i - 1]);
    if i < |log| {
      assert TracedAt(snaps, calls, log, i);
      NotIdling(snaps[i], snaps[i + 1], calls[i], log[i]);
    }
  }

  lemma NotIdling(a: Snap, b: Snap, c: Call, e: Entry)
    requires Follows(a, b, c, e) && a.current != a.idle
    ensures e.deed != Idles
  {
    hide LivesMove, ListsMove, Moved, Comes;
  }

  ghost predicate Happened(log: seq<Entry>, o: Outcome) {
    exists e :: e in log && e.out == o
  }

  /** What a run so far says about the processes that are there now: who is a zombie exited with
      that code, and who is marked was killed. */
  ghost predicate Recorded(c: Numbers, log: seq<Entry>) {
    && (forall p :: p in c.zombies ==> Happened(log, Exited(p, c.zombies[p])))
    && (forall p :: p in c.marked ==> Happened(log, Marked(p)))
    && (forall e :: e in log && e.out.Exited? && e.out.who in c.all ==> e.out.who in c.zombies)
    && (forall e :: e in log && e.out.Marked? && e.out.who in c.all ==> e.out.who in c.marked)
    && (forall e :: e in log && e.out.Reaped? ==> e.out.who !in c.all)
    && c.zombies.Keys <= c.all && c.marked <= c.all
  }

  /** What a run says by itself. */
  ghost predicate Chronicle(log: seq<Entry>) {
    && (forall i :: 0 <= i < |log| ==> Fits(log[i]))
    && (forall i :: 0 <= i < |log| && log[i].out.Reaped? ==>
          Happened(log[..i], Exited(log[i].out.who, log[i].out.code)))
    && (forall i :: 0 <= i < |log| && log[i].deed.GoesOn? && log[i].deed.killed ==>
          Happened(log[..i], Marked(log[i].who)))
    && (forall i, j :: 0 <= i < j < |log| && log[i].out.Reaped? && log[j].out.Reaped? ==>
          log[i].out.who != log[j].out.who)
    && (forall i, j :: 0 <= i < j < |log| && log[i].out.Exited? && log[j].out.Exited? ==>
          log[i].out.who != log[j].out.who)
    && (forall i, j :: 0 <= i < j < |log| && log[i].out.Marked? && log[j].out.Marked? ==>
          log[i].out.who != log[j].out.who)
  }

  /** One more entry, which goes with what was recorded before it. */
  lemma ChronicleGrows(log: seq<Entry>, e: Entry)
    requires Chronicle(log) && Fits(e)
    requires e.out.Reaped? ==> Happened(log, Exited(e.out.who, e.out.code))
    requires e.deed.GoesOn? && e.deed.killed ==> Happened(log, Marked(e.who))
    requires forall d :: d in log ==>
      && (d.out.Reaped? && e.out.Reaped? ==> d.out.who != e.out.who)
      && (d.out.Exited? && e.out.Exited? ==> d.out.who != e.out.who)
      && (d.out.Marked? && e.out.Marked? ==> d.out.who != e.out.who)
    ensures Chronicle(log + [e])
  {
    hide Fits, Happened;
    var next := log + [e];
    assert next[..|log|] == log;
    forall i | 0 <= i < |log| ensures next[i] == log[i] && next[..i] == log[..i] && next[i] in log {
    }
  }

  lemma StillHappened(log: seq<Entry>, e: Entry, o: Outcome)
    ensures Happened(log + [e], o) <==> Happened(log, o) || e.out == o
  {
    if Happened(log, o) {
      var d :| d in log && d.out == o;
      assert d in log + [e];
    }
    assert e in log + [e];
  }

  lemma RecordGrows(a: Numbers, b: Numbers, log: seq<Entry>, e: Entry)
    requires Recorded(a, log) && Moved(a, b, e.out)
    requires e.out.Forked? ==> forall d :: d in log && (d.out.Exited? || d.out.Marked? || d.out.Reaped?) ==>
               d.out.who != e.out.child
    ensures Recorded(b, log + [e])
  {
    hide Happened;
    forall o { StillHappened(log, e, o); }
    assert forall d :: d in log + [e] <==> d in log || d == e;
  }

  /** Nobody exits, is reaped, or is marked for the second time. */
  lemma FirstTime(a: Numbers, b: Numbers, log: seq<Entry>, e: Entry)
    requires Recorded(a, log) && Moved(a, b, e.out)
    ensures e.out.Reaped? ==> Happened(log, Exited(e.out.who, e.out.code))
    ensures forall d :: d in log ==>
      && (d.out.Reaped? && e.out.Reaped? ==> d.out.who != e.out.who)
      && (d.out.Exited? && e.out.Exited? ==> d.out.who != e.out.who)
      && (d.out.Marked? && e.out.Marked? ==> d.out.who != e.out.who)
  {
    hide Happened;
  }

  lemma NothingTraced(s: Snap, calls: seq<Call>)
    requires Coherent(s)
    ensures Traced([s], calls, [])
  {
  }

  lemma TracedPrefix(snaps: seq<Snap>, calls: seq<Call>, log: seq<Entry>, n: nat)
    requires Traced(snaps, calls, log) && n <= |log|
    ensures Traced(snaps[..n + 1], calls, log[..n])
  {
    hide Coherent, Follows;
    var ss, ls := snaps[..n + 1], log[..n];
    forall i | 0 <= i < n ensures TracedAt(ss, calls, ls, i) {
      assert TracedAt(snaps, calls, log, i);
    }
  }

  lemma OneMoreEntry(snaps: seq<Snap>, calls: seq<Call>, log: seq<Entry>, s: Snap, e: Entry)
    requires Traced(snaps, calls, log) && |log| < |calls| && Coherent(s)
    requires Follows(snaps[|log|], s, calls[|log|], e)
    requires e.out.Forked? ==> forall j :: 0 <= j < |snaps| ==> e.out.child !in snaps[j].lives
    ensures Traced(snaps + [s], calls, log + [e])
  {
    hide Coherent, Follows;
    var ss, ls := snaps + [s], log + [e];
    forall i | 0 <= i < |ls| ensures TracedAt(ss, calls, ls, i) {
      if i < |log| { assert TracedAt(snaps, calls, log, i); }
    }
  }

  lemma {:induction false} IdleChildren(snaps: seq<Snap>, calls: seq<Call>, log: seq<Entry>)
    requires Traced(snaps, calls, log)
    ensures var a, b := snaps[0], snaps[|log|];
            && b.idle == a.idle && b.boss == a.boss
            && a.idle in a.kids && a.idle in b.kids && b.kids[a.idle] == a.kids[a.idle]
  {
    hide Coherent, Follows;
    if log == [] {
      IdleIsThere(snaps[0]);
    } else {
      var n := |log| - 1;
      TracedPrefix(snaps, calls, log, n);
      IdleChildren(snaps[..n + 1], calls, log[..n]);
      assert TracedAt(snaps, calls, log, n);
      IdleKeepsChildren(snaps[n], snaps[n + 1], calls[n], log[n]);
    }
  }

  lemma IdleIsThere(s: Snap)
    requires Coherent(s)
    ensures s.idle in s.kids
  {
  }

  /** If idleproc is current at the start, it takes the first turn. */
  lemma IdleFirst(snaps: seq<Snap>, calls: seq<Call>, log: seq<Entry>)
    requires Traced(snaps, calls, log) && log != [] && snaps[0].current == snaps[0].idle
    ensures log[0].deed == Idles
  {
    hide Coherent;
    assert TracedAt(snaps, calls, log, 0);
  }

  /** Whoever exits, is marked or is reaped was there. */
  lemma WhoWasThere(a: Snap, b: Snap, c: Call, e: Entry)
    requires Coherent(a) && Follows(a, b, c, e)
    ensures e.out.Exited? || e.out.Marked? || e.out.Reaped? ==> e.out.who in a.lives
  {
    hide LivesMove, ListsMove, Comes, AllSound, Tree, DistinctPids, PidsIn;
  }

  lemma FollowsMoves(a: Snap, b: Snap, c: Call, e: Entry)
    requires Follows(a, b, c, e)
    ensures Moved(a.numbers, b.numbers, e.out)
  {
  }

  /** Main result: over any run that starts without zombies and marks, what ProcRun.Run says about
      exits, codes, kills and reaps. */
  lemma {:induction false} TracedHistory(snaps: seq<Snap>, calls: seq<Call>, log: seq<Entry>)
    requires Traced(snaps, calls, log) && snaps[0].numbers.zombies == map[] && snaps[0].numbers.marked == {}
    ensures Recorded(snaps[|log|].numbers, log) && Chronicle(log)
  {
    hide Coherent, Follows, Moved, Chronicle, Happened, Recorded, Fits;
    if log == [] {
      NothingRecorded(snaps[0].numbers);
    } else {
      var n := |log| - 1;
      var a, b, e, before := snaps[n], snaps[n + 1], log[n], log[..n];
      TracedPrefix(snaps, calls, log, n);
      TracedHistory(snaps[..n + 1], calls, before);
      assert TracedAt(snaps, calls, log, n);
      FollowsMoves(a, b, calls[n], e);
      FollowsFits(a, b, calls[n], e);
      forall d | d in before && e.out.Forked? && (d.out.Exited? || d.out.Marked? || d.out.Reaped?)
        ensures d.out.who != e.out.child
      {
        var j :| 0 <= j < n && before[j] == d;
        assert TracedAt(snaps, calls, log, j);
        WhoWasThere(snaps[j], snaps[j + 1], calls[j], d);
        assert log[n].out.child !in snaps[j].lives;
      }
      FirstTime(a.numbers, b.numbers, before, e);
      if e.who in a.numbers.marked { KilledBefore(a.numbers, before, e); }
      RecordGrows(a.numbers, b.numbers, before, e);
      ChronicleGrows(before, e);
      assert log == before + [e];
    }
  }

  lemma NothingRecorded(c: Numbers)
    requires c.zombies == map[] && c.marked == {}
    ensures Recorded(c, []) && Chronicle([])
  {
  }

  lemma KilledBefore(c: Numbers, log: seq<Entry>, e: Entry)
    requires Recorded(c, log) && e.who in c.marked
    ensures Happened(log, Marked(e.who))
  {
  }

  // ---- nobody starves ----

  /** With entry i schedule gives the turn to p. */
  ghost predicate Elects(snaps: seq<Snap>, log: seq<Entry>, i: int, p: Proc) {
    && 0 <= i < |log| && i + 1 < |snaps| && snaps[i + 1].current == p
    && (log[i].out.Exited? || log[i].out.Slept? || log[i].out.Yielded?)
  }

  /** Going forward from x on the list, one comes to y before one comes to z. */
  ghost predicate InCycle(list: seq<Proc>, x: Proc, y: Proc, z: Proc) {
    exists i, k, j :: 0 <= i < |list| && 0 <= k < |list| && 0 <= j < |list|
                      && list[i] == x && list[k] == y && list[j] == z && Between(i, k, j)
  }

  lemma InCycleFront(list: seq<Proc>, x: Proc, y: Proc, z: Proc, front: Proc)
    requires InCycle(list, x, y, z)
    ensures InCycle([front] + list, x, y, z)
  {
    var i, k, j :| 0 <= i < |list| && 0 <= k < |list| && 0 <= j < |list|
                   && list[i] == x && list[k] == y && list[j] == z && Between(i, k, j);
    var next := [front] + list;
    assert next[i + 1] == x && next[k + 1] == y && next[j + 1] == z && Between(i + 1, k + 1, j + 1);
  }

  lemma InCycleWithout(list: seq<Proc>, n: nat, x: Proc, y: Proc, z: Proc)
    requires InCycle(list, x, y, z) && n < |list| && list[n] !in {x, y, z}
    ensures InCycle(Removed(list, n), x, y, z)
  {
    var i, k, j :| 0 <= i < |list| && 0 <= k < |list| && 0 <= j < |list|
                   && list[i] == x && list[k] == y && list[j] == z && Between(i, k, j);
    var next := Removed(list, n);
    RemovedAt(list, n);
    var i', k', j' := Shifted(i, n), Shifted(k, n), Shifted(j, n);
    assert next[i'] == x && next[k'] == y && next[j'] == z && Between(i', k', j');
  }

  function Shifted(i: int, n: int): int {
    if i < n then i else i - 1
  }

  /** Whoever is elected behind x, if not y, who can run, leaves y before z. */
  lemma InCycleGoesOn(list: seq<Proc>, lives: Lives, x: Proc, next: Proc, idle: Proc, y: Proc, z: Proc)
    requires Distinct(list) && NextInLine(list, lives, x, next, idle) && InCycle(list, x, y, z)
    requires y in list && Runs(lives, y) && next != y
    ensures next != z && InCycle(list, next, y, z)
  {
    hide Runs;
    var i, k, m :| 0 <= i < |list| && 0 <= k < |list| && 0 <= m < |list|
                   && list[i] == x && list[k] == y && list[m] == z && Between(i, k, m);
    var j :| 0 <= j < |list| && list[j] == next && Runs(lives, next) && NoneBetween(list, lives, x, j);
    assert !Between(i, k, j) && j != k;
    assert j != m && Between(j, k, m);
  }

  /** On the way to the next snapshot nobody who stays changes places with anybody. */
  lemma CycleKept(a: Snap, b: Snap, c: Call, e: Entry, x: Proc, y: Proc, z: Proc)
    requires Coherent(b) && Follows(a, b, c, e) && InCycle(a.list, x, y, z) && {x, y, z} <= Members(b.list)
    requires Distinct(a.list)
    ensures InCycle(b.list, x, y, z)
  {
    hide InCycle, Coherent, Comes, Moved, LivesMove, Removed;
    match e.out {
      case Forked(child) => InCycleFront(a.list, x, y, z, child);
      case Reaped(w, _) =>
        var n: nat :| n < |a.list| && a.list[n] == w && b.list == Removed(a.list, n);
        RemovedMembers(a.list, n);
        InCycleWithout(a.list, n, x, y, z);
      case _ =>
    }
  }

  lemma CoherentList(s: Snap)
    requires Coherent(s)
    ensures Distinct(s.list) && s.idle !in s.list && Members(s.list) <= s.lives.Keys == {s.idle} + Members(s.list)
    ensures s.current in s.lives
  {
  }

  /** Whoever is current stays on the list until the next snapshot. */
  lemma CurrentStays(a: Snap, b: Snap, c: Call, e: Entry)
    requires Coherent(a) && Follows(a, b, c, e) && a.current != a.idle
    ensures a.current in b.list
  {
    hide LivesMove, Comes, AllSound, Tree, DistinctPids, PidsIn;
    if e.out.Reaped? {
      var n: nat :| n < |a.list| && a.list[n] == e.out.who && b.list == Removed(a.list, n);
      RemovedMembers(a.list, n);
    }
  }

  /** Whoever has left never comes back. */
  lemma {:induction false} NeverBack(snaps: seq<Snap>, calls: seq<Call>, log: seq<Entry>,
                                     m: nat, n: nat, k: nat, p: Proc)
    requires Traced(snaps, calls, log) && m <= n <= k < |snaps| && p in snaps[m].lives && p !in snaps[n].lives
    ensures p !in snaps[k].lives
    decreases k - n
  {
    hide Coherent, Follows;
    if n < k {
      assert TracedAt(snaps, calls, log, n);
      if p in snaps[n + 1].lives { OnlyForksAdd(snaps[n], snaps[n + 1], calls[n], log[n], p); }
      assert log[n].out.Forked? ==> log[n].out.child !in snaps[m].lives;
      NeverBack(snaps, calls, log, m, n + 1, k, p);
    }
  }

  lemma OnlyForksAdd(a: Snap, b: Snap, c: Call, e: Entry, p: Proc)
    requires Coherent(a) && Coherent(b) && Follows(a, b, c, e) && p in b.lives && p !in a.lives
    ensures e.out == Forked(p)
  {
    hide Comes, ListsMove, LivesMove, AllSound, Tree, DistinctPids, PidsIn;
  }

  /** One step on the way from one turn of p to the next. */
  lemma StillAhead(a: Snap, b: Snap, c: Call, e: Entry, p: Proc, q: Proc)
    requires Coherent(a) && Coherent(b) && Follows(a, b, c, e) && a.current != a.idle
    requires InCycle(a.list, a.current, q, p) && {p, q} <= Members(b.list) && Runs(b.lives, q)
    ensures b.current == q || InCycle(b.list, b.current, q, p)
    ensures b.current == p ==> a.current == p && !(e.out.Exited? || e.out.Slept? || e.out.Yielded?)
  {
    CurrentStays(a, b, c, e);
    CoherentList(a);
    CoherentList(b);
    hide Coherent, InCycle, Comes, Moved, LivesMove, ListsMove, Elected, NextInLine, Runs;
    CycleKept(a, b, c, e, a.current, q, p);
    ElectedIsNext(b.list, b.lives, a.current, a.idle);
    if (e.out.Exited? || e.out.Slept? || e.out.Yielded?) && b.current != q {
      InCycleGoesOn(b.list, b.lives, a.current, b.current, a.idle, q, p);
    }
    NotBoth(b.list, a.current, q, p);
  }

  lemma NotBoth(list: seq<Proc>, x: Proc, y: Proc, z: Proc)
    requires Distinct(list) && InCycle(list, x, y, z)
    ensures y != x && y != z
  {
  }

  lemma AllAround(list: seq<Proc>, p: Proc, q: Proc)
    requires p in list && q in list && p != q
    ensures InCycle(list, p, q, p)
  {
    var i :| 0 <= i < |list| && list[i] == p;
    var k :| 0 <= k < |list| && list[k] == q;
    assert Between(i, k, i);
  }

  /** p, who has a turn at the snapshots m and k, is on the list in between. */
  lemma StaysListed(snaps: seq<Snap>, calls: seq<Call>, log: seq<Entry>, m: nat, n: nat, k: nat, p: Proc)
    requires Traced(snaps, calls, log) && m <= n <= k < |snaps| && p in snaps[m].lives && p in snaps[k].lives
    requires p != snaps[n].idle
    ensures p in snaps[n].list
  {
    hide Coherent, Follows;
    if p !in snaps[n].lives { NeverBack(snaps, calls, log, m, n, k, p); }
    CoherentList(snaps[n]);
  }

  lemma SameIdle(a: Snap, b: Snap, c: Call, e: Entry)
    requires Follows(a, b, c, e)
    ensures b.idle == a.idle
    ensures !(e.out.Exited? || e.out.Slept? || e.out.Yielded?) ==> b.current == a.current
  {
  }

  /** Main result: nobody starves.  Between two turns that schedule gives to p, it gives one to
      every process that stays on the list and can run. */
  lemma NoStarvation(snaps: seq<Snap>, calls: seq<Call>, log: seq<Entry>, i: nat, j: nat, p: Proc, q: Proc)
    returns (m: nat)
    requires Traced(snaps, calls, log) && i < j && Elects(snaps, log, i, p) && Elects(snaps, log, j, p) && p != q
    requires forall n :: i < n <= j + 1 ==> q in snaps[n].list && Runs(snaps[n].lives, q)
    ensures i < m < j && Elects(snaps, log, m, q)
  {
    hide Coherent, Follows, InCycle, Runs;
    m := i + 1;
    CoherentList(snaps[m]);
    CoherentList(snaps[j + 1]);
    IdleOnlyFirst(snaps, calls, log, m);
    AllAround(snaps[m].list, p, q);
    while !Elects(snaps, log, m, q)
      invariant i < m <= j && InCycle(snaps[m].list, snaps[m].current, q, p)
      invariant p != snaps[m].idle
      decreases j - m
    {
      var a, b, c, e := snaps[m], snaps[m + 1], calls[m], log[m];
      assert TracedAt(snaps, calls, log, m);
      IdleOnlyFirst(snaps, calls, log, m);
      SameIdle(a, b, c, e);
      StaysListed(snaps, calls, log, i + 1, m + 1, j + 1, p);
      CoherentList(a);
      NotBoth(a.list, a.current, q, p);
      StillAhead(a, b, c, e, p, q);
      m := m + 1;
    }
    assert m != j;
  }
}
