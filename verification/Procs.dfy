/**
  The process table and its life cycle (lab5/cow/proc.c): fork, exit, wait and kill as atomic
  steps between calls of schedule, over the process list, the hash index and the relation
  links.
 */
module Procs {
  import opened Pids
  import opened Family
  import opened Lifecycle

  const HASH_LIST_SIZE: nat := 1024
  const E_BAD_PROC: int := 2
  const E_INVAL: int := 3
  const E_NO_MEM: int := 4
  const E_NO_FREE_PROC: int := 5
  const E_KILLED: int := 9

  /** The numbers that user programs see (lab5/libs/error.h), and the room for processes. */
  lemma Codes()
    ensures E_BAD_PROC == 2 && E_INVAL == 3 && E_NO_MEM == 4 && E_NO_FREE_PROC == 5 && E_KILLED == 9
    ensures MAX_PROCESS == 4096
  {
  }

  /** What a system call comes to. Slept is a wait that has not returned yet, and Marked a kill
      that returned 0. */
  datatype Outcome =
    | Forked(child: Proc)
    | Exited(who: Proc, code: int)
    | Reaped(who: Proc, code: int)
    | Slept(who: Proc)
    | Marked(who: Proc)
    | Returned(result: int)
    | Yielded
    | Panicked

  /** hash32 with 10 bits: a 32-bit product, of which the top bits are kept. */
  function PidHash(pid: nat): (b: nat)
    ensures b < HASH_LIST_SIZE
  {
    pid * 0x9e37_0001 % 0x1_0000_0000 / 0x40_0000
  }

  ghost predicate Distinct(s: seq<Proc>) {
    forall i, j :: 0 <= i < j < |s| ==> s[i] != s[j]
  }

  function Removed<T>(s: seq<T>, i: nat): (r: seq<T>)
    requires i < |s|
  {
    s[..i] + s[i + 1..]
  }

  lemma RemovedMembers(s: seq<Proc>, i: nat)
    requires Distinct(s) && i < |s|
    ensures forall x :: x in Removed(s, i) <==> x in s && x != s[i]
  {
    forall x | x in s && x != s[i] ensures x in Removed(s, i) {
      var k :| 0 <= k < |s| && s[k] == x;
      assert Removed(s, i)[if k < i then k else k - 1] == x;
    }
  }

  lemma RemovedAt<T>(s: seq<T>, i: nat)
    requires i < |s|
    ensures |Removed(s, i)| == |s| - 1
    ensures forall k :: 0 <= k < |s| - 1 ==> Removed(s, i)[k] == s[if k < i then k else k + 1]
  {
  }

  lemma LaterStays<T>(s: seq<T>, i: nat, k: nat, x: T)
    requires i < |s| && k < |s| - 1 && x != s[i] && x in s[(if k < i then k else k + 1) + 1..]
    ensures x in Removed(s, i)[k + 1..]
  {
    var o := if k < i then k else k + 1;
    var m :| 0 <= m < |s[o + 1..]| && s[o + 1..][m] == x;
    var n := o + 1 + m;
    var r := Removed(s, i);
    var n' := if n < i then n else n - 1;
    assert r[n'] == x && r[k + 1..][n' - k - 1] == x;
  }

  function PidsOf(s: seq<Proc>): (r: seq<nat>)
    reads Members(s)`pid
    ensures |r| == |s| && forall i :: 0 <= i < |s| ==> r[i] == s[i].pid
  {
    if s == [] then [] else [s[0].pid] + PidsOf(s[1..])
  }

  /** The hash buckets hold the processes of the list, each in its place. */
  ghost predicate Hashed(list: seq<Proc>, hash: seq<seq<Proc>>)
    reads Members(list)`pid
  {
    && |hash| == HASH_LIST_SIZE
    && (forall p :: p in list ==> p in hash[PidHash(p.pid)])
    && (forall b, p :: 0 <= b < |hash| && p in hash[b] ==> p in list && PidHash(p.pid) == b)
    && (forall b :: 0 <= b < |hash| ==> Distinct(hash[b]))
  }

  ghost predicate Peaceful(all: set<Proc>, kids: Kids)
    reads all`pid, all`state, all`waitsForChild, all`resume
  {
    AllSound(LivesOf(all), kids)
  }

  /** The lives after a wait of p that came to o. */
  ghost function AfterWait(lives: Lives, p: Proc, pid: int, writable: bool, o: Outcome): Lives {
    match o
    case Reaped(z, _) => TakingUp(lives - {z}, p)
    case Slept(_) => Dozing(lives, p, pid)
    case _ => if writable then TakingUp(lives, p) else lives
  }

  class ProcTable {
    /** the process list, newest first */
    var procList: seq<Proc>
    var hash: seq<seq<Proc>>
    var nrProcess: nat
    var current: Proc
    const idle: Proc
    const boss: Proc
    const alloc: PidAllocator
    ghost var kids: Kids

    constructor (i: Proc, b: Proc, a: PidAllocator)
      ensures idle == i && boss == b && alloc == a && current == i && procList == [b] && nrProcess == 2
      ensures kids == map[i := [b], b := []] && |hash| == HASH_LIST_SIZE
      ensures forall k :: 0 <= k < HASH_LIST_SIZE ==> hash[k] == if k == PidHash(1) then [b] else []
    {
      idle, boss, alloc, current := i, b, a, i;
      procList, nrProcess := [b], 2;
      hash := seq(HASH_LIST_SIZE, k => if k == PidHash(1) then [b] else []);
      kids := map[i := [b], b := []];
    }

    ghost function All(): set<Proc>
      reads `procList
    {
      {idle} + Members(procList)
    }

    /** idleproc is not on the list, initproc is its last element; nr_process counts both. */
    ghost predicate Listed(list: seq<Proc>, nr: nat)
      reads idle`pid, Members(list)`pid, alloc
    {
      && Distinct(list) && idle !in list && idle.pid == 0
      && list != [] && list[|list| - 1] == boss
      && nr == |list| + 1 && |list| < MAX_PROCESS && Numbered(list)
    }

    ghost predicate Numbered(list: seq<Proc>)
      reads Members(list)`pid, alloc
    {
      DistinctPids(PidsOf(list)) && alloc.Safe(PidsOf(list))
    }

    /** Child lists and parent fields agree, and parents are older than their children. */
    ghost predicate Related(list: seq<Proc>, all: set<Proc>, kids: Kids)
      reads idle`parent, Members(list)`parent, all`parent, all`cptr, all`yptr, all`optr
    {
      IsFamily(all, kids) && Aged(list)
    }

    ghost predicate Aged(list: seq<Proc>)
      reads idle`parent, Members(list)`parent
    {
      && idle.parent == null
      && (forall i {:trigger list[i].parent} :: 0 <= i < |list| ==>
            list[i].parent == idle || list[i].parent in list[i + 1..])
    }

    ghost predicate Awake(cur: Proc)
      reads idle`state, boss`state, cur`state
    {
      idle.state == Runnable && boss.state != Zombie && cur.state == Runnable
    }

    /** The list, the count, the hash index and the pid allocator agree. */
    ghost predicate Catalogued(list: seq<Proc>, nr: nat, hash: seq<seq<Proc>>)
      reads idle`pid, Members(list)`pid, alloc
    {
      Listed(list, nr) && Hashed(list, hash)
    }

    /** The relation links and the states of the processes agree. */
    ghost predicate Social(list: seq<Proc>, all: set<Proc>, kids: Kids, cur: Proc)
      reads idle`parent, all`pid, all`state, all`waitsForChild, all`resume
      reads all`parent, all`cptr, all`yptr, all`optr
    {
      && all == {idle} + Members(list) && boss in all
      && cur in all && Related(list, all, kids) && Peaceful(all, kids) && Awake(cur)
    }

    /** What holds in every reachable state, between calls of schedule. */
    ghost predicate Valid()
      reads `procList, `hash, `nrProcess, `current, `kids, All(), alloc
    {
      Catalogued(procList, nrProcess, hash) && Social(procList, All(), kids, current)
    }

    /** find_proc looks into one bucket and finds what a scan of the whole list would find. */
    method FindProc(pid: int) returns (p: Proc?)
      requires Catalogued(procList, nrProcess, hash)
      ensures p != null ==> p in procList && p.pid == pid
      ensures p == null ==> forall q :: q in procList ==> q.pid != pid
    {
      hide PidHash, Listed;
      if 0 < pid < MAX_PID {
        var bucket := hash[PidHash(pid)];
        var i := 0;
        while i < |bucket|
          invariant 0 <= i <= |bucket|
          invariant forall j :: 0 <= j < i ==> bucket[j].pid != pid
        {
          if bucket[i].pid == pid { return bucket[i]; }
          i := i + 1;
        }
      } else {
        forall q | q in procList ensures q.pid != pid {
          PidInRange(q);
        }
      }
      p := null;
    }

    lemma PidInRange(q: Proc)
      requires Listed(procList, nrProcess) && q in procList
      ensures IsPid(q.pid)
    {
      var i :| 0 <= i < |procList| && procList[i] == q;
      assert IsPid(PidsOf(procList)[i]);
    }

    lemma PidsIdentify(p: Proc, q: Proc)
      requires Listed(procList, nrProcess) && p in procList && q in procList && p.pid == q.pid
      ensures p == q
    {
      var i :| 0 <= i < |procList| && procList[i] == p;
      var j :| 0 <= j < |procList| && procList[j] == q;
      assert PidsOf(procList)[i] == PidsOf(procList)[j];
    }

    /** schedule: once around the list, from behind the current process; idleproc if nobody on
        it can run.  le counts the links of the ring, the head of the list being 0. */
    method Schedule()
      requires idle.state == Runnable && current in All() && idle !in procList && Distinct(procList)
      modifies `current
      ensures current in All() && current.state == Runnable
      ensures NextInLine(procList, LivesOf(All()), old(current), current, idle)
      ensures current == Elected(procList, LivesOf(All()), old(current), idle)
    {
      hide LivesOf, FirstRunnable, Order, Place, NextInLine;
      ElectedIsNext(procList, LivesOf(All()), current, idle);
      OrderFits(procList, current);
      var n := |procList|;
      var last: nat := if current == idle then 0 else Place(procList, current);
      ghost var lives, order := LivesOf(All()), Order(procList, current);
      LivesAt(All());
      var le: nat := last;
      var next: Proc? := null;
      ghost var k, wrapped := 0, false;
      assert order[0..] == order;
      while true
        invariant le <= n && k <= n && current == old(current)
        invariant if wrapped then le < last && k == n - last + le else last <= le && k == le - last
        invariant FirstRunnable(order, lives, idle) == FirstRunnable(order[k..], lives, idle)
        invariant next != null ==> next in procList && next.state != Runnable
        decreases !wrapped, n - le
      {
        FirstRunnableAt(order, lives, idle, k);
        le := if le == n then 0 else le + 1;
        wrapped := wrapped || le == 0;
        if le != 0 {
          OrderAt(procList, current, k);
          next := procList[le - 1];
          assert next in All();
          if next.state == Runnable { break; }
          k := k + 1;
        }
        if le == last {
          FirstRunnableAt(order, lives, idle, k);
          break;
        }
      }
      current := if next == null || next.state != Runnable then idle else next;
    }

    lemma LivesAt(all: set<Proc>)
      ensures LivesOf(all).Keys == all && forall q :: q in all ==> LivesOf(all)[q].state == q.state
    {
    }

    method Resched(ghost cur: Proc)
      requires Catalogued(procList, nrProcess, hash) && Social(procList, All(), kids, cur) && current in All()
      modifies `current
      ensures Valid() && current == Elected(procList, LivesOf(All()), old(current), idle)
      ensures NextInLine(procList, LivesOf(All()), old(current), current, idle)
    {
      hide Catalogued, Related, AllSound, LivesOf, Elected, NextInLine;
      IdleUnlisted();
      Schedule();
    }

    lemma IdleUnlisted()
      requires Catalogued(procList, nrProcess, hash)
      ensures idle !in procList && Distinct(procList)
    {
    }

    /** do_kill finds the process and signals it. */
    method Kill(pid: int) returns (r: int, target: Proc?)
      requires Valid()
      modifies Members(procList)`exiting, Members(procList)`state, Members(procList)`waitsForChild
      ensures Valid()
      ensures target == null ==> r == -E_INVAL && forall q :: q in procList ==> q.pid != pid
      ensures target != null ==> target in procList && target.pid == pid && Signalled(target, r)
      ensures forall q :: q in procList && q != target ==> unchanged(q)
      ensures LivesOf(All()) == if target != null && r == 0 then Waking(old(LivesOf(All())), target)
                                else old(LivesOf(All()))
    {
      hide Catalogued, Social, LivesOf, Waking;
      target := FindProc(pid);
      if target == null {
        r := -E_INVAL;
      } else {
        r := Signal(target);
      }
    }

    /** The mark is set; a sleeper that was not marked before is woken; whoever is a zombie, or
        was marked before, keeps its state. */
    twostate predicate Signalled(p: Proc, r: int)
      reads p
    {
      && p.exiting && r == (if old(p.exiting) then -E_KILLED else 0)
      && p.state == (if !old(p.exiting) && old(p.state) == Sleeping then Runnable else old(p.state))
    }

    method Signal(p: Proc) returns (r: int)
      requires Valid() && p in procList
      modifies p`exiting, p`state, p`waitsForChild
      ensures Valid() && Signalled(p, r)
      ensures LivesOf(All()) == if r == 0 then Waking(old(LivesOf(All())), p) else old(LivesOf(All()))
    {
      hide Catalogued, Social, LivesOf, Waking;
      if p.exiting {
        return -E_KILLED;
      }
      Mark(p);
      Rouse(p);
      r := 0;
    }

    method Mark(p: Proc)
      requires Valid() && p in procList
      modifies p`exiting
      ensures Valid() && p.exiting
    {
      hide Catalogued, Social;
      p.exiting := true;
    }

    method Rouse(p: Proc)
      requires Valid() && p in procList
      modifies p`state, p`waitsForChild
      ensures Valid() && p.state == if old(p.state) == Sleeping then Runnable else old(p.state)
      ensures LivesOf(All()) == Waking(old(LivesOf(All())), p)
    {
      hide Catalogued, Related, Peaceful, LivesOf, Waking;
      WakePeacefully(p, All(), kids);
    }

    method WakePeacefully(p: Proc, ghost all: set<Proc>, ghost kids: Kids)
      requires p in all && Peaceful(all, kids)
      modifies p`state, p`waitsForChild
      ensures Peaceful(all, kids) && p.state == if old(p.state) == Sleeping then Runnable else old(p.state)
      ensures LivesOf(all) == Waking(old(LivesOf(all)), p)
    {
      assert Sound(LivesOf(all), kids, p);
      WakeSound(LivesOf(all), kids, p);
      hide AllSound, LivesOf;
      WakeWaiter(p, all);
    }

    /** Both do_exit and do_kill wake a process only if it waits. */
    method WakeWaiter(p: Proc, ghost all: set<Proc>)
      requires p in all && (p.waitsForChild <==> p.state == Sleeping)
      modifies p`state, p`waitsForChild
      ensures LivesOf(all) == old(LivesOf(all))[p := Woken(old(LivesOf(all))[p])]
      ensures p.state == if old(p.state) == Sleeping then Runnable else old(p.state)
      ensures p.waitsForChild <==> p.state == Sleeping
    {
      if p.waitsForChild {
        WakeUp(p);
      }
    }

    /** do_fork: the child is runnable, the youngest child of the caller, first on the list, and
        has the first unused pid. The assertion that the caller waits for nothing never fires. */
    method Fork(memory: bool) returns (o: Outcome)
      requires Valid()
      modifies `procList, `hash, `nrProcess, `kids, alloc, All()`cptr, All()`yptr
      ensures Valid()
      ensures o == if old(nrProcess) >= MAX_PROCESS then Returned(-E_NO_FREE_PROC)
                   else if !memory then Returned(-E_NO_MEM) else Forked(procList[0])
      ensures !o.Forked? ==> procList == old(procList) && kids == old(kids) && alloc.lastPid == old(alloc.lastPid)
      ensures o.Forked? ==> fresh(o.child) && Admitted(o.child) && !o.child.exiting
    {
      hide Catalogued, Social, FirstUnused, Succ, PidsOf;
      if nrProcess >= MAX_PROCESS {
        return Returned(-E_NO_FREE_PROC);
      }
      if !memory {
        return Returned(-E_NO_MEM);
      }
      var p := NewChild();
      Admit(p);
      o := Forked(p);
    }

    lemma ValidParts()
      requires Valid()
      ensures Catalogued(procList, nrProcess, hash) && Social(procList, All(), kids, current)
    {
    }

    lemma CurrentIsSound()
      requires Social(procList, All(), kids, current)
      ensures current in kids && !current.waitsForChild
    {
      assert Sound(LivesOf(All()), kids, current);
    }

    lemma SocialParts(list: seq<Proc>, all: set<Proc>, kids: Kids, cur: Proc)
      requires Social(list, all, kids, cur)
      ensures all == {idle} + Members(list) && boss in all && cur in all
      ensures Related(list, all, kids) && Peaceful(all, kids) && Awake(cur)
    {
    }

    lemma SocialWhole(list: seq<Proc>, all: set<Proc>, kids: Kids, cur: Proc)
      requires all == {idle} + Members(list) && boss in all && cur in all
      requires Related(list, all, kids) && Peaceful(all, kids) && Awake(cur)
      ensures Social(list, all, kids, cur)
    {
    }

    method NewChild() returns (p: Proc)
      requires Valid()
      ensures Valid() && fresh(p) && p.parent == current && p.cptr == null && p.state == Uninit && !p.waitsForChild
      ensures !p.exiting && p.resume == Program
    {
      hide Catalogued, Social;
      CurrentIsSound();
      p := new Proc();
      p.parent := current;
      assert !current.waitsForChild;
    }

    twostate predicate Admitted(new p: Proc)
      reads `procList, `kids, `current, alloc, p
    {
      && procList == [p] + old(procList)
      && p.state == Runnable && !p.waitsForChild && p.resume == Program && p.parent == current
      && (var before := old(kids);
          current in before && kids == before[p := []][current := [p] + before[current]])
      && FirstUnused(Succ(old(alloc.lastPid)), p.pid, old(PidsOf(procList))) && alloc.lastPid == p.pid
    }

    method Admit(p: Proc)
      requires Valid() && p !in All() && nrProcess < MAX_PROCESS
      requires p.parent == current && p.cptr == null && p.state == Uninit && !p.waitsForChild && p.resume == Program
      modifies `procList, `hash, `nrProcess, `kids, alloc, All()`cptr, All()`yptr, p
      ensures Valid() && Admitted(p) && p.exiting == old(p.exiting)
    {
      hide Catalogued, Social, FirstUnused, Succ, PidsOf;
      ghost var list := [p] + procList;
      Index(p);
      label Indexed:
      Relate(p);
      assert unchanged@Indexed(alloc) && unchanged@Indexed(idle`pid);
      assert forall q :: q in Members(list) ==> unchanged@Indexed(q`pid);
      assert Catalogued(list, nrProcess + 1, hash);
      Publish(p);
    }

    method Publish(p: Proc)
      requires Catalogued([p] + procList, nrProcess + 1, hash)
      requires current in kids && Social([p] + procList, All() + {p}, Joined(kids, p, current), current)
      modifies `procList, `nrProcess, `kids
      ensures Valid() && procList == [p] + old(procList) && kids == Joined(old(kids), p, current)
    {
      hide Catalogued, Social;
      ghost var all := All() + {p};
      kids := Joined(kids, p, current);
      procList := [p] + procList;
      nrProcess := nrProcess + 1;
      assert All() == all;
    }

    method Index(p: Proc)
      requires Catalogued(procList, nrProcess, hash) && nrProcess < MAX_PROCESS && p !in All()
      modifies `hash, alloc, p`pid
      ensures Catalogued([p] + procList, nrProcess + 1, hash)
      ensures FirstUnused(Succ(old(alloc.lastPid)), p.pid, old(PidsOf(procList))) && alloc.lastPid == p.pid
    {
      hide Listed, Hashed, FirstUnused, Succ, PidsOf;
      Number(p);
      label Numbered:
      Enter(p);
      assert unchanged@Numbered(alloc) && unchanged@Numbered(idle);
      assert forall q :: q in Members([p] + procList) ==> unchanged@Numbered(q);
    }

    method Relate(p: Proc)
      requires Social(procList, All(), kids, current) && p !in All()
      requires p.parent == current && p.cptr == null && !p.waitsForChild
      modifies All()`cptr, All()`yptr, p`yptr, p`optr, p`state
      ensures current in kids && Social([p] + procList, All() + {p}, Joined(kids, p, current), current)
      ensures p.state == Runnable && p.parent == current
    {
      hide Social, Related, Peaceful;
      CurrentIsSound();
      SocialParts(procList, All(), kids, current);
      ghost var list, all, kids2 := [p] + procList, All() + {p}, Joined(kids, p, current);
      assert all == {idle} + Members(list) && allocated(list) && allocated(all) && allocated(kids2);
      Join(p);
      Welcome(p, All(), kids, current);
      SocialWhole(list, all, kids2, current);
    }

    method Welcome(p: Proc, ghost all: set<Proc>, ghost kids: Kids, ghost cur: Proc)
      requires Peaceful(all, kids) && p !in all && cur in all && cur in kids
      requires cur.state == Runnable && !p.waitsForChild
      modifies p`state
      ensures Peaceful(all + {p}, Joined(kids, p, cur)) && p.state == Runnable
    {
      hide AllSound, Joined;
      ghost var l := Life(p.pid, Runnable, false, p.resume);
      ForkSound(LivesOf(all), kids, p, cur, l);
      p.state := Runnable;
      assert LivesOf(all + {p}) == old(LivesOf(all))[p := l];
    }

    method Number(p: Proc)
      requires Listed(procList, nrProcess) && nrProcess < MAX_PROCESS && p !in All()
      modifies alloc, p`pid
      ensures Listed([p] + procList, nrProcess + 1)
      ensures FirstUnused(Succ(old(alloc.lastPid)), p.pid, old(PidsOf(procList))) && alloc.lastPid == p.pid
    {
      NumberNext(p, procList);
      hide Numbered;
      assert ([p] + procList)[|procList|] == boss;
    }

    method NumberNext(p: Proc, list: seq<Proc>)
      requires Numbered(list) && |list| < MAX_PROCESS && p !in list
      modifies alloc, p`pid
      ensures Numbered([p] + list)
      ensures FirstUnused(Succ(old(alloc.lastPid)), p.pid, old(PidsOf(list))) && alloc.lastPid == p.pid
    {
      hide DistinctPids, FirstUnused, Succ, PidsOf, PidAllocator.Safe;
      ghost var pids := PidsOf(list);
      var pid := TakePid(list);
      assert PidsOf(list) == pids;
      label Taken:
      SetPid(p, pid, list);
      assert unchanged@Taken(alloc);
    }

    method TakePid(list: seq<Proc>) returns (pid: nat)
      requires Numbered(list) && |list| < MAX_PROCESS
      modifies alloc
      ensures alloc.Safe([pid] + PidsOf(list)) && DistinctPids([pid] + PidsOf(list))
      ensures FirstUnused(Succ(old(alloc.lastPid)), pid, PidsOf(list)) && alloc.lastPid == pid
    {
      hide DistinctPids, FirstUnused, Succ, PidAllocator.Safe;
      var pids := PidsOf(list);
      pid := alloc.GetPid(pids);
      assert PidsOf(list) == pids;
      DistinctWithFirst(Succ(old(alloc.lastPid)), pid, pids);
    }

    method SetPid(p: Proc, pid: nat, list: seq<Proc>)
      requires p !in list
      modifies p`pid
      ensures p.pid == pid && PidsOf([p] + list) == [pid] + old(PidsOf(list))
    {
      p.pid := pid;
      assert ([p] + list)[1..] == list;
    }

    method Enter(p: Proc)
      requires Hashed(procList, hash) && p !in All()
      modifies `hash
      ensures Hashed([p] + procList, hash)
    {
      hide PidHash;
      var b := PidHash(p.pid);
      hash := hash[b := [p] + hash[b]];
    }

    method Join(p: Proc)
      requires Related(procList, All(), kids) && Peaceful(All(), kids) && p !in All()
      requires p.parent == current && p.cptr == null && current in All()
      modifies p`yptr, p`optr, All()`yptr, All()`cptr
      ensures Peaceful(All(), kids) && Related([p] + procList, All() + {p}, Joined(kids, p, current))
    {
      hide Aged, Peaceful;
      JoinedAged(p);
      SetLinks(p, All(), kids);
      assert unchanged(idle`parent) && forall q :: q in Members([p] + procList) ==> unchanged(q`parent);
    }

    lemma JoinedAged(p: Proc)
      requires Aged(procList) && p.parent in All()
      ensures Aged([p] + procList)
    {
      var list := [p] + procList;
      forall i | 0 <= i < |list| ensures list[i].parent == idle || list[i].parent in list[i + 1..] {
        assert list[i + 1..] == procList[i..];
        if i > 0 { assert procList[i - 1].parent == list[i].parent; }
      }
    }

    /** do_exit: the caller is a zombie with its code, its parent is awake, its children are
        initproc's, and somebody else runs. It panics for idleproc and initproc. */
    method Exit(code: int) returns (o: Outcome)
      requires Valid()
      modifies `current, `kids, All()`state, All()`waitsForChild, All()`exitCode
      modifies All()`parent, All()`cptr, All()`yptr, All()`optr
      ensures Valid()
      ensures Ended(old(current), code, o)
      ensures o.Exited? ==> current == Elected(procList, LivesOf(All()), old(current), idle)
      ensures o.Panicked? ==> LivesOf(All()) == old(LivesOf(All()))
    {
      hide Catalogued, Social, LivesOf, Elected, Gone;
      var p := current;
      if p == idle || p == boss { return Panicked; }
      Terminate(p, code);
      Resched(idle);
      o := Exited(p, code);
    }

    method Terminate(p: Proc, code: int)
      requires Valid() && p == current && p != idle && p != boss
      modifies `kids, All()`state, All()`waitsForChild, All()`exitCode
      modifies All()`parent, All()`cptr, All()`yptr, All()`optr
      ensures Catalogued(procList, nrProcess, hash) && Social(procList, All(), kids, idle) && Gone(p, code)
      ensures p in All()
    {
      hide Catalogued, Social, Related, Peaceful, Adopted, Wakes, OthersKept, Bereft, LivesOf;
      SocialParts(procList, All(), kids, current);
      Lineage(p);
      Bury(p, code);
      SocialWhole(procList, All(), Adopted(kids, p, boss), idle);
      kids := Adopted(kids, p, boss);
    }

    method Bury(p: Proc, code: int)
      requires Catalogued(procList, nrProcess, hash) && Social(procList, All(), kids, p) && p != idle && p != boss
      requires p.parent != null && p in kids && boss in kids
      modifies p`state, p`exitCode, p.parent`state, p.parent`waitsForChild
      modifies p`cptr, boss`cptr, boss`state, boss`waitsForChild
      modifies Members(kids[p])`parent, Members(kids[p])`yptr, Members(kids[p])`optr, Members(kids[boss])`yptr
      ensures Related(procList, All(), Adopted(kids, p, boss)) && Peaceful(All(), Adopted(kids, p, boss))
      ensures Awake(idle) && p.state == Zombie && p.exitCode == code && OthersKept(All() - {p})
      ensures Wakes(All() - {p}, old(p.parent), kids[p])
      ensures LivesOf(All()) == Bereft(old(LivesOf(All())), p, old(p.parent), kids[p], boss)
    {
      hide Catalogued, Social, Related, Adopted, LivesOf, Bereft, Peaceful, HasZombie, Died, Alerted, AllSound;
      ghost var dad := p.parent;
      Deathbed(p, LivesOf(All()));
      Inter(p, code);
      assert forall q :: q in All() && q !in {p, dad, boss} ==> q.state == old(q.state);
    }

    /** Both parts of do_exit, with what becomes of the three processes that change. */
    method Inter(p: Proc, code: int)
      requires Catalogued(procList, nrProcess, hash) && Social(procList, All(), kids, p) && p != idle && p != boss
      requires p.parent != null && p in kids && boss in kids
      modifies p`state, p`exitCode, p.parent`state, p.parent`waitsForChild
      modifies p`cptr, boss`cptr, boss`state, boss`waitsForChild
      modifies Members(kids[p])`parent, Members(kids[p])`yptr, Members(kids[p])`optr, Members(kids[boss])`yptr
      ensures Related(procList, All(), Adopted(kids, p, boss)) && Peaceful(All(), Adopted(kids, p, boss))
      ensures Awake(idle) && p.state == Zombie && p.exitCode == code
      ensures var dad := old(p.parent);
              && (dad != boss ==> dad.state == if old(dad.state) == Sleeping then Runnable else old(dad.state))
              && boss.state == if old(HasZombie(kids[p])) || (dad == boss && old(boss.state) == Sleeping) then Runnable
                               else old(boss.state)
      ensures LivesOf(All()) == Bereft(old(LivesOf(All())), p, old(p.parent), kids[p], boss)
    {
      hide Catalogued, Social, Related, Adopted, LivesOf, Died, Alerted, AllSound;
      var dad := p.parent;
      Deathbed(p, LivesOf(All()));
      OthersOrphaned(p);
      Die(p, dad, code, All());
      ghost var grim := HasZombie(kids[p]);
      assert grim == old(HasZombie(kids[p])) by {
        assert forall k :: k in kids[p] ==> (k.state == Zombie <==> old(k.state) == Zombie);
      }
      hide HasZombie;
      Bequeath(p, procList, All(), kids);
      assert HasZombie(kids[p]) == grim;
    }

    lemma OthersOrphaned(p: Proc)
      requires Related(procList, All(), kids) && p in All() && p != idle && p.parent != p && boss.parent == idle
      ensures p in kids && p !in kids[p] && boss !in kids[p]
    {
      hide Aged;
      KidsWithin(p, All(), kids);
    }

    lemma Deathbed(p: Proc, lives: Lives)
      requires Catalogued(procList, nrProcess, hash) && Social(procList, All(), kids, p) && p != idle && p != boss
      requires lives == LivesOf(All())
      ensures p.parent != null && p.parent in All() && p.parent != p && boss in All() && p in All() && idle != boss
      ensures procList != [] && procList[|procList| - 1] == boss && Related(procList, All(), kids)
      ensures boss.parent == idle && boss.state != Zombie && boss.state != Uninit && idle.state == Runnable
      ensures forall q :: q in {boss, p.parent} ==> (q.waitsForChild <==> q.state == Sleeping)
      ensures p in kids && Members(kids[p]) <= All()
      ensures AllSound(Alerted(Died(lives, p, p.parent), kids[p], boss), Adopted(kids, p, boss))
    {
      hide Related, Adopted;
      Lineage(p);
      assert Sound(lives, kids, boss) && Sound(lives, kids, p.parent);
      ExitSound(lives, kids, p, p.parent, boss);
    }

    /** What do_exit comes to. */
    twostate predicate Ended(p: Proc, code: int, new o: Outcome)
      reads `kids, `procList, `current, All()
    {
      && o == (if p in {idle, boss} then Panicked else Exited(p, code))
      && (o.Panicked? ==> kids == old(kids) && current == old(current) && OthersKept(All()))
      && (o.Exited? ==> Gone(p, code))
    }

    /** p is a zombie with its code, its children are initproc's, and nobody else became one. */
    twostate predicate Gone(p: Proc, code: int)
      reads `kids, `procList, All()
    {
      && p in All() && old(p.state) == Runnable && p.state == Zombie && p.exitCode == code
      && old(p in kids && boss in kids) && kids == Adopted(old(kids), p, boss)
      && OthersKept(All() - {p}) && Wakes(All() - {p}, old(p.parent), old(kids)[p])
      && old(p.parent != null && p.parent in kids && p in kids[p.parent])
      && LivesOf(All()) == Bereft(old(LivesOf(All())), p, old(p.parent), old(kids)[p], boss)
    }

    /** Of the others, exactly the parent wakes up if it slept, and initproc if it slept and one
        of the children it got is a zombie. */
    twostate predicate Wakes(new others: set<Proc>, dad: Proc?, orphans: seq<Proc>)
      reads others
    {
      forall q :: q in others && old(allocated(q)) ==>
        q.state == (if old(q.state) == Sleeping && (q == dad || (q == boss && old(HasZombie(orphans)))) then Runnable
                    else old(q.state))
    }

    ghost predicate HasZombie(ks: seq<Proc>)
      reads Members(ks)`state
    {
      exists k :: k in ks && k.state == Zombie
    }

    twostate predicate OthersKept(new all: set<Proc>)
      reads all
    {
      forall q :: q in all && old(allocated(q)) ==>
        (q.state == Zombie <==> old(q.state) == Zombie) && q.exitCode == old(q.exitCode)
    }

    /** p dies, and its parent is woken if it waits. */
    method Die(p: Proc, dad: Proc, code: int, ghost all: set<Proc>)
      requires p in all && dad in all && p != dad && (dad.waitsForChild <==> dad.state == Sleeping)
      modifies p`state, p`exitCode, dad`state, dad`waitsForChild
      ensures LivesOf(all) == Died(old(LivesOf(all)), p, dad)
      ensures p.state == Zombie && p.exitCode == code
      ensures dad.state == if old(dad.state) == Sleeping then Runnable else old(dad.state)
      ensures dad.waitsForChild <==> dad.state == Sleeping
    {
      p.state := Zombie;
      p.exitCode := code;
      WakeWaiter(dad, all);
    }

    /** The children of p become initproc's. */
    method Bequeath(p: Proc, ghost list: seq<Proc>, ghost all: set<Proc>, ghost kids: Kids)
      requires all == {idle} + Members(list) && boss in all && p in all && p != boss && p != idle
      requires Related(list, all, kids) && boss.parent == idle && boss.state != Zombie && boss.state != Uninit
      requires boss.waitsForChild <==> boss.state == Sleeping
      requires list != [] && list[|list| - 1] == boss
      modifies p`cptr, boss`cptr, boss`state, boss`waitsForChild
      modifies Members(kids[p])`parent, Members(kids[p])`yptr, Members(kids[p])`optr, Members(kids[boss])`yptr
      ensures Related(list, all, Adopted(kids, p, boss)) && boss.state != Zombie
      ensures boss.state == if HasZombie(kids[p]) then Runnable else old(boss.state)
      ensures Members(kids[p]) <= all && LivesOf(all) == Alerted(old(LivesOf(all)), kids[p], boss)
    {
      hide IsFamily, Adopted, Chain, Closed, LivesOf, Alerted;
      KidsWithin(p, all, kids);
      HandOver(p, all, kids);
    }

    method HandOver(p: Proc, ghost all: set<Proc>, ghost kids: Kids)
      requires IsFamily(all, kids) && p in all && boss in all && p != boss && boss !in kids[p]
      requires boss.state != Zombie && boss.state != Uninit && (boss.waitsForChild <==> boss.state == Sleeping)
      modifies p`cptr, boss`cptr, boss`state, boss`waitsForChild
      modifies Members(kids[p])`parent, Members(kids[p])`yptr, Members(kids[p])`optr, Members(kids[boss])`yptr
      ensures IsFamily(all, Adopted(kids, p, boss)) && boss.state != Zombie
      ensures boss.state == if HasZombie(kids[p]) then Runnable else old(boss.state)
      ensures forall q :: q in kids[p] ==> q.parent == boss
      ensures Members(kids[p]) <= all && LivesOf(all) == Alerted(old(LivesOf(all)), kids[p], boss)
    {
      hide IsFamily, Adopted;
      KidsWithin(p, all, kids);
      Disown(p, boss, all, kids);
    }

    lemma KidsWithin(p: Proc, all: set<Proc>, kids: Kids)
      requires IsFamily(all, kids) && p in all
      ensures p in kids && Members(kids[p]) <= all && forall k :: k in kids[p] ==> k.parent == p
    {
      ChildrenOf(p, kids[p]);
    }

    /** initproc is nobody's child but idleproc's; a listed process has another one as parent,
        and only that one has it as a child. */
    lemma Lineage(p: Proc)
      requires Catalogued(procList, nrProcess, hash) && Related(procList, All(), kids) && p in procList
      ensures procList[|procList| - 1] == boss && boss.parent == idle && idle.parent == null
      ensures boss in kids && p in kids
      ensures p.parent != null && p.parent in All() && p.parent in kids && p.parent != p && p in kids[p.parent]
      ensures Members(kids[boss]) <= All() && Members(kids[p]) <= All()
      ensures forall q :: q in All() && q != p.parent ==> p !in kids[q]
    {
      hide Hashed, Numbered, Chain;
      assert boss == procList[|procList| - 1];
      var i :| 0 <= i < |procList| && procList[i] == p;
      assert procList[i].parent == idle || procList[i].parent in procList[i + 1..];
      forall q | q in All() && p in kids[q] ensures q == p.parent {
        KidsWithin(q, All(), kids);
      }
    }

    /** The first part of do_wait: is there a child to wait for, and is one of those a zombie?
        A pid is looked up in the hash index, and any child is found along cptr and optr. */
    method FindZombie(pid: int) returns (haskid: bool, z: Proc?)
      requires Valid()
      ensures current in kids
      ensures z != null ==> z in kids[current] && Matches(LifeOf(z), pid) && z.state == Zombie
      ensures z != null && pid == 0 ==> YoungestDead(kids[current], LivesOf(All()), z)
      ensures haskid <==> exists k :: k in kids[current] && Matches(LifeOf(k), pid)
      ensures z == null ==> forall k :: k in kids[current] && Matches(LifeOf(k), pid) ==> k.state != Zombie
    {
      hide Catalogued, Social, YoungestDead, LivesOf;
      if pid != 0 {
        z, haskid := FindChild(pid);
      } else {
        z, haskid := ScanChildren();
      }
    }

    method FindChild(pid: int) returns (z: Proc?, haskid: bool)
      requires Valid() && pid != 0
      ensures current in kids
      ensures z != null ==> z in kids[current] && z.pid == pid && z.state == Zombie
      ensures haskid <==> exists k :: k in kids[current] && k.pid == pid
      ensures z == null ==> forall k :: k in kids[current] && k.pid == pid ==> k.state != Zombie
    {
      hide Catalogued, Social;
      ChildrenOfCurrent(pid);
      var proc := FindProc(pid);
      haskid := proc != null && proc.parent == current;
      z := if haskid && proc.state == Zombie then proc else null;
    }

    /** The children of current are the listed processes with that parent; two children never
        share a pid. */
    lemma ChildrenOfCurrent(pid: int)
      requires Valid()
      ensures current in kids && forall k :: k in kids[current] <==> k in procList && k.parent == current
      ensures forall k, l :: k in procList && l in procList && k.pid == pid == l.pid ==> k == l
    {
      hide PidsOf, Peaceful, Hashed, Chain;
      KidsWithin(current, All(), kids);
      forall k | k in All() ensures k in kids[current] <==> k in procList && k.parent == current {
        assert k.parent != null ==> k in kids[k.parent];
      }
      forall k, l | k in procList && l in procList && k.pid == pid == l.pid ensures k == l {
        PidsIdentify(k, l);
      }
    }

    method ScanChildren() returns (z: Proc?, haskid: bool)
      requires Valid()
      ensures current in kids
      ensures z != null ==> z in kids[current] && z.state == Zombie
      ensures z != null ==> YoungestDead(kids[current], LivesOf(All()), z)
      ensures haskid <==> exists k :: k in kids[current]
      ensures z == null ==> forall k :: k in kids[current] ==> k.state != Zombie
    {
      hide Catalogued, Social;
      ghost var ks := CurrentChain();
      ghost var n := 0;
      haskid := false;
      z := current.cptr;
      while z != null
        invariant n <= |ks| && z == if n < |ks| then ks[n] else null
        invariant haskid <==> n > 0
        invariant forall i :: 0 <= i < n ==> ks[i].state != Zombie
        decreases |ks| - n
      {
        haskid := true;
        assert z in ks;
        if z.state == Zombie {
          FoundYoungest(ks, n);
          return;
        }
        z := z.optr;
        n := n + 1;
      }
      assert n > 0 ==> ks[0] in ks;
    }

    lemma FoundYoungest(ks: seq<Proc>, n: nat)
      requires Valid() && current in kids && ks == kids[current] && n < |ks| && ks[n].state == Zombie
      requires forall i :: 0 <= i < n ==> ks[i].state != Zombie
      ensures YoungestDead(ks, LivesOf(All()), ks[n])
    {
      hide Catalogued, Peaceful, Chain;
      KidsWithin(current, All(), kids);
      assert forall i :: 0 <= i < |ks| ==> ks[i] in Members(ks);
    }

    lemma CurrentChain() returns (ks: seq<Proc>)
      requires Valid()
      ensures current in kids && ks == kids[current] && Chain(current, ks)
    {
      ks := kids[current];
    }

    /** The zombie leaves the hash index, its parent's children and the process list. */
    method Reap(z: Proc)
      requires Valid() && current in kids && z in kids[current] && z.state == Zombie && current != idle
      modifies `procList, `hash, `nrProcess, `kids
      modifies All()`optr, All()`yptr, current`cptr
      ensures Valid() && Unlisted(z) && LivesOf(All()) == old(LivesOf(All())) - {z}
    {
      hide Catalogued, Social, Without, LivesOf;
      ghost var all := All();
      ghost var j := Position(z);
      var i: nat :| i < |procList| && procList[i] == z;
      Unhash(z, i);
      label Unhashed:
      ghost var rest := Removed(procList, i);
      Detach(z, i, j);
      assert unchanged@Unhashed(alloc) && unchanged@Unhashed(idle`pid);
      assert forall q :: q in Members(rest) ==> unchanged@Unhashed(q`pid);
      assert Catalogued(rest, nrProcess - 1, hash);
      Forget(z, i, j);
      assert LivesOf(all) == old(LivesOf(all));
      LivesWithout(all, z);
    }

    lemma LivesWithout(all: set<Proc>, z: Proc)
      ensures LivesOf(all - {z}) == LivesOf(all) - {z}
    {
    }

    /** z is off the list and off its parent's children, and nothing else has moved. */
    twostate predicate Unlisted(z: Proc)
      reads `procList, `kids, `current
    {
      && All() == old(All()) - {z}
      && (exists i: nat :: i < |old(procList)| && old(procList)[i] == z && procList == Removed(old(procList), i))
      && current in old(kids)
      && (exists j: nat :: j < |old(kids)[current]| && old(kids)[current][j] == z
                           && kids == Without(old(kids), z, current, j))
    }

    lemma Position(z: Proc) returns (j: nat)
      requires Valid() && current in kids && z in kids[current] && z.state == Zombie
      ensures z in procList && z != boss && z != idle && j < |kids[current]| && kids[current][j] == z
      ensures Members(kids[current]) <= All() && Distinct(procList) && nrProcess > 0 && current in All()
    {
      hide PidsOf, Peaceful, Hashed, Chain;
      KidsWithin(current, All(), kids);
      assert z.parent == current && idle.parent == null;
      assert z in All() && z !in {idle};
      j :| 0 <= j < |kids[current]| && kids[current][j] == z;
    }

    method Unhash(z: Proc, ghost i: nat)
      requires Catalogued(procList, nrProcess, hash) && i < |procList| && procList[i] == z && z != boss
      modifies `hash
      ensures nrProcess > 0 && Catalogued(Removed(procList, i), nrProcess - 1, hash)
    {
      hide PidHash, Listed;
      ListedWithout(i);
      var b := PidHash(z.pid);
      var bucket := hash[b];
      var n: nat :| n < |bucket| && bucket[n] == z;
      InBucket(i, b, n);
      hash := hash[b := Removed(bucket, n)];
      assert unchanged(alloc) && unchanged(idle) && forall q :: q in Members(Removed(procList, i)) ==> unchanged(q);
    }

    lemma InBucket(i: nat, b: nat, n: nat)
      requires Hashed(procList, hash) && Distinct(procList) && i < |procList|
      requires b == PidHash(procList[i].pid) && n < |hash[b]| && hash[b][n] == procList[i]
      ensures Hashed(Removed(procList, i), hash[b := Removed(hash[b], n)])
    {
      hide PidHash;
      var bucket := hash[b];
      RemovedMembers(bucket, n);
      RemovedMembers(procList, i);
      assert Distinct(bucket);
      assert Distinct(Removed(bucket, n));
    }

    lemma ListedWithout(i: nat)
      requires Listed(procList, nrProcess) && i < |procList| && procList[i] != boss
      ensures nrProcess > 0 && Listed(Removed(procList, i), nrProcess - 1) && Distinct(procList)
    {
      hide Numbered, Removed;
      var list := Removed(procList, i);
      RemovedAt(procList, i);
      RemovedMembers(procList, i);
      NumberedWithout(i);
      assert list[|list| - 1] == boss;
    }

    lemma NumberedWithout(i: nat)
      requires Numbered(procList) && i < |procList|
      ensures Numbered(Removed(procList, i))
    {
      hide PidsOf;
      var list, pids := Removed(procList, i), PidsOf(procList);
      assert PidsOf(list) == Removed(pids, i);
      assert forall p :: p in Removed(pids, i) ==> p in pids;
    }

    method Detach(z: Proc, ghost i: nat, ghost j: nat)
      requires Social(procList, All(), kids, current) && i < |procList| && procList[i] == z && z.state == Zombie
      requires current in kids && j < |kids[current]| && kids[current][j] == z
      requires z != idle && z != boss && Distinct(procList)
      requires Members(kids[current]) <= All()
      modifies Members(kids[current])`optr, Members(kids[current])`yptr, current`cptr
      ensures Social(Removed(procList, i), All() - {z}, Without(kids, z, current, j), current)
    {
      hide Social, Related, Peaceful, Without, Removed;
      ghost var list, all, kids2 := Removed(procList, i), All() - {z}, Without(kids, z, current, j);
      SocialParts(procList, All(), kids, current);
      RemovalSound(z, i, j);
      RemovalAged(z, i);
      assert allocated(list) && allocated(all) && allocated(kids2);
      Untie(z, i, j);
      SocialWhole(list, all, kids2, current);
    }

    method Untie(z: Proc, ghost i: nat, ghost j: nat)
      requires Related(procList, All(), kids) && i < |procList| && procList[i] == z && Aged(Removed(procList, i))
      requires current in kids && j < |kids[current]| && kids[current][j] == z && Members(kids[current]) <= All()
      requires z in kids && kids[z] == [] && Distinct(procList) && z.parent == current
      modifies Members(kids[current])`optr, Members(kids[current])`yptr, current`cptr
      ensures Related(Removed(procList, i), All() - {z}, Without(kids, z, current, j))
    {
      hide Aged;
      ghost var rest := Removed(procList, i);
      assert Members(rest) <= All();
      RemoveLinks(z, All(), kids, j);
      assert unchanged(idle`parent) && forall q :: q in Members(rest) ==> unchanged(q`parent);
    }

    lemma RemovalSound(z: Proc, i: nat, j: nat)
      requires Social(procList, All(), kids, current) && i < |procList| && procList[i] == z && z.state == Zombie
      requires current in kids && j < |kids[current]| && kids[current][j] == z
      requires Distinct(procList) && z != idle && z != boss
      ensures Peaceful(All() - {z}, Without(kids, z, current, j))
      ensures z in kids && kids[z] == [] && z.parent == current
      ensures All() - {z} == {idle} + Members(Removed(procList, i))
    {
      hide Aged, AllSound, Removed, Without;
      RemovedMembers(procList, i);
      KidsWithin(current, All(), kids);
      var lives := LivesOf(All());
      assert Sound(lives, kids, z) by { assert lives[z].state == Zombie; AllSoundAt(lives, kids, z); }
      assert Chain(current, kids[current]);
      forall q | q in kids && q != current ensures z !in kids[q] {
        KidsWithin(q, All(), kids);
      }
      ReapSound(lives, kids, z, current, j);
      assert Members(Removed(procList, i)) == Members(procList) - {z};
      assert LivesOf(All() - {z}) == lives - {z};
    }

    lemma RemovalAged(z: Proc, i: nat)
      requires Related(procList, All(), kids) && i < |procList| && procList[i] == z && z in kids && kids[z] == []
      ensures Aged(Removed(procList, i))
    {
      hide Chain, Removed;
      var list, rest := procList, Removed(procList, i);
      assert |rest| == |list| - 1 && forall k :: 0 <= k < |rest| ==> rest[k] == list[if k < i then k else k + 1] by {
        RemovedAt(list, i);
      }
      forall k | 0 <= k < |rest| ensures rest[k].parent == idle || rest[k].parent in rest[k + 1..] {
        var o := if k < i then k else k + 1;
        assert list[o].parent == idle || list[o].parent in list[o + 1..];
        if list[o].parent != idle {
          var dad: Proc := list[o].parent;
          assert dad != z;
          LaterStays(list, i, k, dad);
        }
      }
    }

    method Forget(z: Proc, i: nat, ghost j: nat)
      requires i < |procList| && procList[i] == z && current in kids && j < |kids[current]|
      requires nrProcess > 0 && Catalogued(Removed(procList, i), nrProcess - 1, hash)
      requires Social(Removed(procList, i), All() - {z}, Without(kids, z, current, j), current)
      modifies `procList, `nrProcess, `kids
      ensures Valid() && All() == old(All()) - {z}
      ensures procList == Removed(old(procList), i) && kids == Without(old(kids), z, current, j)
    {
      hide Catalogued, Related, Peaceful;
      kids := Without(kids, z, current, j);
      procList := Removed(procList, i);
      nrProcess := nrProcess - 1;
    }

    /** The rest of do_wait's loop body: the caller sleeps until a child exits. */
    method Sleep(pid: int)
      requires Valid() && current != idle && current in kids
      requires exists k :: k in kids[current] && Matches(LifeOf(k), pid)
      requires forall k :: k in kids[current] && Matches(LifeOf(k), pid) ==> k.state != Zombie
      modifies `current, current`state, current`waitsForChild, current`resume
      ensures Valid() && old(current).state == Sleeping && old(current).resume == Waiting(pid)
      ensures LivesOf(All()) == Dozing(old(LivesOf(All())), old(current), pid)
      ensures current == Elected(procList, LivesOf(All()), old(current), idle)
    {
      hide Catalogued, Social, LivesOf, Elected, Dozing;
      NotOwnParent();
      FallAsleep(current, pid);
      Resched(idle);
    }

    lemma NotOwnParent()
      requires Valid() && current != idle
      ensures current.parent != current && current in All()
    {
      hide Related;
      Lineage(current);
    }

    method FallAsleep(p: Proc, pid: int)
      requires Social(procList, All(), kids, p) && p != idle && p in kids && p.parent != p
      requires exists k :: k in kids[p] && Matches(LifeOf(k), pid)
      requires forall k :: k in kids[p] && Matches(LifeOf(k), pid) ==> k.state != Zombie
      modifies p`state, p`waitsForChild, p`resume
      ensures Social(procList, All(), kids, idle) && p.state == Sleeping && p.resume == Waiting(pid)
      ensures LivesOf(All()) == Dozing(old(LivesOf(All())), p, pid)
    {
      hide Social, Related, AllSound, LivesOf;
      SocialParts(procList, All(), kids, p);
      SleepIsSound(p, pid, LivesOf(All()));
      Doze(p, pid, All());
      SocialWhole(procList, All(), kids, idle);
    }

    method Doze(p: Proc, pid: int, ghost all: set<Proc>)
      requires p in all
      modifies p`state, p`waitsForChild, p`resume
      ensures LivesOf(all) == Dozing(old(LivesOf(all)), p, pid)
      ensures p.state == Sleeping && p.resume == Waiting(pid)
    {
      p.state := Sleeping;
      p.waitsForChild := true;
      p.resume := Waiting(pid);
    }

    lemma SleepIsSound(p: Proc, pid: int, lives: Lives)
      requires Social(procList, All(), kids, p) && p in kids && p.parent != p && lives == LivesOf(All())
      requires exists k :: k in kids[p] && Matches(LifeOf(k), pid)
      requires forall k :: k in kids[p] && Matches(LifeOf(k), pid) ==> k.state != Zombie
      ensures p in lives && AllSound(Dozing(lives, p, pid), kids)
    {
      hide Aged, AllSound, Chain;
      KidsWithin(p, All(), kids);
      SleepSound(lives, kids, p, pid);
    }

    /** do_wait up to the point where it returns or sleeps. The panic for idleproc and initproc
        never fires, because neither is ever a zombie. */
    method Wait(pid: int, writable: bool) returns (o: Outcome)
      requires Valid() && current != idle
      modifies `procList, `hash, `nrProcess, `kids, `current
      modifies All()`optr, All()`yptr, current`cptr, current`state, current`waitsForChild, current`resume
      ensures Answer(pid, writable, o, old(current))
      ensures Valid()
      ensures LivesOf(All()) == AfterWait(old(LivesOf(All())), old(current), pid, writable, o)
      ensures current == if o.Slept? then Elected(procList, LivesOf(All()), old(current), idle) else old(current)
    {
      hide Catalogued, Social, Elected, Dozing, LivesOf, TakingUp, YoungestDead;
      ValidParts();
      CurrentIsSound();
      if !writable {
        return Returned(-E_INVAL);
      }
      o := Look(pid);
    }

    method Look(pid: int) returns (o: Outcome)
      requires Valid() && current != idle
      modifies `procList, `hash, `nrProcess, `kids, `current
      modifies All()`optr, All()`yptr, current`cptr, current`state, current`waitsForChild, current`resume
      ensures Answer(pid, true, o, old(current))
      ensures Valid()
      ensures LivesOf(All()) == AfterWait(old(LivesOf(All())), old(current), pid, true, o)
      ensures current == if o.Slept? then Elected(procList, LivesOf(All()), old(current), idle) else old(current)
    {
      hide Catalogued, Social, Without, Removed, Elected, Dozing, LivesOf, TakingUp, YoungestDead;
      var haskid, z := FindZombie(pid);
      if z != null {
        o := Collect(z, pid);
      } else if haskid {
        o := Await(pid);
      } else {
        o := GiveUp(pid);
      }
    }

    method GiveUp(pid: int) returns (o: Outcome)
      requires Valid() && current in kids && forall k :: k in kids[current] ==> !Matches(LifeOf(k), pid)
      modifies current`resume
      ensures Valid() && o == Returned(-E_BAD_PROC) && Answer(pid, true, o, current)
      ensures LivesOf(All()) == TakingUp(old(LivesOf(All())), current)
    {
      hide Catalogued, Social, LivesOf, TakingUp, YoungestDead;
      o := Returned(-E_BAD_PROC);
      TakeUp(All());
    }

    method Await(pid: int) returns (o: Outcome)
      requires Valid() && current != idle && current in kids
      requires exists k :: k in kids[current] && Matches(LifeOf(k), pid)
      requires forall k :: k in kids[current] && Matches(LifeOf(k), pid) ==> k.state != Zombie
      modifies `current, current`state, current`waitsForChild, current`resume
      ensures Valid() && o == Slept(old(current)) && Answer(pid, true, o, old(current))
      ensures LivesOf(All()) == Dozing(old(LivesOf(All())), old(current), pid)
      ensures current == Elected(procList, LivesOf(All()), old(current), idle)
    {
      hide Catalogued, Social, Elected, Dozing, LivesOf, YoungestDead;
      o := Slept(current);
      Sleep(pid);
    }

    method Collect(z: Proc, pid: int) returns (o: Outcome)
      requires Valid() && current != idle && current in kids && z in kids[current] && z.state == Zombie
      requires Matches(LifeOf(z), pid) && (pid == 0 ==> YoungestDead(kids[current], LivesOf(All()), z))
      modifies `procList, `hash, `nrProcess, `kids
      modifies All()`optr, All()`yptr, current`cptr, current`resume
      ensures Valid() && o == Reaped(z, z.exitCode) && Answer(pid, true, o, current)
      ensures LivesOf(All()) == TakingUp(old(LivesOf(All())) - {z}, current)
    {
      hide Catalogued, Social, Without, Removed, LivesOf, TakingUp, YoungestDead;
      o := Reaped(z, z.exitCode);
      Reap(z);
      TakeUp(All());
    }

    /** A zombie among the matching children is reaped and its code delivered; without one the
        caller sleeps; without a matching child there is nothing to wait for. */
    twostate predicate Answer(pid: int, writable: bool, new o: Outcome, caller: Proc)
      reads `procList, `kids, `current, caller
    {
      caller in old(kids) && var ks := old(kids)[caller];
      match o
      case Reaped(z, code) =>
        && writable && z in ks && old(Matches(LifeOf(z), pid) && z.state == Zombie && z.exitCode == code)
        && (pid == 0 ==> YoungestDead(ks, old(LivesOf(All())), z))
        && Unlisted(z) && current == caller && caller.resume == Program
      case Slept(p) =>
        && writable && p == caller && caller.state == Sleeping && caller.resume == Waiting(pid)
        && old((exists k :: k in ks && Matches(LifeOf(k), pid))
               && forall k :: k in ks && Matches(LifeOf(k), pid) ==> k.state != Zombie)
        && procList == old(procList) && kids == old(kids)
      case Returned(r) =>
        && r == (if writable then -E_BAD_PROC else -E_INVAL)
        && (writable ==> old(forall k :: k in ks ==> !Matches(LifeOf(k), pid)))
        && procList == old(procList) && kids == old(kids) && current == caller
        && (writable ==> caller.resume == Program)
      case _ => false
    }

    method TakeUp(ghost all: set<Proc>)
      requires Valid() && all == All()
      modifies current`resume
      ensures Valid() && current.resume == Program
      ensures current in old(LivesOf(all)) && LivesOf(all) == TakingUp(old(LivesOf(all)), current)
    {
      hide Catalogued, Related, AllSound;
      TakenUpSound(LivesOf(all), kids, current);
      current.resume := Program;
      assert LivesOf(all) == old(LivesOf(all))[current := old(LivesOf(all))[current].(resume := Program)];
    }

    /** After proc_init: idleproc, and initproc as its only child. */
    ghost predicate AsBooted()
      reads this, idle, boss, alloc
    {
      && idle != boss && current == idle && procList == [boss] && nrProcess == 2
      && kids == map[idle := [boss], boss := []]
      && |hash| == HASH_LIST_SIZE
      && (forall k :: 0 <= k < HASH_LIST_SIZE ==> hash[k] == if k == PidHash(1) then [boss] else [])
      && idle.pid == 0 && boss.pid == 1 && idle.state == boss.state == Runnable
      && !idle.waitsForChild && !boss.waitsForChild && !idle.exiting && !boss.exiting
      && idle.parent == null && boss.parent == idle && idle.cptr == boss && boss.cptr == null
      && boss.yptr == null && boss.optr == null && alloc.Safe([1])
    }

    lemma BootedValid()
      requires AsBooted()
      ensures Valid()
    {
      hide Listed, Hashed, Related, Peaceful;
      BootedListed();
      BootedHashed();
      BootedRelated();
      BootedPeaceful();
      assert Members(procList) == {boss};
    }

    lemma BootedListed()
      requires AsBooted()
      ensures Listed(procList, nrProcess)
    {
      assert PidsOf(procList) == [1];
    }

    lemma BootedHashed()
      requires AsBooted()
      ensures Hashed(procList, hash)
    {
      hide PidHash;
    }

    lemma BootedRelated()
      requires AsBooted()
      ensures Related(procList, All(), kids)
    {
      assert All() == {idle, boss};
      assert Chain(idle, [boss]) && Chain(boss, []);
    }

    lemma BootedPeaceful()
      requires AsBooted()
      ensures Peaceful(All(), kids)
    {
      assert All() == {idle, boss};
      assert Sound(LivesOf(All()), kids, idle) && Sound(LivesOf(All()), kids, boss);
    }
  }

  /** proc_init: idleproc with pid 0 and its child initproc with the first pid, 1. */
  method ProcInit() returns (t: ProcTable)
    ensures t.Valid() && t.AsBooted() && t.idle.resume == t.boss.resume == Program
    ensures fresh(t) && fresh(t.idle) && fresh(t.boss) && fresh(t.alloc)
  {
    hide PidHash, ProcTable.Valid, PidAllocator.Safe;
    var i := new Proc();
    var b := new Proc();
    var a := new PidAllocator();
    var pid := FirstPid(a);
    SetUp(i, b, pid);
    t := new ProcTable(i, b, a);
    t.BootedValid();
  }

  method SetUp(i: Proc, b: Proc, pid: nat)
    requires i != b
    modifies i, b
    ensures i.pid == 0 && b.pid == pid && i.state == b.state == Runnable && i.cptr == b && b.parent == i
    ensures i.waitsForChild == old(i.waitsForChild) && b.waitsForChild == old(b.waitsForChild)
    ensures i.exiting == old(i.exiting) && b.exiting == old(b.exiting)
    ensures i.resume == old(i.resume) && b.resume == old(b.resume)
    ensures i.parent == old(i.parent) && b.cptr == old(b.cptr) && b.yptr == old(b.yptr) && b.optr == old(b.optr)
  {
    i.pid, i.state, i.cptr := 0, Runnable, b;
    b.pid, b.state, b.parent := pid, Runnable, i;
  }

  method FirstPid(a: PidAllocator) returns (pid: nat)
    requires a.lastPid == a.nextSafe == MAX_PID
    modifies a
    ensures pid == 1 && a.Safe([1])
  {
    pid := a.GetPid([]);
    assert FirstUnused(1, 1, []);
    FirstUnusedIsUnique(1, 1, pid, []);
    assert [1] == [pid] + [];
  }
}
