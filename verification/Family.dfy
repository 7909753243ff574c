/**
  The relation links between processes (lab5/cow/proc.c:149-175 and 511-526): every process
  has a list of children threaded through optr and yptr, edited in place.
 */
module Family {
  datatype ProcState = Uninit | Sleeping | Runnable | Zombie

  /** Where a process goes on when it is scheduled: in its own program, or inside do_wait. */
  datatype Resume = Program | Waiting(pid: int)

  class Proc {
    var pid: nat
    var state: ProcState
    var exiting: bool
    var exitCode: int
    /** wait_state, which is WT_CHILD or 0 */
    var waitsForChild: bool
    var resume: Resume
    var parent: Proc?
    var cptr: Proc?
    var yptr: Proc?
    var optr: Proc?

    /** alloc_proc */
    constructor ()
      ensures state == Uninit && !exiting && !waitsForChild && resume == Program
      ensures parent == cptr == yptr == optr == null
    {
      pid, state, exiting, exitCode, waitsForChild, resume := 0, Uninit, false, 0, false, Program;
      parent, cptr, yptr, optr := null, null, null, null;
    }
  }

  type Kids = map<Proc, seq<Proc>>

  ghost function Members(ks: seq<Proc>): set<Proc> {
    set k | k in ks
  }

  /** The children of p, youngest first, are ks. */
  ghost predicate Chain(p: Proc, ks: seq<Proc>)
    reads p`cptr, Members(ks)`parent, Members(ks)`yptr, Members(ks)`optr
  {
    && p.cptr == (if ks == [] then null else ks[0])
    && (forall i, j :: 0 <= i < j < |ks| ==> ks[i] != ks[j])
    && (forall i {:trigger ks[i].parent} :: 0 <= i < |ks| ==> ks[i].parent == p)
    && (forall i {:trigger ks[i].optr} :: 0 <= i < |ks| ==> ks[i].optr == if i + 1 < |ks| then ks[i + 1] else null)
    && (forall i {:trigger ks[i].yptr} :: 0 <= i < |ks| ==> ks[i].yptr == if i > 0 then ks[i - 1] else null)
  }

  /** Distinct parents have distinct children. */
  lemma ChildrenApart(p: Proc, q: Proc, ks: seq<Proc>, ls: seq<Proc>)
    requires Chain(p, ks) && Chain(q, ls) && p != q
    ensures Members(ks) !! Members(ls)
  {
    forall k | k in ks ensures k !in ls {
      var i :| 0 <= i < |ks| && ks[i] == k;
      assert ks[i].parent == p;
      forall j | 0 <= j < |ls| ensures ls[j] != k { assert ls[j].parent == q; }
    }
  }

  ghost predicate Closed(all: set<Proc>, kids: Kids) {
    kids.Keys == all && forall p, k :: p in all && k in kids[p] ==> k in all
  }

  /** The child lists hold exactly the processes whose parent field points there. */
  ghost predicate IsFamily(all: set<Proc>, kids: Kids)
    reads all`parent, all`cptr, all`yptr, all`optr
  {
    && Closed(all, kids)
    && (forall p :: p in all ==> Chain(p, kids[p]))
    && (forall q :: q in all && q.parent != null ==> q.parent in all && q in kids[q.parent])
  }

  lemma NoChildren(p: Proc)
    requires p.cptr == null
    ensures Chain(p, [])
  {
  }

  lemma NotAmongTheRest(p: Proc, ks: seq<Proc>, i: nat)
    requires Chain(p, ks) && i < |ks|
    ensures ks[i] !in ks[..i] + ks[i + 1..]
  {
  }

  /** set_links: p becomes the youngest child of its parent. */
  method SetLinks(p: Proc, ghost all: set<Proc>, ghost kids: Kids)
    requires IsFamily(all, kids) && p !in all
    requires p.parent != null && p.parent in all && p.cptr == null
    modifies p`yptr, p`optr, p.parent`cptr, Members(kids[p.parent])`yptr
    ensures IsFamily(all + {p}, kids[p := []][p.parent := [p] + kids[p.parent]])
  {
    hide Chain;
    var dad := p.parent;
    ghost var ks := kids[dad];
    assert Chain(dad, ks) && allocated(kids);
    forall q | q in all && q != dad ensures Members(kids[q]) !! Members(ks) && p !in kids[q] {
      ChildrenApart(dad, q, ks, kids[q]);
    }
    Link(p, dad, ks);
    NoChildren(p);
  }

  method Link(p: Proc, dad: Proc, ghost ks: seq<Proc>)
    requires Chain(dad, ks) && p !in ks && p.parent == dad
    modifies p`yptr, p`optr, dad`cptr, Members(ks)`yptr
    ensures Chain(dad, [p] + ks)
  {
    p.yptr := null;
    p.optr := dad.cptr;
    if p.optr != null {
      p.optr.yptr := p;
    }
    dad.cptr := p;
  }

  /** remove_links: p, which has no children, leaves its parent's list. */
  method RemoveLinks(p: Proc, ghost all: set<Proc>, ghost kids: Kids, ghost i: nat)
    requires IsFamily(all, kids) && p in all && kids[p] == []
    requires p.parent != null && i < |kids[p.parent]| && kids[p.parent][i] == p
    modifies Members(kids[p.parent])`optr, Members(kids[p.parent])`yptr, p.parent`cptr
    ensures IsFamily(all - {p}, (kids - {p})[p.parent := kids[p.parent][..i] + kids[p.parent][i + 1..]])
  {
    hide Chain;
    var dad := p.parent;
    ghost var ks := kids[dad];
    ghost var rest := ks[..i] + ks[i + 1..];
    assert Chain(dad, ks) && allocated(kids);
    forall q | q in all && q != dad ensures Members(kids[q]) !! Members(ks) {
      ChildrenApart(dad, q, ks, kids[q]);
    }
    NotAmongTheRest(dad, ks, i);
    assert p in Members(ks);
    Unlink(p, dad, ks, i);
    forall q | q in all && q.parent == dad && q != p ensures q in rest {
      assert q in ks;
    }
  }

  method Unlink(p: Proc, dad: Proc, ghost ks: seq<Proc>, ghost i: nat)
    requires Chain(dad, ks) && i < |ks| && ks[i] == p
    modifies Members(ks)`optr, Members(ks)`yptr, dad`cptr
    ensures Chain(dad, ks[..i] + ks[i + 1..])
  {
    assert p.optr == if i + 1 < |ks| then ks[i + 1] else null;
    assert p.yptr == if i > 0 then ks[i - 1] else null;
    if p.optr != null {
      p.optr.yptr := p.yptr;
    }
    if p.yptr != null {
      p.yptr.optr := p.optr;
    } else {
      dad.cptr := p.optr;
    }
    ghost var rest := ks[..i] + ks[i + 1..];
    assert |rest| == |ks| - 1;
    forall j | 0 <= j < |rest|
      ensures rest[j] == ks[if j < i then j else j + 1] && rest[j].parent == dad
      ensures rest[j].optr == if j + 1 < |rest| then rest[j + 1] else null
      ensures rest[j].yptr == if j > 0 then rest[j - 1] else null
    {
      assert ks[if j < i then j else j + 1].parent == dad;
    }
  }

  lemma OneMoves(ks: seq<Proc>, ls: seq<Proc>)
    requires ks != []
    ensures Members(ks[1..]) + Members([ks[0]] + ls) == Members(ks) + Members(ls)
  {
    assert ks == [ks[0]] + ks[1..];
  }

  /** The children ks pushed one by one, first to last, onto the list ls. */
  ghost function Onto(ks: seq<Proc>, ls: seq<Proc>): (r: seq<Proc>)
    ensures |r| == |ks| + |ls| && Members(r) == Members(ks) + Members(ls)
  {
    if ks == [] then ls
    else
      OneMoves(ks, ls);
      Onto(ks[1..], [ks[0]] + ls)
  }

  /** So they come out in the opposite order, in front of those that were there. */
  lemma {:induction false} OntoIs(ks: seq<Proc>, ls: seq<Proc>, i: nat)
    requires i < |ks| + |ls|
    ensures Onto(ks, ls)[i] == if i < |ks| then ks[|ks| - 1 - i] else ls[i - |ks|]
  {
    if ks != [] {
      OntoIs(ks[1..], [ks[0]] + ls, i);
    }
  }

  /** What is left of a child list while do_exit takes it apart: the yptr of the first
      child may still name a child that has moved on. */
  ghost predicate Remaining(p: Proc, ks: seq<Proc>)
    reads p`cptr, Members(ks)`parent, Members(ks)`optr
  {
    && p.cptr == (if ks == [] then null else ks[0])
    && (forall i, j :: 0 <= i < j < |ks| ==> ks[i] != ks[j])
    && (forall i {:trigger ks[i].parent} :: 0 <= i < |ks| ==> ks[i].parent == p)
    && (forall i {:trigger ks[i].optr} :: 0 <= i < |ks| ==> ks[i].optr == if i + 1 < |ks| then ks[i + 1] else null)
  }

  /** wakeup_proc: a process that is not runnable becomes so and waits for nothing. */
  method WakeUp(p: Proc)
    requires p.state != Zombie
    modifies p`state, p`waitsForChild
    ensures p.state == Runnable
    ensures if old(p.state) == Runnable then p.waitsForChild == old(p.waitsForChild) else !p.waitsForChild
  {
    if p.state != Runnable {
      p.state := Runnable;
      p.waitsForChild := false;
    }
  }

  /** One turn of the reparenting loop of do_exit: the first child of p goes to the head of
      the list of boss, who is woken if that child is a zombie. */
  method Reparent(p: Proc, boss: Proc, ghost rest: seq<Proc>, ghost ls: seq<Proc>)
    requires Remaining(p, rest) && rest != [] && Chain(boss, ls) && p != boss
    requires boss.state != Zombie && boss !in rest
    modifies p`cptr, boss`cptr, boss`state, boss`waitsForChild
    modifies p.cptr`parent, p.cptr`yptr, p.cptr`optr, Members(ls)`yptr
    ensures Remaining(p, rest[1..]) && Chain(boss, [rest[0]] + ls)
    ensures if rest[0].state == Zombie && old(boss.waitsForChild)
            then boss.state == Runnable && (old(boss.state) != Runnable ==> !boss.waitsForChild)
            else boss.state == old(boss.state) && boss.waitsForChild == old(boss.waitsForChild)
  {
    forall i | 0 <= i < |rest| ensures rest[i] !in ls {
      assert rest[i].parent == p;
      forall j | 0 <= j < |ls| ensures ls[j] != rest[i] { assert ls[j].parent == boss; }
    }
    var k := p.cptr;
    p.cptr := k.optr;
    k.yptr := null;
    k.optr := boss.cptr;
    if k.optr != null {
      boss.cptr.yptr := k;
    }
    k.parent := boss;
    boss.cptr := k;
    assert Remaining(p, rest[1..]);
    assert Chain(boss, [k] + ls);
    if k.state == Zombie {
      if boss.waitsForChild {
        WakeUp(boss);
      }
    }
  }

  /** The reparenting loop of do_exit: all children of p move, one by one, to boss. */
  method GiveAway(p: Proc, boss: Proc, ghost ks: seq<Proc>, ghost ls: seq<Proc>)
    requires Chain(p, ks) && Chain(boss, ls) && p != boss && boss !in ks
    requires boss.state != Zombie && boss.state != Uninit && (boss.waitsForChild <==> boss.state == Sleeping)
    modifies p`cptr, boss`cptr, boss`state, boss`waitsForChild
    modifies Members(ks)`parent, Members(ks)`yptr, Members(ks)`optr, Members(ls)`yptr
    ensures p.cptr == null && Chain(boss, Onto(ks, ls))
    ensures boss.waitsForChild <==> boss.state == Sleeping
    ensures boss.state == if exists k :: k in ks && k.state == Zombie then Runnable else old(boss.state)
  {
    hide Onto, Remaining, Chain, AnyZombie;
    ghost var n, given := 0, ls;
    assert ks[0..] == ks;
    FirstRemaining(p, ks);
    ZombiesSoFar(ks, 0);
    while p.cptr != null
      invariant n <= |ks| && Remaining(p, ks[n..]) && Chain(boss, given)
      invariant p.cptr == if n < |ks| then ks[n] else null
      invariant Onto(ks[n..], given) == Onto(ks, ls) && Members(given) <= Members(ks) + Members(ls)
      invariant boss.waitsForChild <==> boss.state == Sleeping
      invariant boss.state == if AnyZombie(ks, n) then Runnable else old(boss.state)
      decreases |ks| - n
    {
      ghost var rest := ks[n..];
      assert allocated(rest) && allocated(given) && rest[1..] == ks[n + 1..] && boss !in rest;
      OntoStep(rest, given);
      ZombiesSoFar(ks, n);
      Reparent(p, boss, rest, given);
      given := [rest[0]] + given;
      n := n + 1;
      RemainingHead(p, ks[n..]);
    }
    OntoNothing(given);
    ZombiesSoFar(ks, n);
  }

  ghost predicate AnyZombie(ks: seq<Proc>, n: nat)
    requires n <= |ks|
    reads Members(ks)`state
  {
    exists i :: 0 <= i < n && ks[i].state == Zombie
  }

  lemma ZombiesSoFar(ks: seq<Proc>, n: nat)
    requires n <= |ks|
    ensures !AnyZombie(ks, 0)
    ensures n < |ks| ==> (AnyZombie(ks, n + 1) <==> AnyZombie(ks, n) || ks[n].state == Zombie)
    ensures n == |ks| ==> (AnyZombie(ks, n) <==> exists k :: k in ks && k.state == Zombie)
  {
  }

  lemma FirstRemaining(p: Proc, ks: seq<Proc>)
    requires Chain(p, ks)
    ensures Remaining(p, ks) && p.cptr == if ks == [] then null else ks[0]
  {
  }

  lemma RemainingHead(p: Proc, ks: seq<Proc>)
    requires Remaining(p, ks)
    ensures p.cptr == if ks == [] then null else ks[0]
  {
  }

  lemma OntoStep(ks: seq<Proc>, ls: seq<Proc>)
    requires ks != []
    ensures Onto(ks, ls) == Onto(ks[1..], [ks[0]] + ls)
  {
  }

  lemma OntoNothing(ls: seq<Proc>)
    ensures Onto([], ls) == ls
  {
  }

  ghost function Adopted(kids: Kids, p: Proc, boss: Proc): Kids
    requires p in kids && boss in kids
  {
    kids[p := []][boss := Onto(kids[p], kids[boss])]
  }

  /** The same seen from the whole family. */
  method Disown(p: Proc, boss: Proc, ghost all: set<Proc>, ghost kids: Kids)
    requires IsFamily(all, kids) && p in all && boss in all && p != boss && boss !in kids[p]
    requires boss.state != Zombie && boss.state != Uninit && (boss.waitsForChild <==> boss.state == Sleeping)
    modifies p`cptr, boss`cptr, boss`state, boss`waitsForChild
    modifies Members(kids[p])`parent, Members(kids[p])`yptr, Members(kids[p])`optr, Members(kids[boss])`yptr
    ensures IsFamily(all, Adopted(kids, p, boss))
    ensures forall q :: q in kids[p] ==> q.parent == boss
    ensures boss.waitsForChild <==> boss.state == Sleeping
    ensures boss.state == if exists k :: k in kids[p] && k.state == Zombie then Runnable else old(boss.state)
  {
    AdoptedClosed(all, kids, p, boss);
    assert allocated(kids);
    MoveChains(p, boss, all, kids);
    hide Onto, Closed, Chain;
    forall q | q in all && q.parent != null ensures q.parent in all && q in Adopted(kids, p, boss)[q.parent] {
      assert q in kids[p] || q in kids[boss] <==> q in Members(Onto(kids[p], kids[boss]));
      assert q !in kids[p] ==> q.parent == old(q.parent);
    }
  }

  method MoveChains(p: Proc, boss: Proc, ghost all: set<Proc>, ghost kids: Kids)
    requires IsFamily(all, kids) && p in all && boss in all && p != boss && boss !in kids[p]
    requires boss.state != Zombie && boss.state != Uninit && (boss.waitsForChild <==> boss.state == Sleeping)
    modifies p`cptr, boss`cptr, boss`state, boss`waitsForChild
    modifies Members(kids[p])`parent, Members(kids[p])`yptr, Members(kids[p])`optr, Members(kids[boss])`yptr
    ensures forall q :: q in all ==> Chain(q, Adopted(kids, p, boss)[q])
    ensures forall q :: q in kids[p] ==> q.parent == boss
    ensures boss.waitsForChild <==> boss.state == Sleeping
    ensures boss.state == if exists k :: k in kids[p] && k.state == Zombie then Runnable else old(boss.state)
  {
    hide Onto;
    ghost var ks, ls := kids[p], kids[boss];
    assert allocated(kids);
    forall q | q in all && q != p && q != boss ensures Members(kids[q]) !! Members(ks) + Members(ls) {
      ChildrenApart(p, q, ks, kids[q]);
      ChildrenApart(boss, q, ls, kids[q]);
    }
    GiveAway(p, boss, ks, ls);
    ChildrenOf(boss, Onto(ks, ls));
    forall q | q in ks ensures q.parent == boss {
      assert q in Members(Onto(ks, ls));
    }
  }

  lemma AdoptedClosed(all: set<Proc>, kids: Kids, p: Proc, boss: Proc)
    requires Closed(all, kids) && p in all && boss in all
    ensures Closed(all, Adopted(kids, p, boss))
  {
    forall k | k in Onto(kids[p], kids[boss]) ensures k in all {
      assert k in Members(Onto(kids[p], kids[boss]));
    }
  }

  lemma ChildrenOf(p: Proc, ks: seq<Proc>)
    requires Chain(p, ks)
    ensures forall k :: k in Members(ks) ==> k.parent == p
  {
    forall k | k in ks ensures k.parent == p {
      var i :| 0 <= i < |ks| && ks[i] == k;
      assert ks[i].parent == p;
    }
  }
}
