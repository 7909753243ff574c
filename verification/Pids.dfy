/**
  get_pid (lab5/cow/proc.c:178-210): a circular search for an unused pid that remembers, in
  next_safe, how far it may go without looking at the process list.
 */
module Pids {
  const MAX_PROCESS: nat := 4096
  const MAX_PID: nat := MAX_PROCESS * 2

  predicate IsPid(p: int) {
    1 <= p < MAX_PID
  }

  /** The pid after p in cyclic order 1 .. MAX_PID - 1. */
  function Succ(p: nat): nat {
    if p + 1 >= MAX_PID then 1 else p + 1
  }

  /** How many steps of Succ lead from p to q. */
  function Distance(p: int, q: int): int
    requires IsPid(p) && IsPid(q)
  {
    if p <= q then q - p else q - p + MAX_PID - 1
  }

  /** pid is the first one, from s on in cyclic order, that is not in use. */
  ghost predicate FirstUnused(s: int, pid: int, pids: seq<nat>) {
    && IsPid(s) && IsPid(pid) && pid !in pids
    && forall q :: IsPid(q) && Distance(s, q) < Distance(s, pid) ==> q in pids
  }

  lemma FirstUnusedIsUnique(s: int, p: int, q: int, pids: seq<nat>)
    requires FirstUnused(s, p, pids) && FirstUnused(s, q, pids)
    ensures p == q
  {
    assert !(Distance(s, p) < Distance(s, q)) && !(Distance(s, q) < Distance(s, p));
  }

  /** In plain numbers, for a pid handed out after last: either no pid in between was unused, or the
      search went round past 8191 and none above last and none from 1 up to the new one was. */
  lemma FirstUnusedMeans(last: nat, pid: int, pids: seq<nat>)
    requires 1 <= last <= 8192
    ensures FirstUnused(Succ(last), pid, pids) <==>
              && 1 <= pid < 8192 && pid !in pids
              && forall q :: 1 <= q < 8192 && (if pid > last then last < q < pid else last < q || q < pid) ==> q in pids
  {
    if FirstUnused(Succ(last), pid, pids) {
      forall q | 1 <= q < 8192 && (if pid > last then last < q < pid else last < q || q < pid) ensures q in pids {
        assert IsPid(q) && Distance(Succ(last), q) < Distance(Succ(last), pid);
      }
    }
  }

  lemma {:induction false} FewPidsLeaveOneUnused(pids: seq<nat>, n: nat) returns (f: nat)
    requires |pids| < n
    ensures 1 <= f <= n && f !in pids
  {
    if n !in pids {
      f := n;
    } else {
      var i :| 0 <= i < |pids| && pids[i] == n;
      f := FewPidsLeaveOneUnused(pids[..i] + pids[i + 1..], n - 1);
    }
  }

  class PidAllocator {
    var lastPid: nat
    var nextSafe: nat

    constructor ()
      ensures lastPid == nextSafe == MAX_PID
      ensures Safe([])
    {
      lastPid, nextSafe := MAX_PID, MAX_PID;
    }

    /** What holds between calls: no pid in use lies strictly between the two bounds. */
    ghost predicate Safe(pids: seq<nat>)
      reads this
    {
      1 <= lastPid && nextSafe <= MAX_PID && forall p :: p in pids ==> !(lastPid < p < nextSafe)
    }

    /** The search always ends, because it cannot pass an unused pid; and whatever the two
        static variables were, it finds what a fresh scan would find. */
    method GetPid(pids: seq<nat>) returns (pid: nat)
      requires Safe(pids) && |pids| < MAX_PID - 1
      modifies this
      ensures FirstUnused(Succ(old(lastPid)), pid, pids)
      ensures pid == lastPid && Safe(pids) && Safe([pid] + pids)
    {
      lastPid := lastPid + 1;
      if lastPid >= MAX_PID {
        lastPid := 1;
        Search(pids);
      } else if lastPid >= nextSafe {
        Search(pids);
      }
      pid := lastPid;
    }

    method Search(pids: seq<nat>)
      requires IsPid(lastPid) && |pids| < MAX_PID - 1
      modifies this
      ensures FirstUnused(old(lastPid), lastPid, pids) && Safe(pids)
    {
      ghost var s := lastPid;
      ghost var free := FewPidsLeaveOneUnused(pids, MAX_PID - 1);
      nextSafe := MAX_PID;
      var i := 0;
      while i < |pids|
        invariant 0 <= i <= |pids|
        invariant IsPid(lastPid) && lastPid < nextSafe <= MAX_PID
        invariant forall j :: 0 <= j < i ==> !(lastPid <= pids[j] < nextSafe)
        invariant Distance(s, lastPid) <= Distance(s, free)
        invariant forall q :: IsPid(q) && Distance(s, q) < Distance(s, lastPid) ==> q in pids
        decreases Distance(lastPid, free), |pids| - i
      {
        if pids[i] == lastPid {
          lastPid := lastPid + 1;
          if lastPid >= nextSafe {
            if lastPid >= MAX_PID {
              lastPid := 1;
            }
            nextSafe := MAX_PID;
            i := 0;
          } else {
            i := i + 1;
          }
        } else {
          if pids[i] > lastPid && nextSafe > pids[i] {
            nextSafe := pids[i];
          }
          i := i + 1;
        }
      }
      assert lastPid !in pids;
    }
  }

  ghost predicate DistinctPids(pids: seq<nat>) {
    && (forall i :: 0 <= i < |pids| ==> IsPid(pids[i]))
    && (forall i, j :: 0 <= i < j < |pids| ==> pids[i] != pids[j])
  }

  lemma DistinctWithFirst(s: int, pid: int, pids: seq<nat>)
    requires DistinctPids(pids) && FirstUnused(s, pid, pids)
    ensures DistinctPids([pid] + pids)
  {
  }

  datatype Request = Take | Release(index: nat)

  /** The pids in use, newest first, and the last one given out. */
  datatype Stock = Stock(pids: seq<nat>, last: nat)

  /** The allocator at work, over any run of forks and reaps, from boot on: the pids in use are
      distinct and in range at every moment, and as long as there are fewer than MAX_PROCESS
      processes each fork is given the first unused one behind the one given out before. */
  method RunAllocator(requests: seq<Request>) returns (pids: seq<nat>, ghost stocks: seq<Stock>)
    ensures DistinctPids(pids) && |pids| < MAX_PROCESS
    ensures |stocks| == |requests| + 1 && stocks[0] == Stock([], MAX_PID) && stocks[|requests|].pids == pids
    ensures forall i :: 0 <= i < |stocks| ==> InOrder(stocks[i])
    ensures forall i :: 0 <= i < |requests| ==> Served(requests[i], stocks[i], stocks[i + 1])
  {
    hide DistinctPids, FirstUnused, Succ;
    var a := new PidAllocator();
    NoPids();
    pids, stocks := [], [Stock([], MAX_PID)];
    for n := 0 to |requests|
      invariant |stocks| == n + 1 && stocks[0] == Stock([], MAX_PID) && stocks[n] == Stock(pids, a.lastPid)
      invariant a.Safe(pids) && fresh(a)
      invariant forall i :: 0 <= i < |stocks| ==> InOrder(stocks[i])
      invariant forall i :: 0 <= i < n ==> Served(requests[i], stocks[i], stocks[i + 1])
    {
      match requests[n] {
        case Take =>
          if |pids| + 1 < MAX_PROCESS {
            ghost var last := a.lastPid;
            var pid := a.GetPid(pids);
            DistinctWithFirst(Succ(last), pid, pids);
            pids := [pid] + pids;
          }
        case Release(i) =>
          if i < |pids| {
            DistinctWithout(pids, i);
            var rest := pids[..i] + pids[i + 1..];
            assert forall p :: p in rest ==> p in pids;
            pids := rest;
          }
      }
      stocks := stocks + [Stock(pids, a.lastPid)];
    }
  }

  lemma NoPids()
    ensures DistinctPids([])
  {
  }

  lemma DistinctWithout(pids: seq<nat>, i: nat)
    requires DistinctPids(pids) && i < |pids|
    ensures DistinctPids(pids[..i] + pids[i + 1..])
  {
  }

  ghost predicate InOrder(s: Stock) {
    DistinctPids(s.pids) && |s.pids| < MAX_PROCESS
  }

  /** The first unused pid behind the last one is added at the front unless the table is full; one
      is taken out if it is there. */
  ghost predicate Served(r: Request, a: Stock, b: Stock) {
    match r
    case Take =>
      if |a.pids| + 1 < MAX_PROCESS
      then b.pids == [b.last] + a.pids && FirstUnused(Succ(a.last), b.last, a.pids)
      else b == a
    case Release(i) => b == if i < |a.pids| then a.(pids := a.pids[..i] + a.pids[i + 1..]) else a
  }
}
