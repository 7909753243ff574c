/**
  The circular doubly linked lists of lab5/libs/list.h.  A list is its head followed by its
  elements; each operation is shown to do to the pointers what splicing does to a sequence.
 */
module Ring {
  class Entry {
    var prev: Entry?
    var next: Entry?

    constructor ()
      ensures prev == next == null
    {
      prev, next := null, null;
    }
  }

  ghost predicate Distinct(r: seq<Entry>) {
    forall i, j :: 0 <= i < j < |r| ==> r[i] != r[j]
  }

  function After(n: nat, i: int): int {
    if i + 1 == n then 0 else i + 1
  }

  function Before(n: nat, i: int): int {
    if i == 0 then n - 1 else i - 1
  }

  /** The entries of r, in this order, form a ring. */
  ghost predicate IsRing(r: seq<Entry>)
    reads r
  {
    && |r| > 0 && Distinct(r)
    && (forall i {:trigger r[i].next} :: 0 <= i < |r| ==> r[i].next == r[After(|r|, i)])
    && (forall i {:trigger r[i].prev} :: 0 <= i < |r| ==> r[i].prev == r[Before(|r|, i)])
  }

  function Insert(r: seq<Entry>, k: nat, e: Entry): seq<Entry>
    requires k <= |r|
  {
    r[..k] + [e] + r[k..]
  }

  function Without(r: seq<Entry>, k: nat): seq<Entry>
    requires k < |r|
  {
    r[..k] + r[k + 1..]
  }

  lemma {:induction false} RingsAgree(r: seq<Entry>, s: seq<Entry>, k: nat)
    requires IsRing(r) && IsRing(s) && r[0] == s[0] && k < |r| && k < |s|
    ensures r[k] == s[k] && (k + 1 == |r| <==> k + 1 == |s|)
  {
    if k > 0 {
      RingsAgree(r, s, k - 1);
      assert r[k - 1].next == r[k] && s[k - 1].next == s[k];
    }
    assert r[k].next == s[k].next;
  }

  /** The pointers determine the ring: two rings with the same head have the same entries in
      the same order. */
  lemma RingIsDetermined(r: seq<Entry>, s: seq<Entry>)
    requires IsRing(r) && IsRing(s) && r[0] == s[0]
    ensures r == s
  {
    var n := if |r| < |s| then |r| else |s|;
    forall k | 0 <= k < n ensures r[k] == s[k] { RingsAgree(r, s, k); }
    RingsAgree(r, s, n - 1);
  }

  method ListInit(e: Entry)
    modifies e
    ensures IsRing([e])
  {
    e.prev, e.next := e, e;
  }

  /** __list_add between two neighbours of a ring. */
  method Link(e: Entry, before: Entry, after: Entry, ghost r: seq<Entry>, ghost k: nat)
    requires IsRing(r) && k < |r| && e !in r
    requires before == r[k] && after == r[After(|r|, k)]
    modifies r, e
    ensures IsRing(Insert(r, k + 1, e))
  {
    before.next := e;
    after.prev := e;
    e.next := after;
    e.prev := before;
    Linked(r, k, e);
  }

  lemma Inserted(r: seq<Entry>, k: nat, e: Entry)
    requires k <= |r| && Distinct(r) && e !in r
    ensures |Insert(r, k, e)| == |r| + 1 && Distinct(Insert(r, k, e))
    ensures forall i {:trigger Insert(r, k, e)[i]} :: 0 <= i <= |r| ==>
              Insert(r, k, e)[i] == if i < k then r[i] else if i == k then e else r[i - 1]
  {
  }

  /** The pointers after __list_add, as a list. */
  lemma Linked(r: seq<Entry>, k: nat, e: Entry)
    requires k < |r| && Distinct(r) && e !in r
    requires e.prev == r[k] && e.next == r[After(|r|, k)]
    requires forall i {:trigger r[i].next} :: 0 <= i < |r| ==> r[i].next == if i == k then e else r[After(|r|, i)]
    requires forall i {:trigger r[i].prev} :: 0 <= i < |r| ==>
               r[i].prev == if i == After(|r|, k) then e else r[Before(|r|, i)]
    ensures IsRing(Insert(r, k + 1, e))
  {
    hide Insert, Distinct;
    Inserted(r, k + 1, e);
    var s := Insert(r, k + 1, e);
    forall i | 0 <= i < |s| ensures s[i].next == s[After(|s|, i)] {
      if i < k { assert s[i] == r[i]; } else if i > k + 1 { assert s[i] == r[i - 1]; }
    }
    forall i | 0 <= i < |s| ensures s[i].prev == s[Before(|s|, i)] {
      if i <= k { assert s[i] == r[i]; } else if i > k + 2 { assert s[i] == r[i - 1]; }
    }
  }

  /** list_add and list_add_after: e goes right behind the entry at position k. */
  method ListAddAfter(at: Entry, e: Entry, ghost r: seq<Entry>, ghost k: nat)
    requires IsRing(r) && k < |r| && at == r[k] && e !in r
    modifies r, e
    ensures IsRing(Insert(r, k + 1, e))
  {
    Link(e, at, at.next, r, k);
  }

  /** list_add_before: e goes right before position k; before the head means at the end. */
  method ListAddBefore(at: Entry, e: Entry, ghost r: seq<Entry>, ghost k: nat)
    requires IsRing(r) && k < |r| && at == r[k] && e !in r
    modifies r, e
    ensures IsRing(Insert(r, if k == 0 then |r| else k, e))
  {
    Link(e, at.prev, at, r, Before(|r|, k));
  }

  /** list_del: the entry leaves the ring and keeps its own pointers. */
  method ListDel(e: Entry, ghost r: seq<Entry>, ghost k: nat)
    requires IsRing(r) && 0 < k < |r| && e == r[k]
    modifies r
    ensures IsRing(Without(r, k))
    ensures e.prev == old(e.prev) && e.next == old(e.next)
  {
    var before, after := e.prev, e.next;
    before.next := after;
    after.prev := before;
    Unlinked(r, k);
  }

  /** The pointers after __list_del, as a list. */
  lemma Unlinked(r: seq<Entry>, k: nat)
    requires 0 < k < |r| && Distinct(r)
    requires forall i {:trigger r[i].next} :: 0 <= i < |r| ==> r[i].next == r[After(|r|, if i == k - 1 then k else i)]
    requires forall i {:trigger r[i].prev} :: 0 <= i < |r| ==>
               r[i].prev == r[Before(|r|, if i == After(|r|, k) then k else i)]
    ensures IsRing(Without(r, k))
  {
    var s := Without(r, k);
    forall i | 0 <= i < |s| ensures s[i].next == s[After(|s|, i)] {
      if i < k { assert s[i] == r[i]; } else { assert s[i] == r[i + 1]; }
    }
    forall i | 0 <= i < |s| ensures s[i].prev == s[Before(|s|, i)] {
      if i < k { assert s[i] == r[i]; } else { assert s[i] == r[i + 1]; }
    }
  }

  method ListEmpty(head: Entry, ghost r: seq<Entry>) returns (b: bool)
    requires IsRing(r) && head == r[0]
    ensures b <==> |r| == 1
  {
    b := head.next == head;
  }

  /** Deleting what was just added restores every pointer of the ring. */
  method AddThenDelete(at: Entry, e: Entry, ghost r: seq<Entry>, ghost k: nat)
    requires IsRing(r) && k < |r| && at == r[k] && e !in r
    modifies r, e
    ensures IsRing(r)
    ensures forall x :: x in r ==> x.next == old(x.next) && x.prev == old(x.prev)
  {
    ListAddAfter(at, e, r, k);
    ListDel(e, Insert(r, k + 1, e), k + 1);
    assert Without(Insert(r, k + 1, e), k + 1) == r;
    forall x | x in r ensures x.next == old(x.next) && x.prev == old(x.prev) {
      var i :| 0 <= i < |r| && r[i] == x;
      assert r[i].next == r[After(|r|, i)] && r[i].prev == r[Before(|r|, i)];
    }
  }
}
