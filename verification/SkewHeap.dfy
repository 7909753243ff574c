/**
  lab6/libs/skew_heap.h at the level of its pointers: merging, inserting and removing an
  arbitrary node rewire left, right and parent in place, and do to the structure exactly what
  SkewTree says.
 */
module SkewHeap {
  import opened SkewTree

  class Node {
    var parent: Node?
    var left: Node?
    var right: Node?

    constructor ()
      ensures parent == left == right == null
    {
      parent, left, right := null, null, null;
    }
  }

  ghost function Root(t: Tree<Node>): Node? {
    if t.Leaf? then null else t.elem
  }

  /** The pointers below the root of t are those of t, and parent is the inverse of left and
      right.  Nothing is said about the parent of the root. */
  ghost predicate Linked(t: Tree<Node>)
    reads Elems(t)
  {
    match t
    case Leaf => true
    case Branch(n, l, r) =>
      && n.left == Root(l) && n.right == Root(r)
      && (l.Branch? ==> l.elem.parent == n) && (r.Branch? ==> r.elem.parent == n)
      && Linked(l) && Linked(r)
  }

  /** The assignments both branches of skew_heap_merge end with: n gets the merged tree l
      on its left and its own former left subtree r on its right. */
  method Adopt(n: Node, l: Node?, r: Node?, ghost tl: Tree<Node>, ghost tr: Tree<Node>)
    requires Unique(Branch(n, tl, tr))
    requires l == Root(tl) && r == Root(tr) && Linked(tl) && Linked(tr)
    requires r != null ==> r.parent == n
    modifies n, l
    ensures Linked(Branch(n, tl, tr)) && n.parent == old(n.parent)
  {
    n.left := l;
    n.right := r;
    assert Linked(tl) && Linked(tr);
    if l != null {
      l.parent := n;
      assert Linked(tl.left) && Linked(tl.right);
    }
    assert Linked(tl) && Linked(tr);
  }

  /** One step of the merge, and of its cost. */
  lemma MergeStep(a: Tree<Node>, b: Tree<Node>, comp: (Node, Node) -> int)
    ensures a.Leaf? ==> Merge(a, b, comp) == b && MergeCalls(a, b, comp) == 1
    ensures b.Leaf? ==> Merge(a, b, comp) == a && MergeCalls(a, b, comp) == 1
    ensures a.Branch? && b.Branch? && comp(a.elem, b.elem) == -1 ==>
              && Merge(a, b, comp) == Branch(a.elem, Merge(a.right, b, comp), a.left)
              && MergeCalls(a, b, comp) == 1 + MergeCalls(a.right, b, comp)
    ensures a.Branch? && b.Branch? && comp(a.elem, b.elem) != -1 ==>
              && Merge(a, b, comp) == Branch(b.elem, Merge(a, b.right, comp), b.left)
              && MergeCalls(a, b, comp) == 1 + MergeCalls(a, b.right, comp)
  {
  }

  /** skew_heap_merge, counting its calls. */
  method MergeNodes(a: Node?, b: Node?, comp: (Node, Node) -> int, ghost ta: Tree<Node>, ghost tb: Tree<Node>)
    returns (m: Node?, ghost calls: nat)
    requires Unique(ta) && Unique(tb) && Elems(ta) !! Elems(tb)
    requires a == Root(ta) && b == Root(tb) && Linked(ta) && Linked(tb)
    modifies Elems(ta) + Elems(tb)
    ensures m == Root(Merge(ta, tb, comp)) && Elems(Merge(ta, tb, comp)) == Elems(ta) + Elems(tb)
    ensures Linked(Merge(ta, tb, comp))
    ensures m != null ==> m.parent == old(m.parent)
    ensures calls == MergeCalls(ta, tb, comp)
    decreases ta, tb
  {
    hide Merge, MergeCalls, Less;
    MergeElems(ta, tb, comp);
    MergeStep(ta, tb, comp);
    if a == null { return b, 1; }
    if b == null { return a, 1; }
    if comp(a, b) == -1 {
      MergeElems(ta.right, tb, comp);
      assert allocated(Elems(ta.left));
      var r := a.left;
      var l;
      l, calls := MergeNodes(a.right, b, comp, ta.right, tb);
      Adopt(a, l, r, Merge(ta.right, tb, comp), ta.left);
      m, calls := a, calls + 1;
    } else {
      MergeElems(ta, tb.right, comp);
      assert allocated(Elems(tb.left));
      var r := b.left;
      var l;
      l, calls := MergeNodes(a, b.right, comp, ta, tb.right);
      Adopt(b, l, r, Merge(ta, tb.right, comp), tb.left);
      m, calls := b, calls + 1;
    }
  }

  /** skew_heap_insert */
  method InsertNode(a: Node?, b: Node, comp: (Node, Node) -> int, ghost t: Tree<Node>)
    returns (m: Node?, ghost calls: nat)
    requires Unique(t) && Linked(t) && a == Root(t) && b !in Elems(t)
    requires a != null ==> a.parent == null
    modifies Elems(t), b
    ensures var u := Merge(t, Single(b), comp);
            m == Root(u) && Elems(u) == Elems(t) + {b} && Linked(u)
    ensures m != null ==> m.parent == null
    ensures calls == MergeCalls(t, Single(b), comp)
  {
    b.left, b.right, b.parent := null, null, null;
    AboutSingle(b, comp);
    m, calls := MergeNodes(a, b, comp, t, Single(b));
  }

  /** The node above b, for a b below the root. */
  ghost function ParentOf(t: Tree<Node>, b: Node): (p: Node)
    requires b in Elems(t) && b != Root(t)
    ensures p in Elems(t)
    decreases t
  {
    var s := if b in Elems(t.left) then t.left else t.right;
    if b == Root(s) then t.elem else ParentOf(s, b)
  }

  lemma {:induction false} SubtreeApart(t: Tree<Node>, b: Node)
    requires Unique(t) && b in Elems(t)
    ensures var s := Subtree(t, b); s.Branch? && s.elem == b && Unique(s) && Elems(s) <= Elems(t)
    ensures b != Root(t) ==> Root(t) !in Elems(Subtree(t, b)) && ParentOf(t, b) !in Elems(Subtree(t, b))
  {
    if b != t.elem {
      SubtreeApart(if b in Elems(t.left) then t.left else t.right, b);
    }
  }

  /** Parent pointers lead to the node above, and it points back. */
  lemma {:induction false} SubtreeLinked(t: Tree<Node>, b: Node)
    requires Unique(t) && Linked(t) && b in Elems(t)
    ensures Linked(Subtree(t, b))
    ensures b != Root(t) ==> b.parent == ParentOf(t, b) && (b.parent.left == b || b.parent.right == b)
  {
    if b != t.elem {
      SubtreeLinked(if b in Elems(t.left) then t.left else t.right, b);
    }
  }

  /** Replacing the subtree at b by another one, with one pointer written in b's parent. */
  twostate lemma {:induction false} Spliced(t: Tree<Node>, new b: Node, new p: Node, new rep: Node?,
                                            new comp: (Node, Node) -> int)
    requires old(allocated(Elems(t)))
    requires Unique(t) && b in Elems(t) && b != Root(t)
    requires p == ParentOf(t, b)
    requires old(Linked(t))
    requires forall n :: n in Elems(t) - Elems(Subtree(t, b)) - {p} ==> unchanged(n)
    requires p.parent == old(p.parent)
    requires old(p.left) == b ==> p.left == rep && p.right == old(p.right)
    requires old(p.left) != b ==> p.left == old(p.left) && p.right == rep
    requires Subtree(t, b).Branch? && Subtree(t, b).elem == b
    requires Linked(Merge(Subtree(t, b).left, Subtree(t, b).right, comp))
    requires rep == Root(Merge(Subtree(t, b).left, Subtree(t, b).right, comp))
    requires rep != null ==> rep.parent == p
    ensures Linked(Remove(t, b, comp)) && Root(Remove(t, b, comp)) == Root(t)
  {
    SubtreeApart(t, b);
    var onLeft := b in Elems(t.left);
    var s, other := if onLeft then t.left else t.right, if onLeft then t.right else t.left;
    SubtreeApart(s, b);
    assert forall x :: x in Elems(other) ==> x in Elems(t) - Elems(Subtree(t, b)) - {p};
    assert old(Linked(other)) && Linked(other);
    if b == Root(s) {
      assert p == t.elem && Remove(s, b, comp) == Merge(Subtree(t, b).left, Subtree(t, b).right, comp);
    } else {
      assert t.elem in Elems(t) - Elems(Subtree(t, b)) - {p};
      assert forall x :: x in Elems(s) - Elems(Subtree(s, b)) - {p} ==> x in Elems(t) - Elems(Subtree(t, b)) - {p};
      assert s.elem == p || s.elem in Elems(s) - Elems(Subtree(s, b)) - {p};
      assert s.elem.parent == old(s.elem.parent);
      Spliced(s, b, p, rep, comp);
    }
  }

  /** The first half of skew_heap_remove: b's two subtrees become one, with b's parent. */
  method MergeChildren(b: Node, comp: (Node, Node) -> int, ghost s: Tree<Node>)
    returns (rep: Node?, ghost calls: nat)
    requires s.Branch? && s.elem == b && Unique(s) && Linked(s)
    modifies Elems(s.left) + Elems(s.right)
    ensures var u := Merge(s.left, s.right, comp);
            rep == Root(u) && Linked(u) && Elems(u) == Elems(s) - {b}
    ensures rep != null ==> rep.parent == b.parent
    ensures calls == MergeCalls(s.left, s.right, comp)
  {
    hide Merge, MergeCalls;
    MergeElems(s.left, s.right, comp);
    rep, calls := MergeNodes(b.left, b.right, comp, s.left, s.right);
    if rep != null {
      rep.parent := b.parent;
      ghost var u := Merge(s.left, s.right, comp);
      assert Linked(u.left) && Linked(u.right);
    }
  }

  /** skew_heap_remove, for any node b of the heap with root a. */
  method RemoveNode(a: Node, b: Node, comp: (Node, Node) -> int, ghost t: Tree<Node>)
    returns (m: Node?, ghost calls: nat)
    requires Unique(t) && Linked(t) && a == Root(t) && a.parent == null
    requires b in Elems(t)
    modifies Elems(t)
    ensures var u := Remove(t, b, comp);
            m == Root(u) && Elems(u) == Elems(t) - {b} && Linked(u)
    ensures m != null ==> m.parent == null
    ensures calls == RemoveCalls(t, b, comp)
  {
    hide Merge, MergeCalls;
    SubtreeLinked(t, b);
    SubtreeApart(t, b);
    RemoveElems(t, b, comp);
    assert allocated(Elems(t));
    var p := b.parent;
    var rep;
    rep, calls := MergeChildren(b, comp, Subtree(t, b));
    if p != null {
      if p.left == b {
        p.left := rep;
      } else {
        p.right := rep;
      }
      Spliced(t, b, p, rep, comp);
      m := a;
    } else {
      m := rep;
    }
  }

  /** The run pool of the stride scheduler: a heap that enqueue and dequeue update in place. */
  class RunPool {
    const comp: (Node, Node) -> int
    var root: Node?
    ghost var tree: Tree<Node>

    constructor (comp: (Node, Node) -> int)
      ensures this.comp == comp && Valid() && Elems(tree) == {}
    {
      this.comp := comp;
      root, tree := null, Leaf;
    }

    ghost predicate Valid()
      reads this, Elems(tree)
    {
      && Unique(tree) && Linked(tree) && Heap(tree, comp)
      && root == Root(tree) && (root != null ==> root.parent == null)
    }

    method Enqueue(b: Node)
      requires Valid() && b !in Elems(tree) && TotalPreorder(comp, Elems(tree) + {b})
      modifies this, Elems(tree), b
      ensures Valid() && Elems(tree) == old(Elems(tree)) + {b}
    {
      InsertRefines(tree, b, comp, Elems(tree) + {b});
      ghost var calls;
      root, calls := InsertNode(root, b, comp, tree);
      tree := Merge(tree, Single(b), comp);
    }

    method Dequeue(b: Node)
      requires Valid() && b in Elems(tree) && TotalPreorder(comp, Elems(tree))
      modifies this, Elems(tree)
      ensures Valid() && Elems(tree) == old(Elems(tree)) - {b}
    {
      DeleteRefines(tree, b, comp, Elems(tree));
      ghost var calls;
      root, calls := RemoveNode(root, b, comp, tree);
      tree := Remove(tree, b, comp);
    }

    /** What the scheduler runs next: nobody in the pool comes before it. */
    method PickNext() returns (m: Node?)
      requires Valid() && TotalPreorder(comp, Elems(tree))
      ensures m == null <==> Elems(tree) == {}
      ensures m != null ==> m in Elems(tree) && forall y: Node :: y in Elems(tree) ==> !Less<Node>(comp, y, m)
    {
      if root != null { RootIsMinimum(tree, comp); }
      m := root;
    }
  }
}
