/**
  The abstract side of lab6/libs/skew_heap.h: skew heaps as trees, what merging and removing
  do to their elements and their order, and what they cost.
 */
module SkewTree {
  import opened Powers

  datatype Tree<T> = Leaf | Branch(elem: T, left: Tree<T>, right: Tree<T>)

  /** The comparator's only test, comp(x, y) == -1. */
  predicate Less<T>(comp: (T, T) -> int, x: T, y: T) {
    comp(x, y) == -1
  }

  /** On the elements of u, Less is the strict part of a total preorder. */
  ghost predicate TotalPreorder<T>(comp: (T, T) -> int, u: set<T>) {
    && (forall x, y :: x in u && y in u && Less(comp, x, y) ==> !Less(comp, y, x))
    && (forall x, y, z :: x in u && y in u && z in u && !Less(comp, x, y) && !Less(comp, y, z)
                          ==> !Less(comp, x, z))
  }

  ghost function Elems<T>(t: Tree<T>): (s: set<T>)
    ensures t.Branch? ==> t.elem in s
  {
    match t
    case Leaf => {}
    case Branch(x, l, r) => {x} + Elems(l) + Elems(r)
  }

  function Size<T>(t: Tree<T>): nat {
    match t
    case Leaf => 0
    case Branch(_, l, r) => 1 + Size(l) + Size(r)
  }

  /** No element occurs twice. */
  ghost predicate Unique<T>(t: Tree<T>) {
    match t
    case Leaf => true
    case Branch(x, l, r) =>
      x !in Elems(l) && x !in Elems(r) && Elems(l) !! Elems(r) && Unique(l) && Unique(r)
  }

  /** No element is below a larger one. */
  ghost predicate Heap<T>(t: Tree<T>, comp: (T, T) -> int) {
    match t
    case Leaf => true
    case Branch(x, l, r) =>
      && (forall y :: y in Elems(l) + Elems(r) ==> !Less(comp, y, x))
      && Heap(l, comp) && Heap(r, comp)
  }

  function Merge<T>(a: Tree<T>, b: Tree<T>, comp: (T, T) -> int): Tree<T>
    decreases a, b
  {
    if a.Leaf? then b
    else if b.Leaf? then a
    else if Less(comp, a.elem, b.elem) then Branch(a.elem, Merge(a.right, b, comp), a.left)
    else Branch(b.elem, Merge(a, b.right, comp), b.left)
  }

  /** The root is the first one's only if that is less, the other's on a tie; what was on its left
      is on its right now, and the merged rest on its left. */
  lemma MergeRoot<T>(a: Tree<T>, b: Tree<T>, comp: (T, T) -> int)
    requires a.Branch? && b.Branch?
    ensures var m, first := Merge(a, b, comp), comp(a.elem, b.elem) == -1;
            && m.Branch? && m.elem == (if first then a.elem else b.elem)
            && m.right == (if first then a.left else b.left)
            && m.left == if first then Merge(a.right, b, comp) else Merge(a, b.right, comp)
  {
  }

  function Single<T>(x: T): Tree<T> {
    Branch(x, Leaf, Leaf)
  }

  lemma AboutSingle<T>(x: T, comp: (T, T) -> int)
    ensures var t := Single(x);
            Elems(t) == {x} && Size(t) == 1 && Unique(t) && Heap(t, comp) && Potential(t) == 0
  {
    assert Elems<T>(Leaf) == {};
  }

  ghost function Remove<T>(t: Tree<T>, x: T, comp: (T, T) -> int): Tree<T> {
    match t
    case Leaf => Leaf
    case Branch(y, l, r) =>
      if x == y then Merge(l, r, comp)
      else if x in Elems(l) then Branch(y, Remove(l, x, comp), r)
      else Branch(y, l, Remove(r, x, comp))
  }

  // ---- contents and order ----

  lemma {:induction false} MergeElems<T>(a: Tree<T>, b: Tree<T>, comp: (T, T) -> int)
    ensures Elems(Merge(a, b, comp)) == Elems(a) + Elems(b)
    ensures Size(Merge(a, b, comp)) == Size(a) + Size(b)
    ensures Unique(a) && Unique(b) && Elems(a) !! Elems(b) ==> Unique(Merge(a, b, comp))
    decreases a, b
  {
    if a.Branch? && b.Branch? {
      if Less(comp, a.elem, b.elem) {
        MergeElems(a.right, b, comp);
      } else {
        MergeElems(a, b.right, comp);
      }
    }
  }

  lemma {:induction false} MergeHeap<T>(a: Tree<T>, b: Tree<T>, comp: (T, T) -> int)
    requires TotalPreorder(comp, Elems(a) + Elems(b)) && Heap(a, comp) && Heap(b, comp)
    ensures Heap(Merge(a, b, comp), comp)
    decreases a, b
  {
    if a.Branch? && b.Branch? {
      if Less(comp, a.elem, b.elem) {
        MergeHeap(a.right, b, comp);
        MergeElems(a.right, b, comp);
      } else {
        MergeHeap(a, b.right, comp);
        MergeElems(a, b.right, comp);
      }
    }
  }

  lemma {:induction false} RemoveElems<T>(t: Tree<T>, x: T, comp: (T, T) -> int)
    requires Unique(t) && x in Elems(t)
    ensures Elems(Remove(t, x, comp)) == Elems(t) - {x}
    ensures Size(Remove(t, x, comp)) == Size(t) - 1
    ensures Unique(Remove(t, x, comp))
  {
    if x == t.elem {
      MergeElems(t.left, t.right, comp);
    } else if x in Elems(t.left) {
      RemoveElems(t.left, x, comp);
    } else {
      RemoveElems(t.right, x, comp);
    }
  }

  lemma {:induction false} RemoveHeap<T>(t: Tree<T>, x: T, comp: (T, T) -> int)
    requires TotalPreorder(comp, Elems(t)) && Heap(t, comp) && Unique(t) && x in Elems(t)
    ensures Heap(Remove(t, x, comp), comp)
  {
    if x == t.elem {
      MergeHeap(t.left, t.right, comp);
    } else if x in Elems(t.left) {
      RemoveHeap(t.left, x, comp);
      RemoveElems(t.left, x, comp);
    } else {
      RemoveHeap(t.right, x, comp);
      RemoveElems(t.right, x, comp);
    }
  }

  /** A nonempty heap has a minimum, and it is at the root. */
  lemma RootIsMinimum<T>(t: Tree<T>, comp: (T, T) -> int)
    requires TotalPreorder(comp, Elems(t)) && Heap(t, comp) && t.Branch?
    ensures t.elem in Elems(t)
    ensures forall y :: y in Elems(t) ==> !Less(comp, y, t.elem)
  {
  }

  // ---- cost ----

  predicate RightHeavy<T>(t: Tree<T>) {
    t.Branch? && Size(t.right) > Size(t.left)
  }

  /** The number of right-heavy nodes. */
  function Potential<T>(t: Tree<T>): nat {
    match t
    case Leaf => 0
    case Branch(_, l, r) => (if RightHeavy(t) then 1 else 0) + Potential(l) + Potential(r)
  }

  /** The number of calls that merging takes, counting the first. */
  function MergeCalls<T>(a: Tree<T>, b: Tree<T>, comp: (T, T) -> int): nat
    decreases a, b
  {
    if a.Leaf? || b.Leaf? then 1
    else if Less(comp, a.elem, b.elem) then 1 + MergeCalls(a.right, b, comp)
    else 1 + MergeCalls(a, b.right, comp)
  }

  /** Nodes on the right spine that are not right-heavy. */
  function Lights<T>(t: Tree<T>): nat {
    if t.Leaf? then 0 else (if RightHeavy(t) then 0 else 1) + Lights(t.right)
  }

  /** Nodes on the left spine that are right-heavy. */
  function LeftSpineHeavies<T>(t: Tree<T>): nat {
    if t.Leaf? then 0 else (if RightHeavy(t) then 1 else 0) + LeftSpineHeavies(t.left)
  }

  lemma {:induction false} LightsLogarithmic<T>(t: Tree<T>)
    ensures Pow2(Lights(t)) <= Size(t) + 1
  {
    if t.Branch? { LightsLogarithmic(t.right); }
  }

  lemma {:induction false} LeftSpineLogarithmic<T>(t: Tree<T>)
    ensures Pow2(LeftSpineHeavies(t)) <= Size(t) + 1
  {
    if t.Branch? { LeftSpineLogarithmic(t.left); }
  }

  /** Every call pays with a light node it meets, or with the potential of a heavy one. */
  lemma {:induction false} MergeAccount<T>(a: Tree<T>, b: Tree<T>, comp: (T, T) -> int)
    ensures var t := Merge(a, b, comp);
            MergeCalls(a, b, comp) + Potential(t)
            <= 1 + Potential(a) + Potential(b) + Lights(a) + Lights(b) + LeftSpineHeavies(t)
    decreases a, b
  {
    if a.Branch? && b.Branch? {
      if Less(comp, a.elem, b.elem) {
        MergeAccount(a.right, b, comp);
        MergeElems(a.right, b, comp);
      } else {
        MergeAccount(a, b.right, comp);
        MergeElems(a, b.right, comp);
      }
    }
  }

  /** k is at least the logarithm of n to base 2, rounded down. */
  predicate LogAtMost(n: nat, k: nat) {
    n < 2 * Pow2(k)
  }

  lemma PowBelow(m: nat, n: nat, k: nat)
    requires Pow2(m) <= n && LogAtMost(n, k)
    ensures m <= k
  {
    if m > k { Pow2Monotone(k + 1, m); }
  }

  lemma SpineLogs<T>(t: Tree<T>, k: nat)
    requires LogAtMost(Size(t) + 1, k)
    ensures Lights(t) <= k && LeftSpineHeavies(t) <= k
  {
    LightsLogarithmic(t);
    LeftSpineLogarithmic(t);
    PowBelow(Lights(t), Size(t) + 1, k);
    PowBelow(LeftSpineHeavies(t), Size(t) + 1, k);
  }

  /** Main cost result: the calls of one merge plus the change of potential are at most
      1 + log(|a|+1) + log(|b|+1) + log(|a|+|b|+1), the logarithms rounded down. */
  lemma MergeAmortized<T>(a: Tree<T>, b: Tree<T>, comp: (T, T) -> int, ka: nat, kb: nat, k: nat)
    requires LogAtMost(Size(a) + 1, ka) && LogAtMost(Size(b) + 1, kb) && LogAtMost(Size(a) + Size(b) + 1, k)
    ensures MergeCalls(a, b, comp) + Potential(Merge(a, b, comp)) - Potential(a) - Potential(b) <= 1 + ka + kb + k
  {
    MergeAccount(a, b, comp);
    MergeElems(a, b, comp);
    SpineLogs(a, ka);
    SpineLogs(b, kb);
    SpineLogs(Merge(a, b, comp), k);
  }

  /** Ancestors of x whose two subtrees have equal size, x being in the left one: the
      only ones that removing x can make right-heavy. */
  ghost function Tipped<T>(t: Tree<T>, x: T): nat {
    match t
    case Leaf => 0
    case Branch(y, l, r) =>
      if x == y then 0
      else if x in Elems(l) then (if Size(l) == Size(r) then 1 else 0) + Tipped(l, x)
      else Tipped(r, x)
  }

  lemma {:induction false} TippedLogarithmic<T>(t: Tree<T>, x: T)
    ensures Pow2(Tipped(t, x)) <= Size(t) + 1
    ensures x in Elems(t) && Unique(t) ==> Pow2(Tipped(t, x)) <= Size(t)
  {
    if t.Branch? && x != t.elem {
      if x in Elems(t.left) { TippedLogarithmic(t.left, x); } else { TippedLogarithmic(t.right, x); }
    }
  }

  /** The calls made by the merge inside a removal. */
  ghost function RemoveCalls<T>(t: Tree<T>, x: T, comp: (T, T) -> int): nat {
    var s := Subtree(t, x);
    if s.Leaf? then 0 else MergeCalls(s.left, s.right, comp)
  }

  ghost function Subtree<T>(t: Tree<T>, x: T): Tree<T> {
    match t
    case Leaf => Leaf
    case Branch(y, l, r) =>
      if x == y then t else if x in Elems(l) then Subtree(l, x) else Subtree(r, x)
  }

  /** Removing x changes the potential by what its own merge does plus at most Tipped. */
  lemma {:induction false} RemoveAccount<T>(t: Tree<T>, x: T, comp: (T, T) -> int)
    requires Unique(t) && x in Elems(t)
    ensures var s := Subtree(t, x); s.Branch? && s.elem == x && Size(s) <= Size(t)
    ensures var s := Subtree(t, x);
            Potential(Remove(t, x, comp)) - Potential(t)
            <= Potential(Merge(s.left, s.right, comp)) - Potential(s.left) - Potential(s.right) + Tipped(t, x)
  {
    if x != t.elem {
      if x in Elems(t.left) {
        RemoveAccount(t.left, x, comp);
        RemoveElems(t.left, x, comp);
      } else {
        RemoveAccount(t.right, x, comp);
        RemoveElems(t.right, x, comp);
      }
    }
  }

  // ---- whole runs ----

  datatype Op<T> = Insert(elem: T) | Delete(elem: T)

  /** The tree after a run that starts empty, or nothing if the run inserts an element
      that is present or deletes one that is absent. */
  datatype Run<T> = Invalid | Valid(tree: Tree<T>, contents: set<T>, calls: nat, largest: nat)

  ghost function Step<T>(run: Run<T>, op: Op<T>, comp: (T, T) -> int): Run<T> {
    if run.Invalid? then Invalid
    else
      var t := run.tree;
      match op
      case Insert(x) =>
        if x in run.contents then Invalid
        else
          Valid(Merge(t, Single(x), comp), run.contents + {x},
                run.calls + MergeCalls(t, Single(x), comp), Max(run.largest, Size(t) + 1))
      case Delete(x) =>
        if x !in run.contents then Invalid
        else Valid(Remove(t, x, comp), run.contents - {x}, run.calls + RemoveCalls(t, x, comp), run.largest)
  }

  ghost function Execute<T>(ops: seq<Op<T>>, comp: (T, T) -> int): Run<T> {
    if ops == [] then Valid(Leaf, {}, 0, 0)
    else Step(Execute(ops[..|ops| - 1], comp), ops[|ops| - 1], comp)
  }

  function Max(m: nat, n: nat): nat {
    if m < n then n else m
  }

  ghost predicate Refines<T>(run: Run<T>, comp: (T, T) -> int)
    requires run.Valid?
  {
    && Heap(run.tree, comp) && Unique(run.tree)
    && Elems(run.tree) == run.contents
    && Size(run.tree) == |run.contents| <= run.largest
  }

  lemma InsertRefines<T>(t: Tree<T>, x: T, comp: (T, T) -> int, u: set<T>)
    requires TotalPreorder(comp, u) && Elems(t) + {x} <= u
    requires Heap(t, comp) && Unique(t) && x !in Elems(t)
    ensures var m := Merge(t, Single(x), comp);
            Heap(m, comp) && Unique(m) && Elems(m) == Elems(t) + {x} && Size(m) == Size(t) + 1
  {
    AboutSingle(x, comp);
    MergeElems(t, Single(x), comp);
    MergeHeap(t, Single(x), comp);
  }

  lemma DeleteRefines<T>(t: Tree<T>, x: T, comp: (T, T) -> int, u: set<T>)
    requires TotalPreorder(comp, u) && Elems(t) <= u
    requires Heap(t, comp) && Unique(t) && x in Elems(t)
    ensures var m := Remove(t, x, comp);
            Heap(m, comp) && Unique(m) && Elems(m) == Elems(t) - {x} && Size(m) == Size(t) - 1
  {
    RemoveElems(t, x, comp);
    RemoveHeap(t, x, comp);
  }

  lemma StepRefines<T>(run: Run<T>, op: Op<T>, comp: (T, T) -> int, u: set<T>)
    requires TotalPreorder(comp, u)
    requires run.Valid? ==> run.contents <= u
    requires op.elem in u
    requires run.Valid? && Refines(run, comp) && Step(run, op, comp).Valid?
    ensures Refines(Step(run, op, comp), comp)
  {
    match op {
      case Insert(x) =>
        InsertRefines(run.tree, x, comp, u);
      case Delete(x) =>
        DeleteRefines(run.tree, x, comp, u);
    }
  }

  /** Main result on runs: any sequence of insertions and deletions of arbitrary elements
      leaves a heap holding exactly the set that the same operations leave of a plain set. */
  lemma {:induction false} RunRefinesSet<T>(ops: seq<Op<T>>, comp: (T, T) -> int, u: set<T>)
    requires TotalPreorder(comp, u) && forall op :: op in ops ==> op.elem in u
    requires Execute(ops, comp).Valid?
    ensures Refines(Execute(ops, comp), comp) && Execute(ops, comp).contents <= u
  {
    if ops != [] {
      RunRefinesSet(ops[..|ops| - 1], comp, u);
      StepRefines(Execute(ops[..|ops| - 1], comp), ops[|ops| - 1], comp, u);
    }
  }

  /** One operation, with the potential it leaves behind, costs at most 1 + 4 log(n+1). */
  lemma StepCost<T>(run: Run<T>, op: Op<T>, comp: (T, T) -> int, k: nat)
    requires run.Valid? && Refines(run, comp)
    requires Step(run, op, comp).Valid? && LogAtMost(Step(run, op, comp).largest + 1, k)
    ensures var next := Step(run, op, comp);
            next.calls + Potential(next.tree) <= run.calls + Potential(run.tree) + 1 + 4 * k
  {
    var t := run.tree;
    match op {
      case Insert(x) =>
        AboutSingle(x, comp);
        MergeElems(t, Single(x), comp);
        MergeAmortized(t, Single(x), comp, k, k, k);
      case Delete(x) =>
        RemoveAccount(t, x, comp);
        TippedLogarithmic(t, x);
        PowBelow(Tipped(t, x), Size(t) + 1, k);
        var s := Subtree(t, x);
        MergeAmortized(s.left, s.right, comp, k, k, k);
    }
  }

  lemma OneMore(m: nat, per: nat)
    ensures (m + 1) * per == m * per + per
  {
  }

  /** Main result on cost: m operations on at most n elements take at most
      m * (1 + 4 log(n+1)) calls of merge. */
  lemma {:induction false} RunCost<T>(ops: seq<Op<T>>, comp: (T, T) -> int, u: set<T>, k: nat, m: nat, per: nat)
    requires TotalPreorder(comp, u) && forall op :: op in ops ==> op.elem in u
    requires Execute(ops, comp).Valid? && LogAtMost(Execute(ops, comp).largest + 1, k)
    requires m == |ops| && per == 1 + 4 * k
    ensures var run := Execute(ops, comp);
            run.calls + Potential(run.tree) <= m * per
  {
    if ops == [] {
      assert Potential(Execute(ops, comp).tree) == 0;
    } else {
      var prefix := ops[..m - 1];
      var before := Execute(prefix, comp);
      assert before.Valid? && before.largest <= Execute(ops, comp).largest;
      RunCost(prefix, comp, u, k, m - 1, per);
      RunRefinesSet(prefix, comp, u);
      StepCost(before, ops[m - 1], comp, k);
      OneMore(m - 1, per);
    }
  }
}
