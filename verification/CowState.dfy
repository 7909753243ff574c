/**
  The state behind copy-on-write (lab5/cow/pmm.c): physical pages with reference counts, and
  address spaces that name them.  Page tables are seen here as one flat map from places (a
  process and a virtual page number) to leaf entries; PageTable shows that the three-level
  tree gives exactly that view.
 */
module CowState {
  import opened Vma

  const PTES: nat := 512

  type Bytes = seq<bv8>

  datatype Place = Place(pid: nat, vpn: nat)

  /** A valid leaf entry of a user page: PTE_V and PTE_U are always set. */
  datatype Leaf = Leaf(frame: nat, r: bool, w: bool, x: bool)

  /** dirs and tables say which second- and third-level tables exist, by the number of the
      1 GB and 2 MB block they cover. */
  datatype Space = Space(areas: seq<Area>, dirs: set<nat>, tables: set<nat>)

  /** tabs are the pages in use as page tables. */
  datatype State = State(
    refs: map<nat, nat>, mem: map<nat, Bytes>, free: set<nat>, tabs: set<nat>,
    spaces: map<nat, Space>, ptes: map<Place, Leaf>)

  predicate Covers(a: Area, v: nat) {
    a.start / PGSIZE <= v < a.end / PGSIZE
  }

  ghost predicate InArea(areas: seq<Area>, v: nat) {
    exists a :: a in areas && Covers(a, v)
  }

  predicate Aligned(areas: seq<Area>) {
    forall a :: a in areas ==> a.start % PGSIZE == 0 && a.end % PGSIZE == 0 && UserAccess(a.start, a.end)
  }

  /** The places that name a page. */
  ghost function Mappings(ptes: map<Place, Leaf>, f: nat): set<Place> {
    set l | l in ptes && ptes[l].frame == f
  }

  ghost predicate Frames(s: State) {
    && s.refs.Keys == s.mem.Keys && s.free <= s.refs.Keys && s.tabs <= s.refs.Keys && s.free !! s.tabs
    && forall f :: f in s.mem ==> |s.mem[f]| == PGSIZE
  }

  /** Leaves name pages that are neither free nor page tables. */
  ghost predicate Leaves(s: State) {
    forall l :: l in s.ptes ==>
      s.ptes[l].frame in s.refs && s.ptes[l].frame !in s.free && s.ptes[l].frame !in s.tabs
  }

  /** The reference count of a page that is no page table is the number of leaves naming it. */
  ghost predicate Counted(s: State) {
    forall f :: f in s.refs && f !in s.tabs ==> s.refs[f] == |Mappings(s.ptes, f)|
  }

  /** A writable page is named once. */
  ghost predicate Exclusive(s: State) {
    forall l :: l in s.ptes && s.ptes[l].w ==>
      s.ptes[l].frame in s.refs && s.refs[s.ptes[l].frame] == 1
  }

  /** Areas are sorted and page-aligned, and leaves lie in existing tables and in areas. */
  ghost predicate Spaces(s: State) {
    && (forall p :: p in s.spaces ==> Sorted(s.spaces[p].areas) && Aligned(s.spaces[p].areas))
    && (forall l :: l in s.ptes ==>
          l.pid in s.spaces && l.vpn / PTES in s.spaces[l.pid].tables && InArea(s.spaces[l.pid].areas, l.vpn))
  }

  ghost predicate Inv(s: State) {
    Frames(s) && Leaves(s) && Counted(s) && Exclusive(s) && Spaces(s)
  }

  // ---- counting ----

  lemma MappingsAdd(ptes: map<Place, Leaf>, l: Place, leaf: Leaf, f: nat)
    requires l !in ptes
    ensures |Mappings(ptes[l := leaf], f)| == |Mappings(ptes, f)| + (if f == leaf.frame then 1 else 0)
  {
    assert Mappings(ptes[l := leaf], f) == Mappings(ptes, f) + (if f == leaf.frame then {l} else {});
  }

  lemma MappingsRemove(ptes: map<Place, Leaf>, l: Place, f: nat)
    requires l in ptes
    ensures |Mappings(ptes - {l}, f)| == |Mappings(ptes, f)| - (if f == ptes[l].frame then 1 else 0)
  {
    assert Mappings(ptes - {l}, f) == Mappings(ptes, f) - {l};
    assert f == ptes[l].frame <==> l in Mappings(ptes, f);
  }

  /** Changing permissions changes no count. */
  lemma MappingsSame(a: map<Place, Leaf>, b: map<Place, Leaf>, f: nat)
    requires a.Keys == b.Keys && forall l :: l in a ==> a[l].frame == b[l].frame
    ensures Mappings(a, f) == Mappings(b, f)
  {
    assert forall l :: l in a <==> l in b;
  }

  lemma OnlyElement<T>(s: set<T>, x: T, y: T)
    requires |s| == 1 && x in s && y in s
    ensures x == y
  {
    assert |s - {x}| == 0;
    assert y !in s - {x};
  }

  /** A page with count 1 is named by one leaf only. */
  lemma SoleMapping(s: State, l: Place, k: Place)
    requires Leaves(s) && Counted(s) && l in s.ptes && k in s.ptes
    requires s.ptes[l].frame == s.ptes[k].frame && s.refs[s.ptes[l].frame] == 1
    ensures l == k
  {
    OnlyElement(Mappings(s.ptes, s.ptes[l].frame), l, k);
  }

  // ---- page_remove_pte and page_insert as functions ----

  ghost predicate Refers(s: State, l: Place) {
    l in s.ptes ==> s.ptes[l].frame in s.refs && s.refs[s.ptes[l].frame] >= 1
  }

  function RemovePte(s: State, l: Place): State
    requires Refers(s, l)
  {
    if l !in s.ptes then s
    else
      var f := s.ptes[l].frame;
      s.(refs := s.refs[f := s.refs[f] - 1],
         free := if s.refs[f] - 1 == 0 then s.free + {f} else s.free,
         ptes := s.ptes - {l})
  }

  /** page_insert, once the table for l exists: count the page up, let go of what was there
      (just counting down again if it was the same page), then write the entry. */
  function InsertPte(s: State, l: Place, leaf: Leaf): State
    requires leaf.frame in s.refs && Refers(s, l)
  {
    var up := s.(refs := s.refs[leaf.frame := s.refs[leaf.frame] + 1]);
    var cleared :=
      if l !in s.ptes then up
      else if s.ptes[l].frame == leaf.frame then s
      else RemovePte(up, l);
    cleared.(ptes := cleared.ptes[l := leaf])
  }

  lemma LeafRefers(s: State, l: Place)
    requires Leaves(s) && Counted(s)
    ensures Refers(s, l)
  {
    if l in s.ptes { assert l in Mappings(s.ptes, s.ptes[l].frame); }
  }

  lemma RemoveKeepsCounts(s: State, l: Place)
    requires Leaves(s) && Counted(s)
    ensures Refers(s, l) && Counted(RemovePte(s, l))
  {
    LeafRefers(s, l);
    if l in s.ptes {
      forall f | f in s.refs && f !in s.tabs
        ensures RemovePte(s, l).refs[f] == |Mappings(s.ptes - {l}, f)|
      {
        MappingsRemove(s.ptes, l, f);
      }
    }
  }

  /** After the removal, a page that became free is named nowhere. */
  lemma RemoveKeepsLeaves(s: State, l: Place)
    requires Leaves(s) && Counted(s)
    ensures Refers(s, l) && Leaves(RemovePte(s, l))
  {
    LeafRefers(s, l);
    if l in s.ptes {
      forall k | k in s.ptes && k != l && s.ptes[k].frame == s.ptes[l].frame
        ensures s.refs[s.ptes[l].frame] != 1
      {
        if s.refs[s.ptes[l].frame] == 1 { SoleMapping(s, l, k); }
      }
    }
  }

  lemma RemoveKeepsExclusive(s: State, l: Place)
    requires Leaves(s) && Counted(s) && Exclusive(s)
    ensures Refers(s, l) && Exclusive(RemovePte(s, l))
  {
    LeafRefers(s, l);
    if l in s.ptes {
      forall k | k in s.ptes && k != l && s.ptes[k].w
        ensures s.ptes[k].frame != s.ptes[l].frame
      {
        if s.ptes[k].frame == s.ptes[l].frame { SoleMapping(s, l, k); }
      }
    }
  }

  lemma RemoveKeepsInv(s: State, l: Place)
    requires Inv(s)
    ensures Refers(s, l) && Inv(RemovePte(s, l))
  {
    RemoveKeepsCounts(s, l);
    RemoveKeepsLeaves(s, l);
    RemoveKeepsExclusive(s, l);
  }

  /** What the caller of page_insert must grant: the page is allocated data, nobody else can
      write it, and if the new entry is writable then nobody else names it. */
  ghost predicate MayMap(s: State, l: Place, leaf: Leaf) {
    && leaf.frame in s.refs && leaf.frame !in s.free && leaf.frame !in s.tabs
    && (forall k :: k in s.ptes && k != l && s.ptes[k].frame == leaf.frame ==> !s.ptes[k].w && !leaf.w)
    && l.pid in s.spaces && InArea(s.spaces[l.pid].areas, l.vpn)
  }

  ghost predicate MayInsert(s: State, l: Place, leaf: Leaf) {
    MayMap(s, l, leaf) && l.vpn / PTES in s.spaces[l.pid].tables
  }

  lemma InsertKeepsInv(s: State, l: Place, leaf: Leaf)
    requires Inv(s) && MayInsert(s, l, leaf)
    ensures Refers(s, l) && Inv(InsertPte(s, l, leaf))
  {
    LeafRefers(s, l);
    if l in s.ptes && s.ptes[l].frame != leaf.frame {
      RemoveKeepsInv(s, l);
      InsertFreshKeepsInv(RemovePte(s, l), l, leaf);
      InsertIsRemoveThenInsert(s, l, leaf);
    } else if l in s.ptes {
      RewriteKeepsInv(s, l, leaf);
    } else {
      InsertFreshKeepsInv(s, l, leaf);
    }
  }

  lemma InsertIsRemoveThenInsert(s: State, l: Place, leaf: Leaf)
    requires leaf.frame in s.refs && Refers(s, l)
    requires l in s.ptes && s.ptes[l].frame != leaf.frame
    ensures InsertPte(s, l, leaf) == InsertPte(RemovePte(s, l), l, leaf)
  {
    var f := s.ptes[l].frame;
    assert s.refs[leaf.frame := s.refs[leaf.frame] + 1][f := s.refs[f] - 1]
        == s.refs[f := s.refs[f] - 1][leaf.frame := s.refs[leaf.frame] + 1];
    assert s.ptes[l := leaf] == (s.ptes - {l})[l := leaf];
  }

  lemma InsertFreshKeepsInv(s: State, l: Place, leaf: Leaf)
    requires Inv(s) && MayInsert(s, l, leaf) && l !in s.ptes
    ensures Inv(InsertPte(s, l, leaf))
  {
    var t := InsertPte(s, l, leaf);
    forall f | f in s.refs && f !in s.tabs ensures t.refs[f] == |Mappings(t.ptes, f)| {
      MappingsAdd(s.ptes, l, leaf, f);
    }
    if leaf.w {
      assert Mappings(s.ptes, leaf.frame) == {};
    }
  }

  /** Re-inserting the same page only changes the permissions. */
  lemma RewriteKeepsInv(s: State, l: Place, leaf: Leaf)
    requires Inv(s) && MayInsert(s, l, leaf) && l in s.ptes && s.ptes[l].frame == leaf.frame
    ensures Refers(s, l) && Inv(InsertPte(s, l, leaf))
  {
    LeafRefers(s, l);
    RewriteKeepsCounts(s, l, leaf);
    RewriteKeepsExclusive(s, l, leaf);
  }

  lemma RewriteKeepsCounts(s: State, l: Place, leaf: Leaf)
    requires Counted(s) && l in s.ptes && s.ptes[l].frame == leaf.frame
    ensures Counted(s.(ptes := s.ptes[l := leaf]))
  {
    var ptes := s.ptes[l := leaf];
    forall f ensures Mappings(ptes, f) == Mappings(s.ptes, f) { MappingsSame(ptes, s.ptes, f); }
  }

  lemma RewriteKeepsExclusive(s: State, l: Place, leaf: Leaf)
    requires Counted(s) && Exclusive(s) && MayMap(s, l, leaf) && l in s.ptes && s.ptes[l].frame == leaf.frame
    ensures Exclusive(s.(ptes := s.ptes[l := leaf]))
  {
    hide InArea;
    if leaf.w {
      assert Mappings(s.ptes, leaf.frame) == {l};
      assert s.refs[leaf.frame] == 1;
    }
  }
}
