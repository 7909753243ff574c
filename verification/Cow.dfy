/**
  Copy-on-write as the kernel performs it: page_remove_pte, page_insert, unmap_range and
  copy_range (lab5/cow/pmm.c), dup_mmap, exit_mmap and do_pgfault (lab5/cow/vmm.c), and the
  fork and exit of an address space (lab5/cow/proc.c).  Every method keeps the counting
  invariant CowState.Inv and says what becomes of the data that each process sees.
 */
module Cow {
  import opened Vma
  import opened CowState

  /** Spins is a loop that does not end, Panic an assert that fires. */
  datatype Result = Done | NoMem | BadAddress | Panic | Spins

  /** What a process reads at each of its places. */
  ghost function Data(s: State): map<Place, Bytes>
    requires Frames(s) && Leaves(s)
  {
    map l | l in s.ptes :: s.mem[s.ptes[l].frame]
  }

  /** Pages moved from the free set to the page tables of p; nothing else changed. */
  ghost predicate TablesGrew(s: State, t: State, p: nat) {
    && t.mem == s.mem && t.ptes == s.ptes
    && t.free <= s.free && t.tabs == s.tabs + (s.free - t.free)
    && t.refs.Keys == s.refs.Keys && (forall f :: f in s.refs && f !in s.free - t.free ==> t.refs[f] == s.refs[f])
    && (forall f :: f in s.free - t.free ==> f in t.refs && t.refs[f] == 1)
    && t.spaces.Keys == s.spaces.Keys && (forall q :: q in s.spaces && q != p ==> t.spaces[q] == s.spaces[q])
    && (p in s.spaces ==> t.spaces[p].areas == s.spaces[p].areas && s.spaces[p].tables <= t.spaces[p].tables)
  }

  lemma TablesGrewTwice(s: State, t: State, u: State, p: nat)
    requires TablesGrew(s, t, p) && TablesGrew(t, u, p)
    ensures TablesGrew(s, u, p)
  {
    assert s.free - u.free == (s.free - t.free) + (t.free - u.free);
  }

  lemma TablesGrewNot(s: State, p: nat)
    ensures TablesGrew(s, s, p)
  {
  }

  /** The pages taken for the tables of the two lower levels. */
  function Given(pages: (Option<nat>, Option<nat>)): set<nat> {
    (if pages.0.Some? then {pages.0.value} else {}) + (if pages.1.Some? then {pages.1.value} else {})
  }

  predicate DifferentPages(pages: (Option<nat>, Option<nat>)) {
    pages.0.Some? && pages.1.Some? ==> pages.0 != pages.1
  }

  /** A table for the middle level is taken only if it is missing, one for the last level exactly
      if it is new. */
  ghost predicate TookPages(s: State, t: State, p: nat, v: nat, pages: (Option<nat>, Option<nat>)) {
    && p in s.spaces && p in t.spaces
    && t.free == s.free - Given(pages) && Given(pages) <= s.free && DifferentPages(pages)
    && t.spaces[p].dirs == s.spaces[p].dirs + (if pages.0.Some? then {v / PTES / PTES} else {})
    && (pages.0.Some? ==> v / PTES / PTES !in s.spaces[p].dirs)
    && (pages.1.Some? <==> v / PTES in t.spaces[p].tables && v / PTES !in s.spaces[p].tables)
    && (pages.1.Some? ==> v / PTES / PTES in t.spaces[p].dirs)
  }

  /** No page became a table. */
  ghost predicate NoTables(s: State, t: State) {
    t.spaces == s.spaces && t.tabs == s.tabs && t.refs.Keys == s.refs.Keys
  }

  lemma InsertMakesNoTables(s: State, l: Place, leaf: Leaf)
    requires leaf.frame in s.refs && Refers(s, l)
    ensures NoTables(s, InsertPte(s, l, leaf))
  {
  }

  lemma TookNothing(s: State, p: nat, v: nat)
    requires p in s.spaces
    ensures TookPages(s, s, p, v, (None, None))
  {
  }

  lemma TookDir(s: State, t: State, p: nat, v: nat, page: Option<nat>)
    requires p in s.spaces && p in t.spaces && t.spaces[p].tables == s.spaces[p].tables
    requires v / PTES / PTES !in s.spaces[p].dirs && v / PTES !in s.spaces[p].tables
    requires t.spaces[p].dirs == s.spaces[p].dirs + if page.Some? then {v / PTES / PTES} else {}
    requires if page.Some? then page.value in s.free && t.free == s.free - {page.value} else t.free == s.free
    ensures TookPages(s, t, p, v, (page, None))
  {
  }

  lemma TookTable(s: State, t: State, u: State, p: nat, v: nat, dir: Option<nat>, page: Option<nat>)
    requires TookPages(s, t, p, v, (dir, None)) && v / PTES !in s.spaces[p].tables
    requires p in u.spaces && u.spaces[p].dirs == t.spaces[p].dirs && v / PTES / PTES in t.spaces[p].dirs
    requires u.spaces[p].tables == t.spaces[p].tables + if page.Some? then {v / PTES} else {}
    requires if page.Some? then page.value in t.free && u.free == t.free - {page.value} else u.free == t.free
    ensures TookPages(s, u, p, v, (dir, page))
  {
  }

  lemma TableTaken(s: State, page: nat, p: nat)
    requires page in s.free && s.free <= s.refs.Keys
    ensures TablesGrew(s, s.(refs := s.refs[page := 1], free := s.free - {page}, tabs := s.tabs + {page}), p)
  {
    assert s.free - (s.free - {page}) == {page};
  }

  lemma TablesKeepInv(s: State, t: State, p: nat)
    requires Inv(s) && TablesGrew(s, t, p)
    ensures Inv(t) && Spent(s, t, p)
  {
    hide Counted, Exclusive, Spaces;
    TablesKeepCounts(s, t, p);
    TablesKeepSpaces(s, t, p);
  }

  lemma TablesKeepCounts(s: State, t: State, p: nat)
    requires Frames(s) && Leaves(s) && Counted(s) && Exclusive(s) && TablesGrew(s, t, p)
    ensures Counted(t) && Exclusive(t)
  {
    hide Mappings;
    forall f | f in t.refs && f !in t.tabs ensures t.refs[f] == |Mappings(t.ptes, f)| {
      assert f !in s.tabs && f !in s.free - t.free;
    }
    forall l | l in t.ptes && t.ptes[l].w ensures t.ptes[l].frame in t.refs && t.refs[t.ptes[l].frame] == 1 {
      assert t.ptes[l].frame !in s.free - t.free;
    }
  }

  lemma TablesKeepSpaces(s: State, t: State, p: nat)
    requires Spaces(s) && TablesGrew(s, t, p)
    ensures Spaces(t)
  {
    hide Sorted, Aligned, InArea;
  }

  /** Only pages were taken from the free set, some of them for page tables of p. */
  ghost predicate Spent(s: State, t: State, p: nat) {
    && t.mem == s.mem && t.ptes == s.ptes && t.refs.Keys == s.refs.Keys
    && t.free <= s.free && s.tabs <= t.tabs <= s.tabs + s.free
    && t.spaces.Keys == s.spaces.Keys && (forall q :: q in s.spaces && q != p ==> t.spaces[q] == s.spaces[q])
    && (p in s.spaces ==> t.spaces[p].areas == s.spaces[p].areas && s.spaces[p].tables <= t.spaces[p].tables)
  }

  lemma TablesKeepMayMap(s: State, t: State, l: Place, leaf: Leaf)
    requires TablesGrew(s, t, l.pid) && MayMap(s, l, leaf)
    ensures MayMap(t, l, leaf)
  {
  }

  /** The pages released on the way from s to t are exactly those whose count reached 0. */
  ghost predicate ReleasedExactly(s: State, t: State)
    requires s.refs.Keys == t.refs.Keys
  {
    && (forall f :: f in s.refs ==> t.refs[f] <= s.refs[f])
    && (forall f :: f in s.refs ==> (f in t.free <==> f in s.free || (s.refs[f] > 0 && t.refs[f] == 0)))
  }

  // ---- single entries ----

  lemma AboutInsert(s: State, l: Place, leaf: Leaf)
    requires leaf.frame in s.refs && Refers(s, l)
    ensures var t := InsertPte(s, l, leaf);
            && t.ptes == s.ptes[l := leaf] && t.mem == s.mem && t.spaces == s.spaces && t.tabs == s.tabs
            && s.free <= t.free
  {
    assert l in s.ptes ==> (s.ptes - {l})[l := leaf] == s.ptes[l := leaf];
  }

  lemma DataAfterInsert(s: State, l: Place, leaf: Leaf)
    requires Inv(s) && MayInsert(s, l, leaf)
    ensures Refers(s, l) && Inv(InsertPte(s, l, leaf))
    ensures Data(InsertPte(s, l, leaf)) == Data(s)[l := s.mem[leaf.frame]]
  {
    InsertKeepsInv(s, l, leaf);
    AboutInsert(s, l, leaf);
    DataOfUpdate(s, InsertPte(s, l, leaf), l, leaf);
  }

  lemma DataOfUpdate(s: State, t: State, l: Place, leaf: Leaf)
    requires Frames(s) && Leaves(s) && Frames(t) && Leaves(t)
    requires t.mem == s.mem && t.ptes == s.ptes[l := leaf] && leaf.frame in s.mem
    ensures Data(t) == Data(s)[l := s.mem[leaf.frame]]
  {
  }

  lemma ReleaseStep(s: State, t: State, l: Place)
    requires Inv(t) && s.refs.Keys == t.refs.Keys && ReleasedExactly(s, t)
    ensures Refers(t, l) && ReleasedExactly(s, RemovePte(t, l))
  {
    hide Inv;
    NamedPage(t, l);
  }

  lemma NamedPage(s: State, l: Place)
    requires Inv(s)
    ensures Refers(s, l) && (l in s.ptes ==> s.ptes[l].frame !in s.free)
  {
    LeafRefers(s, l);
  }

  lemma FreePages(s: State)
    requires Inv(s)
    ensures s.free <= s.refs.Keys
  {
  }

  // ---- ranges ----

  /** m without the pages of p from a up to b. */
  function Outside(m: map<Place, Leaf>, p: nat, a: nat, b: nat): map<Place, Leaf> {
    map l | l in m && !(l.pid == p && a <= l.vpn < b) :: m[l]
  }

  lemma OutsideStep(m: map<Place, Leaf>, p: nat, a: nat, v: nat)
    requires a <= v
    ensures Outside(m, p, a, v + 1) == Outside(m, p, a, v) - {Place(p, v)}
  {
  }

  lemma OutsideSkip(m: map<Place, Leaf>, p: nat, a: nat, v: nat, w: nat)
    requires a <= v <= w && forall l :: l in Outside(m, p, a, v) && l.pid == p ==> !(v <= l.vpn < w)
    ensures Outside(m, p, a, w) == Outside(m, p, a, v)
  {
  }

  lemma ReleasedNothing(s: State)
    requires Inv(s)
    ensures ReleasedExactly(s, s)
  {
  }

  function Without(m: map<Place, Leaf>, p: nat): map<Place, Leaf> {
    map l | l in m && l.pid != p :: m[l]
  }

  lemma ReleasedTwice(s: State, t: State, u: State)
    requires s.refs.Keys == t.refs.Keys == u.refs.Keys
    requires ReleasedExactly(s, t) && ReleasedExactly(t, u)
    ensures ReleasedExactly(s, u)
  {
  }

  lemma InOneMore(areas: seq<Area>, i: nat, v: nat)
    requires i < |areas|
    ensures InArea(areas[..i + 1], v) <==> InArea(areas[..i], v) || Covers(areas[i], v)
  {
    assert areas[..i + 1] == areas[..i] + [areas[i]];
  }

  lemma NextArea(areas: seq<Area>, i: nat)
    requires i < |areas| && Aligned(areas) && Sorted(areas)
    ensures areas[i] in areas && areas[i..] == [areas[i]] + areas[i + 1..]
    ensures Sorted(areas[i..]) && Aligned(areas[i..])
    ensures areas[i].start / PGSIZE < areas[i].end / PGSIZE
    ensures forall v :: Covers(areas[i], v) ==> !InArea(areas[i + 1..], v)
    ensures forall v: nat :: InArea(areas[i..], v) <==> InArea(areas[i + 1..], v) || Covers(areas[i], v)
  {
    assert areas[i..] == [areas[i]] + areas[i + 1..];
  }

  /** The first page after the 2 MB block of v: ROUNDDOWN(start + PTSIZE, PTSIZE). */
  function NextBlock(v: nat): nat {
    (v / PTES + 1) * PTES
  }

  lemma WithinBlock(v: nat, u: nat)
    requires v <= u < NextBlock(v)
    ensures u / PTES == v / PTES
  {
  }

  /** An absent table covers no leaf, so skipping its block skips nothing. */
  lemma SkipIsSound(s: State, p: nat, v: nat, u: nat)
    requires Inv(s) && p in s.spaces && v / PTES !in s.spaces[p].tables && v <= u < NextBlock(v)
    ensures Place(p, u) !in s.ptes
  {
    WithinBlock(v, u);
  }

  // ---- sharing ----

  ghost function Copies(q: nat, done: set<nat>): (c: set<Place>)
    ensures forall l :: l in c <==> l.pid == q && l.vpn in done
  {
    var c := set v | v in done :: Place(q, v);
    assert forall l: Place :: l.pid == q && l.vpn in done ==> l == Place(q, l.vpn) && l in c;
    c
  }

  /** The entries after the pages done of p have been shared with q. */
  ghost function SharedPtes(m: map<Place, Leaf>, p: nat, q: nat, done: set<nat>): map<Place, Leaf>
    requires forall v :: v in done ==> Place(p, v) in m
  {
    map l | l in m.Keys + Copies(q, done) ::
      if l.vpn in done && (l.pid == p || l.pid == q) then m[Place(p, l.vpn)].(w := false) else m[l]
  }

  lemma ShareOne(m: map<Place, Leaf>, p: nat, q: nat, done: set<nat>, v: nat)
    requires p != q && (forall u :: u in done ==> Place(p, u) in m) && v !in done && Place(p, v) in m
    ensures var t := SharedPtes(m, p, q, done);
            && Place(p, v) in t && t[Place(p, v)] == m[Place(p, v)]
            && SharedPtes(m, p, q, done + {v})
               == t[Place(p, v) := m[Place(p, v)].(w := false)][Place(q, v) := m[Place(p, v)].(w := false)]
  {
    var t := SharedPtes(m, p, q, done);
    var u := SharedPtes(m, p, q, done + {v});
    assert u.Keys == t.Keys + {Place(q, v)};
  }

  lemma ShareMore(m: map<Place, Leaf>, p: nat, q: nat, d: set<nat>, e: set<nat>)
    requires p != q && (forall u :: u in d + e ==> Place(p, u) in m)
    ensures var t := SharedPtes(m, p, q, d);
            && (forall u :: u in e ==> Place(p, u) in t)
            && SharedPtes(t, p, q, e) == SharedPtes(m, p, q, d + e)
  {
    var t := SharedPtes(m, p, q, d);
    assert forall u :: u in e ==> Place(p, u) in t;
    assert SharedPtes(t, p, q, e).Keys == SharedPtes(m, p, q, d + e).Keys;
  }

  /** From s to t, the pages done of p have been shared with q, tables were allocated for q,
      and pages may have been taken from the free set. */
  ghost predicate Shared(s: State, t: State, p: nat, q: nat, done: set<nat>) {
    && t.mem == s.mem && t.free <= s.free && s.tabs <= t.tabs <= s.tabs + s.free
    && t.spaces.Keys == s.spaces.Keys && (forall k :: k in s.spaces && k != q ==> t.spaces[k] == s.spaces[k])
    && (forall v :: v in done ==> Place(p, v) in s.ptes)
    && t.ptes == SharedPtes(s.ptes, p, q, done)
  }

  /** The page at v of p is now mapped read-only at v of p and of q. */
  ghost predicate SharedOnce(s: State, t: State, p: nat, q: nat, v: nat) {
    && Place(p, v) in s.ptes
    && t.mem == s.mem && t.free == s.free && t.tabs == s.tabs && t.spaces == s.spaces && t.refs.Keys == s.refs.Keys
    && t.ptes == s.ptes[Place(p, v) := s.ptes[Place(p, v)].(w := false)]
                       [Place(q, v) := s.ptes[Place(p, v)].(w := false)]
  }

  lemma ShareNothing(s: State, p: nat, q: nat)
    ensures Shared(s, s, p, q, {})
  {
    assert SharedPtes(s.ptes, p, q, {}) == s.ptes;
  }

  lemma SharedFacts(s: State, t: State, p: nat, q: nat, done: set<nat>)
    requires p != q && Shared(s, t, p, q, done)
    ensures t.spaces.Keys == s.spaces.Keys
    ensures p in s.spaces ==> t.spaces[p] == s.spaces[p]
    ensures forall v :: Place(p, v) in t.ptes <==> Place(p, v) in s.ptes
    ensures forall v :: Place(q, v) in t.ptes <==> Place(q, v) in s.ptes || v in done
  {
  }

  lemma ShareStall(s: State, t: State, u: State, p: nat, q: nat, done: set<nat>)
    requires Shared(s, t, p, q, done) && Spent(t, u, q)
    ensures Shared(s, u, p, q, done)
  {
  }

  lemma ShareStep(s: State, t: State, u: State, p: nat, q: nat, done: set<nat>, v: nat)
    requires p != q && Shared(s, t, p, q, done) && SharedOnce(t, u, p, q, v) && v !in done && Place(p, v) in s.ptes
    ensures Shared(s, u, p, q, done + {v})
  {
    ShareOne(s.ptes, p, q, done, v);
  }

  /** Sharing some pages and then some more. */
  lemma ShareAgain(s: State, t: State, u: State, p: nat, q: nat, d: set<nat>, e: set<nat>, areas: seq<Area>)
    requires p != q && q in t.spaces && Shared(s, t, p, q, d) && Shared(GiveAreas(t, q, areas), u, p, q, e)
    ensures Shared(s, u, p, q, d + e)
  {
    assert forall v :: v in e ==> Place(p, v) in s.ptes;
    ShareMore(s.ptes, p, q, d, e);
  }

  function GiveAreas(s: State, q: nat, areas: seq<Area>): State
    requires q in s.spaces
  {
    s.(spaces := s.spaces[q := s.spaces[q].(areas := areas)])
  }

  lemma GiveAreasKeepsInv(s: State, q: nat, areas: seq<Area>)
    requires Inv(s) && q in s.spaces && Sorted(areas) && Aligned(areas)
    requires forall a :: a in s.spaces[q].areas ==> a in areas
    ensures Inv(GiveAreas(s, q, areas))
  {
  }

  /** With everything shared and no place of q before, q sees what p sees. */
  ghost function ForkData<V>(d: map<Place, V>, p: nat, q: nat): map<Place, V> {
    map l | l in d.Keys + Copies(q, Pages(d.Keys, p)) ::
      if l.pid == q && Place(p, l.vpn) in d then d[Place(p, l.vpn)] else d[l]
  }

  ghost function Pages(places: set<Place>, p: nat): (vs: set<nat>)
    ensures forall v :: v in vs <==> Place(p, v) in places
  {
    var vs := set l | l in places && l.pid == p :: l.vpn;
    assert forall v :: Place(p, v) in places ==> Place(p, v).vpn in vs;
    vs
  }

  lemma DataAfterFork(s: State, t: State, p: nat, q: nat)
    requires Frames(s) && Leaves(s) && Frames(t) && Leaves(t)
    requires p != q && (forall l :: l in s.ptes ==> l.pid != q)
    requires Shared(s, t, p, q, Pages(s.ptes.Keys, p))
    ensures Data(t) == ForkData(Data(s), p, q)
  {
    hide Frames, Leaves, Shared, SharedPtes, ForkData, Data;
    var d, e := Data(t), ForkData(Data(s), p, q);
    ForkKeys(s, t, p, q);
    forall l | l in t.ptes ensures d[l] == e[l] {
      ForkEntry(s, t, p, q, l);
    }
  }

  lemma ForkKeys(s: State, t: State, p: nat, q: nat)
    requires Frames(s) && Leaves(s) && Frames(t) && Leaves(t)
    requires Shared(s, t, p, q, Pages(s.ptes.Keys, p))
    ensures Data(t).Keys == t.ptes.Keys == ForkData(Data(s), p, q).Keys
  {
    hide Frames, Leaves;
    assert Data(s).Keys == s.ptes.Keys;
  }

  lemma ForkEntry(s: State, t: State, p: nat, q: nat, l: Place)
    requires Frames(s) && Leaves(s) && Frames(t) && Leaves(t) && l in t.ptes
    requires p != q && (forall k :: k in s.ptes ==> k.pid != q)
    requires Shared(s, t, p, q, Pages(s.ptes.Keys, p))
    ensures l in ForkData(Data(s), p, q) && Data(t)[l] == ForkData(Data(s), p, q)[l]
  {
    hide Frames, Leaves;
    assert Data(s).Keys == s.ptes.Keys;
    if l.pid == q { assert Place(p, l.vpn) in s.ptes; }
  }

  /** The same entries, except that some may have lost write permission. */
  ghost predicate SameFrames(a: map<Place, Leaf>, b: map<Place, Leaf>) {
    a.Keys == b.Keys && forall l :: l in a ==> b[l] == a[l] || b[l] == a[l].(w := false)
  }

  /** Every entry of q is p's entry without write permission. */
  ghost predicate ReadOnlyCopies(a: map<Place, Leaf>, b: map<Place, Leaf>, p: nat, q: nat) {
    forall v: nat :: Place(q, v) in b ==> Place(p, v) in a && b[Place(q, v)] == a[Place(p, v)].(w := false)
  }

  /** Counts depend on nothing but the names, so undoing a fork restores them all. */
  lemma CountsRestored(s: State, t: State)
    requires Inv(s) && Inv(t) && SameFrames(s.ptes, t.ptes) && s.refs.Keys == t.refs.Keys
    ensures forall f :: f in s.refs && f !in s.tabs && f !in t.tabs ==> s.refs[f] == t.refs[f]
  {
    hide Inv, Mappings;
    forall f | f in s.refs && f !in s.tabs && f !in t.tabs ensures s.refs[f] == t.refs[f] {
      CountAt(s, f);
      CountAt(t, f);
      MappingsSame(s.ptes, t.ptes, f);
    }
  }

  lemma CountAt(s: State, f: nat)
    requires Inv(s) && f in s.refs && f !in s.tabs
    ensures s.refs[f] == |Mappings(s.ptes, f)|
  {
  }

  lemma SameFramesSameData(s: State, t: State)
    requires Inv(s) && Inv(t) && SameFrames(s.ptes, t.ptes) && t.mem == s.mem
    ensures Frames(s) && Leaves(s) && Frames(t) && Leaves(t) && Data(t) == Data(s)
    ensures s.refs.Keys == t.refs.Keys
  {
    hide Inv;
    FramesAndLeaves(s);
    FramesAndLeaves(t);
    SameFramesSameContents(s, t);
  }

  lemma SameFramesSameContents(s: State, t: State)
    requires Frames(s) && Leaves(s) && Frames(t) && Leaves(t) && SameFrames(s.ptes, t.ptes) && t.mem == s.mem
    ensures Data(t) == Data(s)
  {
    assert Data(s).Keys == s.ptes.Keys && Data(t).Keys == t.ptes.Keys;
  }

  /** Dropping q after sharing leaves p's names, and everybody's data, as they were. */
  lemma UndoShare(s: State, t: State, p: nat, q: nat, done: set<nat>)
    requires Inv(s) && p != q && (forall l :: l in s.ptes ==> l.pid != q)
    requires Shared(s, t, p, q, done)
    ensures SameFrames(s.ptes, Without(t.ptes, q)) && ReadOnlyCopies(s.ptes, t.ptes, p, q)
  {
  }

  /** A page that somebody maps may be mapped read-only there and then elsewhere. */
  lemma ReadOnlyMayMap(s: State, l: Place, k: Place)
    requires Inv(s) && l in s.ptes && l != k && k.pid in s.spaces && InArea(s.spaces[k.pid].areas, k.vpn)
    requires k.vpn / PTES in s.spaces[k.pid].tables && k !in s.ptes
    ensures var leaf := s.ptes[l].(w := false);
            var t := s.(ptes := s.ptes[l := leaf]);
            && MayInsert(s, l, leaf) && Refers(s, l) && InsertPte(s, l, leaf) == t && Inv(t)
            && MayInsert(t, k, leaf) && Refers(t, k)
            && InsertPte(t, k, leaf)
               == t.(refs := t.refs[leaf.frame := t.refs[leaf.frame] + 1], ptes := t.ptes[k := leaf])
  {
    hide Inv, MayInsert, InArea;
    var leaf := s.ptes[l].(w := false);
    ReadOnlyAgain(s, l);
    InsertKeepsInv(s, l, leaf);
    InsertSame(s, l, leaf);
    ReadOnlyElsewhere(s.(ptes := s.ptes[l := leaf]), l, k);
  }

  lemma ReadOnlyAgain(s: State, l: Place)
    requires Inv(s) && l in s.ptes
    ensures MayInsert(s, l, s.ptes[l].(w := false)) && s.ptes[l].frame in s.refs && Refers(s, l)
  {
    LeafRefers(s, l);
    forall i | i in s.ptes && i != l && s.ptes[i].frame == s.ptes[l].frame ensures !s.ptes[i].w {
      if s.ptes[i].w { SoleMapping(s, i, l); }
    }
  }

  lemma InsertSame(s: State, l: Place, leaf: Leaf)
    requires leaf.frame in s.refs && Refers(s, l) && l in s.ptes && s.ptes[l].frame == leaf.frame
    ensures InsertPte(s, l, leaf) == s.(ptes := s.ptes[l := leaf])
  {
  }

  lemma ReadOnlyElsewhere(s: State, l: Place, k: Place)
    requires Inv(s) && l in s.ptes && !s.ptes[l].w && k !in s.ptes
    requires k.pid in s.spaces && InArea(s.spaces[k.pid].areas, k.vpn) && k.vpn / PTES in s.spaces[k.pid].tables
    ensures MayInsert(s, k, s.ptes[l]) && s.ptes[l].frame in s.refs
  {
    forall i | i in s.ptes && s.ptes[i].frame == s.ptes[l].frame ensures !s.ptes[i].w {
      if s.ptes[i].w { SoleMapping(s, i, l); }
    }
  }

  lemma AreasOk(s: State, p: nat)
    requires Inv(s) && p in s.spaces
    ensures Aligned(s.spaces[p].areas) && Sorted(s.spaces[p].areas)
    ensures forall l :: l in s.ptes && l.pid == p ==> InArea(s.spaces[p].areas, l.vpn)
  {
  }

  /** Pages a up to b of p that are mapped. */
  ghost function MappedPages(m: map<Place, Leaf>, p: nat, a: nat, b: nat): (vs: set<nat>)
    ensures forall v: nat :: v in vs <==> Place(p, v) in m && a <= v < b
  {
    set v | v in Pages(m.Keys, p) && a <= v < b
  }

  /** copy_range stands still on an invalid entry of an existing table; without one it ends. */
  predicate IsHole(sp: Space, m: map<Place, Leaf>, p: nat, v: nat) {
    v / PTES in sp.tables && Place(p, v) !in m
  }

  predicate NoHoles(sp: Space, m: map<Place, Leaf>, p: nat, a: nat, b: nat) {
    forall v :: a <= v < b ==> !IsHole(sp, m, p, v)
  }

  predicate AreaFull(s: State, p: nat, a: Area)
    requires p in s.spaces
  {
    NoHoles(s.spaces[p], s.ptes, p, a.start / PGSIZE, a.end / PGSIZE)
  }

  lemma SameAreaFull(s: State, t: State, p: nat, q: nat, done: set<nat>, a: Area)
    requires p != q && p in s.spaces && Shared(s, t, p, q, done)
    ensures p in t.spaces && (AreaFull(t, p, a) <==> AreaFull(s, p, a))
  {
    hide Shared, NoHoles;
    SameHoles(s, t, p, q, done, a.start / PGSIZE, a.end / PGSIZE);
  }

  /** The mapped pages of p in some areas. */
  ghost function PagesIn(m: map<Place, Leaf>, p: nat, areas: seq<Area>): (vs: set<nat>)
    ensures forall v: nat :: v in vs <==> Place(p, v) in m && InArea(areas, v)
  {
    set v | v in Pages(m.Keys, p) && InArea(areas, v)
  }

  lemma NoPagesIn(m: map<Place, Leaf>, p: nat, areas: seq<Area>)
    ensures PagesIn(m, p, areas[|areas|..]) == {}
  {
  }

  lemma MorePagesIn(m: map<Place, Leaf>, p: nat, areas: seq<Area>, i: nat, more: set<nat>)
    requires i < |areas| && forall u: nat :: u in more <==> Place(p, u) in m && Covers(areas[i], u)
    ensures PagesIn(m, p, areas[i..]) == PagesIn(m, p, areas[i + 1..]) + more
  {
    assert areas[i..] == [areas[i]] + areas[i + 1..];
    assert forall u: nat :: InArea(areas[i..], u) <==> InArea(areas[i + 1..], u) || Covers(areas[i], u);
  }

  lemma AllPagesIn(s: State, p: nat)
    requires Inv(s) && p in s.spaces
    ensures PagesIn(s.ptes, p, s.spaces[p].areas) == Pages(s.ptes.Keys, p)
  {
    AreasOk(s, p);
  }

  lemma ForkableMeans(s: State, p: nat)
    requires p in s.spaces
    ensures Forkable(s, p) <==> forall k :: 0 <= k < |s.spaces[p].areas| ==> AreaFull(s, p, s.spaces[p].areas[k])
  {
    hide AreaFull;
  }

  /** The pages of the next area have not been shared yet. */
  lemma NotYetShared(s: State, t: State, p: nat, q: nat, areas: seq<Area>, i: nat)
    requires p != q && i < |areas| && (forall l :: l in s.ptes ==> l.pid != q)
    requires Shared(s, t, p, q, PagesIn(s.ptes, p, areas[i + 1..]))
    requires forall v :: Covers(areas[i], v) ==> !InArea(areas[i + 1..], v)
    ensures forall v :: Covers(areas[i], v) ==> Place(q, v) !in t.ptes
  {
    hide Shared, InArea, Covers;
    SharedFacts(s, t, p, q, PagesIn(s.ptes, p, areas[i + 1..]));
  }

  /** The first page that dup_mmap comes to, at the start of the last area, is a hole. */
  predicate StartsAtHole(s: State, p: nat) {
    && p in s.spaces && |s.spaces[p].areas| > 0
    && IsHole(s.spaces[p], s.ptes, p, s.spaces[p].areas[|s.spaces[p].areas| - 1].start / PGSIZE)
  }

  lemma StartsAtHoleFacts(s: State, p: nat)
    requires Inv(s) && StartsAtHole(s, p)
    ensures p in s.spaces && |s.spaces[p].areas| > 0
    ensures var last := s.spaces[p].areas[|s.spaces[p].areas| - 1];
            !AreaFull(s, p, last) && IsHole(s.spaces[p], s.ptes, p, last.start / PGSIZE)
  {
    NextArea(s.spaces[p].areas, |s.spaces[p].areas| - 1);
  }

  /** The processes whose fork does not spin. */
  predicate Forkable(s: State, p: nat) {
    p in s.spaces && forall a :: a in s.spaces[p].areas ==> AreaFull(s, p, a)
  }

  lemma MappedExactly(m: map<Place, Leaf>, p: nat, a: nat, b: nat, done: set<nat>)
    requires forall u :: u in done <==> a <= u < b && Place(p, u) in m
    ensures done == MappedPages(m, p, a, b)
  {
  }

  lemma EntryHasTable(s: State, p: nat, v: nat)
    requires Inv(s)
    ensures Place(p, v) in s.ptes ==> p in s.spaces && v / PTES in s.spaces[p].tables
  {
  }

  lemma SpentSpaces(s: State, t: State, p: nat)
    requires Spent(s, t, p) && p in s.spaces
    ensures t.spaces.Keys == s.spaces.Keys && t.spaces[p].areas == s.spaces[p].areas
  {
  }

  lemma SkippedBlock(s: State, p: nat, v: nat)
    requires Inv(s) && p in s.spaces && v / PTES !in s.spaces[p].tables
    ensures forall u :: v <= u < NextBlock(v) ==> u / PTES !in s.spaces[p].tables && Place(p, u) !in s.ptes
    ensures NextBlock(v) > v
  {
    forall u | v <= u < NextBlock(v) ensures u / PTES !in s.spaces[p].tables && Place(p, u) !in s.ptes {
      WithinBlock(v, u);
    }
  }

  /** Sharing pages of p with q changes nothing about the holes of p. */
  lemma SameHoles(s: State, t: State, p: nat, q: nat, done: set<nat>, a: nat, b: nat)
    requires p != q && p in s.spaces && Shared(s, t, p, q, done)
    ensures p in t.spaces && (NoHoles(t.spaces[p], t.ptes, p, a, b) <==> NoHoles(s.spaces[p], s.ptes, p, a, b))
  {
    hide Shared;
    SharedFacts(s, t, p, q, done);
    assert forall v :: IsHole(t.spaces[p], t.ptes, p, v) <==> IsHole(s.spaces[p], s.ptes, p, v);
  }

  ghost predicate SameAreas(a: map<nat, Space>, b: map<nat, Space>) {
    a.Keys == b.Keys && forall p :: p in a ==> b[p].areas == a[p].areas
  }

  lemma ForkableSpace(s: State, p: nat, q: nat, spaces: map<nat, Space>)
    requires Forkable(s, p)
    requires SameAreas(s.spaces[q := s.spaces[p]], spaces)
    ensures p in s.spaces && q in spaces
  {
  }

  lemma SameAreasWithout(a: map<nat, Space>, p: nat, q: nat, b: map<nat, Space>)
    requires p in a && q !in a && SameAreas(a[q := a[p]], b)
    ensures SameAreas(a, b - {q})
  {
  }

  lemma FramesAndLeaves(s: State)
    requires Inv(s)
    ensures Frames(s) && Leaves(s)
    ensures forall l :: l in s.ptes ==> l.pid in s.spaces
  {
  }

  lemma SharedSpaces(s: State, t: State, p: nat, q: nat, done: set<nat>)
    requires Shared(s, t, p, q, done)
    ensures t.mem == s.mem && t.tabs >= s.tabs && t.spaces.Keys == s.spaces.Keys
    ensures forall k :: k in s.spaces && k != q ==> t.spaces[k] == s.spaces[k]
  {
  }

  lemma DropSpaceKeepsInv(s: State, p: nat)
    requires Inv(s) && forall l :: l in s.ptes ==> l.pid != p
    ensures Inv(s.(spaces := s.spaces - {p}))
  {
  }

  lemma NewSpaceKeepsInv(s: State, q: nat)
    requires Inv(s) && q !in s.spaces
    ensures Inv(s.(spaces := s.spaces[q := Space([], {}, {})]))
    ensures forall l :: l in s.ptes ==> l.pid != q
    ensures forall p :: p in s.spaces ==>
              (Forkable(s, p) <==> Forkable(s.(spaces := s.spaces[q := Space([], {}, {})]), p))
  {
  }

  lemma NewSpaceStartsAtHole(s: State, p: nat, q: nat)
    requires p in s.spaces && q !in s.spaces
    ensures StartsAtHole(s, p) <==> StartsAtHole(s.(spaces := s.spaces[q := Space([], {}, {})]), p)
  {
  }

  lemma SameContents(s: State, t: State)
    requires Frames(s) && Leaves(s) && Frames(t) && Leaves(t) && t.mem == s.mem && t.ptes == s.ptes
    ensures Data(t) == Data(s)
  {
  }

  lemma ForkSucceeded(s0: State, s: State, t: State, p: nat, q: nat)
    requires Inv(s0) && Inv(t) && p in s0.spaces && q !in s0.spaces
    requires s == s0.(spaces := s0.spaces[q := Space([], {}, {})])
    requires Shared(s, t, p, q, Pages(s.ptes.Keys, p)) && q in t.spaces && t.spaces[q].areas == s.spaces[p].areas
    ensures t.mem == s0.mem && Data(t) == ForkData(Data(s0), p, q)
    ensures SameAreas(s0.spaces[q := s0.spaces[p]], t.spaces) && SameFrames(s0.ptes, Without(t.ptes, q))
    ensures ReadOnlyCopies(s0.ptes, t.ptes, p, q)
  {
    hide Inv, Shared, SharedPtes, Forkable, Frames, Leaves, Data, ForkData, SameFrames, ReadOnlyCopies;
    NewSpaceKeepsInv(s0, q);
    FramesAndLeaves(s0);
    FramesAndLeaves(s);
    FramesAndLeaves(t);
    SameContents(s0, s);
    SharedSpaces(s, t, p, q, Pages(s.ptes.Keys, p));
    DataAfterFork(s, t, p, q);
    UndoShare(s, t, p, q, Pages(s.ptes.Keys, p));
  }

  /** Every page that q names while it is being forked is also named by its parent, so taking q
      apart frees none. */
  lemma UnwindFreesNothing(s: State, t: State, u: State, p: nat, q: nat, done: set<nat>)
    requires Inv(s) && Inv(t) && Inv(u) && p != q && (forall l :: l in s.ptes ==> l.pid != q)
    requires Shared(s, t, p, q, done) && u.ptes == Without(t.ptes, q) && u.tabs == t.tabs
    requires t.refs.Keys == u.refs.Keys && ReleasedExactly(t, u)
    ensures u.free == t.free
  {
    hide Inv, Shared, Mappings;
    forall f | f in t.refs && t.refs[f] > 0 && f !in t.tabs ensures u.refs[f] > 0 {
      NamedStays(s, t, u, p, q, done, f);
    }
    FramesAndLeaves(t);
    FramesAndLeaves(u);
  }

  lemma NamedStays(s: State, t: State, u: State, p: nat, q: nat, done: set<nat>, f: nat)
    requires Inv(s) && Inv(t) && Inv(u) && p != q && (forall l :: l in s.ptes ==> l.pid != q)
    requires Shared(s, t, p, q, done) && u.ptes == Without(t.ptes, q) && u.tabs == t.tabs
    requires f in t.refs && f in u.refs && f !in t.tabs && t.refs[f] > 0
    ensures u.refs[f] > 0
  {
    hide Inv, Shared, Without;
    CountAt(t, f);
    CountAt(u, f);
    var l :| l in Mappings(t.ptes, f);
    ParentNames(s, t, p, q, done, l);
    var k := if l.pid == q then Place(p, l.vpn) else l;
    WithoutKeeps(t.ptes, q, k);
    assert k in Mappings(u.ptes, f);
  }

  lemma WithoutKeeps(m: map<Place, Leaf>, q: nat, k: Place)
    requires k in m && k.pid != q
    ensures k in Without(m, q) && Without(m, q)[k] == m[k]
  {
  }

  lemma ParentNames(s: State, t: State, p: nat, q: nat, done: set<nat>, l: Place)
    requires Shared(s, t, p, q, done) && (forall k :: k in s.ptes ==> k.pid != q) && l in t.ptes
    ensures l.pid == q ==> Place(p, l.vpn) in t.ptes && t.ptes[Place(p, l.vpn)].frame == t.ptes[l].frame
  {
  }

  lemma NothingForked(s: State)
    requires Inv(s)
    ensures Frames(s) && Leaves(s) && SameAreas(s.spaces, s.spaces) && SameFrames(s.ptes, s.ptes)
  {
  }

  lemma ForkUndone(s0: State, s: State, t: State, u: State, p: nat, q: nat, done: set<nat>)
    requires Inv(s0) && Inv(s) && Inv(u) && p in s0.spaces && q !in s0.spaces
    requires s == s0.(spaces := s0.spaces[q := Space([], {}, {})])
    requires Shared(s, t, p, q, done)
    requires u.mem == t.mem && u.tabs == t.tabs && u.refs.Keys == t.refs.Keys && u.spaces == t.spaces - {q}
    requires u.ptes == Without(t.ptes, q)
    ensures u.mem == s0.mem && Data(u) == Data(s0) && SameAreas(s0.spaces, u.spaces) && SameFrames(s0.ptes, u.ptes)
    ensures u.tabs >= s0.tabs && u.refs.Keys == s0.refs.Keys
    ensures forall f :: f in u.refs && f !in u.tabs ==> u.refs[f] == s0.refs[f]
  {
    hide Inv, Shared, SharedPtes, Forkable, Without, SameFrames, ReadOnlyCopies, Data, Frames, Leaves;
    SharedSpaces(s, t, p, q, done);
    NewSpaceKeepsInv(s0, q);
    UndoShare(s, t, p, q, done);
    SameFramesSameData(s0, u);
    CountsRestored(s0, u);
  }

  // ---- faults and stores ----

  lemma ContentsKeepInv(s: State, f: nat, c: Bytes)
    requires Inv(s) && f in s.mem && |c| == PGSIZE
    ensures Inv(s.(mem := s.mem[f := c]))
  {
    assert s.mem[f := c].Keys == s.mem.Keys;
  }

  /** Changing the contents of a page that one leaf names changes the data at that place only. */
  lemma WriteIsPrivate(s: State, l: Place, c: Bytes)
    requires Inv(s) && l in s.ptes && s.refs[s.ptes[l].frame] == 1 && |c| == PGSIZE
    ensures var t := s.(mem := s.mem[s.ptes[l].frame := c]); Inv(t) && Data(t) == Data(s)[l := c]
  {
    hide Counted, Exclusive, Spaces;
    ContentsKeepInv(s, s.ptes[l].frame, c);
    forall k | k in s.ptes && s.ptes[k].frame == s.ptes[l].frame ensures k == l { SoleMapping(s, k, l); }
  }

  /** A page that was in no leaf before has count 1 after its insertion. */
  lemma FreshCount(s: State, l: Place, leaf: Leaf)
    requires Inv(s) && MayInsert(s, l, leaf) && (forall k :: k in s.ptes ==> s.ptes[k].frame != leaf.frame)
    ensures Refers(s, l) && InsertPte(s, l, leaf).refs[leaf.frame] == 1
  {
    LeafRefers(s, l);
    assert Mappings(s.ptes, leaf.frame) == {};
  }

  /** Giving write permission to the only name of a page: rewriting its entry in place. */
  lemma MakeWritable(s: State, l: Place, r: bool, x: bool)
    requires Inv(s) && l in s.ptes && s.refs[s.ptes[l].frame] == 1
    ensures var leaf := Leaf(s.ptes[l].frame, r, true, x);
            var t := s.(ptes := s.ptes[l := leaf]);
            && Frames(s) && Leaves(s) && Frames(t) && Leaves(t)
            && MayInsert(s, l, leaf) && Refers(s, l)
            && InsertPte(s, l, leaf) == t && Inv(t) && Data(t) == Data(s)
  {
    forall k | k in s.ptes && s.ptes[k].frame == s.ptes[l].frame ensures k == l { SoleMapping(s, k, l); }
    DataAfterInsert(s, l, Leaf(s.ptes[l].frame, r, true, x));
  }

  /** The middle of the copying branch of do_pgfault: the new page f has replaced the shared
      one at l, and then gets the contents of the old one. */
  lemma CopyIntoFresh(s: State, mid: State, l: Place, f: nat, r: bool)
    requires Inv(s) && l in s.ptes && Spent(s, mid, l.pid) && Inv(mid) && f in s.free
    requires MayInsert(mid, l, Leaf(f, r, r, false)) && Refers(mid, l)
    ensures var t := InsertPte(mid, l, Leaf(f, r, r, false));
            var page := s.ptes[l].frame;
            && page in t.mem && t.mem == s.mem
            && var u := t.(mem := t.mem[f := t.mem[page]]);
            && Inv(u) && Frames(s) && Leaves(s) && Frames(u) && Leaves(u)
            && Data(u) == Data(s) && u.ptes == s.ptes[l := Leaf(f, r, r, false)] && f in u.refs && u.refs[f] == 1
            && u.spaces == mid.spaces
  {
    hide *;
    var leaf, page := Leaf(f, r, r, false), s.ptes[l].frame;
    SpentKeepsData(s, mid, l.pid);
    DataAt(s, l);
    InsertedData(mid, l, leaf);
    FreshFrame(s, mid, f);
    FreshCount(mid, l, leaf);
    var t := InsertPte(mid, l, leaf);
    WriteIsPrivate(t, l, t.mem[page]);
    assert Data(s)[l := s.mem[f]][l := s.mem[page]] == Data(s);
    var u := t.(mem := t.mem[f := t.mem[page]]);
    FramesAndLeaves(u);
  }

  lemma DataAt(s: State, l: Place)
    requires Inv(s) && l in s.ptes
    ensures Frames(s) && Leaves(s) && Data(s).Keys == s.ptes.Keys
    ensures var f := s.ptes[l].frame;
            f in s.mem && f in s.refs && f !in s.free && |s.mem[f]| == PGSIZE && Data(s)[l] == s.mem[f]
  {
  }

  lemma SpentKeepsData(s: State, t: State, p: nat)
    requires Inv(s) && Inv(t) && Spent(s, t, p)
    ensures Frames(s) && Leaves(s) && Frames(t) && Leaves(t) && Data(t) == Data(s)
    ensures SameAreas(s.spaces, t.spaces) && t.ptes == s.ptes && t.mem == s.mem
  {
  }

  lemma TablesKeepData(s: State, t: State, p: nat)
    requires Inv(s) && Inv(t) && TablesGrew(s, t, p)
    ensures Frames(s) && Leaves(s) && Frames(t) && Leaves(t) && Data(t) == Data(s)
    ensures SameAreas(s.spaces, t.spaces) && t.ptes == s.ptes && t.mem == s.mem
    ensures forall l :: l in s.ptes ==> t.refs[t.ptes[l].frame] == s.refs[s.ptes[l].frame]
  {
  }

  lemma TablesTakeFree(s: State, t: State, p: nat)
    requires TablesGrew(s, t, p)
    ensures t.free <= s.free
  {
  }

  lemma InsertedData(s: State, l: Place, leaf: Leaf)
    requires Inv(s) && MayInsert(s, l, leaf)
    ensures Refers(s, l) && Inv(InsertPte(s, l, leaf))
    ensures var t := InsertPte(s, l, leaf);
            && Frames(s) && Leaves(s) && Frames(t) && Leaves(t)
            && leaf.frame in s.mem && Data(t) == Data(s)[l := s.mem[leaf.frame]]
            && t.ptes == s.ptes[l := leaf] && t.mem == s.mem && t.spaces == s.spaces
  {
    DataAfterInsert(s, l, leaf);
    AboutInsert(s, l, leaf);
  }

  lemma FreshFrame(s: State, t: State, f: nat)
    requires Inv(s) && f in s.free && t.ptes == s.ptes
    ensures forall k :: k in t.ptes ==> t.ptes[k].frame != f
  {
  }

  lemma SpentNothing(s: State, p: nat)
    ensures Spent(s, s, p)
  {
  }

  /** A page just taken from the free set may be mapped in any area. */
  lemma TakenMayBeMapped(s: State, l: Place, leaf: Leaf)
    requires Inv(s) && leaf.frame in s.free && l.pid in s.spaces && InArea(s.spaces[l.pid].areas, l.vpn)
    ensures MayMap(s.(free := s.free - {leaf.frame}), l, leaf)
  {
  }

  /** Taking a page and building tables only spends free pages, also after giving the page back. */
  lemma TakenIsSpent(s: State, t: State, u: State, p: nat, f: nat)
    requires Inv(s) && Inv(u) && f in s.free && t == s.(free := s.free - {f}) && TablesGrew(t, u, p)
    ensures Spent(s, u, p)
    ensures var v := u.(free := u.free + {f}); Inv(v) && Spent(s, v, p)
  {
    hide Counted, Exclusive, Spaces;
    FreshFrame(s, u, f);
    GivenBack(u, f);
  }

  lemma GivenBack(s: State, f: nat)
    requires Inv(s) && f in s.refs && f !in s.tabs && forall l :: l in s.ptes ==> s.ptes[l].frame != f
    ensures Inv(s.(free := s.free + {f}))
  {
  }

  lemma TableIsThere(s: State, l: Place, leaf: Leaf)
    requires MayMap(s, l, leaf)
    ensures l.pid in s.spaces && l.vpn / PTES in s.spaces[l.pid].tables ==> MayInsert(s, l, leaf)
  {
  }

  lemma PageSize(s: State, f: nat)
    requires Inv(s) && f in s.mem
    ensures |s.mem[f]| == PGSIZE
  {
  }

  lemma SameAreasAt(s: State, t: State, p: nat)
    requires SameAreas(s.spaces, t.spaces) && p in s.spaces
    ensures p in t.spaces && t.spaces[p].areas == s.spaces[p].areas
  {
  }

  lemma MayInsertIsMayMap(s: State, l: Place, leaf: Leaf)
    requires MayInsert(s, l, leaf)
    ensures MayMap(s, l, leaf) && l.pid in s.spaces && l.vpn / PTES in s.spaces[l.pid].tables
  {
  }

  function PageOf(p: nat, addr: nat): Place {
    Place(p, addr / PGSIZE)
  }

  /** Whether an existing page can be read after a fault: as before, unless it was a write
      fault on a shared page, which gets its permissions from the area. */
  ghost predicate ReadableAfterFault(s: State, l: Place, write: bool, writable: bool)
    requires Inv(s) && l in s.ptes
  {
    DataAt(s, l);
    if write && !s.ptes[l].w && s.refs[s.ptes[l].frame] != 1 then writable else s.ptes[l].r
  }

  /** What a fault makes of an existing entry: nothing, unless it was a write fault on an entry
      without write permission; then the only name of a page becomes writable, and any other
      gets a page of its own with the area's permissions. */
  ghost predicate EntryAfterFault(s: State, l: Place, write: bool, writable: bool, leaf: Leaf)
    requires Inv(s) && l in s.ptes
  {
    DataAt(s, l);
    var before := s.ptes[l];
    if !write || before.w then leaf == before
    else if s.refs[before.frame] == 1 then leaf == before.(w := true)
    else leaf == Leaf(leaf.frame, writable, true, false) && leaf.frame in s.free
  }

  lemma EntryFacts(s: State, l: Place, write: bool, writable: bool, leaf: Leaf)
    requires Inv(s) && l in s.ptes && EntryAfterFault(s, l, write, writable, leaf)
    ensures write ==> leaf.w
    ensures leaf.r == ReadableAfterFault(s, l, write, writable)
  {
  }

  /** What a fault makes of a page that is there. */
  ghost predicate Touched(s: State, l: Place, write: bool, writable: bool, leaf: Leaf)
    requires Inv(s) && l in s.ptes
  {
    && EntryAfterFault(s, l, write, writable, leaf) && (write ==> leaf.w)
    && leaf.r == ReadableAfterFault(s, l, write, writable)
  }

  /** What a fault makes of a missing page: one that was free appears as it is, to be read and
      written if the area may be written, and never executable. */
  ghost predicate AppearsFrom(s: State, t: State, l: Place, writable: bool, leaf: Leaf)
    requires Inv(s) && Inv(t)
  {
    FramesAndLeaves(s);
    FramesAndLeaves(t);
    && leaf.frame in s.free && leaf.frame in t.mem && t.mem == s.mem && |t.mem[leaf.frame]| == PGSIZE
    && Data(t) == Data(s)[l := t.mem[leaf.frame]] && leaf == Leaf(leaf.frame, writable, writable, false)
  }

  /** Building a table on the way changes nothing about that. */
  lemma EntryAfterTables(s: State, t: State, p: nat, l: Place, write: bool, writable: bool, leaf: Leaf)
    requires Inv(s) && Inv(t) && TablesGrew(s, t, p) && l in s.ptes && EntryAfterFault(t, l, write, writable, leaf)
    ensures EntryAfterFault(s, l, write, writable, leaf)
  {
    TablesKeepData(s, t, p);
  }

  lemma UpdateTwice(m: map<Place, Leaf>, l: Place, a: Leaf, b: Leaf)
    ensures m[l := a][l := b] == m[l := b]
  {
  }

  lemma SameAreasReflexive(a: map<nat, Space>)
    ensures SameAreas(a, a)
  {
  }

  lemma SameAreasTwice(s: State, t: State, u: State)
    requires SameAreas(s.spaces, t.spaces) && SameAreas(t.spaces, u.spaces)
    ensures SameAreas(s.spaces, u.spaces)
  {
  }

  lemma AreaOfAddress(s: State, p: nat, addr: nat)
    requires Inv(s) && p in s.spaces && Scan(s.spaces[p].areas, addr).Some?
    ensures InArea(s.spaces[p].areas, addr / PGSIZE)
  {
    assert Covers(Scan(s.spaces[p].areas, addr).value, addr / PGSIZE);
  }

  class Kernel {
    var refs: map<nat, nat>
    var mem: map<nat, Bytes>
    var free: set<nat>
    var tabs: set<nat>
    var spaces: map<nat, Space>
    var ptes: map<Place, Leaf>

    function View(): State
      reads this
    {
      State(refs, mem, free, tabs, spaces, ptes)
    }

    /** At boot every page is free. */
    constructor (memory: map<nat, Bytes>)
      requires forall f :: f in memory ==> |memory[f]| == PGSIZE
      ensures Inv(View()) && ptes == map[] && spaces == map[] && tabs == {}
    {
      refs, mem, free, tabs := map f | f in memory :: 0, memory, memory.Keys, {};
      spaces, ptes := map[], map[];
      new;
      assert forall f :: Mappings(ptes, f) == {};
    }

    method AllocPage() returns (f: Option<nat>)
      requires Inv(View())
      modifies this
      ensures f.None? <==> old(free) == {}
      ensures f.None? ==> View() == old(View())
      ensures f.Some? ==> f.value in old(free) && View() == old(View()).(free := old(free) - {f.value})
      ensures Inv(View()) && |free| + 1 >= |old(free)|
    {
      if free == {} { return None; }
      var x :| x in free;
      free := free - {x};
      f := Some(x);
    }

    /** A page for a page table: alloc_page and set_page_ref(page, 1). */
    method AllocTable(ghost p: nat) returns (page: Option<nat>)
      requires Inv(View())
      modifies this
      ensures TablesGrew(old(View()), View(), p) && spaces == old(spaces)
      ensures page.None? ==> View() == old(View()) && free == {}
      ensures page.Some? ==> page.value in old(free) && free == old(free) - {page.value}
      ensures |free| + 1 >= |old(free)|
    {
      hide Inv, TablesGrew;
      FreePages(View());
      TablesGrewNot(View(), p);
      page := AllocPage();
      if page.None? { return; }
      refs := refs[page.value := 1];
      tabs := tabs + {page.value};
      TableTaken(old(View()), page.value, p);
    }

    /** A second-level table for p. */
    method AddDir(p: nat, dir: nat) returns (page: Option<nat>)
      requires Inv(View()) && p in spaces
      modifies this
      ensures TablesGrew(old(View()), View(), p) && Inv(View())
      ensures page.None? ==> View() == old(View()) && free == {}
      ensures page.Some? ==> page.value in old(free) && free == old(free) - {page.value}
      ensures |free| + 1 >= |old(free)|
      ensures p in spaces && spaces[p].tables == old(spaces[p].tables)
      ensures spaces[p].dirs == old(spaces[p].dirs) + if page.Some? then {dir} else {}
    {
      hide Inv;
      ghost var s := View();
      page := AllocTable(p);
      if page.Some? {
        spaces := spaces[p := spaces[p].(dirs := spaces[p].dirs + {dir})];
      }
      TablesKeepInv(s, View(), p);
    }

    /** A third-level table for p. */
    method AddTable(p: nat, block: nat) returns (page: Option<nat>)
      requires Inv(View()) && p in spaces
      modifies this
      ensures TablesGrew(old(View()), View(), p) && Inv(View())
      ensures page.None? ==> View() == old(View()) && free == {}
      ensures page.Some? ==> page.value in old(free) && free == old(free) - {page.value}
      ensures |free| + 1 >= |old(free)|
      ensures p in spaces && spaces[p].tables == old(spaces[p].tables) + if page.Some? then {block} else {}
      ensures spaces[p].dirs == old(spaces[p].dirs)
    {
      hide Inv;
      ghost var s := View();
      page := AllocTable(p);
      if page.Some? {
        spaces := spaces[p := spaces[p].(tables := spaces[p].tables + {block})];
      }
      TablesKeepInv(s, View(), p);
    }

    /** get_pte on the flat view: with create, the missing tables are allocated; pages are those
        that it took for them, level by level. */
    method GetPte(p: nat, v: nat, create: bool) returns (ok: bool, pages: (Option<nat>, Option<nat>))
      requires Inv(View()) && p in spaces
      modifies this
      ensures TablesGrew(old(View()), View(), p) && Inv(View())
      ensures ok <==> v / PTES in spaces[p].tables
      ensures !create || old(v / PTES in spaces[p].tables) ==> View() == old(View()) && pages == (None, None)
      ensures create && !ok ==> free == {}
      ensures |free| + 2 >= |old(free)|
      ensures p in spaces && spaces[p].tables == old(spaces[p].tables) + if ok then {v / PTES} else {}
      ensures TookPages(old(View()), View(), p, v, pages)
    {
      hide Inv, TablesGrew, TookPages;
      ghost var s := View();
      TablesGrewNot(s, p);
      TookNothing(s, p, v);
      var block := v / PTES;
      pages := (None, None);
      if block in spaces[p].tables { return true, pages; }
      if !create { return false, pages; }
      if block / PTES !in spaces[p].dirs {
        var dir := AddDir(p, block / PTES);
        pages := (dir, None);
        TookDir(s, View(), p, v, dir);
        if dir.None? { return false, pages; }
      }
      ghost var t := View();
      var table := AddTable(p, block);
      TookTable(s, t, View(), p, v, pages.0, table);
      pages := (pages.0, table);
      ok := table.Some?;
      TablesGrewTwice(s, t, View(), p);
    }

    method PageRemovePte(l: Place)
      requires Refers(View(), l)
      modifies this
      ensures View() == RemovePte(old(View()), l)
    {
      if l in ptes {
        var page := ptes[l].frame;
        refs := refs[page := refs[page] - 1];
        if refs[page] == 0 {
          free := free + {page};
        }
        ptes := ptes - {l};
      }
    }

    method PageInsert(l: Place, leaf: Leaf) returns (r: Result, ghost mid: State)
      requires Inv(View()) && MayMap(View(), l, leaf)
      modifies this
      ensures TablesGrew(old(View()), mid, l.pid) && Inv(mid) && Inv(View())
      ensures r == Done || (r == NoMem && View() == mid && free == {})
      ensures r == Done ==> leaf.frame in mid.refs && Refers(mid, l) && View() == InsertPte(mid, l, leaf)
      ensures r == Done ==> l.pid in mid.spaces && l.vpn / PTES in mid.spaces[l.pid].tables
      ensures old(l.vpn / PTES in spaces[l.pid].tables) ==> r == Done && mid == old(View())
    {
      var ok, _ := GetPte(l.pid, l.vpn, true);
      mid := View();
      if !ok { return NoMem, mid; }
      TablesKeepMayMap(old(View()), mid, l, leaf);
      InsertKeepsInv(mid, l, leaf);
      WriteEntry(l, leaf);
      r := Done;
    }

    /** The rest of page_insert, once the table exists. */
    method WriteEntry(l: Place, leaf: Leaf)
      requires leaf.frame in refs && Refers(View(), l)
      modifies this
      ensures View() == InsertPte(old(View()), l, leaf)
    {
      refs := refs[leaf.frame := refs[leaf.frame] + 1];
      if l in ptes {
        if ptes[l].frame == leaf.frame {
          refs := refs[leaf.frame := refs[leaf.frame] - 1];
          assert refs == old(refs);
        } else {
          PageRemovePte(l);
        }
      }
      ptes := ptes[l := leaf];
    }

    /** pgdir_alloc_page; mid is the state right before the entry is written. */
    method PgdirAllocPage(l: Place, r: bool, w: bool, x: bool) returns (page: Option<nat>, ghost mid: State)
      requires Inv(View()) && l.pid in spaces && InArea(spaces[l.pid].areas, l.vpn)
      modifies this
      ensures Spent(old(View()), mid, l.pid) && Inv(mid) && Inv(View())
      ensures page.None? ==> View() == mid && |free| <= 1
      ensures page.None? && old(l.vpn / PTES in spaces[l.pid].tables) ==> old(free) == {} == free
      ensures page.Some? ==>
        && MayInsert(mid, l, Leaf(page.value, r, w, x)) && Refers(mid, l)
        && View() == InsertPte(mid, l, Leaf(page.value, r, w, x))
        && page.value in old(free)
      ensures old(l.vpn / PTES in spaces[l.pid].tables) ==> NoTables(old(View()), View())
    {
      hide Inv, InsertPte, Refers, MayMap, MayInsert, InArea, TablesGrew, Spent;
      ghost var s0 := View();
      page := AllocPage();
      if page.None? {
        mid := View();
        SpentNothing(s0, l.pid);
        return;
      }
      TakenMayBeMapped(s0, l, Leaf(page.value, r, w, x));
      ghost var s := View();
      var ret;
      ret, mid := PageInsert(l, Leaf(page.value, r, w, x));
      TablesKeepInv(s, mid, l.pid);
      TakenIsSpent(s0, s, mid, l.pid, page.value);
      if ret == Done {
        TablesKeepMayMap(s, mid, l, Leaf(page.value, r, w, x));
        TableIsThere(mid, l, Leaf(page.value, r, w, x));
        InsertMakesNoTables(mid, l, Leaf(page.value, r, w, x));
      } else {
        free := free + {page.value};
        page := None;
        mid := View();
      }
    }

    /** unmap_range: skips the blocks without a table, unmaps every page of the range and
        touches nothing else; each page is released exactly when its last name goes. */
    method UnmapRange(p: nat, a: nat, b: nat)
      requires Inv(View()) && p in spaces && a < b
      modifies this
      ensures Inv(View())
      ensures mem == old(mem) && tabs == old(tabs) && spaces == old(spaces) && refs.Keys == old(refs.Keys)
      ensures ptes == Outside(old(ptes), p, a, b)
      ensures ReleasedExactly(old(View()), View())
    {
      hide Inv, ReleasedExactly, TablesGrew, TookPages;
      ReleasedNothing(View());
      assert ptes == Outside(ptes, p, a, a);
      var v := a;
      while v < b
        invariant a <= v && Inv(View())
        invariant mem == old(mem) && tabs == old(tabs) && spaces == old(spaces) && refs.Keys == old(refs.Keys)
        invariant ptes == Outside(old(ptes), p, a, v)
        invariant forall l :: l in old(ptes) && l.pid == p ==> !(b <= l.vpn < v)
        invariant ReleasedExactly(old(View()), View())
        decreases b - v
      {
        var found, _ := GetPte(p, v, false);
        if !found {
          forall l | l in ptes && l.pid == p ensures !(v <= l.vpn < NextBlock(v)) {
            if v <= l.vpn < NextBlock(v) { SkipIsSound(View(), p, v, l.vpn); }
          }
          OutsideSkip(old(ptes), p, a, v, NextBlock(v));
          v := NextBlock(v);
        } else {
          RemoveKeepsInv(View(), Place(p, v));
          ReleaseStep(old(View()), View(), Place(p, v));
          PageRemovePte(Place(p, v));
          OutsideStep(old(ptes), p, a, v);
          v := v + 1;
        }
      }
      OutsideSkip(old(ptes), p, a, b, v);
    }

    /** exit_mmap: unmapping area after area unmaps the whole process. */
    method ExitMmap(p: nat)
      requires Inv(View()) && p in spaces
      modifies this
      ensures Inv(View())
      ensures mem == old(mem) && tabs == old(tabs) && spaces == old(spaces) && refs.Keys == old(refs.Keys)
      ensures ptes == Without(old(ptes), p)
      ensures ReleasedExactly(old(View()), View())
    {
      hide Inv;
      var i := 0;
      var areas := spaces[p].areas;
      AreasOk(View(), p);
      while i < |areas|
        invariant 0 <= i <= |areas| && Inv(View())
        invariant mem == old(mem) && tabs == old(tabs) && spaces == old(spaces) && refs.Keys == old(refs.Keys)
        invariant forall l :: l in ptes <==> l in old(ptes) && !(l.pid == p && InArea(areas[..i], l.vpn))
        invariant forall l :: l in ptes ==> ptes[l] == old(ptes)[l]
        invariant ReleasedExactly(old(View()), View())
      {
        var a, b := areas[i].start / PGSIZE, areas[i].end / PGSIZE;
        assert areas[i] in areas;
        ghost var s := View();
        UnmapRange(p, a, b);
        ReleasedTwice(old(View()), s, View());
        forall l: Place
          ensures InArea(areas[..i + 1], l.vpn) <==> InArea(areas[..i], l.vpn) || Covers(areas[i], l.vpn)
        {
          InOneMore(areas, i, l.vpn);
        }
        i := i + 1;
      }
      assert areas[..i] == areas;
    }

    /** copy_range with share = 1, over pages a up to b.  It ends with all pages shared exactly if
        there is no hole; without memory it may end before, at a mapped page below the first
        hole; otherwise it spins at that hole, where CopyTurn changes nothing. */
    method CopyRange(q: nat, p: nat, a: nat, b: nat) returns (r: Result, ghost done: set<nat>, ghost stop: nat)
      requires Inv(View()) && p in spaces && q in spaces && p != q && a < b
      requires forall v :: a <= v < b ==> InArea(spaces[q].areas, v) && Place(q, v) !in ptes
      modifies this
      ensures Inv(View()) && r != BadAddress && Shared(old(View()), View(), p, q, done)
      ensures spaces.Keys == old(spaces.Keys) && spaces[q].areas == old(spaces[q].areas)
      ensures a <= stop <= b && NoHoles(old(spaces)[p], old(ptes), p, a, stop)
      ensures done == MappedPages(old(ptes), p, a, stop)
      ensures match r
              case Done => stop == b
              case Spins => stop < b && IsHole(old(spaces)[p], old(ptes), p, stop)
              case _ => stop < b && Place(p, stop) in old(ptes) && free == {}
      ensures r in {Done, Spins} ==> (r == Done <==> NoHoles(old(spaces)[p], old(ptes), p, a, b))
      ensures |old(free)| >= 3 * (b - a) ==> r in {Done, Spins}
    {
      hide Inv, Shared, SharedPtes, Spent, SharedOnce, MappedPages, InArea;
      ghost var s := View();
      done := {};
      r := Done;
      ShareNothing(s, p, q);
      var v := a;
      while v < b
        invariant a <= v && Inv(View()) && r == Done
        invariant NoHoles(s.spaces[p], s.ptes, p, a, v)
        invariant forall u :: u in done <==> a <= u < v && Place(p, u) in s.ptes
        invariant forall u :: b <= u < v ==> Place(p, u) !in s.ptes
        invariant Shared(s, View(), p, q, done)
        invariant spaces.Keys == s.spaces.Keys && spaces[q].areas == s.spaces[q].areas
        invariant |free| + 3 * (v - a) >= |s.free|
        decreases b - v
      {
        stop := v;
        ghost var t := View();
        SharedFacts(s, t, p, q, done);
        ghost var t1;
        var next;
        r, next, t1 := CopyTurn(q, p, v);
        if r != Done {
          ShareStall(s, t, t1, p, q, done);
          MappedExactly(s.ptes, p, a, v, done);
          return;
        }
        if next == v {
          MappedExactly(s.ptes, p, a, v, done);
          return Spins, done, v;
        }
        if next == v + 1 && Place(p, v) in s.ptes {
          ShareStall(s, t, t1, p, q, done);
          ShareStep(s, t1, View(), p, q, done, v);
          done := done + {v};
        } else {
          SkippedBlock(t, p, v);
        }
        v := next;
      }
      stop := b;
      MappedExactly(s.ptes, p, a, b, done);
    }

    /** One turn of the loop of copy_range at page v: past the block of an absent table, past a
        page that has been shared, or nowhere. */
    method CopyTurn(q: nat, p: nat, v: nat) returns (r: Result, next: nat, ghost t: State)
      requires Inv(View()) && p in spaces && q in spaces && p != q
      requires InArea(spaces[q].areas, v) && Place(q, v) !in ptes
      modifies this
      ensures Inv(View()) && r in {Done, NoMem, Panic}
      ensures old(v / PTES !in spaces[p].tables) ==> r == Done && next == NextBlock(v) && View() == old(View())
      ensures IsHole(old(spaces)[p], old(ptes), p, v) ==> r == Done && next == v && View() == old(View())
      ensures Place(p, v) in old(ptes) ==> Spent(old(View()), t, q)
      ensures Place(p, v) in old(ptes) && r == Done ==> next == v + 1 && SharedOnce(t, View(), p, q, v)
      ensures r != Done ==> Place(p, v) in old(ptes) && View() == t && free == {}
      ensures spaces.Keys == old(spaces.Keys) && spaces[q].areas == old(spaces[q].areas)
      ensures |free| + 3 >= |old(free)| && (|old(free)| >= 3 ==> r == Done)
    {
      hide Inv, Spent, InArea;
      EntryHasTable(View(), p, v);
      t := View();
      r := Done;
      var found, _ := GetPte(p, v, false);
      if !found {
        next := NextBlock(v);
      } else if Place(p, v) in ptes {
        ghost var t0 := View();
        r, t := SharePage(q, p, v);
        SpentSpaces(t0, t, q);
        next := v + 1;
      } else {
        next := v;
      }
    }

    /** A turn at a hole can be repeated any number of times. */
    method TurnsAtHole(q: nat, p: nat, v: nat, n: nat) returns (next: nat)
      requires Inv(View()) && p in spaces && q in spaces && p != q
      requires InArea(spaces[q].areas, v) && Place(q, v) !in ptes && IsHole(spaces[p], ptes, p, v)
      modifies this
      ensures View() == old(View()) && next == v
    {
      next := v;
      for i := 0 to n
        invariant View() == old(View()) && next == v
      {
        var r;
        ghost var t;
        r, next, t := CopyTurn(q, p, next);
      }
    }

    /** What a turn does at a mapped page: make room for the entry, allocate the page that
        sharing does not use, and insert the page read-only on both sides. */
    method SharePage(q: nat, p: nat, v: nat) returns (r: Result, ghost t: State)
      requires Inv(View()) && q in spaces && p != q && InArea(spaces[q].areas, v)
      requires Place(p, v) in ptes && Place(q, v) !in ptes
      modifies this
      ensures Inv(View()) && Spent(old(View()), t, q)
      ensures r in {Done, NoMem, Panic}
      ensures r != Done ==> View() == t && free == {}
      ensures r == Done ==> SharedOnce(t, View(), p, q, v)
      ensures |free| + 3 >= |old(free)| && (|old(free)| >= 3 ==> r == Done)
      ensures old(v / PTES in spaces[q].tables) ==> NoTables(old(View()), View())
    {
      hide Inv, InsertPte, MayMap;
      var ok, _ := GetPte(q, v, true);
      t := View();
      TablesKeepInv(old(View()), t, q);
      if !ok { return NoMem, t; }
      var spare := AllocPage();
      t := View();
      if spare.None? { return Panic, t; }
      var leaf := ptes[Place(p, v)].(w := false);
      ReadOnlyMayMap(t, Place(p, v), Place(q, v));
      var ret;
      ghost var mid;
      ret, mid := PageInsert(Place(p, v), leaf);
      ret, mid := PageInsert(Place(q, v), leaf);
      r := Done;
    }

    /** One turn of dup_mmap: the area goes to the front of q's list, then its pages are shared. */
    method DupArea(q: nat, p: nat, area: Area) returns (r: Result, ghost more: set<nat>)
      requires Inv(View()) && p in spaces && q in spaces && p != q
      requires Sorted([area] + spaces[q].areas) && Aligned([area] + spaces[q].areas)
      requires area.start / PGSIZE < area.end / PGSIZE
      requires forall v :: Covers(area, v) ==> Place(q, v) !in ptes
      modifies this
      ensures Inv(View()) && r != BadAddress
      ensures spaces.Keys == old(spaces.Keys) && spaces[q].areas == [area] + old(spaces[q].areas)
      ensures Shared(GiveAreas(old(View()), q, [area] + old(spaces[q].areas)), View(), p, q, more)
      ensures forall u :: u in more ==> Place(p, u) in old(ptes) && Covers(area, u)
      ensures r == Done ==> forall u: nat :: Covers(area, u) && Place(p, u) in old(ptes) ==> u in more
      ensures r in {Done, Spins} ==> (r == Done <==> AreaFull(old(View()), p, area))
      ensures IsHole(old(spaces)[p], old(ptes), p, area.start / PGSIZE) ==> r == Spins
      ensures r in {NoMem, Panic} ==> free == {}
    {
      hide Inv, Shared, Sorted, Aligned;
      ghost var t := View();
      var areas := [area] + spaces[q].areas;
      GiveAreasKeepsInv(t, q, areas);
      spaces := spaces[q := spaces[q].(areas := areas)];
      assert View() == GiveAreas(t, q, areas);
      assert area in areas;
      assert forall v :: Covers(area, v) ==> InArea(areas, v);
      ghost var stop;
      r, more, stop := CopyRange(q, p, area.start / PGSIZE, area.end / PGSIZE);
    }

    /** dup_mmap: backwards over the areas of p; room is how many area structures can be had. */
    method DupMmap(q: nat, p: nat, room: nat) returns (r: Result, ghost done: set<nat>)
      requires Inv(View()) && p in spaces && q in spaces && p != q && spaces[q].areas == []
      requires forall l :: l in ptes ==> l.pid != q
      modifies this
      ensures Inv(View()) && r != BadAddress && Shared(old(View()), View(), p, q, done)
      ensures r == Done ==>
        p in spaces && q in spaces && spaces[q].areas == old(spaces)[p].areas && done == Pages(old(ptes).Keys, p)
      ensures r == Done ==> Forkable(old(View()), p) && room >= |old(spaces)[p].areas|
      ensures r == Spins ==> !Forkable(old(View()), p)
      ensures r in {NoMem, Panic} ==> free == {} || (r == NoMem && room < |old(spaces)[p].areas|)
      ensures StartsAtHole(old(View()), p) && room > 0 ==> r == Spins
      ensures r in {Spins, Panic} ==> room > 0
    {
      hide Inv, Shared, Sorted, Aligned, InArea, Pages, PagesIn, AreaFull, Forkable, StartsAtHole;
      ghost var s := View();
      AreasOk(s, p);
      ShareNothing(s, p, q);
      done := {};
      r := Done;
      var areas := spaces[p].areas;
      if StartsAtHole(s, p) { StartsAtHoleFacts(s, p); }
      ForkableMeans(s, p);
      NoPagesIn(s.ptes, p, areas);
      var i := |areas|;
      while i > 0
        invariant 0 <= i <= |areas| && Inv(View()) && r == Done && |areas| - i <= room
        invariant q in spaces && spaces[q].areas == areas[i..]
        invariant done == PagesIn(s.ptes, p, areas[i..]) && Shared(s, View(), p, q, done)
        invariant forall k :: i <= k < |areas| ==> AreaFull(s, p, areas[k])
        invariant i == |areas| ==> View() == s
      {
        if |areas| - i == room { return NoMem, done; }
        i := i - 1;
        ghost var t := View();
        SharedFacts(s, t, p, q, done);
        NextArea(areas, i);
        SameAreaFull(s, t, p, q, done, areas[i]);
        NotYetShared(s, t, p, q, areas, i);
        ghost var more;
        r, more := DupArea(q, p, areas[i]);
        ShareAgain(s, t, View(), p, q, done, more, areas[i..]);
        if r == Done { MorePagesIn(s.ptes, p, areas, i, more); }
        done := done + more;
        if r != Done { return; }
      }
      SharedFacts(s, View(), p, q, done);
      assert areas[0..] == areas;
      AllPagesIn(s, p);
    }

    /** The address-space side of do_fork; room counts the structure for the address space, its
        page directory, and one structure per area.  A fork that fails undoes what it did; it
        fails only for lack of memory, and spins only if some area has a hole. */
    method Fork(p: nat, q: nat, room: nat) returns (r: Result)
      requires Inv(View()) && p in spaces && q !in spaces
      modifies this
      ensures Inv(View()) && r != BadAddress
      ensures r == Done ==>
        && mem == old(mem)
        && Data(View()) == ForkData(Data(old(View())), p, q)
        && SameAreas(old(spaces)[q := old(spaces)[p]], spaces)
        && SameFrames(old(ptes), Without(ptes, q)) && ReadOnlyCopies(old(ptes), ptes, p, q)
      ensures r == NoMem ==>
        && mem == old(mem)
        && Data(View()) == Data(old(View())) && SameAreas(old(spaces), spaces) && SameFrames(old(ptes), ptes)
        && tabs >= old(tabs) && refs.Keys == old(refs.Keys)
        && forall f :: f in refs && f !in tabs ==> refs[f] == old(refs)[f]
      ensures r == Done ==> Forkable(old(View()), p) && room >= 2 + |old(spaces)[p].areas|
      ensures r == Spins ==> !Forkable(old(View()), p)
      ensures r in {NoMem, Panic} ==> free == {} || (r == NoMem && room < 2 + |old(spaces)[p].areas|)
      ensures StartsAtHole(old(View()), p) && room > 2 ==> r == Spins
      ensures r in {Spins, Panic} ==> room > 2
    {
      hide Inv, Shared, Forkable, StartsAtHole, ReleasedExactly;
      ghost var s0 := View();
      if room < 2 {
        NothingForked(s0);
        return NoMem;
      }
      spaces := spaces[q := Space([], {}, {})];
      ghost var s := View();
      NewSpaceKeepsInv(s0, q);
      NewSpaceStartsAtHole(s0, p, q);
      ghost var done;
      r, done := DupMmap(q, p, room - 2);
      ghost var t := View();
      if r == Done {
        ForkSucceeded(s0, s, t, p, q);
      } else if r == NoMem {
        SharedSpaces(s, t, p, q, done);
        ExitMmap(q);
        UnwindFreesNothing(s, t, View(), p, q, done);
        DropSpaceKeepsInv(View(), q);
        spaces := spaces - {q};
        ForkUndone(s0, s, t, View(), p, q, done);
      }
    }

    /** do_exit for an address space. */
    method Exit(p: nat)
      requires Inv(View()) && p in spaces
      modifies this
      ensures Inv(View())
      ensures mem == old(mem) && tabs == old(tabs) && refs.Keys == old(refs.Keys)
      ensures spaces == old(spaces) - {p} && ptes == Without(old(ptes), p)
      ensures ReleasedExactly(old(View()), View())
    {
      hide Inv;
      ExitMmap(p);
      DropSpaceKeepsInv(View(), p);
      spaces := spaces - {p};
    }

    /** A fork and the child's exit leave every count, and everybody's data, as they were. */
    method ForkThenExit(p: nat, q: nat, room: nat) returns (r: Result)
      requires Inv(View()) && p in spaces && q !in spaces
      modifies this
      ensures Inv(View())
      ensures r in {Done, NoMem} ==>
        && Data(View()) == Data(old(View())) && SameAreas(old(spaces), spaces) && SameFrames(old(ptes), ptes)
        && forall f :: f in refs && f !in tabs && f !in old(tabs) ==> f in old(refs) && refs[f] == old(refs)[f]
      ensures r == Spins ==> !Forkable(old(View()), p)
      ensures r == Panic ==> free == {}
    {
      hide Inv, SameFrames, Forkable, ForkData, ReadOnlyCopies, Data, Frames, Leaves, SameAreas;
      hide ReleasedExactly, Without;
      ghost var s := View();
      r := Fork(p, q, room);
      if r == Done {
        assert p in s.spaces && q in spaces by { ForkableSpace(s, p, q, spaces); }
        SameAreasWithout(s.spaces, p, q, spaces);
        Exit(q);
        SameFramesSameData(s, View());
        CountsRestored(s, View());
      }
    }

    /** do_pgfault.  An existing page keeps its data, whichever way it becomes writable; a
        missing one appears with what the page taken from the free set held, because nothing
        clears it.  Memory is lacking only if no page is free. */
    method PgFault(p: nat, addr: nat, write: bool) returns (r: Result, ghost leaf: Leaf)
      requires Inv(View()) && p in spaces
      modifies this
      ensures Inv(View()) && r in {Done, NoMem, BadAddress}
      ensures r == BadAddress <==> Scan(old(spaces)[p].areas, addr).None?
      ensures r == BadAddress ==> View() == old(View())
      ensures SameAreas(old(spaces), spaces)
      ensures r != Done ==> ptes == old(ptes)
      ensures r != Done || PageOf(p, addr) in old(ptes) ==> Data(View()) == Data(old(View()))
      ensures r == NoMem ==> free == {} && (old(addr / PGSIZE / PTES in spaces[p].tables) ==> old(free) == {})
      ensures r == NoMem && PageOf(p, addr) in old(ptes) ==> write && !old(ptes)[PageOf(p, addr)].w
      ensures r == Done ==> ptes == old(ptes)[PageOf(p, addr) := leaf]
      ensures r == Done ==>
        var writable := Scan(old(spaces)[p].areas, addr).value.flags.write;
        if PageOf(p, addr) in old(ptes) then Touched(old(View()), PageOf(p, addr), write, writable, leaf)
        else AppearsFrom(old(View()), View(), PageOf(p, addr), writable, leaf)
    {
      var area := Scan(spaces[p].areas, addr);
      leaf := Leaf(0, false, false, false);
      ghost var s0 := View();
      FramesAndLeaves(s0);
      SameAreasReflexive(spaces);
      if area.None? { return BadAddress, leaf; }
      AreaOfAddress(s0, p, addr);
      r, leaf := Fault(PageOf(p, addr), write, area.value.flags.write);
      if r == Done && PageOf(p, addr) in s0.ptes {
        EntryFacts(s0, PageOf(p, addr), write, area.value.flags.write, leaf);
      }
    }

    method Fault(l: Place, write: bool, writable: bool) returns (r: Result, ghost leaf: Leaf)
      requires Inv(View()) && l.pid in spaces && InArea(spaces[l.pid].areas, l.vpn)
      modifies this
      ensures Inv(View()) && (r == Done || r == NoMem)
      ensures SameAreas(old(spaces), spaces)
      ensures r != Done ==> ptes == old(ptes)
      ensures r != Done || l in old(ptes) ==> Data(View()) == Data(old(View()))
      ensures r == Done && l !in old(ptes) ==> AppearsFrom(old(View()), View(), l, writable, leaf)
      ensures r == NoMem ==> free == {} && (old(l.vpn / PTES in spaces[l.pid].tables) ==> old(free) == {})
      ensures r == NoMem && l in old(ptes) ==> write && !old(ptes)[l].w
      ensures r == Done ==> ptes == old(ptes)[l := leaf]
      ensures r == Done && l in old(ptes) ==> EntryAfterFault(old(View()), l, write, writable, leaf)
      ensures old(l.vpn / PTES in spaces[l.pid].tables) ==> NoTables(old(View()), View())
    {
      ghost var s0 := View();
      hide Inv, Frames, Leaves, SameAreas, Data, InArea, TablesGrew;
      leaf := Leaf(0, false, false, false);
      var ok, _ := GetPte(l.pid, l.vpn, true);
      ghost var s := View();
      TablesKeepInv(s0, s, l.pid);
      TablesKeepData(s0, s, l.pid);
      TablesTakeFree(s0, s, l.pid);
      EntryHasTable(s0, l.pid, l.vpn);
      SameAreasAt(s0, s, l.pid);
      if !ok { return NoMem, leaf; }
      if l in ptes {
        r, leaf := FaultPresent(l, write, writable);
        if r == Done { EntryAfterTables(s0, s, l.pid, l, write, writable, leaf); }
      } else {
        r, leaf := FaultAbsent(l, writable);
        if r == Done { PageSize(View(), leaf.frame); }
      }
      SameAreasTwice(s0, s, View());
    }

    method FaultPresent(l: Place, write: bool, writable: bool) returns (r: Result, ghost leaf: Leaf)
      requires Inv(View()) && l in ptes && l.pid in spaces && InArea(spaces[l.pid].areas, l.vpn)
      modifies this
      ensures Inv(View()) && (r == Done || r == NoMem) && SameAreas(old(spaces), spaces)
      ensures Data(View()) == Data(old(View()))
      ensures ptes == old(ptes)[l := leaf]
      ensures r != Done ==> ptes == old(ptes)
      ensures r == Done ==> EntryAfterFault(old(View()), l, write, writable, leaf)
      ensures r == Done ==>
        var before := old(ptes)[l];
        && before.frame in old(refs)
        && leaf == if !write || before.w then before
                   else if old(refs)[before.frame] == 1 then Leaf(before.frame, before.r, true, before.x)
                   else Leaf(leaf.frame, writable, true, false)
      ensures r == NoMem ==> old(free) == {} == free && write && !old(ptes)[l].w
      ensures NoTables(old(View()), View())
    {
      hide Inv, Frames, Leaves, Data, InArea, Covers, SameAreas, MayInsert, InsertPte, Refers;
      DataAt(View(), l);
      SameAreasReflexive(spaces);
      assert ptes == ptes[l := ptes[l]];
      leaf := ptes[l];
      r := Done;
      if write && !ptes[l].w {
        if refs[ptes[l].frame] == 1 {
          MakeWritable(View(), l, ptes[l].r, ptes[l].x);
          leaf := ptes[l].(w := true);
          ptes := ptes[l := ptes[l].(w := true)];
        } else {
          r, leaf := BreakSharing(l, writable);
        }
      }
    }

    method FaultAbsent(l: Place, writable: bool) returns (r: Result, ghost leaf: Leaf)
      requires Inv(View()) && l !in ptes && l.pid in spaces && InArea(spaces[l.pid].areas, l.vpn)
      requires l.vpn / PTES in spaces[l.pid].tables
      modifies this
      ensures Inv(View()) && (r == Done || r == NoMem) && SameAreas(old(spaces), spaces) && mem == old(mem)
      ensures r == NoMem ==> ptes == old(ptes) && Data(View()) == Data(old(View())) && old(free) == {} == free
      ensures r == Done ==> ptes == old(ptes)[l := leaf] && leaf == Leaf(leaf.frame, writable, writable, false)
      ensures r == Done ==> leaf.frame in old(free) && leaf.frame in mem
      ensures r == Done ==> Data(View()) == Data(old(View()))[l := mem[leaf.frame]]
      ensures NoTables(old(View()), View())
    {
      hide Inv, Frames, Leaves, Data;
      ghost var s := View();
      var page;
      ghost var mid;
      page, mid := PgdirAllocPage(l, writable, writable, false);
      SpentKeepsData(s, mid, l.pid);
      leaf := Leaf(0, writable, writable, false);
      if page.None? { return NoMem, leaf; }
      leaf := Leaf(page.value, writable, writable, false);
      InsertedData(mid, l, leaf);
      r := Done;
    }

    /** The branch of do_pgfault that copies a shared page. */
    method BreakSharing(l: Place, writable: bool) returns (r: Result, ghost leaf: Leaf)
      requires Inv(View()) && l in ptes && l.pid in spaces && InArea(spaces[l.pid].areas, l.vpn)
      modifies this
      ensures Inv(View()) && (r == Done || r == NoMem)
      ensures SameAreas(old(spaces), spaces) && Data(View()) == Data(old(View()))
      ensures ptes == old(ptes)[l := leaf]
      ensures r != Done ==> ptes == old(ptes)
      ensures r == Done ==> leaf == Leaf(leaf.frame, writable, true, false) && leaf.frame in old(free)
      ensures r == NoMem ==> old(free) == {} == free
      ensures NoTables(old(View()), View())
    {
      hide Inv, Frames, Leaves, Data, InArea, Covers, SameAreas, MayInsert, MayMap, InsertPte, Refers, TablesGrew;
      DataAt(View(), l);
      leaf := ptes[l];
      assert ptes == ptes[l := leaf];
      var npage := CopyPage(l, writable);
      if npage.None? { return NoMem, leaf; }
      leaf := Leaf(npage.value, writable, true, false);
      UpdateTwice(old(ptes), l, Leaf(npage.value, writable, writable, false), leaf);
      MakeWritable(View(), l, writable, false);
      MayInsertIsMayMap(View(), l, leaf);
      var ret;
      ghost var mid;
      ret, mid := PageInsert(l, Leaf(npage.value, writable, true, false));
      r := Done;
    }

    /** A new page at l with the contents of the old one, still with the area's permissions. */
    method CopyPage(l: Place, writable: bool) returns (npage: Option<nat>)
      requires Inv(View()) && l in ptes && l.pid in spaces && InArea(spaces[l.pid].areas, l.vpn)
      modifies this
      ensures Inv(View()) && SameAreas(old(spaces), spaces) && Data(View()) == Data(old(View()))
      ensures npage.None? ==> ptes == old(ptes) && old(free) == {} == free
      ensures npage.Some? ==> ptes == old(ptes)[l := Leaf(npage.value, writable, writable, false)]
      ensures npage.Some? ==> npage.value in refs && refs[npage.value] == 1 && npage.value in old(free)
      ensures NoTables(old(View()), View())
    {
      hide Inv, Frames, Leaves, Data, InArea, Covers, SameAreas, MayInsert, MayMap, InsertPte, Refers, Spent;
      ghost var s := View();
      DataAt(s, l);
      EntryHasTable(s, l.pid, l.vpn);
      var page := ptes[l].frame;
      ghost var mid;
      npage, mid := PgdirAllocPage(l, writable, writable, false);
      SpentKeepsData(s, mid, l.pid);
      if npage.Some? {
        CopyIntoFresh(s, mid, l, npage.value, writable);
        mem := mem[npage.value := mem[page]];
      }
    }

    /** What the processor does for a load: it faults unless the entry is readable. */
    method Load(p: nat, addr: nat) returns (b: Option<bv8>)
      requires Inv(View())
      ensures b.Some? <==> PageOf(p, addr) in ptes && ptes[PageOf(p, addr)].r
      ensures b.Some? ==> |Data(View())[PageOf(p, addr)]| == PGSIZE
      ensures b.Some? ==> b.value == Data(View())[PageOf(p, addr)][addr % PGSIZE]
    {
      var l := PageOf(p, addr);
      if l in ptes && ptes[l].r {
        return Some(mem[ptes[l].frame][addr % PGSIZE]);
      }
      return None;
    }

    /** What the processor does for a store: it faults unless the entry is readable and
        writable (PTE_W without PTE_R is reserved in Sv39). */
    method Store(p: nat, addr: nat, b: bv8) returns (ok: bool)
      requires Inv(View())
      modifies `mem
      ensures Inv(View())
      ensures ok <==> PageOf(p, addr) in ptes && ptes[PageOf(p, addr)].r && ptes[PageOf(p, addr)].w
      ensures !ok ==> View() == old(View())
      ensures ok ==>
        && |Data(old(View()))[PageOf(p, addr)]| == PGSIZE
        && Data(View()) == Data(old(View()))[PageOf(p, addr) :=
             Data(old(View()))[PageOf(p, addr)][addr % PGSIZE := b]]
    {
      var l := PageOf(p, addr);
      ok := l in ptes && ptes[l].r && ptes[l].w;
      if ok {
        var c := mem[ptes[l].frame][addr % PGSIZE := b];
        WriteIsPrivate(View(), l, c);
        mem := mem[ptes[l].frame := c];
      }
    }

    /** A new address space with its areas, as load_icode sets it up before copying pages in. */
    method Spawn(p: nat, areas: seq<Area>)
      requires Inv(View()) && p !in spaces && Sorted(areas) && Aligned(areas)
      modifies `spaces
      ensures Inv(View()) && spaces == old(spaces)[p := Space(areas, {}, {})]
    {
      hide Inv, Sorted, Aligned, Forkable;
      NewSpaceKeepsInv(View(), p);
      GiveAreasKeepsInv(View().(spaces := spaces[p := Space([], {}, {})]), p, areas);
      assert spaces[p := Space([], {}, {})][p := Space(areas, {}, {})] == spaces[p := Space(areas, {}, {})];
      spaces := spaces[p := Space(areas, {}, {})];
    }

    /** pgdir_alloc_page and then the copy of c into the new page. */
    method Install(l: Place, r: bool, w: bool, x: bool, c: Bytes) returns (ok: bool, ghost leaf: Leaf)
      requires Inv(View()) && l.pid in spaces && InArea(spaces[l.pid].areas, l.vpn) && |c| == PGSIZE
      modifies this
      ensures Inv(View()) && SameAreas(old(spaces), spaces)
      ensures Data(View()) == if ok then Data(old(View()))[l := c] else Data(old(View()))
      ensures !ok ==> |free| <= 1
      ensures if ok then ptes == old(ptes)[l := leaf] && leaf.r == r && leaf.w == w && leaf.x == x
              else ptes == old(ptes)
    {
      ghost var s := View();
      hide Inv, Frames, Leaves, Data, InArea, SameAreas, Spent;
      var page;
      ghost var mid;
      page, mid := PgdirAllocPage(l, r, w, x);
      SpentKeepsData(s, mid, l.pid);
      ok := page.Some?;
      leaf := Leaf(0, r, w, x);
      if ok {
        leaf := Leaf(page.value, r, w, x);
        InsertedData(mid, l, leaf);
        FreshFrame(s, mid, page.value);
        FreshCount(mid, l, leaf);
        WriteIsPrivate(View(), l, c);
        FramesAndLeaves(View());
        DataAt(View(), l);
        mem := mem[page.value := c];
      }
    }
  }
}
