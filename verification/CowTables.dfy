/**
  The kernel of Cow and the page tables of PageTable side by side (lab5/cow/pmm.c:214-239): what
  get_pte builds word by word is what the kernel's flat map says, and the pages that hold the
  words are the ones that the kernel took for tables.
 */
module CowTables {
  import opened Vma
  import opened CowState
  import opened Cow
  import opened PageTable
  import Sv39

  lemma SplitAddress(frame: nat, offset: nat)
    requires offset < 4096
    ensures (frame * 4096 + offset) / 4096 == frame && (frame * 4096 + offset) % 4096 == offset
  {
  }

  lemma DirOfPage(v: nat)
    requires v < PAGES
    ensures v / PTES / PTES == Pdx1(v)
  {
  }

  /** Only the tables of each space show in the trees. */
  lemma ShowsByTables(t: PageTables, a: map<nat, Space>, b: map<nat, Space>, ptes: map<Place, Leaf>)
    requires t.Valid() && t.Shows(a, ptes) && a.Keys == b.Keys
    requires forall p :: p in a ==> a[p].tables == b[p].tables
    ensures t.Shows(b, ptes)
  {
    hide Encode, PageTables.Walk, PageTables.Valid;
    forall p, v: nat | p in t.roots && v < PAGES ensures t.Walk(p, v) == FlatWalk(b[p], ptes, p, v) {
      assert t.Walk(p, v) == FlatWalk(a[p], ptes, p, v);
    }
  }

  lemma LeavesInTables(s: State, p: nat)
    requires Inv(s) && p in s.spaces
    ensures forall u: nat :: Place(p, u) in s.ptes ==> u / PTES in s.spaces[p].tables
  {
  }

  lemma FreeIsNoTable(s: State)
    requires Inv(s)
    ensures s.free !! s.tabs && s.free <= s.refs.Keys && s.tabs <= s.refs.Keys
  {
  }

  lemma GivenAreNew(s: State, t: State, p: nat, v: nat, pages: (Option<nat>, Option<nat>))
    requires TookPages(s, t, p, v, pages)
    ensures pages.0.Some? ==> pages.0.value in s.free
    ensures pages.1.Some? ==> pages.1.value in s.free && pages.1 != pages.0
  {
  }

  lemma GrownSpaces(s: State, t: State, p: nat)
    requires TablesGrew(s, t, p)
    ensures t.spaces.Keys == s.spaces.Keys && t.ptes == s.ptes
    ensures forall q :: q in s.spaces && q != p ==> t.spaces[q] == s.spaces[q]
  {
  }

  lemma MappedIsUser(s: State, l: Place, leaf: Leaf)
    requires Inv(s) && MayMap(s, l, leaf)
    ensures l.vpn < PAGES && l.pid in s.spaces
  {
    hide Inv;
    AreaIsUser(s, l.pid, l.vpn);
  }

  lemma InsertWrites(s: State, l: Place, leaf: Leaf)
    requires leaf.frame in s.refs && Refers(s, l)
    ensures InsertPte(s, l, leaf).ptes == s.ptes[l := leaf]
  {
  }

  lemma RemoveWrites(s: State, l: Place)
    requires Refers(s, l)
    ensures RemovePte(s, l).ptes == s.ptes - {l} && NoTables(s, RemovePte(s, l))
  {
  }

  lemma AreaIsUser(s: State, p: nat, v: nat)
    requires Inv(s) && p in s.spaces && InArea(s.spaces[p].areas, v)
    ensures v < PAGES
  {
    hide Frames, Leaves, Counted, Exclusive;
    var a :| a in s.spaces[p].areas && Covers(a, v);
    assert UserAccess(a.start, a.end);
  }

  lemma GrownAreas(s: State, t: State, p: nat)
    requires TablesGrew(s, t, p) && p in s.spaces
    ensures p in t.spaces && t.spaces[p].areas == s.spaces[p].areas && t.ptes == s.ptes
    ensures forall q :: q in s.spaces && q != p ==> q in t.spaces && t.spaces[q] == s.spaces[q]
  {
  }

  /** The tables built before a fault change nothing about what it does. */
  lemma FaultAfterTables(s: State, t: State, u: State, p: nat, l: Place, write: bool, writable: bool, leaf: Leaf)
    requires Inv(s) && Inv(t) && Inv(u) && TablesGrew(s, t, p)
    requires if l in t.ptes then EntryAfterFault(t, l, write, writable, leaf) else AppearsFrom(t, u, l, writable, leaf)
    ensures l in s.ptes <==> l in t.ptes
    ensures if l in s.ptes then EntryAfterFault(s, l, write, writable, leaf) else AppearsFrom(s, u, l, writable, leaf)
  {
    hide Inv, Data, EntryAfterFault;
    GrownSpaces(s, t, p);
    TablesKeepData(s, t, p);
    if l in s.ptes { EntryAfterTables(s, t, p, l, write, writable, leaf); }
  }

  lemma NoTablesSpent(s: State, mid: State, t: State, q: nat)
    requires Spent(s, mid, q)
    ensures mid.ptes == s.ptes
  {
  }

  lemma ShowsWithout(t: PageTables, spaces: map<nat, Space>, ptes: map<Place, Leaf>, p: nat)
    requires t.Valid() && t.Shows(spaces, ptes) && p !in spaces
    ensures t.Shows(spaces, Without(ptes, p))
  {
    hide Encode, PageTables.Walk, PageTables.Valid;
    forall q, v: nat | q in t.roots && v < PAGES ensures t.Walk(q, v) == FlatWalk(spaces[q], Without(ptes, p), q, v) {
      assert t.Walk(q, v) == FlatWalk(spaces[q], ptes, q, v);
    }
  }

  lemma RootAdded(roots: map<nat, nat>, p: nat, page: nat)
    requires p !in roots
    ensures roots[p := page].Values == roots.Values + {page}
  {
    assert forall q :: q in roots ==> roots[p := page][q] == roots[q];
    assert roots[p := page][p] == page;
  }

  lemma RootRemoved(roots: map<nat, nat>, p: nat)
    requires p in roots && forall q :: q in roots && roots[q] == roots[p] ==> q == p
    ensures (roots - {p}).Values == roots.Values - {roots[p]}
  {
    assert forall q :: q in roots && q != p ==> (roots - {p})[q] == roots[q];
  }

  /** The directories that the kernel counts are those in the trees. */
  ghost predicate DirsMatch(spaces: map<nat, Space>, t: PageTables)
    requires t.Valid()
    reads t
  {
    && spaces.Keys == t.roots.Keys
    && forall p, i :: p in spaces && 0 <= i < 512 ==> (i in spaces[p].dirs <==> t.HasDir(p, i))
  }

  /** The pages of the trees are the kernel's tables and a page directory for each process. */
  ghost predicate Housed(s: State, t: PageTables)
    reads t
  {
    t.words.Keys == s.tabs + t.roots.Values && t.roots.Values !! s.refs.Keys
  }

  /** Both take the same pages for tables. */
  twostate lemma SamePages(t: PageTables, new s: State, new u: State, new p: nat, new v: nat, new create: bool,
                           new pages: (Option<nat>, Option<nat>))
    requires old(t.Valid()) && t.Valid() && p in t.roots && old(t.roots) == t.roots && v < PAGES
    requires p in s.spaces && p in u.spaces && TablesGrew(s, u, p) && TookPages(s, u, p, v, pages)
    requires t.Grew(p, v, create, pages) && old(Housed(s, t)) && old(DirsMatch(s.spaces, t))
    requires old(t.TableOf(p, v).Some?) <==> v / PTES in s.spaces[p].tables
    requires t.TableOf(p, v).Some? <==>
               v / PTES in s.spaces[p].tables || (create && t.HasDir(p, Pdx1(v)) && pages.1.Some?)
    requires !create ==> pages == (None, None)
    ensures Housed(u, t) && DirsMatch(u.spaces, t)
    ensures t.TableOf(p, v).Some? <==> v / PTES in u.spaces[p].tables
  {
    hide PageTables.Valid, PageTables.TableOf, PageTables.HasDir, Pdx1;
    DirOfPage(v);
    assert s.free - u.free == Given(pages);
  }

  twostate lemma DirectoryGone(t: PageTables, new s: State, new u: State, new p: nat)
    requires old(t.Valid()) && t.Valid() && p in old(t.roots) && t.roots == old(t.roots) - {p}
    requires t.words.Keys == old(t.words.Keys) - {old(t.roots)[p]}
    requires forall q, i :: q in t.roots && 0 <= i < 512 ==> t.HasDir(q, i) == old(t.HasDir(q, i))
    requires old(Housed(s, t)) && old(DirsMatch(s.spaces, t)) && s.tabs <= s.refs.Keys
    requires forall q :: q in old(t.roots) && old(t.roots)[q] == old(t.roots)[p] ==> q == p
    requires u.tabs == s.tabs && u.refs.Keys == s.refs.Keys && u.spaces == s.spaces - {p}
    ensures Housed(u, t) && DirsMatch(u.spaces, t)
  {
    hide PageTables.Valid, PageTables.HasDir;
    RootRemoved(old(t.roots), p);
  }

  class Paging {
    const kernel: Kernel
    const tables: PageTables

    constructor (memory: map<nat, Bytes>)
      requires forall f :: f in memory ==> |memory[f]| == PGSIZE
      ensures Joined() && fresh(kernel) && fresh(tables)
    {
      kernel := new Kernel(memory);
      tables := new PageTables();
    }

    /** The trees show the flat map, and their pages are the kernel's tables and a page directory
        for each process. */
    ghost predicate Joined()
      reads this, kernel, tables
    {
      && Inv(kernel.View()) && tables.Valid() && tables.Shows(kernel.spaces, kernel.ptes)
      && Housed(kernel.View(), tables) && DirsMatch(kernel.spaces, tables)
    }

    /** get_pte, in the kernel and in the trees: both find the table, or both make it, or neither
        has it. */
    method GetPte(p: nat, v: nat, create: bool) returns (slot: Option<nat>)
      requires Joined() && p in kernel.spaces && v < PAGES
      modifies kernel, tables
      ensures Joined() && TablesGrew(old(kernel.View()), kernel.View(), p)
      ensures slot == tables.TableOf(p, v) && (slot.Some? <==> v / PTES in kernel.spaces[p].tables)
      ensures !create || old(v / PTES in kernel.spaces[p].tables) ==> kernel.View() == old(kernel.View())
      ensures create && slot.None? ==> kernel.free == {}
      ensures tables.roots == old(tables.roots) && tables.Kept()
    {
      hide Inv, PageTables.Valid, PageTables.Shows, PageTables.TableOf, PageTables.HasDir, Pdx1;
      hide PageTables.Grew, TookPages, TablesGrew, Housed, DirsMatch;
      ghost var s := kernel.View();
      BeforeGetPte(p);
      var ok, pages := kernel.GetPte(p, v, create);
      GivenAreNew(s, kernel.View(), p, v, pages);
      label Asked:
      slot := tables.OpenTable(p, v, create, pages, s.spaces, s.ptes);
      SamePages@Asked(tables, s, kernel.View(), p, v, create, pages);
      ghost var made := s.spaces[p].tables + if slot.Some? then {v / PTES} else {};
      GrownSpaces(s, kernel.View(), p);
      ShowsByTables(tables, s.spaces[p := s.spaces[p].(tables := made)], kernel.spaces, kernel.ptes);
    }

    lemma BeforeGetPte(p: nat)
      requires Joined() && p in kernel.spaces
      ensures p in tables.roots && Housed(kernel.View(), tables) && DirsMatch(kernel.spaces, tables)
      ensures kernel.free !! tables.words.Keys
      ensures forall u: nat :: Place(p, u) in kernel.ptes ==> u / PTES in kernel.spaces[p].tables
    {
      hide Inv;
      FreeIsNoTable(kernel.View());
      LeavesInTables(kernel.View(), p);
    }

    lemma ShowsKeys()
      requires Joined()
      ensures tables.roots.Keys == kernel.spaces.Keys
    {
    }

    /** What joins the two when the kernel's entries are already those of a later moment. */
    ghost predicate Shown(s: State)
      reads tables
    {
      tables.Valid() && tables.Shows(s.spaces, s.ptes) && Housed(s, tables) && DirsMatch(s.spaces, tables)
    }

    /** The kernel has gone on from s by an entry at l, which is written through the pointer that
        get_pte returned. */
    method Put(l: Place, slot: nat, leaf: Leaf, ghost s: State, ghost t: State)
      requires Shown(s) && NoTables(s, t) && t.ptes == s.ptes[l := leaf]
      requires l.pid in tables.roots && l.vpn < PAGES && tables.TableOf(l.pid, l.vpn) == Some(slot)
      modifies tables
      ensures Shown(t)
      ensures tables.roots == old(tables.roots)
      ensures forall q, u: nat :: q in tables.roots && u < PAGES ==> tables.TableOf(q, u) == old(tables.TableOf(q, u))
    {
      hide PageTables.Valid, PageTables.Shows, PageTables.TableOf, PageTables.HasDir;
      tables.PutEntry(l.pid, slot, l.vpn, leaf, s.spaces, s.ptes);
    }

    /** page_insert. */
    method Insert(l: Place, leaf: Leaf) returns (r: Result)
      requires Joined() && MayMap(kernel.View(), l, leaf)
      modifies kernel, tables
      ensures Joined() && r in {Done, NoMem}
      ensures r == Done ==> kernel.ptes == old(kernel.ptes)[l := leaf]
      ensures r == NoMem ==> kernel.ptes == old(kernel.ptes) && kernel.free == {}
    {
      hide Inv, MayMap, PageTables.Valid, PageTables.Shows, PageTables.TableOf, PageTables.HasDir, Housed, DirsMatch;
      hide TablesGrew, InsertPte, Refers;
      ghost var s := kernel.View();
      MappedIsUser(s, l, leaf);
      var slot := GetPte(l.pid, l.vpn, true);
      ghost var t := kernel.View();
      GrownSpaces(s, t, l.pid);
      if slot.None? { return NoMem; }
      ShowsKeys();
      TablesKeepMayMap(s, t, l, leaf);
      ghost var mid;
      r, mid := kernel.PageInsert(l, leaf);
      InsertMakesNoTables(t, l, leaf);
      InsertWrites(t, l, leaf);
      Put(l, slot.value, leaf, t, kernel.View());
    }

    /** page_remove_pte, reached through get_pte without create. */
    method Remove(l: Place)
      requires Joined() && l.pid in kernel.spaces && l.vpn < PAGES
      modifies kernel, tables
      ensures Joined() && Refers(old(kernel.View()), l) && kernel.View() == RemovePte(old(kernel.View()), l)
    {
      hide Inv, PageTables.Valid, PageTables.Shows, PageTables.TableOf, PageTables.HasDir;
      ghost var s := kernel.View();
      RemoveKeepsInv(s, l);
      kernel.PageRemovePte(l);
      tables.RemoveEntry(l.pid, l.vpn, s.spaces, s.ptes);
      RemoveWrites(s, l);
    }

    /** do_pgfault: get_pte first, then what Cow.Kernel.Fault does with the entry. */
    method PgFault(p: nat, addr: nat, write: bool) returns (r: Result)
      requires Joined() && p in kernel.spaces
      modifies kernel, tables
      ensures Joined() && r in {Done, NoMem, BadAddress}
      ensures r == BadAddress <==> Scan(old(kernel.spaces)[p].areas, addr).None?
      ensures r == Done ==>
        && PageOf(p, addr) in kernel.ptes
        && kernel.ptes == old(kernel.ptes)[PageOf(p, addr) := kernel.ptes[PageOf(p, addr)]]
        && var writable := Scan(old(kernel.spaces)[p].areas, addr).value.flags.write;
           if PageOf(p, addr) in old(kernel.ptes)
           then EntryAfterFault(old(kernel.View()), PageOf(p, addr), write, writable, kernel.ptes[PageOf(p, addr)])
           else AppearsFrom(old(kernel.View()), kernel.View(), PageOf(p, addr), writable, kernel.ptes[PageOf(p, addr)])
      ensures r != Done ==> kernel.ptes == old(kernel.ptes)
      ensures r == NoMem ==> kernel.free == {}
    {
      hide Inv, PageTables.Valid, PageTables.Shows, PageTables.TableOf, PageTables.HasDir, Housed, DirsMatch;
      hide TablesGrew, InArea, AppearsFrom, EntryAfterFault;
      var area := Scan(kernel.spaces[p].areas, addr);
      if area.None? { return BadAddress; }
      ghost var s := kernel.View();
      AreaOfAddress(s, p, addr);
      AreaIsUser(s, p, addr / PGSIZE);
      var l := PageOf(p, addr);
      var slot := GetPte(p, l.vpn, true);
      ghost var t := kernel.View();
      GrownAreas(s, t, p);
      if slot.None? { return NoMem; }
      ShowsKeys();
      ghost var leaf;
      r, leaf := kernel.Fault(l, write, area.value.flags.write);
      if r == Done {
        FaultAfterTables(s, t, kernel.View(), p, l, write, area.value.flags.write, leaf);
        Put(l, slot.value, kernel.ptes[l], t, kernel.View());
      } else {
        SameShown(t, kernel.View());
      }
    }

    /** The middle of a turn of copy_range: the page at v of p is shared with q. */
    method SharePage(q: nat, p: nat, v: nat) returns (r: Result)
      requires Joined() && q in kernel.spaces && p != q && InArea(kernel.spaces[q].areas, v)
      requires Place(p, v) in kernel.ptes && Place(q, v) !in kernel.ptes
      modifies kernel, tables
      ensures Joined() && r in {Done, NoMem, Panic}
      ensures r == Done ==>
        var leaf := old(kernel.ptes)[Place(p, v)].(w := false);
        kernel.ptes == old(kernel.ptes)[Place(p, v) := leaf][Place(q, v) := leaf]
      ensures r != Done ==> kernel.ptes == old(kernel.ptes) && kernel.free == {}
    {
      hide Inv, PageTables.Valid, PageTables.Shows, PageTables.TableOf, PageTables.HasDir, Housed, DirsMatch;
      hide TablesGrew, InArea;
      ghost var s := kernel.View();
      AreaIsUser(s, q, v);
      EntryHasTable(s, p, v);
      ShowsKeys();
      var from := GetPte(p, v, false);
      var slot := GetPte(q, v, true);
      ghost var t := kernel.View();
      GrownAreas(s, t, q);
      if slot.None? { return NoMem; }
      ShowsKeys();
      ghost var mid;
      r, mid := kernel.SharePage(q, p, v);
      NoTablesSpent(t, mid, kernel.View(), q);
      if r == Done {
        var leaf := kernel.ptes[Place(p, v)];
        ghost var half := t.(ptes := t.ptes[Place(p, v) := leaf]);
        Put(Place(p, v), from.value, leaf, t, half);
        Put(Place(q, v), slot.value, leaf, half, kernel.View());
      } else {
        SameShown(t, kernel.View());
      }
    }

    lemma SameShown(s: State, t: State)
      requires Shown(s) && NoTables(s, t) && t.ptes == s.ptes
      ensures Shown(t)
    {
      hide PageTables.Valid, PageTables.Shows, PageTables.HasDir;
    }

    /** A new process: an address space in the kernel, a page directory in the trees. */
    method Spawn(p: nat, areas: seq<Area>, directory: nat)
      requires Joined() && p !in kernel.spaces && Sorted(areas) && Aligned(areas)
      requires directory !in kernel.refs && directory !in tables.roots.Values
      modifies kernel, tables
      ensures Joined() && kernel.spaces == old(kernel.spaces)[p := Space(areas, {}, {})]
      ensures tables.roots == old(tables.roots)[p := directory]
    {
      hide Inv, Sorted, Aligned, PageTables.Valid, PageTables.Shows, PageTables.HasDir;
      ghost var s := kernel.View();
      FreeIsNoTable(s);
      ShowsKeys();
      RootAdded(tables.roots, p, directory);
      tables.NewProcess(p, directory, kernel.spaces, kernel.ptes, areas);
      kernel.Spawn(p, areas);
    }

    /** The end of a process: nothing leads to its tables any more. */
    method Exit(p: nat)
      requires Joined() && p in kernel.spaces
      modifies kernel, tables
      ensures Joined()
      ensures kernel.spaces == old(kernel.spaces) - {p} && kernel.ptes == Without(old(kernel.ptes), p)
      ensures tables.roots == old(tables.roots) - {p}
    {
      hide Inv, Without, ReleasedExactly, PageTables.Valid, PageTables.Shows, PageTables.HasDir, Housed, DirsMatch;
      ghost var s, ptes := kernel.View(), kernel.ptes;
      ShowsKeys();
      FreeIsNoTable(s);
      RootsDiffer();
      tables.EndProcess(p, kernel.spaces, ptes);
      kernel.Exit(p);
      ShowsWithout(tables, kernel.spaces, ptes, p);
      DirectoryGone(tables, s, kernel.View(), p);
    }

    lemma RootsDiffer()
      requires tables.Valid()
      ensures forall p, q :: p in tables.roots && q in tables.roots && tables.roots[p] == tables.roots[q] ==> p == q
    {
      tables.ForestFacts();
    }

    /** Main result: what the processor makes of the words in the trees is the kernel's entry: its
        page with its permissions, or a fault. */
    lemma ProcessorSees(p: nat, va: nat, kind: Sv39.Access)
      requires Joined() && p in kernel.spaces && va < 0x40_0000_0000
      ensures p in tables.roots
      ensures var l := Place(p, va / 4096);
              Sv39.Translate(tables.words, tables.roots[p], va, kind)
              == if l in kernel.ptes && Sv39.Allows(kernel.ptes[l], kind)
                 then Some(kernel.ptes[l].frame * 4096 + va % 4096) else None
    {
      hide Inv, PageTables.Valid, Sv39.Translate, Sv39.Allows;
      LeavesInTables(kernel.View(), p);
      Sv39.TranslatesFlatMap(tables, kernel.spaces, kernel.ptes, p, va, kind);
    }

    /** A load that the processor carries out through the trees reads what Cow.Kernel.Load reads. */
    lemma LoadsAgree(p: nat, addr: nat)
      requires Joined() && p in kernel.spaces && addr < 0x40_0000_0000
      ensures p in tables.roots
      ensures var pa, l := Sv39.Translate(tables.words, tables.roots[p], addr, Sv39.Load), PageOf(p, addr);
              && (pa.Some? <==> l in kernel.ptes && kernel.ptes[l].r)
              && (pa.Some? ==>
                    && pa.value / 4096 == kernel.ptes[l].frame && pa.value / 4096 in kernel.mem
                    && pa.value % 4096 < |kernel.mem[pa.value / 4096]| && pa.value % 4096 == addr % PGSIZE)
    {
      hide PageTables.Valid, Sv39.Translate, Counted, Exclusive, Spaces, PageTables.Shows;
      ProcessorSees(p, addr, Sv39.Load);
      var l := PageOf(p, addr);
      if l in kernel.ptes { SplitAddress(kernel.ptes[l].frame, addr % 4096); }
    }

    /** What the trees say of an entry is what the kernel says. */
    method LookUp(l: Place) returns (leaf: Option<Leaf>)
      requires Joined() && l.pid in kernel.spaces && l.vpn < PAGES
      modifies tables
      ensures Joined() && leaf == if l in kernel.ptes then Some(kernel.ptes[l]) else None
    {
      hide Inv, PageTables.Valid, PageTables.Shows, PageTables.HasDir;
      LeavesInTables(kernel.View(), l.pid);
      leaf := tables.LookUp(l.pid, l.vpn, kernel.spaces, kernel.ptes);
    }
  }
}
