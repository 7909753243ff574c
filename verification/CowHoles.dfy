/**
  When copy_range comes to an end.  Its cursor moves on only past an absent table or a valid
  entry (lab5/cow/pmm.c:355-358 and 413), so an invalid entry of an existing table stops it.
 */
module CowHoles {
  import opened Vma
  import opened CowState
  import opened Cow
  import opened CowRun
  import Loader

  /** With memory for all it allocates, copy_range over pages a up to b ends if and only if there
      is no hole in between; without, it may also end at a mapped page below the first hole. */
  method CopyRangeEndsIff(k: Kernel, q: nat, p: nat, a: nat, b: nat) returns (r: Result, ghost stop: nat)
    requires Inv(k.View()) && p in k.spaces && q in k.spaces && p != q && a < b
    requires forall v :: a <= v < b ==> InArea(k.spaces[q].areas, v) && Place(q, v) !in k.ptes
    modifies k
    ensures |old(k.free)| >= 3 * (b - a) ==> (r != Spins <==> NoHoles(old(k.spaces)[p], old(k.ptes), p, a, b))
    ensures r != Spins <==>
              || NoHoles(old(k.spaces)[p], old(k.ptes), p, a, b)
              || (a <= stop < b && Place(p, stop) in old(k.ptes) && k.free == {}
                  && NoHoles(old(k.spaces)[p], old(k.ptes), p, a, stop))
  {
    hide Inv, Shared, InArea, MappedPages;
    ghost var done;
    r, done, stop := k.CopyRange(q, p, a, b);
  }

  const USTACKTOP: nat := Loader.USTACKTOP

  /** What load_icode leaves: the user stack is the last area, and only its four top pages are
      mapped. */
  ghost predicate FreshlyLoaded(s: State, p: nat) {
    && p in s.spaces && |s.spaces[p].areas| > 0
    && var stack := s.spaces[p].areas[|s.spaces[p].areas| - 1];
    && stack == Loader.STACK
    && forall v: nat :: Covers(stack, v) ==> (Place(p, v) in s.ptes <==> USTACKTOP / PGSIZE - 4 <= v)
  }

  lemma StackIsHole(s: State, p: nat)
    requires Inv(s) && FreshlyLoaded(s, p)
    ensures StartsAtHole(s, p) && p in s.spaces && |s.spaces[p].areas| > 0
  {
    hide Inv;
    var stack := s.spaces[p].areas[|s.spaces[p].areas| - 1];
    var top := USTACKTOP / PGSIZE - 1;
    assert Covers(stack, top) && Covers(stack, stack.start / PGSIZE);
    EntryHasTable(s, p, top);
    assert stack.start / PGSIZE / PTES == top / PTES;
  }

  /** A process that was just loaded can never be forked: given the first three structures, its
      fork spins at the bottom of the stack, with any amount of memory. */
  method StackStopsFork(k: Kernel, p: nat, q: nat, room: nat) returns (r: Result)
    requires Inv(k.View()) && FreshlyLoaded(k.View(), p) && q !in k.spaces
    modifies k
    ensures r == if room > 2 then Spins else NoMem
  {
    hide Inv, FreshlyLoaded, Forkable, StartsAtHole, SameAreas, Data, ForkData, SameFrames, ReadOnlyCopies;
    StackIsHole(k.View(), p);
    StartsAtHoleFacts(k.View(), p);
    r := k.Fork(p, q, room);
  }

  // ---- from load_icode to fork ----

  /** p has these areas, and exactly these pages are mapped. */
  ghost predicate Mirrors(s: State, p: nat, areas: seq<Area>, pages: set<nat>) {
    p in s.spaces && s.spaces[p].areas == areas && forall v: nat :: Place(p, v) in s.ptes <==> v * PGSIZE in pages
  }

  /** The page at la has these contents and permissions. */
  ghost predicate Filled(s: State, p: nat, la: nat, page: Loader.Page)
    requires Inv(s)
  {
    FramesAndLeaves(s);
    var l := Place(p, la / PGSIZE);
    && l in s.ptes && s.ptes[l].r == page.perm.read && s.ptes[l].w == page.perm.write && s.ptes[l].x == page.perm.exec
    && l in Data(s) && |Data(s)[l]| == |page.bytes|
    && forall k :: 0 <= k < |page.bytes| ==> Data(s)[l][k] == page.bytes[k] as bv8
  }

  /** Installing a page fills it and leaves the others. */
  lemma InstalledIsFilled(s: State, t: State, p: nat, la: nat, page: Loader.Page, leaf: Leaf)
    requires Inv(s) && Inv(t) && Abstractable(s) && Abstractable(t)
    requires t.ptes == s.ptes[Place(p, la / PGSIZE) := leaf]
    requires Data(t) == Data(s)[Place(p, la / PGSIZE) := AsBytes(page.bytes)]
    requires leaf.r == page.perm.read && leaf.w == page.perm.write && leaf.x == page.perm.exec
    ensures Filled(t, p, la, page)
    ensures forall lb: nat, other :: lb / PGSIZE != la / PGSIZE && Filled(s, p, lb, other) ==> Filled(t, p, lb, other)
  {
    hide Inv, Frames, Leaves, Data;
    FramesAndLeaves(s);
    FramesAndLeaves(t);
  }

  /** The stack, which ends at the top of the user range, is the last area. */
  lemma StackIsLast(areas: seq<Area>)
    requires Sorted(areas) && Aligned(areas) && Loader.STACK in areas
    ensures areas[|areas| - 1] == Loader.STACK
  {
    var i :| 0 <= i < |areas| && areas[i] == Loader.STACK;
    var last := areas[|areas| - 1];
    assert last in areas && UserAccess(last.start, last.end);
    if i < |areas| - 1 { assert false; }
  }

  lemma LoadedIsFresh(s: State, p: nat, areas: seq<Area>, pages: map<nat, Loader.Page>)
    requires Mirrors(s, p, areas, pages.Keys) && Sorted(areas) && Aligned(areas) && Loader.STACK in areas
    requires Loader.StackMapped(pages) && Loader.StackTopOnly(pages)
    ensures FreshlyLoaded(s, p)
  {
    StackIsLast(areas);
    forall v: nat | Covers(Loader.STACK, v) ensures Place(p, v) in s.ptes <==> USTACKTOP / PGSIZE - 4 <= v {
      if USTACKTOP / PGSIZE - 4 <= v {
        var n := USTACKTOP / PGSIZE - v;
        assert Loader.StackPage(pages, n) && v * PGSIZE == USTACKTOP - n * PGSIZE;
      } else {
        assert Loader.STACK.Contains(v * PGSIZE);
      }
    }
  }

  function AsBytes(s: seq<Loader.Byte>): (c: Bytes)
    ensures |c| == |s| && forall i :: 0 <= i < |s| ==> c[i] == s[i] as bv8
  {
    seq(|s|, i requires 0 <= i < |s| => s[i] as bv8)
  }

  lemma InItsArea(areas: seq<Area>, la: nat)
    requires Aligned(areas) && la % PGSIZE == 0 && exists u :: u in areas && u.Contains(la)
    ensures InArea(areas, la / PGSIZE) && la / PGSIZE * PGSIZE == la
  {
    var u :| u in areas && u.Contains(la);
    assert Covers(u, la / PGSIZE);
  }

  lemma SameAreasAt(a: map<nat, Space>, b: map<nat, Space>, p: nat)
    requires SameAreas(a, b) && p in a
    ensures p in b && b[p].areas == a[p].areas
  {
  }

  /** The address space that load_icode has set up, as the kernel's own: its areas, and its pages
      with their contents, until a page cannot be had. */
  method CopyIn(k: Kernel, p: nat, areas: seq<Area>, pages: map<nat, Loader.Page>) returns (ok: bool)
    requires Inv(k.View()) && p !in k.spaces && Sorted(areas) && Aligned(areas)
    requires Loader.PagesIn(pages, areas)
    requires forall la :: la in pages ==> la % PGSIZE == 0 && |pages[la].bytes| == PGSIZE
    modifies k
    ensures Inv(k.View()) && k.spaces.Keys == old(k.spaces.Keys) + {p}
    ensures if ok then Mirrors(k.View(), p, areas, pages.Keys) else |k.free| <= 1
    ensures ok ==> forall la :: la in pages ==> Filled(k.View(), p, la, pages[la])
  {
    hide Inv, Frames, Leaves, Sorted, Aligned, SameAreas, Data, AsBytes, InArea, Filled;
    NobodysPages(k.View(), p);
    k.Spawn(p, areas);
    var left := pages.Keys;
    while left != {}
      invariant Inv(k.View()) && left <= pages.Keys && k.spaces.Keys == old(k.spaces.Keys) + {p}
      invariant Mirrors(k.View(), p, areas, pages.Keys - left)
      invariant forall la :: la in pages && la !in left ==> Filled(k.View(), p, la, pages[la])
    {
      var la :| la in left;
      InItsArea(areas, la);
      var page := pages[la];
      ghost var s, spaces := k.View(), k.spaces;
      Reflexive(s);
      ghost var leaf;
      var perm := page.perm;
      ok, leaf := k.Install(Place(p, la / PGSIZE), perm.read, perm.write, perm.exec, AsBytes(page.bytes));
      SameKeys(spaces, k.spaces);
      SameAreasAt(spaces, k.spaces, p);
      if !ok { return; }
      Reflexive(k.View());
      InstalledIsFilled(s, k.View(), p, la, page, leaf);
      OtherPages(pages, la);
      left := left - {la};
    }
    ok := true;
    assert pages.Keys - left == pages.Keys;
  }

  lemma OtherPages(pages: map<nat, Loader.Page>, la: nat)
    requires la in pages && forall lb :: lb in pages ==> lb % PGSIZE == 0
    ensures forall lb :: lb in pages && lb != la ==> lb / PGSIZE != la / PGSIZE
  {
  }

  lemma SameKeys(a: map<nat, Space>, b: map<nat, Space>)
    requires SameAreas(a, b)
    ensures a.Keys == b.Keys
  {
  }

  lemma NobodysPages(s: State, p: nat)
    requires Inv(s) && p !in s.spaces
    ensures forall v: nat :: Place(p, v) !in s.ptes
  {
  }

  /** Main result: a program whose segments fit is loaded, and the process is asked to fork; its
      fork spins, with any amount of memory, as soon as it has its first three structures. */
  method LoadThenFork(k: Kernel, p: nat, q: nat, phs: seq<Loader.ProgHdr>, binary: nat -> Loader.Byte,
                      frames: nat, structs: nat, room: nat) returns (r: Option<Result>)
    requires Inv(k.View()) && p !in k.spaces && q !in k.spaces && p != q
    requires Loader.AllFit(phs) && forall i :: 0 <= i < |phs| ==> phs[i].WellFormed()
    modifies k
    ensures r.Some? ==> r.value == if room > 2 then Spins else NoMem
    ensures r.None? ==> !Loader.Placeable(phs) || !Loader.Enough(phs, structs, frames) || |k.free| <= 1
  {
    hide Inv, Sorted, Aligned, Mirrors, FreshlyLoaded, Loader.AllMapped, Loader.AllRight, Loader.AllFit;
    hide Loader.StackMapped, Loader.StackTopOnly, Loader.PagesIn, Loader.OwnAreas, Loader.Placeable, Loader.Enough;
    var image := new Loader.Image(frames, structs);
    var loaded := image.LoadIcode(phs, binary, true);
    if loaded != Loader.Loaded { return None; }
    LoadedAreas(phs, image.mm.areas);
    ImageIsSound(image);
    var ok := CopyIn(k, p, image.mm.areas, image.pages);
    if !ok { return None; }
    LoadedIsFresh(k.View(), p, image.mm.areas, image.pages);
    var outcome := StackStopsFork(k, p, q, room);
    r := Some(outcome);
  }

  lemma LoadedAreas(phs: seq<Loader.ProgHdr>, areas: seq<Area>)
    requires Loader.AllMapped(phs, areas) && Loader.OwnAreas(phs, areas)
    ensures Aligned(areas)
  {
    hide Loader.AllMapped, Loader.OwnAreas;
    forall u | u in areas ensures u.start % PGSIZE == 0 && u.end % PGSIZE == 0 && UserAccess(u.start, u.end) {
      Loader.OwnAreasAreUser(phs, areas, u);
    }
  }

  lemma ImageIsSound(image: Loader.Image)
    requires image.Valid()
    ensures Sorted(image.mm.areas)
    ensures forall la :: la in image.pages ==> la % PGSIZE == 0 && |image.pages[la].bytes| == PGSIZE
  {
    hide Sorted;
  }

  // ---- such a process exists ----

  /** Process 1 has the stack of load_icode and nothing else; pages 4 to 6 are tables, and any
      number of pages is free. */
  function Example(page: Bytes, spare: set<nat>): State {
    var used := {0, 1, 2, 3, 4, 5, 6};
    State(map f | f in used + spare :: if f in used then 1 else 0,
          map f | f in used + spare :: page,
          spare - used, {4, 5, 6}, map[1 := Space([Loader.STACK], {TOP / PTES / PTES}, {TOP / PTES})],
          ExampleEntries())
  }

  const TOP: nat := USTACKTOP / PGSIZE - 1

  function ExampleEntries(): map<Place, Leaf> {
    map[Place(1, TOP - 3) := Leaf(0, true, true, true), Place(1, TOP - 2) := Leaf(1, true, true, true),
        Place(1, TOP - 1) := Leaf(2, true, true, true), Place(1, TOP) := Leaf(3, true, true, true)]
  }

  lemma ExampleMappings(f: nat)
    ensures |Mappings(ExampleEntries(), f)| == if f < 4 then 1 else 0
  {
    if f < 4 {
      assert Mappings(ExampleEntries(), f) == {Place(1, TOP - 3 + f)};
    } else {
      assert Mappings(ExampleEntries(), f) == {};
    }
  }

  lemma EntriesAt(l: Place)
    ensures l in ExampleEntries() <==> l.pid == 1 && TOP - 3 <= l.vpn <= TOP
    ensures l in ExampleEntries() ==> ExampleEntries()[l].frame < 4 && l.vpn / PTES == TOP / PTES
  {
  }

  lemma ExampleIsValid(page: Bytes, spare: set<nat>)
    requires |page| == PGSIZE
    ensures Inv(Example(page, spare)) && FreshlyLoaded(Example(page, spare), 1)
  {
    ExampleSpaces(page, spare);
    ExampleIsFresh(page, spare);
    hide ExampleEntries, Mappings, Spaces, FreshlyLoaded;
    var s := Example(page, spare);
    forall f: nat { ExampleMappings(f); }
    forall l { EntriesAt(l); }
    assert Counted(s) && Exclusive(s);
  }

  lemma ExampleSpaces(page: Bytes, spare: set<nat>)
    ensures Spaces(Example(page, spare))
  {
    hide ExampleEntries;
    var s := Example(page, spare);
    forall l | l in s.ptes
      ensures l.pid in s.spaces && l.vpn / PTES in s.spaces[l.pid].tables && InArea(s.spaces[l.pid].areas, l.vpn)
    {
      EntriesAt(l);
      assert Covers(Loader.STACK, l.vpn);
    }
  }

  lemma ExampleIsFresh(page: Bytes, spare: set<nat>)
    ensures FreshlyLoaded(Example(page, spare), 1)
  {
    hide ExampleEntries;
    forall v: nat { EntriesAt(Place(1, v)); }
  }

  method ExampleSpins(spare: set<nat>, room: nat) returns (r: Result)
    ensures r == if room > 2 then Spins else NoMem
  {
    hide Inv, FreshlyLoaded;
    var s := Example(seq(PGSIZE, _ => 0), spare);
    ExampleIsValid(s.mem[0], spare);
    var k := new Kernel(map[]);
    k.refs, k.mem, k.free, k.tabs, k.spaces, k.ptes := s.refs, s.mem, s.free, s.tabs, s.spaces, s.ptes;
    assert k.View() == s == Example(s.mem[0], spare);
    r := StackStopsFork(k, 1, 2, room);
  }
}
