/**
  Whole runs of the copy-on-write kernel: any interleaving of new processes, forks, loads,
  stores, faults and exits is answered as by the machine of CowEager, where every process has
  pages of its own, up to the first event with which the code leaves that path for good.
 */
module CowRun {
  import opened Vma
  import opened CowState
  import opened CowEager
  import opened Cow

  // ---- the kernel seen from outside ----

  /** What each place shows, and whether it can be read. */
  ghost function Look(s: State): map<Place, Page>
    requires Frames(s) && Leaves(s)
  {
    map l | l in s.ptes :: Page(s.mem[s.ptes[l].frame], s.ptes[l].r)
  }

  ghost function PagesOf(look: map<Place, Page>, p: nat): map<nat, Page> {
    map v | v in Pages(look.Keys, p) :: look[Place(p, v)]
  }

  ghost function Assemble(areas: map<nat, seq<Area>>, look: map<Place, Page>): Eager {
    map p | p in areas :: Solo(areas[p], PagesOf(look, p))
  }

  ghost function AreasOf(spaces: map<nat, Space>): map<nat, seq<Area>> {
    map p | p in spaces :: spaces[p].areas
  }

  ghost function Abstract(s: State): Eager
    requires Inv(s)
  {
    FramesAndLeaves(s);
    Assemble(AreasOf(s.spaces), Look(s))
  }

  lemma PagesAt(look: map<Place, Page>, p: nat)
    ensures forall v: nat :: v in PagesOf(look, p) <==> Place(p, v) in look
    ensures forall v: nat :: v in PagesOf(look, p) ==> PagesOf(look, p)[v] == look[Place(p, v)]
  {
  }

  lemma PagesUpdate(look: map<Place, Page>, p: nat, addr: nat, page: Page, q: nat)
    ensures PagesOf(look[PageOf(p, addr) := page], q)
         == if q == p then PagesOf(look, q)[addr / PGSIZE := page] else PagesOf(look, q)
  {
    hide PagesOf;
    PagesAt(look, q);
    PagesAt(look[PageOf(p, addr) := page], q);
  }

  lemma AssembleUpdate(areas: map<nat, seq<Area>>, look: map<Place, Page>, p: nat, addr: nat, page: Page)
    requires p in areas
    ensures Assemble(areas, look[PageOf(p, addr) := page])
         == Assemble(areas, look)[p := WithPage(Assemble(areas, look)[p], addr, page)]
  {
    hide PagesOf;
    forall q: nat { PagesUpdate(look, p, addr, page, q); }
  }

  lemma PagesFork(look: map<Place, Page>, p: nat, q: nat, k: nat)
    requires forall l :: l in look ==> l.pid != q
    ensures PagesOf(ForkData(look, p, q), k) == PagesOf(look, if k == q then p else k)
  {
    hide PagesOf, ForkData;
    var next, j := ForkData(look, p, q), if k == q then p else k;
    PagesAt(look, j);
    PagesAt(next, k);
    ForkDataKeys(look, p, q);
    forall v: nat
      ensures Place(k, v) in next <==> Place(j, v) in look
      ensures Place(k, v) in next ==> next[Place(k, v)] == look[Place(j, v)]
    {
      if Place(k, v) in next { ForkDataAt(look, p, q, Place(k, v)); }
    }
  }

  lemma AssembleFork(areas: map<nat, seq<Area>>, look: map<Place, Page>, p: nat, q: nat)
    requires p in areas && q !in areas && forall l :: l in look ==> l.pid != q
    ensures Assemble(areas[q := areas[p]], ForkData(look, p, q)) == Assemble(areas, look)[q := Assemble(areas, look)[p]]
  {
    hide PagesOf, ForkData;
    forall k: nat { PagesFork(look, p, q, k); }
  }

  ghost function WithoutPages(look: map<Place, Page>, p: nat): map<Place, Page> {
    map l | l in look && l.pid != p :: look[l]
  }

  lemma AssembleExit(areas: map<nat, seq<Area>>, look: map<Place, Page>, p: nat)
    ensures Assemble(areas - {p}, WithoutPages(look, p)) == Assemble(areas, look) - {p}
  {
    forall q: nat | q != p ensures PagesOf(WithoutPages(look, p), q) == PagesOf(look, q) {
    }
  }

  lemma AssembleSpawn(areas: map<nat, seq<Area>>, look: map<Place, Page>, p: nat, given: seq<Area>)
    requires forall l :: l in look ==> l.pid != p
    ensures Assemble(areas[p := given], look) == Assemble(areas, look)[p := Solo(given, map[])]
  {
    assert PagesOf(look, p) == map[];
  }

  lemma SameAreasOf(a: map<nat, Space>, b: map<nat, Space>)
    requires SameAreas(a, b)
    ensures AreasOf(a) == AreasOf(b)
  {
  }

  lemma AreasOfUpdate(a: map<nat, Space>, p: nat, sp: Space)
    ensures AreasOf(a[p := sp]) == AreasOf(a)[p := sp.areas]
    ensures AreasOf(a - {p}) == AreasOf(a) - {p}
  {
  }

  /** What a process is, seen from outside. */
  lemma AbstractAt(s: State, p: nat, addr: nat)
    requires Inv(s)
    ensures p in Abstract(s) <==> p in s.spaces
    ensures Frames(s) && Leaves(s)
    ensures p in s.spaces ==>
              var v := Abstract(s)[p];
              && v.areas == s.spaces[p].areas
              && (addr / PGSIZE in v.pages <==> PageOf(p, addr) in s.ptes)
              && (Holds(v, addr) <==> PageOf(p, addr) in s.ptes)
              && (PageOf(p, addr) in s.ptes ==>
                    v.pages[addr / PGSIZE] == Page(Data(s)[PageOf(p, addr)], s.ptes[PageOf(p, addr)].r))
    ensures PageOf(p, addr) in s.ptes ==> p in s.spaces
  {
    hide Counted, Exclusive;
    FramesAndLeaves(s);
    if PageOf(p, addr) in s.ptes { DataAt(s, PageOf(p, addr)); }
  }

  lemma AbstractIsWhole(s: State)
    requires Inv(s)
    ensures Whole(Abstract(s))
  {
    hide Counted, Exclusive, Spaces;
    FramesAndLeaves(s);
    forall p, n: nat | p in Abstract(s) && n in Abstract(s)[p].pages
      ensures |Abstract(s)[p].pages[n].bytes| == 4096
    {
      assert Place(p, n) in s.ptes;
    }
  }

  ghost predicate Abstractable(s: State) {
    Inv(s) && Frames(s) && Leaves(s)
  }

  lemma LookIs(s: State)
    requires Frames(s) && Leaves(s)
    ensures Look(s).Keys == Data(s).Keys == s.ptes.Keys
    ensures forall l :: l in s.ptes ==> Look(s)[l] == Page(Data(s)[l], s.ptes[l].r)
  {
  }

  lemma AbstractSame(s: State, t: State)
    requires Abstractable(s) && Abstractable(t)
    requires SameAreas(s.spaces, t.spaces) && Data(t) == Data(s) && SameFrames(s.ptes, t.ptes)
    ensures Abstract(t) == Abstract(s)
  {
    hide Inv, Frames, Leaves, Assemble, Look, Data, SameAreas;
    SameAreasOf(s.spaces, t.spaces);
    LookIs(s);
    LookIs(t);
    assert Look(t) == Look(s);
  }

  lemma AbstractUpdate(s: State, t: State, p: nat, addr: nat, leaf: Leaf, c: Bytes)
    requires Abstractable(s) && Abstractable(t) && p in s.spaces
    requires SameAreas(s.spaces, t.spaces) && t.ptes == s.ptes[PageOf(p, addr) := leaf]
    requires Data(t) == Data(s)[PageOf(p, addr) := c]
    ensures Abstract(t) == Abstract(s)[p := WithPage(Abstract(s)[p], addr, Page(c, leaf.r))]
  {
    hide Inv, Frames, Leaves, Assemble, Look, Data, SameAreas, WithPage;
    SameAreasOf(s.spaces, t.spaces);
    LookIs(s);
    LookIs(t);
    assert Look(t) == Look(s)[PageOf(p, addr) := Page(c, leaf.r)];
    AssembleUpdate(AreasOf(s.spaces), Look(s), p, addr, Page(c, leaf.r));
  }

  lemma LookFork(s: State, t: State, p: nat, q: nat)
    requires Frames(s) && Leaves(s) && Frames(t) && Leaves(t) && (forall l :: l in s.ptes ==> l.pid != q)
    requires Data(t) == ForkData(Data(s), p, q)
    requires SameFrames(s.ptes, Without(t.ptes, q)) && ReadOnlyCopies(s.ptes, t.ptes, p, q)
    ensures Look(t) == ForkData(Look(s), p, q)
  {
    hide Frames, Leaves, ForkData, SameFrames, ReadOnlyCopies;
    ForkDataKeys(Data(s), p, q);
    ForkDataKeys(Look(s), p, q);
    assert Data(s).Keys == Look(s).Keys && Data(t).Keys == Look(t).Keys;
    forall l | l in Look(t) ensures Look(t)[l] == ForkData(Look(s), p, q)[l] {
      SameReadable(s, t, p, q, l);
      ForkDataAt(Data(s), p, q, l);
      ForkDataAt(Look(s), p, q, l);
      assert Data(t)[l] == ForkData(Data(s), p, q)[l];
    }
  }

  lemma ForkDataKeys<V>(d: map<Place, V>, p: nat, q: nat)
    ensures ForkData(d, p, q).Keys == d.Keys + Copies(q, Pages(d.Keys, p))
  {
  }

  lemma ForkDataAt<V>(d: map<Place, V>, p: nat, q: nat, l: Place)
    requires l in ForkData(d, p, q)
    ensures if l.pid == q && Place(p, l.vpn) in d then ForkData(d, p, q)[l] == d[Place(p, l.vpn)]
            else l in d && ForkData(d, p, q)[l] == d[l]
  {
  }

  lemma SameReadable(s: State, t: State, p: nat, q: nat, l: Place)
    requires l in t.ptes && (forall k :: k in s.ptes ==> k.pid != q)
    requires SameFrames(s.ptes, Without(t.ptes, q)) && ReadOnlyCopies(s.ptes, t.ptes, p, q)
    ensures var k := if l.pid == q then Place(p, l.vpn) else l;
            k in s.ptes && t.ptes[l].r == s.ptes[k].r
  {
    if l.pid == q { assert l == Place(q, l.vpn); } else { assert l in Without(t.ptes, q); }
  }

  lemma AbstractFork(s: State, t: State, p: nat, q: nat)
    requires Abstractable(s) && Abstractable(t) && p in s.spaces && q !in s.spaces
    requires Data(t) == ForkData(Data(s), p, q) && SameAreas(s.spaces[q := s.spaces[p]], t.spaces)
    requires SameFrames(s.ptes, Without(t.ptes, q)) && ReadOnlyCopies(s.ptes, t.ptes, p, q)
    ensures Abstract(t) == Abstract(s)[q := Abstract(s)[p]] && q !in Abstract(s) && p in Abstract(s)
  {
    hide Inv, Frames, Leaves, Data, SameFrames, ReadOnlyCopies, ForkData, SameAreas;
    FramesAndLeaves(s);
    SameAreasOf(s.spaces[q := s.spaces[p]], t.spaces);
    AreasOfUpdate(s.spaces, q, s.spaces[p]);
    LookFork(s, t, p, q);
    assert forall l :: l in Look(s) ==> l in s.ptes;
    AssembleFork(AreasOf(s.spaces), Look(s), p, q);
  }

  lemma AbstractExit(s: State, t: State, p: nat)
    requires Abstractable(s) && Abstractable(t)
    requires t.spaces == s.spaces - {p} && t.ptes == Without(s.ptes, p) && t.mem == s.mem
    ensures Abstract(t) == Abstract(s) - {p}
  {
    hide Inv, Frames, Leaves, Assemble;
    if p in s.spaces { AreasOfUpdate(s.spaces, p, s.spaces[p]); } else { assert s.spaces - {p} == s.spaces; }
    assert AreasOf(s.spaces - {p}) == AreasOf(s.spaces) - {p};
    assert Look(t) == WithoutPages(Look(s), p);
    AssembleExit(AreasOf(s.spaces), Look(s), p);
  }

  lemma AbstractSpawn(s: State, t: State, p: nat, areas: seq<Area>)
    requires Abstractable(s) && Abstractable(t) && p !in s.spaces
    requires t == s.(spaces := s.spaces[p := Space(areas, {}, {})])
    ensures Abstract(t) == Abstract(s)[p := Solo(areas, map[])]
  {
    hide Inv, Frames, Leaves, Assemble;
    FramesAndLeaves(s);
    AreasOfUpdate(s.spaces, p, Space(areas, {}, {}));
    assert Look(t) == Look(s);
    assert forall l :: l in Look(s) ==> l in s.ptes;
    AssembleSpawn(AreasOf(s.spaces), Look(s), p, areas);
  }

  // ---- what one event must establish ----

  /** A write fault at addr finds a shared page that is readable although its area cannot be
      written, or the other way round; it will get its permissions from the area. */
  predicate Spoiling(s: State, p: nat, addr: nat) {
    && p in s.spaces && PageOf(p, addr) in s.ptes && Scan(s.spaces[p].areas, addr).Some?
    && var leaf := s.ptes[PageOf(p, addr)];
    && leaf.frame in s.refs && s.refs[leaf.frame] != 1
    && !leaf.w && leaf.r != Scan(s.spaces[p].areas, addr).value.flags.write
  }

  predicate Spoils(s: State, ev: Event) {
    && ev.By? && (ev.act.Store? || (ev.act.Fault? && ev.act.write)) && Spoiling(s, ev.pid, ev.act.addr)
  }

  /** Memory is lacking only if at most one page is free, or a fork cannot have its structures;
      a page that appears shows what a free page held; a fork that goes through met no hole. */
  ghost predicate Explained(s: State, t: State, ev: Event, out: Outcome) {
    && (out.OutOfMemory? ==>
          |t.free| <= 1 || (ev.Fork? && ev.pid in s.spaces && ev.room < 2 + |s.spaces[ev.pid].areas|))
    && (out.Appeared? ==> exists f :: f in s.free && f in s.mem && out.data == s.mem[f])
    && (ev.Fork? && out.Ok? ==> Forkable(s, ev.pid))
  }

  ghost predicate Simulates(s: State, t: State, ev: Event, out: Outcome) {
    && Inv(s) && Inv(t)
    && EventAllowed(Abstract(s), ev, out) && Abstract(t) == Step(Abstract(s), ev, out)
    && Explained(s, t, ev, out) && (Spoils(s, ev) ==> out.OutOfMemory?)
  }

  /** Every load, by every process, is answered the same. */
  ghost predicate SameLoads(a: Eager, b: Eager) {
    forall p: nat, addr: nat :: LoadReply(Find(a, p), addr) == LoadReply(Find(b, p), addr)
  }

  /** What a store or fault on a page that is there is answered when memory is not lacking. */
  function Meant(s: State, ev: Event): Outcome
    requires Spoils(s, ev)
  {
    if ev.act.Store? && !s.ptes[PageOf(ev.pid, ev.act.addr)].r then Faulted else Ok
  }

  /** The machine goes on, but some load is answered differently from now on. */
  ghost predicate Parted(s: State, t: State, ev: Event) {
    && Inv(s) && Inv(t) && Spoils(s, ev)
    && EventAllowed(Abstract(s), ev, Meant(s, ev))
    && !SameLoads(Abstract(t), Step(Abstract(s), ev, Meant(s, ev)))
  }

  /** A place is executable only if it was, or if it is a copy of one of the parent, or if a page was
      installed there in an executable area. */
  ghost predicate ExecKept(s: State, t: State, ev: Event, out: Outcome) {
    forall l :: l in t.ptes && t.ptes[l].x ==>
      || (l in s.ptes && s.ptes[l].x)
      || (ev.Fork? && out.Ok? && l.pid == ev.child && Place(ev.pid, l.vpn) in s.ptes && s.ptes[Place(ev.pid, l.vpn)].x)
      || Installs(s, ev, out, l)
  }

  ghost predicate Installs(s: State, ev: Event, out: Outcome, l: Place) {
    && ev.By? && ev.act.Install? && out.Ok? && l == PageOf(ev.pid, ev.act.addr)
    && ev.pid in s.spaces && FlagsAt(s.spaces[ev.pid].areas, ev.act.addr).exec
  }

  lemma OneEntryExec(s: State, t: State, l: Place, leaf: Leaf, ev: Event, out: Outcome)
    requires t.ptes == s.ptes || t.ptes == s.ptes[l := leaf]
    requires leaf.x ==> (l in s.ptes && s.ptes[l].x) || Installs(s, ev, out, l)
    ensures ExecKept(s, t, ev, out)
  {
    hide Installs;
  }

  /** At most the entry at l is another one, and it is not executable unless it was. */
  ghost predicate OneEntry(s: State, t: State, l: Place) {
    || t.ptes == s.ptes
    || (l in t.ptes && t.ptes == s.ptes[l := t.ptes[l]] && (t.ptes[l].x ==> l in s.ptes && s.ptes[l].x))
  }

  lemma SameEntries(s: State, t: State, l: Place)
    requires t.ptes == s.ptes
    ensures OneEntry(s, t, l)
  {
  }

  lemma FaultedEntry(s: State, t: State, u: State, l: Place, write: bool, writable: bool, leaf: Leaf)
    requires Inv(s) && Inv(t) && t.ptes == s.ptes[l := leaf] && u.ptes == t.ptes
    requires if l in s.ptes then EntryAfterFault(s, l, write, writable, leaf) else AppearsFrom(s, t, l, writable, leaf)
    ensures OneEntry(s, u, l)
  {
    hide EntryAfterFault, AppearsFrom;
    FaultExec(s, t, l, write, writable, leaf);
  }

  lemma OneEntryKeepsExec(s: State, t: State, l: Place, ev: Event, out: Outcome)
    requires OneEntry(s, t, l)
    ensures ExecKept(s, t, ev, out)
  {
  }

  lemma FewerExec(s: State, t: State, ev: Event, out: Outcome)
    requires SameFrames(s.ptes, t.ptes)
    ensures ExecKept(s, t, ev, out)
  {
  }

  lemma ForkExec(s: State, t: State, p: nat, q: nat, room: nat)
    requires SameFrames(s.ptes, Without(t.ptes, q)) && ReadOnlyCopies(s.ptes, t.ptes, p, q)
    ensures ExecKept(s, t, Event.Fork(p, q, room), Ok)
  {
    forall l | l in t.ptes && t.ptes[l].x
      ensures (l in s.ptes && s.ptes[l].x) ||
              (l.pid == q && Place(p, l.vpn) in s.ptes && s.ptes[Place(p, l.vpn)].x)
    {
      if l.pid == q { assert Place(q, l.vpn) == l; } else { assert l in Without(t.ptes, q); }
    }
  }

  /** A fault never makes a page executable. */
  lemma FaultExec(s: State, t: State, l: Place, write: bool, writable: bool, leaf: Leaf)
    requires Inv(s) && Inv(t)
    requires if l in s.ptes then EntryAfterFault(s, l, write, writable, leaf) else AppearsFrom(s, t, l, writable, leaf)
    ensures leaf.x ==> l in s.ptes && s.ptes[l].x
  {
  }

  lemma NothingHappened(s: State, t: State, ev: Event, out: Outcome)
    requires Abstractable(s) && Abstractable(t)
    requires SameAreas(s.spaces, t.spaces) && Data(t) == Data(s) && SameFrames(s.ptes, t.ptes)
    requires EventAllowed(Abstract(s), ev, out) && Step(Abstract(s), ev, out) == Abstract(s)
    requires Explained(s, t, ev, out) && (Spoils(s, ev) ==> out.OutOfMemory?)
    ensures Simulates(s, t, ev, out)
  {
    hide Inv, Frames, Leaves, Data, SameAreas, SameFrames;
    AbstractSame(s, t);
  }

  lemma Reflexive(s: State)
    requires Inv(s)
    ensures Abstractable(s) && SameAreas(s.spaces, s.spaces) && SameFrames(s.ptes, s.ptes)
  {
    hide Inv;
    FramesAndLeaves(s);
  }

  /** What a page's entry says is also what its area says. */
  lemma PresentHasArea(s: State, p: nat, addr: nat)
    requires Inv(s) && PageOf(p, addr) in s.ptes
    ensures p in s.spaces && Scan(s.spaces[p].areas, addr).Some?
  {
    hide Frames, Leaves, Counted, Exclusive;
    var a :| a in s.spaces[p].areas && Covers(a, addr / PGSIZE);
    assert a.Contains(addr);
  }

  /** How a run may end: a fork never returns, an assertion fails, or loads stop being answered
      as they should be. */
  datatype Ended = GoesOn | Hangs | Panics | Diverges

  method StepFork(k: Kernel, p: nat, q: nat, room: nat) returns (out: Outcome, ended: Ended)
    requires Inv(k.View())
    modifies k
    ensures ended == GoesOn ==> Simulates(old(k.View()), k.View(), Event.Fork(p, q, room), out)
    ensures ended == Hangs ==> p in old(k.spaces) && q !in old(k.spaces) && !Forkable(old(k.View()), p)
    ensures ended == Panics ==> p in old(k.spaces) && q !in old(k.spaces) && k.free == {}
    ensures ended != Diverges
    ensures ended == GoesOn ==> ExecKept(old(k.View()), k.View(), Event.Fork(p, q, room), out)
  {
    hide ExecKept;
    hide Inv, Simulates, Forkable, SameAreas, Data, ForkData, ReadOnlyCopies, SameFrames, Frames, Leaves, Abstract;
    ghost var s, ev := k.View(), Event.Fork(p, q, room);
    Reflexive(s);
    AbstractAt(s, p, 0);
    AbstractAt(s, q, 0);
    if p !in k.spaces || q in k.spaces {
      NothingHappened(s, s, ev, Refused);
      FewerExec(s, s, ev, Refused);
      return Refused, GoesOn;
    }
    var r := k.Fork(p, q, room);
    Reflexive(k.View());
    match r {
      case Spins => return Refused, Hangs;
      case Panic => return Refused, Panics;
      case NoMem =>
        NothingHappened(s, k.View(), ev, OutOfMemory);
        FewerExec(s, k.View(), ev, OutOfMemory);
        return OutOfMemory, GoesOn;
      case Done =>
        ForkExec(s, k.View(), p, q, room);
        ForkSimulates(s, k.View(), p, q, room);
        return Ok, GoesOn;
    }
  }

  lemma ForkSimulates(s: State, t: State, p: nat, q: nat, room: nat)
    requires Abstractable(s) && Abstractable(t) && p in s.spaces && q !in s.spaces
    requires Data(t) == ForkData(Data(s), p, q) && SameAreas(s.spaces[q := s.spaces[p]], t.spaces)
    requires SameFrames(s.ptes, Without(t.ptes, q)) && ReadOnlyCopies(s.ptes, t.ptes, p, q) && Forkable(s, p)
    ensures Simulates(s, t, Event.Fork(p, q, room), Ok)
  {
    hide Forkable, Inv, Frames, Leaves, Data, SameFrames, ReadOnlyCopies, ForkData, SameAreas, Abstract;
    AbstractFork(s, t, p, q);
  }

  method StepSpawn(k: Kernel, p: nat, areas: seq<Area>) returns (out: Outcome)
    requires Inv(k.View())
    modifies k
    ensures Simulates(old(k.View()), k.View(), By(p, Act.Spawn(areas)), out)
    ensures k.ptes == old(k.ptes)
  {
    hide Inv, Frames, Leaves, Data, SameAreas, SameFrames, Abstract, Sorted, Aligned;
    ghost var s, ev := k.View(), By(p, Act.Spawn(areas));
    Reflexive(s);
    AbstractAt(s, p, 0);
    if p in k.spaces || !AreSorted(areas) || !Aligned(areas) {
      NothingHappened(s, s, ev, Refused);
      return Refused;
    }
    k.Spawn(p, areas);
    Reflexive(k.View());
    AbstractSpawn(s, k.View(), p, areas);
    out := Ok;
  }

  method StepInstall(k: Kernel, p: nat, addr: nat, data: Bytes) returns (out: Outcome)
    requires Inv(k.View())
    modifies k
    ensures Simulates(old(k.View()), k.View(), By(p, Act.Install(addr, data)), out)
    ensures ExecKept(old(k.View()), k.View(), By(p, Act.Install(addr, data)), out)
    ensures out.Ok? ==>
      && p in old(k.spaces) && PageOf(p, addr) in k.ptes
      && var flags, leaf := FlagsAt(old(k.spaces)[p].areas, addr), k.ptes[PageOf(p, addr)];
         leaf == Leaf(leaf.frame, flags.read || flags.write, flags.write, flags.exec)
  {
    hide ExecKept, Inv, Frames, Leaves, Data, SameAreas, SameFrames, Abstract, Scan, InArea;
    ghost var s, ev := k.View(), By(p, Act.Install(addr, data));
    Reflexive(s);
    AbstractAt(s, p, addr);
    if p !in k.spaces || Scan(k.spaces[p].areas, addr).None? || |data| != PGSIZE {
      NothingHappened(s, s, ev, Refused);
      FewerExec(s, s, ev, Refused);
      return Refused;
    }
    var flags := Scan(k.spaces[p].areas, addr).value.flags;
    AreaOfAddress(s, p, addr);
    var ok;
    ghost var leaf;
    ok, leaf := k.Install(PageOf(p, addr), flags.read || flags.write, flags.write, flags.exec, data);
    Reflexive(k.View());
    if ok {
      AbstractUpdate(s, k.View(), p, addr, leaf, data);
      out := Ok;
      OneEntryExec(s, k.View(), PageOf(p, addr), leaf, ev, out);
    } else {
      NothingHappened(s, k.View(), ev, OutOfMemory);
      out := OutOfMemory;
      SameEntries(s, k.View(), PageOf(p, addr));
      OneEntryKeepsExec(s, k.View(), PageOf(p, addr), ev, out);
    }
  }

  method StepLoad(k: Kernel, p: nat, addr: nat) returns (out: Outcome)
    requires Inv(k.View())
    ensures Simulates(k.View(), k.View(), By(p, Act.Load(addr)), out)
  {
    hide Inv, Frames, Leaves, Data, SameAreas, SameFrames, Abstract;
    ghost var s, ev := k.View(), By(p, Act.Load(addr));
    Reflexive(s);
    AbstractAt(s, p, addr);
    if p !in k.spaces {
      out := Refused;
    } else {
      var b := k.Load(p, addr);
      out := if b.Some? then Value(b.value) else Faulted;
    }
    NothingHappened(s, s, ev, out);
  }

  method StepStore(k: Kernel, p: nat, addr: nat, b: bv8) returns (out: Outcome, ended: Ended)
    requires Inv(k.View())
    modifies k
    ensures ended == GoesOn ==> Simulates(old(k.View()), k.View(), By(p, Act.Store(addr, b)), out)
    ensures ended == Diverges ==> Parted(old(k.View()), k.View(), By(p, Act.Store(addr, b)))
    ensures ended in {GoesOn, Diverges}
    ensures OneEntry(old(k.View()), k.View(), PageOf(p, addr))
  {
    hide OneEntry, Inv, Frames, Leaves, Data, SameAreas, SameFrames, Abstract, Scan, EntryAfterFault, Simulates, Parted;
    ghost var s, ev := k.View(), By(p, Act.Store(addr, b));
    var l := PageOf(p, addr);
    Reflexive(s);
    AbstractAt(s, p, addr);
    ended := GoesOn;
    if l !in k.ptes {
      out := if p in k.spaces then Faulted else Refused;
      NothingHappened(s, s, ev, out);
      SameEntries(s, s, l);
      return;
    }
    PresentHasArea(s, p, addr);
    DataAt(s, l);
    var ok := k.Store(p, addr, b);
    Reflexive(k.View());
    if ok {
      StoreSimulates(s, k.View(), p, addr, b, s.ptes[l]);
      SameEntries(s, k.View(), l);
      return Ok, GoesOn;
    }
    var spoiling := Spoiling(k.View(), p, addr);
    var r;
    ghost var leaf;
    r, leaf := k.PgFault(p, addr, true);
    ghost var mid := k.View();
    Reflexive(mid);
    if r != Done {
      NothingHappened(s, mid, ev, OutOfMemory);
      SameEntries(s, mid, l);
      return OutOfMemory, GoesOn;
    }
    FaultedReadable(s, p, addr, leaf);
    ok := k.Store(p, addr, b);
    FaultedEntry(s, mid, k.View(), l, true, Scan(s.spaces[p].areas, addr).value.flags.write, leaf);
    Reflexive(k.View());
    if spoiling {
      LoadsDiffer(s, k.View(), p, addr, ev);
      return if ok then Ok else Faulted, Diverges;
    }
    if ok {
      UpdateAgain(Data(s), l, Data(s)[l][addr % PGSIZE := b]);
      StoreSimulates(s, k.View(), p, addr, b, leaf);
      out := Ok;
    } else {
      FaultSimulates(s, k.View(), p, addr, leaf, ev, Faulted);
      out := Faulted;
    }
  }

  lemma UpdateAgain<V>(m: map<Place, V>, l: Place, c: V)
    ensures m[l := c][l := c] == m[l := c]
  {
  }

  /** A store that goes through, on a page that stays as readable as it was. */
  lemma StoreSimulates(s: State, t: State, p: nat, addr: nat, b: bv8, leaf: Leaf)
    requires Abstractable(s) && Abstractable(t) && p in s.spaces && PageOf(p, addr) in s.ptes
    requires SameAreas(s.spaces, t.spaces) && t.ptes == s.ptes[PageOf(p, addr) := leaf]
    requires leaf.r && s.ptes[PageOf(p, addr)].r && !Spoiling(s, p, addr)
    requires |Data(s)[PageOf(p, addr)]| == PGSIZE
    requires Data(t) == Data(s)[PageOf(p, addr) := Data(s)[PageOf(p, addr)][addr % PGSIZE := b]]
    ensures Simulates(s, t, By(p, Act.Store(addr, b)), Ok)
  {
    hide Inv, Frames, Leaves, Data, SameAreas, Abstract, Spoiling;
    AbstractAt(s, p, addr);
    DataAt(s, PageOf(p, addr));
    AbstractUpdate(s, t, p, addr, leaf, Data(s)[PageOf(p, addr)][addr % PGSIZE := b]);
  }

  /** Whether a page can be read changes only in a spoiling fault. */
  lemma FaultedReadable(s: State, p: nat, addr: nat, leaf: Leaf)
    requires Inv(s) && PageOf(p, addr) in s.ptes && p in s.spaces && Scan(s.spaces[p].areas, addr).Some?
    requires leaf.r == ReadableAfterFault(s, PageOf(p, addr), true, Scan(s.spaces[p].areas, addr).value.flags.write)
    ensures leaf.r == s.ptes[PageOf(p, addr)].r <==> !Spoiling(s, p, addr)
  {
    hide Inv, Scan;
    DataAt(s, PageOf(p, addr));
  }

  /** Only the permissions of one entry have changed, and it is as readable as before. */
  lemma FaultSimulates(s: State, t: State, p: nat, addr: nat, leaf: Leaf, ev: Event, out: Outcome)
    requires Abstractable(s) && Abstractable(t) && p in s.spaces && PageOf(p, addr) in s.ptes
    requires SameAreas(s.spaces, t.spaces) && t.ptes == s.ptes[PageOf(p, addr) := leaf]
    requires leaf.r == s.ptes[PageOf(p, addr)].r && !Spoils(s, ev) && Data(t) == Data(s)
    requires EventAllowed(Abstract(s), ev, out) && Step(Abstract(s), ev, out) == Abstract(s)
    requires ev.By? && (out == Ok || out == Faulted)
    ensures Simulates(s, t, ev, out)
  {
    hide Inv, Frames, Leaves, Data, SameAreas, Abstract, Spoils, EventAllowed, Step;
    DataAt(s, PageOf(p, addr));
    AbstractAt(s, p, addr);
    assert Data(s) == Data(s)[PageOf(p, addr) := Data(s)[PageOf(p, addr)]];
    AbstractUpdate(s, t, p, addr, leaf, Data(s)[PageOf(p, addr)]);
    SamePage(Abstract(s), p, addr);
  }

  lemma SamePage(e: Eager, p: nat, addr: nat)
    requires p in e && addr / PGSIZE in e[p].pages
    ensures e[p := WithPage(e[p], addr, e[p].pages[addr / PGSIZE])] == e
  {
    assert e[p].pages[addr / PGSIZE := e[p].pages[addr / PGSIZE]] == e[p].pages;
  }

  lemma LoadsDiffer(s: State, t: State, p: nat, addr: nat, ev: Event)
    requires Inv(s) && Inv(t) && Spoils(s, ev) && ev.pid == p && ev.act.addr == addr
    requires PageOf(p, addr) in t.ptes && t.ptes[PageOf(p, addr)].r != s.ptes[PageOf(p, addr)].r
    ensures Parted(s, t, ev)
  {
    hide Inv, Frames, Leaves, Data, Abstract, SameLoads;
    AbstractAt(s, p, addr);
    AbstractAt(t, p, addr);
    assert LoadReply(Find(Abstract(t), p), addr) != LoadReply(Find(Step(Abstract(s), ev, Meant(s, ev)), p), addr);
    LoadsWitness(Abstract(t), Step(Abstract(s), ev, Meant(s, ev)), p, addr);
  }

  lemma LoadsWitness(a: Eager, b: Eager, p: nat, addr: nat)
    requires LoadReply(Find(a, p), addr) != LoadReply(Find(b, p), addr)
    ensures !SameLoads(a, b)
  {
  }

  method StepFault(k: Kernel, p: nat, addr: nat, write: bool) returns (out: Outcome, ended: Ended)
    requires Inv(k.View())
    modifies k
    ensures ended == GoesOn ==> Simulates(old(k.View()), k.View(), By(p, Act.Fault(addr, write)), out)
    ensures ended == Diverges ==> Parted(old(k.View()), k.View(), By(p, Act.Fault(addr, write)))
    ensures ended in {GoesOn, Diverges}
    ensures OneEntry(old(k.View()), k.View(), PageOf(p, addr))
  {
    hide OneEntry, Inv, Frames, Leaves, Data, SameAreas, SameFrames, Abstract, Scan, EntryAfterFault, Simulates, Parted;
    ghost var s, ev := k.View(), By(p, Act.Fault(addr, write));
    var l := PageOf(p, addr);
    Reflexive(s);
    AbstractAt(s, p, addr);
    ended := GoesOn;
    SameEntries(s, s, l);
    if p !in k.spaces {
      NothingHappened(s, s, ev, Refused);
      return Refused, GoesOn;
    }
    if Scan(k.spaces[p].areas, addr).None? {
      NothingHappened(s, s, ev, NoArea);
      return NoArea, GoesOn;
    }
    var present := l in k.ptes;
    if present { DataAt(s, l); }
    var spoiling := write && Spoiling(k.View(), p, addr);
    var r;
    ghost var leaf;
    r, leaf := k.PgFault(p, addr, write);
    ghost var t := k.View();
    Reflexive(t);
    if r != Done {
      SameEntries(s, t, l);
    } else {
      FaultedEntry(s, t, t, l, write, Scan(s.spaces[p].areas, addr).value.flags.write, leaf);
    }
    if r != Done {
      NothingHappened(s, t, ev, OutOfMemory);
      out := OutOfMemory;
    } else if present {
      if write { FaultedReadable(s, p, addr, leaf); }
      out := Ok;
      if spoiling {
        LoadsDiffer(s, t, p, addr, ev);
        ended := Diverges;
      } else {
        FaultSimulates(s, t, p, addr, leaf, ev, Ok);
      }
    } else {
      DataAt(t, l);
      out := Appeared(k.mem[k.ptes[l].frame]);
      AppearSimulates(s, t, p, addr, write, leaf, k.mem[k.ptes[l].frame]);
    }
  }

  lemma AppearSimulates(s: State, t: State, p: nat, addr: nat, write: bool, leaf: Leaf, c: Bytes)
    requires Abstractable(s) && Abstractable(t) && p in s.spaces && PageOf(p, addr) !in s.ptes
    requires Scan(s.spaces[p].areas, addr).Some? && |c| == PGSIZE
    requires SameAreas(s.spaces, t.spaces) && t.ptes == s.ptes[PageOf(p, addr) := leaf]
    requires leaf.r == Scan(s.spaces[p].areas, addr).value.flags.write
    requires leaf.frame in s.free && leaf.frame in s.mem && t.mem == s.mem && c == s.mem[leaf.frame]
    requires Data(t) == Data(s)[PageOf(p, addr) := c]
    ensures Simulates(s, t, By(p, Act.Fault(addr, write)), Appeared(c))
  {
    hide Inv, Frames, Leaves, Data, Scan, SameAreas, Abstract;
    AbstractAt(s, p, addr);
    AbstractUpdate(s, t, p, addr, leaf, c);
  }

  method StepExit(k: Kernel, p: nat) returns (out: Outcome)
    requires Inv(k.View())
    modifies k
    ensures Simulates(old(k.View()), k.View(), By(p, Act.Exit), out)
    ensures k.ptes == old(k.ptes) || k.ptes == Without(old(k.ptes), p)
  {
    hide Inv, Frames, Leaves, Data, SameAreas, SameFrames, Abstract;
    ghost var s, ev := k.View(), By(p, Act.Exit);
    Reflexive(s);
    AbstractAt(s, p, 0);
    if p !in k.spaces {
      NothingHappened(s, s, ev, Refused);
      return Refused;
    }
    k.Exit(p);
    Reflexive(k.View());
    AbstractExit(s, k.View(), p);
    out := Ok;
  }

  // ---- whole runs ----

  /** Any event, with the exact reason why a run may end with it. */
  method StepAny(k: Kernel, ev: Event) returns (out: Outcome, ended: Ended)
    requires Inv(k.View())
    modifies k
    ensures ended == GoesOn ==> Simulates(old(k.View()), k.View(), ev, out)
    ensures ended == GoesOn ==> ExecKept(old(k.View()), k.View(), ev, out)
    ensures EndsFor(old(k.View()), k.View(), ev, ended)
  {
    hide Inv, Simulates, Parted, Forkable, ExecKept, OneEntry, Without;
    ghost var s := k.View();
    ended := GoesOn;
    match ev {
      case Fork(p, q, room) => out, ended := StepFork(k, p, q, room);
      case By(p, act) =>
        match act {
          case Spawn(areas) =>
            out := StepSpawn(k, p, areas);
            FewerEntriesExec(s, k.View(), p, ev, out);
          case Install(addr, data) => out := StepInstall(k, p, addr, data);
          case Load(addr) =>
            out := StepLoad(k, p, addr);
            FewerEntriesExec(s, k.View(), p, ev, out);
          case Store(addr, b) =>
            out, ended := StepStore(k, p, addr, b);
            OneEntryKeepsExec(s, k.View(), PageOf(p, addr), ev, out);
          case Fault(addr, write) =>
            out, ended := StepFault(k, p, addr, write);
            OneEntryKeepsExec(s, k.View(), PageOf(p, addr), ev, out);
          case Exit =>
            out := StepExit(k, p);
            FewerEntriesExec(s, k.View(), p, ev, out);
        }
    }
  }

  lemma FewerEntriesExec(s: State, t: State, p: nat, ev: Event, out: Outcome)
    requires t.ptes == s.ptes || t.ptes == Without(s.ptes, p)
    ensures ExecKept(s, t, ev, out)
  {
  }

  /** A fork hangs at a hole, panics without a free page; loads go wrong after a spoiling fault. */
  ghost predicate EndsFor(s: State, t: State, ev: Event, ended: Ended) {
    match ended
    case GoesOn => true
    case Diverges => Parted(s, t, ev) && OneEntry(s, t, PageOf(ev.pid, ev.act.addr))
    case Hangs => ev.Fork? && ev.pid in s.spaces && ev.child !in s.spaces && !Forkable(s, ev.pid)
    case Panics => ev.Fork? && ev.pid in s.spaces && ev.child !in s.spaces && t.free == {}
  }

  /** states[i] is the kernel before event i. */
  ghost predicate Traced(states: seq<State>, events: seq<Event>, outs: seq<Outcome>) {
    && |events| == |outs| && |states| == |outs| + 1
    && (forall i :: 0 <= i < |states| ==> Inv(states[i]))
    && (forall i :: 0 <= i < |outs| ==> TracedAt(states, events, outs, i))
  }

  ghost predicate TracedAt(states: seq<State>, events: seq<Event>, outs: seq<Outcome>, i: nat)
    requires i < |events| == |outs| && |states| == |outs| + 1
  {
    && Simulates(states[i], states[i + 1], events[i], outs[i])
    && ExecKept(states[i], states[i + 1], events[i], outs[i])
  }

  /** A traced run is a run of the reference machine, state by state. */
  lemma {:induction false} TracedIsExecuted(states: seq<State>, events: seq<Event>, outs: seq<Outcome>)
    requires Traced(states, events, outs)
    ensures Abstract(states[|outs|]) == Execute(Abstract(states[0]), events, outs)
    ensures AllAllowed(Abstract(states[0]), events, outs)
  {
    hide Inv, Simulates, Abstract, EventAllowed, Step, ExecKept;
    if events != [] {
      var n := |events| - 1;
      var us, es, os := states[..n + 1], events[..n], outs[..n];
      forall i | 0 <= i < n ensures TracedAt(us, es, os, i) {
        assert TracedAt(states, events, outs, i);
      }
      TracedIsExecuted(states[..n + 1], events[..n], outs[..n]);
      assert TracedAt(states, events, outs, n);
      SimulatesMeans(states[n], states[n + 1], events[n], outs[n]);
      OneMoreEvent(Abstract(states[0]), events, outs);
    }
  }

  lemma SimulatesMeans(s: State, t: State, ev: Event, out: Outcome)
    requires Simulates(s, t, ev, out)
    ensures Inv(s) && Inv(t) && EventAllowed(Abstract(s), ev, out) && Abstract(t) == Step(Abstract(s), ev, out)
  {
  }

  lemma OneMoreEvent(e: Eager, events: seq<Event>, outs: seq<Outcome>)
    requires 0 < |events| == |outs|
    requires var n := |events| - 1;
             && AllAllowed(e, events[..n], outs[..n])
             && EventAllowed(Execute(e, events[..n], outs[..n]), events[n], outs[n])
    ensures AllAllowed(e, events, outs)
  {
    hide EventAllowed, Execute;
    var n := |events| - 1;
    forall j | 0 <= j < |events| ensures EventAllowed(Execute(e, events[..j], outs[..j]), events[j], outs[j]) {
      if j < n {
        assert events[..j] == events[..n][..j] && outs[..j] == outs[..n][..j];
      }
    }
  }

  /** Main result: every run is, answer by answer and state by state, one of the machine of
      private copies, up to an event after which the kernel hangs, has panicked, or answers some
      load differently, each for its exact reason. */
  method Run(k: Kernel, events: seq<Event>)
    returns (outs: seq<Outcome>, ended: Ended, ghost states: seq<State>)
    requires Inv(k.View())
    modifies k
    ensures |outs| <= |events| && Traced(states, events[..|outs|], outs)
    ensures states[0] == old(k.View())
    ensures ended == GoesOn ==> |outs| == |events| && k.View() == states[|outs|]
    ensures ended != GoesOn ==>
      |outs| < |events| && EndsFor(states[|outs|], k.View(), events[|outs|], ended)
    ensures Abstract(states[|outs|]) == Execute(Abstract(states[0]), events[..|outs|], outs)
    ensures AllAllowed(Abstract(states[0]), events[..|outs|], outs)
  {
    hide Inv, Simulates, Parted, Abstract, EventAllowed, Step, EndsFor, AllAllowed, ExecKept;
    outs, ended, states := [], GoesOn, [k.View()];
    TracedIsExecuted(states, [], []);
    for i := 0 to |events|
      invariant |outs| == i && ended == GoesOn && Inv(k.View())
      invariant Traced(states, events[..i], outs)
      invariant states[0] == old(k.View()) && states[i] == k.View()
    {
      var out;
      out, ended := StepAny(k, events[i]);
      if ended != GoesOn {
        TracedIsExecuted(states, events[..i], outs);
        return;
      }
      OneMoreStep(states, events, outs, i, k.View(), out);
      outs, states := outs + [out], states + [k.View()];
    }
    TracedIsExecuted(states, events[..|events|], outs);
  }

  lemma OneMoreStep(states: seq<State>, events: seq<Event>, outs: seq<Outcome>, i: nat, t: State, out: Outcome)
    requires i < |events| && |outs| == i && Traced(states, events[..i], outs)
    requires Simulates(states[i], t, events[i], out) && ExecKept(states[i], t, events[i], out)
    ensures Inv(t) && Traced(states + [t], events[..i + 1], outs + [out])
  {
    hide Inv, Simulates, ExecKept;
    SimulatesMeans(states[i], t, events[i], out);
    var us, es, os := states + [t], events[..i + 1], outs + [out];
    forall j | 0 <= j <= i ensures TracedAt(us, es, os, j) {
      if j < i { assert TracedAt(states, events[..i], outs, j); }
    }
  }

  // ---- where executable pages come from ----

  ghost predicate Installed(states: seq<State>, events: seq<Event>, outs: seq<Outcome>, vpn: nat) {
    exists i :: 0 <= i < |events| && InstalledAt(states, events, outs, i, vpn)
  }

  ghost predicate InstalledAt(states: seq<State>, events: seq<Event>, outs: seq<Outcome>, i: nat, vpn: nat) {
    && i < |events| && i < |outs| && i < |states| && events[i].By?
    && Installs(states[i], events[i], outs[i], Place(events[i].pid, vpn))
  }

  ghost predicate Executable(s: State, l: Place) {
    l in s.ptes && s.ptes[l].x
  }

  /** Main result: over any run, a page can be executed only if a page was installed at its
      address in an executable area during the run, or if its process, or the ancestor that it
      was forked from, could execute it at the start.  No fault, fork or store makes code. */
  lemma {:induction false} CodeIsInstalled(states: seq<State>, events: seq<Event>, outs: seq<Outcome>, l: Place)
    requires Traced(states, events, outs) && Executable(states[|outs|], l)
    ensures Installed(states, events, outs, l.vpn)
            || Executable(states[0], Place(LineageOf(events, outs, l.pid).root, l.vpn))
  {
    hide Inv, Simulates, Installs, Executable;
    if events == [] {
      assert l == Place(l.pid, l.vpn);
    } else {
      var n := |events| - 1;
      var us, es, os := states[..n + 1], events[..n], outs[..n];
      forall i | 0 <= i < n ensures TracedAt(us, es, os, i) { assert TracedAt(states, events, outs, i); }
      assert TracedAt(states, events, outs, n);
      var parent := Copied(events[n], outs[n], l);
      ExecBefore(states[n], states[n + 1], events[n], outs[n], l);
      if Executable(states[n], parent) {
        CodeIsInstalled(us, es, os, parent);
        RootBefore(events, outs, l);
        if Installed(us, es, os, l.vpn) { StillInstalled(states, events, outs, l.vpn); }
      } else {
        assert InstalledAt(states, events, outs, n, l.vpn);
      }
    }
  }

  /** The place that l is a copy of, if the event made it one. */
  function Copied(ev: Event, out: Outcome, l: Place): Place {
    if ev.Fork? && out.Ok? && l.pid == ev.child then Place(ev.pid, l.vpn) else l
  }

  lemma ExecBefore(s: State, t: State, ev: Event, out: Outcome, l: Place)
    requires Simulates(s, t, ev, out) && ExecKept(s, t, ev, out) && Executable(t, l)
    ensures Executable(s, Copied(ev, out, l)) || (ev.By? && Installs(s, ev, out, Place(ev.pid, l.vpn)))
  {
    hide Inv, Abstract, Step, Explained, Spoils;
    if ev.Fork? && out.Ok? && l.pid == ev.child { AbsentBefore(s, ev, out, l); }
  }

  lemma AbsentBefore(s: State, ev: Event, out: Outcome, l: Place)
    requires Inv(s) && EventAllowed(Abstract(s), ev, out) && ev.Fork? && out.Ok? && l.pid == ev.child
    ensures l !in s.ptes
  {
    hide Inv;
    AbstractAt(s, ev.child, l.vpn * PGSIZE);
    assert PageOf(ev.child, l.vpn * PGSIZE) == l;
  }

  lemma RootBefore(events: seq<Event>, outs: seq<Outcome>, l: Place)
    requires 0 < |events| == |outs|
    ensures var n := |events| - 1;
            LineageOf(events, outs, l.pid).root
            == LineageOf(events[..n], outs[..n], Copied(events[n], outs[n], l).pid).root
  {
  }

  lemma StillInstalled(states: seq<State>, events: seq<Event>, outs: seq<Outcome>, vpn: nat)
    requires 0 < |events| == |outs| && |states| == |outs| + 1
    requires var n := |events| - 1; Installed(states[..n + 1], events[..n], outs[..n], vpn)
    ensures Installed(states, events, outs, vpn)
  {
    hide Installs;
    var n := |events| - 1;
    var i :| 0 <= i < n && InstalledAt(states[..n + 1], events[..n], outs[..n], i, vpn);
    assert InstalledAt(states, events, outs, i, vpn);
  }

  // ---- writable areas ----

  /** If every page of a writable area can be read, a store there never spoils anything. */
  lemma ReadableHere(s: State, p: nat, addr: nat)
    requires Inv(s) && AllReadable(Abstract(s)) && PageOf(p, addr) in s.ptes
    requires p in s.spaces && FlagsAt(s.spaces[p].areas, addr).write
    ensures s.ptes[PageOf(p, addr)].r
  {
    hide Inv, Frames, Leaves, Data, Abstract, FlagsAt;
    AbstractAt(s, p, addr);
    SamePageSameFlags(s.spaces[p].areas, addr);
  }

  /** Where a run from such a state diverges, a readable page of an area without VM_WRITE was
      written. */
  lemma DivergesInReadOnlyArea(states: seq<State>, events: seq<Event>, outs: seq<Outcome>, t: State, ev: Event)
    requires Traced(states, events, outs) && AllReadable(Abstract(states[0]))
    requires Parted(states[|outs|], t, ev)
    ensures var s := states[|outs|];
            && !FlagsAt(s.spaces[ev.pid].areas, ev.act.addr).write
            && s.ptes[PageOf(ev.pid, ev.act.addr)].r && Meant(s, ev) == Ok
  {
    hide Inv, Abstract, AllReadable, AllAllowed, SameLoads, TracedAt;
    var s := states[|outs|];
    TracedIsExecuted(states, events, outs);
    RunKeepsReadable(Abstract(states[0]), events, outs);
    if FlagsAt(s.spaces[ev.pid].areas, ev.act.addr).write { ReadableHere(s, ev.pid, ev.act.addr); }
  }

  /** A store in a writable area, with the fault it may cause: unless memory runs out, the
      byte is stored, and nothing else that any process reads is different. */
  method StoreWithFault(k: Kernel, p: nat, addr: nat, b: bv8) returns (r: Result, ghost c: Bytes)
    requires Inv(k.View()) && AllReadable(Abstract(k.View())) && p in k.spaces
    requires Scan(k.spaces[p].areas, addr).Some? && Scan(k.spaces[p].areas, addr).value.flags.write
    modifies k
    ensures Inv(k.View()) && (r == Done || (r == NoMem && k.free == {}))
    ensures r == NoMem ==> Data(k.View()) == Data(old(k.View()))
    ensures r == Done ==>
      && |c| == PGSIZE && (PageOf(p, addr) in old(k.ptes) ==> c == Data(old(k.View()))[PageOf(p, addr)])
      && Data(k.View()) == Data(old(k.View()))[PageOf(p, addr) := c[addr % PGSIZE := b]]
  {
    hide Inv, Frames, Leaves, Data, Abstract, AllReadable, SameAreas, Scan, EntryAfterFault;
    ghost var s := k.View();
    FramesAndLeaves(s);
    var l := PageOf(p, addr);
    if l in k.ptes {
      DataAt(s, l);
      ReadableHere(s, p, addr);
    }
    var ok := k.Store(p, addr, b);
    if ok {
      return Done, Data(s)[l];
    }
    c := [];
    ghost var leaf;
    r, leaf := k.PgFault(p, addr, true);
    if r != Done { return; }
    ghost var t := k.View();
    DataAt(t, l);
    c := Data(t)[l];
    OverwritePage(Data(s), l, c, c[addr % PGSIZE := b]);
    ok := k.Store(p, addr, b);
    assert ok;
  }

  lemma OverwritePage(m: map<Place, Bytes>, l: Place, c: Bytes, d: Bytes)
    ensures m[l := c][l := d] == m[l := d]
  {
  }
}
