/**
  What one process can learn about the others.  By design nothing; but do_pgfault hands out
  pages without clearing them, so a page that appears shows what its last user left there.
 */
module CowIsolation {
  import opened Vma
  import opened CowState
  import opened CowEager
  import opened Cow
  import opened CowRun

  /** Main result, for any two runs of the kernel, whatever the other processes did in them: if
      the lineage of q starts from the same process and does the same, its own forks included, then
      q is answered the same and sees the same pages all along, if and only if the pages that
      appeared for it had the same contents, memory was lacking at the same times, and the pids
      its children asked for were taken at the same times. */
  lemma Isolation(states: seq<State>, events: seq<Event>, outs: seq<Outcome>,
                  states': seq<State>, events': seq<Event>, outs': seq<Outcome>, q: nat)
    requires Traced(states, events, outs) && Traced(states', events', outs')
    requires var a, b := LineageOf(events, outs, q), LineageOf(events', outs', q);
             a.acts == b.acts && Find(Abstract(states[0]), a.root) == Find(Abstract(states'[0]), b.root)
    ensures var a, b := LineageOf(events, outs, q), LineageOf(events', outs', q);
            && var v := Find(Abstract(states[0]), a.root);
            && (SameLife(v, a.acts, a.outs, b.outs) <==> SameChances(a.acts, a.outs, b.outs))
            && (SameChances(a.acts, a.outs, b.outs) ==>
                  a.outs == b.outs && Find(Abstract(states[|outs|]), q) == Find(Abstract(states'[|outs'|]), q))
  {
    hide Inv, Abstract, LineageOf, SameLife, SameChances, AllAllowed, TracedAt, Execute, SoloRun, SoloAllowed;
    TracedIsExecuted(states, events, outs);
    TracedIsExecuted(states', events', outs');
    Purge(Abstract(states[0]), events, outs, q);
    Purge(Abstract(states'[0]), events', outs', q);
    var a, b := LineageOf(events, outs, q), LineageOf(events', outs', q);
    SameLifeIffSameChances(Find(Abstract(states[0]), a.root), a.acts, a.outs, b.outs);
  }

  /** A page that appears shows what a page that was free at that time held. */
  lemma AppearedWasFree(states: seq<State>, events: seq<Event>, outs: seq<Outcome>, i: nat)
    requires Traced(states, events, outs) && i < |outs| && outs[i].Appeared?
    ensures exists f :: f in states[i].free && f in states[i].mem && outs[i].data == states[i].mem[f]
  {
    hide Inv, Abstract, EventAllowed, Step;
    assert TracedAt(states, events, outs, i);
  }

  // ---- bytes of another process ----

  /** p has one page, which it can write, and q lacks one; no page is free. */
  ghost predicate Poised(s: State, p: nat, q: nat, mine: nat, missing: nat) {
    && p in s.spaces && q in s.spaces && p != q && s.free == {}
    && PageOf(p, mine) in s.ptes && s.ptes[PageOf(p, mine)].r && s.ptes[PageOf(p, mine)].w
    && (forall l :: l in s.ptes && l.pid == p ==> l == PageOf(p, mine))
    && PageOf(q, missing) !in s.ptes && missing / PGSIZE / PTES in s.spaces[q].tables
    && Scan(s.spaces[q].areas, missing).Some? && Scan(s.spaces[q].areas, missing).value.flags.write
    && missing % PGSIZE == mine % PGSIZE
  }

  /** After p has gone, exactly its page is free. */
  lemma ItsPageIsFree(s: State, t: State, p: nat, l: Place)
    requires Inv(s) && Inv(t) && s.free == {} && l in s.ptes && l.pid == p && s.ptes[l].w
    requires forall k :: k in s.ptes && k.pid == p ==> k == l
    requires t.ptes == Without(s.ptes, p) && t.tabs == s.tabs && t.refs.Keys == s.refs.Keys && ReleasedExactly(s, t)
    ensures t.free == {s.ptes[l].frame}
  {
    hide Inv, Without, ReleasedExactly;
    var page := s.ptes[l].frame;
    forall f | f in t.free ensures f == page { FreeWasNamed(s, t, p, l, f); }
    WritableIsNamedOnce(s, l);
    DataAt(s, l);
    CountAt(s, page);
    if k :| k in Mappings(t.ptes, page) {
      WithoutIsPart(s.ptes, p, k);
      assert false;
    }
    CountAt(t, page);
    FreedAt(s, t, page);
  }

  lemma WritableIsNamedOnce(s: State, l: Place)
    requires Inv(s) && l in s.ptes && s.ptes[l].w
    ensures s.ptes[l].frame in s.refs && s.ptes[l].frame !in s.tabs && s.refs[s.ptes[l].frame] == 1
    ensures forall k :: k in s.ptes && s.ptes[k].frame == s.ptes[l].frame ==> k == l
  {
    forall k | k in s.ptes && s.ptes[k].frame == s.ptes[l].frame ensures k == l { SoleMapping(s, k, l); }
  }

  lemma FreedAt(s: State, t: State, f: nat)
    requires s.refs.Keys == t.refs.Keys && ReleasedExactly(s, t) && f in s.refs
    ensures f in t.free <==> f in s.free || (s.refs[f] > 0 && t.refs[f] == 0)
  {
  }

  lemma WithoutIsPart(m: map<Place, Leaf>, p: nat, k: Place)
    ensures k in Without(m, p) <==> k in m && k.pid != p
    ensures k in Without(m, p) ==> Without(m, p)[k] == m[k]
  {
  }

  lemma FreeWasNamed(s: State, t: State, p: nat, l: Place, f: nat)
    requires Inv(s) && Inv(t) && s.free == {} && l in s.ptes && f in t.free
    requires forall k :: k in s.ptes && k.pid == p ==> k == l
    requires t.ptes == Without(s.ptes, p) && t.tabs == s.tabs && t.refs.Keys == s.refs.Keys && ReleasedExactly(s, t)
    ensures f == s.ptes[l].frame
  {
    hide Inv, Without, ReleasedExactly, Mappings;
    FreeIsData(t, f);
    FreedAt(s, t, f);
    CountAt(s, f);
    var k :| k in Mappings(s.ptes, f);
    NamedAt(s.ptes, f, k);
    if k.pid != p {
      WithoutIsPart(s.ptes, p, k);
      NotFree(t, k);
    }
  }

  lemma NamedAt(m: map<Place, Leaf>, f: nat, k: Place)
    requires k in Mappings(m, f)
    ensures k in m && m[k].frame == f
  {
  }

  lemma NotFree(s: State, k: Place)
    requires Inv(s) && k in s.ptes
    ensures s.ptes[k].frame !in s.free
  {
  }

  lemma FreeIsData(s: State, f: nat)
    requires Inv(s) && f in s.free
    ensures f in s.refs && f !in s.tabs
  {
  }

  /** p stores a byte and exits; q touches its missing page and reads that byte. */
  method ReadsLeftover(k: Kernel, p: nat, q: nat, mine: nat, missing: nat, secret: bv8) returns (seen: Option<bv8>)
    requires Inv(k.View()) && Poised(k.View(), p, q, mine, missing)
    modifies k
    ensures Inv(k.View()) && seen == Some(secret)
  {
    hide Inv, Frames, Leaves, Data, Scan, SameAreas, EntryAfterFault, ReleasedExactly, Without;
    ghost var l := PageOf(p, mine);
    DataAt(k.View(), l);
    var ok := k.Store(p, mine, secret);
    ghost var s := k.View();
    DataAt(s, l);
    k.Exit(p);
    ItsPageIsFree(s, k.View(), p, l);
    WithoutIsPart(s.ptes, p, PageOf(q, missing));
    var r;
    ghost var leaf;
    r, leaf := k.PgFault(q, missing, true);
    DataAt(k.View(), PageOf(q, missing));
    seen := k.Load(q, missing);
  }

  const EXAMPLE := Area(USERBASE, USERBASE + 2 * PGSIZE, Flags(true, true, false, false))

  /** Such a state: processes 1 and 2 have an area each, 1 has a page in it, and the other four
      pages are tables. */
  function Example(page: Bytes): State {
    var block := USERBASE / PGSIZE / PTES;
    var space := Space([EXAMPLE], {block / PTES}, {block});
    State(map[0 := 1, 1 := 1, 2 := 1, 3 := 1, 4 := 1],
          map[0 := page, 1 := page, 2 := page, 3 := page, 4 := page],
          {}, {1, 2, 3, 4}, map[1 := space, 2 := space],
          map[PageOf(1, USERBASE) := Leaf(0, true, true, false)])
  }

  lemma ExampleIsValid(page: Bytes)
    requires |page| == PGSIZE
    ensures Inv(Example(page))
  {
    var s := Example(page);
    assert Frames(s) && Leaves(s);
    assert Counted(s) by {
      assert Mappings(s.ptes, 0) == {PageOf(1, USERBASE)};
    }
    assert Exclusive(s);
    assert Covers(EXAMPLE, USERBASE / PGSIZE);
  }

  lemma ExampleIsPoised(page: Bytes)
    ensures Poised(Example(page), 1, 2, USERBASE, USERBASE + PGSIZE)
  {
  }

  method Leak(secret: bv8) returns (seen: Option<bv8>)
    ensures seen == Some(secret)
  {
    hide Inv, Poised;
    var s := Example(seq(PGSIZE, _ => 0));
    ExampleIsValid(s.mem[0]);
    ExampleIsPoised(s.mem[0]);
    var k := new Kernel(map[]);
    k.refs, k.mem, k.free, k.tabs, k.spaces, k.ptes := s.refs, s.mem, s.free, s.tabs, s.spaces, s.ptes;
    assert k.View() == s == Example(s.mem[0]);
    seen := ReadsLeftover(k, 1, 2, USERBASE, USERBASE + PGSIZE, secret);
  }
}
