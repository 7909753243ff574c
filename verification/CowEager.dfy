/**
  A machine on which fork copies every page at once, so that each process has pages of its own
  and only its own acts change them.  It is what copy-on-write (lab5/cow) is meant to look like
  from outside; CowRun compares the kernel with it.
 */
module CowEager {
  import opened Vma
  import opened CowState

  /** What a process does.  A store includes the write fault it may cause on a page that is
      there; any fault may also come on its own. */
  datatype Act =
    | Spawn(areas: seq<Area>)
    | Install(addr: nat, data: Bytes)
    | Load(addr: nat)
    | Store(addr: nat, byte: bv8)
    | Fault(addr: nat, write: bool)
    | Exit

  /** room is how many small allocations a fork can make. */
  datatype Event = By(pid: nat, act: Act) | Fork(pid: nat, child: nat, room: nat)

  /** Refused is for a pid that is taken or dead and for malformed requests, NoArea for a fault
      outside all areas, Faulted for an access that does not go through, and Appeared for a page
      that demand paging has added. */
  datatype Outcome = Ok | Refused | NoArea | OutOfMemory | Faulted | Value(byte: bv8) | Appeared(data: Bytes)

  datatype Page = Page(bytes: Bytes, readable: bool)

  datatype Solo = Solo(areas: seq<Area>, pages: map<nat, Page>)

  type Eager = map<nat, Solo>

  // ---- one process ----

  function Find(e: Eager, p: nat): Option<Solo> {
    if p in e then Some(e[p]) else None
  }

  function Put(e: Eager, p: nat, v: Option<Solo>): Eager {
    match v
    case None => e - {p}
    case Some(w) => e[p := w]
  }

  function FlagsAt(areas: seq<Area>, addr: nat): Flags {
    var a := Scan(areas, addr);
    if a.Some? then a.value.flags else Flags(false, false, false, false)
  }

  predicate Holds(v: Solo, addr: nat) {
    addr / PGSIZE in v.pages && |v.pages[addr / PGSIZE].bytes| == PGSIZE
  }

  function WithPage(v: Solo, addr: nat, page: Page): Solo {
    v.(pages := v.pages[addr / PGSIZE := page])
  }

  function LoadReply(v: Option<Solo>, addr: nat): Outcome {
    if v.None? then Refused
    else if Holds(v.value, addr) && v.value.pages[addr / PGSIZE].readable
    then Value(v.value.pages[addr / PGSIZE].bytes[addr % PGSIZE])
    else Faulted
  }

  /** What becomes of one process, from nothing but its own acts and their outcomes. */
  function Next(v: Option<Solo>, act: Act, out: Outcome): Option<Solo> {
    match act
    case Spawn(areas) => if out.Ok? then Some(Solo(areas, map[])) else v
    case Install(addr, c) =>
      if v.None? || !out.Ok? then v
      else
        var flags := FlagsAt(v.value.areas, addr);
        Some(WithPage(v.value, addr, Page(c, flags.read || flags.write)))
    case Load(_) => v
    case Store(addr, b) =>
      if v.None? || !out.Ok? || !Holds(v.value, addr) then v
      else
        var page := v.value.pages[addr / PGSIZE];
        Some(WithPage(v.value, addr, page.(bytes := page.bytes[addr % PGSIZE := b])))
    case Fault(addr, _) =>
      if v.None? || !out.Appeared? then v
      else Some(WithPage(v.value, addr, Page(out.data, FlagsAt(v.value.areas, addr).write)))
    case Exit => if out.Ok? then None else v
  }

  /** The answers a process may get.  Only two things are left open: whether memory is lacking,
      and the contents of a page that appears. */
  predicate Allowed(v: Option<Solo>, act: Act, out: Outcome) {
    if act.Spawn? then out == (if v.None? && AreSorted(act.areas) && Aligned(act.areas) then Ok else Refused)
    else if v.None? then out == Refused
    else match act
    case Install(addr, c) =>
      if Scan(v.value.areas, addr).None? || |c| != PGSIZE then out == Refused else out == Ok || out == OutOfMemory
    case Load(addr) => out == LoadReply(v, addr)
    case Store(addr, b) =>
      if !Holds(v.value, addr) then out == Faulted
      else out == OutOfMemory || out == (if v.value.pages[addr / PGSIZE].readable then Ok else Faulted)
    case Fault(addr, write) =>
      if Scan(v.value.areas, addr).None? then out == NoArea
      else if Holds(v.value, addr) then out == Ok || (write && out == OutOfMemory)
      else out == OutOfMemory || (out.Appeared? && |out.data| == PGSIZE)
    case _ => out == Ok
  }

  predicate AreSorted(areas: seq<Area>)
    ensures AreSorted(areas) == Sorted(areas)
  {
    && (forall i :: 0 <= i < |areas| ==> areas[i].start < areas[i].end)
    && (forall i, j :: 0 <= i < j < |areas| ==> areas[i].end <= areas[j].start)
  }

  // ---- the machine ----

  predicate EventAllowed(e: Eager, ev: Event, out: Outcome) {
    match ev
    case By(p, act) => Allowed(Find(e, p), act, out)
    case Fork(p, q, _) => if p in e && q !in e then out == Ok || out == OutOfMemory else out == Refused
  }

  function Step(e: Eager, ev: Event, out: Outcome): Eager {
    match ev
    case By(p, act) => Put(e, p, Next(Find(e, p), act, out))
    case Fork(p, q, _) => if out.Ok? && p in e then e[q := e[p]] else e
  }

  function Execute(e: Eager, events: seq<Event>, outs: seq<Outcome>): Eager
    requires |events| == |outs|
  {
    if events == [] then e
    else Step(Execute(e, events[..|events| - 1], outs[..|outs| - 1]), events[|events| - 1], outs[|outs| - 1])
  }

  ghost predicate AllAllowed(e: Eager, events: seq<Event>, outs: seq<Outcome>)
    requires |events| == |outs|
  {
    forall i :: 0 <= i < |events| ==> EventAllowed(Execute(e, events[..i], outs[..i]), events[i], outs[i])
  }

  lemma AllowedPrefix(e: Eager, events: seq<Event>, outs: seq<Outcome>, n: nat)
    requires n <= |events| == |outs| && AllAllowed(e, events, outs)
    ensures AllAllowed(e, events[..n], outs[..n])
  {
    forall i | 0 <= i < n
      ensures EventAllowed(Execute(e, events[..n][..i], outs[..n][..i]), events[i], outs[i])
    {
      assert events[..n][..i] == events[..i] && outs[..n][..i] == outs[..i];
    }
  }

  // ---- pages in writable areas stay readable ----

  /** The areas are well formed, and every page of a writable area can be read. */
  predicate Readable(v: Solo) {
    && AreSorted(v.areas) && Aligned(v.areas)
    && forall n :: n in v.pages && FlagsAt(v.areas, n * PGSIZE).write ==> v.pages[n].readable
  }

  predicate AllReadable(e: Eager) {
    forall p :: p in e ==> Readable(e[p])
  }

  lemma SamePageSameFlags(areas: seq<Area>, addr: nat)
    requires Sorted(areas) && Aligned(areas)
    ensures FlagsAt(areas, addr) == FlagsAt(areas, addr / PGSIZE * PGSIZE)
  {
    var low := addr / PGSIZE * PGSIZE;
    forall a | a in areas ensures a.Contains(addr) <==> a.Contains(low) {
    }
    if Scan(areas, addr).Some? {
      var a := Scan(areas, addr).value;
      ContainingAreaIsUnique(areas, a, a, low);
    }
  }

  lemma PageKeepsReadable(v: Solo, addr: nat, page: Page)
    requires Readable(v) && (FlagsAt(v.areas, addr).write ==> page.readable)
    ensures Readable(WithPage(v, addr, page))
  {
    SamePageSameFlags(v.areas, addr);
  }

  lemma NextKeepsReadable(v: Option<Solo>, act: Act, out: Outcome)
    requires Allowed(v, act, out) && (v.Some? ==> Readable(v.value))
    ensures Next(v, act, out).Some? ==> Readable(Next(v, act, out).value)
  {
    hide Readable, FlagsAt, WithPage;
    if v.Some? && !act.Spawn? {
      match act {
        case Install(addr, c) =>
          var flags := FlagsAt(v.value.areas, addr);
          PageKeepsReadable(v.value, addr, Page(c, flags.read || flags.write));
        case Store(addr, b) =>
          if out.Ok? && Holds(v.value, addr) {
            var page := v.value.pages[addr / PGSIZE];
            PageKeepsReadable(v.value, addr, page.(bytes := page.bytes[addr % PGSIZE := b]));
          }
        case Fault(addr, _) =>
          if out.Appeared? {
            PageKeepsReadable(v.value, addr, Page(out.data, FlagsAt(v.value.areas, addr).write));
          }
        case _ =>
      }
    } else if act.Spawn? && out.Ok? {
      NothingMapped(act.areas);
    }
  }

  lemma NothingMapped(areas: seq<Area>)
    requires AreSorted(areas) && Aligned(areas)
    ensures Readable(Solo(areas, map[]))
  {
  }

  lemma {:induction false} RunKeepsReadable(e: Eager, events: seq<Event>, outs: seq<Outcome>)
    requires |events| == |outs| && AllAllowed(e, events, outs) && AllReadable(e)
    ensures AllReadable(Execute(e, events, outs))
  {
    if events != [] {
      var n := |events| - 1;
      AllowedPrefix(e, events, outs, n);
      RunKeepsReadable(e, events[..n], outs[..n]);
      LastAllowed(e, events, outs);
      StepKeepsReadable(Execute(e, events[..n], outs[..n]), events[n], outs[n]);
    }
  }

  lemma LastAllowed(e: Eager, events: seq<Event>, outs: seq<Outcome>)
    requires 0 < |events| == |outs| && AllAllowed(e, events, outs)
    ensures var n := |events| - 1; EventAllowed(Execute(e, events[..n], outs[..n]), events[n], outs[n])
  {
  }

  lemma StepKeepsReadable(e: Eager, ev: Event, out: Outcome)
    requires EventAllowed(e, ev, out) && AllReadable(e)
    ensures AllReadable(Step(e, ev, out))
  {
    hide Readable, Allowed, Next;
    if ev.By? { NextKeepsReadable(Find(e, ev.pid), ev.act, out); }
  }

  // ---- the machine as its loads show it ----

  function Reply(e: Eager, p: nat, addr: nat): Outcome {
    LoadReply(Find(e, p), addr)
  }

  /** A byte of page c, if it can be read. */
  function ByteOf(c: Bytes, addr: nat, readable: bool): Outcome
    requires |c| == 4096
  {
    if readable then Value(c[addr % 4096]) else Faulted
  }

  /** The pages of a process are whole. */
  ghost predicate Whole(e: Eager) {
    forall p, n :: p in e && n in e[p].pages ==> |e[p].pages[n].bytes| == 4096
  }

  /** Main result: how an event changes what q reads at addr.  After a fork the child reads what
      the parent reads; a store changes one byte of its own process; a page installed or appeared
      shows its contents, if its area allows it; an exit ends all answers; and everything else
      leaves the answer as it was. */
  lemma LoadsAfter(e: Eager, ev: Event, out: Outcome, q: nat, addr: nat)
    requires Whole(e) && EventAllowed(e, ev, out)
    ensures var now, was := Reply(Step(e, ev, out), q, addr), Reply(e, q, addr);
            match ev
            case Fork(p, child, _) => now == if out.Ok? && q == child then Reply(e, p, addr) else was
            case By(p, act) =>
              if p != q then now == was
              else match act
                case Spawn(_) => now == if out.Ok? then Faulted else was
                case Exit => now == if out.Ok? then Refused else was
                case Load(_) => now == was
                case Store(a, b) => now == if out.Ok? && a == addr then Value(b) else was
                case Install(a, c) =>
                  if out.Ok? && a / 4096 == addr / 4096
                  then |c| == 4096 && p in e
                       && var flags := FlagsAt(e[p].areas, a); now == ByteOf(c, addr, flags.read || flags.write)
                  else now == was
                case Fault(a, _) =>
                  if out.Appeared? && a / 4096 == addr / 4096
                  then |out.data| == 4096 && p in e && now == ByteOf(out.data, addr, FlagsAt(e[p].areas, a).write)
                  else now == was
    ensures Whole(Step(e, ev, out))
  {
    hide FlagsAt, Scan;
    if ev.By? && ev.act.Store? && out.Ok? && ev.act.addr != addr && ev.act.addr / 4096 == addr / 4096 {
      assert ev.act.addr % 4096 != addr % 4096;
    }
  }

  // ---- one process among others ----

  /** What a process does, its forks included. */
  datatype Deed = Does(act: Act) | Splits(child: nat)

  /** Its own fork leaves a process as it is. */
  function After(v: Option<Solo>, deed: Deed, out: Outcome): Option<Solo> {
    match deed
    case Does(act) => Next(v, act, out)
    case Splits(_) => v
  }

  /** Whether the child's pid is taken and whether memory is lacking is left open for a fork. */
  predicate MayCome(v: Option<Solo>, deed: Deed, out: Outcome) {
    match deed
    case Does(act) => Allowed(v, act, out)
    case Splits(_) => out == Refused || (v.Some? && (out == Ok || out == OutOfMemory))
  }

  function SoloRun(v: Option<Solo>, acts: seq<Deed>, outs: seq<Outcome>): Option<Solo>
    requires |acts| == |outs|
  {
    if acts == [] then v
    else After(SoloRun(v, acts[..|acts| - 1], outs[..|outs| - 1]), acts[|acts| - 1], outs[|outs| - 1])
  }

  predicate SoloAllowed(v: Option<Solo>, acts: seq<Deed>, outs: seq<Outcome>)
    requires |acts| == |outs|
  {
    acts == [] ||
    (var n := |acts| - 1;
     SoloAllowed(v, acts[..n], outs[..n]) && MayCome(SoloRun(v, acts[..n], outs[..n]), acts[n], outs[n]))
  }

  /** The deeds, with their answers, that made q what it is, and the process they begin with. */
  datatype Lineage = Lineage(root: nat, acts: seq<Deed>, outs: seq<Outcome>)

  function Longer(r: Lineage, deed: Deed, out: Outcome): Lineage {
    Lineage(r.root, r.acts + [deed], r.outs + [out])
  }

  /** q's own acts and forks, and before the fork that made it, those of its parent.  Everything
      else is left out. */
  function LineageOf(events: seq<Event>, outs: seq<Outcome>, q: nat): (r: Lineage)
    requires |events| == |outs|
    ensures |r.acts| == |r.outs|
  {
    if events == [] then Lineage(q, [], [])
    else
      var n := |events| - 1;
      match events[n]
      case By(p, act) =>
        var before := LineageOf(events[..n], outs[..n], q);
        if p == q then Longer(before, Does(act), outs[n]) else before
      case Fork(p, child, _) =>
        if child == q && outs[n].Ok? then LineageOf(events[..n], outs[..n], p)
        else
          var before := LineageOf(events[..n], outs[..n], q);
          if p == q then Longer(before, Splits(child), outs[n]) else before
  }

  /** Main result: over any run, what becomes of q, and what it is answered, is decided by its
      lineage alone. */
  lemma {:induction false} Purge(e: Eager, events: seq<Event>, outs: seq<Outcome>, q: nat)
    requires |events| == |outs| && AllAllowed(e, events, outs)
    ensures var r := LineageOf(events, outs, q);
            && SoloAllowed(Find(e, r.root), r.acts, r.outs)
            && Find(Execute(e, events, outs), q) == SoloRun(Find(e, r.root), r.acts, r.outs)
  {
    hide Allowed, Next, SoloRun, SoloAllowed;
    if events == [] {
      NoActs(Find(e, q));
    } else {
      var n := |events| - 1;
      AllowedPrefix(e, events, outs, n);
      LastAllowed(e, events, outs);
      match events[n] {
        case By(p, act) =>
          Purge(e, events[..n], outs[..n], q);
          if p == q {
            var before := LineageOf(events[..n], outs[..n], q);
            OneMoreAct(Find(e, before.root), before.acts, before.outs, Does(act), outs[n]);
          }
        case Fork(p, child, _) =>
          Purge(e, events[..n], outs[..n], if child == q && outs[n].Ok? then p else q);
          if p == q && !(child == q && outs[n].Ok?) {
            var before := LineageOf(events[..n], outs[..n], q);
            OneMoreAct(Find(e, before.root), before.acts, before.outs, Splits(child), outs[n]);
          }
      }
    }
  }

  lemma NoActs(v: Option<Solo>)
    ensures SoloRun(v, [], []) == v && SoloAllowed(v, [], [])
  {
  }

  lemma OneMoreAct(v: Option<Solo>, acts: seq<Deed>, outs: seq<Outcome>, act: Deed, out: Outcome)
    requires |acts| == |outs|
    ensures SoloRun(v, acts + [act], outs + [out]) == After(SoloRun(v, acts, outs), act, out)
    ensures SoloAllowed(v, acts + [act], outs + [out]) <==>
              SoloAllowed(v, acts, outs) && MayCome(SoloRun(v, acts, outs), act, out)
  {
    hide MayCome, After;
    assert (acts + [act])[..|acts|] == acts && (outs + [out])[..|outs|] == outs;
  }

  // ---- what is left to chance ----

  /** What an answer tells at once: not the contents of the page that appeared. */
  function Shown(out: Outcome): Outcome {
    if out.Appeared? then Ok else out
  }

  /** Memory is lacking in both or in neither, a page that appears has the same contents, and the
      pid of a child is taken in both or in neither. */
  predicate SameChance(act: Deed, a: Outcome, b: Outcome) {
    && (a.OutOfMemory? <==> b.OutOfMemory?) && (a.Appeared? && b.Appeared? ==> a.data == b.data)
    && (act.Splits? ==> (a.Refused? <==> b.Refused?))
  }

  predicate SameChances(acts: seq<Deed>, a: seq<Outcome>, b: seq<Outcome>)
    requires |acts| == |a| == |b|
  {
    forall i :: 0 <= i < |a| ==> SameChance(acts[i], a[i], b[i])
  }

  /** The process is answered the same and has the same pages all along. */
  predicate SameLife(v: Option<Solo>, acts: seq<Deed>, a: seq<Outcome>, b: seq<Outcome>)
    requires |acts| == |a| == |b|
  {
    && (forall i :: 0 <= i < |acts| ==> Shown(a[i]) == Shown(b[i]))
    && (forall i :: 0 <= i <= |acts| ==> SameAt(v, acts, a, b, i))
  }

  predicate SameAt(v: Option<Solo>, acts: seq<Deed>, a: seq<Outcome>, b: seq<Outcome>, i: nat)
    requires i <= |acts| == |a| == |b|
  {
    SoloRun(v, acts[..i], a[..i]) == SoloRun(v, acts[..i], b[..i])
  }

  /** One and the same answer, or two lives that part here. */
  lemma ChanceDecides(v: Option<Solo>, deed: Deed, a: Outcome, b: Outcome)
    requires MayCome(v, deed, a) && MayCome(v, deed, b)
    ensures SameChance(deed, a, b) <==> a == b
    ensures a == b <==> Shown(a) == Shown(b) && After(v, deed, a) == After(v, deed, b)
  {
    if deed.Does? && deed.act.Fault? && a.Appeared? && b.Appeared? {
      var n := deed.act.addr / PGSIZE;
      assert Next(v, deed.act, a).value.pages[n].bytes == a.data;
      assert Next(v, deed.act, b).value.pages[n].bytes == b.data;
    }
  }

  /** Main result: two lives with the same acts are the same if and only if the contents of the
      pages that appeared, and the times when memory was lacking or a child's pid was taken, are
      the same. */
  lemma {:induction false} SameLifeIffSameChances(v: Option<Solo>, acts: seq<Deed>, a: seq<Outcome>, b: seq<Outcome>)
    requires |acts| == |a| == |b| && SoloAllowed(v, acts, a) && SoloAllowed(v, acts, b)
    ensures SameLife(v, acts, a, b) <==> SameChances(acts, a, b)
    ensures SameChances(acts, a, b) ==> a == b
  {
    hide MayCome, After, SameChance, Shown;
    if acts != [] {
      var n := |acts| - 1;
      SameLifeIffSameChances(v, acts[..n], a[..n], b[..n]);
      LifeSplits(v, acts, a, b);
      if a[..n] == b[..n] {
        ChanceDecides(SoloRun(v, acts[..n], a[..n]), acts[n], a[n], b[n]);
        if SameChances(acts, a, b) { assert a == a[..n] + [a[n]] && b == b[..n] + [b[n]]; }
      }
      ChancesSplit(acts, a, b);
    }
  }

  lemma ChancesSplit(acts: seq<Deed>, a: seq<Outcome>, b: seq<Outcome>)
    requires 0 < |acts| == |a| == |b|
    ensures var n := |a| - 1;
            SameChances(acts, a, b) <==>
              SameChances(acts[..n], a[..n], b[..n]) && SameChance(acts[n], a[n], b[n])
  {
    hide SameChance;
  }

  lemma LifeSplits(v: Option<Solo>, acts: seq<Deed>, a: seq<Outcome>, b: seq<Outcome>)
    requires 0 < |acts| == |a| == |b|
    ensures var n := |acts| - 1;
            SameLife(v, acts, a, b) <==>
              && SameLife(v, acts[..n], a[..n], b[..n]) && Shown(a[n]) == Shown(b[n])
              && SoloRun(v, acts, a) == SoloRun(v, acts, b)
  {
    hide Shown, SoloRun, SameAt;
    var n := |acts| - 1;
    SameAtEnd(v, acts, a, b);
    forall i | 0 <= i <= n ensures SameAt(v, acts[..n], a[..n], b[..n], i) <==> SameAt(v, acts, a, b, i) {
      SameBefore(v, acts, a, b, n, i);
    }
  }

  lemma SameAtEnd(v: Option<Solo>, acts: seq<Deed>, a: seq<Outcome>, b: seq<Outcome>)
    requires |acts| == |a| == |b|
    ensures SameAt(v, acts, a, b, |acts|) <==> SoloRun(v, acts, a) == SoloRun(v, acts, b)
  {
    assert acts[..|acts|] == acts && a[..|a|] == a && b[..|b|] == b;
  }

  lemma SameBefore(v: Option<Solo>, acts: seq<Deed>, a: seq<Outcome>, b: seq<Outcome>, n: nat, i: nat)
    requires i <= n <= |acts| == |a| == |b|
    ensures SameAt(v, acts[..n], a[..n], b[..n], i) <==> SameAt(v, acts, a, b, i)
  {
    assert acts[..n][..i] == acts[..i] && a[..n][..i] == a[..i] && b[..n][..i] == b[..i];
  }
}
