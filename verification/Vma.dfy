/**
  The virtual memory areas of a process (lab5/cow/vmm.c:76-210 and 527-552): a sorted list
  with a one-entry cache, and the checks that walk it.
 */
module Vma {
  const WORD: nat := 0x1_0000_0000_0000_0000
  const PGSIZE: nat := 4096
  const USERBASE: nat := 0x0020_0000
  const USERTOP: nat := 0x8000_0000
  const KERNBASE: nat := 0xFFFF_FFFF_C020_0000
  const KERNTOP: nat := KERNBASE + 0x7E0_0000

  datatype Option<+T> = None | Some(value: T)

  datatype Flags = Flags(read: bool, write: bool, exec: bool, stack: bool)

  datatype Area = Area(start: nat, end: nat, flags: Flags) {
    predicate Contains(addr: nat) {
      start <= addr < end
    }
  }

  predicate Disjoint(a: Area, b: Area) {
    a.end <= b.start || b.end <= a.start
  }

  function RoundDown(a: nat, n: nat): nat
    requires n > 0
  {
    a - a % n
  }

  /** ROUNDUP, in 64-bit arithmetic: the top page of the address space rounds up to 0. */
  function RoundUp(a: nat): nat {
    RoundDown((a + PGSIZE - 1) % WORD, PGSIZE)
  }

  /** Both round to pages, down to the last multiple that is not above, up to the first that is not
      below; in the top page of the 64-bit address space the latter is 0. */
  lemma RoundingIs(a: nat)
    requires a < WORD
    ensures var d := RoundDown(a, PGSIZE); d % 4096 == 0 && d <= a < d + 4096
    ensures var u := RoundUp(a);
            && u % 4096 == 0
            && if a <= 0xFFFF_FFFF_FFFF_F000 then a <= u < a + 4096 else u == 0
  {
    hide RoundDown;
    DownIs(a);
    if a <= 0xFFFF_FFFF_FFFF_F000 {
      DownIs(a + 4095);
    } else {
      DownIs(a + 4095 - WORD);
    }
  }

  lemma DownIs(a: nat)
    ensures var d := RoundDown(a, PGSIZE);
            && d % 4096 == 0 && d <= a < d + 4096 && (a < 4096 ==> d == 0) && (a < WORD ==> d < WORD)
  {
    var q := a / 4096;
    assert a == 4096 * q + a % 4096;
    assert RoundDown(a, PGSIZE) == 4096 * q;
  }

  predicate UserAccess(start: nat, end: nat) {
    USERBASE <= start < end <= USERTOP
  }

  predicate KernAccess(start: nat, end: nat) {
    KERNBASE <= start < end <= KERNTOP
  }

  /** The user's half from 2 MB to 2 GB, and the kernel's memory of 126 MB. */
  lemma RangesAre(start: nat, end: nat)
    ensures UserAccess(start, end) <==> 0x20_0000 <= start < end <= 0x8000_0000
    ensures KernAccess(start, end) <==> 0xFFFF_FFFF_C020_0000 <= start < end <= 0xFFFF_FFFF_C800_0000
  {
  }

  /** Nonempty areas in order, each ending before the next one starts. */
  ghost predicate Sorted(s: seq<Area>) {
    && (forall i :: 0 <= i < |s| ==> s[i].start < s[i].end)
    && (forall i, j :: 0 <= i < j < |s| ==> s[i].end <= s[j].start)
  }

  /** The area containing addr, by a scan without any cache. */
  function Scan(s: seq<Area>, addr: nat): (r: Option<Area>)
    ensures r.Some? ==> r.value in s && r.value.Contains(addr)
    ensures r.None? ==> forall v :: v in s ==> !v.Contains(addr)
  {
    if s == [] then None else if s[0].Contains(addr) then Some(s[0]) else Scan(s[1..], addr)
  }

  lemma ContainingAreaIsUnique(s: seq<Area>, u: Area, v: Area, addr: nat)
    requires Sorted(s) && u in s && v in s && u.Contains(addr) && v.Contains(addr)
    ensures u == v && Scan(s, addr) == Some(u)
  {
    var w := Scan(s, addr).value;
    var i :| 0 <= i < |s| && s[i] == u;
    var j :| 0 <= j < |s| && s[j] == v;
    var k :| 0 <= k < |s| && s[k] == w;
    assert i == j == k;
  }

  function Inserted(s: seq<Area>, k: nat, v: Area): seq<Area>
    requires k <= |s|
  {
    s[..k] + [v] + s[k..]
  }

  predicate NeighboursClear(s: seq<Area>, k: nat, v: Area)
    requires k <= |s|
  {
    (k > 0 ==> s[k - 1].end <= v.start) && (k < |s| ==> v.end <= s[k].start)
  }

  /** If v belongs before position k, then clearing its two neighbours clears the list. */
  lemma NeighboursSuffice(s: seq<Area>, k: nat, v: Area)
    requires Sorted(s) && v.start < v.end && k <= |s|
    requires forall j :: 0 <= j < k ==> s[j].start <= v.start
    requires k < |s| ==> v.start < s[k].start
    ensures (forall u :: u in s ==> Disjoint(u, v)) <==> NeighboursClear(s, k, v)
  {
    if NeighboursClear(s, k, v) {
      forall u | u in s ensures Disjoint(u, v) {
        var i :| 0 <= i < |s| && s[i] == u;
        if i < k { assert s[i].end <= v.start; } else { assert v.end <= s[i].start; }
      }
    } else if k > 0 && s[k - 1].end > v.start {
      assert s[k - 1] in s && !Disjoint(s[k - 1], v);
    } else {
      assert s[k] in s && !Disjoint(s[k], v);
    }
  }

  lemma InsertionKeepsSorted(s: seq<Area>, k: nat, v: Area)
    requires Sorted(s) && v.start < v.end && k <= |s| && NeighboursClear(s, k, v)
    ensures Sorted(Inserted(s, k, v))
  {
    var t := Inserted(s, k, v);
    forall i, j | 0 <= i < j < |t| ensures t[i].end <= t[j].start {
      assert i < k ==> s[i].end <= s[k - 1].end && s[i].start < s[i].end;
      assert k < j ==> s[k].start <= s[j - 1].start;
    }
  }

  datatype MapResult = Mapped | Invalid | NoMemory | AssertFails

  class Mm {
    var areas: seq<Area>
    var cache: Option<Area>
    var count: nat

    constructor ()
      ensures Valid() && areas == []
    {
      areas, cache, count := [], None, 0;
    }

    ghost predicate Valid()
      reads this
    {
      && Sorted(areas) && count == |areas|
      && (cache.Some? ==> cache.value in areas)
    }

    /** find_vma: whatever the cache holds, the answer is that of an uncached scan. */
    method FindVma(addr: nat) returns (r: Option<Area>)
      requires Valid()
      modifies `cache
      ensures Valid() && r == Scan(areas, addr)
    {
      r := cache;
      if !(r.Some? && r.value.Contains(addr)) {
        r := None;
        var i := 0;
        while i < |areas|
          invariant 0 <= i <= |areas|
          invariant Scan(areas, addr) == Scan(areas[i..], addr)
        {
          if areas[i].Contains(addr) {
            r := Some(areas[i]);
            break;
          }
          i := i + 1;
        }
      } else {
        ContainingAreaIsUnique(areas, r.value, r.value, addr);
      }
      if r.Some? {
        cache := r;
      }
    }

    /** insert_vma_struct looks at two neighbours only, yet its asserts fire exactly when
        the new area is empty or meets some area of the list. */
    method InsertVma(v: Area) returns (ok: bool)
      requires Valid()
      modifies `areas, `count
      ensures Valid()
      ensures ok <==> v.start < v.end && forall u :: u in old(areas) ==> Disjoint(u, v)
      ensures !ok ==> areas == old(areas)
      ensures ok ==> exists k :: 0 <= k <= |old(areas)| && areas == Inserted(old(areas), k, v)
      ensures ok && (old(areas) == [] || v.end <= old(areas)[0].start) ==> areas == [v] + old(areas)
    {
      hide Sorted;
      if !(v.start < v.end) { return false; }
      var k := 0;
      while k < |areas| && !(areas[k].start > v.start)
        invariant 0 <= k <= |areas|
        invariant forall j :: 0 <= j < k ==> areas[j].start <= v.start
      {
        k := k + 1;
      }
      NeighboursSuffice(areas, k, v);
      if k > 0 && !(areas[k - 1].end <= v.start) { return false; }
      if k < |areas| && !(v.end <= areas[k].start) { return false; }
      InsertionKeepsSorted(areas, k, v);
      areas := Inserted(areas, k, v);
      count := count + 1;
      assert areas == Inserted(old(areas), k, v);
      ok := true;
    }

    /** mm_map.  Overlap is refused politely only when an existing area contains the first
        page; any other overlap runs into the asserts of insert_vma_struct. */
    method MmMap(addr: nat, len: nat, flags: Flags, kmallocOk: bool) returns (r: MapResult)
      requires Valid() && addr < WORD && len < WORD
      modifies this
      ensures Valid()
      ensures var start, end := RoundDown(addr, PGSIZE), RoundUp((addr + len) % WORD);
              var v := Area(start, end, flags);
              && (r == Invalid <==> !UserAccess(start, end) || Scan(old(areas), start).Some?)
              && (r == NoMemory <==> UserAccess(start, end) && Scan(old(areas), start).None? && !kmallocOk)
              && (r == Mapped <==>
                    UserAccess(start, end) && kmallocOk && forall u :: u in old(areas) ==> Disjoint(u, v))
              && (r == Mapped ==> exists k :: 0 <= k <= |old(areas)| && areas == Inserted(old(areas), k, v))
              && (r != Mapped ==> areas == old(areas))
    {
      var start, end := RoundDown(addr, PGSIZE), RoundUp((addr + len) % WORD);
      if !UserAccess(start, end) { return Invalid; }
      var found := FindVma(start);
      if found.Some? && end > found.value.start {
        assert !Disjoint(found.value, Area(start, end, flags));
        return Invalid;
      }
      if !kmallocOk { return NoMemory; }
      var ok := InsertVma(Area(start, end, flags));
      r := if ok then Mapped else AssertFails;
    }

    /** The list side of dup_mmap: walking from's list backwards rebuilds it, or, when
        memory runs out after some areas, a suffix of it. */
    method DupAreas(source: seq<Area>, room: nat) returns (ok: bool)
      requires Valid() && areas == [] && Sorted(source)
      modifies this
      ensures Valid()
      ensures ok <==> room >= |source|
      ensures areas == source[if ok then 0 else |source| - room..]
    {
      var i := |source|;
      while i > 0
        invariant 0 <= i <= |source| && |source| - i <= room
        invariant Valid() && areas == source[i..]
      {
        if |source| - i == room { return false; }
        i := i - 1;
        assert forall u :: u in areas ==> Disjoint(u, source[i]);
        var inserted := InsertVma(source[i]);
        assert source[i..] == [source[i]] + source[i + 1..];
      }
      ok := true;
    }
  }

  /** A byte that user_mem_check accepts: to be read in an area that can be read, to be written in
      one that can be written, but not in the first page of a stack. */
  ghost predicate Accessible(s: seq<Area>, b: nat, write: bool) {
    exists v :: v in s && v.start <= b < v.end
                && if write then v.flags.write && (v.flags.stack ==> v.start + 4096 <= b) else v.flags.read
  }

  predicate Permits(v: Area, b: nat, write: bool) {
    && (if write then v.flags.write else v.flags.read)
    && (write && v.flags.stack ==> v.start + PGSIZE <= b)
  }

  /** user_mem_check hops from area to area; it accepts exactly the nonempty user ranges all
      of whose bytes are accessible one by one. */
  method UserMemCheck(mm: Mm?, addr: nat, len: nat, write: bool) returns (ok: bool)
    requires addr < WORD && len < WORD
    requires mm != null ==> mm.Valid()
    modifies mm
    ensures mm != null ==> mm.Valid() && mm.areas == old(mm.areas)
    ensures mm != null ==>
      (ok <==> && 0 < len && USERBASE <= addr && addr + len <= USERTOP
               && forall b :: addr <= b < addr + len ==> Accessible(mm.areas, b, write))
    ensures mm == null ==> (ok <==> 0 < len && KERNBASE <= addr && addr + len <= KERNTOP)
  {
    if mm != null {
      if !UserAccess(addr, (addr + len) % WORD) { return false; }
      var start, end := addr, addr + len;
      while start < end
        invariant addr <= start
        invariant mm.Valid() && mm.areas == old(mm.areas)
        invariant forall b :: addr <= b < start ==> b < end ==> Accessible(mm.areas, b, write)
      {
        var v := mm.FindVma(start);
        if v.None? || start < v.value.start {
          assert !Accessible(mm.areas, start, write);
          return false;
        }
        if !Permits(v.value, start, write) {
          forall u | u in mm.areas && u.Contains(start) ensures u == v.value {
            ContainingAreaIsUnique(mm.areas, u, v.value, start);
          }
          assert !Accessible(mm.areas, start, write);
          return false;
        }
        assert forall b :: start <= b < v.value.end ==> v.value.Contains(b) && Permits(v.value, b, write);
        start := v.value.end;
      }
      return true;
    }
    ok := KernAccess(addr, (addr + len) % WORD);
  }
}
