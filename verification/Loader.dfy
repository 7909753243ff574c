/**
  load_icode (lab5/cow/proc.c:537-683): the segments of a program are placed page by page into
  a fresh address space, in 64-bit arithmetic.
 */
module Loader {
  import opened Vma

  const USTACKTOP: nat := USERTOP
  const USTACKSIZE: nat := 256 * PGSIZE

  type Byte = b: nat | b < 256

  datatype Perm = Perm(read: bool, write: bool, exec: bool)

  datatype Page = Page(bytes: seq<Byte>, perm: Perm)

  datatype ProgHdr = ProgHdr(load: bool, va: nat, filesz: nat, memsz: nat, offset: nat, flags: Flags) {
    predicate WellFormed() {
      va < WORD && filesz < WORD && memsz < WORD && !flags.stack
    }

    /** The segment ends below the top of the 64-bit address space. */
    predicate Fits() {
      va + memsz < WORD
    }
  }

  datatype LoadResult = Loaded | InvalidElf | InvalidRange | OutOfMemory | AssertFailure | StrayWrite

  /** A writable segment is readable, too. */
  function PermOf(f: Flags): Perm {
    Perm(f.read || f.write, f.write, f.exec)
  }

  function PageOf(a: nat): (la: nat)
    ensures la <= a < la + PGSIZE && Aligned(la)
  {
    RoundDown(a, PGSIZE)
  }

  /** Adding and subtracting in 64 bits. */
  function Plus(a: nat, b: nat): nat {
    (a + b) % WORD
  }

  function Minus(a: nat, b: nat): nat
    requires a < WORD && b < WORD
  {
    (a + WORD - b) % WORD
  }

  predicate Aligned(a: nat) {
    a % PGSIZE == 0
  }

  lemma InPage(la: nat, a: nat)
    requires Aligned(la) && la <= a < la + PGSIZE
    ensures PageOf(a) == la && a % PGSIZE == a - la
  {
  }

  lemma LastPage(la: nat, a: nat)
    requires Aligned(la) && la - PGSIZE <= a < la
    ensures PageOf(a) == la - PGSIZE && a % PGSIZE == a - (la - PGSIZE)
  {
    InPage(la - PGSIZE, a);
  }

  /** The size that is left to clear in the last file page, computed in 64 bits. */
  lemma TailSize(start: nat, end: nat, la: nat, size: nat)
    requires start < la < WORD && end < WORD && la - PGSIZE <= start
    requires size == if end < la then Minus(la - start, la - end) else la - start
    ensures start + PGSIZE - la + size > PGSIZE <==> end < start
    ensures end >= start ==> Plus(start, size) == start + size == if end < la then end else la
  {
  }

  lemma PageStep(start: nat, end: nat, la: nat, size: int)
    requires start < end < WORD && la == PageOf(start)
    requires var next := Plus(la, PGSIZE);
             size == PGSIZE - (start - la) - (if end < next then next - end else 0)
    ensures 0 <= size <= PGSIZE - (start - la) && la < WORD && Plus(la, PGSIZE) < WORD
    ensures start + size == if end < Plus(la, PGSIZE) then end else la + PGSIZE
    ensures Plus(start, size) == if end < Plus(la, PGSIZE) then end else Plus(la, PGSIZE)
  {
  }

  /** The page after the last one is the first. */
  lemma PlusPage(la: nat)
    requires Aligned(la) && la < WORD
    ensures Plus(la, PGSIZE) == if la + PGSIZE == WORD then 0 else la + PGSIZE
    ensures Aligned(Plus(la, PGSIZE)) && la + PGSIZE <= WORD
  {
  }

  /** The cursors of the loops after one more page. */
  lemma NextCursors(start: nat, end: nat, la: nat, start': nat, la': nat)
    requires start < end < WORD && la == PageOf(start)
    requires la' == Plus(la, PGSIZE) && start' == if end < la' then end else la'
    ensures la' < WORD && Aligned(la') && start' < WORD && start' <= la'
    ensures start' < end ==> la' == PageOf(start')
    ensures start' < la' ==> la' - PGSIZE == la && la < start'
    ensures end <= WORD - PGSIZE ==> la < la' == la + PGSIZE && start < start' <= end && la' < start' + PGSIZE
    ensures end > WORD - PGSIZE ==> start' < end
  {
    hide Plus, PageOf, Aligned;
    PlusPage(la);
    if start' < end { InPage(la', start'); }
  }

  /** A page may cost three frames, itself and two tables: what is left of room after pages of
      the given number of bytes. */
  predicate Paid(room: nat, left: nat, bytes: int) {
    PGSIZE * room <= PGSIZE * left + 3 * bytes
  }

  /** Three frames for each page of the given number of bytes. */
  predicate Granted(room: nat, bytes: int) {
    3 * bytes <= PGSIZE * room
  }

  lemma PageInside(start: nat, end: nat)
    requires start < end <= WORD - PGSIZE
    ensures PageOf(start) + PGSIZE <= RoundUp(end)
  {
  }

  /** Out of frames before the last page was had. */
  lemma NotGranted(room: nat, left: nat, lo: nat, la: nat, hi: nat)
    requires Paid(room, left, la - lo) && left < 3 && la + PGSIZE <= hi
    ensures !Granted(room, hi - lo)
  {
  }

  lemma RoundUpIs(a: nat, la: nat)
    requires a <= WORD - PGSIZE && Aligned(la) && a <= la < a + PGSIZE
    ensures RoundUp(a) == la
  {
  }

  lemma RoundUpNext(start: nat, end: nat)
    requires start <= end <= WORD - PGSIZE
    ensures start <= RoundUp(start) <= RoundUp(end) && RoundUp(start) < start + PGSIZE && Aligned(RoundUp(start))
    ensures start < end <= RoundUp(start) ==> RoundUp(end) == RoundUp(start)
  {
    hide RoundUp, Aligned;
    var r, t := RoundUp(start), RoundUp(end);
    AboutRoundUp(start);
    AboutRoundUp(end);
    if t < r { PagesApart(t, r); }
    if r < t { PagesApart(r, t); }
  }

  lemma AboutRoundUp(a: nat)
    requires a <= WORD - PGSIZE
    ensures a <= RoundUp(a) < a + PGSIZE && Aligned(RoundUp(a)) && (Aligned(a) <==> RoundUp(a) == a)
  {
  }

  lemma PagesApart(a: nat, b: nat)
    requires Aligned(a) && Aligned(b) && a < b
    ensures a + PGSIZE <= b
  {
  }

  /** The byte at user address a is b, with the given permission. */
  ghost predicate HoldsIn(pages: map<nat, Page>, a: nat, b: Byte, perm: Perm) {
    var la := PageOf(a);
    la in pages && |pages[la].bytes| == PGSIZE && pages[la].bytes[a % PGSIZE] == b && pages[la].perm == perm
  }

  /** Every byte from start up to end is the one of content. */
  ghost predicate ShowsIn(pages: map<nat, Page>, start: nat, end: nat, content: nat -> Byte, perm: Perm) {
    forall a :: start <= a < end ==> HoldsIn(pages, a, content(a), perm)
  }

  /** Nothing but the pages from la0 up to la1 differs. */
  ghost predicate OnlyBetween(before: map<nat, Page>, after: map<nat, Page>, la0: nat, la1: nat) {
    forall l :: !(la0 <= l < la1) ==> (l in after <==> l in before) && (l in after ==> after[l] == before[l])
  }

  /** All bytes of the segment are in place, with its permission: those of the file first, and
      zeros up to p_memsz. */
  ghost predicate RightIn(pages: map<nat, Page>, ph: ProgHdr, binary: nat -> Byte) {
    && ShowsIn(pages, ph.va, ph.va + ph.filesz, FileByte(ph, binary), PermOf(ph.flags))
    && ShowsIn(pages, ph.va + ph.filesz, ph.va + ph.memsz, ZeroByte, PermOf(ph.flags))
  }

  class Image {
    const mm: Mm
    var pages: map<nat, Page>
    /** the frames that are left, and the area structures that kmalloc can still give */
    var room: nat
    var structs: nat

    constructor (frames: nat, n: nat)
      ensures Valid() && pages == map[] && room == frames && structs == n && mm.areas == [] && fresh(mm)
    {
      mm := new Mm();
      pages, room, structs := map[], frames, n;
    }

    ghost predicate Valid()
      reads this, mm
    {
      mm.Valid() && PagesValid()
    }

    ghost predicate PagesValid()
      reads `pages
    {
      forall la :: la in pages ==> Aligned(la) && la < WORD && |pages[la].bytes| == PGSIZE
    }

    ghost predicate Holds(a: nat, b: Byte, perm: Perm)
      reads `pages
    {
      HoldsIn(pages, a, b, perm)
    }

    /** pgdir_alloc_page, for a page that may need new tables, too; its contents are whatever
        was in the frame. */
    method AllocPage(la: nat, perm: Perm) returns (ok: bool)
      requires PagesValid() && Aligned(la) && la < WORD
      modifies `pages, `room
      ensures PagesValid()
      ensures !ok ==> pages == old(pages) && room == old(room) < 3
      ensures ok ==> && old(room) - 3 <= room < old(room) && la in pages && pages == old(pages)[la := pages[la]]
                     && pages[la].perm == perm
    {
      var frames: nat :| 1 <= frames <= 3;
      if room < frames { return false; }
      room := room - frames;
      assert |seq<Byte>(PGSIZE, k => 0)| == PGSIZE;
      var junk: seq<Byte> :| |junk| == PGSIZE;
      pages := pages[la := Page(junk, perm)];
      ok := true;
    }

    /** memcpy or memset of data into a page. */
    method Fill(la: nat, off: nat, data: seq<Byte>)
      requires PagesValid() && la in pages && off + |data| <= PGSIZE
      modifies `pages
      ensures PagesValid() && la in pages && pages == old(pages)[la := pages[la]]
      ensures pages[la].perm == old(pages)[la].perm
      ensures forall k :: 0 <= k < PGSIZE ==>
                pages[la].bytes[k] == if off <= k < off + |data| then data[k - off] else old(pages)[la].bytes[k]
    {
      var old_ := pages[la].bytes;
      pages := pages[la := pages[la].(bytes := old_[..off] + data + old_[off + |data|..])];
    }

    ghost predicate Shows(start: nat, end: nat, content: nat -> Byte, perm: Perm)
      reads `pages
    {
      ShowsIn(pages, start, end, content, perm)
    }

    /** One turn of the copying and of the zeroing loop: a new page at la, filled from start up
        to end or to the end of the page. */
    method NextPage(start: nat, end: nat, la: nat, perm: Perm, content: nat -> Byte)
      returns (ok: bool, start': nat, la': nat)
      requires PagesValid() && start < end < WORD && la == PageOf(start)
      modifies `pages, `room
      ensures PagesValid() && la' == Plus(la, PGSIZE)
      ensures start' == if end < la' then end else la'
      ensures !ok ==> room == old(room) < 3
      ensures ok ==> && old(room) - 3 <= room < old(room) && la in pages && pages == old(pages)[la := pages[la]]
                     && Shows(start, if end < la' then end else la + PGSIZE, content, perm)
    {
      hide Plus, PageOf, Aligned;
      la' := Plus(la, PGSIZE);
      var off: nat, size: int := start - la, PGSIZE - (start - la);
      if end < la' {
        size := size - (la' - end);
      }
      PageStep(start, end, la, size);
      start' := Plus(start, size);
      ok := AllocPage(la, perm);
      if !ok { return; }
      Fill(la, off, seq(size, k requires 0 <= k < size => content(start + k)));
      forall a | start <= a < start + size ensures Holds(a, content(a), perm) {
        InPage(la, a);
      }
    }

    /** The loops of load_icode that fill memory from start to end, with file contents first
        and with zeros later. */
    method FillPages(start0: nat, end: nat, la0: nat, perm: Perm, content: nat -> Byte)
      returns (ok: bool, start: nat, la: nat)
      requires PagesValid() && start0 < WORD && end < WORD && la0 < WORD && Aligned(la0)
      requires start0 < end ==> la0 == PageOf(start0)
      modifies `pages, `room
      ensures PagesValid() && la < WORD && Aligned(la) && start < WORD && (!ok ==> room < 3)
      ensures start0 >= end ==> ok && start == start0 && la == la0 && pages == old(pages) && room == old(room)
      ensures start0 < end && end > WORD - PGSIZE ==> !ok
      ensures start0 < end <= WORD - PGSIZE ==>
                if ok then la == RoundUp(end) && Paid(old(room), room, la - la0)
                else !Granted(old(room), RoundUp(end) - la0)
      ensures ok ==> start >= end && (start0 < end ==> start <= la)
      ensures ok && start0 < end && start < la ==> la - PGSIZE in pages && la - PGSIZE < start
      ensures ok && start0 < end <= WORD - PGSIZE ==> start == end && end <= la < end + PGSIZE
      ensures ok && start0 < end <= WORD - PGSIZE ==> Shows(start0, end, content, perm) && Within(old(pages), la0, la)
    {
      hide Shows, Within, PagesValid, Holds, Plus, PageOf, RoundDown, RoundUp, Aligned;
      NothingYet(start0, la0, perm, content);
      start, la := start0, la0;
      ok := true;
      ghost var plain := start0 < end <= WORD - PGSIZE;
      while start < end
        invariant ok && PagesValid() && start < WORD && la < WORD && Aligned(la)
        invariant start < end ==> la == PageOf(start)
        invariant start0 >= end ==> start == start0 && la == la0 && pages == old(pages) && room == old(room)
        invariant start0 < end && end > WORD - PGSIZE ==> start < end
        invariant plain ==> Paid(old(room), room, la - la0)
        invariant start0 < end && start < la ==> la - PGSIZE in pages && la - PGSIZE < start
        invariant (start == start0 && la == la0) || start <= la
        invariant plain ==> start0 <= start <= end && la0 <= la
        invariant plain ==>
          || (start == start0 && la == la0)
          || (start <= la < start + PGSIZE && start == if end < la then end else la)
        invariant plain ==> Shows(start0, start, content, perm) && Within(old(pages), la0, la)
        decreases room
      {
        ghost var start1, la1 := start, la;
        if plain { PageInside(start, end); }
        ok, start, la := Continue(start0, start, end, la0, la, perm, content, plain, old(pages));
        NextCursors(start1, end, la1, start, la);
        if !ok {
          if plain { NotGranted(old(room), room, la0, la1, RoundUp(end)); }
          return;
        }
      }
      if plain { RoundUpIs(end, la); }
    }

    lemma NothingYet(start: nat, la: nat, perm: Perm, content: nat -> Byte)
      ensures Shows(start, start, content, perm) && Within(pages, la, la)
    {
    }

    method Continue(ghost start0: nat, start: nat, end: nat, ghost la0: nat, la: nat, perm: Perm, content: nat -> Byte,
                    ghost plain: bool, ghost before: map<nat, Page>)
      returns (ok: bool, start': nat, la': nat)
      requires PagesValid() && start < end < WORD && la == PageOf(start)
      requires plain ==> end <= WORD - PGSIZE && la0 <= la && (start == start0 || start == la)
      requires plain ==> Shows(start0, start, content, perm) && Within(before, la0, la)
      modifies `pages, `room
      ensures PagesValid() && la' == Plus(la, PGSIZE) && start' == if end < la' then end else la'
      ensures !ok ==> room == old(room) < 3
      ensures ok ==> old(room) - 3 <= room < old(room) && la in pages
      ensures ok && plain ==> Shows(start0, start', content, perm) && Within(before, la0, la')
    {
      ok, start', la' := NextPage(start, end, la, perm, content);
    }

    ghost predicate Within(before: map<nat, Page>, la0: nat, la1: nat)
      reads `pages
    {
      OnlyBetween(before, pages, la0, la1)
    }

    /** The last file page, of which start up to la is left, is cleared up to end; the size of
        that is computed in 64 bits and may exceed the page if end lies before start. The
        assertion of line 625 never fires. */
    method ClearTail(start: nat, end: nat, la: nat, perm: Perm, ghost start0: nat, ghost content: nat -> Byte)
      returns (stray: bool, start': nat)
      requires PagesValid() && start < la < WORD && end < WORD && Aligned(la)
      requires la - PGSIZE in pages && la - PGSIZE < start && start0 < start
      modifies `pages
      ensures PagesValid() && (stray <==> end < start) && (stray ==> pages == old(pages))
      ensures !stray ==> start' == (if end < la then end else la) && Within(old(pages), la - PGSIZE, la)
      ensures !stray && old(Shows(start0, start, content, perm)) ==>
                Shows(start0, start, content, perm) && Shows(start, start', ZeroByte, perm)
    {
      hide Plus, Minus, PageOf, Aligned;
      var off := start + PGSIZE - la;
      var size := PGSIZE - off;
      if end < la {
        size := Minus(size, la - end);
      }
      TailSize(start, end, la, size);
      if off + size > PGSIZE { return true, start; }
      Clear(start, size, la, perm, start0, content);
      start' := Plus(start, size);
      assert (end < la && start' == end) || (end >= la && start' == la);
      stray := false;
    }

    method Clear(start: nat, size: nat, la: nat, perm: Perm, ghost start0: nat, ghost content: nat -> Byte)
      requires PagesValid() && start0 < start < la && Aligned(la) && start + size <= la
      requires la - PGSIZE in pages && la - PGSIZE < start
      modifies `pages
      ensures PagesValid() && Within(old(pages), la - PGSIZE, la)
      ensures old(Shows(start0, start, content, perm)) ==>
                Shows(start0, start, content, perm) && Shows(start, start + size, ZeroByte, perm)
    {
      hide PageOf, Aligned;
      LastPage(la, start - 1);
      ghost var before := pages;
      assert ShowsIn(before, start0, start, content, perm) ==> HoldsIn(before, start - 1, content(start - 1), perm);
      Fill(la - PGSIZE, start + PGSIZE - la, seq(size, k => 0));
      forall a | start <= a < start + size && HoldsIn(before, start - 1, content(start - 1), perm)
        ensures HoldsIn(pages, a, 0, perm)
      {
        LastPage(la, a);
      }
      forall a, b | start0 <= a < start && HoldsIn(before, a, b, perm) ensures HoldsIn(pages, a, b, perm) {
        if a >= la - PGSIZE { LastPage(la, a); }
      }
    }

    ghost predicate Right(ph: ProgHdr, binary: nat -> Byte)
      reads `pages
    {
      RightIn(pages, ph, binary)
    }

    /** Lines 591-637: the pages of one segment whose area is mapped. */
    method Place(ph: ProgHdr, binary: nat -> Byte) returns (r: LoadResult)
      requires PagesValid() && ph.WellFormed() && ph.filesz <= ph.memsz
      modifies `pages, `room
      ensures PagesValid() && r in {Loaded, OutOfMemory, StrayWrite}
      ensures r == StrayWrite ==> ph.va + ph.memsz > WORD - PGSIZE
      ensures r == Loaded && ph.va + ph.memsz <= WORD - PGSIZE ==>
                Right(ph, binary) && Within(old(pages), PageOf(ph.va), RoundUp(ph.va + ph.memsz))
      ensures ph.va + ph.filesz >= WORD && Plus(ph.va, ph.memsz) <= ph.va ==> r == Loaded && pages == old(pages)
      ensures r == OutOfMemory ==> room < 3
      ensures UserAccess(AreaOf(ph).start, AreaOf(ph).end) ==>
        && (r == Loaded ==> Settles(ph) && Paid(old(room), room, Demand(ph)))
        && (r == StrayWrite ==> !Settles(ph))
        && (r == OutOfMemory && Settles(ph) ==> !Granted(old(room), Demand(ph)))
    {
      hide Plus, PageOf, Aligned, RoundUp, PagesValid, Placed, ShowsIn, OnlyBetween;
      PlusFits(ph);
      if UserAccess(AreaOf(ph).start, AreaOf(ph).end) { AboutDemand(ph); }
      var ok, start, la := PlaceFile(ph, binary);
      if !ok { return OutOfMemory; }
      r := PlaceZeros(ph, binary, start, la, old(pages));
    }

    method PlaceFile(ph: ProgHdr, binary: nat -> Byte) returns (ok: bool, start: nat, la: nat)
      requires PagesValid() && ph.WellFormed() && ph.filesz <= ph.memsz
      modifies `pages, `room
      ensures PagesValid() && start < WORD && la < WORD && Aligned(la)
      ensures ok && start < la ==> la - PGSIZE in pages && la - PGSIZE < start && ph.va < start
      ensures ok && la <= start ==> la == PageOf(start) && (start == la || start == ph.va)
      ensures ok && ph.va + ph.memsz <= WORD - PGSIZE ==>
                start == ph.va + ph.filesz && Placed(ph, binary, start, start, la, old(pages))
      ensures ph.va + ph.filesz >= WORD || ph.filesz == 0 ==>
                ok && start == ph.va && la == PageOf(ph.va) && pages == old(pages) && room == old(room)
      ensures !ok ==> room < 3
      ensures 0 < ph.filesz && WORD - PGSIZE < ph.va + ph.filesz < WORD ==> !ok
      ensures 0 < ph.filesz && ph.va + ph.filesz <= WORD - PGSIZE ==>
                var top := RoundUp(ph.va + ph.filesz);
                if ok then start == ph.va + ph.filesz && la == top && Paid(old(room), room, la - PageOf(ph.va))
                else !Granted(old(room), top - PageOf(ph.va))
    {
      hide PageOf, Aligned, RoundUp, PagesValid, FileByte, Within, Shows;
      var end := Plus(ph.va, ph.filesz);
      ok, start, la := FillPages(ph.va, end, PageOf(ph.va), PermOf(ph.flags), FileByte(ph, binary));
      if ok {
        PageOfAligned(la);
        RoundUpBounds(ph.va, end, ph.va + ph.memsz, la);
        NothingYet(start, la, PermOf(ph.flags), ZeroByte);
        NothingYet(start, la, PermOf(ph.flags), FileByte(ph, binary));
      }
    }

    /** File bytes are in place up to mid and zeros up to start, in pages below la, and no
        others have changed. */
    ghost predicate Placed(ph: ProgHdr, binary: nat -> Byte, mid: nat, start: nat, la: nat, before: map<nat, Page>)
      reads `pages
    {
      && ph.va <= mid <= start <= ph.va + ph.memsz <= WORD - PGSIZE && la <= RoundUp(ph.va + ph.memsz)
      && Shows(ph.va, mid, FileByte(ph, binary), PermOf(ph.flags))
      && Shows(mid, start, ZeroByte, PermOf(ph.flags))
      && Within(before, PageOf(ph.va), la)
    }

    method PlaceZeros(ph: ProgHdr, ghost binary: nat -> Byte, start0: nat, la0: nat, ghost before: map<nat, Page>)
      returns (r: LoadResult)
      requires PagesValid() && ph.WellFormed() && start0 < WORD && la0 < WORD && Aligned(la0)
      requires start0 < la0 ==> la0 - PGSIZE in pages && la0 - PGSIZE < start0 && ph.va < start0
      requires la0 <= start0 ==> la0 == PageOf(start0) && (start0 == la0 || start0 == ph.va)
      modifies `pages, `room
      ensures PagesValid() && r in {Loaded, OutOfMemory, StrayWrite}
      ensures r == StrayWrite <==> start0 < la0 && Plus(ph.va, ph.memsz) < start0
      ensures la0 <= start0 && Plus(ph.va, ph.memsz) <= start0 ==>
                r == Loaded && pages == old(pages) && room == old(room)
      ensures r == OutOfMemory ==> room < 3
      ensures var end := Plus(ph.va, ph.memsz);
        start0 <= end <= WORD - PGSIZE && (start0 < la0 ==> la0 == RoundUp(start0)) ==>
          match r
          case Loaded => Paid(old(room), room, if start0 == end then 0 else RoundUp(end) - la0)
          case OutOfMemory => start0 < end && !Granted(old(room), RoundUp(end) - la0)
          case _ => false
      ensures r == Loaded && old(Placed(ph, binary, start0, start0, la0, before)) ==>
                && Shows(ph.va, start0, FileByte(ph, binary), PermOf(ph.flags))
                && Shows(start0, ph.va + ph.memsz, ZeroByte, PermOf(ph.flags))
                && Within(before, PageOf(ph.va), RoundUp(ph.va + ph.memsz))
    {
      hide Plus, PageOf, Aligned, RoundUp, Placed, PagesValid;
      PlusFits(ph);
      if start0 <= Plus(ph.va, ph.memsz) <= WORD - PGSIZE { RoundUpNext(start0, Plus(ph.va, ph.memsz)); }
      PlacedFits(ph, binary, start0, la0, before);
      var end, start, la := Plus(ph.va, ph.memsz), start0, la0;
      if start < la {
        if start == end {
          PlacedAll(ph, binary, start0, la, before);
          return Loaded;
        }
        var stray;
        stray, start := ZeroTail(ph, binary, start, end, la, before);
        if stray { return StrayWrite; }
        PageOfAligned(la);
      }
      var ok;
      ok, la := ZeroPages(ph, binary, start0, start, end, la, before);
      if !ok { return OutOfMemory; }
      PlacedAll(ph, binary, start0, la, before);
      r := Loaded;
    }

    lemma PlacedFits(ph: ProgHdr, binary: nat -> Byte, start: nat, la: nat, before: map<nat, Page>)
      ensures Placed(ph, binary, start, start, la, before) ==> ph.va + ph.memsz <= WORD - PGSIZE
    {
    }

    lemma PageOfAligned(la: nat)
      requires Aligned(la)
      ensures PageOf(la) == la
    {
    }

    method ZeroTail(ph: ProgHdr, ghost binary: nat -> Byte, start: nat, end: nat, la: nat, ghost before: map<nat, Page>)
      returns (stray: bool, start': nat)
      requires PagesValid() && ph.va < start < la < WORD && end < WORD && Aligned(la)
      requires la - PGSIZE in pages && la - PGSIZE < start
      modifies `pages
      ensures PagesValid() && (stray <==> end < start)
      ensures !stray ==> start' == if end < la then end else la
      ensures !stray && ph.va + ph.memsz == end && old(Placed(ph, binary, start, start, la, before)) ==>
                Placed(ph, binary, start, start', la, before)
    {
      hide PageOf, Aligned, Shows, PagesValid, FileByte;
      stray, start' := ClearTail(start, end, la, PermOf(ph.flags), ph.va, FileByte(ph, binary));
      PageBelow(ph.va, la);
    }

    method ZeroPages(ph: ProgHdr, ghost binary: nat -> Byte, ghost mid: nat, start: nat, end: nat, la: nat,
                     ghost before: map<nat, Page>)
      returns (ok: bool, la': nat)
      requires PagesValid() && start < WORD && end < WORD && la < WORD && Aligned(la)
      requires start < end ==> la == PageOf(start) && (start == la || start == ph.va)
      modifies `pages, `room
      ensures PagesValid() && (start >= end ==> ok && pages == old(pages) && room == old(room)) && (!ok ==> room < 3)
      ensures start < end <= WORD - PGSIZE ==>
                if ok then Paid(old(room), room, RoundUp(end) - la) else !Granted(old(room), RoundUp(end) - la)
      ensures ok && ph.va + ph.memsz == end && old(Placed(ph, binary, mid, start, la, before)) ==>
                Placed(ph, binary, mid, end, la', before)
    {
      hide PageOf, Aligned, RoundUp, PagesValid, FileByte;
      var start';
      ok, start', la' := FillPages(start, end, la, PermOf(ph.flags), ZeroByte);
      if ok && start <= end {
        RoundUpBounds(start, end, end, la');
      }
    }

    lemma PlacedAll(ph: ProgHdr, binary: nat -> Byte, mid: nat, la: nat, before: map<nat, Page>)
      ensures Placed(ph, binary, mid, ph.va + ph.memsz, la, before) ==>
                && Shows(ph.va, mid, FileByte(ph, binary), PermOf(ph.flags))
                && Shows(mid, ph.va + ph.memsz, ZeroByte, PermOf(ph.flags))
                && Within(before, PageOf(ph.va), RoundUp(ph.va + ph.memsz))
    {
    }

    /** mm_map and the loops for one program header; headers that are not PT_LOAD are skipped.
        Every failure has its cause, and with a structure and three frames a page there is no
        other. */
    method LoadSegment(ph: ProgHdr, binary: nat -> Byte) returns (r: LoadResult)
      requires Valid() && ph.WellFormed()
      modifies `pages, `room, `structs, mm
      ensures Valid()
      ensures !ph.load ==> r == Loaded && pages == old(pages) && mm.areas == old(mm.areas)
      ensures r == InvalidElf <==> ph.load && ph.filesz > ph.memsz
      ensures r == InvalidRange <==> ph.load && ph.filesz <= ph.memsz && Refused(ph, old(mm.areas))
      ensures r == AssertFailure <==>
        ph.load && ph.filesz <= ph.memsz && !Refused(ph, old(mm.areas)) && old(structs) > 0 && !Apart(ph, old(mm.areas))
      ensures r == AssertFailure ==>
                exists u :: u in old(mm.areas) && !Disjoint(u, AreaOf(ph)) && !u.Contains(AreaOf(ph).start)
      ensures r == OutOfMemory ==> old(structs) == structs == 0 || room < 3
      ensures r == StrayWrite ==> !ph.Fits() && !Settles(ph)
      ensures r == Loaded ==> Spent(old(room), old(structs), room, structs, ph)
      ensures r == Loaded && ph.load ==> AreaMapped(ph, old(mm.areas), mm.areas) && Settles(ph)
      ensures r == Loaded && ph.load && ph.Fits() ==>
                RightIn(pages, ph, binary) && OnlyBetween(old(pages), pages, AreaOf(ph).start, AreaOf(ph).end)
      ensures ph.va + ph.filesz >= WORD && mm.areas != old(mm.areas) ==> r == Loaded && pages == old(pages)
      ensures Good(ph) && Apart(ph, old(mm.areas)) && old(structs) > 0 && Granted(old(room), Demand(ph)) ==> r == Loaded
    {
      hide Plus, PageOf, RoundUp, RoundDown, PagesValid, RightIn, OnlyBetween, AreaMapped, Disjoint, Apart, Demand;
      hide Settles;
      if !ph.load { return Loaded; }
      if ph.filesz > ph.memsz { return InvalidElf; }
      AreaIsFree(ph, mm.areas);
      r := MapArea(ph);
      if r == Loaded {
        AreaAccepted(ph, old(mm.areas), mm.areas);
        SettlesIfFits(ph);
        r := Place(ph, binary);
      }
    }

    method MapArea(ph: ProgHdr) returns (r: LoadResult)
      requires mm.Valid() && ph.WellFormed()
      modifies `structs, mm
      ensures mm.Valid() && r in {Loaded, InvalidRange, OutOfMemory, AssertFailure}
      ensures r == InvalidRange <==> Refused(ph, old(mm.areas))
      ensures r == OutOfMemory <==> !Refused(ph, old(mm.areas)) && old(structs) == 0
      ensures r == OutOfMemory ==> structs == 0
      ensures r == Loaded <==> Access(ph) && Apart(ph, old(mm.areas)) && old(structs) > 0
      ensures r == AssertFailure ==>
                exists u :: u in old(mm.areas) && !Disjoint(u, AreaOf(ph)) && !u.Contains(AreaOf(ph).start)
      ensures if r == Loaded then AreaMapped(ph, old(mm.areas), mm.areas) && structs == old(structs) - 1
              else mm.areas == old(mm.areas)
    {
      hide RoundDown, RoundUp, Sorted;
      var m := mm.MmMap(ph.va, ph.memsz, ph.flags, structs > 0);
      match m
      case Invalid => r := InvalidRange;
      case NoMemory => r := OutOfMemory;
      case AssertFails => r := AssertFailure;
      case Mapped => r, structs := Loaded, structs - 1;
    }

    /** load_icode: the segments, the stack area and its four pages. The result is right, for all
        segments at once, exactly if every segment ends below 2^64: a later segment never
        touches an earlier one, because mm_map keeps the areas apart.  Given its structures and
        three frames a page, it loads exactly the placeable programs; without, every failure has
        a cause. */
    method LoadIcode(phs: seq<ProgHdr>, binary: nat -> Byte, magicOk: bool) returns (r: LoadResult)
      requires Valid() && pages == map[] && mm.areas == []
      requires forall i :: 0 <= i < |phs| ==> phs[i].WellFormed()
      modifies this, mm
      ensures Valid()
      ensures !magicOk ==> r == InvalidElf
      ensures r == StrayWrite ==> !AllFit(phs)
      ensures r == Loaded ==> (AllRight(pages, phs, binary) <==> AllFit(phs))
      ensures r == Loaded ==> AllMapped(phs, mm.areas) && STACK in mm.areas
      ensures r == Loaded ==> StackMapped(pages)
      ensures r == Loaded && AllFit(phs) ==> StackTopOnly(pages) && PagesIn(pages, mm.areas)
      ensures r == Loaded ==> OwnAreas(phs, mm.areas)
      ensures r == Loaded && AllFit(phs) ==>
        forall i :: 0 <= i < |phs| && phs[i].load ==> InPlace(pages, phs[i], binary) && HasArea(mm.areas, phs[i])
      ensures r == Loaded ==> magicOk && Placeable(phs)
      ensures r == OutOfMemory ==> structs == 0 || room < 3
      ensures r in {InvalidRange, StrayWrite} ==> !Placeable(phs)
      ensures r == InvalidElf ==> !magicOk || !Placeable(phs)
      ensures r == AssertFailure ==> !Placeable(phs) || room < 3
      ensures Enough(phs, old(structs), old(room)) ==> (r == Loaded <==> magicOk && Placeable(phs))
    {
      hide Valid, AllMapped, AllRight, AllFit, StackMapped, Mm.Valid, PagesIn, AreasFrom, Placeable, StackTopOnly;
      hide Needed, Loads, OwnAreas, InPlace, HasArea;
      NothingToLoad(pages, mm.areas, binary);
      KeptInWord();
      if !magicOk { return InvalidElf; }
      var i := 0;
      while i < |phs|
        invariant 0 <= i <= |phs| && Valid()
        invariant AllMapped(phs[..i], mm.areas) && AreasFrom(phs[..i], mm.areas) && AllSettle(phs[..i])
        invariant AllFit(phs[..i]) ==> AllRight(pages, phs[..i], binary) && PagesIn(pages, mm.areas)
        invariant structs + Loads(phs[..i]) == old(structs) && Paid(old(room), room, Needed(phs[..i]))
      {
        NeededSoFar(phs, i);
        r := LoadNext(phs, i, binary);
        if r != Loaded { return; }
        i := i + 1;
      }
      assert phs[..i] == phs;
      r := MapStack(phs, binary);
      KeptInWord();
      if r == Loaded && AllRight(pages, phs, binary) {
        RightMeansFit(phs, mm.areas, pages, binary);
      }
      if r == Loaded && AllFit(phs) {
        PagesAreWhole();
        AllInPlace(phs, mm.areas, pages, binary);
      }
    }

    lemma PagesAreWhole()
      requires Valid()
      ensures forall la :: la in pages ==> |pages[la].bytes| == PGSIZE
    {
    }

    lemma KeptInWord()
      requires Valid()
      ensures forall la :: la in pages ==> la < WORD
    {
    }

    method LoadNext(phs: seq<ProgHdr>, i: nat, binary: nat -> Byte) returns (r: LoadResult)
      requires Valid() && i < |phs| && phs[i].WellFormed()
      requires AllMapped(phs[..i], mm.areas) && AreasFrom(phs[..i], mm.areas) && AllSettle(phs[..i])
      requires AllFit(phs[..i]) ==> AllRight(pages, phs[..i], binary) && PagesIn(pages, mm.areas)
      modifies `pages, `room, `structs, mm
      ensures Valid()
      ensures r == StrayWrite ==> !AllFit(phs)
      ensures r == Loaded ==>
        && AllMapped(phs[..i + 1], mm.areas) && AreasFrom(phs[..i + 1], mm.areas) && AllSettle(phs[..i + 1])
        && Spent(old(room), old(structs), room, structs, phs[i])
      ensures r == Loaded && AllFit(phs[..i + 1]) ==> AllRight(pages, phs[..i + 1], binary) && PagesIn(pages, mm.areas)
      ensures r == OutOfMemory ==> structs == 0 || room < 3
      ensures !phs[i].load ==> r == Loaded
      ensures r !in {Loaded, OutOfMemory} ==> !Placeable(phs)
      ensures r == OutOfMemory && old(structs) > 0 && Granted(old(room), Demand(phs[i])) ==> !Placeable(phs)
    {
      hide AllMapped, AllFit, AllRight, PagesValid, AreaOf, AreaMapped, RightIn, OnlyBetween, Disjoint, Demand;
      hide Placeable, AreasFrom, PagesIn, AllSettle, Settles, Apart, Access;
      ghost var before, areas := pages, mm.areas;
      if phs[i].load { PlaceableAt(phs, i, areas); }
      r := LoadSegment(phs[i], binary);
      if r == Loaded {
        OneMore(phs, i, binary, before, pages, areas, mm.areas);
        OneMoreArea(phs, i, before, pages, areas, mm.areas);
      }
      StrayDoesNotFit(phs, i);
    }

    method MapStack(ghost phs: seq<ProgHdr>, ghost binary: nat -> Byte) returns (r: LoadResult)
      requires Valid() && AllMapped(phs, mm.areas) && AreasFrom(phs, mm.areas) && AllSettle(phs)
      requires AllFit(phs) ==> PagesIn(pages, mm.areas)
      modifies `pages, `room, `structs, mm
      ensures Valid() && r in {Loaded, InvalidRange, OutOfMemory, AssertFailure}
      ensures r == Loaded ==> AllMapped(phs, mm.areas) && STACK in mm.areas && StackMapped(pages) && Placeable(phs)
      ensures r == Loaded && AllFit(phs) && AllRight(old(pages), phs, binary) ==> AllRight(pages, phs, binary)
      ensures r == Loaded && AllFit(phs) ==> StackTopOnly(pages) && PagesIn(pages, mm.areas)
      ensures r == Loaded ==> OwnAreas(phs, mm.areas)
      ensures r == OutOfMemory ==> structs == 0
      ensures r == InvalidRange ==> !Placeable(phs)
      ensures r == AssertFailure ==> !Placeable(phs) || room < 3
      ensures Placeable(phs) && old(structs) > 0 && Granted(old(room), 4 * PGSIZE) ==> r == Loaded
    {
      hide AllMapped, AllFit, AllRight, StackMapped, OnlyBetween, AreasFrom, AllSettle, Placeable, PagesIn;
      hide StackTopOnly, OwnAreas;
      ghost var before, areas := pages, mm.areas;
      PlaceableByStack(phs, areas);
      r := MapStackArea();
      if r == Loaded {
        var ok := StackPages();
        if !ok { return AssertFailure; }
        StackApart(phs, binary, before, pages, areas, mm.areas);
        AndTheStack(phs, areas, mm.areas);
        if AllFit(phs) { StackTop(before, pages, areas, mm.areas); }
      }
    }

    method MapStackArea() returns (r: LoadResult)
      requires mm.Valid()
      modifies `structs, mm
      ensures mm.Valid() && r in {Loaded, InvalidRange, OutOfMemory, AssertFailure}
      ensures r == Loaded <==> old(structs) > 0 && forall u :: u in old(mm.areas) ==> Disjoint(u, STACK)
      ensures r == OutOfMemory ==> structs == old(structs) == 0
      ensures r in {InvalidRange, AssertFailure} ==> exists u :: u in old(mm.areas) && !Disjoint(u, STACK)
      ensures r == Loaded ==> forall u :: u in mm.areas <==> u in old(mm.areas) || u == STACK
    {
      hide Sorted;
      var m := mm.MmMap(USTACKTOP - USTACKSIZE, USTACKSIZE, STACK.flags, structs > 0);
      match m
      case Invalid => r := InvalidRange;
      case NoMemory => r := OutOfMemory;
      case AssertFails => r := AssertFailure;
      case Mapped => r, structs := Loaded, structs - 1;
    }

    /** Lines 644-647; a page that cannot be had fails an assertion. */
    method StackPages() returns (ok: bool)
      requires PagesValid()
      modifies `pages, `room
      ensures PagesValid() && (!ok ==> room < 3) && (Granted(old(room), 4 * PGSIZE) ==> ok)
      ensures ok ==> StackMapped(pages) && OnlyBetween(old(pages), pages, USTACKTOP - 4 * PGSIZE, USTACKTOP)
    {
      var n := 0;
      while n < 4
        invariant 0 <= n <= 4 && PagesValid() && room + 3 * n >= old(room)
        invariant forall k :: 1 <= k <= n ==> StackPage(pages, k)
        invariant OnlyBetween(old(pages), pages, USTACKTOP - 4 * PGSIZE, USTACKTOP)
      {
        n := n + 1;
        ghost var before := pages;
        ok := AllocPage(USTACKTOP - n * PGSIZE, Perm(true, true, true));
        if !ok { return; }
        forall k | 1 <= k < n ensures StackPage(pages, k) {
          assert StackPage(before, k);
        }
      }
      ok := true;
    }
  }

  // ---- what can be loaded ----

  predicate Access(ph: ProgHdr) {
    UserAccess(AreaOf(ph).start, AreaOf(ph).end)
  }

  /** mm_map returns -E_INVAL. */
  predicate Refused(ph: ProgHdr, areas: seq<Area>) {
    !Access(ph) || Scan(areas, AreaOf(ph).start).Some?
  }

  ghost predicate Apart(ph: ProgHdr, areas: seq<Area>) {
    forall u :: u in areas ==> Disjoint(u, AreaOf(ph))
  }

  /** What a header must say by itself. */
  predicate Good(ph: ProgHdr) {
    ph.filesz <= ph.memsz && Access(ph) && Settles(ph)
  }

  /** What one header costs. */
  ghost predicate Spent(room: nat, structs: nat, room': nat, structs': nat, ph: ProgHdr) {
    && structs == structs' + (if ph.load then 1 else 0)
    && Paid(room, room', if ph.load then Demand(ph) else 0)
  }

  lemma AreaIsFree(ph: ProgHdr, areas: seq<Area>)
    ensures Access(ph) && Apart(ph, areas) ==> !Refused(ph, areas)
  {
  }

  lemma SettlesIfFits(ph: ProgHdr)
    ensures ph.Fits() ==> Settles(ph)
  {
  }

  /** A program whose segments are good and apart from each other and from the stack. */
  ghost predicate Placeable(phs: seq<ProgHdr>) {
    && (forall i :: 0 <= i < |phs| && phs[i].load ==> Good(phs[i]) && Disjoint(AreaOf(phs[i]), STACK))
    && (forall i, j :: 0 <= i < j < |phs| && phs[i].load && phs[j].load ==> Disjoint(AreaOf(phs[i]), AreaOf(phs[j])))
  }

  ghost predicate AllSettle(phs: seq<ProgHdr>) {
    forall i :: 0 <= i < |phs| && phs[i].load ==> Settles(phs[i])
  }

  /** There are no other areas than those of phs. */
  ghost predicate AreasFrom(phs: seq<ProgHdr>, areas: seq<Area>) {
    forall u :: u in areas ==> exists j :: 0 <= j < |phs| && phs[j].load && AreaOf(phs[j]) == u
  }

  ghost predicate PagesIn(pages: map<nat, Page>, areas: seq<Area>) {
    forall la :: la in pages ==> exists u :: u in areas && u.Contains(la)
  }

  /** Of the stack only the top four pages are there. */
  ghost predicate StackTopOnly(pages: map<nat, Page>) {
    forall la :: la in pages && STACK.Contains(la) ==> USTACKTOP - 4 * PGSIZE <= la
  }

  function Loads(phs: seq<ProgHdr>): nat {
    if phs == [] then 0 else Loads(phs[..|phs| - 1]) + if phs[|phs| - 1].load then 1 else 0
  }

  /** The bytes of all pages that the segments ask for. */
  function Needed(phs: seq<ProgHdr>): nat {
    if phs == [] then 0 else Needed(phs[..|phs| - 1]) + if phs[|phs| - 1].load then Demand(phs[|phs| - 1]) else 0
  }

  /** A structure for each segment and the stack, and three frames for each page. */
  predicate Enough(phs: seq<ProgHdr>, structs: nat, room: nat) {
    Loads(phs) < structs && Granted(room, Needed(phs) + 4 * PGSIZE)
  }

  lemma {:induction false} NeededGrows(phs: seq<ProgHdr>, i: nat)
    requires i <= |phs|
    ensures Needed(phs[..i]) <= Needed(phs) && Loads(phs[..i]) <= Loads(phs)
  {
    if i < |phs| {
      NeededGrows(phs[..|phs| - 1], i);
      assert phs[..|phs| - 1][..i] == phs[..i];
    } else {
      assert phs[..i] == phs;
    }
  }

  lemma NeededSoFar(phs: seq<ProgHdr>, i: nat)
    requires i < |phs|
    ensures Needed(phs[..i + 1]) == Needed(phs[..i]) + if phs[i].load then Demand(phs[i]) else 0
    ensures Loads(phs[..i + 1]) == Loads(phs[..i]) + if phs[i].load then 1 else 0
    ensures Needed(phs[..i + 1]) <= Needed(phs) && Loads(phs[..i + 1]) <= Loads(phs)
  {
    assert phs[..i + 1][..i] == phs[..i];
    NeededGrows(phs, i + 1);
  }

  /** In a placeable program nothing stands in the way of the next segment. */
  lemma PlaceableAt(phs: seq<ProgHdr>, i: nat, areas: seq<Area>)
    requires i < |phs| && phs[i].load && AreasFrom(phs[..i], areas)
    ensures Placeable(phs) ==> Good(phs[i]) && Apart(phs[i], areas) && !Refused(phs[i], areas)
  {
    hide AreaOf, Disjoint, Good, Refused;
    if Placeable(phs) {
      forall u | u in areas ensures Disjoint(u, AreaOf(phs[i])) {
        var j :| 0 <= j < i && phs[..i][j].load && AreaOf(phs[..i][j]) == u;
        assert phs[j].load;
      }
      GoodAccess(phs[i]);
      AreaIsFree(phs[i], areas);
    }
  }

  lemma GoodAccess(ph: ProgHdr)
    requires Good(ph)
    ensures Access(ph)
  {
  }

  lemma PlaceableByStack(phs: seq<ProgHdr>, areas: seq<Area>)
    requires AllMapped(phs, areas) && AreasFrom(phs, areas) && AllSettle(phs)
    ensures Placeable(phs) <==> forall u :: u in areas ==> Disjoint(u, STACK)
  {
    hide AreaOf, Disjoint, Settles;
  }

  lemma OneMoreArea(phs: seq<ProgHdr>, i: nat, before: map<nat, Page>, after: map<nat, Page>,
                    areas: seq<Area>, areas': seq<Area>)
    requires i < |phs| && AreasFrom(phs[..i], areas) && AllSettle(phs[..i])
    requires phs[i].load ==> Settles(phs[i])
    requires if phs[i].load then AreaMapped(phs[i], areas, areas') else areas' == areas
    requires AllFit(phs[..i]) ==> PagesIn(before, areas)
    requires if !phs[i].load then after == before
             else phs[i].Fits() ==> OnlyBetween(before, after, AreaOf(phs[i]).start, AreaOf(phs[i]).end)
    ensures AreasFrom(phs[..i + 1], areas') && AllSettle(phs[..i + 1])
    ensures AllFit(phs[..i + 1]) ==> PagesIn(after, areas')
  {
    hide AreaOf, Settles;
    var next := phs[..i + 1];
    assert forall j :: 0 <= j < i ==> next[j] == phs[..i][j];
    forall u | u in areas' ensures exists j :: 0 <= j < |next| && next[j].load && AreaOf(next[j]) == u {
      if u in areas {
        var j :| 0 <= j < i && phs[..i][j].load && AreaOf(phs[..i][j]) == u;
        assert next[j].load;
      } else {
        assert next[i].load;
      }
    }
    if AllFit(next) {
      assert AllFit(phs[..i]);
      assert phs[i].load ==> next[i].Fits();
      forall la | la in after ensures exists u :: u in areas' && u.Contains(la) {
        if la !in before {
          assert AreaOf(phs[i]) in areas' && AreaOf(phs[i]).Contains(la);
        } else {
          var u :| u in areas && u.Contains(la);
          assert u in areas';
        }
      }
    }
  }

  /** There are no other areas than those of phs and the stack. */
  ghost predicate OwnAreas(phs: seq<ProgHdr>, areas: seq<Area>) {
    forall u :: u in areas ==> u == STACK || exists j :: 0 <= j < |phs| && phs[j].load && AreaOf(phs[j]) == u
  }

  lemma AndTheStack(phs: seq<ProgHdr>, areas: seq<Area>, areas': seq<Area>)
    requires AreasFrom(phs, areas) && forall u :: u in areas' <==> u in areas || u == STACK
    ensures OwnAreas(phs, areas')
  {
    hide AreaOf;
  }

  lemma StackTop(before: map<nat, Page>, after: map<nat, Page>, areas: seq<Area>, areas': seq<Area>)
    requires PagesIn(before, areas) && forall u :: u in areas ==> Disjoint(u, STACK)
    requires forall u :: u in areas' <==> u in areas || u == STACK
    requires OnlyBetween(before, after, USTACKTOP - 4 * PGSIZE, USTACKTOP)
    ensures StackTopOnly(after) && PagesIn(after, areas')
  {
    forall la | la in after ensures exists u :: u in areas' && u.Contains(la) {
      if la in before {
        var u :| u in areas && u.Contains(la);
        assert u in areas';
      } else {
        assert STACK.Contains(la);
      }
    }
  }

  /** Areas of a loaded program are user ranges of whole pages. */
  lemma OwnAreasAreUser(phs: seq<ProgHdr>, areas: seq<Area>, u: Area)
    requires AllMapped(phs, areas) && OwnAreas(phs, areas) && u in areas
    ensures UserAccess(u.start, u.end) && u.start % PGSIZE == 0 && u.end % PGSIZE == 0
  {
  }

  function AreaOf(ph: ProgHdr): Area {
    Area(PageOf(ph.va), RoundUp(Plus(ph.va, ph.memsz)), ph.flags)
  }

  /** Where the pages that load_icode asks for end, if it comes to an end. */
  function LastByte(ph: ProgHdr): nat {
    ph.va + if ph.Fits() then ph.memsz else ph.filesz
  }

  /** The bytes of the pages that load_icode asks for. */
  function Demand(ph: ProgHdr): (n: nat) {
    if ph.va < LastByte(ph) <= WORD - PGSIZE then RoundUpAbove(ph.va, LastByte(ph)) else 0
  }

  function RoundUpAbove(va: nat, last: nat): (n: nat)
    requires va < last <= WORD - PGSIZE
    ensures n == RoundUp(last) - PageOf(va)
  {
    PageInside(va, last);
    RoundUp(last) - PageOf(va)
  }

  /** The loops come to an end, and the clearing of the last file page stays within it.  A
      segment that wraps around does so only if its file part is empty, or wraps around, too, or
      ends with a page. */
  predicate Settles(ph: ProgHdr) {
    var last := ph.va + ph.filesz;
    ph.Fits() || ph.filesz == 0 || last >= WORD || (last <= WORD - PGSIZE && Aligned(last))
  }

  lemma AboutDemand(ph: ProgHdr)
    requires ph.WellFormed() && UserAccess(AreaOf(ph).start, AreaOf(ph).end) && ph.filesz <= ph.memsz
    ensures ph.Fits() <==> ph.va + ph.memsz <= WORD - PGSIZE
    ensures ph.Fits() ==> Plus(ph.va, ph.memsz) == ph.va + ph.memsz
    ensures !ph.Fits() ==> Plus(ph.va, ph.memsz) < ph.va
    ensures ph.Fits() && 0 < ph.memsz ==> Demand(ph) == RoundUp(ph.va + ph.memsz) - PageOf(ph.va)
    ensures ph.Fits() && ph.memsz == 0 ==> Demand(ph) == 0
    ensures ph.Fits() && 0 < ph.filesz ==> RoundUp(ph.va + ph.filesz) <= RoundUp(ph.va + ph.memsz)
    ensures !ph.Fits() && 0 < ph.filesz && ph.va + ph.filesz <= WORD - PGSIZE ==>
              Demand(ph) == RoundUp(ph.va + ph.filesz) - PageOf(ph.va)
    ensures !ph.Fits() && !(0 < ph.filesz && ph.va + ph.filesz <= WORD - PGSIZE) ==> Demand(ph) == 0
    ensures ph.va + ph.filesz <= WORD - PGSIZE ==>
              && ph.va + ph.filesz <= RoundUp(ph.va + ph.filesz)
              && (Aligned(ph.va + ph.filesz) <==> ph.va + ph.filesz == RoundUp(ph.va + ph.filesz))
  {
    hide Plus, PageOf, RoundUp, Aligned, UserAccess, AreaOf;
    Accepted(ph);
    PlusFits(ph);
    if ph.va + ph.filesz <= WORD - PGSIZE { AboutRoundUp(ph.va + ph.filesz); }
    if ph.Fits() { RoundUpNext(ph.va + ph.filesz, ph.va + ph.memsz); }
  }

  lemma PlusFits(ph: ProgHdr)
    requires ph.WellFormed()
    ensures Plus(ph.va, ph.memsz) < WORD && (ph.Fits() ==> Plus(ph.va, ph.memsz) == ph.va + ph.memsz)
  {
  }

  /** The area of ph is a user range, apart from those that were there, and is all that is new. */
  ghost predicate AreaMapped(ph: ProgHdr, before: seq<Area>, after: seq<Area>) {
    && UserAccess(AreaOf(ph).start, AreaOf(ph).end)
    && (forall u :: u in before ==> Disjoint(u, AreaOf(ph)))
    && (forall u :: u in after <==> u in before || u == AreaOf(ph))
  }

  /** What mm_map accepts: a segment that fits into 64 bits lies within its area; one that does
      not wraps around to an address below p_va in the same page. */
  lemma Accepted(ph: ProgHdr)
    requires ph.WellFormed() && UserAccess(AreaOf(ph).start, AreaOf(ph).end)
    ensures ph.Fits() ==> ph.va + ph.memsz <= AreaOf(ph).end == RoundUp(ph.va + ph.memsz)
    ensures ph.Fits() <==> ph.va + ph.memsz <= WORD - PGSIZE
    ensures !ph.Fits() ==> PageOf(ph.va) < ph.va + ph.memsz - WORD < ph.va
    ensures !ph.Fits() ==> Plus(ph.va, ph.memsz) == ph.va + ph.memsz - WORD
  {
  }

  // ---- what is loaded, byte by byte ----

  /** Byte k of the segment stands at p_va + k: that of the program file at p_offset + k up to
      p_filesz, and zero from there on, in a page that can be read if the segment can be read or
      written, and written and executed if it can. */
  predicate ByteInPlace(pages: map<nat, Page>, ph: ProgHdr, binary: nat -> Byte, k: nat) {
    var a := ph.va + k;
    var la := a - a % 4096;
    && la in pages && |pages[la].bytes| == 4096
    && pages[la].bytes[a % 4096] == (if k < ph.filesz then binary(ph.offset + k) else 0)
    && (pages[la].perm.read <==> ph.flags.read || ph.flags.write)
    && (pages[la].perm.write <==> ph.flags.write) && (pages[la].perm.exec <==> ph.flags.exec)
  }

  ghost predicate InPlace(pages: map<nat, Page>, ph: ProgHdr, binary: nat -> Byte) {
    forall k :: 0 <= k < ph.memsz ==> ByteInPlace(pages, ph, binary, k)
  }

  /** An area with the segment's flags covers just the pages that it touches. */
  ghost predicate HasArea(areas: seq<Area>, ph: ProgHdr) {
    exists u :: u in areas && Encloses(u, ph)
  }

  predicate Encloses(u: Area, ph: ProgHdr) {
    && u.start == ph.va - ph.va % 4096 && u.end % 4096 == 0
    && ph.va + ph.memsz <= u.end < ph.va + ph.memsz + 4096 && u.flags == ph.flags
  }

  lemma RightMeansInPlace(pages: map<nat, Page>, ph: ProgHdr, binary: nat -> Byte)
    requires RightIn(pages, ph, binary) && (forall la :: la in pages ==> |pages[la].bytes| == PGSIZE)
    requires ph.filesz <= ph.memsz
    ensures InPlace(pages, ph, binary)
  {
    forall k | 0 <= k < ph.memsz ensures ByteInPlace(pages, ph, binary, k) {
      var a := ph.va + k;
      if k < ph.filesz {
        assert HoldsIn(pages, a, FileByte(ph, binary)(a), PermOf(ph.flags));
      } else {
        assert HoldsIn(pages, a, ZeroByte(a), PermOf(ph.flags));
      }
    }
  }

  lemma AreaEncloses(ph: ProgHdr)
    requires ph.WellFormed() && ph.Fits() && UserAccess(AreaOf(ph).start, AreaOf(ph).end)
    ensures Encloses(AreaOf(ph), ph)
  {
    Accepted(ph);
  }

  lemma AllInPlace(phs: seq<ProgHdr>, areas: seq<Area>, pages: map<nat, Page>, binary: nat -> Byte)
    requires AllMapped(phs, areas) && AllFit(phs) && AllRight(pages, phs, binary)
    requires forall la :: la in pages ==> |pages[la].bytes| == PGSIZE
    ensures forall i :: 0 <= i < |phs| && phs[i].load ==> InPlace(pages, phs[i], binary) && HasArea(areas, phs[i])
  {
    hide RightIn, AreaOf, InPlace, Encloses;
    forall i | 0 <= i < |phs| && phs[i].load ensures InPlace(pages, phs[i], binary) && HasArea(areas, phs[i]) {
      RightMeansInPlace(pages, phs[i], binary);
      AreaEncloses(phs[i]);
    }
  }

  /** One megabyte below 2 GB, to be read and written; only its four pages are executable, too. */
  lemma StackIs()
    ensures STACK == Area(0x7FF0_0000, 0x8000_0000, Flags(true, true, false, true))
  {
  }

  const STACK: Area := Area(USTACKTOP - USTACKSIZE, USTACKTOP, Flags(true, true, false, true))

  ghost predicate AllFit(phs: seq<ProgHdr>) {
    forall i :: 0 <= i < |phs| && phs[i].load ==> phs[i].Fits()
  }

  ghost predicate AllRight(pages: map<nat, Page>, phs: seq<ProgHdr>, binary: nat -> Byte) {
    forall i :: 0 <= i < |phs| && phs[i].load ==> RightIn(pages, phs[i], binary)
  }

  /** Every loaded segment has its own area, apart from those of the others. */
  ghost predicate AllMapped(phs: seq<ProgHdr>, areas: seq<Area>) {
    && (forall i :: 0 <= i < |phs| && phs[i].load ==>
          && phs[i].WellFormed() && phs[i].filesz <= phs[i].memsz
          && AreaOf(phs[i]) in areas && UserAccess(AreaOf(phs[i]).start, AreaOf(phs[i]).end))
    && (forall i, j :: 0 <= i < j < |phs| && phs[i].load && phs[j].load ==> Disjoint(AreaOf(phs[i]), AreaOf(phs[j])))
  }

  /** The top four pages of the stack are there. */
  ghost predicate StackMapped(pages: map<nat, Page>) {
    forall n :: 1 <= n <= 4 ==> StackPage(pages, n)
  }

  ghost predicate StackPage(pages: map<nat, Page>, n: nat)
    requires n <= 4
  {
    var la := USTACKTOP - n * PGSIZE; la in pages && pages[la].perm == Perm(true, true, true)
  }

  lemma AreaAccepted(ph: ProgHdr, before: seq<Area>, after: seq<Area>)
    requires ph.WellFormed() && AreaMapped(ph, before, after)
    ensures AreaOf(ph).start == PageOf(ph.va)
    ensures ph.Fits() ==> ph.va + ph.memsz <= AreaOf(ph).end == RoundUp(ph.va + ph.memsz)
    ensures ph.Fits() <==> ph.va + ph.memsz <= WORD - PGSIZE
    ensures !ph.Fits() ==> Plus(ph.va, ph.memsz) < ph.va
  {
    Accepted(ph);
  }

  lemma StrayDoesNotFit(phs: seq<ProgHdr>, i: nat)
    requires i < |phs|
    ensures phs[i].load && !phs[i].Fits() ==> !AllFit(phs)
  {
  }

  lemma OneMore(phs: seq<ProgHdr>, i: nat, binary: nat -> Byte, before: map<nat, Page>, after: map<nat, Page>,
                areas: seq<Area>, areas': seq<Area>)
    requires i < |phs| && phs[i].WellFormed() && AllMapped(phs[..i], areas)
    requires phs[i].load ==> phs[i].filesz <= phs[i].memsz
    requires if phs[i].load then AreaMapped(phs[i], areas, areas') else areas' == areas
    requires AllFit(phs[..i]) ==> AllRight(before, phs[..i], binary)
    requires if !phs[i].load then after == before
             else phs[i].Fits() ==> RightIn(after, phs[i], binary)
                                    && OnlyBetween(before, after, AreaOf(phs[i]).start, AreaOf(phs[i]).end)
    ensures AllMapped(phs[..i + 1], areas')
    ensures AllFit(phs[..i + 1]) ==> AllRight(after, phs[..i + 1], binary)
  {
    hide RightIn, OnlyBetween, AreaOf;
    var next := phs[..i + 1];
    assert forall j :: 0 <= j < i ==> next[j] == phs[..i][j];
    if AllFit(next) {
      assert AllFit(phs[..i]);
      forall j | 0 <= j < i && phs[j].load && phs[i].load ensures RightIn(after, next[j], binary) {
        assert phs[..i][j].load && next[i].Fits();
        RightKept(before, after, phs[j], binary, AreaOf(phs[i]).start, AreaOf(phs[i]).end);
      }
    }
  }

  lemma StackApart(phs: seq<ProgHdr>, binary: nat -> Byte, before: map<nat, Page>, after: map<nat, Page>,
                   areas: seq<Area>, areas': seq<Area>)
    requires AllMapped(phs, areas) && OnlyBetween(before, after, USTACKTOP - 4 * PGSIZE, USTACKTOP)
    requires (forall u :: u in areas ==> Disjoint(u, STACK)) && forall u :: u in areas' <==> u in areas || u == STACK
    ensures AllMapped(phs, areas')
    ensures AllFit(phs) && AllRight(before, phs, binary) ==> AllRight(after, phs, binary)
  {
    hide RightIn, OnlyBetween, AreaOf;
    if AllFit(phs) && AllRight(before, phs, binary) {
      forall j | 0 <= j < |phs| && phs[j].load ensures RightIn(after, phs[j], binary) {
        RightKept(before, after, phs[j], binary, USTACKTOP - 4 * PGSIZE, USTACKTOP);
      }
    }
  }

  lemma NothingToLoad(pages: map<nat, Page>, areas: seq<Area>, binary: nat -> Byte)
    ensures AllMapped([], areas) && AllFit([]) && AllRight(pages, [], binary) && AllSettle([])
    ensures AreasFrom([], []) && PagesIn(map[], areas) && Loads([]) == Needed([]) == 0
  {
  }

  lemma RightMeansFit(phs: seq<ProgHdr>, areas: seq<Area>, pages: map<nat, Page>, binary: nat -> Byte)
    requires AllMapped(phs, areas) && AllRight(pages, phs, binary) && forall la :: la in pages ==> la < WORD
    ensures AllFit(phs)
  {
    forall i | 0 <= i < |phs| && phs[i].load ensures phs[i].Fits() {
      RightFits(pages, phs[i], binary);
    }
  }

  /** Placing pages in another area leaves a segment right. */
  lemma RightKept(before: map<nat, Page>, after: map<nat, Page>, ph: ProgHdr, binary: nat -> Byte, lo: nat, hi: nat)
    requires ph.WellFormed() && ph.Fits() && UserAccess(AreaOf(ph).start, AreaOf(ph).end) && ph.filesz <= ph.memsz
    requires RightIn(before, ph, binary) && OnlyBetween(before, after, lo, hi)
    requires AreaOf(ph).end <= lo || hi <= AreaOf(ph).start
    ensures RightIn(after, ph, binary)
  {
    hide RoundUp, RoundDown, Plus;
    Accepted(ph);
    forall a | ph.va <= a < ph.va + ph.memsz ensures AreaOf(ph).start <= PageOf(a) < AreaOf(ph).end {
      PageWithin(ph.va, a);
    }
  }

  lemma PageWithin(va: nat, a: nat)
    requires va <= a
    ensures PageOf(va) <= PageOf(a) <= a
  {
  }

  /** A segment that wraps around is never right: its bytes beyond 2^64 are nowhere. */
  lemma RightFits(pages: map<nat, Page>, ph: ProgHdr, binary: nat -> Byte)
    requires ph.WellFormed() && UserAccess(AreaOf(ph).start, AreaOf(ph).end)
    requires forall la :: la in pages ==> la < WORD
    ensures RightIn(pages, ph, binary) ==> ph.Fits()
  {
    Accepted(ph);
    assert PageOf(WORD) == WORD;
    assert !HoldsIn(pages, WORD, FileByte(ph, binary)(WORD), PermOf(ph.flags));
    assert !HoldsIn(pages, WORD, ZeroByte(WORD), PermOf(ph.flags));
  }

  /** Such a segment exists: mm_map takes this one for a single page at 0x800000. */
  const WRAPPING: ProgHdr :=
    ProgHdr(true, 0x80_0800, WORD - 0x400, WORD - 0x400, 0, Flags(true, false, false, false))

  lemma WrapIsAccepted() returns (ph: ProgHdr)
    ensures ph == WRAPPING && ph.WellFormed() && ph.load && ph.filesz == ph.memsz && !ph.Fits()
    ensures UserAccess(AreaOf(ph).start, AreaOf(ph).end) && AreaOf(ph).end == 0x80_1000
    ensures Settles(ph) && Demand(ph) == 0
  {
    ph := WRAPPING;
    InPage(0x80_0000, 0x80_0800);
    assert Plus(0x80_0800, WORD - 0x400) == 0x80_0400;
    assert RoundUp(0x80_0400) == 0x80_1000;
  }

  /** load_icode loads it, given a structure for it and one for the stack, and frames for the four
      stack pages; but its bytes are not there. */
  method WrapIsLoaded(frames: nat, structs: nat, binary: nat -> Byte) returns (r: LoadResult, image: Image)
    requires frames >= 12 && structs >= 2
    ensures r == Loaded && !AllRight(image.pages, [WRAPPING], binary)
  {
    hide AreaOf, Settles, Demand, AllRight, Granted, Image.Valid;
    ghost var ph := WrapIsAccepted();
    assert ph == [WRAPPING][0];
    OneHeader(WRAPPING);
    EnoughForNothing(frames);
    image := new Image(frames, structs);
    r := image.LoadIcode([WRAPPING], binary, true);
  }

  lemma OneHeader(ph: ProgHdr)
    ensures Loads([ph]) == (if ph.load then 1 else 0) && Needed([ph]) == if ph.load then Demand(ph) else 0
    ensures ph.load && Good(ph) && AreaOf(ph).end <= STACK.start ==> Placeable([ph])
  {
    assert [ph][..0] == [];
  }

  lemma EnoughForNothing(frames: nat)
    requires frames >= 12
    ensures Granted(frames, 4 * PGSIZE)
  {
  }

  lemma PageBelow(a: nat, la: nat)
    requires Aligned(la) && a < la
    ensures PageOf(a) <= la - PGSIZE
  {
  }

  /** Below the last page rounding up does not wrap, and is monotonic. */
  lemma RoundUpBounds(start: nat, mid: nat, end: nat, la: nat)
    requires start <= end && mid <= end
    ensures end <= WORD - PGSIZE && Aligned(la) && mid <= la < mid + PGSIZE ==> la <= RoundUp(end)
    ensures end <= WORD - PGSIZE ==> PageOf(start) <= RoundUp(end)
  {
  }

  function ZeroByte(a: nat): Byte {
    0
  }

  function FileByteAt(ph: ProgHdr, binary: nat -> Byte, a: nat): Byte {
    if a >= ph.va then binary(ph.offset + (a - ph.va)) else 0
  }

  function FileByte(ph: ProgHdr, binary: nat -> Byte): nat -> Byte {
    (a: nat) => FileByteAt(ph, binary, a)
  }
}
