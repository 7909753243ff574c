/**
  The three-level Sv39 page table (section 4.4 of the RISC-V Privileged Architecture) as get_pte
  builds and walks it (lab5/cow/pmm.c:214-239): pages of 512 words, each word an entry.  The
  trees of all processes, in one memory, are shown to be the flat map that CowState works with.
 */
module PageTable {
  import opened Vma
  import opened CowState

  const PAGES: nat := 0x800_0000

  // ---- entries ----

  /** pte_create: the page number above ten flag bits, V always set. */
  function PteCreate(ppn: nat, flags: nat): nat
    requires flags < 1024
  {
    ppn * 1024 + (if flags % 2 == 1 then flags else flags + 1)
  }

  predicate IsValid(word: nat) {
    word % 2 == 1
  }

  function Ppn(word: nat): nat {
    word / 1024
  }

  /** A valid entry with none of R, W and X leads to a table of the next level. */
  predicate IsPointer(word: nat) {
    IsValid(word) && word / 2 % 8 == 0
  }

  lemma NotValidZero()
    ensures !IsValid(0)
  {
  }

  function Bit(b: bool, weight: nat): nat {
    if b then weight else 0
  }

  /** The flags of a user leaf: PTE_V 1, PTE_R 2, PTE_W 4, PTE_X 8, PTE_U 16. */
  function Flags(leaf: Leaf): nat {
    17 + Bit(leaf.r, 2) + Bit(leaf.w, 4) + Bit(leaf.x, 8)
  }

  function Encode(leaf: Leaf): nat {
    PteCreate(leaf.frame, Flags(leaf))
  }

  function Decode(word: nat): Leaf {
    Leaf(Ppn(word), word / 2 % 2 == 1, word / 4 % 2 == 1, word / 8 % 2 == 1)
  }

  lemma PpnAndValid(f: nat, c: nat)
    requires c < 1024
    ensures (f * 1024 + c) / 1024 == f && (f * 1024 + c) % 2 == c % 2
  {
  }

  lemma Bit1(f: nat, c: nat)
    ensures (f * 1024 + c) / 2 % 2 == c / 2 % 2
  {
    assert (f * 1024 + c) / 2 == f * 512 + c / 2;
    SameParity(f * 256, c / 2);
  }

  lemma Bit2(f: nat, c: nat)
    ensures (f * 1024 + c) / 4 % 2 == c / 4 % 2
  {
    assert (f * 1024 + c) / 4 == f * 256 + c / 4;
    SameParity(f * 128, c / 4);
  }

  lemma Bit3(f: nat, c: nat)
    ensures (f * 1024 + c) / 8 % 2 == c / 8 % 2
  {
    assert (f * 1024 + c) / 8 == f * 128 + c / 8;
    SameParity(f * 64, c / 8);
  }

  lemma SameParity(k: nat, q: nat)
    ensures (2 * k + q) % 2 == q % 2
  {
  }

  lemma AboutFlags(leaf: Leaf, c: nat)
    requires c == Flags(leaf)
    ensures c < 1024 && c % 2 == 1
    ensures (c / 2 % 2 == 1) == leaf.r && (c / 4 % 2 == 1) == leaf.w && (c / 8 % 2 == 1) == leaf.x
  {
  }

  /** What a leaf entry says survives its encoding as a word. */
  lemma EntryRoundTrip(leaf: Leaf)
    ensures IsValid(Encode(leaf)) && Decode(Encode(leaf)) == leaf
  {
    hide Flags, Bit;
    var f, c := leaf.frame, Flags(leaf);
    AboutFlags(leaf, c);
    PpnAndValid(f, c);
    Bit1(f, c);
    Bit2(f, c);
    Bit3(f, c);
  }

  /** The fields of a leaf word in the Sv39 format: page number from bit 10 up; V, R, W, X and U in
      bits 0 to 4; the rest zero. */
  predicate SaysLeaf(word: nat, leaf: Leaf) {
    && word / 1024 == leaf.frame && word % 1024 < 32
    && word % 2 == 1 && word / 16 % 2 == 1
    && (word / 2 % 2 == 1 <==> leaf.r) && (word / 4 % 2 == 1 <==> leaf.w) && (word / 8 % 2 == 1 <==> leaf.x)
  }

  lemma LeafWord(leaf: Leaf)
    ensures SaysLeaf(Encode(leaf), leaf)
  {
    var f, c := leaf.frame, Flags(leaf);
    assert c < 32 && c % 2 == 1 && c / 16 % 2 == 1;
    PpnAndValid(f, c);
    Bit1(f, c);
    Bit2(f, c);
    Bit3(f, c);
    Bit4(f, c);
    LowBits(f, c);
    AboutFlags(leaf, c);
  }

  lemma Bit4(f: nat, c: nat)
    ensures (f * 1024 + c) / 16 % 2 == c / 16 % 2
  {
    assert (f * 1024 + c) / 16 == f * 64 + c / 16;
    SameParity(f * 32, c / 16);
  }

  lemma LowBits(f: nat, c: nat)
    requires c < 1024
    ensures (f * 1024 + c) % 1024 == c
  {
  }

  /** The fields of a word that leads to a table: page number and V, neither R nor W nor X. */
  predicate SaysTable(word: nat, page: nat) {
    && word / 1024 == page && word % 2 == 1
    && word / 2 % 2 == 0 && word / 4 % 2 == 0 && word / 8 % 2 == 0
  }

  lemma HalvesOf(k: nat)
    ensures (16 * k + 1) / 2 == 2 * (4 * k) && (16 * k + 1) / 4 == 2 * (2 * k) && (16 * k + 1) / 8 == 2 * k
  {
  }

  lemma TableWord(word: nat)
    requires IsPointer(word)
    ensures SaysTable(word, Ppn(word))
  {
    var k := word / 16;
    assert word == 16 * k + 1;
    HalvesOf(k);
  }

  /** A directory entry names its table and is a pointer; U is set, too. */
  lemma DirectoryWord(page: nat)
    ensures PteCreate(page, 17) == page * 1024 + 17
    ensures Ppn(PteCreate(page, 17)) == page && IsValid(PteCreate(page, 17)) && IsPointer(PteCreate(page, 17))
  {
    PpnAndValid(page, 17);
    assert (page * 1024 + 17) / 2 == 8 * (page * 64 + 1);
  }

  // ---- addresses ----

  function Pdx1(v: nat): (i: nat)
    ensures i < 512
  {
    v / 512 / 512 % 512
  }

  function Pdx0(v: nat): (i: nat)
    ensures i < 512
  {
    v / 512 % 512
  }

  function Ptx(v: nat): (i: nat)
    ensures i < 512
  {
    v % 512
  }

  /** The three indices of an address are those of its page number. */
  lemma IndicesOfAddress(la: nat)
    ensures la / 0x4000_0000 % 512 == Pdx1(la / PGSIZE)
    ensures la / 0x20_0000 % 512 == Pdx0(la / PGSIZE)
    ensures la / 0x1000 % 512 == Ptx(la / PGSIZE)
  {
  }

  /** The 2 MB block of a page number is given by its two upper indices. */
  lemma IndicesOfBlock(u: nat, v: nat)
    requires u < PAGES && v < PAGES
    ensures Pdx1(u) == Pdx1(v) && Pdx0(u) == Pdx0(v) <==> u / 512 == v / 512
    ensures u / 512 == v / 512 && Ptx(u) == Ptx(v) <==> u == v
  {
  }

  // ---- the tree ----

  function ZeroPage(): (z: seq<nat>)
    ensures |z| == 512 && forall i :: 0 <= i < 512 ==> z[i] == 0
  {
    seq(512, _ => 0)
  }

  /** What a table page is for, and whose it is. */
  datatype Level = Root(pid: nat) | Dir(pid: nat, i: nat) | Table(pid: nat, i: nat, j: nat)

  function FlatWalk(sp: Space, ptes: map<Place, Leaf>, p: nat, v: nat): Option<nat> {
    if v / PTES !in sp.tables then None
    else Some(if Place(p, v) in ptes then Encode(ptes[Place(p, v)]) else 0)
  }

  type Words = map<nat, seq<nat>>
  type Roots = map<nat, nat>
  type Levels = map<nat, Level>

  /** Every valid entry of an upper table is a pointer to a table of the next level, made for
      just that entry; so the tables form trees, and no two processes share a table. */
  ghost predicate Forest(words: Words, roots: Roots, level: Levels) {
    && level.Keys == words.Keys && (forall f :: f in words ==> |words[f]| == 512)
    && (forall p :: p in roots ==> roots[p] in words && level[roots[p]] == Level.Root(p))
    && (forall p, i {:trigger words[roots[p]][i]} :: p in roots && 0 <= i < 512 && IsValid(words[roots[p]][i]) ==>
          Leads(words[roots[p]][i], Dir(p, i), level))
    && (forall f, j {:trigger words[f][j]} :: f in words && level[f].Dir? && 0 <= j < 512 && IsValid(words[f][j]) ==>
          Leads(words[f][j], Table(level[f].pid, level[f].i, j), level))
  }

  ghost predicate Leads(word: nat, to: Level, level: Levels) {
    IsPointer(word) && Ppn(word) in level && level[Ppn(word)] == to
  }

  function TableIn(words: Words, roots: Roots, ghost level: Levels, p: nat, i: nat, j: nat): (t: Option<nat>)
    requires Forest(words, roots, level) && p in roots && i < 512 && j < 512
    ensures t.Some? ==> t.value in words && level[t.value] == Table(p, i, j)
  {
    var e1 := words[roots[p]][i];
    if !IsValid(e1) then None
    else
      var e0 := words[Ppn(e1)][j];
      if !IsValid(e0) then None else Some(Ppn(e0))
  }

  /** A new page directory, a new second-level table and a new third-level table, each empty. */
  lemma RootGrows(words: Words, roots: Roots, level: Levels, p: nat, page: nat)
    requires Forest(words, roots, level) && p !in roots && page !in words
    ensures Forest(words[page := ZeroPage()], roots[p := page], level[page := Level.Root(p)])
  {
    hide IsPointer, Ppn, IsValid, ZeroPage;
    NotValidZero();
  }

  lemma DirGrows(words: Words, roots: Roots, level: Levels, p: nat, k: nat, page: nat, row: seq<nat>)
    requires Forest(words, roots, level) && p in roots && k < 512 && page !in words && !IsValid(words[roots[p]][k])
    requires row == words[roots[p]][k := PteCreate(page, 17)]
    ensures Forest(words[page := ZeroPage()][roots[p] := row], roots, level[page := Dir(p, k)])
  {
    hide PteCreate, Ppn, IsValid, IsPointer, ZeroPage;
    DirectoryWord(page);
    NotValidZero();
  }

  lemma DirKeepsTables(words: Words, roots: Roots, level: Levels, p: nat, k: nat, page: nat, row: seq<nat>)
    requires Forest(words, roots, level) && p in roots && k < 512 && page !in words && !IsValid(words[roots[p]][k])
    requires row == words[roots[p]][k := PteCreate(page, 17)]
    requires Forest(words[page := ZeroPage()][roots[p] := row], roots, level[page := Dir(p, k)])
    ensures forall q, i, j :: q in roots && 0 <= i < 512 && 0 <= j < 512 ==>
              TableIn(words[page := ZeroPage()][roots[p] := row], roots, level[page := Dir(p, k)], q, i, j)
              == TableIn(words, roots, level, q, i, j)
  {
    hide PteCreate, Ppn, IsValid, IsPointer, ZeroPage;
    DirectoryWord(page);
    NotValidZero();
  }

  lemma TableGrows(words: Words, roots: Roots, level: Levels, p: nat, i: nat, k: nat, page: nat, f: nat, row: seq<nat>)
    requires Forest(words, roots, level) && p in roots && i < 512 && k < 512 && page !in words
    requires IsValid(words[roots[p]][i]) && f == Ppn(words[roots[p]][i]) && !IsValid(words[f][k])
    requires row == words[f][k := PteCreate(page, 17)]
    ensures Forest(words[page := ZeroPage()][f := row], roots, level[page := Table(p, i, k)])
  {
    hide PteCreate, Ppn, IsValid, IsPointer, ZeroPage;
    DirectoryWord(page);
  }

  lemma TableIsNew(words: Words, roots: Roots, level: Levels, p: nat, i: nat, k: nat, page: nat, f: nat, row: seq<nat>)
    requires Forest(words, roots, level) && p in roots && i < 512 && k < 512 && page !in words
    requires IsValid(words[roots[p]][i]) && f == Ppn(words[roots[p]][i]) && !IsValid(words[f][k])
    requires row == words[f][k := PteCreate(page, 17)]
    requires Forest(words[page := ZeroPage()][f := row], roots, level[page := Table(p, i, k)])
    ensures forall q, n, m :: q in roots && 0 <= n < 512 && 0 <= m < 512 ==>
              TableIn(words[page := ZeroPage()][f := row], roots, level[page := Table(p, i, k)], q, n, m)
              == if q == p && n == i && m == k then Some(page) else TableIn(words, roots, level, q, n, m)
  {
    hide PteCreate, Ppn, IsValid, IsPointer, ZeroPage;
    DirectoryWord(page);
    var words', level' := words[page := ZeroPage()][f := row], level[page := Table(p, i, k)];
    assert f in words && level[f] == Dir(p, i);
    forall q, n, m | q in roots && 0 <= n < 512 && 0 <= m < 512
      ensures TableIn(words', roots, level', q, n, m)
           == if q == p && n == i && m == k then Some(page) else TableIn(words, roots, level, q, n, m)
    {
      var e1 := words[roots[q]][n];
      assert words'[roots[q]][n] == e1;
      assert IsValid(e1) ==> Ppn(e1) in words && level[Ppn(e1)] == Dir(q, n);
    }
  }

  /** The page tables of all processes: the words of every page in use as a table, and the page
      directory of each process. */
  class PageTables {
    var words: map<nat, seq<nat>>
    var roots: map<nat, nat>
    ghost var level: map<nat, Level>

    constructor ()
      ensures Valid() && words == map[] && roots == map[]
    {
      words, roots, level := map[], map[], map[];
    }

    ghost predicate Valid()
      reads this
    {
      Forest(words, roots, level)
    }

    function TableAt(p: nat, i: nat, j: nat): (t: Option<nat>)
      requires Valid() && p in roots && i < 512 && j < 512
      reads this
      ensures t.Some? ==> t.value in words && level[t.value] == Table(p, i, j)
    {
      TableIn(words, roots, level, p, i, j)
    }

    /** The page holding the third-level table for page number v of p. */
    function TableOf(p: nat, v: nat): (t: Option<nat>)
      requires Valid() && p in roots
      reads this
      ensures t.Some? ==> t.value in words && level[t.value] == Table(p, Pdx1(v), Pdx0(v))
    {
      TableAt(p, Pdx1(v), Pdx0(v))
    }

    /** The leaf word for page number v of p, if its table exists. */
    function Walk(p: nat, v: nat): Option<nat>
      requires Valid() && p in roots
      reads this
    {
      if TableOf(p, v).None? then None else Some(words[TableOf(p, v).value][Ptx(v)])
    }

    /** The Sv39 translation: a valid leaf word. */
    function Translation(p: nat, v: nat): Option<nat>
      requires Valid() && p in roots
      reads this
    {
      if Walk(p, v).Some? && IsValid(Walk(p, v).value) then Walk(p, v) else None
    }

    /** There is a second-level table for the i-th gigabyte of p. */
    predicate HasDir(p: nat, i: nat)
      requires Valid() && p in roots && i < 512
      reads this
    {
      IsValid(words[roots[p]][i])
    }

    /** setup_pgdir: a page directory for p, without the kernel's half. */
    method AddRoot(p: nat, page: nat)
      requires Valid() && p !in roots && page !in words
      modifies this
      ensures Valid() && roots == old(roots)[p := page] && words.Keys == old(words.Keys) + {page}
      ensures level == old(level)[page := Level.Root(p)] && words[page] == ZeroPage()
      ensures forall f :: f in old(words) ==> words[f] == old(words)[f]
    {
      hide IsValid, ZeroPage, Pdx1, Pdx0, Ptx, TableOf, Walk, Forest;
      RootGrows(words, roots, level, p, page);
      words, roots, level := words[page := ZeroPage()], roots[p := page], level[page := Level.Root(p)];
    }

    /** put_pgdir: the page directory of p goes; exit_range has its own line in README. */
    method FreeRoot(p: nat)
      requires Valid() && p in roots
      modifies this
      ensures Valid() && roots == old(roots) - {p} && words == old(words) - {old(roots)[p]}
      ensures level == old(level) - {old(roots)[p]}
    {
      hide IsPointer, Ppn, IsValid, TableAt, TableOf, Walk;
      var page := roots[p];
      words, roots, level := words - {page}, roots - {p}, level - {page};
    }

    /** Add an empty second-level table under entry k of p's root. */
    method AddDirectory(p: nat, k: nat, page: nat)
      requires Valid() && p in roots && k < 512 && page !in words && !IsValid(words[roots[p]][k])
      modifies `words, `level
      ensures Valid()
      ensures words == old(words)[page := ZeroPage()][roots[p] := old(words)[roots[p]][k := PteCreate(page, 17)]]
      ensures level == old(level)[page := Dir(p, k)]
      ensures forall q, i, j :: q in roots && 0 <= i < 512 && 0 <= j < 512 ==> TableAt(q, i, j) == old(TableAt(q, i, j))
      ensures forall q, i :: q in roots && 0 <= i < 512 ==> HasDir(q, i) == (old(HasDir(q, i)) || (q == p && i == k))
    {
      hide PteCreate, Ppn, IsValid, ZeroPage, Forest, TableIn;
      ForestFacts();
      DirectoryWord(page);
      var row: seq<nat> := words[roots[p]][k := PteCreate(page, 17)];
      DirGrows(words, roots, level, p, k, page, row);
      DirKeepsTables(words, roots, level, p, k, page, row);
      words, level := words[page := ZeroPage()][roots[p] := row], level[page := Dir(p, k)];
    }

    /** Add an empty third-level table under entry k of p's second-level table for i. */
    method AddTable(p: nat, i: nat, k: nat, page: nat)
      requires Valid() && p in roots && i < 512 && k < 512 && page !in words && IsValid(words[roots[p]][i])
      requires !IsValid(words[Ppn(words[roots[p]][i])][k])
      modifies `words, `level
      ensures Valid()
      ensures var f := Ppn(old(words[roots[p]])[i]);
              words == old(words)[page := ZeroPage()][f := old(words)[f][k := PteCreate(page, 17)]]
      ensures level == old(level)[page := Table(p, i, k)]
      ensures forall q, n, m :: q in roots && 0 <= n < 512 && 0 <= m < 512 ==>
                TableAt(q, n, m) == if q == p && n == i && m == k then Some(page) else old(TableAt(q, n, m))
      ensures forall q, n :: q in roots && 0 <= n < 512 ==> HasDir(q, n) == old(HasDir(q, n))
    {
      hide PteCreate, IsValid, Ppn, ZeroPage, Forest, TableIn;
      ForestFacts();
      var f := Ppn(words[roots[p]][i]);
      DirIsTable(p, i);
      var row: seq<nat> := words[f][k := PteCreate(page, 17)];
      TableGrows(words, roots, level, p, i, k, page, f, row);
      TableIsNew(words, roots, level, p, i, k, page, f, row);
      words, level := words[page := ZeroPage()][f := row], level[page := Table(p, i, k)];
    }

    lemma ForestFacts()
      requires Valid()
      ensures forall f :: f in words ==> |words[f]| == 512
      ensures forall p :: p in roots ==> roots[p] in words && roots[p] in level && level[roots[p]] == Level.Root(p)
    {
    }

    lemma DirIsTable(p: nat, i: nat)
      requires Valid() && p in roots && i < 512 && HasDir(p, i)
      ensures Ppn(words[roots[p]][i]) in level && level[Ppn(words[roots[p]][i])] == Dir(p, i)
      ensures Ppn(words[roots[p]][i]) in words
    {
      hide IsPointer, IsValid, Ppn;
    }

    /** The two levels of get_pte, each with its allocation; pages are what alloc_page answers. */
    method Descend(p: nat, i: nat, j: nat, create: bool, pages: (Option<nat>, Option<nat>)) returns (slot: Option<nat>)
      requires Valid() && p in roots && i < 512 && j < 512
      requires pages.0.Some? ==> pages.0.value !in words
      requires pages.1.Some? ==> pages.1.value !in words && pages.1 != pages.0
      modifies `words, `level
      ensures Valid() && slot == TableAt(p, i, j)
      ensures !create || old(TableAt(p, i, j)).Some? ==> words == old(words) && level == old(level)
      ensures old(TableAt(p, i, j)).Some? ==> slot == old(TableAt(p, i, j))
      ensures create && slot.None? ==> !HasDir(p, i) || pages.1.None?
      ensures HasDir(p, i) == (old(HasDir(p, i)) || (create && pages.0.Some?))
      ensures forall q, n :: q in roots && 0 <= n < 512 && !(q == p && n == i) ==> HasDir(q, n) == old(HasDir(q, n))
      ensures slot.Some? ==> HasDir(p, i) && (old(TableAt(p, i, j)).Some? || (create && pages.1.Some?))
      ensures words.Keys == old(words.Keys) + (if HasDir(p, i) && !old(HasDir(p, i)) then {pages.0.value} else {})
                            + (if slot.Some? && old(TableAt(p, i, j)).None? then {pages.1.value} else {})
      ensures forall q, n, m :: q in roots && 0 <= n < 512 && 0 <= m < 512 && !(q == p && n == i && m == j) ==>
                TableAt(q, n, m) == old(TableAt(q, n, m))
      ensures forall f :: f in old(words) && old(level)[f].Table? ==> f in words && words[f] == old(words)[f]
      ensures slot.Some? && old(TableAt(p, i, j)).None? ==> slot.value in words && words[slot.value] == ZeroPage()
    {
      hide IsValid, Ppn, ZeroPage, PteCreate, Forest, TableIn;
      ForestFacts();
      Steps(p, i, j);
      if !IsValid(words[roots[p]][i]) {
        if !create || pages.0.None? { return None; }
        AddDirectory(p, i, pages.0.value);
        Steps(p, i, j);
      }
      var d := Ppn(words[roots[p]][i]);
      if !IsValid(words[d][j]) {
        if !create || pages.1.None? { return None; }
        AddTable(p, i, j, pages.1.value);
        Steps(p, i, j);
      }
      slot := Some(Ppn(words[d][j]));
    }

    /** The two steps from the page directory to a third-level table. */
    lemma Steps(p: nat, i: nat, j: nat)
      requires Valid() && p in roots && i < 512 && j < 512
      ensures roots[p] in words && |words[roots[p]]| == 512
      ensures var d := Ppn(words[roots[p]][i]);
              if !HasDir(p, i) then TableAt(p, i, j) == None
              else
                && d in words && |words[d]| == 512 && d in level && level[d] == Dir(p, i)
                && TableAt(p, i, j) == if IsValid(words[d][j]) then Some(Ppn(words[d][j])) else None
    {
      hide IsPointer, IsValid, Ppn;
    }

    /** The pages that become tables are the two given, each only if its table was missing. */
    twostate predicate Grew(p: nat, v: nat, create: bool, pages: (Option<nat>, Option<nat>))
      requires old(Valid()) && Valid() && p in old(roots) && old(roots) == roots
      reads this
    {
      && (HasDir(p, Pdx1(v)) <==> old(HasDir(p, Pdx1(v))) || (create && pages.0.Some?))
      && (forall q, n :: q in roots && 0 <= n < 512 && !(q == p && n == Pdx1(v)) ==> HasDir(q, n) == old(HasDir(q, n)))
      && (TableOf(p, v).Some? ==> old(TableOf(p, v)).Some? || pages.1.Some?)
      && words.Keys == old(words.Keys)
                       + (if HasDir(p, Pdx1(v)) && !old(HasDir(p, Pdx1(v))) then {pages.0.value} else {})
                       + (if TableOf(p, v).Some? && old(TableOf(p, v)).None? then {pages.1.value} else {})
    }

    /** No table moves. */
    twostate predicate Kept()
      requires old(Valid()) && Valid() && old(roots) == roots
      reads this
    {
      forall q, u: nat :: q in roots && u < PAGES && old(TableOf(q, u)).Some? ==> TableOf(q, u) == old(TableOf(q, u))
    }

    /** The tables stay what they are. */
    twostate predicate SameTables()
      requires old(Valid()) && Valid() && old(roots) == roots
      reads this
    {
      && words.Keys == old(words.Keys)
      && forall q, n :: q in roots && 0 <= n < 512 ==> HasDir(q, n) == old(HasDir(q, n))
    }

    /** get_pte changes no translation of any process; it adds at most the table asked for, and
        that is empty. */
    method GetPte(p: nat, v: nat, create: bool, pages: (Option<nat>, Option<nat>)) returns (slot: Option<nat>)
      requires Valid() && p in roots && v < PAGES
      requires pages.0.Some? ==> pages.0.value !in words
      requires pages.1.Some? ==> pages.1.value !in words && pages.1 != pages.0
      modifies `words, `level
      ensures Valid()
      ensures slot == TableOf(p, v)
      ensures !create ==> words == old(words) && level == old(level) && slot == old(TableOf(p, v))
      ensures old(Walk(p, v)).Some? ==> words == old(words)
      ensures slot.Some? <==> old(TableOf(p, v)).Some? || (create && HasDir(p, Pdx1(v)) && pages.1.Some?)
      ensures Grew(p, v, create, pages) && Kept()
      ensures slot.None? ==> old(TableOf(p, v)).None?
      ensures forall q, u: nat :: q in roots && u < PAGES && (q != p || u / PTES != v / PTES) ==>
                Walk(q, u) == old(Walk(q, u))
      ensures forall u: nat :: u < PAGES && u / PTES == v / PTES ==>
                Walk(p, u) == if slot.None? then None else if old(TableOf(p, v)).Some? then old(Walk(p, u)) else Some(0)
      ensures forall q, u: nat :: q in roots && u < PAGES ==> Translation(q, u) == old(Translation(q, u))
    {
      hide Valid, TableAt, HasDir, IsValid, Pdx1, Pdx0, Ptx;
      forall u: nat | u < PAGES ensures Pdx1(u) == Pdx1(v) && Pdx0(u) == Pdx0(v) <==> u / PTES == v / PTES {
        IndicesOfBlock(u, v);
      }
      NotValidZero();
      slot := Descend(p, Pdx1(v), Pdx0(v), create, pages);
    }

    /** Writing through the pointer that get_pte returned changes one leaf of one process. */
    method WriteEntry(p: nat, slot: nat, v: nat, word: nat)
      requires Valid() && p in roots && v < PAGES && TableOf(p, v) == Some(slot)
      modifies `words
      ensures Valid()
      ensures forall q, u: nat :: q in roots && u < PAGES ==> TableOf(q, u) == old(TableOf(q, u))
      ensures Walk(p, v) == Some(word) && SameTables()
      ensures forall q, u: nat :: q in roots && u < PAGES && (q != p || u != v) ==> Walk(q, u) == old(Walk(q, u))
    {
      hide IsPointer, IsValid, Ppn;
      var row: seq<nat> := words[slot][Ptx(v) := word];
      words := words[slot := row];
      forall q, i, j | q in roots && 0 <= i < 512 && 0 <= j < 512 ensures TableAt(q, i, j) == old(TableAt(q, i, j)) {}
      forall q, u: nat | q in roots && u < PAGES && (q != p || u != v) ensures Walk(q, u) == old(Walk(q, u)) {
        IndicesOfBlock(u, v);
      }
    }

    lemma WalkIs(p: nat, v: nat, slot: Option<nat>)
      requires Valid() && p in roots && slot == TableOf(p, v)
      ensures slot.Some? ==> slot.value in words && |words[slot.value]| == 512
      ensures Walk(p, v) == if slot.None? then None else Some(words[slot.value][Ptx(v)])
    {
    }

    /** The trees show the flat view of all processes at once: tables where their spaces have
        them, and in them the entries with zero words in between. */
    ghost predicate Shows(spaces: map<nat, Space>, ptes: map<Place, Leaf>)
      requires Valid()
      reads this
    {
      && roots.Keys == spaces.Keys
      && forall p, v: nat :: p in roots && v < PAGES ==> Walk(p, v) == FlatWalk(spaces[p], ptes, p, v)
    }

    /** The tree side of get_pte: what the trees show gains the table that was made. */
    method OpenTable(p: nat, v: nat, create: bool, pages: (Option<nat>, Option<nat>),
                     ghost spaces: map<nat, Space>, ghost ptes: map<Place, Leaf>)
      returns (slot: Option<nat>)
      requires Valid() && p in roots && v < PAGES && Shows(spaces, ptes)
      requires pages.0.Some? ==> pages.0.value !in words
      requires pages.1.Some? ==> pages.1.value !in words && pages.1 != pages.0
      requires forall u: nat :: Place(p, u) in ptes ==> u / PTES in spaces[p].tables
      modifies `words, `level
      ensures Valid() && slot == TableOf(p, v) && Grew(p, v, create, pages) && Kept()
      ensures old(TableOf(p, v)).Some? <==> v / PTES in spaces[p].tables
      ensures slot.Some? <==> v / PTES in spaces[p].tables || (create && HasDir(p, Pdx1(v)) && pages.1.Some?)
      ensures var tables := spaces[p].tables + if slot.Some? then {v / PTES} else {};
              Shows(spaces[p := spaces[p].(tables := tables)], ptes)
    {
      hide Encode, Ppn, IsPointer, Valid, TableAt, TableOf, Walk, Translation, Ptx, Pdx0, Pdx1, HasDir, Grew, Kept;
      WalkIs(p, v, TableOf(p, v));
      slot := GetPte(p, v, create, pages);
    }

    /** Writing an entry into a table that exists. */
    method PutEntry(p: nat, slot: nat, v: nat, leaf: Leaf, ghost spaces: map<nat, Space>, ghost ptes: map<Place, Leaf>)
      requires Valid() && p in roots && v < PAGES && TableOf(p, v) == Some(slot) && Shows(spaces, ptes)
      modifies `words
      ensures Valid() && Shows(spaces, ptes[Place(p, v) := leaf]) && SameTables()
      ensures Walk(p, v).Some? && SaysLeaf(Walk(p, v).value, leaf)
      ensures forall q, u: nat :: q in roots && u < PAGES ==> TableOf(q, u) == old(TableOf(q, u))
    {
      hide Encode, Ppn, IsPointer, Valid, TableAt, TableOf, Walk, Translation, Ptx, Pdx0, Pdx1;
      hide HasDir, SameTables, SaysLeaf;
      WalkIs(p, v, TableOf(p, v));
      LeafWord(leaf);
      WriteEntry(p, slot, v, Encode(leaf));
    }

    /** The tree side of page_insert. */
    method InsertEntry(p: nat, v: nat, leaf: Leaf, pages: (Option<nat>, Option<nat>),
                       ghost spaces: map<nat, Space>, ghost ptes: map<Place, Leaf>)
      returns (ok: bool)
      requires Valid() && p in roots && v < PAGES && Shows(spaces, ptes)
      requires pages.0.Some? ==> pages.0.value !in words
      requires pages.1.Some? ==> pages.1.value !in words && pages.1 != pages.0
      requires forall u: nat :: Place(p, u) in ptes ==> u / PTES in spaces[p].tables
      modifies `words, `level
      ensures Valid()
      ensures ok ==> Shows(spaces[p := spaces[p].(tables := spaces[p].tables + {v / PTES})], ptes[Place(p, v) := leaf])
      ensures ok ==> Walk(p, v).Some? && SaysLeaf(Walk(p, v).value, leaf)
      ensures !ok ==> Shows(spaces, ptes) && (pages.0.None? || pages.1.None?)
    {
      hide Valid, TableOf, Walk, FlatWalk, Pdx1, HasDir, SameTables, SaysLeaf;
      var slot := OpenTable(p, v, true, pages, spaces, ptes);
      if slot.None? {
        assert spaces[p].tables + {} == spaces[p].tables;
        return false;
      }
      PutEntry(p, slot.value, v, leaf, spaces[p := spaces[p].(tables := spaces[p].tables + {v / PTES})], ptes);
      ok := true;
    }

    /** The tree side of page_remove_pte, reached through get_pte without create. */
    method RemoveEntry(p: nat, v: nat, ghost spaces: map<nat, Space>, ghost ptes: map<Place, Leaf>)
      requires Valid() && p in roots && v < PAGES && Shows(spaces, ptes)
      modifies `words, `level
      ensures Valid() && Shows(spaces, ptes - {Place(p, v)}) && SameTables()
    {
      hide Encode, Decode, Ppn, IsValid, IsPointer, Valid, TableAt, TableOf, Walk, Translation, Ptx, Pdx0, Pdx1;
      if Place(p, v) in ptes { EntryRoundTrip(ptes[Place(p, v)]); }
      NotValidZero();
      assert Walk(p, v) == FlatWalk(spaces[p], ptes, p, v);
      var slot := GetPte(p, v, false, (None, None));
      WalkIs(p, v, slot);
      if slot.Some? {
        if IsValid(words[slot.value][Ptx(v)]) {
          WriteEntry(p, slot.value, v, 0);
        }
      }
    }

    /** Reading an entry through get_pte without create gives the flat view's entry. */
    method LookUp(p: nat, v: nat, ghost spaces: map<nat, Space>, ghost ptes: map<Place, Leaf>)
      returns (leaf: Option<Leaf>)
      requires Valid() && p in roots && v < PAGES && Shows(spaces, ptes)
      modifies `words, `level
      ensures Valid() && Shows(spaces, ptes) && words == old(words) && level == old(level)
      ensures leaf == if v / PTES in spaces[p].tables && Place(p, v) in ptes then Some(ptes[Place(p, v)]) else None
    {
      hide Encode, Decode, Ppn, IsValid, IsPointer, Valid, TableAt, TableOf, Walk, Translation, Ptx, Pdx0, Pdx1;
      if Place(p, v) in ptes { EntryRoundTrip(ptes[Place(p, v)]); }
      NotValidZero();
      assert Walk(p, v) == FlatWalk(spaces[p], ptes, p, v);
      var slot := GetPte(p, v, false, (None, None));
      WalkIs(p, v, slot);
      if slot.None? { return None; }
      var word := words[slot.value][Ptx(v)];
      leaf := if IsValid(word) then Some(Decode(word)) else None;
    }

    /** A new process gets a directory and shows no tables, and an exiting one loses it after
        its pages were unmapped. */
    method NewProcess(p: nat, page: nat, ghost spaces: map<nat, Space>, ghost ptes: map<Place, Leaf>,
                      ghost areas: seq<Area>)
      requires Valid() && p !in roots && page !in words && Shows(spaces, ptes)
      modifies this
      ensures Valid() && Shows(spaces[p := Space(areas, {}, {})], ptes)
      ensures roots == old(roots)[p := page] && words.Keys == old(words.Keys) + {page}
      ensures forall q, i :: q in roots && 0 <= i < 512 ==> HasDir(q, i) == (q != p && old(q in roots && HasDir(q, i)))
    {
      hide Pdx1, Pdx0, Ptx, ZeroPage, IsPointer;
      AddRoot(p, page);
      NotValidZero();
      assert forall q, i, j :: q in old(roots) && 0 <= i < 512 && 0 <= j < 512 ==>
        TableAt(q, i, j) == old(TableAt(q, i, j));
    }

    method EndProcess(p: nat, ghost spaces: map<nat, Space>, ghost ptes: map<Place, Leaf>)
      requires Valid() && p in roots && Shows(spaces, ptes)
      modifies this
      ensures Valid() && Shows(spaces - {p}, ptes)
      ensures roots == old(roots) - {p} && words.Keys == old(words.Keys) - {old(roots)[p]}
      ensures forall q, i :: q in roots && 0 <= i < 512 ==> HasDir(q, i) == old(HasDir(q, i))
    {
      hide Pdx1, Pdx0, Ptx, IsPointer;
      FreeRoot(p);
      assert forall q, i, j :: q in roots && 0 <= i < 512 && 0 <= j < 512 ==> TableAt(q, i, j) == old(TableAt(q, i, j));
    }
  }
}
