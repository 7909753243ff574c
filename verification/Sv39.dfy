/**
  The address translation of the processor, as section 4.4 of the RISC-V Privileged Architecture
  defines it for Sv39, over the words that the kernel writes: what the page tables mean to the
  hardware, and that this is the kernel's flat map.
 */
module Sv39 {
  import opened Vma
  import opened CowState
  import opened PageTable

  datatype Access = Fetch | Load | Store

  /** The bytes that one entry of a level covers. */
  function Size(level: nat): nat
    requires level <= 2
  {
    if level == 0 then 0x1000 else if level == 1 then 0x20_0000 else 0x4000_0000
  }

  predicate Bit(pte: nat, weight: nat)
    requires weight > 0
  {
    pte / weight % 2 == 1
  }

  /** R, W and X are bits 1 to 3. */
  predicate Grants(pte: nat, kind: Access) {
    match kind
    case Fetch => Bit(pte, 8)
    case Load => Bit(pte, 2)
    case Store => Bit(pte, 4)
  }

  /** One level of the translation of a user access: None is a page fault.  V clear, or W without R,
      faults; neither R nor X leads to the next level; a leaf needs U and the permission, and a
      leaf above the last level an aligned page number. */
  function Descend(words: Words, table: nat, va: nat, level: nat, kind: Access): Option<nat>
    requires level <= 2
    decreases level
  {
    if table !in words || |words[table]| != 512 then None
    else
      var pte := words[table][va / Size(level) % 512];
      if !Bit(pte, 1) || (!Bit(pte, 2) && Bit(pte, 4)) then None
      else if Bit(pte, 2) || Bit(pte, 8) then
        if pte / 1024 * 4096 % Size(level) != 0 || !Bit(pte, 16) || !Grants(pte, kind) then None
        else Some(pte / 1024 * 4096 + va % Size(level))
      else if level == 0 then None
      else Descend(words, pte / 1024, va, level - 1, kind)
  }

  function Translate(words: Words, root: nat, va: nat, kind: Access): Option<nat> {
    Descend(words, root, va, 2, kind)
  }

  /** A leaf that is writable but not readable allows nothing. */
  predicate Allows(leaf: Leaf, kind: Access) {
    match kind
    case Fetch => leaf.x && (leaf.r || !leaf.w)
    case Load => leaf.r
    case Store => leaf.r && leaf.w
  }

  /** An upper level: an invalid word faults, and a valid one leads on. */
  lemma UpperLevel(words: Words, table: nat, va: nat, level: nat, kind: Access, word: nat)
    requires 1 <= level <= 2 && table in words && |words[table]| == 512
    requires word == words[table][va / Size(level) % 512]
    ensures !IsValid(word) ==> Descend(words, table, va, level, kind) == None
    ensures IsPointer(word) ==>
              Descend(words, table, va, level, kind) == Descend(words, Ppn(word), va, level - 1, kind)
  {
    if IsPointer(word) { TableWord(word); }
  }

  /** The last level. */
  lemma LastLevel(words: Words, table: nat, va: nat, kind: Access, word: nat)
    requires table in words && |words[table]| == 512 && word == words[table][va / 0x1000 % 512]
    ensures word == 0 ==> Descend(words, table, va, 0, kind) == None
    ensures forall leaf :: SaysLeaf(word, leaf) ==>
              Descend(words, table, va, 0, kind)
              == if Allows(leaf, kind) then Some(leaf.frame * 4096 + va % 4096) else None
  {
  }

  /** Through the trees of p. */
  lemma ThroughTrees(t: PageTables, p: nat, va: nat, kind: Access)
    requires t.Valid() && p in t.roots
    ensures var w := t.Walk(p, va / PGSIZE);
            && (w == None || w == Some(0) ==> Translate(t.words, t.roots[p], va, kind) == None)
            && forall leaf :: w.Some? && SaysLeaf(w.value, leaf) ==>
                 Translate(t.words, t.roots[p], va, kind)
                 == if Allows(leaf, kind) then Some(leaf.frame * 4096 + va % 4096) else None
  {
    hide Descend, IsPointer, IsValid, Ppn, SaysLeaf;
    IndicesOfAddress(va);
    var v := va / PGSIZE;
    t.Steps(p, Pdx1(v), Pdx0(v));
    var e1 := t.words[t.roots[p]][Pdx1(v)];
    UpperLevel(t.words, t.roots[p], va, 2, kind, e1);
    if IsValid(e1) {
      var e0 := t.words[Ppn(e1)][Pdx0(v)];
      UpperLevel(t.words, Ppn(e1), va, 1, kind, e0);
      if IsValid(e0) { LastLevel(t.words, Ppn(e0), va, kind, t.words[Ppn(e0)][Ptx(v)]); }
    }
  }

  /** Main result: where the flat map has an entry, the processor finds its page with exactly its
      permissions, and everywhere else it faults. */
  lemma TranslatesFlatMap(t: PageTables, spaces: map<nat, Space>, ptes: map<Place, Leaf>, p: nat, va: nat, kind: Access)
    requires t.Valid() && t.Shows(spaces, ptes) && p in t.roots && va < 0x40_0000_0000
    requires forall u: nat :: Place(p, u) in ptes ==> u / PTES in spaces[p].tables
    ensures var l := Place(p, va / 4096);
            Translate(t.words, t.roots[p], va, kind)
            == if l in ptes && Allows(ptes[l], kind) then Some(ptes[l].frame * 4096 + va % 4096) else None
  {
    hide PageTables.Valid, PageTables.Walk, Encode, Translate, SaysLeaf, Allows;
    var l := Place(p, va / PGSIZE);
    ThroughTrees(t, p, va, kind);
    assert va / PGSIZE < PAGES;
    assert t.Walk(p, va / PGSIZE) == FlatWalk(spaces[p], ptes, p, va / PGSIZE);
    if l in ptes { LeafWord(ptes[l]); }
  }
}
