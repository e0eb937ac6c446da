/** Four-level page tables in physical memory: the hardware walk, the way `page_table_map` of
    vma.c edits the tables, and the proof that together they are a map from pages to frames. */
module PageTables {
  import opened Arithmetic
  import opened Bits
  import opened Descriptors

  /** Physical memory, as the 64-bit words of each frame; what was never written is zero. */
  datatype Slot = Slot(frame: nat, index: nat)

  type Words = map<Slot, Descriptor>

  function Read(m: Words, frame: nat, index: nat): Descriptor {
    if Slot(frame, index) in m then m[Slot(frame, index)] else ZERO
  }

  lemma ReadUpdate(m: Words, s: Slot, d: Descriptor)
    ensures forall f: nat, i: nat {:trigger Read(m[s := d], f, i)} ::
              Read(m[s := d], f, i) == if Slot(f, i) == s then d else Read(m, f, i)
  {
  }

  /** Word `i` of an array that starts at a frame and may run over its end. */
  function ArraySlot(frame: nat, i: nat): Slot {
    Slot(frame + i / 512, i % 512)
  }

  /** `TranslationTables_t`: the frames of the tables, and where the mapping starts. */
  datatype Tables = Tables(pgd: nat, pud: nat, pmd: nat, pt3: nat, startVa: nat, startPa: nat)

  /** The four table indices of a virtual address. */
  datatype Indices = Indices(l0: nat, l1: nat, l2: nat, l3: nat) {
    predicate InRange() { l0 < 512 && l1 < 512 && l2 < 512 && l3 < 512 }
  }

  function IndicesOf(va: nat): (x: Indices)
    ensures x.InRange()
  {
    Indices(OffsetL0(va), OffsetL1(va), OffsetL2(va), OffsetL3(va))
  }

  // ----- the hardware walk

  /** The attributes of a link restrict what lies below it: APTable (bits 61 and 62) takes access
      from EL0 and from writes, UXNTable (bit 60) forbids execution at EL0. */
  function Below(link: Descriptor, tr: Translation): Translation {
    if link.upper == 0 || tr.Fault? then tr
    else
      var a := tr.attributes;
      Mapped(tr.frame, a.(el0 := a.el0 && !Bit(link.upper, 0x2000),
                          readOnly := a.readOnly || Bit(link.upper, 0x4000),
                          executeNever := a.executeNever || Bit(link.upper, 0x1000)))
  }

  /** The same in bits of the register: 61 and 62 for access, 60 for execution. */
  lemma BelowIs(w: nat, frame: nat, a: Attributes)
    requires w < U64
    ensures var tr := Below(FromReg(w), Mapped(frame, a));
            && tr.Mapped? && tr.frame == frame
            && (tr.attributes.el0 <==> a.el0 && w / 0x2000_0000_0000_0000 % 2 == 0)
            && (tr.attributes.readOnly <==> a.readOnly || w / 0x4000_0000_0000_0000 % 2 == 1)
            && (tr.attributes.executeNever <==> a.executeNever || w / 0x1000_0000_0000_0000 % 2 == 1)
            && tr.attributes.device == a.device && tr.attributes.nonCacheable == a.nonCacheable
            && tr.attributes.innerShareable == a.innerShareable
    ensures Below(FromReg(w), Fault) == Fault
  {
    HighBits(w);
    var d := FromReg(w);
    assert d.upper == w / 0x1_0000_0000_0000;
    hide FromReg;
  }

  lemma HighBits(w: nat)
    ensures var high := w / 0x1_0000_0000_0000;
            && high / 0x1000 == w / 0x1000_0000_0000_0000
            && high / 0x2000 == w / 0x2000_0000_0000_0000
            && high / 0x4000 == w / 0x4000_0000_0000_0000
  {
    Digits(w, 0x1_0000_0000_0000, 0x1000);
    Digits(w, 0x1_0000_0000_0000, 0x2000);
    Digits(w, 0x1_0000_0000_0000, 0x4000);
  }

  /** Section D8.3 of the Arm Architecture Reference Manual: a valid link leads to the next
      table, a valid word without it is a 1 GB or 2 MB block, anything else faults. */
  function WalkFrom(m: Words, ttbr: nat, x: Indices): Translation {
    var d0 := Read(m, ttbr, x.l0);
    if !d0.valid || !d0.link then Fault else
    var d1 := Read(m, d0.address, x.l1);
    if !d1.valid then Fault else if !d1.link then Below(d0, Block(d1, 0x4_0000, x.l2 * 512 + x.l3)) else
    var d2 := Read(m, d1.address, x.l2);
    if !d2.valid then Fault else if !d2.link then Below(d0, Below(d1, Block(d2, 0x200, x.l3))) else
    Below(d0, Below(d1, Below(d2, Decode(Read(m, d2.address, x.l3)))))
  }

  /** Page `i` of a block of `pages` pages. */
  function Block(d: Descriptor, pages: nat, i: nat): Translation
    requires pages > 0
  {
    if Accessed(d) then Mapped(d.address / pages * pages + i, AttributesOf(d)) else Fault
  }

  /** Where a link is missing, or a block takes the place of a table: page `i` of a block that starts at a
      multiple of its size, if it has been given the access flag. */
  lemma WalkEndsEarly(m: Words, ttbr: nat, x: Indices)
    requires Read(m, ttbr, x.l0).upper == 0 && x.InRange()
    ensures var d0 := Read(m, ttbr, x.l0);
            var d1 := Read(m, d0.address, x.l1);
            var d2, tr := Read(m, d1.address, x.l2), WalkFrom(m, ttbr, x);
            && (!d0.valid || !d0.link || !d1.valid || (d1.link && !d2.valid) ==> tr == Fault)
            && (d0.valid && d0.link && d1.valid && !d1.link ==>
                  tr == if d1.lower / 0x100 % 2 == 0 then Fault
                        else Mapped(d1.address - d1.address % 0x4_0000 + (x.l2 * 512 + x.l3), AttributesOf(d1)))
            && (d0.valid && d0.link && d1.valid && d1.link && d1.upper == 0 && d2.valid && !d2.link ==>
                  tr == if d2.lower / 0x100 % 2 == 0 then Fault
                        else Mapped(d2.address - d2.address % 0x200 + x.l3, AttributesOf(d2)))
  {
    var d1 := Read(m, Read(m, ttbr, x.l0).address, x.l1);
    var d2 := Read(m, d1.address, x.l2);
    FlagBit(d1);
    FlagBit(d2);
    hide Accessed, AttributesOf;
    assert d1.address / 0x4_0000 * 0x4_0000 == d1.address - d1.address % 0x4_0000;
    assert d2.address / 0x200 * 0x200 == d2.address - d2.address % 0x200;
  }

  lemma FlagBit(d: Descriptor)
    ensures Accessed(d) <==> d.lower / 0x100 % 2 == 1
  {
    var low := d.Low();
    assert low / 4 == d.lower;
    Digits(low, 4, 0x100);
  }

  function Walk(m: Words, ttbr: nat, va: nat): Translation {
    WalkFrom(m, ttbr, IndicesOf(va))
  }

  // ----- page_table_map

  datatype Outcome = Crash | Done(words: Words)

  /** Fills the entry at `to` with a link unless the one at `from` is valid already. */
  function LinkIfInvalid(m: Words, from: Slot, to: Slot, table: nat): Words {
    var d := Read(m, from.frame, from.index);
    if d.valid then m else m[to := d.(valid := true, link := true, address := table % 0x10_0000_0000)]
  }

  /** The four stores of `page_table_map`. */
  function Store(m: Words, s0: Slot, s1: Slot, from: Slot, to: Slot, at: Slot, pud: nat, pmd: nat, pt3: nat,
                 leaf: Descriptor): Words {
    LinkIfInvalid(LinkIfInvalid(LinkIfInvalid(m, s0, s0, pud), s1, s1, pmd), from, to, pt3)[at := leaf]
  }

  /** The same for the gigabyte and the 2 MB counted from the start of the mapping. The
      second-level entry is read 512 words per gigabyte into the table but written only an
      eighth of a word per gigabyte into it. */
  function MapAt(m: Words, t: Tables, x: Indices, gb: nat, mb2: nat, leaf: Descriptor): Words {
    Store(m, Slot(t.pgd, x.l0), Slot(t.pud, x.l1), ArraySlot(t.pmd, x.l2 + gb * 512),
          ArraySlot(t.pmd, x.l2 + gb * 512 / 0x1000), ArraySlot(t.pt3, x.l3 + mb2 * 512),
          t.pud, t.pmd + gb, t.pt3 + mb2, leaf)
  }

  function MapPage(m: Words, t: Tables, va: nat, pa: nat, flags: nat, isDev: bool): Outcome
    requires va < U64 && t.startVa < U64
  {
    var index := Sub64(va, t.startVa);
    if index / 0x80_0000_0000 > 0 then Crash
    else Done(MapAt(m, t, IndicesOf(va), index / 0x4000_0000, index / 0x20_0000, LeafEntry(pa, flags, isDev)))
  }

  // ----- the shape of the tables

  /** The tables are apart from each other in the 48-bit physical address space. */
  predicate TablesApart(t: Tables, n: nat) {
    && t.pgd != t.pud && t.pgd != t.pmd && t.pud != t.pmd
    && !(t.pt3 <= t.pgd < t.pt3 + n) && !(t.pt3 <= t.pud < t.pt3 + n) && !(t.pt3 <= t.pmd < t.pt3 + n)
    && t.pgd < 0x10_0000_0000 && t.pud < 0x10_0000_0000 && t.pmd < 0x10_0000_0000 && t.pt3 + n <= 0x10_0000_0000
  }

  /** The `n` last-level tables cover a window that stays inside one gigabyte. */
  predicate Layout(t: Tables, n: nat) {
    TablesApart(t, n) && t.startVa < U64 && OffsetL2(t.startVa) + n <= 512
  }

  predicate IsTable(t: Tables, n: nat, frame: nat) {
    frame == t.pgd || frame == t.pud || frame == t.pmd || t.pt3 <= frame < t.pt3 + n
  }

  /** A link without restrictions. */
  predicate LinksTo(d: Descriptor, table: nat) { d.valid && d.link && d.address == table && d.upper == 0 }

  /** No word of the table carries restrictions. */
  ghost predicate Plain(m: Words, table: nat) {
    forall i: nat | i < 512 :: Read(m, table, i).upper == 0
  }

  /** The table has at most one link, at `own`, and it leads to `next`. */
  ghost predicate OneLink(m: Words, table: nat, own: nat, next: nat) {
    && Plain(m, table)
    && forall i: nat | i < 512 && Read(m, table, i).valid :: i == own && LinksTo(Read(m, table, i), next)
  }

  /** Every valid second-level entry, counted from the start of the mapping, points at the
      last-level table with the same number. */
  ghost predicate Numbered(m: Words, t: Tables, n: nat, first: nat) {
    Plain(m, t.pmd) && forall i: nat | i < 512 && Read(m, t.pmd, i).valid ::
      first <= i < first + n && LinksTo(Read(m, t.pmd, i), t.pt3 + (i - first))
  }

  /** Nothing hides below a missing link. */
  ghost predicate NothingHidden(m: Words, t: Tables, n: nat, b: Indices) {
    forall f: nat, j: nat | t.pt3 <= f < t.pt3 + n && j < 512 && Read(m, f, j).valid ::
      Read(m, t.pgd, b.l0).valid && Read(m, t.pud, b.l1).valid && Read(m, t.pmd, b.l2 + (f - t.pt3)).valid
  }

  ghost predicate ShapeAt(m: Words, t: Tables, n: nat, b: Indices) {
    && OneLink(m, t.pgd, b.l0, t.pud) && OneLink(m, t.pud, b.l1, t.pmd)
    && Numbered(m, t, n, b.l2) && NothingHidden(m, t, n, b)
  }

  ghost predicate Shape(m: Words, t: Tables, n: nat) {
    ShapeAt(m, t, n, IndicesOf(t.startVa))
  }

  // ----- the walk is one lookup

  /** First page of the 2 MB the tables start in. */
  function BasePage(t: Tables): (p: nat)
    ensures p % 512 == 0 && p < 0x10_0000_0000
  {
    PageOf(t.startVa) / 512 * 512
  }

  predicate InWindow(t: Tables, n: nat, page: nat) {
    BasePage(t) <= page < BasePage(t) + n * 512
  }

  /** The window in terms of indices. */
  predicate Covers(b: Indices, n: nat, x: Indices) {
    x.l0 == b.l0 && x.l1 == b.l1 && b.l2 <= x.l2 < b.l2 + n
  }

  /** A page is in the window exactly when its upper indices are the window's. */
  lemma WindowIndices(t: Tables, n: nat, va: nat)
    requires OffsetL2(t.startVa) + n <= 512
    ensures var b, x := IndicesOf(t.startVa), IndicesOf(va);
            && (InWindow(t, n, PageOf(va)) <==> Covers(b, n, x))
            && (Covers(b, n, x) ==> PageOf(va) - BasePage(t) == (x.l2 - b.l2) * 512 + x.l3)
  {
    var s, p := PageOf(t.startVa), PageOf(va);
    PageDigits(t.startVa);
    PageDigits(va);
    Digits(s, 512, 512); Digits(s, 0x4_0000, 512);
    Digits(p, 512, 512); Digits(p, 0x4_0000, 512);
  }

  lemma WalkFromIsLookup(m: Words, t: Tables, n: nat, b: Indices, x: Indices)
    requires ShapeAt(m, t, n, b) && x.InRange()
    ensures WalkFrom(m, t.pgd, x)
         == if Covers(b, n, x) then Decode(Read(m, t.pt3 + (x.l2 - b.l2), x.l3)) else Fault
  {
  }

  /** The last-level word of page `q` of the window. */
  function Leaf(m: Words, t: Tables, q: nat): Descriptor { Read(m, t.pt3 + q / 512, q % 512) }

  /** Under the shape invariant the four-level walk is one lookup in the last-level words. */
  lemma WalkIsLookup(m: Words, t: Tables, n: nat, va: nat)
    requires Layout(t, n) && Shape(m, t, n)
    ensures Walk(m, t.pgd, va)
         == if InWindow(t, n, PageOf(va)) then Decode(Leaf(m, t, PageOf(va) - BasePage(t))) else Fault
  {
    WindowIndices(t, n, va);
    WalkFromIsLookup(m, t, n, IndicesOf(t.startVa), IndicesOf(va));
  }

  // ----- page_table_map inside the window

  /** The addresses of the mapping that `page_table_map` handles as intended. */
  predicate Mappable(t: Tables, n: nat, va: nat) {
    t.startVa % 0x20_0000 == 0 && t.startVa <= va < t.startVa + n * 0x20_0000
  }

  /** The distance from the start of the mapping, which the code divides, agrees with the
      bit fields of the address, which the hardware uses. */
  lemma MapIndices(t: Tables, n: nat, va: nat)
    requires t.startVa < U64 && va < U64 && OffsetL2(t.startVa) + n <= 512 && Mappable(t, n, va)
    ensures var b, x, index := IndicesOf(t.startVa), IndicesOf(va), Sub64(va, t.startVa);
            && index / 0x80_0000_0000 == 0 && index / 0x4000_0000 == 0
            && Covers(b, n, x) && index / 0x20_0000 == x.l2 - b.l2
  {
    var s, k := t.startVa / 0x20_0000, (va - t.startVa) / 0x20_0000;
    DivUnique(va, 0x20_0000, s + k, (va - t.startVa) % 0x20_0000);
    DivUnique(s + k, 512, s / 512, s % 512 + k);
    Digits(t.startVa, 0x20_0000, 512);
    Digits(va, 0x20_0000, 512);
    Digits(t.startVa, 0x4000_0000, 512);
    Digits(va, 0x4000_0000, 512);
  }

  /** The entry is linked: as it was in `m`, or else to `table`. */
  predicate Linked(m: Words, w: Words, frame: nat, index: nat, table: nat) {
    && Read(w, frame, index).valid
    && if Read(m, frame, index).valid then Read(w, frame, index) == Read(m, frame, index)
       else Read(w, frame, index).link && Read(w, frame, index).address == table
            && Read(w, frame, index).upper == Read(m, frame, index).upper
  }

  /** `w` is `m` with this entry linked. */
  ghost predicate Relinked(m: Words, w: Words, frame: nat, index: nat, table: nat) {
    Linked(m, w, frame, index, table) && forall f, i | f != frame || i != index :: Read(w, f, i) == Read(m, f, i)
  }

  lemma LinkStep(m: Words, frame: nat, index: nat, table: nat)
    requires table < 0x10_0000_0000
    ensures Relinked(m, LinkIfInvalid(m, Slot(frame, index), Slot(frame, index), table), frame, index, table)
  {
  }

  /** What a call inside the window does to memory. */
  ghost predicate Edit(m: Words, w: Words, t: Tables, x: Indices, k: nat, leaf: Descriptor) {
    && Linked(m, w, t.pgd, x.l0, t.pud) && Linked(m, w, t.pud, x.l1, t.pmd) && Linked(m, w, t.pmd, x.l2, t.pt3 + k)
    && Read(w, t.pt3 + k, x.l3) == leaf
    && forall f, i | !(f == t.pgd && i == x.l0) && !(f == t.pud && i == x.l1)
                     && !(f == t.pmd && i == x.l2) && !(f == t.pt3 + k && i == x.l3) :: Read(w, f, i) == Read(m, f, i)
  }

  lemma StepsEdit(m: Words, m0: Words, m1: Words, m2: Words, t: Tables, n: nat, x: Indices, k: nat, leaf: Descriptor)
    requires TablesApart(t, n) && k < n
    requires Relinked(m, m0, t.pgd, x.l0, t.pud) && Relinked(m0, m1, t.pud, x.l1, t.pmd)
    requires Relinked(m1, m2, t.pmd, x.l2, t.pt3 + k)
    ensures Edit(m, m2[Slot(t.pt3 + k, x.l3) := leaf], t, x, k, leaf)
  {
  }

  lemma StoreEdits(m: Words, t: Tables, n: nat, x: Indices, k: nat, leaf: Descriptor)
    requires TablesApart(t, n) && k < n
    ensures Edit(m, Store(m, Slot(t.pgd, x.l0), Slot(t.pud, x.l1), Slot(t.pmd, x.l2), Slot(t.pmd, x.l2),
                          Slot(t.pt3 + k, x.l3), t.pud, t.pmd, t.pt3 + k, leaf), t, x, k, leaf)
  {
    var m0 := LinkIfInvalid(m, Slot(t.pgd, x.l0), Slot(t.pgd, x.l0), t.pud);
    var m1 := LinkIfInvalid(m0, Slot(t.pud, x.l1), Slot(t.pud, x.l1), t.pmd);
    var m2 := LinkIfInvalid(m1, Slot(t.pmd, x.l2), Slot(t.pmd, x.l2), t.pt3 + k);
    LinkStep(m, t.pgd, x.l0, t.pud);
    LinkStep(m0, t.pud, x.l1, t.pmd);
    LinkStep(m1, t.pmd, x.l2, t.pt3 + k);
    StepsEdit(m, m0, m1, m2, t, n, x, k, leaf);
  }

  lemma ArraySlotIs(frame: nat, k: nat, i: nat)
    requires i < 512
    ensures ArraySlot(frame, i + k * 512) == Slot(frame + k, i)
  {
    DivUnique(i + k * 512, 512, k, i);
  }

  lemma MapAtEdits(m: Words, t: Tables, n: nat, x: Indices, k: nat, leaf: Descriptor)
    requires TablesApart(t, n) && k < n && x.InRange()
    ensures Edit(m, MapAt(m, t, x, 0, k, leaf), t, x, k, leaf)
  {
    ArraySlotIs(t.pmd, 0, x.l2);
    ArraySlotIs(t.pt3, k, x.l3);
    StoreEdits(m, t, n, x, k, leaf);
  }

  /** Inside the window the call changes one last-level word and keeps the shape. */
  lemma EditKeepsShape(m: Words, w: Words, t: Tables, n: nat, b: Indices, x: Indices, k: nat, leaf: Descriptor)
    requires TablesApart(t, n) && ShapeAt(m, t, n, b) && Covers(b, n, x) && k == x.l2 - b.l2 && x.InRange()
    requires Edit(m, w, t, x, k, leaf)
    ensures ShapeAt(w, t, n, b)
    ensures forall f: nat, j: nat | t.pt3 <= f < t.pt3 + n ::
              Read(w, f, j) == if f == t.pt3 + k && j == x.l3 then leaf else Read(m, f, j)
    ensures forall f, i | !IsTable(t, n, f) :: Read(w, f, i) == Read(m, f, i)
  {
  }
}
