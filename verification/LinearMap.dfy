/** `normal_map_kernel_4KB` of vma.c: the tables the kernel starts with. */
module LinearMap {
  import opened Arithmetic
  import opened Bits
  import opened Descriptors
  import opened PageTables
  import opened PageMap

  /** Links made to last-level tables: two more than the memory needs. */
  function LinkCount(ramSize: nat): (n: nat)
    ensures n >= 2 && (n - 3) * 0x20_0000 < ramSize <= (n - 2) * 0x20_0000
  {
    (ramSize + 0x1F_FFFF) / 0x20_0000 + 2
  }

  function LinkTo(table: nat): Descriptor { ZERO.(valid := true, link := true, address := table % 0x10_0000_0000) }

  /** The last-level entry for kernel memory: read-write, normal, accessed, inner shareable. */
  function KernelEntry(pa: nat): Descriptor { Descriptor(true, true, 0x1C0, Field36(pa), 0) }

  const KERNEL_ATTRIBUTES := Attributes(false, false, false, false, true, false)

  lemma KernelEntryDecodes(pa: nat)
    ensures Decode(KernelEntry(pa)) == Mapped(Field36(pa), KERNEL_ATTRIBUTES)
  {
    assert KernelEntry(pa).Low() == 0x703;
  }

  /** The entry is carried from page to page: its fields are set again and the flags or-ed in. */
  function NextEntry(entry: Descriptor, pa: nat): Descriptor {
    var e := entry.(valid := true, link := false, address := Field36(pa));
    FromReg(BitOr(e.Reg(), 0x703))
  }

  lemma NextEntryIs(entry: Descriptor, pa: nat)
    requires entry.upper == 0 && (entry.lower == 0 || entry.lower == 0x1C0)
    ensures NextEntry(entry, pa) == KernelEntry(pa)
  {
    var e := entry.(valid := true, link := false, address := Field36(pa));
    OrOfFlags(e.Low());
    FlagsJoined(e, e.Low(), e.Reg());
  }

  lemma FlagsJoined(e: Descriptor, low: nat, reg: nat)
    requires low == e.Low() && reg == e.Reg() && e.upper == 0
    requires low < 0x1000 && e.address < 0x10_0000_0000 && BitOr(low, 0x703) == 0x703
    ensures FromReg(BitOr(reg, 0x703)) == Descriptor(true, true, 0x1C0, e.address, 0)
  {
    assert reg == low + 0x1000 * e.address;
    JoinParts(low, 0x703, e.address, 0);
    FromParts(BitOr(reg, 0x703), 0x703, e.address, 0);
    LowOfFlags(FromReg(BitOr(reg, 0x703)));
  }

  lemma OrOfFlags(low: nat)
    requires low == 1 || low == 0x701
    ensures BitOr(low, 0x703) == 0x703
  {
    assert Pow2(2) == 4;
    assert BitOr(1, 3) == 3;
    OrSplit(2, 1, 3, low / 4, 0x1C0);
    OrSame(0x1C0);
  }

  lemma LowOfFlags(d: Descriptor)
    requires d.Low() == 0x703
    ensures d.valid && d.link && d.lower == 0x1C0
  {
  }

  // ----- the tables that are built

  /** Last-level word `q` when `pages` pages are mapped from page `first` of the window on. */
  function LinearLeaf(startPa: nat, first: nat, pages: nat, q: nat): Descriptor {
    if first <= q < first + pages then KernelEntry(startPa + 0x1000 * (q - first)) else ZERO
  }

  ghost predicate LinksBuilt(w: Words, t: Tables, links: nat) {
    && (forall i: nat | i < 512 :: Read(w, t.pgd, i) == if i == OffsetL0(t.startVa) then LinkTo(t.pud) else ZERO)
    && (forall i: nat | i < 512 :: Read(w, t.pud, i) == if i == OffsetL1(t.startVa) then LinkTo(t.pmd) else ZERO)
    && (forall i: nat | i < 512 :: Read(w, t.pmd, i)
          == if OffsetL2(t.startVa) <= i < OffsetL2(t.startVa) + links
              then LinkTo(t.pt3 + (i - OffsetL2(t.startVa))) else ZERO)
  }

  ghost predicate LeavesBuilt(w: Words, t: Tables, n: nat, pages: nat) {
    forall f: nat, i: nat | t.pt3 <= f < t.pt3 + n && i < 512 ::
      Read(w, f, i) == LinearLeaf(t.startPa, OffsetL3(t.startVa), pages, (f - t.pt3) * 512 + i)
  }

  ghost predicate Built(w: Words, t: Tables, n: nat, links: nat, pages: nat) {
    LinksBuilt(w, t, links) && LeavesBuilt(w, t, n, pages)
  }

  ghost predicate Zeroed(m: Words, t: Tables, n: nat) {
    forall f: nat, i: nat | IsTable(t, n, f) && i < 512 :: Read(m, f, i) == ZERO
  }

  ghost predicate SameElsewhere(m: Words, w: Words, t: Tables, n: nat) {
    forall f, i | !IsTable(t, n, f) :: Read(w, f, i) == Read(m, f, i)
  }

  /** The built tables have the shape that `page_table_map` keeps. */
  lemma BuiltHasShape(w: Words, t: Tables, n: nat, pages: nat)
    requires Layout(t, n) && Built(w, t, n, n, pages)
    ensures Shape(w, t, n)
  {
  }

  /** Page `i` of the start is page `i` of memory, and nothing else is mapped. */
  lemma BuiltIsLinear(w: Words, t: Tables, n: nat, pages: nat, va: nat)
    requires Layout(t, n) && Built(w, t, n, n, pages) && OffsetL3(t.startVa) + pages <= 512 * n
    ensures Walk(w, t.pgd, va)
         == if PageOf(t.startVa) <= PageOf(va) < PageOf(t.startVa) + pages
            then Mapped(Field36(t.startPa + 0x1000 * (PageOf(va) - PageOf(t.startVa))), KERNEL_ATTRIBUTES)
            else Fault
  {
    var b, x := IndicesOf(t.startVa), IndicesOf(va);
    BuiltHasShape(w, t, n, pages);
    WalkFromIsLookup(w, t, n, b, x);
    WindowIndices(t, n, va);
    WindowIndices(t, n, t.startVa);
    PageDigits(t.startVa);
    Digits(PageOf(t.startVa), 512, 512);
    if Covers(b, n, x) && PageOf(t.startVa) <= PageOf(va) {
      KernelEntryDecodes(t.startPa + 0x1000 * (PageOf(va) - PageOf(t.startVa)));
    }
  }

  // ----- in place

  /** The address of page `i` from the start, while the walk of the pages lasts. */
  lemma PageStep(start: nat, i: nat)
    requires start % 0x1000 == 0
    ensures OffsetL3(start + 0x1000 * i) == (OffsetL3(start) + i) % 512
  {
    DivUnique(start + 0x1000 * i, 0x1000, start / 0x1000 + i, 0);
    var v := start / 0x1000;
    DivUnique(v + i, 512, v / 512 + (v % 512 + i) / 512, (v % 512 + i) % 512);
  }

  lemma LinkStepAddress(start: nat, i: nat)
    requires OffsetL2(start) + i < 512
    ensures OffsetL2(start + 0x20_0000 * i) == OffsetL2(start) + i
  {
    DivUnique(start + 0x20_0000 * i, 0x20_0000, start / 0x20_0000 + i, start % 0x20_0000);
    var v := start / 0x20_0000;
    DivUnique(v + i, 512, v / 512, v % 512 + i);
  }

  /** The window ends inside the address space. */
  lemma NoWrap(start: nat, n: nat)
    requires start < U64 && OffsetL2(start) + n <= 512
    ensures start / 0x20_0000 * 0x20_0000 + n * 0x20_0000 <= U64
  {
    var s := start / 0x20_0000;
    assert s < 0x800_0000_0000;
    Digits(s, 512, 0x4_0000_0000);
    assert s / 512 < 0x4_0000_0000;
  }

  lemma TopLinks(m: Words, w: Words, t: Tables, n: nat)
    requires TablesApart(t, n) && Zeroed(m, t, n)
    requires w == m[Slot(t.pgd, OffsetL0(t.startVa)) := LinkTo(t.pud)]
                   [Slot(t.pud, OffsetL1(t.startVa)) := LinkTo(t.pmd)]
    ensures Built(w, t, n, 0, 0) && SameElsewhere(m, w, t, n)
  {
    var m0 := m[Slot(t.pgd, OffsetL0(t.startVa)) := LinkTo(t.pud)];
    ReadUpdate(m, Slot(t.pgd, OffsetL0(t.startVa)), LinkTo(t.pud));
    ReadUpdate(m0, Slot(t.pud, OffsetL1(t.startVa)), LinkTo(t.pmd));
  }

  lemma NextLink(m: Words, w: Words, t: Tables, n: nat, i: nat)
    requires Layout(t, n) && i < n && Built(m, t, n, i, 0)
    requires w == m[Slot(t.pmd, OffsetL2(t.startVa) + i) := LinkTo(t.pt3 + i)]
    ensures Built(w, t, n, i + 1, 0) && SameElsewhere(m, w, t, n)
  {
    ReadUpdate(m, Slot(t.pmd, OffsetL2(t.startVa) + i), LinkTo(t.pt3 + i));
  }

  lemma NextLeaf(m: Words, w: Words, t: Tables, n: nat, i: nat)
    requires Layout(t, n) && Built(m, t, n, n, i) && OffsetL3(t.startVa) + i < 512 * n
    requires w == m[ArraySlot(t.pt3, OffsetL3(t.startVa) + i) := KernelEntry(t.startPa + 0x1000 * i)]
    ensures Built(w, t, n, n, i + 1) && SameElsewhere(m, w, t, n)
  {
    var q := OffsetL3(t.startVa) + i;
    ReadUpdate(m, ArraySlot(t.pt3, q), KernelEntry(t.startPa + 0x1000 * i));
  }

  lemma StartsSame(m: Words, t: Tables, n: nat)
    ensures SameElsewhere(m, m, t, n)
  {
  }

  lemma NextLeafToo(before: Words, m: Words, w: Words, t: Tables, n: nat, i: nat)
    requires SameElsewhere(before, m, t, n)
    requires Layout(t, n) && Built(m, t, n, n, i) && OffsetL3(t.startVa) + i < 512 * n
    requires w == m[ArraySlot(t.pt3, OffsetL3(t.startVa) + i) := KernelEntry(t.startPa + 0x1000 * i)]
    ensures Built(w, t, n, n, i + 1) && SameElsewhere(before, w, t, n)
  {
    NextLeaf(m, w, t, n, i);
    hide Built, Layout;
  }

  method ConnectTables(mem: PhysicalMemory, t: Tables, ramSize: nat)
    requires Layout(t, LinkCount(ramSize)) && Zeroed(mem.words, t, LinkCount(ramSize))
    modifies mem
    ensures Built(mem.words, t, LinkCount(ramSize), LinkCount(ramSize), 0)
    ensures SameElsewhere(old(mem.words), mem.words, t, LinkCount(ramSize))
  {
    ghost var n := LinkCount(ramSize);
    mem.words := mem.words[Slot(t.pgd, OffsetL0(t.startVa)) := LinkTo(t.pud)];
    mem.words := mem.words[Slot(t.pud, OffsetL1(t.startVa)) := LinkTo(t.pmd)];
    TopLinks(old(mem.words), mem.words, t, n);
    var count := (ramSize + 0x1F_FFFF) / 0x20_0000;
    var i, idVma, more := 0, t.startVa, true;
    NoWrap(t.startVa, n);
    while more
      invariant i <= n && (more <==> i < n) && (more ==> idVma == t.startVa + 0x20_0000 * i)
      invariant Built(mem.words, t, n, i, 0) && SameElsewhere(old(mem.words), mem.words, t, n)
      decreases n - i
    {
      LinkStepAddress(t.startVa, i);
      ghost var m := mem.words;
      mem.words := mem.words[Slot(t.pmd, OffsetL2(idVma)) := LinkTo(t.pt3 + i)];
      NextLink(m, mem.words, t, n, i);
      idVma := Add64(idVma, 0x20_0000);
      more := i <= count;
      i := i + 1;
    }
  }

  /** How many words of tables come before the one of page `i`. */
  function WordsBefore(first: nat, i: nat): nat { (first + i) / 512 * 512 }

  /** Where the code finds the place of page `i`: an index into a table, and how many words of
      tables come before it. */
  lemma Position(start: nat, i: nat, offset: nat, count: nat)
    requires start % 0x1000 == 0 && offset == OffsetL3(start + 0x1000 * i) && count == WordsBefore(OffsetL3(start), i)
    ensures offset + count == OffsetL3(start) + i
    ensures WordsBefore(OffsetL3(start), i + 1) == count + if offset == 511 then 512 else 0
  {
    PageStep(start, i);
    NextCount(OffsetL3(start) + i);
  }

  lemma NextCount(x: nat)
    ensures (x + 1) / 512 * 512 == x / 512 * 512 + if x % 512 == 511 then 512 else 0
  {
    var q, r := x / 512, x % 512;
    if r == 511 {
      DivUnique(x + 1, 512, q + 1, 0);
    } else {
      DivUnique(x + 1, 512, q, r + 1);
    }
  }

  /** The links made are enough for the pages. */
  lemma PagesFit(ramSize: nat)
    ensures ramSize / 0x1000 <= 512 * (LinkCount(ramSize) - 2)
    ensures 0x1000 * (ramSize / 0x1000) <= ramSize
  {
    var c := (ramSize + 0x1F_FFFF) / 0x20_0000;
    assert ramSize <= 0x20_0000 * c;
  }

  method MapPages(mem: PhysicalMemory, t: Tables, ramSize: nat)
    requires Layout(t, LinkCount(ramSize)) && Built(mem.words, t, LinkCount(ramSize), LinkCount(ramSize), 0)
    requires t.startVa % 0x1000 == 0
    modifies mem
    ensures Built(mem.words, t, LinkCount(ramSize), LinkCount(ramSize), ramSize / 0x1000)
    ensures SameElsewhere(old(mem.words), mem.words, t, LinkCount(ramSize))
  {
    ghost var n := LinkCount(ramSize);
    ghost var first := OffsetL3(t.startVa);
    var pageVa, pagePa, count, entry := t.startVa, t.startPa, 0, ZERO;
    NoWrap(t.startVa, n);
    PagesFit(ramSize);
    StartsSame(mem.words, t, n);
    hide Built, SameElsewhere, WordsBefore, Layout, NextEntry, KernelEntry, ArraySlot;
    for i := 0 to ramSize / 0x1000
      invariant pageVa == t.startVa + 0x1000 * i && pagePa == t.startPa + 0x1000 * i
      invariant count == WordsBefore(first, i)
      invariant entry.upper == 0 && (entry.lower == 0 || entry.lower == 0x1C0)
      invariant Built(mem.words, t, n, n, i) && SameElsewhere(old(mem.words), mem.words, t, n)
    {
      var offset := OffsetL3(pageVa);
      Position(t.startVa, i, offset, count);
      NextEntryIs(entry, pagePa);
      entry := NextEntry(entry, pagePa);
      ghost var m := mem.words;
      mem.words := mem.words[ArraySlot(t.pt3, offset + count) := entry];
      NextLeafToo(old(mem.words), m, mem.words, t, n, i);
      pageVa := Add64(pageVa, 0x1000);
      pagePa := pagePa + 0x1000;
      count := count + if offset == 511 then 512 else 0;
    }
  }

  /** `normal_map_kernel_4KB` on zeroed tables, for a page-aligned start whose links stay in one
      second-level table: page `i` of the start walks to page `i` of memory, every other
      address faults, and the tables are ready for `page_table_map`. */
  method NormalMapKernel(mem: PhysicalMemory, t: Tables, ramSize: nat)
    requires Layout(t, LinkCount(ramSize)) && Zeroed(mem.words, t, LinkCount(ramSize))
    requires t.startVa % 0x1000 == 0
    modifies mem
    ensures Shape(mem.words, t, LinkCount(ramSize))
    ensures forall va: nat :: Walk(mem.words, t.pgd, va)
              == if PageOf(t.startVa) <= PageOf(va) < PageOf(t.startVa) + ramSize / 0x1000
                 then Mapped(Field36(t.startPa + 0x1000 * (PageOf(va) - PageOf(t.startVa))), KERNEL_ATTRIBUTES)
                 else Fault
    ensures SameElsewhere(old(mem.words), mem.words, t, LinkCount(ramSize))
  {
    PagesFit(ramSize);
    ConnectTables(mem, t, ramSize);
    MapPages(mem, t, ramSize);
    var n, pages := LinkCount(ramSize), ramSize / 0x1000;
    BuiltHasShape(mem.words, t, n, pages);
    forall va: nat
      ensures Walk(mem.words, t.pgd, va)
           == if PageOf(t.startVa) <= PageOf(va) < PageOf(t.startVa) + pages
              then Mapped(Field36(t.startPa + 0x1000 * (PageOf(va) - PageOf(t.startVa))), KERNEL_ATTRIBUTES)
              else Fault
    {
      BuiltIsLinear(mem.words, t, n, pages, va);
    }
  }

  /** With equal starts every mapped address translates to itself. */
  lemma EqualStartsAreIdentity(w: Words, t: Tables, n: nat, pages: nat, va: nat)
    requires Layout(t, n) && Built(w, t, n, n, pages) && OffsetL3(t.startVa) + pages <= 512 * n
    requires t.startPa == t.startVa && t.startVa % 0x1000 == 0 && va < 0x1_0000_0000_0000
    requires t.startVa <= va < t.startVa + 0x1000 * pages
    ensures Walk(w, t.pgd, va) == Mapped(va / 0x1000, KERNEL_ATTRIBUTES)
  {
    BuiltIsLinear(w, t, n, pages, va);
    PageNumbers(t.startVa, va, pages);
  }

  lemma PageNumbers(start: nat, va: nat, pages: nat)
    requires start % 0x1000 == 0 && start <= va < start + 0x1000 * pages && va < 0x1_0000_0000_0000
    ensures PageOf(start) <= PageOf(va) < PageOf(start) + pages
    ensures Field36(start + 0x1000 * (PageOf(va) - PageOf(start))) == va / 0x1000
  {
    var s, p := start / 0x1000, va / 0x1000;
    assert PageOf(start) == s && PageOf(va) == p;
    assert start + 0x1000 * (p - s) == 0x1000 * p;
    Parts(0, p, 0);
  }
}
