/** `page_table_map` and its wrappers in place, and what they mean: a map from pages to frames
    and attributes, edited one page at a time. */
module PageMap {
  import opened Arithmetic
  import opened Bits
  import opened Descriptors
  import opened PageTables

  // ----- one call

  /** What a mapped page translates to. */
  function Requested(pa: nat, flags: nat, isDev: bool): Translation {
    Mapped(Field36(pa),
           Attributes(Bit(flags, 0x40), Bit(flags, 0x80), Bit(flags, 4) || isDev, Bit(flags, 8), true, isDev))
  }

  /** The edit of one last-level word is the edit of one page of the map. */
  lemma EditRefines(m: Words, w: Words, t: Tables, n: nat, va: nat, leaf: Descriptor)
    requires Layout(t, n) && Shape(m, t, n)
    requires var b, x := IndicesOf(t.startVa), IndicesOf(va);
             Covers(b, n, x) && Edit(m, w, t, x, x.l2 - b.l2, leaf)
    ensures Shape(w, t, n)
    ensures forall a: nat :: Walk(w, t.pgd, a) == if PageOf(a) == PageOf(va) then Decode(leaf) else Walk(m, t.pgd, a)
    ensures forall f, i | !IsTable(t, n, f) :: Read(w, f, i) == Read(m, f, i)
  {
    var b, x := IndicesOf(t.startVa), IndicesOf(va);
    EditKeepsShape(m, w, t, n, b, x, x.l2 - b.l2, leaf);
    forall a: nat
      ensures Walk(w, t.pgd, a) == if PageOf(a) == PageOf(va) then Decode(leaf) else Walk(m, t.pgd, a)
    {
      SamePage(a, va);
      WalkDiffers(m, w, t, n, b, x, IndicesOf(a), leaf);
    }
  }

  lemma WalkDiffers(m: Words, w: Words, t: Tables, n: nat, b: Indices, x: Indices, y: Indices, leaf: Descriptor)
    requires ShapeAt(m, t, n, b) && ShapeAt(w, t, n, b) && Covers(b, n, x) && y.InRange()
    requires forall f: nat, j: nat | t.pt3 <= f < t.pt3 + n ::
               Read(w, f, j) == if f == t.pt3 + (x.l2 - b.l2) && j == x.l3 then leaf else Read(m, f, j)
    ensures WalkFrom(w, t.pgd, y) == if x == y then Decode(leaf) else WalkFrom(m, t.pgd, y)
  {
    WalkFromIsLookup(m, t, n, b, y);
    WalkFromIsLookup(w, t, n, b, y);
  }

  /** One call inside the window succeeds and is one update of the map from pages to frames:
      the page gets the requested frame and attributes, every other page keeps its
      translation, the shape is kept, and no word outside the tables changes. */
  lemma MapPageRefines(m: Words, t: Tables, n: nat, va: nat, pa: nat, flags: nat, isDev: bool)
    requires Layout(t, n) && Shape(m, t, n) && va < U64 && Mappable(t, n, va) && flags < 0x1000
    ensures var r := MapPage(m, t, va, pa, flags, isDev);
            && r.Done? && Shape(r.words, t, n)
            && (forall a: nat :: Walk(r.words, t.pgd, a)
                  == if PageOf(a) == PageOf(va) then Requested(pa, flags, isDev) else Walk(m, t.pgd, a))
            && (forall f, i | !IsTable(t, n, f) :: Read(r.words, f, i) == Read(m, f, i))
  {
    MapIndices(t, n, va);
    var leaf, k := LeafEntry(pa, flags, isDev), OffsetL2(va) - OffsetL2(t.startVa);
    var w := MapAt(m, t, IndicesOf(va), 0, k, leaf);
    assert MapPage(m, t, va, pa, flags, isDev) == Done(w);
    MapAtEdits(m, t, n, IndicesOf(va), k, leaf);
    EditRefines(m, w, t, n, va, leaf);
    LeafDecodes(pa, flags, isDev);
  }

  lemma SamePage(a: nat, c: nat)
    ensures PageOf(a) == PageOf(c) <==> IndicesOf(a) == IndicesOf(c)
  {
    PageDigits(a);
    PageDigits(c);
    Recompose(PageOf(a));
    Recompose(PageOf(c));
  }

  lemma Recompose(p: nat)
    requires p < 0x10_0000_0000
    ensures p == p / 0x800_0000 * 0x800_0000 + p / 0x4_0000 % 512 * 0x4_0000 + p / 512 % 512 * 512 + p % 512
  {
    Digits(p, 512, 512);
    Digits(p, 0x4_0000, 512);
  }

  // ----- whole runs

  type Address = a: nat | a < U64

  datatype Mapping = Mapping(va: Address, pa: nat, flags: nat, isDev: bool)

  predicate Allowed(t: Tables, n: nat, q: Mapping) {
    Mappable(t, n, q.va) && q.flags < 0x1000
  }

  /** The calls in order; a crash ends the run. */
  function MapAll(m: Words, t: Tables, qs: seq<Mapping>): Outcome
    requires t.startVa < U64
  {
    if qs == [] then Done(m)
    else
      var last := qs[|qs| - 1];
      match MapAll(m, t, qs[..|qs| - 1])
      case Crash => Crash
      case Done(w) => MapPage(w, t, last.va, last.pa, last.flags, last.isDev)
  }

  /** The same calls on a plain map from page numbers. */
  function Abstract(qs: seq<Mapping>): map<nat, Translation> {
    if qs == [] then map[]
    else
      var last := qs[|qs| - 1];
      Abstract(qs[..|qs| - 1])[PageOf(last.va) := Requested(last.pa, last.flags, last.isDev)]
  }

  /** Over any sequence of calls in the window the walk is the lookup in the map of requests,
      and pages never asked for translate as before. */
  lemma {:induction false} RunRefinesMap(m: Words, t: Tables, n: nat, qs: seq<Mapping>)
    requires Layout(t, n) && Shape(m, t, n) && forall q | q in qs :: Allowed(t, n, q)
    ensures var r := MapAll(m, t, qs);
            && r.Done? && Shape(r.words, t, n)
            && (forall a: nat :: Walk(r.words, t.pgd, a)
                  == if PageOf(a) in Abstract(qs) then Abstract(qs)[PageOf(a)] else Walk(m, t.pgd, a))
            && (forall f, i | !IsTable(t, n, f) :: Read(r.words, f, i) == Read(m, f, i))
  {
    if qs != [] {
      var rest, last := qs[..|qs| - 1], qs[|qs| - 1];
      assert last in qs && forall q | q in rest :: q in qs;
      RunRefinesMap(m, t, n, rest);
      MapPageRefines(MapAll(m, t, rest).words, t, n, last.va, last.pa, last.flags, last.isDev);
    }
  }

  // ----- beyond the first gigabyte

  /** Second-level tables of one page for each of 32 gigabytes (`PMD_QUAD_SIZE`), and `n`
      last-level ones. */
  predicate WideApart(t: Tables, n: nat) {
    && t.pgd != t.pud && !(t.pmd <= t.pgd < t.pmd + 32) && !(t.pmd <= t.pud < t.pmd + 32)
    && !(t.pt3 <= t.pgd < t.pt3 + n) && !(t.pt3 <= t.pud < t.pt3 + n)
    && (t.pmd + 32 <= t.pt3 || t.pt3 + n <= t.pmd)
    && t.pgd < 0x10_0000_0000 && t.pud < 0x10_0000_0000
    && t.pmd + 32 <= 0x10_0000_0000 && t.pt3 + n <= 0x10_0000_0000
  }

  /** The second-level entry for these indices is not linked yet; the words above it are empty or
      lead to the tables of the gigabyte. */
  predicate Unlinked(m: Words, t: Tables, x: Indices, gb: nat) {
    var d0, d1, d2 := Read(m, t.pgd, x.l0), Read(m, t.pud, x.l1), Read(m, t.pmd + gb, x.l2);
    && d0.upper == 0 && (d0.valid ==> LinksTo(d0, t.pud))
    && d1.upper == 0 && (d1.valid ==> LinksTo(d1, t.pmd + gb))
    && d2.upper == 0 && !d2.valid
  }

  /** Where the second-level entry of the page is not linked yet, the page translates after the
      call exactly if it is in the first gigabyte from the start of the mapping: from there on
      the link is written to another entry than the walk reads. */
  lemma MapHitsIffFirstGigabyte(m: Words, t: Tables, n: nat, va: nat, pa: nat, flags: nat, isDev: bool)
    requires va < U64 && t.startVa <= va && WideApart(t, n) && flags < 0x1000
    requires (va - t.startVa) / 0x4000_0000 < 32 && (va - t.startVa) / 0x20_0000 < n
    requires Unlinked(m, t, IndicesOf(va), (va - t.startVa) / 0x4000_0000)
    ensures var r := MapPage(m, t, va, pa, flags, isDev);
            && r.Done?
            && Walk(r.words, t.pgd, va)
               == if va - t.startVa < 0x4000_0000 then Requested(pa, flags, isDev) else Fault
  {
    hide MapPage, MapAt, WalkFrom, LeafEntry, Unlinked, WideApart;
    var x, index, leaf := IndicesOf(va), va - t.startVa, LeafEntry(pa, flags, isDev);
    var gb, mb2 := index / 0x4000_0000, index / 0x20_0000;
    MapPageIs(m, t, va, pa, flags, isDev);
    WideMapAt(m, t, n, x, gb, mb2, leaf);
    LeafDecodes(pa, flags, isDev);
  }

  /** The second-level entry for these indices leads to a last-level table already, of whatever
      number; the words above it as before. */
  predicate LinkedAlready(m: Words, t: Tables, n: nat, x: Indices, gb: nat) {
    var d0, d1, d2 := Read(m, t.pgd, x.l0), Read(m, t.pud, x.l1), Read(m, t.pmd + gb, x.l2);
    && d0.upper == 0 && (d0.valid ==> LinksTo(d0, t.pud))
    && d1.upper == 0 && (d1.valid ==> LinksTo(d1, t.pmd + gb))
    && LinksTo(d2, d2.address) && t.pt3 <= d2.address < t.pt3 + n
  }

  /** Where the entry is linked, to table `next`: the page translates as asked exactly if this is
      the table that the distance from the start counts, or if the word that the walk reads has
      asked for the same before. */
  lemma LinkedMapHitsIff(m: Words, t: Tables, n: nat, va: nat, pa: nat, flags: nat, isDev: bool)
    requires va < U64 && t.startVa <= va && WideApart(t, n) && flags < 0x1000
    requires (va - t.startVa) / 0x4000_0000 < 32 && (va - t.startVa) / 0x20_0000 < n
    requires LinkedAlready(m, t, n, IndicesOf(va), (va - t.startVa) / 0x4000_0000)
    ensures var r := MapPage(m, t, va, pa, flags, isDev);
            var next := Read(m, t.pmd + (va - t.startVa) / 0x4000_0000, OffsetL2(va)).address;
            && r.Done?
            && (Walk(r.words, t.pgd, va) == Requested(pa, flags, isDev) <==>
                  next == t.pt3 + (va - t.startVa) / 0x20_0000
                  || Decode(Read(m, next, OffsetL3(va))) == Requested(pa, flags, isDev))
  {
    hide MapPage, MapAt, WalkFrom, LeafEntry, LinkedAlready, WideApart;
    var x, index, leaf := IndicesOf(va), va - t.startVa, LeafEntry(pa, flags, isDev);
    MapPageIs(m, t, va, pa, flags, isDev);
    LinkedMapAt(m, t, n, x, index / 0x4000_0000, index / 0x20_0000, leaf);
    LeafDecodes(pa, flags, isDev);
  }

  lemma LinkedSteps(m: Words, m0: Words, m1: Words, t: Tables, n: nat, x: Indices, gb: nat, mb2: nat, leaf: Descriptor)
    requires WideApart(t, n) && gb < 32 && mb2 < n && LinkedAlready(m, t, n, x, gb)
    requires Relinked(m, m0, t.pgd, x.l0, t.pud) && Relinked(m0, m1, t.pud, x.l1, t.pmd + gb)
    ensures Read(m1, t.pmd + gb, x.l2) == Read(m, t.pmd + gb, x.l2)
    ensures var next := Read(m, t.pmd + gb, x.l2).address;
            WalkFrom(m1[Slot(t.pt3 + mb2, x.l3) := leaf], t.pgd, x)
            == Decode(if next == t.pt3 + mb2 then leaf else Read(m, next, x.l3))
  {
  }

  lemma LinkedMapAt(m: Words, t: Tables, n: nat, x: Indices, gb: nat, mb2: nat, leaf: Descriptor)
    requires WideApart(t, n) && x.InRange() && gb < 32 && mb2 < n && LinkedAlready(m, t, n, x, gb)
    ensures var next := Read(m, t.pmd + gb, x.l2).address;
            WalkFrom(MapAt(m, t, x, gb, mb2, leaf), t.pgd, x)
            == Decode(if next == t.pt3 + mb2 then leaf else Read(m, next, x.l3))
  {
    ArraySlotIs(t.pmd, gb, x.l2);
    ArraySlotIs(t.pt3, mb2, x.l3);
    var m0 := LinkIfInvalid(m, Slot(t.pgd, x.l0), Slot(t.pgd, x.l0), t.pud);
    var m1 := LinkIfInvalid(m0, Slot(t.pud, x.l1), Slot(t.pud, x.l1), t.pmd + gb);
    TablesInRange(t, n, gb);
    LinkStep(m, t.pgd, x.l0, t.pud);
    LinkStep(m0, t.pud, x.l1, t.pmd + gb);
    LinkedSteps(m, m0, m1, t, n, x, gb, mb2, leaf);
    LinkStays(m, m1, t, n, x, gb);
    hide WalkFrom, LinkedAlready, WideApart, Relinked;
    assert MapAt(m, t, x, gb, mb2, leaf) == m1[Slot(t.pt3 + mb2, x.l3) := leaf];
  }

  lemma TablesInRange(t: Tables, n: nat, gb: nat)
    requires WideApart(t, n) && gb < 32
    ensures t.pud < 0x10_0000_0000 && t.pmd + gb < 0x10_0000_0000
  {
  }

  lemma LinkStays(m: Words, m1: Words, t: Tables, n: nat, x: Indices, gb: nat)
    requires LinkedAlready(m, t, n, x, gb) && Read(m1, t.pmd + gb, x.l2) == Read(m, t.pmd + gb, x.l2)
    ensures Read(m1, t.pmd + gb, x.l2).valid
  {
  }

  /** The words that a call for these indices sets in the second-level and last-level tables. */
  function LinkSlot(t: Tables, x: Indices, gb: nat): Slot { ArraySlot(t.pmd, x.l2 + gb * 512 / 0x1000) }

  function LeafSlot(t: Tables, x: Indices, mb2: nat): Slot { Slot(t.pt3 + mb2, x.l3) }

  lemma MapAtStores(m: Words, t: Tables, x: Indices, gb: nat, mb2: nat, leaf: Descriptor)
    requires x.InRange()
    ensures var w := MapAt(m, t, x, gb, mb2, leaf);
            && Read(w, t.pt3 + mb2, x.l3) == leaf
            && forall f: nat, i: nat | f != t.pgd && f != t.pud && Slot(f, i) != LinkSlot(t, x, gb)
                 && Slot(f, i) != LeafSlot(t, x, mb2) :: Read(w, f, i) == Read(m, f, i)
  {
    ArraySlotIs(t.pt3, mb2, x.l3);
  }

  /** Where a call stores, whatever memory there is: into the first two tables, into one word counted
      from the second-level table, and into one word counted from the last-level ones. That word is in
      one of these exactly if the address is in their window; beyond it the call stores into a frame
      that is none of them, and reports no error. */
  lemma StoresWhere(m: Words, t: Tables, n: nat, va: nat, pa: nat, flags: nat, isDev: bool)
    requires va < U64 && t.startVa <= va && (va - t.startVa) / 0x4000_0000 < 512
    ensures var r, x := MapPage(m, t, va, pa, flags, isDev), IndicesOf(va);
            var gb, mb2 := (va - t.startVa) / 0x4000_0000, (va - t.startVa) / 0x20_0000;
            && r.Done? && Read(r.words, t.pt3 + mb2, x.l3) == LeafEntry(pa, flags, isDev)
            && (forall f: nat, i: nat | f != t.pgd && f != t.pud && Slot(f, i) != LinkSlot(t, x, gb)
                  && Slot(f, i) != LeafSlot(t, x, mb2) :: Read(r.words, f, i) == Read(m, f, i))
            && (t.pt3 <= LeafSlot(t, x, mb2).frame < t.pt3 + n <==> va < t.startVa + n * 0x20_0000)
  {
    hide MapPage, LeafEntry, MapAt, LinkSlot;
    var x, gb, mb2 := IndicesOf(va), (va - t.startVa) / 0x4000_0000, (va - t.startVa) / 0x20_0000;
    MapPageIs(m, t, va, pa, flags, isDev);
    MapAtStores(m, t, x, gb, mb2, LeafEntry(pa, flags, isDev));
  }

  lemma EditWalks(m: Words, w: Words, t: Tables, n: nat, x: Indices, k: nat, leaf: Descriptor)
    requires TablesApart(t, n) && k < n && Unlinked(m, t, x, 0) && Edit(m, w, t, x, k, leaf)
    ensures WalkFrom(w, t.pgd, x) == Decode(leaf)
  {
  }

  /** Behind the window of the last-level tables, in the first gigabyte: a page that is not linked yet
      translates as asked, through a frame that is no table of the process. */
  lemma BeyondTables(m: Words, t: Tables, n: nat, va: nat, pa: nat, flags: nat, isDev: bool)
    requires va < U64 && t.startVa + n * 0x20_0000 <= va < t.startVa + 0x4000_0000 && flags < 0x1000
    requires TablesApart(t, (va - t.startVa) / 0x20_0000 + 1) && Unlinked(m, t, IndicesOf(va), 0)
    ensures var r, f := MapPage(m, t, va, pa, flags, isDev), t.pt3 + (va - t.startVa) / 0x20_0000;
            && r.Done? && Walk(r.words, t.pgd, va) == Requested(pa, flags, isDev)
            && !IsTable(t, n, f) && Read(r.words, f, OffsetL3(va)) == LeafEntry(pa, flags, isDev)
  {
    hide MapPage, MapAt, LeafEntry, WalkFrom, Unlinked, Edit;
    var k, leaf := (va - t.startVa) / 0x20_0000, LeafEntry(pa, flags, isDev);
    assert (va - t.startVa) / 0x4000_0000 == 0;
    MapPageIs(m, t, va, pa, flags, isDev);
    StoresWhere(m, t, n, va, pa, flags, isDev);
    MapAtEdits(m, t, k + 1, IndicesOf(va), k, leaf);
    EditWalks(m, MapAt(m, t, IndicesOf(va), 0, k, leaf), t, k + 1, IndicesOf(va), k, leaf);
    LeafDecodes(pa, flags, isDev);
  }

  /** The first address behind the four last-level tables of a process. */
  lemma FifthTableIsNone(pa: nat, flags: nat)
    requires flags < 0x1000
    ensures var t, va := Tables(1, 2, 3, 4, 0, 0), 0x80_0000;
            var r := MapPage(map[], t, va, pa, flags, false);
            && r.Done? && !IsTable(t, 4, 8) && Read(r.words, 8, OffsetL3(va)) == LeafEntry(pa, flags, false)
            && Walk(r.words, t.pgd, va) == Requested(pa, flags, false)
  {
    var t, va := Tables(1, 2, 3, 4, 0, 0), 0x80_0000;
    hide MapPage, LeafEntry, WalkFrom, IndicesOf, OffsetL3;
    assert Unlinked(map[], t, IndicesOf(va), 0);
    BeyondTables(map[], t, 4, va, pa, flags, false);
  }

  /** The kernel's tables, still empty, and an address one gigabyte above their start: the call
      reports no error, and the page does not translate. */
  lemma NextGigabyteIsLost(pa: nat)
    ensures var t, va := Tables(1, 2, 64, 4096, KERNEL_VA_BASE, 0), KERNEL_VA_BASE + 0x4000_0000;
            var r := MapPage(map[], t, va, pa, PT_KERNEL, false);
            r.Done? && Walk(r.words, t.pgd, va) == Fault
  {
    var t := Tables(1, 2, 64, 4096, KERNEL_VA_BASE, 0);
    MapHitsIffFirstGigabyte(map[], t, 2048, KERNEL_VA_BASE + 0x4000_0000, pa, PT_KERNEL, false);
  }

  /** The call crashes exactly for addresses 512 gigabytes or more from the start, counted in 64 bits. */
  lemma CrashesIff(m: Words, t: Tables, va: nat, pa: nat, flags: nat, isDev: bool)
    requires va < U64 && t.startVa < U64
    ensures MapPage(m, t, va, pa, flags, isDev) == Crash
        <==> (va - t.startVa) % 0x1_0000_0000_0000_0000 >= 0x80_0000_0000
  {
    hide MapAt, LeafEntry;
  }

  /** Within 512 gigabytes from the start the call stores its entries. */
  lemma MapPageIs(m: Words, t: Tables, va: nat, pa: nat, flags: nat, isDev: bool)
    requires va < U64 && t.startVa <= va && (va - t.startVa) / 0x4000_0000 < 512
    ensures MapPage(m, t, va, pa, flags, isDev)
         == Done(MapAt(m, t, IndicesOf(va), (va - t.startVa) / 0x4000_0000, (va - t.startVa) / 0x20_0000,
                       LeafEntry(pa, flags, isDev)))
    ensures (va - t.startVa) / 0x4000_0000 == 0 <==> va - t.startVa < 0x4000_0000
  {
    hide MapAt, LeafEntry;
    Digits(va - t.startVa, 0x4000_0000, 512);
  }

  lemma WideSteps(m: Words, m0: Words, m1: Words, t: Tables, n: nat, x: Indices, gb: nat, mb2: nat,
                  to: Slot, leaf: Descriptor)
    requires WideApart(t, n) && gb < 32 && mb2 < n
    requires Unlinked(m, t, x, gb)
    requires Relinked(m, m0, t.pgd, x.l0, t.pud) && Relinked(m0, m1, t.pud, x.l1, t.pmd + gb)
    requires t.pmd <= to.frame < t.pmd + 32 && (to == Slot(t.pmd + gb, x.l2) <==> gb == 0)
    ensures var link := Read(m1, t.pmd + gb, x.l2).(valid := true, link := true, address := t.pt3 + mb2);
            WalkFrom(m1[to := link][Slot(t.pt3 + mb2, x.l3) := leaf], t.pgd, x)
            == if gb == 0 then Decode(leaf) else Fault
  {
  }

  lemma WideStore(m: Words, t: Tables, n: nat, x: Indices, gb: nat, mb2: nat, to: Slot, leaf: Descriptor)
    requires WideApart(t, n) && gb < 32 && mb2 < n
    requires Unlinked(m, t, x, gb)
    requires t.pmd <= to.frame < t.pmd + 32 && (to == Slot(t.pmd + gb, x.l2) <==> gb == 0)
    ensures WalkFrom(Store(m, Slot(t.pgd, x.l0), Slot(t.pud, x.l1), Slot(t.pmd + gb, x.l2), to,
                           Slot(t.pt3 + mb2, x.l3), t.pud, t.pmd + gb, t.pt3 + mb2, leaf), t.pgd, x)
         == if gb == 0 then Decode(leaf) else Fault
  {
    var m0 := LinkIfInvalid(m, Slot(t.pgd, x.l0), Slot(t.pgd, x.l0), t.pud);
    var m1 := LinkIfInvalid(m0, Slot(t.pud, x.l1), Slot(t.pud, x.l1), t.pmd + gb);
    LinkStep(m, t.pgd, x.l0, t.pud);
    LinkStep(m0, t.pud, x.l1, t.pmd + gb);
    var link := Read(m1, t.pmd + gb, x.l2).(valid := true, link := true, address := t.pt3 + mb2);
    assert LinkIfInvalid(m1, Slot(t.pmd + gb, x.l2), to, t.pt3 + mb2) == m1[to := link];
    WideSteps(m, m0, m1, t, n, x, gb, mb2, to, leaf);
  }

  lemma WideMapAt(m: Words, t: Tables, n: nat, x: Indices, gb: nat, mb2: nat, leaf: Descriptor)
    requires WideApart(t, n) && x.InRange() && gb < 32 && mb2 < n
    requires Unlinked(m, t, x, gb)
    ensures WalkFrom(MapAt(m, t, x, gb, mb2, leaf), t.pgd, x) == if gb == 0 then Decode(leaf) else Fault
  {
    hide WalkFrom, Store, Unlinked;
    var to := ArraySlot(t.pmd, x.l2 + gb * 512 / 0x1000);
    ArraySlotIs(t.pmd, gb, x.l2);
    ArraySlotIs(t.pt3, mb2, x.l3);
    assert MapAt(m, t, x, gb, mb2, leaf)
        == Store(m, Slot(t.pgd, x.l0), Slot(t.pud, x.l1), Slot(t.pmd + gb, x.l2), to, Slot(t.pt3 + mb2, x.l3),
                 t.pud, t.pmd + gb, t.pt3 + mb2, leaf);
    WideStore(m, t, n, x, gb, mb2, to, leaf);
  }

  // ----- reading a translation back

  /** PAR_EL1 after `AT S1E1R`: bits 47 to 12 of the physical address between the attribute
      fields `low` and `high`, or a word with bit 0 set. */
  function PackPar(tr: Translation, low: nat, high: nat): nat {
    match tr
    case Fault => 2 * low + 1
    case Mapped(frame, _) => 2 * low + 0x1000 * frame + 0x100_0000_0000_0000 * high
  }

  /** `get_physical_address`, from the register on. */
  function PhysicalAddress(par: nat, va: nat): nat {
    var pa := if par % 2 == 1 then 0 else par;
    BitOr(pa / 0x1000 * 0x1000, va % 0x1000) % 0x100_0000_0000_0000
  }

  lemma OrNothing(o: nat)
    ensures BitOr(0, o) == o
  {
  }

  /** The frame of the translation with the offset of the address; the bare offset if the
      address does not translate. */
  lemma PhysicalAddressIs(tr: Translation, low: nat, high: nat, va: nat)
    requires low < 0x800 && (tr.Mapped? ==> tr.frame < 0x10_0000_0000)
    ensures PhysicalAddress(PackPar(tr, low, high), va)
         == (if tr.Mapped? then 0x1000 * tr.frame else 0) + va % 0x1000
  {
    var par, o := PackPar(tr, low, high), va % 0x1000;
    hide BitOr;
    match tr
    case Fault => OrNothing(o);
    case Mapped(frame, _) =>
      var page := frame + 0x1000_0000_0000 * high;
      DivUnique(par, 2, low + 0x800 * frame + 0x80_0000_0000_0000 * high, 0);
      DivUnique(par, 0x1000, page, 2 * low);
      Or12Disjoint(o, page);
      DivUnique(o + 0x1000 * page, 0x100_0000_0000_0000, high, o + 0x1000 * frame);
  }

  /** Whatever else the register says of a fault, the offset alone comes back. */
  lemma FaultGivesOffset(par: nat, va: nat)
    requires par % 2 == 1
    ensures PhysicalAddress(par, va) == va % 0x1000
  {
    hide BitOr;
    OrNothing(va % 0x1000);
  }

  /** After a page has been mapped for the kernel, each of its addresses is found to be at the
      same offset from the physical page. */
  lemma MappedAddressReadsBack(m: Words, t: Tables, n: nat, va: nat, pa: nat, flags: nat, o: nat, low: nat, high: nat)
    requires Layout(t, n) && Shape(m, t, n) && Mappable(t, n, va) && flags < 0x1000
    requires va % 0x1000 == 0 && va + o < U64 && pa % 0x1000 == 0 && pa < 0x1_0000_0000_0000 && o < 0x1000
             && low < 0x800
    ensures var r := MapPage(m, t, va, pa, flags, false);
            && r.Done?
            && PhysicalAddress(PackPar(Walk(r.words, t.pgd, va + o), low, high), va + o) == pa + o
  {
    hide MapPage, Walk, Shape, Layout, PackPar, PhysicalAddress, PageOf;
    MapPageRefines(m, t, n, va, pa, flags, false);
    SamePageOffset(va, o);
    assert 0x1000 * Field36(pa) == pa;
    PhysicalAddressIs(Requested(pa, flags, false), low, high, va + o);
  }

  lemma SamePageOffset(va: nat, o: nat)
    requires va % 0x1000 == 0 && o < 0x1000
    ensures PageOf(va + o) == PageOf(va) && (va + o) % 0x1000 == o
  {
    DivUnique(va + o, 0x1000, va / 0x1000, o);
  }

  // ----- in place

  /** The tables are in shape and the address is in their window. */
  ghost predicate InWindowNow(m: Words, t: Tables, n: nat, va: nat) {
    Layout(t, n) && Shape(m, t, n) && Mappable(t, n, va)
  }

  /** `w` is in shape and translates the page of `va` so, every other page as `m` does, and no word
      outside the tables has changed. */
  ghost predicate Remapped(m: Words, w: Words, t: Tables, n: nat, va: nat, tr: Translation) {
    && Shape(w, t, n)
    && (forall a: nat :: Walk(w, t.pgd, a) == if PageOf(a) == PageOf(va) then tr else Walk(m, t.pgd, a))
    && forall f, i | !IsTable(t, n, f) :: Read(w, f, i) == Read(m, f, i)
  }

  class PhysicalMemory {
    var words: Words

    /** `page_table_map`; false where it calls `crash`. */
    method PageTableMap(t: Tables, va: nat, pa: nat, flags: nat, isDev: bool) returns (ok: bool)
      requires va < U64 && t.startVa < U64
      modifies this
      ensures MapPage(old(words), t, va, pa, flags, isDev) == if ok then Done(words) else Crash
      ensures !ok ==> words == old(words)
    {
      hide LinkIfInvalid, LeafEntry, ArraySlot, OffsetL0, OffsetL1, OffsetL2, OffsetL3;
      var index := Sub64(va, t.startVa);
      var which512gb, which1gb, which2mb := index / 0x80_0000_0000, index / 0x4000_0000, index / 0x20_0000;
      if which512gb > 0 { return false; }
      LinkEntry(Slot(t.pgd, OffsetL0(va)), Slot(t.pgd, OffsetL0(va)), t.pud);
      LinkEntry(Slot(t.pud, OffsetL1(va)), Slot(t.pud, OffsetL1(va)), t.pmd + which1gb);
      LinkEntry(ArraySlot(t.pmd, OffsetL2(va) + which1gb * 512),
                ArraySlot(t.pmd, OffsetL2(va) + which1gb * 512 / 0x1000), t.pt3 + which2mb);
      words := words[ArraySlot(t.pt3, OffsetL3(va) + which2mb * 512) := LeafEntry(pa, flags, isDev)];
      ok := true;
    }

    /** Reads an entry and, if it is not valid, stores it as a link. */
    method LinkEntry(from: Slot, to: Slot, table: nat)
      modifies this
      ensures words == LinkIfInvalid(old(words), from, to, table)
    {
      var entry := Read(words, from.frame, from.index);
      if !entry.valid {
        entry := entry.(valid := true, link := true, address := table % 0x10_0000_0000);
        words := words[to := entry];
      }
    }

    /** `page_table_map_user`: the page is open to EL0, and read-only there and in the kernel
        exactly if the protection allows reading without writing. */
    method PageTableMapUser(t: Tables, va: nat, pa: nat, prot: nat, ghost n: nat) returns (ok: bool)
      requires va < U64 && t.startVa < U64
      modifies this
      ensures MapPage(old(words), t, va, pa, BitOr(PermToPt(prot), PT_USER), false) == if ok then Done(words) else Crash
      ensures old(InWindowNow(words, t, n, va)) ==>
                ok && Remapped(old(words), words, t, n, va,
                    Mapped(Field36(pa), Attributes(true, ReadOnly(prot), false, false, true, false)))
    {
      if InWindowNow(words, t, n, va) {
        PermBits(prot, PT_USER);
        MapPageRefines(words, t, n, va, pa, BitOr(PermToPt(prot), PT_USER), false);
      }
      ok := PageTableMap(t, va, pa, BitOr(PermToPt(prot), PT_USER), false);
    }

    /** `page_table_map_kernel`: closed to EL0. */
    method PageTableMapKernel(t: Tables, va: nat, pa: nat, prot: nat, ghost n: nat) returns (ok: bool)
      requires va < U64 && t.startVa < U64
      modifies this
      ensures MapPage(old(words), t, va, pa, BitOr(PermToPt(prot), PT_KERNEL), false)
              == if ok then Done(words) else Crash
      ensures old(InWindowNow(words, t, n, va)) ==>
                ok && Remapped(old(words), words, t, n, va,
                    Mapped(Field36(pa), Attributes(false, ReadOnly(prot), false, false, true, false)))
    {
      if InWindowNow(words, t, n, va) {
        PermBits(prot, PT_KERNEL);
        MapPageRefines(words, t, n, va, pa, BitOr(PermToPt(prot), PT_KERNEL), false);
      }
      ok := PageTableMap(t, va, pa, BitOr(PermToPt(prot), PT_KERNEL), false);
    }

    /** `page_table_map_device`: device memory, never executable. */
    method PageTableMapDevice(t: Tables, va: nat, pa: nat, prot: nat, ghost n: nat) returns (ok: bool)
      requires va < U64 && t.startVa < U64
      modifies this
      ensures MapPage(old(words), t, va, pa, BitOr(PermToPt(prot), ToInt(PT_KERNEL + PT_NX)), true)
              == if ok then Done(words) else Crash
      ensures old(InWindowNow(words, t, n, va)) ==>
                ok && Remapped(old(words), words, t, n, va,
                    Mapped(Field36(pa), Attributes(false, ReadOnly(prot), true, false, true, true)))
    {
      DeviceFlags(prot);
      if InWindowNow(words, t, n, va) {
        PermBits(prot, PT_KERNEL);
        MapPageRefines(words, t, n, va, pa, BitOr(PermToPt(prot), ToInt(PT_KERNEL + PT_NX)), true);
      }
      ok := PageTableMap(t, va, pa, BitOr(PermToPt(prot), ToInt(PT_KERNEL + PT_NX)), true);
    }
  }
}
