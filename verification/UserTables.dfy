/** `create_user_translation_table` of vma.c: the tables of a process, and the kernel pages
    through which they are reached. */
module UserTables {
  import opened Bits
  import opened Descriptors
  import opened FrameAllocator
  import FrameRuns
  import LinearMap
  import opened PageTables
  import opened PageMap
  import opened Regions
  import opened Mmap

  // ----- the frames

  /** Whole frames in the 48-bit physical address space. */
  predicate Aligned(f: Frames) { f.start % 0x1000 == 0 && f.End() <= 0x1_0000_0000_0000 }

  /** The allocator after the three single frames, and those frames' addresses. */
  function ThreeTaken(f: Frames): (r: (Frames, nat, nat, nat))
    requires f.Shaped()
    ensures r.0.Shaped()
  {
    var (f1, pgd) := RangeStep(f, 1);
    var (f2, pud) := RangeStep(f1, 1);
    var (f3, pmd) := RangeStep(f2, 1);
    (f3, pgd, pud, pmd)
  }

  /** After the single frames there are still four free frames in a row. */
  predicate RunLeft(f: Frames) {
    f.Shaped() && FindRun(ThreeTaken(f).0, 4, 0).Some?
  }

  lemma TakenPages(f: Frames, i: nat, n: nat)
    requires f.Conserved() && f.RunAt(i, n) && Take(f, i, n).Shaped()
    ensures var page := f.start / 0x1000 + i;
            && (forall p: nat | page <= p < page + n :: FreePage(f, p))
            && forall p: nat :: FreePage(Take(f, i, n), p) <==> FreePage(f, p) && !(page <= p < page + n)
  {
  }

  /** What a range of four frames takes when there is one. */
  lemma NextRun(f: Frames) returns (page: nat)
    requires f.Conserved() && FindRun(f, 4, 0).Some? && Aligned(f)
    ensures var (g, r) := RangeStep(f, 4);
            && r == 0x1000 * page && page + 4 <= 0x10_0000_0000 && g.Conserved()
            && g.available == f.available - 4 && g.start == f.start && g.count == f.count
            && (forall p: nat | page <= p < page + 4 :: FreePage(f, p))
            && forall p: nat :: FreePage(g, p) <==> FreePage(f, p) && !(page <= p < page + 4)
  {
    hide FreePage, MarkRun;
    var i := FindRun(f, 4, 0).value;
    MarkRunCount(f, i, 4);
    FrameRuns.TakeConserves(f, i, 4);
    TakenPages(f, i, 4);
    page := f.start / 0x1000 + i;
  }

  /** A single frame, or none. */
  lemma OneLess(f: Frames)
    requires f.Conserved() && Aligned(f)
    ensures var g := RangeStep(f, 1).0;
            && g.Conserved() && Aligned(g) && g.start == f.start && g.count == f.count
            && g.available == (if f.available == 0 then 0 else f.available - 1)
            && (RangeStep(f, 1).1 == MINUS_ONE <==> f.available == 0)
  {
    FrameRuns.OneFrameIsExact(f);
    if f.available > 0 {
      var _ := NextFrame(f);
    }
  }

  lemma ThreeLess(f: Frames)
    requires f.Conserved() && Aligned(f)
    ensures var g := ThreeTaken(f).0;
            && g.Conserved() && Aligned(g) && g.start == f.start && g.count == f.count
            && g.available == (if f.available < 3 then 0 else f.available - 3)
    ensures var (_, pgd, pud, pmd) := ThreeTaken(f);
            pgd != MINUS_ONE && pud != MINUS_ONE && pmd != MINUS_ONE <==> f.available >= 3
  {
    hide RangeStep;
    OneLess(f);
    OneLess(RangeStep(f, 1).0);
    OneLess(RangeStep(RangeStep(f, 1).0, 1).0);
  }

  lemma RunNeedsSeven(f: Frames)
    requires f.Conserved() && Aligned(f) && RunLeft(f)
    ensures f.available >= 7
  {
    ThreeLess(f);
    var g := ThreeTaken(f).0;
    MarkRunCount(g, FindRun(g, 4, 0).value, 4);
  }

  lemma Apart(a: nat, b: nat, c: nat, d: nat) returns (t: Tables)
    requires a != b && a != c && b != c && !(d <= a < d + 4) && !(d <= b < d + 4) && !(d <= c < d + 4)
    requires a < 0x10_0000_0000 && b < 0x10_0000_0000 && c < 0x10_0000_0000 && d + 4 <= 0x10_0000_0000
    ensures t == Tables(a, b, c, d, 0, 0) && TablesApart(t, 4)
  {
    t := Tables(a, b, c, d, 0, 0);
  }

  /** With a run of four left, seven distinct free frames are taken, four of them in a row,
      and no other. */
  lemma SevenFrames(f: Frames) returns (t: Tables)
    requires f.Conserved() && Aligned(f) && RunLeft(f)
    ensures var (g, pgd, pud, pmd) := ThreeTaken(f);
            var (h, pt3) := RangeStep(g, 4);
            && pgd == 0x1000 * t.pgd && pud == 0x1000 * t.pud && pmd == 0x1000 * t.pmd && pt3 == 0x1000 * t.pt3
            && t.startVa == 0 && t.startPa == 0 && TablesApart(t, 4)
            && h.Conserved() && h.available == f.available - 7 && h.start == f.start && h.count == f.count
            && (forall p: nat | IsTable(t, 4, p) :: FreePage(f, p))
            && forall p: nat :: FreePage(h, p) <==> FreePage(f, p) && !IsTable(t, 4, p)
  {
    hide RangeStep, FreePage;
    RunNeedsSeven(f);
    ThreeLess(f);
    OneLess(f);
    var f1, f2 := RangeStep(f, 1).0, RangeStep(RangeStep(f, 1).0, 1).0;
    var a := NextFrame(f);
    var b := NextFrame(f1);
    var c := NextFrame(f2);
    var d := NextRun(ThreeTaken(f).0);
    assert !FreePage(f1, a) && !FreePage(f2, b) && !FreePage(f2, a) && FreePage(f2, c) && FreePage(f1, b);
    t := Apart(a, b, c, d);
  }

  /** Without one, the four-frame request answers with the error value, or else with frames
      that stay free: the code's check of the answer is enough exactly when a run is left or
      the last frame is in use. */
  lemma FourFramesIff(f: Frames)
    requires f.Conserved() && Aligned(f) && f.available >= 3
    ensures var g := ThreeTaken(f).0;
            var (h, pt3) := RangeStep(g, 4);
            && (h.available == f.available - 7 <==> RunLeft(f))
            && (!RunLeft(f) ==> h == g)
            && (pt3 == MINUS_ONE <==> !RunLeft(f) && (f.available < 7 || g.bytes[g.count - 1] == KFRAME_USED))
  {
    hide RangeStep;
    ThreeLess(f);
    var g := ThreeTaken(f).0;
    FrameRuns.RangeIsExact(g, 4);
    if RunLeft(f) {
      RunNeedsSeven(f);
      var _ := NextRun(g);
    }
  }

  /** The code goes on: no answer is the error value. */
  predicate Accepted(f: Frames) {
    f.Shaped() &&
    var g := ThreeTaken(f).0;
    f.available >= 3 && (RunLeft(f) || (f.available >= 7 && 0 < g.count && g.bytes[g.count - 1] == KFRAME_FREE))
  }

  lemma AcceptedIff(f: Frames)
    requires f.Conserved() && Aligned(f)
    ensures var (g, pgd, pud, pmd) := ThreeTaken(f);
            pgd != MINUS_ONE && pud != MINUS_ONE && pmd != MINUS_ONE && RangeStep(g, 4).1 != MINUS_ONE <==> Accepted(f)
    ensures RunLeft(f) ==> Accepted(f)
  {
    hide RangeStep;
    ThreeLess(f);
    if RunLeft(f) {
      RunNeedsSeven(f);
    }
    if f.available >= 3 {
      FourFramesIff(f);
      var g := ThreeTaken(f).0;
      assert f.available >= 7 ==> 0 < g.count;
      assert 0 < g.count ==> g.bytes[g.count - 1] == KFRAME_FREE || g.bytes[g.count - 1] == KFRAME_USED;
    }
  }

  /** The allocator keeps its frames and gives none back. */
  ghost predicate Shrinks(f: Frames, g: Frames) {
    && f.Shaped() && g.Conserved() && Aligned(g) && g.start == f.start && g.count == f.count
    && forall p: nat :: FreePage(g, p) ==> FreePage(f, p)
  }

  lemma ShrinkOne(f: Frames)
    requires f.Conserved() && Aligned(f)
    ensures Shrinks(f, RangeStep(f, 1).0)
  {
    FrameRuns.OneFrameIsExact(f);
    if f.available > 0 {
      var _ := NextFrame(f);
    }
  }

  lemma ShrinkFour(f: Frames)
    requires f.Conserved() && Aligned(f)
    ensures Shrinks(f, RangeStep(f, 4).0)
  {
    if FindRun(f, 4, 0).Some? {
      var _ := NextRun(f);
    }
  }

  /** Whatever the four requests find, frames only become used; the first frame, if there is one,
      was free. */
  lemma TablesShrink(f: Frames) returns (page: nat)
    requires f.Conserved() && Aligned(f)
    ensures var (g, pgd, _, _) := ThreeTaken(f);
            var h := RangeStep(g, 4).0;
            && Shrinks(f, h)
            && (f.available > 0 ==>
                  pgd == 0x1000 * page && page < 0x10_0000_0000 && FreePage(f, page) && !FreePage(h, page))
  {
    hide RangeStep, FreePage, Aligned;
    var f1, f2 := RangeStep(f, 1).0, RangeStep(RangeStep(f, 1).0, 1).0;
    ShrinkOne(f);
    ShrinkOne(f1);
    ShrinkOne(f2);
    ShrinkFour(ThreeTaken(f).0);
    page := 0;
    if f.available > 0 {
      page := FirstFrame(f);
    }
  }

  lemma FirstFrame(f: Frames) returns (page: nat)
    requires f.Conserved() && Aligned(f) && f.available > 0
    ensures RangeStep(f, 1).1 == 0x1000 * page && page < 0x10_0000_0000
    ensures FreePage(f, page) && !FreePage(RangeStep(f, 1).0, page)
  {
    page := NextFrame(f);
  }

  // ----- the region of kernel addresses

  /** `kernel_vma_alloc` without a fixed address while the head of the kernel's list is unmapped:
      the head keeps the request, a new region gets the rest. */
  function CarveHead(head: Region, size: nat, spare: nat): (Region, Region)
    requires head.base < U64 && head.size < U64 && size < U64
  {
    (head.(size := size), Region(Add64(head.base, size), Sub64(head.size, size), spare))
  }

  /** The two regions divide the old one between them exactly when it is large enough. */
  lemma CarveTilesIff(head: Region, size: nat, spare: nat)
    requires head.Fits() && size < U64 && head.size < U64
    ensures var (first, rest) := CarveHead(head, size, spare);
            && first.base == head.base && first.self == head.self
            && (first.End() == rest.base && rest.End() == head.End() && first.size + rest.size == head.size
                <==> size <= head.size)
  {
    assert head.size < size ==> Sub64(head.size, size) == head.size + U64 - size;
  }

  // ----- the kernel pages

  /** `after` maps one kernel page to each of the frames, from `base` on. */
  ghost predicate MapsFrames(before: Translate, after: Translate, base: nat, frames: seq<nat>) {
    forall a: nat :: after(a) == if PageOf(base) <= PageOf(a) < PageOf(base) + |frames|
                                 then Mapped(frames[PageOf(a) - PageOf(base)], LinearMap.KERNEL_ATTRIBUTES)
                                 else before(a)
  }

  lemma OneMoreFrame(before: Translate, mid: Translate, after: Translate, base: nat, frames: seq<nat>, va: nat,
                     frame: nat)
    requires MapsFrames(before, mid, base, frames) && PageOf(va) == PageOf(base) + |frames|
    requires forall a: nat ::
               after(a) == if PageOf(a) == PageOf(va) then Mapped(frame, LinearMap.KERNEL_ATTRIBUTES) else mid(a)
    ensures MapsFrames(before, after, base, frames + [frame])
  {
  }

  ghost predicate SameOutside(m: Words, w: Words, t: Tables, n: nat) {
    forall f, i | !IsTable(t, n, f) :: Read(w, f, i) == Read(m, f, i)
  }

  /** What the call for the next page ensures is one more frame. */
  lemma OneMorePage(m: Words, mid: Words, w: Words, kt: Tables, n: nat, base: nat, frames: seq<nat>,
                    va: nat, pa: nat)
    requires SameOutside(m, mid, kt, n)
    requires MapsFrames(WalkOf(m, kt), WalkOf(mid, kt), base, frames) && PageOf(va) == PageOf(base) + |frames|
    requires Remapped(mid, w, kt, n, va,
                      Mapped(Field36(pa), Attributes(false, ReadOnly(PROT_RW), false, false, true, false)))
    ensures Shape(w, kt, n) && SameOutside(m, w, kt, n)
    ensures MapsFrames(WalkOf(m, kt), WalkOf(w, kt), base, frames + [Field36(pa)])
  {
    hide Walk, PageOf, Shape;
    assert !ReadOnly(PROT_RW);
    OneMoreFrame(WalkOf(m, kt), WalkOf(mid, kt), WalkOf(w, kt), base, frames, va, Field36(pa));
  }

  /** `page_table_map_kernel` for the next of the pages. */
  method MapNextPage(mem: PhysicalMemory, kt: Tables, base: nat, i: nat, pa: nat, ghost n: nat, ghost m: Words,
                     ghost frames: seq<nat>)
    requires Layout(kt, n) && Shape(mem.words, kt, n) && i == |frames|
    requires Mappable(kt, n, base) && base + 0x1000 * i < kt.startVa + n * 0x20_0000
    requires MapsFrames(WalkOf(m, kt), WalkOf(mem.words, kt), base, frames) && SameOutside(m, mem.words, kt, n)
    modifies mem
    ensures Shape(mem.words, kt, n) && SameOutside(m, mem.words, kt, n)
    ensures MapsFrames(WalkOf(m, kt), WalkOf(mem.words, kt), base, frames + [Field36(pa)])
  {
    hide Walk, Shape, MapsFrames, PageOf, WalkOf, IsTable, Bit, Remapped, SameOutside, MapPage, ReadOnly;
    PageOfStep(kt, n, base, i);
    ghost var mid := mem.words;
    var _ := mem.PageTableMapKernel(kt, base + 0x1000 * i, pa, PROT_RW, n);
    OneMorePage(m, mid, mem.words, kt, n, base, frames, base + 0x1000 * i, pa);
  }

  /** The frames of three single tables and of four in a row. */
  function FramesAt(pgd: nat, pud: nat, pmd: nat, pt3: nat): seq<nat> {
    [Field36(pgd), Field36(pud), Field36(pmd)] + seq(4, (k: nat) => Field36(pt3 + 0x1000 * k))
  }

  /** The seven calls. */
  method MapTables(mem: PhysicalMemory, kt: Tables, base: nat, pgd: nat, pud: nat, pmd: nat, pt3: nat, ghost n: nat)
    requires Layout(kt, n) && Shape(mem.words, kt, n)
    requires Mappable(kt, n, base) && base + 0x6000 < kt.startVa + n * 0x20_0000
    modifies mem
    ensures Shape(mem.words, kt, n) && SameOutside(old(mem.words), mem.words, kt, n)
    ensures MapsFrames(WalkOf(old(mem.words), kt), WalkOf(mem.words, kt), base,
                       FramesAt(pgd, pud, pmd, pt3))
  {
    hide Shape, Layout, WalkOf, IsTable;
    ghost var m, frames := mem.words, [Field36(pgd), Field36(pud), Field36(pmd)];
    MapNextPage(mem, kt, base, 0, pgd, n, m, []);
    MapNextPage(mem, kt, base, 1, pud, n, m, [Field36(pgd)]);
    MapNextPage(mem, kt, base, 2, pmd, n, m, [Field36(pgd), Field36(pud)]);
    for count := 0 to 4
      invariant Shape(mem.words, kt, n) && SameOutside(m, mem.words, kt, n)
      invariant MapsFrames(WalkOf(m, kt), WalkOf(mem.words, kt), base,
                frames + seq(count, (k: nat) => Field36(pt3 + 0x1000 * k)))
    {
      ghost var mapped := frames + seq(count, (k: nat) => Field36(pt3 + 0x1000 * k));
      MapNextPage(mem, kt, base, 3 + count, pt3 + 0x1000 * count, n, m, mapped);
      assert mapped + [Field36(pt3 + 0x1000 * count)] == frames + seq(count + 1, (k: nat) => Field36(pt3 + 0x1000 * k));
    }
  }

  // ----- the whole operation

  function TableFrames(t: Tables): seq<nat> { [t.pgd, t.pud, t.pmd, t.pt3, t.pt3 + 1, t.pt3 + 2, t.pt3 + 3] }

  /** `kernel_vma_alloc(0, 8, 0)` while the head is unmapped; `spare` is what the heap gives. */
  method KernelVmaAlloc(head: Node, spare: nat) returns (ok: bool)
    requires !head.isMapped && head.base < U64 && head.size < U64
    modifies head`size, head`next
    ensures ok <==> spare != 0
    ensures ok ==> head.next != null && fresh(head.next) && head.next.next == old(head.next)
                   && (head.View(), head.next.View()) == CarveHead(old(head.View()), 0x8000, spare)
    ensures !ok ==> head.View() == old(head.View()) && head.next == old(head.next)
  {
    if spare == 0 { return false; }
    var region := new Node(spare);
    region.base, region.size, region.isMapped, region.next := head.base, head.size, head.isMapped, head.next;
    head.next := region;
    head.size := 0x8000;
    region.size := Sub64(region.size, 0x8000);
    region.base := Add64(head.base, 0x8000);
    ok := true;
  }

  lemma FrameFields(t: Tables)
    requires TablesApart(t, 4)
    ensures FramesAt(0x1000 * t.pgd, 0x1000 * t.pud, 0x1000 * t.pmd, 0x1000 * t.pt3) == TableFrames(t)
  {
    forall p: nat | p < 0x10_0000_0000 ensures Field36(0x1000 * p) == p {
      Parts(0, p, 0);
    }
    forall k: nat | k < 4 ensures Field36(0x1000 * t.pt3 + 0x1000 * k) == t.pt3 + k {
      Parts(0, t.pt3 + k, 0);
    }
  }

  method AllocateTables(fa: Allocator) returns (pgd: nat, pud: nat, pmd: nat, pt3: nat)
    requires fa.View().Shaped()
    modifies fa`available, fa.bitmap
    ensures fa.bitmap == old(fa.bitmap)
    ensures ThreeTaken(old(fa.View())) == (ThreeTaken(old(fa.View())).0, pgd, pud, pmd)
    ensures (fa.View(), pt3) == RangeStep(ThreeTaken(old(fa.View())).0, 4)
  {
    hide RangeStep;
    assert ThreeTaken(fa.View()).0.Shaped();
    pgd := fa.AllocateRange(1);
    pud := fa.AllocateRange(1);
    pmd := fa.AllocateRange(1);
    pt3 := fa.AllocateRange(4);
  }

  /** The process has seven frames of its own that were free, the last four in a row, and the
      kernel reaches each of them through the page recorded for it. */
  ghost predicate Made(f: Frames, g: Frames, m: Words, w: Words, kt: Tables, n: nat, t: Tables, va: nat) {
    && f.Shaped() && t.startVa == 0 && TablesApart(t, 4) && (forall p: nat | IsTable(t, 4, p) :: FreePage(f, p))
    && g.Conserved() && g.available == f.available - 7
    && (forall p: nat :: FreePage(g, p) <==> FreePage(f, p) && !IsTable(t, 4, p))
    && Shape(w, kt, n) && SameOutside(m, w, kt, n)
    && MapsFrames(WalkOf(m, kt), WalkOf(w, kt), va, TableFrames(t))
  }

  lemma MadeFrom(f: Frames, g: Frames, m: Words, w: Words, kt: Tables, n: nat, t: Tables, va: nat, pgd: nat, pud: nat,
                 pmd: nat, pt3: nat)
    requires f.Conserved() && Aligned(f) && RunLeft(f) && g.Shaped()
    requires ThreeTaken(f) == (ThreeTaken(f).0, pgd, pud, pmd) && RangeStep(ThreeTaken(f).0, 4) == (g, pt3)
    requires t == Tables(pgd / 0x1000, pud / 0x1000, pmd / 0x1000, pt3 / 0x1000, 0, 0)
    requires Shape(w, kt, n) && SameOutside(m, w, kt, n)
    requires MapsFrames(WalkOf(m, kt), WalkOf(w, kt), va, FramesAt(pgd, pud, pmd, pt3))
    ensures Made(f, g, m, w, kt, n, t, va)
  {
    hide RangeStep, ThreeTaken, RunLeft, FreePage, IsTable, Shape, SameOutside, MapsFrames, WalkOf, TableFrames,
         FramesAt, TablesApart;
    var u := SevenFrames(f);
    FrameFields(u);
    assert t == u;
  }

  /** The head of the kernel's list and the region behind it are what `CarveHead` says. */
  ghost predicate Carved(before: Region, head: Node, spare: nat)
    reads head, head.next
  {
    before.base < U64 && before.size < U64 && head.next != null
        && (head.View(), head.next.View()) == CarveHead(before, 0x8000, spare)
  }

  /** The first half of `create_user_translation_table`: frames and a region. */
  method TakeTables(fa: Allocator, head: Node, spare: nat) returns (ok: bool, pgd: nat, pud: nat, pmd: nat, pt3: nat)
    requires fa.View().Conserved() && Aligned(fa.View())
    requires !head.isMapped && head.base < U64 && head.size < U64
    modifies fa`available, fa.bitmap, head`size, head`next
    ensures fa.bitmap == old(fa.bitmap) && head.base == old(head.base) && head.size < U64
    ensures ok <==> spare != 0 && Accepted(old(fa.View()))
    ensures ThreeTaken(old(fa.View())) == (ThreeTaken(old(fa.View())).0, pgd, pud, pmd)
    ensures (fa.View(), pt3) == RangeStep(ThreeTaken(old(fa.View())).0, 4)
    ensures ok ==> Carved(old(head.View()), head, spare)
  {
    AcceptedIff(fa.View());
    hide RangeStep, Accepted, RunLeft, ThreeTaken, Aligned;
    ghost var before := head.View();
    pgd, pud, pmd, pt3 := AllocateTables(fa);
    assert head.View() == before;
    if pgd == MINUS_ONE || pud == MINUS_ONE || pmd == MINUS_ONE || pt3 == MINUS_ONE {
      ok := false;
    } else {
      ok := KernelVmaAlloc(head, spare);
    }
  }

  /** A kernel that can create processes: its allocator tells the truth, its tables are in shape,
      and the eight pages at `base` are in their window. */
  ghost predicate Ready(f: Frames, m: Words, kt: Tables, n: nat, base: nat) {
    && f.Conserved() && Aligned(f) && Layout(kt, n) && Shape(m, kt, n)
    && base < U64 && Mappable(kt, n, base) && base + 0x6000 < kt.startVa + n * 0x20_0000
  }

  /** What every call that succeeds does, with a run of four frames or without: the kernel's first
      page leads to a frame that was free. */
  ghost predicate Stepped(f: Frames, g: Frames, w: Words, kt: Tables, n: nat, t: Tables, va: nat) {
    && f.Shaped() && g.Shaped() && Shape(w, kt, n) && FreePage(f, t.pgd) && !FreePage(g, t.pgd)
    && WalkOf(w, kt)(va) == Mapped(t.pgd, LinearMap.KERNEL_ATTRIBUTES)
  }

  lemma SteppedFrom(f: Frames, g: Frames, m: Words, w: Words, kt: Tables, n: nat, t: Tables, va: nat,
                    pgd: nat, pud: nat, pmd: nat, pt3: nat, page: nat)
    requires f.Shaped() && g.Shaped() && pgd == 0x1000 * page && page < 0x10_0000_0000 && t.pgd == pgd / 0x1000
    requires Shape(w, kt, n) && FreePage(f, page) && !FreePage(g, page)
    requires MapsFrames(WalkOf(m, kt), WalkOf(w, kt), va, FramesAt(pgd, pud, pmd, pt3))
    ensures Stepped(f, g, w, kt, n, t, va)
  {
    hide Shape, FreePage, WalkOf;
    assert Field36(pgd) == page && FramesAt(pgd, pud, pmd, pt3)[0] == page;
  }

  /** What a call that succeeds does. */
  ghost predicate Created(f: Frames, g: Frames, m: Words, w: Words, kt: Tables, n: nat, t: Tables, va: nat) {
    && Shrinks(f, g) && Ready(g, w, kt, n, va) && Stepped(f, g, w, kt, n, t, va)
    && (RunLeft(f) ==> Made(f, g, m, w, kt, n, t, va))
  }

  lemma CreatedFrom(f: Frames, g: Frames, m: Words, w: Words, kt: Tables, n: nat, t: Tables, va: nat,
                    pgd: nat, pud: nat, pmd: nat, pt3: nat)
    requires Ready(f, m, kt, n, va) && Accepted(f) && g.Shaped()
    requires ThreeTaken(f) == (ThreeTaken(f).0, pgd, pud, pmd) && RangeStep(ThreeTaken(f).0, 4) == (g, pt3)
    requires t == Tables(pgd / 0x1000, pud / 0x1000, pmd / 0x1000, pt3 / 0x1000, 0, 0)
    requires Shape(w, kt, n) && SameOutside(m, w, kt, n)
    requires MapsFrames(WalkOf(m, kt), WalkOf(w, kt), va, FramesAt(pgd, pud, pmd, pt3))
    ensures Created(f, g, m, w, kt, n, t, va)
  {
    hide RangeStep, ThreeTaken, RunLeft, FreePage, Shape, SameOutside, MapsFrames, WalkOf, FramesAt, Made, Stepped;
    var page := TablesShrink(f);
    EnoughFrames(f);
    SteppedFrom(f, g, m, w, kt, n, t, va, pgd, pud, pmd, pt3, page);
    if RunLeft(f) {
      MadeFrom(f, g, m, w, kt, n, t, va, pgd, pud, pmd, pt3);
    }
  }

  /** The seven calls leave the regions alone. */
  method MapCarved(mem: PhysicalMemory, kt: Tables, base: nat, pgd: nat, pud: nat, pmd: nat, pt3: nat, ghost n: nat,
                   ghost head: Node, ghost before: Region, ghost spare: nat)
    requires Layout(kt, n) && Shape(mem.words, kt, n) && Carved(before, head, spare)
    requires Mappable(kt, n, base) && base + 0x6000 < kt.startVa + n * 0x20_0000
    modifies mem
    ensures Shape(mem.words, kt, n) && SameOutside(old(mem.words), mem.words, kt, n) && Carved(before, head, spare)
    ensures MapsFrames(WalkOf(old(mem.words), kt), WalkOf(mem.words, kt), base, FramesAt(pgd, pud, pmd, pt3))
  {
    hide Shape, Layout, SameOutside, MapsFrames, WalkOf, FramesAt, Mappable, CarveHead;
    MapTables(mem, kt, base, pgd, pud, pmd, pt3, n);
  }

  /** `create_user_translation_table`; `ok` is false where it calls `crash`. */
  method CreateUserTranslationTable(mem: PhysicalMemory, fa: Allocator, kt: Tables, head: Node, spare: nat,
                                    ghost n: nat)
    returns (ok: bool, t: Tables, va: nat)
    requires Ready(fa.View(), mem.words, kt, n, head.base) && !head.isMapped && head.size < U64
    modifies mem, fa`available, fa.bitmap, head`size, head`next
    ensures fa.bitmap == old(fa.bitmap) && va == old(head.base) && head.size < U64
    ensures ok <==> spare != 0 && Accepted(old(fa.View()))
    ensures ok ==> Carved(old(head.View()), head, spare)
    ensures ok ==> Created(old(fa.View()), fa.View(), old(mem.words), mem.words, kt, n, t, va)
    ensures !ok ==> mem.words == old(mem.words)
  {
    ghost var f, m, base, before := fa.View(), mem.words, head.base, head.View();
    hide RangeStep, Accepted, Ready, SameOutside, MapsFrames, WalkOf, FramesAt, ThreeTaken, Created, Carved;
    ReadyParts(f, m, kt, n, base);
    var pgd, pud, pmd, pt3;
    ok, pgd, pud, pmd, pt3 := TakeTables(fa, head, spare);
    t, va := Tables(pgd / 0x1000, pud / 0x1000, pmd / 0x1000, pt3 / 0x1000, 0, 0), head.base;
    if !ok { return; }
    MapCarved(mem, kt, va, pgd, pud, pmd, pt3, n, head, before, spare);
    CreatedFrom(f, fa.View(), m, mem.words, kt, n, t, va, pgd, pud, pmd, pt3);
  }

  lemma ReadyParts(f: Frames, m: Words, kt: Tables, n: nat, base: nat)
    requires Ready(f, m, kt, n, base)
    ensures f.Conserved() && Aligned(f) && Layout(kt, n) && Shape(m, kt, n)
    ensures base < U64 && Mappable(kt, n, base) && base + 0x6000 < kt.startVa + n * 0x20_0000
  {
  }

  lemma EnoughFrames(f: Frames)
    requires f.Shaped() && Accepted(f)
    ensures f.available > 0
  {
  }

  // ----- more than one process

  /** The kernel reaches each table of the process through the page recorded for it. */
  ghost predicate Reaches(tr: Translate, base: nat, t: Tables) {
    forall a: nat | PageOf(base) <= PageOf(a) < PageOf(base) + 7 ::
      tr(a) == Mapped(TableFrames(t)[PageOf(a) - PageOf(base)], LinearMap.KERNEL_ATTRIBUTES)
  }

  /** The frames of the process's tables are not free. */
  ghost predicate Kept(f: Frames, t: Tables) {
    f.Shaped() && forall p: nat | IsTable(t, 4, p) :: !FreePage(f, p)
  }

  lemma MadeIsReached(f: Frames, g: Frames, m: Words, w: Words, kt: Tables, n: nat, t: Tables, va: nat)
    requires Created(f, g, m, w, kt, n, t, va) && RunLeft(f)
    ensures Reaches(WalkOf(w, kt), va, t) && Kept(g, t) && Ready(g, w, kt, n, va)
  {
    hide Shape, WalkOf, FreePage, SameOutside, TablesApart, Ready, RunLeft;
  }

  /** Another process takes over the first page. */
  lemma AnotherTakesOver(f: Frames, g: Frames, m: Words, w: Words, kt: Tables, n: nat, t: Tables, va: nat,
                         first: Tables)
    requires Created(f, g, m, w, kt, n, t, va) && Kept(f, first)
    ensures !Reaches(WalkOf(w, kt), va, first) && Kept(g, first) && Ready(g, w, kt, n, va)
  {
    hide Shape, WalkOf, Ready, Made;
    assert IsTable(first, 4, first.pgd);
  }

  /** Further processes, until a creation fails: since the head of the kernel's list stays
      unmapped, they get the same addresses, and the first one's tables are reached exactly if
      none is created. */
  method CreateMore(mem: PhysicalMemory, fa: Allocator, kt: Tables, head: Node, spares: seq<nat>, ghost n: nat,
                    ghost first: Tables)
    returns (made: nat)
    requires Ready(fa.View(), mem.words, kt, n, head.base) && !head.isMapped && head.size < U64
    requires Kept(fa.View(), first) && Reaches(WalkOf(mem.words, kt), head.base, first)
    modifies mem, fa`available, fa.bitmap, head`size, head`next
    ensures made <= |spares| && head.base == old(head.base)
    ensures made > 0 <==> spares != [] && spares[0] != 0 && Accepted(old(fa.View()))
    ensures Reaches(WalkOf(mem.words, kt), head.base, first) <==> made == 0
  {
    hide Ready, Reaches, Kept, Accepted, RunLeft, WalkOf, Carved, Created;
    made := 0;
    while made < |spares|
      invariant made <= |spares| && fa.bitmap == old(fa.bitmap)
      invariant Ready(fa.View(), mem.words, kt, n, head.base) && head.size < U64
      invariant head.base == old(head.base) && Kept(fa.View(), first)
      invariant Reaches(WalkOf(mem.words, kt), head.base, first) <==> made == 0
      invariant if made == 0 then fa.View() == old(fa.View()) else spares[0] != 0 && Accepted(old(fa.View()))
    {
      ghost var f, m := fa.View(), mem.words;
      var ok, t, va := CreateUserTranslationTable(mem, fa, kt, head, spares[made], n);
      if !ok { return; }
      AnotherTakesOver(f, fa.View(), m, mem.words, kt, n, t, va, first);
      made := made + 1;
    }
  }

  lemma RunIsAccepted(f: Frames, m: Words, kt: Tables, n: nat, base: nat)
    requires Ready(f, m, kt, n, base) && RunLeft(f)
    ensures Accepted(f)
  {
    AcceptedIff(f);
  }

  /** A first process, for which a run of four frames is left. */
  method CreateFirst(mem: PhysicalMemory, fa: Allocator, kt: Tables, head: Node, spare: nat, ghost n: nat)
    returns (t: Tables)
    requires Ready(fa.View(), mem.words, kt, n, head.base) && !head.isMapped && head.size < U64
    requires RunLeft(fa.View()) && spare != 0
    modifies mem, fa`available, fa.bitmap, head`size, head`next
    ensures fa.bitmap == old(fa.bitmap) && head.size < U64
    ensures Ready(fa.View(), mem.words, kt, n, head.base)
    ensures Kept(fa.View(), t) && Reaches(WalkOf(mem.words, kt), head.base, t)
  {
    hide Ready, Reaches, Kept, Accepted, RunLeft, WalkOf, Carved, Created;
    ghost var f, m := fa.View(), mem.words;
    RunIsAccepted(f, m, kt, n, head.base);
    var ok, va;
    ok, t, va := CreateUserTranslationTable(mem, fa, kt, head, spare, n);
    MadeIsReached(f, fa.View(), m, mem.words, kt, n, t, va);
  }

  /** A first process and further ones: its tables stay within the kernel's reach exactly as long
      as no other is created. */
  method CreateProcesses(mem: PhysicalMemory, fa: Allocator, kt: Tables, head: Node, spare: nat, spares: seq<nat>,
                         ghost n: nat)
    returns (first: Tables, made: nat)
    requires Ready(fa.View(), mem.words, kt, n, head.base) && !head.isMapped && head.size < U64
    requires RunLeft(fa.View()) && spare != 0
    modifies mem, fa`available, fa.bitmap, head`size, head`next
    ensures made <= |spares|
    ensures Reaches(WalkOf(mem.words, kt), old(head.base), first) <==> made == 0
  {
    hide Ready, Reaches, Kept, Accepted, RunLeft, WalkOf;
    first := CreateFirst(mem, fa, kt, head, spare, n);
    made := CreateMore(mem, fa, kt, head, spares, n, first);
  }

  // ----- what a process starts from

  /** With its table frames zeroed, a new process translates nothing, and everything that
      mapping requests need holds: the four last-level tables serve the lowest 8 MB. */
  lemma NewProcessIsSound(m: Words, f: Frames, t: Tables, self: nat)
    requires f.Conserved() && Aligned(f) && TablesApart(t, 4) && t.startVa == 0 && self < U64
    requires forall p: nat | IsTable(t, 4, p) :: !FreePage(f, p)
    requires forall p: nat, i: nat | IsTable(t, 4, p) && i < 512 :: Read(m, p, i) == ZERO
    ensures Sound(Space(m, f, false, [Region(0, 0, self)]), t, 4)
    ensures forall va: nat :: Walk(m, t.pgd, va) == Fault
  {
    hide FreePage, Field36;
  }

  /** So any run of ascending fixed requests is sound from there. */
  lemma NewProcessRuns(m: Words, f: Frames, t: Tables, self: nat, mmapStart: nat, ss: seq<Space>, cs: seq<Call>)
    requires f.Conserved() && Aligned(f) && TablesApart(t, 4) && t.startVa == 0 && self < U64 && mmapStart < U64
    requires forall p: nat | IsTable(t, 4, p) :: !FreePage(f, p)
    requires forall p: nat, i: nat | IsTable(t, 4, p) && i < 512 :: Read(m, p, i) == ZERO
    requires AscendingRun(UserRequest(t, mmapStart), t, 4, ss, cs) && ss[0] == Space(m, f, false, [Region(0, 0, self)])
    ensures Sound(ss[|cs|], t, 4)
    ensures forall i | 0 <= i < |cs| :: Served(WalkOf(ss[|cs|].words, t), cs[i])
  {
    hide Sound, Served, Survives, WalkOf, UserRequest, TablesApart, FreePage, IsTable, Read, AllowedCall;
    NewProcessIsSound(m, f, t, self);
    UserRunIsSound(t, 4, mmapStart, ss, cs);
  }
}
