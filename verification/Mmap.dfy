/** `generic_mmap` of vma.c and `sys_mmap_user`: frames, page tables and regions together. */
module Mmap {
  import opened Arithmetic
  import opened Bits
  import opened Descriptors
  import opened FrameAllocator
  import FrameRuns
  import opened PageTables
  import opened PageMap
  import opened Regions

  /** What a mapping request works on: physical memory, the frame allocator, and the regions,
      of which the first is a slot that is filled by the first request. */
  datatype Space = Space(words: Words, frames: Frames, mapped: bool, regions: seq<Region>) {
    predicate Shaped() { frames.Shaped() && regions != [] }
  }

  datatype Result = Returned(va: nat) | Failed | Crashed

  datatype Progress = Stopped | Continued(words: Words, frames: Frames)

  /** One turn of the mapping loop: a frame from the allocator, then an entry for it. */
  function MapOne(m: Words, f: Frames, t: Tables, va: nat, flags: nat): (r: Progress)
    requires f.Shaped() && t.startVa < U64 && va < U64
    ensures r.Continued? ==> r.frames.Shaped()
  {
    var (g, frame) := RangeStep(f, 1);
    if frame == MINUS_ONE then Stopped
    else match MapPage(m, t, va, frame, flags, false)
         case Crash => Stopped
         case Done(w) => Continued(w, g)
  }

  type Turn = (Words, Frames, nat) -> Progress

  function TurnFor(t: Tables, flags: nat): Turn {
    (m: Words, f: Frames, va: nat) =>
      if f.Shaped() && t.startVa < U64 && va < U64 then MapOne(m, f, t, va, flags) else Stopped
  }

  /** `turn` is that function; only places that mention `Here` learn it. */
  predicate Here(m: Words, f: Frames, va: nat) { true }

  ghost predicate IsTurn(turn: Turn, t: Tables, flags: nat) {
    forall m: Words, f: Frames, va: nat {:trigger Here(m, f, va)} ::
      Here(m, f, va) ==> turn(m, f, va) == TurnFor(t, flags)(m, f, va)
  }

  lemma TurnIs(t: Tables, flags: nat, m: Words, f: Frames, va: nat)
    requires f.Shaped() && t.startVa < U64 && va < U64
    ensures TurnFor(t, flags)(m, f, va) == MapOne(m, f, t, va, flags)
  {
  }

  /** The loop over the first `k` pages from `base` on. */
  function MapPages(turn: Turn, m: Words, f: Frames, base: nat, k: nat): Progress {
    if k == 0 then Continued(m, f)
    else match MapPages(turn, m, f, base, k - 1)
         case Stopped => Stopped
         case Continued(w, g) => turn(w, g, Add64(base, 0x1000 * (k - 1)))
  }

  /** `search_mmap_region`: the only node, or the first but the last that is large enough. */
  function SearchSize(rs: seq<Region>, size: nat, i: nat): (r: nat)
    requires i <= |rs|
    ensures r <= |rs|
    decreases |rs| - i
  {
    if |rs| == 1 then 0
    else if i + 1 >= |rs| then |rs|
    else if rs[i].size >= size then i
    else SearchSize(rs, size, i + 1)
  }

  /** Which node that is: the only one; else the first but the last whose region is as large; else none. */
  lemma {:induction false} SearchSizeIs(rs: seq<Region>, size: nat, i: nat)
    requires i <= |rs|
    ensures var r := SearchSize(rs, size, i);
            if |rs| == 1 then r == 0
            else && (forall k | i <= k < r && k + 1 < |rs| :: rs[k].size < size)
                 && (r == |rs| || (i <= r && r + 1 < |rs| && rs[r].size >= size))
    decreases |rs| - i
  {
    if |rs| != 1 && i + 1 < |rs| && rs[i].size < size {
      SearchSizeIs(rs, size, i + 1);
    }
  }

  /** Arguments and addresses are 64-bit words. */
  predicate RequestOk(s: Space, t: Tables, address: nat, mmapStart: nat) {
    && s.Shaped() && t.startVa < U64 && address < U64 && mmapStart < U64
    && forall i | 0 <= i < |s.regions| :: s.regions[i].self < U64
  }

  /** `generic_mmap`. `spare` is what the kernel heap returns for the new region, zero if it has
      none left. A search that hits yields the address of the region structure, which then
      serves as the base of the mapping. */
  function Request(s: Space, t: Tables, address: nat, length: nat, flags: nat, fixed: bool,
                   spare: nat, mmapStart: nat): (r: (Space, Result))
    requires RequestOk(s, t, address, mmapStart)
    ensures r.1.Returned? ==> r.1.va < U64
  {
    var size := PageUp(length);
    if length == 0 then (s, Failed)
    else if !s.mapped then
      var base := if fixed then address else mmapStart;
      match MapPages(TurnFor(t, flags), s.words, s.frames, base, size / 0x1000)
      case Stopped => (s, Crashed)
      case Continued(w, g) =>
        (Space(w, g, true, s.regions[0 := Region(base, size, s.regions[0].self)]), Returned(base))
    else
      var hit := if fixed then SearchFixed(s.regions, address, size) else SearchSize(s.regions, size, 0);
      var base := if hit < |s.regions| then s.regions[hit].self else address;
      if spare == 0 then (s, Failed)
      else match MapPages(TurnFor(t, flags), s.words, s.frames, base, size / 0x1000)
           case Stopped => (s, Crashed)
           case Continued(w, g) =>
             (Space(w, g, true, [s.regions[0]] + Insert(s.regions[1..], Region(base, size, spare)).0), Returned(base))
  }

  /** A request is refused exactly if it is for nothing, or if the heap has no node for a further region. Then
      nothing changes; of a crash, nothing is said but that. */
  lemma RequestFailsIff(s: Space, t: Tables, address: nat, length: nat, flags: nat, fixed: bool, spare: nat,
                        mmapStart: nat)
    requires RequestOk(s, t, address, mmapStart)
    ensures var (u, r) := Request(s, t, address, length, flags, fixed, spare, mmapStart);
            && (r == Failed <==> length == 0 || (s.mapped && spare == 0))
            && (!r.Returned? ==> u == s) && (r.Returned? ==> u.mapped && u.regions[0].self == s.regions[0].self)
  {
    hide MapPages, Insert, SearchFixed, SearchSize, PageUp;
  }

  // ----- what backs the mapped pages

  /** How addresses translate. */
  type Translate = nat -> Translation

  function WalkOf(m: Words, t: Tables): Translate { (a: nat) => Walk(m, t.pgd, a) }

  /** The physical page belongs to the allocator and is free. */
  predicate FreePage(f: Frames, page: nat)
    requires f.Shaped()
  {
    var first := f.start / 0x1000;
    first <= page < first + f.count && f.bytes[page - first] == KFRAME_FREE
  }

  /** The allocator has handed out the page. */
  predicate HandedOut(f: Frames, page: nat)
    requires f.Shaped()
  {
    f.start / 0x1000 <= page < f.start / 0x1000 + f.count && !FreePage(f, page)
  }

  /** Names a pair of addresses, so that the next statement is used only on request. */
  predicate Both(a: nat, b: nat) { true }

  /** No frame is mapped at two pages. */
  ghost predicate NoSharing(tr: Translate) {
    forall a: nat, b: nat {:trigger Both(a, b)} ::
      Both(a, b) && tr(a).Mapped? && tr(b).Mapped? && tr(a).frame == tr(b).frame ==> PageOf(a) == PageOf(b)
  }

  /** Tables lie in frames that are not free, mapped frames are handed out by the allocator and
      are no tables, and no frame is mapped at two pages. */
  ghost predicate Backed(tr: Translate, f: Frames, t: Tables, n: nat) {
    && f.Conserved() && f.start % 0x1000 == 0 && f.End() <= 0x1_0000_0000_0000
    && (forall p: nat | IsTable(t, n, p) :: !FreePage(f, p))
    && (forall a: nat | tr(a).Mapped? :: HandedOut(f, tr(a).frame) && !IsTable(t, n, tr(a).frame))
    && NoSharing(tr)
  }

  /** `after` maps `k` pages from page `first` on, with these attributes, and translates every
      other page as `before` does. */
  ghost predicate Maps(before: Translate, after: Translate, first: nat, k: nat, attributes: Attributes) {
    && (forall a: nat | first <= PageOf(a) < first + k :: after(a).Mapped? && after(a).attributes == attributes)
    && (forall a: nat | !(first <= PageOf(a) < first + k) :: after(a) == before(a))
  }

  ghost predicate OnlyTables(m: Words, w: Words, t: Tables, n: nat) {
    forall p, i | !IsTable(t, n, p) :: Read(w, p, i) == Read(m, p, i)
  }

  function AttributesFor(flags: nat): Attributes { Requested(0, flags, false).attributes }

  /** The frame that the allocator gives next, and the allocator afterwards. */
  lemma NextFrame(f: Frames) returns (page: nat)
    requires f.Conserved() && f.available > 0 && f.start % 0x1000 == 0 && f.End() <= 0x1_0000_0000_0000
    ensures var (g, frame) := RangeStep(f, 1);
            && frame == 0x1000 * page && page < 0x10_0000_0000 && FreePage(f, page)
            && g.Conserved() && g.available == f.available - 1 && g.start == f.start && g.count == f.count
            && forall p: nat :: FreePage(g, p) <==> FreePage(f, p) && p != page
  {
    FrameRuns.OneFrameIsExact(f);
    var i := FindRun(f, 1, 0).value;
    FrameRuns.TakeConserves(f, i, 1);
    page := f.start / 0x1000 + i;
    assert f.bytes[i] == KFRAME_FREE;
  }

  /** Mapping a page to a free frame, which is then used. */
  lemma BackedStep(before: Translate, after: Translate, f: Frames, g: Frames, t: Tables, n: nat, va: nat,
                   tr: Translation)
    requires Backed(before, f, t, n) && tr.Mapped? && FreePage(f, tr.frame)
    requires g.Conserved() && g.start == f.start && g.count == f.count
    requires forall p: nat :: FreePage(g, p) <==> FreePage(f, p) && p != tr.frame
    requires forall a: nat :: after(a) == if PageOf(a) == PageOf(va) then tr else before(a)
    ensures Backed(after, g, t, n) && Maps(before, after, PageOf(va), 1, tr.attributes)
  {
    forall a: nat, b: nat | Both(a, b) && after(a).Mapped? && after(b).Mapped? && after(a).frame == after(b).frame
      ensures PageOf(a) == PageOf(b)
    {
      assert before(a).Mapped? ==> before(a).frame != tr.frame;
      assert before(b).Mapped? ==> before(b).frame != tr.frame;
    }
  }

  /** The pages were free in `f`; and `g` has no free frame that `f` has not. */
  ghost predicate TakenFrom(f: Frames, g: Frames, tr: Translate, first: nat, k: nat) {
    && f.Shaped() && g.Shaped() && (forall p: nat | FreePage(g, p) :: FreePage(f, p))
    && forall a: nat | first <= PageOf(a) < first + k && tr(a).Mapped? :: FreePage(f, tr(a).frame)
  }

  lemma TakenFurther(f: Frames, g: Frames, h: Frames, between: Translate, after: Translate, first: nat, k: nat,
                     attributes: Attributes)
    requires TakenFrom(f, g, between, first, k) && TakenFrom(g, h, after, first + k, 1)
    requires Maps(between, after, first + k, 1, attributes)
    ensures TakenFrom(f, h, after, first, k + 1)
  {
    hide FreePage;
    forall a: nat | first <= PageOf(a) < first + (k + 1) && after(a).Mapped? ensures FreePage(f, after(a).frame) {
      if PageOf(a) < first + k {
        assert after(a) == between(a);
      } else {
        assert FreePage(g, after(a).frame);
      }
    }
  }

  /** The state of the loop after `k` pages. */
  ghost predicate Progressed(m: Words, f: Frames, r: Progress, t: Tables, n: nat, first: nat, k: nat, flags: nat) {
    && r.Continued? && Shape(r.words, t, n) && Backed(WalkOf(r.words, t), r.frames, t, n)
    && r.frames.available == f.available - k && OnlyTables(m, r.words, t, n)
    && Maps(WalkOf(m, t), WalkOf(r.words, t), first, k, AttributesFor(flags))
    && TakenFrom(f, r.frames, WalkOf(r.words, t), first, k)
  }

  /** One turn maps its page to a frame of its own and keeps everything else. */
  lemma OnePage(m: Words, f: Frames, t: Tables, n: nat, va: nat, flags: nat)
    requires Layout(t, n) && Shape(m, t, n) && Backed(WalkOf(m, t), f, t, n) && f.available > 0
    requires va < U64 && Mappable(t, n, va) && flags < 0x1000
    ensures Progressed(m, f, MapOne(m, f, t, va, flags), t, n, PageOf(va), 1, flags)
  {
    var page := NextFrame(f);
    MapPageRefines(m, t, n, va, 0x1000 * page, flags, false);
    assert Field36(0x1000 * page) == page;
    var r := MapOne(m, f, t, va, flags);
    BackedStep(WalkOf(m, t), WalkOf(r.words, t), f, r.frames, t, n, va, Requested(0x1000 * page, flags, false));
    TakesOne(f, r.frames, WalkOf(r.words, t), va, page);
  }

  lemma TakesOne(f: Frames, g: Frames, tr: Translate, va: nat, page: nat)
    requires f.Shaped() && g.Shaped() && FreePage(f, page)
    requires forall p: nat :: FreePage(g, p) <==> FreePage(f, p) && p != page
    requires forall a: nat | PageOf(a) == PageOf(va) && tr(a).Mapped? :: tr(a).frame == page
    ensures TakenFrom(f, g, tr, PageOf(va), 1)
  {
    hide FreePage;
  }

  lemma MapsOneMore(before: Translate, between: Translate, after: Translate, first: nat, k: nat, attributes: Attributes)
    requires Maps(before, between, first, k, attributes) && Maps(between, after, first + k, 1, attributes)
    ensures Maps(before, after, first, k + 1, attributes)
  {
  }

  lemma TablesFurther(m: Words, w: Words, v: Words, t: Tables, n: nat)
    requires OnlyTables(m, w, t, n) && OnlyTables(w, v, t, n)
    ensures OnlyTables(m, v, t, n)
  {
  }

  lemma ProgressOne(m: Words, f: Frames, r: Progress, t: Tables, n: nat, first: nat, k: nat, flags: nat, va: nat,
                    q: Progress)
    requires Layout(t, n) && Progressed(m, f, r, t, n, first, k, flags) && r.frames.available > 0
    requires va < U64 && Mappable(t, n, va) && PageOf(va) == first + k && flags < 0x1000
    requires q == MapOne(r.words, r.frames, t, va, flags)
    ensures Progressed(m, f, q, t, n, first, k + 1, flags)
  {
    OnePage(r.words, r.frames, t, n, va, flags);
    hide TakenFrom, Maps, Walk, Shape, Backed, OnlyTables, AttributesFor, MapOne, PageOf;
    MapsOneMore(WalkOf(m, t), WalkOf(r.words, t), WalkOf(q.words, t), first, k, AttributesFor(flags));
    TakenFurther(f, r.frames, q.frames, WalkOf(r.words, t), WalkOf(q.words, t), first, k, AttributesFor(flags));
    TablesFurther(m, r.words, q.words, t, n);
  }

  // ----- the pages of a request

  /** The window ends inside the address space. */
  lemma InWindowBounds(t: Tables, n: nat)
    requires t.startVa < U64 && OffsetL2(t.startVa) + n <= 512 && t.startVa % 0x20_0000 == 0
    ensures t.startVa + n * 0x20_0000 <= U64
  {
    var s := t.startVa / 0x20_0000;
    assert s < 0x800_0000_0000;
    assert s / 512 < 0x4_0000_0000;
  }

  /** Inside the window page numbers count up with addresses. */
  lemma WindowPage(t: Tables, n: nat, va: nat)
    requires t.startVa < U64 && va < U64 && OffsetL2(t.startVa) + n <= 512 && Mappable(t, n, va)
    ensures PageOf(va) == PageOf(t.startVa) + (va / 0x1000 - t.startVa / 0x1000)
  {
    var s, d := t.startVa / 0x20_0000, (va - t.startVa) / 0x1000;
    var v := t.startVa / 0x1000;
    DivUnique(t.startVa, 0x1000, 512 * s, 0);
    DivUnique(va, 0x1000, v + d, (va - t.startVa) % 0x1000);
    DivUnique(v, 512, s, 0);
    Digits(v, 512, 512);
    Digits(v, 0x4_0000, 0x4_0000);
    NoCarry(v, d);
  }

  lemma NoCarry(v: nat, d: nat)
    requires v % 0x10_0000_0000 + d < 0x10_0000_0000
    ensures (v + d) % 0x10_0000_0000 == v % 0x10_0000_0000 + d
  {
    DivUnique(v + d, 0x10_0000_0000, v / 0x10_0000_0000, v % 0x10_0000_0000 + d);
  }

  lemma PageOfStep(t: Tables, n: nat, base: nat, i: nat)
    requires Layout(t, n) && Mappable(t, n, base) && base + 0x1000 * i < t.startVa + n * 0x20_0000
    ensures base + 0x1000 * i < U64 && Mappable(t, n, base + 0x1000 * i)
    ensures PageOf(base + 0x1000 * i) == PageOf(base) + i
  {
    var va := base + 0x1000 * i;
    InWindowBounds(t, n);
    WindowPage(t, n, base);
    WindowPage(t, n, va);
    assert va / 0x1000 == base / 0x1000 + i;
  }

  /** What each turn keeps holds after the loop; `good` also says how many turns there were. */
  lemma {:induction false} LoopKeeps(turn: Turn, good: (Progress, nat) -> bool, m: Words, f: Frames, base: nat, k: nat)
    requires good(Continued(m, f), 0) && forall r, j :: good(r, j) ==> r.Continued?
    requires forall r: Progress, j: nat | j < k && good(r, j) ::
             good(turn(r.words, r.frames, Add64(base, 0x1000 * j)), j + 1)
    ensures good(MapPages(turn, m, f, base, k), k)
  {
    if k > 0 {
      LoopKeeps(turn, good, m, f, base, k - 1);
    }
  }

  lemma TurnProgress(turn: Turn, m: Words, f: Frames, r: Progress, t: Tables, n: nat, first: nat, k: nat, flags: nat,
                     va: nat)
    requires IsTurn(turn, t, flags)
    requires Layout(t, n) && Progressed(m, f, r, t, n, first, k, flags) && r.frames.available > 0
    requires va < U64 && Mappable(t, n, va) && PageOf(va) == first + k && flags < 0x1000
    ensures Progressed(m, f, turn(r.words, r.frames, va), t, n, first, k + 1, flags)
  {
    assert Here(r.words, r.frames, va);
    TurnIs(t, flags, r.words, r.frames, va);
    ProgressOne(m, f, r, t, n, first, k, flags, va, turn(r.words, r.frames, va));
  }

  lemma Remaining(m: Words, f: Frames, r: Progress, t: Tables, n: nat, first: nat, k: nat, flags: nat)
    requires Progressed(m, f, r, t, n, first, k, flags)
    ensures r.Continued? && r.frames.available == f.available - k
  {
  }

  lemma PageProgress(turn: Turn, m: Words, f: Frames, t: Tables, n: nat, base: nat, k: nat, flags: nat, r: Progress,
                     j: nat)
    requires IsTurn(turn, t, flags) && Layout(t, n) && j < k <= f.available && flags < 0x1000 && base < U64
    requires Mappable(t, n, base) && base + 0x1000 * (k - 1) < t.startVa + n * 0x20_0000
    requires Progressed(m, f, r, t, n, PageOf(base), j, flags)
    ensures Progressed(m, f, turn(r.words, r.frames, Add64(base, 0x1000 * j)), t, n, PageOf(base), j + 1, flags)
  {
    hide IsTurn, Progressed;
    assert r.frames.available > 0 by { Remaining(m, f, r, t, n, PageOf(base), j, flags); }
    PageOfStep(t, n, base, j);
    assert Add64(base, 0x1000 * j) == base + 0x1000 * j;
    TurnProgress(turn, m, f, r, t, n, PageOf(base), j, flags, base + 0x1000 * j);
  }

  lemma StartsProgressed(m: Words, f: Frames, t: Tables, n: nat, base: nat, flags: nat)
    requires Shape(m, t, n) && Backed(WalkOf(m, t), f, t, n)
    ensures Progressed(m, f, Continued(m, f), t, n, PageOf(base), 0, flags)
  {
  }

  /** The loop maps its pages to frames of their own, with the attributes asked for, and keeps
      every other translation. */
  lemma ManyPages(turn: Turn, m: Words, f: Frames, t: Tables, n: nat, base: nat, k: nat, flags: nat)
    requires IsTurn(turn, t, flags)
    requires Layout(t, n) && Shape(m, t, n) && Backed(WalkOf(m, t), f, t, n) && k <= f.available
    requires Mappable(t, n, base) && (k > 0 ==> base + 0x1000 * (k - 1) < t.startVa + n * 0x20_0000)
    requires base < U64 && flags < 0x1000
    ensures Progressed(m, f, MapPages(turn, m, f, base, k), t, n, PageOf(base), k, flags)
  {
    hide Shape, Backed, OnlyTables, Maps, Layout, Mappable, IsTurn, MapPages;
    StartsProgressed(m, f, t, n, base, flags);
    var good := (r: Progress, j: nat) => Progressed(m, f, r, t, n, PageOf(base), j, flags);
    forall r: Progress, j: nat | j < k && good(r, j)
      ensures good(turn(r.words, r.frames, Add64(base, 0x1000 * j)), j + 1)
    {
      PageProgress(turn, m, f, t, n, base, k, flags, r, j);
    }
    LoopKeeps(turn, good, m, f, base, k);
  }

  // ----- requests above the last region

  predicate InRegion(r: Region, a: nat) {
    PageOf(r.base) <= PageOf(a) < PageOf(r.base) + r.size / 0x1000
  }

  /** The region is made of whole pages inside the window. */
  predicate RegionFits(t: Tables, n: nat, r: Region) {
    && r.size % 0x1000 == 0 && Mappable(t, n, r.base) && r.Fits()
    && r.base + r.size <= t.startVa + n * 0x20_0000 && r.self < U64
  }

  /** Exactly the pages of the regions are mapped. */
  ghost predicate RegionsMapped(tr: Translate, rs: seq<Region>) {
    && (forall i, a: nat | 0 <= i < |rs| && InRegion(rs[i], a) :: tr(a).Mapped?)
    && (forall a: nat | tr(a).Mapped? :: exists i :: 0 <= i < |rs| && InRegion(rs[i], a))
  }

  /** The regions in use: before the first request the only node stands for none. */
  function InUse(mapped: bool, rs: seq<Region>): seq<Region> { if mapped then rs else [] }

  /** The regions are in order and are what is mapped. */
  ghost predicate SoundRegions(tr: Translate, t: Tables, n: nat, rs: seq<Region>) {
    Ascending(rs) && RegionsMapped(tr, rs) && forall i | 0 <= i < |rs| :: RegionFits(t, n, rs[i])
  }

  predicate Above(rs: seq<Region>, address: nat) {
    rs != [] ==> rs[|rs| - 1].End() <= address
  }

  lemma AllBelow(rs: seq<Region>, address: nat)
    requires Ascending(rs) && Above(rs, address)
    ensures forall i | 0 <= i < |rs| :: rs[i].base + rs[i].size <= address
  {
    forall i | 0 <= i < |rs| ensures rs[i].base + rs[i].size <= address {
      if i < |rs| - 1 {
        assert rs[i].End() <= rs[|rs| - 1].base;
      }
    }
  }

  /** A request at or above the end of a region has none of its pages. */
  lemma PagesAbove(t: Tables, n: nat, r: Region, address: nat, a: nat)
    requires Layout(t, n) && t.startVa % 0x20_0000 == 0 && RegionFits(t, n, r) && Mappable(t, n, address)
    requires r.base + r.size <= address && InRegion(r, a)
    ensures PageOf(a) < PageOf(address)
  {
    InWindowBounds(t, n);
    WindowPage(t, n, r.base);
    WindowPage(t, n, address);
    DivUnique(r.base + r.size, 0x1000, r.base / 0x1000 + r.size / 0x1000, r.base % 0x1000);
    assert (r.base + r.size) / 0x1000 <= address / 0x1000;
  }

  /** So the pages mapped before lie below it. */
  lemma EarlierPage(tr: Translate, t: Tables, n: nat, rs: seq<Region>, address: nat, a: nat) returns (i: nat)
    requires Layout(t, n) && t.startVa % 0x20_0000 == 0 && SoundRegions(tr, t, n, rs)
    requires Mappable(t, n, address) && Above(rs, address) && tr(a).Mapped?
    ensures i < |rs| && InRegion(rs[i], a) && PageOf(a) < PageOf(address)
  {
    i :| 0 <= i < |rs| && InRegion(rs[i], a);
    AllBelow(rs, address);
    PagesAbove(t, n, rs[i], address, a);
  }

  lemma MapsRegion(before: Translate, after: Translate, x: Region, attributes: Attributes, a: nat)
    requires Maps(before, after, PageOf(x.base), x.size / 0x1000, attributes)
    ensures if InRegion(x, a) then after(a).Mapped? else after(a) == before(a)
  {
  }

  lemma AscendingWith(rs: seq<Region>, x: Region)
    requires Ascending(rs) && Above(rs, x.base) && x.Fits()
    ensures Ascending(rs + [x])
  {
    AllBelow(rs, x.base);
  }

  /** A request above the last region adds its region, fully mapped. */
  lemma ExtendedRegionsSound(before: Translate, after: Translate, t: Tables, n: nat, rs: seq<Region>, x: Region,
                             attributes: Attributes)
    requires Layout(t, n) && t.startVa % 0x20_0000 == 0 && SoundRegions(before, t, n, rs)
    requires RegionFits(t, n, x) && Above(rs, x.base)
    requires Maps(before, after, PageOf(x.base), x.size / 0x1000, attributes)
    ensures SoundRegions(after, t, n, rs + [x])
  {
    hide InRegion, Maps, Layout, Above, Ascending;
    var all := rs + [x];
    AscendingWith(rs, x);
    forall i, a: nat | 0 <= i < |all| && InRegion(all[i], a) ensures after(a).Mapped? {
      if i < |rs| {
        assert InRegion(rs[i], a) && before(a).Mapped?;
      }
      MapsRegion(before, after, x, attributes, a);
    }
    forall a: nat | after(a).Mapped? ensures exists i :: 0 <= i < |all| && InRegion(all[i], a) {
      MapsRegion(before, after, x, attributes, a);
      if InRegion(x, a) {
        assert InRegion(all[|rs|], a);
      } else {
        assert before(a).Mapped?;
        var i := EarlierPage(before, t, n, rs, x.base, a);
        assert InRegion(all[i], a);
      }
    }
  }

  /** The tables have their shape, mapped pages are backed, and the regions are sound. */
  ghost predicate Sound(s: Space, t: Tables, n: nat) {
    && Layout(t, n) && t.startVa % 0x20_0000 == 0 && Shape(s.words, t, n)
    && Backed(WalkOf(s.words, t), s.frames, t, n)
    && SoundRegions(WalkOf(s.words, t), t, n, InUse(s.mapped, s.regions))
    && s.regions != [] && (!s.mapped ==> |s.regions| == 1) && forall i | 0 <= i < |s.regions| :: s.regions[i].self < U64
  }

  /** The request lies in the window, at or above the end of the last region, and can be
      backed. */
  predicate Ascends(s: Space, t: Tables, n: nat, address: nat, length: nat, spare: nat) {
    var size := PageUp(length);
    && 0 < length && 0 < spare < U64 && Mappable(t, n, address)
    && address + length + 0xFFF < U64 && address + size <= t.startVa + n * 0x20_0000
    && Above(InUse(s.mapped, s.regions), address)
    && size / 0x1000 <= s.frames.available
  }

  /** The region of such a request: the first one takes the node that is there. */
  function NewRegion(s: Space, address: nat, length: nat, spare: nat): Region
    requires s.regions != []
  {
    Region(address, PageUp(length), if s.mapped then spare else s.regions[0].self)
  }

  /** The regions after a request above the last one. */
  function Extended(s: Space, address: nat, length: nat, spare: nat): seq<Region>
    requires s.regions != []
  {
    InUse(s.mapped, s.regions) + [NewRegion(s, address, length, spare)]
  }

  lemma AscendingExtends(rs: seq<Region>, x: Region)
    requires Ascending(rs) && Above(rs, x.base) && x.Fits() && 0 < x.size && rs != []
    ensures SearchFixed(rs, x.base, x.size) == |rs|
    ensures [rs[0]] + Insert(rs[1..], x).0 == rs + [x]
  {
    AllBelow(rs, x.base);
    SearchMissesAbove(rs, x.base, x.size);
    assert Ascending(rs[1..] + [x]);
    InsertAppends(rs[1..], x);
  }

  function Finished(s: Space, r: Progress, regions: seq<Region>, base: nat): (Space, Result) {
    match r
    case Stopped => (s, Crashed)
    case Continued(w, g) => (Space(w, g, true, regions), Returned(base))
  }

  lemma FirstIs(s: Space, t: Tables, address: nat, length: nat, flags: nat, fixed: bool, spare: nat, mmapStart: nat,
                base: nat, r: Progress)
    requires RequestOk(s, t, address, mmapStart) && 0 < length && !s.mapped
    requires base == if fixed then address else mmapStart
    requires r == MapPages(TurnFor(t, flags), s.words, s.frames, base, PageUp(length) / 0x1000)
    ensures Request(s, t, address, length, flags, fixed, spare, mmapStart)
         == Finished(s, r, s.regions[0 := Region(base, PageUp(length), s.regions[0].self)], base)
  {
  }

  lemma NextIs(s: Space, t: Tables, address: nat, length: nat, flags: nat, fixed: bool, spare: nat, mmapStart: nat,
               hit: nat, base: nat, r: Progress)
    requires RequestOk(s, t, address, mmapStart) && 0 < length && s.mapped && 0 < spare
    requires hit == if fixed then SearchFixed(s.regions, address, PageUp(length))
             else SearchSize(s.regions, PageUp(length), 0)
    requires base == if hit < |s.regions| then s.regions[hit].self else address
    requires r == MapPages(TurnFor(t, flags), s.words, s.frames, base, PageUp(length) / 0x1000)
    ensures Request(s, t, address, length, flags, fixed, spare, mmapStart)
         == Finished(s, r, [s.regions[0]] + Insert(s.regions[1..], Region(base, PageUp(length), spare)).0, base)
  {
  }

  /** What a request above the last region leaves behind. */
  ghost predicate Extends(s: Space, u: Space, t: Tables, n: nat, address: nat, length: nat, flags: nat, spare: nat)
    requires s.regions != []
  {
    && Sound(u, t, n) && u.mapped && u.regions == Extended(s, address, length, spare)
    && u.frames.available == s.frames.available - PageUp(length) / 0x1000 && OnlyTables(s.words, u.words, t, n)
    && Maps(WalkOf(s.words, t), WalkOf(u.words, t), PageOf(address), PageUp(length) / 0x1000, AttributesFor(flags))
    && TakenFrom(s.frames, u.frames, WalkOf(u.words, t), PageOf(address), PageUp(length) / 0x1000)
  }

  lemma NewRegionFits(s: Space, t: Tables, n: nat, address: nat, length: nat, spare: nat)
    requires Layout(t, n) && t.startVa % 0x20_0000 == 0 && Ascends(s, t, n, address, length, spare)
    requires s.regions != [] && s.regions[0].self < U64
    ensures RegionFits(t, n, NewRegion(s, address, length, spare)) && 0 < PageUp(length)
    ensures address < U64 && address + 0x1000 * (PageUp(length) / 0x1000 - 1) < t.startVa + n * 0x20_0000
  {
    InWindowBounds(t, n);
  }

  lemma MappedExtends(s: Space, t: Tables, n: nat, address: nat, length: nat, flags: nat, spare: nat, r: Progress)
    requires Sound(s, t, n) && RegionFits(t, n, NewRegion(s, address, length, spare))
    requires Above(InUse(s.mapped, s.regions), address)
    requires Progressed(s.words, s.frames, r, t, n, PageOf(address), PageUp(length) / 0x1000, flags)
    ensures Extends(s, Space(r.words, r.frames, true, Extended(s, address, length, spare)), t, n, address, length,
            flags, spare)
  {
    ExtendedRegionsSound(WalkOf(s.words, t), WalkOf(r.words, t), t, n, InUse(s.mapped, s.regions),
                         NewRegion(s, address, length, spare), AttributesFor(flags));
  }

  lemma RequestExtends(s: Space, t: Tables, n: nat, address: nat, length: nat, flags: nat, spare: nat, mmapStart: nat,
                       r: Progress)
    requires RequestOk(s, t, address, mmapStart) && 0 < length && 0 < spare && 0 < PageUp(length) && r.Continued?
    requires (!s.mapped ==> |s.regions| == 1) && Ascending(InUse(s.mapped, s.regions))
    requires Above(InUse(s.mapped, s.regions), address) && NewRegion(s, address, length, spare).Fits()
    requires r == MapPages(TurnFor(t, flags), s.words, s.frames, address, PageUp(length) / 0x1000)
    ensures Request(s, t, address, length, flags, true, spare, mmapStart)
         == (Space(r.words, r.frames, true, Extended(s, address, length, spare)), Returned(address))
  {
    var x := NewRegion(s, address, length, spare);
    if s.mapped {
      AscendingExtends(s.regions, x);
      NextIs(s, t, address, length, flags, true, spare, mmapStart, |s.regions|, address, r);
    } else {
      FirstIs(s, t, address, length, flags, true, spare, mmapStart, address, r);
      assert s.regions[0 := x] == [x] == [] + [x];
    }
  }

  /** Such a request returns its address, backs every page of it with a frame of its own, keeps
      all earlier translations, and extends the list of regions. */
  lemma RequestIsSound(s: Space, t: Tables, n: nat, address: nat, length: nat, flags: nat, spare: nat, mmapStart: nat)
    requires Sound(s, t, n) && Ascends(s, t, n, address, length, spare) && flags < 0x1000 && mmapStart < U64
    ensures address < U64
    ensures var (u, r) := Request(s, t, address, length, flags, true, spare, mmapStart);
            r == Returned(address) && Extends(s, u, t, n, address, length, flags, spare)
  {
    var k := PageUp(length) / 0x1000;
    NewRegionFits(s, t, n, address, length, spare);
    ManyPages(TurnFor(t, flags), s.words, s.frames, t, n, address, k, flags);
    var r := MapPages(TurnFor(t, flags), s.words, s.frames, address, k);
    RequestExtends(s, t, n, address, length, flags, spare, mmapStart, r);
    MappedExtends(s, t, n, address, length, flags, spare, r);
  }

  // ----- requests elsewhere

  /** Where a further fixed request is mapped. */
  function FixedBase(rs: seq<Region>, address: nat, size: nat): nat {
    var hit := SearchFixed(rs, address, size);
    if hit < |rs| then rs[hit].self else address
  }

  /** A further fixed request, that the kernel heap serves, returns what the search makes of it. */
  lemma SearchDecides(s: Space, t: Tables, address: nat, length: nat, flags: nat, spare: nat, mmapStart: nat)
    requires RequestOk(s, t, address, mmapStart) && 0 < length && s.mapped && 0 < spare
    ensures var base := FixedBase(s.regions, address, PageUp(length));
            var r := MapPages(TurnFor(t, flags), s.words, s.frames, base, PageUp(length) / 0x1000);
            Request(s, t, address, length, flags, true, spare, mmapStart).1 == Finished(s, r, [], base).1
  {
    hide MapPages, TurnFor, Insert, SearchFixed, PageUp;
  }

  lemma RequestBounds(s: Space, t: Tables, n: nat, address: nat, length: nat, mmapStart: nat)
    requires mmapStart < U64 && Sound(s, t, n) && 0 < length && address + length + 0xFFF < U64
    requires Mappable(t, n, address) && address + PageUp(length) <= t.startVa + n * 0x20_0000
    ensures RequestOk(s, t, address, mmapStart)
    ensures 0 < PageUp(length) && address + PageUp(length) < U64 && PageUp(length) / 0x1000 > 0
  {
    SpaceFrames(s, t, n);
    hide Shape, Backed, SoundRegions;
    InWindowBounds(t, n);
  }

  /** A request that overlaps no region and can be backed returns its address exactly if it is at
      or above the end of the last region. In a gap below, it is mapped at the address of the
      structure of a region, or the kernel crashes. */
  lemma ReturnsAddressIff(s: Space, t: Tables, n: nat, address: nat, length: nat, flags: nat, spare: nat,
                          mmapStart: nat)
    requires Sound(s, t, n) && s.mapped && AllNonEmpty(s.regions)
    requires forall i | 0 <= i < |s.regions| :: s.regions[i].self != address
    requires 0 < length && 0 < spare < U64 && Mappable(t, n, address) && flags < 0x1000 && mmapStart < U64
    requires address + length + 0xFFF < U64 && address + PageUp(length) <= t.startVa + n * 0x20_0000
    requires PageUp(length) / 0x1000 <= s.frames.available && ClearOf(s.regions, address, PageUp(length))
    ensures address < U64
    ensures Request(s, t, address, length, flags, true, spare, mmapStart).1 == Returned(address)
        <==> s.regions[|s.regions| - 1].End() <= address
  {
    hide Request, Shape, Backed, Extends, MapPages, TurnFor, SearchFixed, ClearOf, RegionsMapped, RegionFits, PageUp;
    var size := PageUp(length);
    RequestBounds(s, t, n, address, length, mmapStart);
    SearchMissesIff(s.regions, address, size);
    if Above(s.regions, address) {
      RequestIsSound(s, t, n, address, length, flags, spare, mmapStart);
    } else {
      SearchDecides(s, t, address, length, flags, spare, mmapStart);
    }
  }

  /** The address is 512 GB or more above the start of the mapping, where `page_table_map` calls
      `crash`. */
  predicate Far(t: Tables, a: nat)
    requires t.startVa < U64
  {
    a < U64 && Sub64(a, t.startVa) >= 0x80_0000_0000
  }

  /** The structures of the regions lie there, as those on the kernel's heap do for the tables of a
      process. */
  ghost predicate FarNodes(t: Tables, rs: seq<Region>)
    requires t.startVa < U64
  {
    forall i | 0 <= i < |rs| :: Far(t, rs[i].self)
  }

  lemma {:induction false} FarStops(t: Tables, flags: nat, m: Words, f: Frames, base: nat, k: nat)
    requires t.startVa < U64 && f.Shaped() && Far(t, base) && k > 0
    ensures MapPages(TurnFor(t, flags), m, f, base, k).Stopped?
    decreases k
  {
    if k > 1 {
      FarStops(t, flags, m, f, base, k - 1);
    } else {
      assert MapPages(TurnFor(t, flags), m, f, base, 0) == Continued(m, f);
      assert Add64(base, 0) == base;
      TurnIs(t, flags, m, f, base);
      assert MapPage(m, t, base, RangeStep(f, 1).1, flags, false) == Crash;
    }
  }

  /** If the loop goes through, it has taken `k` frames. */
  ghost predicate Takes(f: Frames, r: Progress, k: nat) {
    r.Continued? ==>
      && r.frames.Conserved() && r.frames.start == f.start && r.frames.count == f.count
      && r.frames.available + k == f.available
  }

  ghost predicate WholeFrames(f: Frames) {
    f.Conserved() && f.start % 0x1000 == 0 && f.End() <= 0x1_0000_0000_0000
  }

  lemma TurnTakes(t: Tables, flags: nat, m: Words, f: Frames, va: nat)
    requires t.startVa < U64 && va < U64 && WholeFrames(f)
    ensures Takes(f, MapOne(m, f, t, va, flags), 1)
  {
    hide MapPage;
    FrameRuns.OneFrameIsExact(f);
    if f.available > 0 {
      hide RangeStep;
      var _ := NextFrame(f);
    }
  }

  lemma TakesFurther(f: Frames, q: Progress, r: Progress, k: nat)
    requires WholeFrames(f) && q.Continued? && Takes(f, q, k)
    ensures WholeFrames(q.frames)
    ensures Takes(q.frames, r, 1) ==> Takes(f, r, k + 1)
  {
  }

  lemma NextTurn(t: Tables, flags: nat, m: Words, f: Frames, base: nat, k: nat)
    requires t.startVa < U64 && k > 0
    ensures var q := MapPages(TurnFor(t, flags), m, f, base, k - 1);
            var r := MapPages(TurnFor(t, flags), m, f, base, k);
            if q.Stopped? then r.Stopped?
            else q.frames.Shaped() ==> r == MapOne(q.words, q.frames, t, Add64(base, 0x1000 * (k - 1)), flags)
  {
    hide MapOne;
    var q := MapPages(TurnFor(t, flags), m, f, base, k - 1);
    if q.Continued? && q.frames.Shaped() {
      TurnIs(t, flags, q.words, q.frames, Add64(base, 0x1000 * (k - 1)));
    }
  }

  /** A loop that goes through has found a frame for each page. */
  lemma {:induction false} LoopTakes(t: Tables, flags: nat, m: Words, f: Frames, base: nat, k: nat)
    requires t.startVa < U64 && WholeFrames(f)
    ensures Takes(f, MapPages(TurnFor(t, flags), m, f, base, k), k)
    decreases k
  {
    hide Takes, MapPages, TurnFor, WholeFrames;
    if k == 0 {
      NothingTaken(TurnFor(t, flags), m, f, base);
    } else {
      LoopTakes(t, flags, m, f, base, k - 1);
      LoopTakesNext(t, flags, m, f, base, k);
    }
  }

  lemma NothingTaken(turn: Turn, m: Words, f: Frames, base: nat)
    requires WholeFrames(f)
    ensures Takes(f, MapPages(turn, m, f, base, 0), 0)
  {
  }

  lemma LoopTakesNext(t: Tables, flags: nat, m: Words, f: Frames, base: nat, k: nat)
    requires t.startVa < U64 && WholeFrames(f) && k > 0
             && Takes(f, MapPages(TurnFor(t, flags), m, f, base, k - 1), k - 1)
    ensures Takes(f, MapPages(TurnFor(t, flags), m, f, base, k), k)
  {
    var q := MapPages(TurnFor(t, flags), m, f, base, k - 1);
    NextTurn(t, flags, m, f, base, k);
    if q.Continued? {
      hide MapOne, MapPages, TurnFor;
      TakesFurther(f, q, MapPages(TurnFor(t, flags), m, f, base, k), k - 1);
      TurnTakes(t, flags, q.words, q.frames, Add64(base, 0x1000 * (k - 1)));
    }
  }

  /** The pages of the request. */
  predicate PageOfRequest(address: nat, length: nat, a: nat) {
    PageOf(address) <= PageOf(a) < PageOf(address) + PageUp(length) / 0x1000
  }

  /** No page of the request belongs to a region. */
  ghost predicate PagesClear(rs: seq<Region>, address: nat, length: nat) {
    forall i, a: nat | 0 <= i < |rs| && PageOfRequest(address, length, a) :: !InRegion(rs[i], a)
  }

  /** What a request that is mapped where it asked does to the translations: its pages get frames
      that were free, all others stay, and what was mapped before survives exactly if no page of
      the request belonged to a region. */
  ghost predicate MappedThere(s: Space, u: Space, t: Tables, address: nat, length: nat, flags: nat) {
    && Maps(WalkOf(s.words, t), WalkOf(u.words, t), PageOf(address), PageUp(length) / 0x1000, AttributesFor(flags))
    && TakenFrom(s.frames, u.frames, WalkOf(u.words, t), PageOf(address), PageUp(length) / 0x1000)
    && (Survives(WalkOf(s.words, t), WalkOf(u.words, t)) <==> PagesClear(s.regions, address, length))
  }

  lemma SurvivesIff(s: Space, u: Space, t: Tables, n: nat, address: nat, length: nat, flags: nat)
    requires Sound(s, t, n) && s.mapped
    requires Maps(WalkOf(s.words, t), WalkOf(u.words, t), PageOf(address), PageUp(length) / 0x1000,
             AttributesFor(flags))
    requires TakenFrom(s.frames, u.frames, WalkOf(u.words, t), PageOf(address), PageUp(length) / 0x1000)
    ensures MappedThere(s, u, t, address, length, flags)
  {
    hide Walk, Shape, FreePage, InRegion, PageOf, Layout, RegionFits, Ascending;
    var before, after := WalkOf(s.words, t), WalkOf(u.words, t);
    forall a: nat | PageOfRequest(address, length, a) && before(a).Mapped? ensures after(a) != before(a) {
      assert HandedOut(s.frames, before(a).frame) && FreePage(s.frames, after(a).frame);
    }
    if PagesClear(s.regions, address, length) {
      forall a: nat | before(a).Mapped? ensures after(a) == before(a) {
        var i :| 0 <= i < |s.regions| && InRegion(s.regions[i], a);
        assert !PageOfRequest(address, length, a);
      }
    } else {
      var i, a: nat :| 0 <= i < |s.regions| && PageOfRequest(address, length, a) && InRegion(s.regions[i], a);
      assert before(a).Mapped? && after(a) != before(a);
    }
  }

  /** The whole outcome of a further fixed request in the window, overlapping or not: it is mapped
      where it asked exactly if the search misses and there are frames for it; otherwise the
      kernel crashes, on a hit because the address of a region's structure is out of reach. */
  lemma FixedOutcome(s: Space, t: Tables, n: nat, address: nat, length: nat, flags: nat, spare: nat, mmapStart: nat)
    requires Sound(s, t, n) && s.mapped && AllNonEmpty(s.regions) && FarNodes(t, s.regions)
    requires 0 < length && 0 < spare < U64 && Mappable(t, n, address) && flags < 0x1000 && mmapStart < U64
    requires address + length + 0xFFF < U64 && address + PageUp(length) <= t.startVa + n * 0x20_0000
    ensures address < U64
    ensures var (u, r) := Request(s, t, address, length, flags, true, spare, mmapStart);
            if Missed(s.regions, address, PageUp(length)) && PageUp(length) / 0x1000 <= s.frames.available
            then r == Returned(address) && MappedThere(s, u, t, address, length, flags)
            else r == Crashed
  {
    hide Shape, Layout, Backed, RegionsMapped, RegionFits, Missed, SearchFixed, Survives, MapPages, TurnFor,
         MappedThere, PageUp;
    var size, k := PageUp(length), PageUp(length) / 0x1000;
    RequestBounds(s, t, n, address, length, mmapStart);
    SearchMissedIff(s.regions, address, size);
    var hit := SearchFixed(s.regions, address, size);
    var base := if hit < |s.regions| then s.regions[hit].self else address;
    var r := MapPages(TurnFor(t, flags), s.words, s.frames, base, k);
    NextIs(s, t, address, length, flags, true, spare, mmapStart, hit, base, r);
    if hit < |s.regions| {
      SpaceFrames(s, t, n);
      FarStops(t, flags, s.words, s.frames, base, k);
    } else if k <= s.frames.available {
      MissIsMapped(s, t, n, address, length, flags, r);
      var u := Request(s, t, address, length, flags, true, spare, mmapStart).0;
      SurvivesIff(s, u, t, n, address, length, flags);
    } else {
      SpaceFrames(s, t, n);
      LoopTakes(t, flags, s.words, s.frames, base, k);
    }
  }

  lemma SpaceFrames(s: Space, t: Tables, n: nat)
    requires Sound(s, t, n)
    ensures t.startVa < U64 && WholeFrames(s.frames)
  {
  }

  lemma MissIsMapped(s: Space, t: Tables, n: nat, address: nat, length: nat, flags: nat, r: Progress)
    requires Sound(s, t, n) && flags < 0x1000 && address < U64 && Mappable(t, n, address) && 0 < PageUp(length)
    requires address + PageUp(length) <= t.startVa + n * 0x20_0000 && PageUp(length) / 0x1000 <= s.frames.available
    requires r == MapPages(TurnFor(t, flags), s.words, s.frames, address, PageUp(length) / 0x1000)
    ensures r.Continued?
    ensures Maps(WalkOf(s.words, t), WalkOf(r.words, t), PageOf(address), PageUp(length) / 0x1000, AttributesFor(flags))
    ensures TakenFrom(s.frames, r.frames, WalkOf(r.words, t), PageOf(address), PageUp(length) / 0x1000)
  {
    hide Shape, Maps, TakenFrom, MapPages, TurnFor;
    ManyPages(TurnFor(t, flags), s.words, s.frames, t, n, address, PageUp(length) / 0x1000, flags);
  }

  /** A free page between two regions of a process: the request for it crashes the kernel. */
  lemma GapCrashes(s: Space, t: Tables, n: nat, flags: nat, spare: nat, mmapStart: nat)
    requires Sound(s, t, n) && t.startVa == 0 && n > 0 && s.mapped && 0 < spare < U64 && mmapStart < U64
             && flags < 0x1000
    requires s.regions == [Region(0x1000, 0x1000, KERNEL_VA_BASE), Region(0x5000, 0x1000, KERNEL_VA_BASE + 0x1000)]
    ensures ClearOf(s.regions, 0x3000, 0x1000)
    ensures RequestOk(s, t, 0x3000, mmapStart)
    ensures Request(s, t, 0x3000, 0x1000, flags, true, spare, mmapStart).1 == Crashed
  {
    hide Shape, Backed, RegionsMapped, RegionFits, Layout, Request, MappedThere;
    SpaceFrames(s, t, n);
    assert PageUp(0x1000) == 0x1000 && !Missed(s.regions, 0x3000, 0x1000);
    FixedOutcome(s, t, n, 0x3000, 0x1000, flags, spare, mmapStart);
  }

  /** Code at the second of two regions, and a request that starts in it and ends behind it: the
      page that both have is mapped to another frame. */
  lemma OverlapReplaces(s: Space, t: Tables, n: nat, flags: nat, spare: nat, mmapStart: nat)
    requires Sound(s, t, n) && t.startVa == 0 && n > 0 && s.mapped && 0 < spare < U64 && mmapStart < U64
             && flags < 0x1000
    requires s.regions == [Region(0x1000, 0x1000, KERNEL_VA_BASE), Region(0x5000, 0x1000, KERNEL_VA_BASE + 0x1000)]
    requires s.frames.available >= 2
    ensures RequestOk(s, t, 0x5000, mmapStart)
    ensures var (u, r) := Request(s, t, 0x5000, 0x2000, flags, true, spare, mmapStart);
            && r == Returned(0x5000) && WalkOf(s.words, t)(0x5000).Mapped?
            && WalkOf(u.words, t)(0x5000).Mapped?
            && WalkOf(u.words, t)(0x5000).frame != WalkOf(s.words, t)(0x5000).frame
  {
    hide Sound, Request, Walk, MappedThere, PageUp, PageOf, Missed, RequestOk;
    SecondRegion(s, t, n, mmapStart);
    FixedOutcome(s, t, n, 0x5000, 0x2000, flags, spare, mmapStart);
    var u := Request(s, t, 0x5000, 0x2000, flags, true, spare, mmapStart).0;
    OtherFrame(s, u, t, n, 0x5000, 0x2000, flags, 0x5000);
  }

  lemma SecondRegion(s: Space, t: Tables, n: nat, mmapStart: nat)
    requires Sound(s, t, n) && t.startVa == 0 && n > 0 && s.mapped && mmapStart < U64
    requires s.regions == [Region(0x1000, 0x1000, KERNEL_VA_BASE), Region(0x5000, 0x1000, KERNEL_VA_BASE + 0x1000)]
    ensures RequestOk(s, t, 0x5000, mmapStart)
    ensures t.startVa < U64 && FarNodes(t, s.regions) && AllNonEmpty(s.regions) && PageUp(0x2000) == 0x2000
    ensures Missed(s.regions, 0x5000, 0x2000) && Mappable(t, n, 0x5000) && PageOf(0x5000) == 5
    ensures WalkOf(s.words, t)(0x5000).Mapped? && PageOfRequest(0x5000, 0x2000, 0x5000)
  {
    SpaceFrames(s, t, n);
    hide Shape, Backed, Walk;
    assert s.regions[1].base <= 0x5000 < s.regions[1].End();
    assert InRegion(s.regions[1], 0x5000);
  }

  /** A page that was mapped already gets another frame. */
  lemma OtherFrame(s: Space, u: Space, t: Tables, n: nat, address: nat, length: nat, flags: nat, a: nat)
    requires Sound(s, t, n) && MappedThere(s, u, t, address, length, flags)
    requires PageOfRequest(address, length, a) && WalkOf(s.words, t)(a).Mapped?
    ensures WalkOf(u.words, t)(a).Mapped? && WalkOf(u.words, t)(a).frame != WalkOf(s.words, t)(a).frame
  {
    hide Shape, SoundRegions, Walk, FreePage, PageOf;
    assert HandedOut(s.frames, WalkOf(s.words, t)(a).frame);
  }

  // ----- whole runs

  datatype Call = Call(address: nat, length: nat, prot: nat, spare: nat)

  function UserFlags(prot: nat): nat { BitOr(PermToPt(prot), PT_USER) }

  type Requester = (Space, Call) -> (Space, Result)

  /** `sys_mmap_user` with `MAP_FIXED`. */
  function UserRequest(t: Tables, mmapStart: nat): Requester {
    (s: Space, c: Call) =>
      if RequestOk(s, t, c.address, mmapStart)
      then Request(s, t, c.address, c.length, UserFlags(c.prot), true, c.spare, mmapStart)
      else (s, Failed)
  }

  lemma UserRequestIs(s: Space, t: Tables, c: Call, mmapStart: nat)
    requires RequestOk(s, t, c.address, mmapStart)
    ensures UserRequest(t, mmapStart)(s, c)
         == Request(s, t, c.address, c.length, UserFlags(c.prot), true, c.spare, mmapStart)
  {
  }

  /** What user pages with this protection translate to, apart from the frame. */
  function UserAttributes(prot: nat): Attributes {
    Attributes(true, ReadOnly(prot), false, false, true, false)
  }

  lemma UserFlagsGive(prot: nat)
    ensures UserFlags(prot) < 0x1000 && AttributesFor(UserFlags(prot)) == UserAttributes(prot)
  {
    PermBits(prot, PT_USER);
  }

  predicate AllowedCall(s: Space, t: Tables, n: nat, c: Call) {
    Ascends(s, t, n, c.address, c.length, c.spare)
  }

  predicate PageOfCall(c: Call, a: nat) {
    PageOf(c.address) <= PageOf(a) < PageOf(c.address) + PageUp(c.length) / 0x1000
  }

  /** Every page that is mapped in `s` translates the same in `u`. */
  ghost predicate Survives(before: Translate, after: Translate) {
    forall a: nat | before(a).Mapped? :: after(a) == before(a)
  }

  /** The pages of the call are mapped as it asked. */
  ghost predicate Served(tr: Translate, c: Call) {
    forall a: nat | PageOfCall(c, a) :: tr(a).Mapped? && tr(a).attributes == UserAttributes(c.prot)
  }

  lemma MapsSurvives(before: Translate, after: Translate, t: Tables, n: nat, rs: seq<Region>, address: nat, k: nat,
                     attributes: Attributes)
    requires Layout(t, n) && t.startVa % 0x20_0000 == 0 && SoundRegions(before, t, n, rs)
    requires Mappable(t, n, address) && Above(rs, address) && Maps(before, after, PageOf(address), k, attributes)
    ensures Survives(before, after)
  {
    forall a: nat | before(a).Mapped? ensures after(a) == before(a) {
      var _ := EarlierPage(before, t, n, rs, address, a);
    }
  }

  /** What one call does. */
  ghost predicate CallServed(s: Space, u: Space, r: Result, t: Tables, n: nat, c: Call) {
    && r == Returned(c.address) && Sound(u, t, n)
    && Survives(WalkOf(s.words, t), WalkOf(u.words, t)) && Served(WalkOf(u.words, t), c)
    && s.regions != [] && u.mapped && u.regions == Extended(s, c.address, c.length, c.spare)
    && u.frames.available == s.frames.available - PageUp(c.length) / 0x1000
    && TakenFrom(s.frames, u.frames, WalkOf(u.words, t), PageOf(c.address), PageUp(c.length) / 0x1000)
  }

  lemma OneCall(t: Tables, n: nat, s: Space, c: Call, mmapStart: nat)
    requires Sound(s, t, n) && AllowedCall(s, t, n, c) && mmapStart < U64
    ensures var (u, r) := UserRequest(t, mmapStart)(s, c); CallServed(s, u, r, t, n, c)
  {
    UserFlagsGive(c.prot);
    RequestIsSound(s, t, n, c.address, c.length, UserFlags(c.prot), c.spare, mmapStart);
    UserRequestIs(s, t, c, mmapStart);
    var u := Request(s, t, c.address, c.length, UserFlags(c.prot), true, c.spare, mmapStart).0;
    MapsSurvives(WalkOf(s.words, t), WalkOf(u.words, t), t, n, InUse(s.mapped, s.regions), c.address,
                 PageUp(c.length) / 0x1000, UserAttributes(c.prot));
  }

  /** The spaces between the calls of a run, each call allowed where it is made: in the window,
      at or above the end of the last region, with frames left. */
  ghost predicate AscendingRun(call: Requester, t: Tables, n: nat, ss: seq<Space>, cs: seq<Call>) {
    && |ss| == |cs| + 1
    && forall i | 0 <= i < |cs| :: AllowedCall(ss[i], t, n, cs[i]) && ss[i + 1] == call(ss[i], cs[i]).0
  }

  lemma SurvivesFurther(x: Translate, y: Translate, z: Translate)
    requires Survives(x, y) && Survives(y, z)
    ensures Survives(x, z)
  {
  }

  lemma ServedFurther(x: Translate, y: Translate, c: Call)
    requires Served(x, c) && Survives(x, y)
    ensures Served(y, c)
  {
  }

  ghost predicate GoodCalls(call: Requester, t: Tables, n: nat) {
    forall s: Space, c: Call | Sound(s, t, n) && AllowedCall(s, t, n, c) ::
      CallServed(s, call(s, c).0, call(s, c).1, t, n, c)
  }

  lemma OneGood(call: Requester, t: Tables, n: nat, s: Space, c: Call)
    requires GoodCalls(call, t, n) && Sound(s, t, n) && AllowedCall(s, t, n, c)
    ensures CallServed(s, call(s, c).0, call(s, c).1, t, n, c)
  {
  }

  lemma RunStep(call: Requester, t: Tables, n: nat, ss: seq<Space>, cs: seq<Call>, i: nat)
    requires GoodCalls(call, t, n) && AscendingRun(call, t, n, ss, cs) && i < |cs| && Sound(ss[i], t, n)
    ensures Sound(ss[i + 1], t, n) && Survives(WalkOf(ss[i].words, t), WalkOf(ss[i + 1].words, t))
    ensures Served(WalkOf(ss[i + 1].words, t), cs[i]) && call(ss[i], cs[i]).1 == Returned(cs[i].address)
  {
    hide Sound, Survives, Served, WalkOf, Extended;
    OneGood(call, t, n, ss[i], cs[i]);
  }

  /** What holds of a run after its first `k` calls. */
  ghost predicate RunGood(t: Tables, n: nat, ss: seq<Space>, cs: seq<Call>, k: nat)
    requires k < |ss| && k <= |cs|
  {
    && Sound(ss[k], t, n)
    && (forall i | 0 <= i <= k :: Survives(WalkOf(ss[i].words, t), WalkOf(ss[k].words, t)))
    && (forall i | 0 <= i < k :: Served(WalkOf(ss[k].words, t), cs[i]))
  }

  lemma RunGoodNext(t: Tables, n: nat, ss: seq<Space>, cs: seq<Call>, k: nat)
    requires k + 1 < |ss| && k < |cs| && RunGood(t, n, ss, cs, k) && Sound(ss[k + 1], t, n)
    requires Survives(WalkOf(ss[k].words, t), WalkOf(ss[k + 1].words, t)) && Served(WalkOf(ss[k + 1].words, t), cs[k])
    ensures RunGood(t, n, ss, cs, k + 1)
  {
    hide Sound, Survives, Served, WalkOf;
    var last := WalkOf(ss[k + 1].words, t);
    forall i | 0 <= i <= k + 1 ensures Survives(WalkOf(ss[i].words, t), last) {
      if i <= k {
        SurvivesFurther(WalkOf(ss[i].words, t), WalkOf(ss[k].words, t), last);
      } else {
        SurvivesItself(last);
      }
    }
    forall i | 0 <= i < k ensures Served(last, cs[i]) {
      ServedFurther(WalkOf(ss[k].words, t), last, cs[i]);
    }
  }

  lemma SurvivesItself(x: Translate)
    ensures Survives(x, x)
  {
  }

  lemma {:induction false} RunIsSound(call: Requester, t: Tables, n: nat, ss: seq<Space>, cs: seq<Call>, k: nat)
    requires |ss| == |cs| + 1 && GoodCalls(call, t, n) && AscendingRun(call, t, n, ss, cs) && Sound(ss[0], t, n)
    requires k <= |cs|
    ensures RunGood(t, n, ss, cs, k)
    decreases k
  {
    hide Sound, Survives, Served, WalkOf, GoodCalls, AscendingRun;
    if k > 0 {
      RunIsSound(call, t, n, ss, cs, k - 1);
      RunStep(call, t, n, ss, cs, k - 1);
      RunGoodNext(t, n, ss, cs, k - 1);
    } else {
      SurvivesItself(WalkOf(ss[0].words, t));
    }
  }

  lemma EverySpaceSound(call: Requester, t: Tables, n: nat, ss: seq<Space>, cs: seq<Call>, i: nat)
    requires |ss| == |cs| + 1 && GoodCalls(call, t, n) && AscendingRun(call, t, n, ss, cs) && Sound(ss[0], t, n)
    requires i <= |cs|
    ensures Sound(ss[i], t, n)
  {
    hide Sound, Survives, Served, WalkOf, GoodCalls, AscendingRun;
    RunIsSound(call, t, n, ss, cs, i);
  }

  /** After any run of ascending fixed requests, from any sound space: every call has returned
      its address, every page of every call is mapped with the attributes of its protection,
      each to a frame of its own that is neither free nor a table, the region list is in
      order (both part of `Sound`), and all translations of earlier spaces still hold. */
  lemma UserRunIsSound(t: Tables, n: nat, mmapStart: nat, ss: seq<Space>, cs: seq<Call>)
    requires mmapStart < U64 && AscendingRun(UserRequest(t, mmapStart), t, n, ss, cs) && Sound(ss[0], t, n)
    ensures var last := ss[|cs|];
            && Sound(last, t, n)
            && (forall i | 0 <= i <= |cs| :: Survives(WalkOf(ss[i].words, t), WalkOf(last.words, t)))
            && (forall i | 0 <= i < |cs| ::
                  UserRequest(t, mmapStart)(ss[i], cs[i]).1 == Returned(cs[i].address)
                      && Served(WalkOf(last.words, t), cs[i]))
  {
    hide Sound, Survives, Served, WalkOf, UserRequest, CallServed, AllowedCall;
    forall s: Space, c: Call | Sound(s, t, n) && AllowedCall(s, t, n, c)
      ensures CallServed(s, UserRequest(t, mmapStart)(s, c).0, UserRequest(t, mmapStart)(s, c).1, t, n, c)
    {
      OneCall(t, n, s, c, mmapStart);
    }
    RunIsSound(UserRequest(t, mmapStart), t, n, ss, cs, |cs|);
    forall i | 0 <= i < |cs| ensures UserRequest(t, mmapStart)(ss[i], cs[i]).1 == Returned(cs[i].address) {
      EverySpaceSound(UserRequest(t, mmapStart), t, n, ss, cs, i);
      RunStep(UserRequest(t, mmapStart), t, n, ss, cs, i);
    }
  }

  /** What `Sound` says of two pages that are mapped. */
  lemma SoundPagesDistinct(s: Space, t: Tables, n: nat, a: nat, b: nat)
    requires Sound(s, t, n) && Walk(s.words, t.pgd, a).Mapped? && Walk(s.words, t.pgd, b).Mapped?
             && PageOf(a) != PageOf(b)
    ensures Walk(s.words, t.pgd, a).frame != Walk(s.words, t.pgd, b).frame
    ensures !IsTable(t, n, Walk(s.words, t.pgd, a).frame)
  {
    assert Both(a, b);
    assert WalkOf(s.words, t)(a) == Walk(s.words, t.pgd, a) && WalkOf(s.words, t)(b) == Walk(s.words, t.pgd, b);
  }
}
