/** `load_executable` of execve.c: the segments of a program in memory of their own, and then its
    stack; and what a program that starts there reads through its own page tables. */
module Loader {
  import opened Arithmetic
  import opened Bits
  import opened Descriptors
  import opened FrameAllocator
  import opened PageTables
  import opened PageMap
  import opened Regions
  import opened Mmap
  import opened ByteMemory
  import opened ProcessMemory
  import opened ProcessStack
  import UserTables

  /** A loadable segment: the bytes that the file has for it, and the node that the kernel heap
      gives for its region. */
  datatype Segment = Segment(vaddr: nat, memsz: nat, prot: nat, file: seq<byte>, spare: nat) {
    function Base(): nat { PageDown(vaddr) }
  }

  /** A process while it is loaded. */
  datatype Process = Process(space: Space, bytes: Memory) {
    function Translates(t: Tables): Translate { WalkOf(space.words, t) }
  }

  datatype Loading = OutOfMemory | Crashes | Loaded(process: Process)

  /** While it is loaded, every segment is writable. */
  function CallOf(g: Segment): Call { Call(g.Base(), PageUp(g.memsz), BitOr(g.prot, PROT_W), g.spare) }

  const STACK_BASE: nat := 0x7F_F000
  const STACK_SIZE: nat := 0x4000

  function StackCall(spare: nat): Call { Call(STACK_BASE - STACK_SIZE, STACK_SIZE, PROT_RW, spare) }

  /** `sys_mmap_user` with `MAP_FIXED`. */
  function MapFixed(t: Tables, s: Space, c: Call): (r: (Space, Result))
    ensures r.1.Returned? ==> r.1.va < U64
    ensures r == UserRequest(t, 0)(s, c)
  {
    if RequestOk(s, t, c.address, 0) then Request(s, t, c.address, c.length, UserFlags(c.prot), true, c.spare, 0)
    else (s, Failed)
  }

  /** `copy_to_user`, which copies nothing if the kernel cannot write at the first address. */
  function CopyToUser(m: Memory, tr: Translate, to: nat, bytes: seq<byte>): Memory {
    if tr(to).Mapped? && !tr(to).attributes.readOnly then StoreAllThrough(m, tr, Copy(to, bytes)) else m
  }

  /** Nothing is copied to a first page that is not mapped or read-only. */
  lemma NothingCopied(m: Memory, tr: Translate, to: nat, bytes: seq<byte>)
    requires tr(to).Fault? || tr(to).attributes.readOnly
    ensures CopyToUser(m, tr, to, bytes) == m
  {
  }

  /** What `get_physical_address` makes of the register that the walk leaves; its attribute fields,
      here zero, do not matter. */
  function Found(tr: Translate, va: nat): nat { PhysicalAddress(PackPar(tr(va), 0, 0), va) }

  /** One turn of the loop: the pages, the bytes of the file, and the protection asked for, which
      is set for one page. */
  function LoadSegment(p: Process, t: Tables, g: Segment): Loading
    requires t.startVa < U64
  {
    match MapFixed(t, p.space, CallOf(g))
    case (_, Failed) => OutOfMemory
    case (_, Crashed) => Crashes
    case (u, Returned(address)) =>
      if address == 0 then OutOfMemory
      else
        var bytes := CopyToUser(p.bytes, WalkOf(u.words, t), g.Base(), g.file);
        match MapPage(u.words, t, address, Found(WalkOf(u.words, t), address), UserFlags(g.prot), false)
        case Crash => Crashes
        case Done(w) => Loaded(Process(u.(words := w), bytes))
  }

  function LoadSegments(p: Process, t: Tables, gs: seq<Segment>): Loading
    requires t.startVa < U64
  {
    if gs == [] then Loaded(p)
    else
      match LoadSegments(p, t, gs[..|gs| - 1])
      case OutOfMemory => OutOfMemory
      case Crashes => Crashes
      case Loaded(q) => LoadSegment(q, t, gs[|gs| - 1])
  }

  /** The request for the stack: the code looks for a zero, which `sys_mmap_user` does not return
      when it fails. */
  function LoadStack(p: Process, t: Tables, spare: nat): Loading {
    match MapFixed(t, p.space, StackCall(spare))
    case (_, Crashed) => Crashes
    case (u, Failed) => Loaded(p.(space := u))
    case (u, Returned(address)) => if address == 0 then OutOfMemory else Loaded(p.(space := u))
  }

  /** The request is for the four pages from 0x7F_B000 on, to be read and written. */
  lemma StackCallIs(spare: nat)
    ensures var c := StackCall(spare);
            && c.address == 0x7F_B000 && c.length == 0x4000 && c.spare == spare
            && UserAttributes(c.prot) == Attributes(true, false, false, false, true, false)
            && forall a: nat | a < 0x100_0000 :: PageOfCall(c, a) <==> 0x7F_B000 <= a < 0x7F_F000
  {
    assert PageUp(0x4000) == 0x4000;
  }

  /** What a turn asks for: from the page of the segment's address on, its size in whole pages, and
      permission to write besides. */
  lemma CallOfIs(g: Segment)
    requires g.memsz + 0xFFF < U64
    ensures var c := CallOf(g);
            && c.address == g.vaddr / 0x1000 * 0x1000 && c.length == (g.memsz + 0xFFF) / 0x1000 * 0x1000
            && c.spare == g.spare && Bit(c.prot, 2) && Bit(c.prot, 1) == Bit(g.prot, 1)
            && Bit(c.prot, 4) == Bit(g.prot, 4)
  {
    SmallPowers();
    OrBit(g.prot, 2, 0, 1);
    OrBit(g.prot, 2, 1, 2);
    OrBit(g.prot, 2, 2, 4);
  }

  /** A request that is refused, or answered with a null address, ends the loading; so do crashes. */
  lemma SegmentFailsIff(p: Process, t: Tables, g: Segment)
    requires t.startVa < U64
    ensures var r := MapFixed(t, p.space, CallOf(g)).1;
            && (LoadSegment(p, t, g) == OutOfMemory <==> r == Failed || r == Returned(0))
            && (r == Crashed ==> LoadSegment(p, t, g) == Crashes)
            && (LoadSegment(p, t, g) == Crashes ==> r == Crashed || (r.Returned? && Far(t, r.va)))
  {
    hide MapFixed, CopyToUser, Found;
    if r: Result :| r == MapFixed(t, p.space, CallOf(g)).1 && r.Returned? && r.va != 0 {
      var u := MapFixed(t, p.space, CallOf(g)).0;
      CrashesIff(u.words, t, r.va, Found(WalkOf(u.words, t), r.va), UserFlags(g.prot), false);
    }
  }

  // ----- one segment

  /** Where the last-level tables end. */
  function Top(n: nat): nat { n * 0x20_0000 }

  /** A process whose space is sound, with tables from address zero on. */
  ghost predicate SoundProcess(p: Process, t: Tables, n: nat) {
    Sound(p.space, t, n) && t.startVa == 0
  }

  /** The segment is in order above the earlier ones and can be backed, and its file bytes fit. */
  predicate Loadable(p: Process, t: Tables, n: nat, g: Segment) {
    AllowedCall(p.space, t, n, CallOf(g)) && |g.file| <= g.memsz && g.memsz + 0xFFF < U64 && 0 < g.Base()
  }

  /** `q` translates and holds what `p` does. */
  ghost predicate Keeps(p: Process, q: Process, t: Tables, n: nat) {
    forall a: nat | a < Top(n) && p.Translates(t)(a).Mapped? ::
      q.Translates(t)(a) == p.Translates(t)(a)
          && Fetch(q.bytes, q.Translates(t), a) == Fetch(p.bytes, p.Translates(t), a)
  }

  predicate PageOfSegment(g: Segment, a: nat) { PageOfCall(CallOf(g), a) }

  /** The protection that is left: what was asked for on the first page, and writable on the rest. */
  function LeftOn(g: Segment, a: nat): nat { if PageOf(a) == PageOf(g.Base()) then g.prot else BitOr(g.prot, PROT_W) }

  ghost predicate FileByteIn(q: Process, t: Tables, n: nat, g: Segment, j: nat)
    requires j < |g.file|
  {
    && g.Base() + j < Top(n) && PageOfSegment(g, g.Base() + j)
    && Fetch(q.bytes, q.Translates(t), g.Base() + j) == g.file[j]
  }

  /** The pages of the segment lie in the window, and the file has no more bytes than the segment. */
  predicate FitsWindow(g: Segment, n: nat) {
    && 0 < PageUp(g.memsz) && g.Base() + PageUp(g.memsz) <= Top(n) <= 0x4000_0000
    && |g.file| <= g.memsz && g.memsz + 0xFFF < U64
  }

  /** The bytes of the file lie from the start of the first page on, and all pages are mapped. */
  ghost predicate SegmentIn(q: Process, t: Tables, n: nat, g: Segment) {
    && FitsWindow(g, n) && (forall j: nat | j < |g.file| :: FileByteIn(q, t, n, g, j))
    && forall a: nat | a < Top(n) && PageOfSegment(g, a) ::
         q.Translates(t)(a).Mapped? && q.Translates(t)(a).attributes == UserAttributes(LeftOn(g, a))
  }

  lemma KeepsFurther(p: Process, q: Process, r: Process, t: Tables, n: nat)
    requires Keeps(p, q, t, n) && Keeps(q, r, t, n)
    ensures Keeps(p, r, t, n)
  {
  }

  lemma SegmentStays(p: Process, q: Process, t: Tables, n: nat, g: Segment)
    requires SegmentIn(p, t, n, g) && Keeps(p, q, t, n)
    ensures SegmentIn(q, t, n, g)
  {
    hide PageOfSegment, Fetch, UserAttributes, LeftOn;
    forall j: nat | j < |g.file| ensures FileByteIn(q, t, n, g, j) {
      assert FileByteIn(p, t, n, g, j);
    }
  }

  lemma LowWindow(t: Tables, n: nat)
    requires Layout(t, n) && t.startVa == 0
    ensures n <= 512 && Top(n) <= 0x4000_0000
  {
  }

  lemma UpTwice(x: nat)
    requires x + 0xFFF < U64
    ensures PageUp(PageUp(x)) == PageUp(x)
  {
    var r := PageUp(x);
    assert x + 0xFFF < 0x1_0000_0000_0000_0000 && r <= x + 0xFFF;
    assert r + 0xFFF < U64 by {
      assert 0xFFFF_FFFF_FFFF_F000 == U64 - 0x1000;
      assert r % 0x1000 == 0 && r < U64;
      assert r <= U64 - 0x1000;
    }
    DivUnique(r + 0xFFF, 0x1000, r / 0x1000, 0xFFF);
  }

  lemma PageOfOffset(base: nat, size: nat, j: nat)
    requires base % 0x1000 == 0 && size % 0x1000 == 0 && j < size && base + size <= 0x4000_0000
    ensures PageOf(base) <= PageOf(base + j) < PageOf(base) + size / 0x1000
    ensures PageOf(base + j) == PageOf(base) + j / 0x1000
  {
    DivUnique(base + j, 0x1000, base / 0x1000 + j / 0x1000, j % 0x1000);
  }

  /** The bytes of the file lie in pages of the segment. */
  lemma FileInside(p: Process, t: Tables, n: nat, g: Segment, j: nat)
    requires SoundProcess(p, t, n) && Loadable(p, t, n, g) && j < |g.file|
    ensures g.Base() + j < Top(n) && PageOfSegment(g, g.Base() + j)
  {
    SegmentBounds(p, t, n, g);
    hide Sound, AllowedCall, PageOf;
    UpTwice(g.memsz);
    PageOfOffset(g.Base(), PageUp(g.memsz), j);
  }

  lemma SegmentBounds(p: Process, t: Tables, n: nat, g: Segment)
    requires SoundProcess(p, t, n) && Loadable(p, t, n, g)
    ensures g.Base() + PageUp(g.memsz) <= Top(n) <= 0x4000_0000 && 0 < PageUp(g.memsz) && |g.file| <= PageUp(g.memsz)
  {
    hide Shape, Backed, SoundRegions;
    LowWindow(t, n);
    UpTwice(g.memsz);
  }

  /** `sys_mmap_user` serves the segment. */
  lemma SegmentMapped(p: Process, t: Tables, n: nat, c: Call)
    requires SoundProcess(p, t, n) && AllowedCall(p.space, t, n, c)
    ensures var (u, r) := MapFixed(t, p.space, c); CallServed(p.space, u, r, t, n, c)
  {
    hide Sound, AllowedCall, CallServed, UserRequest;
    OneCall(t, n, p.space, c, 0);
  }

  lemma WithWriteIsWritable(prot: nat)
    ensures !ReadOnly(BitOr(prot, PROT_W))
  {
    assert Pow2(1) == 2;
    OrBit(prot, PROT_W, 1, 2);
  }

  /** The bytes of the file go where the process sees them. */
  lemma CopyLands(m: Memory, tr: Translate, top: nat, to: nat, bytes: seq<byte>)
    requires NoSharing(tr) && to + |bytes| <= top <= 0x1_0000_0000_0000
    requires tr(to).Mapped? && !tr(to).attributes.readOnly && forall a: nat | to <= a < to + |bytes| :: tr(a).Mapped?
    ensures var s := View(m, tr, top);
            View(CopyToUser(m, tr, to, bytes), tr, top) == s[..to] + bytes + s[to + |bytes|..]
  {
    hide NoSharing, View;
    CopyStores(View(m, tr, top), to, bytes);
    StoresRefine(m, tr, top, Copy(to, bytes));
  }

  /** Mapping a page again where it is: the same frame, with new attributes. */
  ghost predicate Reattributed(before: Translate, after: Translate, va: nat, attributes: Attributes) {
    forall a: nat ::
      after(a) == if PageOf(a) == PageOf(va) && before(a).Mapped? then Mapped(before(a).frame, attributes)
                  else before(a)
  }

  lemma BackedStays(before: Translate, after: Translate, f: Frames, t: Tables, n: nat, va: nat, attributes: Attributes)
    requires Backed(before, f, t, n) && Reattributed(before, after, va, attributes)
    ensures Backed(after, f, t, n)
  {
    forall a: nat, b: nat | Both(a, b) && after(a).Mapped? && after(b).Mapped? && after(a).frame == after(b).frame
      ensures PageOf(a) == PageOf(b)
    {
      assert before(a).Mapped? && before(b).Mapped?;
    }
  }

  lemma RegionsStay(before: Translate, after: Translate, t: Tables, n: nat, rs: seq<Region>, va: nat,
                    attributes: Attributes)
    requires SoundRegions(before, t, n, rs) && Reattributed(before, after, va, attributes)
    ensures SoundRegions(after, t, n, rs)
  {
    hide InRegion, RegionFits, Ascending;
  }

  /** All addresses of a page translate alike. */
  lemma SamePageSame(m: Words, t: Tables, a: nat, b: nat)
    requires PageOf(a) == PageOf(b)
    ensures WalkOf(m, t)(a) == WalkOf(m, t)(b)
  {
    SamePage(a, b);
  }

  lemma FoundIs(tr: Translate, f: Frames, t: Tables, n: nat, va: nat)
    requires Backed(tr, f, t, n) && tr(va).Mapped? && va % 0x1000 == 0
    ensures Field36(Found(tr, va)) == tr(va).frame
  {
    assert HandedOut(f, tr(va).frame);
    PhysicalAddressIs(tr(va), 0, 0, va);
    Parts(0, tr(va).frame, 0);
  }

  /** Setting the protection of one page. */
  lemma Reprotects(u: Space, t: Tables, n: nat, va: nat, prot: nat)
    requires Sound(u, t, n) && va < U64 && Mappable(t, n, va) && va % 0x1000 == 0 && WalkOf(u.words, t)(va).Mapped?
    ensures var r := MapPage(u.words, t, va, Found(WalkOf(u.words, t), va), UserFlags(prot), false);
            && r.Done? && Sound(u.(words := r.words), t, n)
            && Reattributed(WalkOf(u.words, t), WalkOf(r.words, t), va, UserAttributes(prot))
  {
    hide Shape, Found, UserFlags, UserAttributes, SoundRegions, Backed, MapPage, Walk, PageOf;
    var tr := WalkOf(u.words, t);
    UserFlagsGive(prot);
    FoundIs(tr, u.frames, t, n, va);
    MapPageRefines(u.words, t, n, va, Found(tr, va), UserFlags(prot), false);
    var r := MapPage(u.words, t, va, Found(tr, va), UserFlags(prot), false);
    forall a: nat | PageOf(a) == PageOf(va) ensures tr(a) == tr(va) {
      SamePageSame(u.words, t, a, va);
    }
    assert Requested(Found(tr, va), UserFlags(prot), false) == Mapped(tr(va).frame, UserAttributes(prot));
    BackedStays(tr, WalkOf(r.words, t), u.frames, t, n, va, UserAttributes(prot));
    RegionsStay(tr, WalkOf(r.words, t), t, n, InUse(u.mapped, u.regions), va, UserAttributes(prot));
  }

  lemma FetchStays(m: Memory, before: Translate, after: Translate, va: nat, attributes: Attributes, a: nat)
    requires Reattributed(before, after, va, attributes)
    ensures Fetch(m, after, a) == Fetch(m, before, a)
  {
  }

  lemma FirstPage(c: Call)
    requires c.address < 0x1_0000_0000_0000 && 0 < PageUp(c.length)
    ensures PageOfCall(c, c.address)
  {
  }

  /** What is mapped before a request that ascends lies below it. */
  lemma EarlierBelow(p: Process, t: Tables, n: nat, c: Call, a: nat)
    requires SoundProcess(p, t, n) && AllowedCall(p.space, t, n, c) && a < Top(n) && p.Translates(t)(a).Mapped?
    requires c.address % 0x1000 == 0
    ensures a < c.address && PageOf(a) < PageOf(c.address)
  {
    AllowedAbove(p, t, n, c);
    hide Sound, AllowedCall, SoundRegions, Layout, Above, Mappable, Walk, PageOf;
    var _ := EarlierPage(p.Translates(t), t, n, InUse(p.space.mapped, p.space.regions), c.address, a);
    LowerPage(a, c.address);
  }

  lemma AllowedAbove(p: Process, t: Tables, n: nat, c: Call)
    requires SoundProcess(p, t, n) && AllowedCall(p.space, t, n, c)
    ensures Layout(t, n) && t.startVa % 0x20_0000 == 0 && c.address < Top(n) <= 0x4000_0000
    ensures SoundRegions(p.Translates(t), t, n, InUse(p.space.mapped, p.space.regions))
    ensures Mappable(t, n, c.address) && Above(InUse(p.space.mapped, p.space.regions), c.address)
  {
    hide SoundRegions, Shape, Backed, PageUp;
    LowWindow(t, n);
  }

  lemma LowerPage(a: nat, b: nat)
    requires a < 0x4000_0000 && b < 0x4000_0000 && b % 0x1000 == 0
    ensures PageOf(a) < PageOf(b) ==> a < b
  {
  }

  /** After the copy, and before the protection is set. */
  ghost predicate Copied(p: Process, q: Process, t: Tables, n: nat, g: Segment) {
    && (forall j: nat | j < |g.file| :: FileByteIn(q, t, n, g, j))
    && Keeps(p, q, t, n) && Served(q.Translates(t), CallOf(g))
  }

  lemma PagesMapped(p: Process, t: Tables, n: nat, g: Segment, tr: Translate)
    requires SoundProcess(p, t, n) && Loadable(p, t, n, g) && Served(tr, CallOf(g))
    ensures g.Base() < Top(n) && g.Base() + |g.file| <= Top(n)
    ensures tr(g.Base()).Mapped? && !tr(g.Base()).attributes.readOnly
    ensures forall a: nat | g.Base() <= a < g.Base() + |g.file| :: tr(a).Mapped?
  {
    hide Sound, Served, UserAttributes;
    LowWindow(t, n) by { ProcessLayout(p, t, n); }
    WithWriteIsWritable(g.prot);
    UpTwice(g.memsz);
    FirstPage(CallOf(g));
    ServedPage(tr, CallOf(g), g.Base());
    forall a: nat | g.Base() <= a < g.Base() + |g.file| ensures tr(a).Mapped? {
      FileInside(p, t, n, g, a - g.Base());
      ServedPage(tr, CallOf(g), a);
    }
    if g.file != [] {
      FileInside(p, t, n, g, |g.file| - 1);
    }
  }

  lemma ProcessLayout(p: Process, t: Tables, n: nat)
    requires SoundProcess(p, t, n)
    ensures Layout(t, n) && t.startVa == 0 && NoSharing(p.Translates(t))
  {
  }

  lemma ServedPage(tr: Translate, c: Call, a: nat)
    requires Served(tr, c) && PageOfCall(c, a)
    ensures tr(a).Mapped? && tr(a).attributes.readOnly == ReadOnly(c.prot)
  {
  }

  lemma FileCopied(p: Process, t: Tables, n: nat, g: Segment, u: Space)
    requires SoundProcess(p, t, n) && Loadable(p, t, n, g) && Sound(u, t, n)
    requires Survives(p.Translates(t), WalkOf(u.words, t)) && Served(WalkOf(u.words, t), CallOf(g))
    ensures Copied(p, Process(u, CopyToUser(p.bytes, WalkOf(u.words, t), g.Base(), g.file)), t, n, g)
  {
    hide Sound, Served, AllowedCall, PageOfSegment, CopyToUser, Fetch, NoSharing;
    var tr := WalkOf(u.words, t);
    var q := Process(u, CopyToUser(p.bytes, tr, g.Base(), g.file));
    PagesMapped(p, t, n, g, tr);
    ProcessLayout(q, t, n);
    LowWindow(t, n);
    CopyLands(p.bytes, tr, Top(n), g.Base(), g.file);
    var s := View(p.bytes, tr, Top(n));
    assert View(q.bytes, tr, Top(n)) == s[..g.Base()] + g.file + s[g.Base() + |g.file|..];
    forall j: nat | j < |g.file| ensures FileByteIn(q, t, n, g, j) {
      FileInside(p, t, n, g, j);
      assert View(q.bytes, tr, Top(n))[g.Base() + j] == g.file[j];
    }
    forall a: nat | a < Top(n) && p.Translates(t)(a).Mapped?
      ensures tr(a) == p.Translates(t)(a) && Fetch(q.bytes, tr, a) == Fetch(p.bytes, p.Translates(t), a)
    {
      EarlierBelow(p, t, n, CallOf(g), a);
      assert View(q.bytes, tr, Top(n))[a] == s[a];
      SameFetch(p.bytes, p.Translates(t), tr, a);
    }
  }

  lemma SameFetch(m: Memory, tr: Translate, after: Translate, a: nat)
    requires tr(a) == after(a)
    ensures Fetch(m, tr, a) == Fetch(m, after, a)
  {
  }

  /** What one turn leaves. */
  ghost predicate SegmentDone(p: Process, q: Process, t: Tables, n: nat, g: Segment) {
    SoundProcess(q, t, n) && SegmentIn(q, t, n, g) && Keeps(p, q, t, n)
  }

  lemma {:induction false} Protected(p: Process, q: Process, w: Words, t: Tables, n: nat, g: Segment)
    requires SoundProcess(p, t, n) && Loadable(p, t, n, g) && Copied(p, q, t, n, g)
    requires Sound(q.space.(words := w), t, n)
    requires Reattributed(q.Translates(t), WalkOf(w, t), g.Base(), UserAttributes(g.prot))
    ensures SegmentDone(p, Process(q.space.(words := w), q.bytes), t, n, g)
  {
    hide SoundProcess, Loadable, Sound, Fetch, PageUp, PageDown, PageOf, Walk;
    SegmentBounds(p, t, n, g);
    FileFits(p, t, n, g);
    var u := Process(q.space.(words := w), q.bytes);
    forall a: nat ensures Fetch(u.bytes, u.Translates(t), a) == Fetch(q.bytes, q.Translates(t), a) {
      FetchStays(q.bytes, q.Translates(t), u.Translates(t), g.Base(), UserAttributes(g.prot), a);
    }
    forall j: nat | j < |g.file| ensures FileByteIn(u, t, n, g, j) {
      assert FileByteIn(q, t, n, g, j);
    }
    forall a: nat | a < Top(n) && p.Translates(t)(a).Mapped?
      ensures u.Translates(t)(a) == p.Translates(t)(a)
    {
      SegmentAbove(p, t, n, g, a);
    }
    TablesLow(p, q, w, t, n);
  }

  lemma FileFits(p: Process, t: Tables, n: nat, g: Segment)
    requires SoundProcess(p, t, n) && Loadable(p, t, n, g)
    ensures |g.file| <= g.memsz && g.memsz + 0xFFF < U64
  {
  }

  lemma SegmentAbove(p: Process, t: Tables, n: nat, g: Segment, a: nat)
    requires SoundProcess(p, t, n) && Loadable(p, t, n, g) && a < Top(n) && p.Translates(t)(a).Mapped?
    ensures a < g.Base() && PageOf(a) < PageOf(g.Base())
  {
    EarlierBelow(p, t, n, CallOf(g), a);
  }

  lemma TablesLow(p: Process, q: Process, w: Words, t: Tables, n: nat)
    requires SoundProcess(p, t, n) && Sound(q.space.(words := w), t, n)
    ensures SoundProcess(Process(q.space.(words := w), q.bytes), t, n)
  {
  }

  /** The two steps of a turn: `u` is the space after the request, `w` its words after the
      protection is set. */
  ghost predicate Steps(p: Process, t: Tables, n: nat, g: Segment, u: Space, w: Words)
    requires t.startVa < U64
  {
    && CallServed(p.space, u, Returned(g.Base()), t, n, CallOf(g))
    && LoadSegment(p, t, g)
       == Loaded(Process(u.(words := w), CopyToUser(p.bytes, WalkOf(u.words, t), g.Base(), g.file)))
    && Sound(u.(words := w), t, n)
    && Reattributed(WalkOf(u.words, t), WalkOf(w, t), g.Base(), UserAttributes(g.prot))
  }

  lemma TurnSteps(p: Process, t: Tables, n: nat, g: Segment) returns (u: Space, w: Words)
    requires SoundProcess(p, t, n) && Loadable(p, t, n, g) && t.startVa < U64
    ensures Steps(p, t, n, g, u, w)
  {
    hide Sound, AllowedCall, Served, Survives, CopyToUser, Found, MapPage, MapFixed, UserFlags, PageUp, PageDown,
         TakenFrom;
    SegmentMapped(p, t, n, CallOf(g));
    u := MapFixed(t, p.space, CallOf(g)).0;
    PagesMapped(p, t, n, g, WalkOf(u.words, t));
    BaseMappable(p, t, n, g);
    Reprotects(u, t, n, g.Base(), g.prot);
    w := MapPage(u.words, t, g.Base(), Found(WalkOf(u.words, t), g.Base()), UserFlags(g.prot), false).words;
  }

  /** One turn puts the segment in place and keeps everything that was there. */
  lemma OneSegment(p: Process, t: Tables, n: nat, g: Segment)
    requires SoundProcess(p, t, n) && Loadable(p, t, n, g)
    ensures var r := LoadSegment(p, t, g); r.Loaded? && SegmentDone(p, r.process, t, n, g)
  {
    hide Sound, AllowedCall, Served, Survives, Copied, CopyToUser, LoadSegment, PageUp, PageDown, TakenFrom, Extended;
    var u, w := TurnSteps(p, t, n, g);
    FileCopied(p, t, n, g, u);
    Protected(p, Process(u, CopyToUser(p.bytes, WalkOf(u.words, t), g.Base(), g.file)), w, t, n, g);
  }

  // ----- what the pages of a segment hold behind the file's bytes

  /** The space after the turn: one region more, and its frames are taken from the free ones. */
  ghost predicate SpaceTaken(p: Process, q: Process, t: Tables, g: Segment) {
    && p.space.regions != [] && q.space.mapped
    && q.space.regions == Extended(p.space, g.Base(), PageUp(g.memsz), g.spare)
    && q.space.frames.available == p.space.frames.available - PageUp(g.memsz) / 0x1000
    && TakenFrom(p.space.frames, q.space.frames, q.Translates(t), PageOf(g.Base()), PageUp(g.memsz) / 0x1000)
  }

  /** Behind the bytes of the file a segment holds what memory held there; and free frames hold
      what they held. */
  ghost predicate HeldBehind(p: Process, q: Process, t: Tables, n: nat, g: Segment) {
    && q.space.frames.Shaped() && g.Base() + PageUp(g.memsz) <= Top(n)
    && (forall a: nat | g.Base() + |g.file| <= a < g.Base() + PageUp(g.memsz) ::
          q.Translates(t)(a).Mapped?
          && Fetch(q.bytes, q.Translates(t), a) == ByteAt(p.bytes, Physical(q.Translates(t), a)))
    && (forall x: nat | FreePage(q.space.frames, x / 0x1000) :: ByteAt(q.bytes, x) == ByteAt(p.bytes, x))
  }

  lemma TakenAlike(f: Frames, h: Frames, before: Translate, after: Translate, va: nat, attributes: Attributes,
                   first: nat, k: nat)
    requires TakenFrom(f, h, before, first, k) && Reattributed(before, after, va, attributes)
    ensures TakenFrom(f, h, after, first, k)
  {
    hide FreePage;
  }

  /** The addresses of a segment are those of its pages. */
  lemma AddressInPages(p: Process, t: Tables, n: nat, g: Segment, a: nat)
    requires SoundProcess(p, t, n) && Loadable(p, t, n, g) && g.Base() <= a < g.Base() + PageUp(g.memsz)
    ensures a < Top(n) && PageOfCall(CallOf(g), a)
  {
    SegmentBounds(p, t, n, g);
    hide Sound, AllowedCall, PageOf;
    UpTwice(g.memsz);
    PageOfOffset(g.Base(), PageUp(g.memsz), a - g.Base());
  }

  lemma CopyHolds(p: Process, t: Tables, n: nat, g: Segment, u: Space, a: nat)
    requires SoundProcess(p, t, n) && Loadable(p, t, n, g) && Sound(u, t, n) && Served(WalkOf(u.words, t), CallOf(g))
    requires g.Base() + |g.file| <= a < g.Base() + PageUp(g.memsz)
    ensures var tr := WalkOf(u.words, t);
            a < Top(n) && tr(a).Mapped?
            && Fetch(CopyToUser(p.bytes, tr, g.Base(), g.file), tr, a) == ByteAt(p.bytes, Physical(tr, a))
  {
    hide Sound, Served, Loadable, CopyToUser, NoSharing, PageUp, PageDown, PageOf;
    var tr := WalkOf(u.words, t);
    PagesMapped(p, t, n, g, tr);
    ProcessLayout(Process(u, p.bytes), t, n);
    LowWindow(t, n);
    AddressInPages(p, t, n, g, a);
    ServedPage(tr, CallOf(g), a);
    CopyLands(p.bytes, tr, Top(n), g.Base(), g.file);
    var s, m := View(p.bytes, tr, Top(n)), CopyToUser(p.bytes, tr, g.Base(), g.file);
    assert View(m, tr, Top(n))[a] == s[a];
  }

  lemma CopyMissesFree(p: Process, t: Tables, n: nat, g: Segment, u: Space, x: nat)
    requires SoundProcess(p, t, n) && Loadable(p, t, n, g) && Sound(u, t, n) && Served(WalkOf(u.words, t), CallOf(g))
    requires u.frames.Shaped() && FreePage(u.frames, x / 0x1000)
    ensures ByteAt(CopyToUser(p.bytes, WalkOf(u.words, t), g.Base(), g.file), x) == ByteAt(p.bytes, x)
  {
    var tr := WalkOf(u.words, t);
    PagesMapped(p, t, n, g, tr);
    hide SoundProcess, Loadable, Served, NoSharing, PageUp, PageDown, Shape, SoundRegions, Walk, ByteAt, FreePage;
    StoresMissTables(p.bytes, tr, u.frames, t, n, Copy(g.Base(), g.file), x);
  }

  /** What the frames of a segment have held is still there behind its file's bytes. */
  lemma SegmentHolds(p: Process, t: Tables, n: nat, g: Segment)
    requires SoundProcess(p, t, n) && Loadable(p, t, n, g)
    ensures var r := LoadSegment(p, t, g);
            r.Loaded? && SpaceTaken(p, r.process, t, g) && HeldBehind(p, r.process, t, n, g)
  {
    hide Sound, AllowedCall, Served, Survives, CopyToUser, LoadSegment, PageDown, TakenFrom, Extended, Fetch, ByteAt,
         FreePage, Walk, PageOf, UserAttributes;
    var u, w := TurnSteps(p, t, n, g);
    var before, after := WalkOf(u.words, t), WalkOf(w, t);
    var q := LoadSegment(p, t, g).process;
    SegmentBounds(p, t, n, g);
    UpTwice(g.memsz);
    TakenAlike(p.space.frames, u.frames, before, after, g.Base(), UserAttributes(g.prot), PageOf(g.Base()),
               PageUp(g.memsz) / 0x1000);
    SpaceShaped(u, t, n);
    forall a: nat | g.Base() + |g.file| <= a < g.Base() + PageUp(g.memsz)
      ensures after(a).Mapped? && Fetch(q.bytes, after, a) == ByteAt(p.bytes, Physical(after, a))
    {
      CopyHolds(p, t, n, g, u, a);
      FetchStays(q.bytes, before, after, g.Base(), UserAttributes(g.prot), a);
    }
    forall x: nat | FreePage(u.frames, x / 0x1000) ensures ByteAt(q.bytes, x) == ByteAt(p.bytes, x) {
      CopyMissesFree(p, t, n, g, u, x);
    }
  }

  lemma SpaceShaped(u: Space, t: Tables, n: nat)
    requires Sound(u, t, n)
    ensures u.frames.Shaped()
  {
  }

  lemma BaseMappable(p: Process, t: Tables, n: nat, g: Segment)
    requires SoundProcess(p, t, n) && Loadable(p, t, n, g)
    ensures g.Base() < U64 && Mappable(t, n, g.Base()) && g.Base() % 0x1000 == 0 && t.startVa < U64
  {
    LowWindow(t, n);
  }

  /** Free frames hold zeros, as memory does that was never written. */
  ghost predicate Clean(p: Process) {
    p.space.frames.Shaped() && forall x: nat | FreePage(p.space.frames, x / 0x1000) :: ByteAt(p.bytes, x) == 0
  }

  /** Behind the bytes of the file the pages of the segment hold zeros. */
  ghost predicate ZeroFilled(q: Process, t: Tables, n: nat, g: Segment) {
    && g.Base() + PageUp(g.memsz) <= Top(n)
    && forall a: nat | g.Base() + |g.file| <= a < g.Base() + PageUp(g.memsz) ::
         q.Translates(t)(a).Mapped? && Fetch(q.bytes, q.Translates(t), a) == 0
  }

  lemma FrameOf(tr: Translate, a: nat)
    requires tr(a).Mapped?
    ensures Physical(tr, a) / 0x1000 == tr(a).frame
  {
    DivUnique(Physical(tr, a), 0x1000, tr(a).frame, a % 0x1000);
  }

  lemma CleanFills(p: Process, q: Process, t: Tables, n: nat, g: Segment)
    requires SoundProcess(p, t, n) && Loadable(p, t, n, g) && Clean(p)
    requires SpaceTaken(p, q, t, g) && HeldBehind(p, q, t, n, g)
    ensures Clean(q) && ZeroFilled(q, t, n, g)
  {
    hide SoundProcess, AllowedCall, Fetch, ByteAt, Physical, Walk, PageOf, PageUp, PageDown, Extended, FreePage;
    forall x: nat | FreePage(q.space.frames, x / 0x1000) ensures ByteAt(q.bytes, x) == 0 {
      assert FreePage(p.space.frames, x / 0x1000);
    }
    forall a: nat | g.Base() + |g.file| <= a < g.Base() + PageUp(g.memsz)
      ensures Fetch(q.bytes, q.Translates(t), a) == 0
    {
      AddressInPages(p, t, n, g, a);
      SegmentPages(g, a, p, t, n);
      FrameOf(q.Translates(t), a);
      assert FreePage(p.space.frames, q.Translates(t)(a).frame);
    }
  }

  lemma SegmentPages(g: Segment, a: nat, p: Process, t: Tables, n: nat)
    requires SoundProcess(p, t, n) && Loadable(p, t, n, g) && PageOfCall(CallOf(g), a)
    ensures PageOf(g.Base()) <= PageOf(a) < PageOf(g.Base()) + PageUp(g.memsz) / 0x1000
  {
    UpTwice(g.memsz);
  }

  lemma ZeroStays(p: Process, q: Process, t: Tables, n: nat, g: Segment)
    requires ZeroFilled(p, t, n, g) && Keeps(p, q, t, n)
    ensures ZeroFilled(q, t, n, g)
  {
    hide Fetch, PageUp, PageDown, Walk;
  }

  // ----- what the loop does not do

  /** `q` is what one turn makes of `p`. */
  ghost predicate JustLoaded(p: Process, q: Process, t: Tables, n: nat, g: Segment) {
    && SoundProcess(p, t, n) && Loadable(p, t, n, g) && SoundProcess(q, t, n)
    && SegmentIn(q, t, n, g) && SpaceTaken(p, q, t, g) && HeldBehind(p, q, t, n, g)
  }

  lemma Loads(p: Process, t: Tables, n: nat, g: Segment) returns (q: Process)
    requires SoundProcess(p, t, n) && Loadable(p, t, n, g)
    ensures LoadSegment(p, t, g) == Loaded(q) && JustLoaded(p, q, t, n, g)
  {
    hide Sound, AllowedCall, LoadSegment, SegmentIn, SpaceTaken, HeldBehind, Keeps;
    OneSegment(p, t, n, g);
    SegmentHolds(p, t, n, g);
    q := LoadSegment(p, t, g).process;
  }

  lemma JustBounds(p: Process, q: Process, t: Tables, n: nat, g: Segment)
    requires JustLoaded(p, q, t, n, g)
    ensures g.Base() + PageUp(g.memsz) <= Top(n) <= 0x4000_0000 && |g.file| <= g.memsz <= PageUp(g.memsz)
    ensures 0x1000 <= PageUp(g.memsz) && 0 < g.memsz && (g.Base() + PageUp(g.memsz)) % 0x1000 == 0
  {
    hide SegmentIn, SpaceTaken, HeldBehind;
    SegmentBounds(p, t, n, g);
  }

  lemma JustParts(p: Process, q: Process, t: Tables, n: nat, g: Segment)
    requires JustLoaded(p, q, t, n, g)
    ensures SoundProcess(p, t, n) && Loadable(p, t, n, g) && SoundProcess(q, t, n)
    ensures p.space.regions != [] && q.space.mapped
    ensures q.space.regions == Extended(p.space, g.Base(), PageUp(g.memsz), g.spare)
  {
    hide SoundProcess, Loadable, SegmentIn, HeldBehind, Extended;
  }

  /** Each page of the segment is mapped, with the protection that is left. */
  lemma JustMapped(p: Process, q: Process, t: Tables, n: nat, g: Segment, a: nat)
    requires JustLoaded(p, q, t, n, g) && g.Base() <= a < g.Base() + PageUp(g.memsz)
    ensures q.Translates(t)(a).Mapped? && q.Translates(t)(a).attributes == UserAttributes(LeftOn(g, a))
  {
    hide SpaceTaken, HeldBehind, PageUp, PageDown, UserAttributes, LeftOn, Walk;
    AddressInPages(p, t, n, g, a);
  }

  lemma RegionAt(q: Process, t: Tables, n: nat, a: nat) returns (i: nat)
    requires SoundProcess(q, t, n) && q.space.mapped && q.Translates(t)(a).Mapped?
    ensures i < |q.space.regions| && InRegion(q.space.regions[i], a) && q.space.regions[i].size % 0x1000 == 0
  {
    hide Shape, Backed, InRegion, Walk;
    i :| 0 <= i < |q.space.regions| && InRegion(q.space.regions[i], a);
  }

  /** Behind the last page of a segment nothing is mapped, when it has just been loaded. */
  lemma NothingBehind(p: Process, q: Process, t: Tables, n: nat, g: Segment, a: nat)
    requires JustLoaded(p, q, t, n, g) && g.Base() + PageUp(g.memsz) <= a < 0x1_0000_0000_0000
    ensures !q.Translates(t)(a).Mapped?
  {
    hide JustLoaded, SoundProcess, Loadable, PageDown, PageUp, Walk, InRegion, Extended, WalkOf;
    JustBounds(p, q, t, n, g);
    JustParts(p, q, t, n, g);
    if q.Translates(t)(a).Mapped? {
      var i := RegionAt(q, t, n, a);
      RegionBelow(p, t, n, g, q.space.regions, i);
      NotInRegion(t, n, q.space.regions[i], g.Base() + PageUp(g.memsz), a);
    }
  }

  lemma RegionBelow(p: Process, t: Tables, n: nat, g: Segment, rs: seq<Region>, i: nat)
    requires SoundProcess(p, t, n) && Loadable(p, t, n, g) && p.space.regions != []
    requires rs == Extended(p.space, g.Base(), PageUp(g.memsz), g.spare) && i < |rs|
    ensures rs[i].base + rs[i].size <= g.Base() + PageUp(g.memsz)
  {
    hide Shape, Backed, RegionsMapped, PageDown;
    UpTwice(g.memsz);
    if i < |rs| - 1 {
      AllBelow(InUse(p.space.mapped, p.space.regions), g.Base());
    }
  }

  lemma NotInRegion(t: Tables, n: nat, r: Region, end: nat, a: nat)
    requires r.size % 0x1000 == 0 && r.base + r.size <= end <= 0x4000_0000 && end % 0x1000 == 0
    requires end <= a < 0x1_0000_0000_0000
    ensures !InRegion(r, a)
  {
    DivUnique(r.base + r.size, 0x1000, r.base / 0x1000 + r.size / 0x1000, r.base % 0x1000);
    assert (r.base + r.size) / 0x1000 <= end / 0x1000 <= a / 0x1000;
  }

  /** All pages have the protection asked for exactly if there is only one, or it is not read-only:
      the others stay writable. */
  lemma ProtectionIff(q: Process, t: Tables, n: nat, g: Segment)
    requires SegmentIn(q, t, n, g)
    ensures (forall a: nat | a < Top(n) && PageOfSegment(g, a) ::
               q.Translates(t)(a).Mapped? && q.Translates(t)(a).attributes == UserAttributes(g.prot))
        <==> PageUp(g.memsz) <= 0x1000 || !ReadOnly(g.prot)
  {
    hide PageUp, PageDown, Fetch;
    UpTwice(g.memsz);
    WithWriteIsWritable(g.prot);
    var size := PageUp(g.memsz);
    assert size % 0x1000 == 0 && g.Base() % 0x1000 == 0;
    if size <= 0x1000 {
      assert size / 0x1000 <= 1;
    } else if ReadOnly(g.prot) {
      var a := g.Base() + 0x1000;
      PageOfOffset(g.Base(), size, 0x1000);
      assert PageOfSegment(g, a) && LeftOn(g, a) == BitOr(g.prot, PROT_W);
    }
  }

  /** Where the segment starts in its first page. */
  function Offset(g: Segment): (o: nat)
    ensures o < 0x1000 && g.vaddr == g.Base() + o
  {
    g.vaddr % 0x1000
  }

  /** All addresses of the segment, which the rounding leaves mapped only if its offset in the page
      leaves room. */
  lemma AllMappedIff(p: Process, t: Tables, n: nat, g: Segment)
    requires SoundProcess(p, t, n) && Loadable(p, t, n, g)
    ensures LoadSegment(p, t, g).Loaded?
    ensures (forall a: nat | g.vaddr <= a < g.vaddr + g.memsz :: LoadSegment(p, t, g).process.Translates(t)(a).Mapped?)
        <==> Offset(g) + g.memsz <= PageUp(g.memsz)
  {
    hide JustLoaded, LoadSegment, SoundProcess, Loadable, Walk, PageUp, PageDown;
    var q := Loads(p, t, n, g);
    JustBounds(p, q, t, n, g);
    if Offset(g) + g.memsz <= PageUp(g.memsz) {
      forall a: nat | g.vaddr <= a < g.vaddr + g.memsz ensures q.Translates(t)(a).Mapped? {
        JustMapped(p, q, t, n, g, a);
      }
    } else {
      NothingBehind(p, q, t, n, g, g.vaddr + g.memsz - 1);
    }
  }

  /** The bytes of the file are where the program expects them. */
  ghost predicate AtVaddr(q: Process, t: Tables, g: Segment) {
    forall j: nat | j < |g.file| :: IsAt(q, t, g, j)
  }

  ghost predicate IsAt(q: Process, t: Tables, g: Segment, j: nat)
    requires j < |g.file|
  {
    q.Translates(t)(g.vaddr + j).Mapped? && Fetch(q.bytes, q.Translates(t), g.vaddr + j) == g.file[j]
  }

  /** What the segment holds at byte `i` of its pages: the file, and behind it what memory held. */
  ghost function Held(p: Process, q: Process, t: Tables, g: Segment, i: nat): byte {
    var a := g.Base() + i;
    if i < |g.file| then g.file[i]
    else if q.Translates(t)(a).Mapped? then ByteAt(p.bytes, Physical(q.Translates(t), a)) else 0
  }

  lemma FileFetched(p: Process, q: Process, t: Tables, n: nat, g: Segment, i: nat)
    requires JustLoaded(p, q, t, n, g) && i < |g.file|
    ensures Fetch(q.bytes, q.Translates(t), g.Base() + i) == g.file[i]
  {
    hide SoundProcess, Loadable, SpaceTaken, HeldBehind, PageOfSegment, UserAttributes, LeftOn, Fetch, PageDown;
    assert FileByteIn(q, t, n, g, i);
  }

  lemma HeldFetched(p: Process, q: Process, t: Tables, n: nat, g: Segment, i: nat)
    requires JustLoaded(p, q, t, n, g) && |g.file| <= i < PageUp(g.memsz)
    ensures q.Translates(t)(g.Base() + i).Mapped?
    ensures Fetch(q.bytes, q.Translates(t), g.Base() + i) == ByteAt(p.bytes, Physical(q.Translates(t), g.Base() + i))
  {
    hide SoundProcess, Loadable, SpaceTaken, SegmentIn, Fetch, ByteAt, Physical, FreePage, PageDown, PageUp, Walk;
  }

  lemma FetchIsHeld(p: Process, q: Process, t: Tables, n: nat, g: Segment, i: nat)
    requires JustLoaded(p, q, t, n, g) && i < PageUp(g.memsz)
    ensures q.Translates(t)(g.Base() + i).Mapped?
    ensures Fetch(q.bytes, q.Translates(t), g.Base() + i) == Held(p, q, t, g, i)
  {
    hide JustLoaded, Fetch, ByteAt, Physical, PageUp, PageDown, Walk, UserAttributes;
    JustMapped(p, q, t, n, g, g.Base() + i);
    if i < |g.file| {
      FileFetched(p, q, t, n, g, i);
    } else {
      HeldFetched(p, q, t, n, g, i);
    }
  }

  /** Byte `j` of the file is at its address exactly if that is mapped and holds, this far behind
      it, the same. */
  lemma IsAtIff(p: Process, q: Process, t: Tables, n: nat, g: Segment, j: nat)
    requires JustLoaded(p, q, t, n, g) && j < |g.file|
    ensures IsAt(q, t, g, j) <==> Offset(g) + j < PageUp(g.memsz) && Held(p, q, t, g, Offset(g) + j) == g.file[j]
  {
    hide JustLoaded, WalkOf, PageUp, PageDown, Fetch, Held;
    JustBounds(p, q, t, n, g);
    var i := Offset(g) + j;
    assert g.vaddr + j == g.Base() + i;
    if i < PageUp(g.memsz) {
      FetchIsHeld(p, q, t, n, g, i);
    } else {
      NothingBehind(p, q, t, n, g, g.Base() + i);
    }
  }

  /** The pages have room for the file's bytes at their addresses, and what they hold, these bytes
      and what memory held behind them, repeats itself at the offset in the page. */
  ghost predicate Repeats(p: Process, q: Process, t: Tables, g: Segment) {
    && Offset(g) + |g.file| <= PageUp(g.memsz)
    && forall j: nat | j < |g.file| :: Held(p, q, t, g, j + Offset(g)) == Held(p, q, t, g, j)
  }

  /** The bytes of a segment that has just been loaded are where the program expects them exactly
      if it starts at a page, or happens to repeat itself. */
  lemma AtVaddrIff(p: Process, t: Tables, n: nat, g: Segment)
    requires SoundProcess(p, t, n) && Loadable(p, t, n, g)
    ensures var r := LoadSegment(p, t, g);
            r.Loaded? && (AtVaddr(r.process, t, g) <==> Offset(g) == 0 || Repeats(p, r.process, t, g))
  {
    hide LoadSegment, JustLoaded, SoundProcess, Loadable, PageUp, PageDown, AtVaddr, Repeats;
    var q := Loads(p, t, n, g);
    if Offset(g) == 0 {
      AlignedAtVaddr(p, q, t, n, g);
    } else {
      RepeatsAtVaddr(p, q, t, n, g);
    }
  }

  lemma AlignedAtVaddr(p: Process, q: Process, t: Tables, n: nat, g: Segment)
    requires JustLoaded(p, q, t, n, g) && Offset(g) == 0
    ensures AtVaddr(q, t, g)
  {
    hide JustLoaded, WalkOf, PageUp, PageDown, IsAt, Held;
    JustBounds(p, q, t, n, g);
    forall j: nat | j < |g.file| ensures IsAt(q, t, g, j) {
      IsAtIff(p, q, t, n, g, j);
      FileIsHeld(p, q, t, g, j);
    }
  }

  lemma RepeatsAtVaddr(p: Process, q: Process, t: Tables, n: nat, g: Segment)
    requires JustLoaded(p, q, t, n, g)
    ensures AtVaddr(q, t, g) <==> Repeats(p, q, t, g)
  {
    hide JustLoaded, WalkOf, PageUp, PageDown, IsAt, Held;
    JustBounds(p, q, t, n, g);
    forall j: nat | j < |g.file|
      ensures IsAt(q, t, g, j) <==>
                j + Offset(g) < PageUp(g.memsz) && Held(p, q, t, g, j + Offset(g)) == Held(p, q, t, g, j)
    {
      IsAtIff(p, q, t, n, g, j);
      FileIsHeld(p, q, t, g, j);
    }
    if AtVaddr(q, t, g) {
      if g.file != [] {
        IsAtIff(p, q, t, n, g, |g.file| - 1);
        assert IsAt(q, t, g, |g.file| - 1);
      }
      forall j: nat | j < |g.file| ensures Held(p, q, t, g, j + Offset(g)) == Held(p, q, t, g, j) {
        assert IsAt(q, t, g, j);
      }
      assert Repeats(p, q, t, g);
    }
    if Repeats(p, q, t, g) {
      forall j: nat | j < |g.file| ensures IsAt(q, t, g, j) {
        assert Held(p, q, t, g, j + Offset(g)) == Held(p, q, t, g, j);
      }
      assert AtVaddr(q, t, g);
    }
  }

  lemma FileIsHeld(p: Process, q: Process, t: Tables, g: Segment, j: nat)
    requires j < |g.file|
    ensures Held(p, q, t, g, j) == g.file[j]
  {
  }

  /** Where free memory holds zeros: exactly if it starts at a page, or there is room and the file
      has nothing but zeros. */
  lemma AtVaddrCleanIff(p: Process, t: Tables, n: nat, g: Segment)
    requires SoundProcess(p, t, n) && Loadable(p, t, n, g) && Clean(p)
    ensures var r := LoadSegment(p, t, g);
            r.Loaded? &&
            (AtVaddr(r.process, t, g) <==>
               Offset(g) == 0
               || (Offset(g) + |g.file| <= PageUp(g.memsz) && forall j: nat | j < |g.file| :: g.file[j] == 0))
  {
    hide LoadSegment, JustLoaded, SoundProcess, Loadable, PageUp, PageDown, AtVaddr, Held, Clean;
    AtVaddrIff(p, t, n, g);
    var q := Loads(p, t, n, g);
    var o := Offset(g);
    if o > 0 && o + |g.file| <= PageUp(g.memsz) {
      var held: nat -> byte := (i: nat) => if i < |g.file| then g.file[i] else 0;
      forall i: nat | i < o + |g.file| ensures Held(p, q, t, g, i) == held(i) {
        HeldClean(p, q, t, n, g, i);
      }
      if Repeats(p, q, t, g) {
        forall j: nat | j < |g.file| ensures g.file[j] == 0 {
          assert forall i: nat | i < |g.file| :: Held(p, q, t, g, i + o) == Held(p, q, t, g, i);
          RepeatsZero(held, |g.file|, o, j);
        }
      }
    }
  }

  lemma HeldClean(p: Process, q: Process, t: Tables, n: nat, g: Segment, i: nat)
    requires JustLoaded(p, q, t, n, g) && Clean(p) && i < PageUp(g.memsz)
    ensures Held(p, q, t, g, i) == if i < |g.file| then g.file[i] else 0
  {
    JustMapped(p, q, t, n, g, g.Base() + i);
    CleanFills(p, q, t, n, g);
    hide SegmentIn, Loadable, SoundProcess, PageUp, PageDown, SpaceTaken, ByteAt, Physical, Walk, Fetch;
  }

  /** A sequence that repeats itself at the distance `o` and ends in zeros is zero. */
  lemma {:induction false} RepeatsZero(f: nat -> byte, size: nat, o: nat, j: nat)
    requires o > 0 && j < size + o
    requires forall i: nat | i < size :: f(i) == f(i + o)
    requires forall i: nat | size <= i < size + o :: f(i) == 0
    ensures f(j) == 0
    decreases size + o - j
  {
    if j < size {
      RepeatsZero(f, size, o, j + o);
    }
  }

  /** A first segment can be loaded into a process that has nothing else. */
  lemma FirstLoadable(p: Process, t: Tables, n: nat, g: Segment)
    requires SoundProcess(p, t, n) && !p.space.mapped && 0 < g.spare < U64 && 0 < g.Base() && |g.file| <= g.memsz
    requires 0 < g.memsz && g.Base() + PageUp(g.memsz) <= Top(n) && g.memsz + 0xFFF < U64
    requires PageUp(g.memsz) / 0x1000 <= p.space.frames.available
    ensures Loadable(p, t, n, g)
  {
    ProcessLayout(p, t, n);
    LowWindow(t, n);
    UpTwice(g.memsz);
  }

  /** Code that starts one byte into a page and fills two pages, as the first segment of a process.
      What goes wrong with it: its first byte is not found, its second page can be written, and
      its last byte is not mapped. */
  lemma TwoPagesGoWrong(p: Process, t: Tables, n: nat, spare: nat)
    requires SoundProcess(p, t, n) && n > 0 && !p.space.mapped && p.space.frames.available >= 2 && 0 < spare < U64
    ensures var g := Segment(0x1_0001, 0x2000, 5, [1, 2], spare);
            && LoadSegment(p, t, g).Loaded?
            && var tr := LoadSegment(p, t, g).process.Translates(t);
               && !IsAt(LoadSegment(p, t, g).process, t, g, 0)
               && tr(0x1_1000).Mapped? && !tr(0x1_1000).attributes.readOnly && !tr(g.vaddr + g.memsz - 1).Mapped?
  {
    hide LoadSegment, SoundProcess, JustLoaded, Loadable, WalkOf, Held, UserAttributes, PageUp, PageDown, LeftOn;
    var g := Segment(0x1_0001, 0x2000, 5, [1, 2], spare);
    ByteIntoPage(spare);
    FirstLoadable(p, t, n, g);
    var q := Loads(p, t, n, g);
    IsAtIff(p, q, t, n, g, 0);
    FileIsHeld(p, q, t, g, 1);
    JustMapped(p, q, t, n, g, 0x1_1000);
    StaysWritable(g, 0x1_1000);
    NothingBehind(p, q, t, n, g, 0x1_2000);
  }

  lemma ByteIntoPage(spare: nat)
    ensures var g := Segment(0x1_0001, 0x2000, 5, [1, 2], spare);
            g.Base() == 0x1_0000 && Offset(g) == 1 && PageUp(g.memsz) == 0x2000 && PageOf(0x1_1000) != PageOf(g.Base())
  {
  }

  lemma StaysWritable(g: Segment, a: nat)
    requires PageOf(a) != PageOf(g.Base())
    ensures !UserAttributes(LeftOn(g, a)).readOnly
  {
    WithWriteIsWritable(g.prot);
  }

  // ----- all segments

  /** Each segment can be loaded where the loop comes to it. */
  ghost predicate AllLoadable(p: Process, t: Tables, n: nat, gs: seq<Segment>)
    requires t.startVa < U64
  {
    gs != [] ==>
      && AllLoadable(p, t, n, gs[..|gs| - 1])
      && var r := LoadSegments(p, t, gs[..|gs| - 1]); r.Loaded? ==> Loadable(r.process, t, n, gs[|gs| - 1])
  }

  ghost predicate AllIn(q: Process, t: Tables, n: nat, gs: seq<Segment>) {
    forall i | 0 <= i < |gs| :: SegmentIn(q, t, n, gs[i])
  }

  lemma OneMoreIn(p: Process, q: Process, t: Tables, n: nat, gs: seq<Segment>, g: Segment)
    requires AllIn(p, t, n, gs) && SegmentDone(p, q, t, n, g)
    ensures AllIn(q, t, n, gs + [g])
  {
    hide SegmentIn, Keeps, SoundProcess;
    forall i | 0 <= i < |gs| ensures SegmentIn(q, t, n, gs[i]) {
      SegmentStays(p, q, t, n, gs[i]);
    }
  }

  ghost predicate AllZeroFilled(q: Process, t: Tables, n: nat, gs: seq<Segment>) {
    forall i | 0 <= i < |gs| :: ZeroFilled(q, t, n, gs[i])
  }

  /** What holds after the turns for these segments. */
  ghost predicate AllDone(p: Process, r: Loading, t: Tables, n: nat, gs: seq<Segment>) {
    && r.Loaded? && SoundProcess(r.process, t, n) && AllIn(r.process, t, n, gs) && Keeps(p, r.process, t, n)
    && (Clean(p) ==> Clean(r.process) && AllZeroFilled(r.process, t, n, gs))
  }

  lemma OneMoreZeroFilled(p: Process, q: Process, t: Tables, n: nat, gs: seq<Segment>, g: Segment)
    requires AllZeroFilled(p, t, n, gs) && Keeps(p, q, t, n) && ZeroFilled(q, t, n, g)
    ensures AllZeroFilled(q, t, n, gs + [g])
  {
    hide ZeroFilled, Keeps;
    forall i | 0 <= i < |gs| ensures ZeroFilled(q, t, n, gs[i]) {
      ZeroStays(p, q, t, n, gs[i]);
    }
  }

  /** One more turn keeps free memory clean. */
  lemma OneMoreClean(q: Process, t: Tables, n: nat, gs: seq<Segment>, g: Segment)
    requires SoundProcess(q, t, n) && t.startVa < U64 && Loadable(q, t, n, g)
    requires Clean(q) && AllZeroFilled(q, t, n, gs)
    ensures var r := LoadSegment(q, t, g);
            r.Loaded? && Clean(r.process) && AllZeroFilled(r.process, t, n, gs + [g])
  {
    hide SoundProcess, Loadable, LoadSegment, Clean, AllZeroFilled, SpaceTaken, HeldBehind, SegmentIn, ZeroFilled,
         Keeps;
    OneSegment(q, t, n, g);
    SegmentHolds(q, t, n, g);
    var u := LoadSegment(q, t, g).process;
    CleanFills(q, u, t, n, g);
    OneMoreZeroFilled(q, u, t, n, gs, g);
  }

  lemma NoneYet(p: Process, t: Tables, n: nat)
    requires SoundProcess(p, t, n)
    ensures AllDone(p, Loaded(p), t, n, [])
  {
  }

  lemma OneMoreDone(p: Process, q: Process, t: Tables, n: nat, gs: seq<Segment>, g: Segment)
    requires AllDone(p, Loaded(q), t, n, gs) && t.startVa < U64 && Loadable(q, t, n, g)
    ensures AllDone(p, LoadSegment(q, t, g), t, n, gs + [g])
  {
    hide SoundProcess, AllIn, Keeps, SegmentIn, Loadable, LoadSegment, Clean, AllZeroFilled;
    OneSegment(q, t, n, g);
    if Clean(p) {
      OneMoreClean(q, t, n, gs, g);
    }
    var u := LoadSegment(q, t, g).process;
    OneMoreIn(q, u, t, n, gs, g);
    KeepsFurther(p, q, u, t, n);
  }

  /** The loop loads every segment, and later ones leave earlier ones alone. */
  lemma {:induction false} AllSegments(p: Process, t: Tables, n: nat, gs: seq<Segment>)
    requires SoundProcess(p, t, n) && t.startVa < U64 && AllLoadable(p, t, n, gs)
    ensures AllDone(p, LoadSegments(p, t, gs), t, n, gs)
  {
    hide SoundProcess, AllDone, Loadable, LoadSegment;
    if gs == [] {
      NoneYet(p, t, n);
    } else {
      var rest, last := gs[..|gs| - 1], gs[|gs| - 1];
      AllSegments(p, t, n, rest);
      var r := LoadSegments(p, t, rest);
      DoneIsLoaded(p, r, t, n, rest);
      OneMoreDone(p, r.process, t, n, rest, last);
      assert rest + [last] == gs;
    }
  }

  lemma DoneIsLoaded(p: Process, r: Loading, t: Tables, n: nat, gs: seq<Segment>)
    requires AllDone(p, r, t, n, gs)
    ensures r.Loaded?
  {
  }

  // ----- the stack

  predicate StackAllowed(p: Process, t: Tables, n: nat, spare: nat) {
    AllowedCall(p.space, t, n, StackCall(spare))
  }

  /** The stack is mapped, writable, and everything else kept. */
  lemma StackMapped(p: Process, t: Tables, n: nat, spare: nat)
    requires SoundProcess(p, t, n) && StackAllowed(p, t, n, spare)
    ensures var r := LoadStack(p, t, spare);
            && r.Loaded? && SoundProcess(r.process, t, n) && Keeps(p, r.process, t, n)
            && r.process.bytes == p.bytes && Served(r.process.Translates(t), StackCall(spare))
  {
    hide Sound, AllowedCall, Served, MapFixed, Fetch;
    SegmentMapped(p, t, n, StackCall(spare));
    var q := LoadStack(p, t, spare).process;
    forall a: nat | a < Top(n) && p.Translates(t)(a).Mapped?
      ensures Fetch(q.bytes, q.Translates(t), a) == Fetch(p.bytes, p.Translates(t), a)
    {
      SameFetch(p.bytes, p.Translates(t), q.Translates(t), a);
    }
  }

  /** What becomes of the request for the stack, wherever the segments lie, with a node from the
      kernel heap: nodes are out of reach of the process's tables, so that the kernel crashes
      if the search hits, and if there are no four frames; otherwise the stack is mapped. */
  lemma StackOutcome(p: Process, t: Tables, n: nat, spare: nat)
    requires SoundProcess(p, t, n) && STACK_BASE <= Top(n) && 0 < spare < U64
    requires t.startVa < U64 && FarNodes(t, p.space.regions) && (p.space.mapped ==> AllNonEmpty(p.space.regions))
    ensures var r := LoadStack(p, t, spare);
            && (r.Loaded? <==> 4 <= p.space.frames.available
                               && (p.space.mapped ==> Missed(p.space.regions, STACK_BASE - STACK_SIZE, STACK_SIZE)))
            && (r.Loaded? ==> Served(r.process.Translates(t), StackCall(spare)))
            && (!r.Loaded? ==> r == Crashes)
  {
    StackRequest(p, t, n);
    hide Sound, Request, MappedThere, FarNodes, Missed, Served, AllNonEmpty;
    var base, c := STACK_BASE - STACK_SIZE, StackCall(spare);
    UserFlagsGive(PROT_RW);
    if p.space.mapped {
      FixedOutcome(p.space, t, n, base, STACK_SIZE, UserFlags(PROT_RW), spare, 0);
      if 4 <= p.space.frames.available && Missed(p.space.regions, base, STACK_SIZE) {
        MappedServes(p.space, LoadStack(p, t, spare).process.space, t, c);
      }
    } else if 4 <= p.space.frames.available {
      FirstStack(p, t, n, spare);
    } else {
      FirstStackFails(p, t, n, spare);
    }
  }

  lemma StackRequest(p: Process, t: Tables, n: nat)
    requires SoundProcess(p, t, n) && STACK_BASE <= Top(n)
    ensures t.startVa < U64 && RequestOk(p.space, t, STACK_BASE - STACK_SIZE, 0)
    ensures Mappable(t, n, STACK_BASE - STACK_SIZE) && PageUp(STACK_SIZE) == STACK_SIZE
  {
    SpaceFrames(p.space, t, n);
  }

  lemma MappedServes(s: Space, u: Space, t: Tables, c: Call)
    requires MappedThere(s, u, t, c.address, c.length, UserFlags(c.prot))
    ensures Served(WalkOf(u.words, t), c)
  {
    hide TakenFrom, Survives, Walk, PageOf, AttributesFor;
    UserFlagsGive(c.prot);
  }

  /** The first request of a process. */
  lemma FirstStack(p: Process, t: Tables, n: nat, spare: nat)
    requires SoundProcess(p, t, n) && STACK_BASE <= Top(n) && 0 < spare < U64 && !p.space.mapped
    requires 4 <= p.space.frames.available
    ensures var r := LoadStack(p, t, spare); r.Loaded? && Served(r.process.Translates(t), StackCall(spare))
  {
    StackRequest(p, t, n);
    hide Sound, Served, LoadStack, Keeps;
    StackMapped(p, t, n, spare);
  }

  lemma FirstStackFails(p: Process, t: Tables, n: nat, spare: nat)
    requires SoundProcess(p, t, n) && STACK_BASE <= Top(n) && !p.space.mapped && p.space.frames.available < 4
    ensures LoadStack(p, t, spare) == Crashes
  {
    StackRequest(p, t, n);
    SpaceFrames(p.space, t, n);
    hide Sound, MapPages, TurnFor;
    LoopTakes(t, UserFlags(PROT_RW), p.space.words, p.space.frames, STACK_BASE - STACK_SIZE, 4);
    FirstIs(p.space, t, STACK_BASE - STACK_SIZE, STACK_SIZE, UserFlags(PROT_RW), true, spare, 0,
            STACK_BASE - STACK_SIZE,
            MapPages(TurnFor(t, UserFlags(PROT_RW)), p.space.words, p.space.frames, STACK_BASE - STACK_SIZE, 4));
  }

  /** The pages of the stack. */
  lemma StackPages(tr: Translate, spare: nat)
    requires Served(tr, StackCall(spare))
    ensures forall a: nat | STACK_BASE - STACK_SIZE <= a < STACK_BASE :: tr(a).Mapped?
  {
    hide Served;
    assert PageUp(STACK_SIZE) == STACK_SIZE;
    forall a: nat | STACK_BASE - STACK_SIZE <= a < STACK_BASE ensures tr(a).Mapped? {
      PageOfOffset(STACK_BASE - STACK_SIZE, STACK_SIZE, a - (STACK_BASE - STACK_SIZE));
      ServedPage(tr, StackCall(spare), a);
    }
  }

  // ----- the program starts

  /** What the program expects of a segment: the bytes of the file at their addresses, and behind
      them, where free memory was clean, zeros. */
  ghost predicate ImageHolds(image: seq<byte>, g: Segment, clean: bool) {
    && g.vaddr + g.memsz <= |image| && |g.file| <= g.memsz
    && image[g.vaddr..g.vaddr + |g.file|] == g.file
    && (clean ==> forall a: nat | g.vaddr + |g.file| <= a < g.vaddr + g.memsz :: image[a] == 0)
  }

  /** The process sees this of a segment that starts at a page. */
  lemma SegmentIsHeld(q: Process, t: Tables, n: nat, g: Segment, clean: bool)
    requires SegmentIn(q, t, n, g) && Offset(g) == 0 && (clean ==> ZeroFilled(q, t, n, g))
    ensures ImageHolds(View(q.bytes, q.Translates(t), Top(n)), g, clean)
  {
    hide Fetch, PageOfSegment, UserAttributes, LeftOn, PageDown, WalkOf;
    var image := View(q.bytes, q.Translates(t), Top(n));
    forall j: nat | j < |g.file| ensures g.Base() + j < |image| && image[g.Base() + j] == g.file[j] {
      assert FileByteIn(q, t, n, g, j);
    }
    assert image[g.vaddr..g.vaddr + |g.file|] == g.file;
  }

  ghost predicate BelowStack(g: Segment) { g.Base() + PageUp(g.memsz) <= STACK_BASE - STACK_SIZE }

  lemma LastByteMapped(q: Process, t: Tables, n: nat, g: Segment)
    requires SegmentIn(q, t, n, g)
    ensures 0 < PageUp(g.memsz) && g.Base() + PageUp(g.memsz) <= Top(n)
    ensures q.Translates(t)(g.Base() + (PageUp(g.memsz) - 1)).Mapped?
  {
    hide FileByteIn, UserAttributes, LeftOn, WalkOf, PageOf;
    UpTwice(g.memsz);
    PageOfOffset(g.Base(), PageUp(g.memsz), PageUp(g.memsz) - 1);
    assert PageOfSegment(g, g.Base() + (PageUp(g.memsz) - 1));
  }

  /** The segments lie below a stack that is in order above them. */
  lemma {:induction false} SegmentBelowStack(q: Process, t: Tables, n: nat, g: Segment, spare: nat)
    requires SoundProcess(q, t, n) && SegmentIn(q, t, n, g) && StackAllowed(q, t, n, spare)
    ensures BelowStack(g)
  {
    hide SoundProcess, AllowedCall, SegmentIn, PageDown, PageUp, WalkOf, PageOf;
    var last := g.Base() + (PageUp(g.memsz) - 1);
    LastByteMapped(q, t, n, g);
    StackAddress(spare);
    EarlierBelow(q, t, n, StackCall(spare), last);
  }

  lemma StackAddress(spare: nat)
    ensures StackCall(spare).address == STACK_BASE - STACK_SIZE && StackCall(spare).address % 0x1000 == 0
  {
  }

  /** What `create_new_process` leaves on the flat array. */
  ghost predicate StackWritten(image: seq<byte>, mem: seq<byte>, ctx: Context, args: seq<CString>, envs: seq<CString>) {
    Starts(image, mem, ctx, STACK_BASE, args, envs) && STACK_BASE - STACK_SIZE <= ctx.sp
  }

  /** Some stores inside the stack that lead from one array to the other. */
  ghost predicate Leads(ws: seq<ByteStore>, image: seq<byte>, mem: seq<byte>) {
    && (forall w | w in ws :: STACK_BASE - STACK_SIZE <= w.to < STACK_BASE)
    && StoresInside(ws, |image|) && StoreAll(image, ws) == mem
  }

  /** There are such stores. */
  lemma StoresExist(image: seq<byte>, mem: seq<byte>, ctx: Context, args: seq<CString>, envs: seq<CString>)
    requires StackWritten(image, mem, ctx, args, envs)
    ensures Leads(Copy(ctx.sp, mem[ctx.sp..STACK_BASE]), image, mem)
  {
    hide HoldsArray, ReadStrings, Total;
    assert ctx.sp <= STACK_BASE <= |mem| == |image|;
    CopyStores(image, ctx.sp, mem[ctx.sp..STACK_BASE]);
    assert image[..ctx.sp] + mem[ctx.sp..STACK_BASE] + image[STACK_BASE..] == mem;
  }

  /** The segments, and then the stack. */
  function LoadExecutable(p: Process, t: Tables, gs: seq<Segment>, spare: nat): Loading
    requires t.startVa < U64
  {
    match LoadSegments(p, t, gs)
    case OutOfMemory => OutOfMemory
    case Crashes => Crashes
    case Loaded(q) => LoadStack(q, t, spare)
  }

  lemma {:induction false} FailureStays(p: Process, t: Tables, gs: seq<Segment>, i: nat)
    requires t.startVa < U64 && i <= |gs| && !LoadSegments(p, t, gs[..i]).Loaded?
    ensures LoadSegments(p, t, gs) == LoadSegments(p, t, gs[..i])
    decreases |gs|
  {
    hide LoadSegment;
    if i == |gs| {
      assert gs[..i] == gs;
    } else {
      assert gs[..|gs| - 1][..i] == gs[..i];
      FailureStays(p, t, gs[..|gs| - 1], i);
    }
  }

  /** The loop over the program headers, which ends at the first segment that fails. */
  method LoadAll(p: Process, t: Tables, gs: seq<Segment>, spare: nat) returns (r: Loading)
    requires t.startVa < U64
    ensures r == LoadExecutable(p, t, gs, spare)
  {
    hide LoadSegment, LoadStack;
    var q := p;
    for i := 0 to |gs|
      invariant LoadSegments(p, t, gs[..i]) == Loaded(q)
    {
      assert gs[..i + 1][..i] == gs[..i] && gs[..i + 1][i] == gs[i];
      r := LoadSegment(q, t, gs[i]);
      if !r.Loaded? {
        FailureStays(p, t, gs, i + 1);
        return;
      }
      q := r.process;
    }
    assert gs[..|gs|] == gs;
    r := LoadStack(q, t, spare);
  }

  /** The segments can be loaded one after the other, and the stack above them. */
  ghost predicate ExecutableFits(p: Process, t: Tables, n: nat, gs: seq<Segment>, spare: nat) {
    && t.startVa < U64 && AllLoadable(p, t, n, gs)
    && (LoadSegments(p, t, gs).Loaded? ==> StackAllowed(LoadSegments(p, t, gs).process, t, n, spare))
  }

  /** Everything is in place: segments, and a stack above their bytes. */
  ghost predicate ExecutableIn(q: Process, t: Tables, n: nat, gs: seq<Segment>, spare: nat) {
    && SoundProcess(q, t, n) && AllIn(q, t, n, gs) && Served(q.Translates(t), StackCall(spare))
    && forall i | 0 <= i < |gs| :: BelowStack(gs[i])
  }

  lemma StackAdded(p: Process, q: Process, t: Tables, n: nat, gs: seq<Segment>, spare: nat)
    requires AllDone(p, Loaded(q), t, n, gs) && StackAllowed(q, t, n, spare)
    ensures var r := LoadStack(q, t, spare);
            && r.Loaded? && ExecutableIn(r.process, t, n, gs, spare) && Keeps(p, r.process, t, n)
            && (Clean(p) ==> AllZeroFilled(r.process, t, n, gs))
  {
    hide SoundProcess, SegmentIn, Keeps, Served, StackAllowed, LoadStack, BelowStack, Clean, ZeroFilled;
    StackMapped(q, t, n, spare);
    var u := LoadStack(q, t, spare).process;
    forall i | 0 <= i < |gs| ensures SegmentIn(u, t, n, gs[i]) && BelowStack(gs[i]) {
      SegmentStays(q, u, t, n, gs[i]);
      SegmentBelowStack(q, t, n, gs[i], spare);
    }
    if Clean(p) {
      forall i | 0 <= i < |gs| ensures ZeroFilled(u, t, n, gs[i]) {
        ZeroStays(q, u, t, n, gs[i]);
      }
    }
    KeepsFurther(p, q, u, t, n);
  }

  /** An executable whose segments are in order and can be backed is loaded: the bytes of every
      segment lie in memory of their own, with zeros behind them if free memory was clean, and
      the stack is mapped above them. */
  lemma ExecutableLoads(p: Process, t: Tables, n: nat, gs: seq<Segment>, spare: nat)
    requires SoundProcess(p, t, n) && ExecutableFits(p, t, n, gs, spare)
    ensures var r := LoadExecutable(p, t, gs, spare);
            && r.Loaded? && ExecutableIn(r.process, t, n, gs, spare) && Keeps(p, r.process, t, n)
            && (Clean(p) ==> AllZeroFilled(r.process, t, n, gs))
  {
    hide SoundProcess, AllIn, Keeps, ExecutableIn, AllLoadable, StackAllowed, LoadStack, LoadSegments, Clean,
         AllZeroFilled;
    AllSegments(p, t, n, gs);
    StackAdded(p, LoadSegments(p, t, gs).process, t, n, gs, spare);
  }

  // ----- executables that fit

  /** The frames that the segments need. */
  function Pages(gs: seq<Segment>): nat {
    if gs == [] then 0 else Pages(gs[..|gs| - 1]) + PageUp(gs[|gs| - 1].memsz) / 0x1000
  }

  /** A segment that is not empty, with a node for its region, in pages above the first and below
      the stack. */
  predicate Proper(g: Segment) {
    && 0 < g.memsz && |g.file| <= g.memsz && g.memsz + 0xFFF < U64 && 0 < g.spare < U64
    && 0 < g.Base() && g.Base() + PageUp(g.memsz) <= STACK_BASE - STACK_SIZE
  }

  /** Segments in ascending order, none with a page of another. */
  ghost predicate Orderly(gs: seq<Segment>) {
    && (forall i | 0 <= i < |gs| :: Proper(gs[i]))
    && forall i, j | 0 <= i < j < |gs| :: gs[i].Base() + PageUp(gs[i].memsz) <= gs[j].Base()
  }

  /** The space after the turns for these segments, from a process that had nothing mapped. */
  ghost predicate Reached(p: Process, r: Loading, t: Tables, n: nat, gs: seq<Segment>) {
    && r.Loaded? && SoundProcess(r.process, t, n) && Pages(gs) <= p.space.frames.available
    && r.process.space.frames.available == p.space.frames.available - Pages(gs)
    && (r.process.space.mapped <==> gs != [])
    && (gs != [] ==> LastEnds(r.process.space.regions, gs[|gs| - 1].Base() + PageUp(gs[|gs| - 1].memsz)))
  }

  predicate LastEnds(rs: seq<Region>, end: nat) { rs != [] && rs[|rs| - 1].base + rs[|rs| - 1].size == end }

  lemma {:induction false} NextAllowed(p: Process, q: Process, t: Tables, n: nat, gs: seq<Segment>, c: Call)
    requires Reached(p, Loaded(q), t, n, gs) && Pages(gs) + PageUp(c.length) / 0x1000 <= p.space.frames.available
    requires 0 < c.length && c.length + 0xFFF < U64 && 0 < c.spare < U64
    requires c.address + PageUp(c.length) <= STACK_BASE <= Top(n) && 0 < PageUp(c.length)
    requires gs != [] ==> gs[|gs| - 1].Base() + PageUp(gs[|gs| - 1].memsz) <= c.address
    ensures AllowedCall(q.space, t, n, c)
  {
    ProcessLayout(q, t, n);
    LowWindow(t, n);
    LastBelow(q, t, n, gs, c.address);
    hide Sound, Pages, PageDown;
  }

  lemma {:induction false} LastBelow(q: Process, t: Tables, n: nat, gs: seq<Segment>, address: nat)
    requires SoundProcess(q, t, n) && (q.space.mapped <==> gs != [])
    requires gs != [] ==> LastEnds(q.space.regions, gs[|gs| - 1].Base() + PageUp(gs[|gs| - 1].memsz))
    requires gs != [] ==> gs[|gs| - 1].Base() + PageUp(gs[|gs| - 1].memsz) <= address
    ensures Above(InUse(q.space.mapped, q.space.regions), address)
  {
    hide Shape, Backed, RegionsMapped, PageUp, PageDown;
  }

  lemma {:induction false} NextLoadable(p: Process, q: Process, t: Tables, n: nat, gs: seq<Segment>, g: Segment)
    requires Reached(p, Loaded(q), t, n, gs) && Orderly(gs + [g]) && STACK_BASE <= Top(n)
    requires Pages(gs) + PageUp(g.memsz) / 0x1000 <= p.space.frames.available
    ensures Loadable(q, t, n, g)
  {
    hide SoundProcess, Pages, PageDown, LastEnds, AllowedCall;
    assert (gs + [g])[|gs|] == g && (gs != [] ==> (gs + [g])[|gs| - 1] == gs[|gs| - 1]);
    assert Proper(g);
    UpTwice(g.memsz);
    UpPositive(g.memsz);
    NextAllowed(p, q, t, n, gs, CallOf(g));
  }

  lemma UpPositive(x: nat)
    requires 0 < x && x + 0xFFF < U64
    ensures 0 < PageUp(x)
  {
  }

  lemma {:induction false} NextReached(p: Process, q: Process, t: Tables, n: nat, gs: seq<Segment>, g: Segment)
    requires Reached(p, Loaded(q), t, n, gs) && Loadable(q, t, n, g) && t.startVa < U64
    requires Pages(gs) + PageUp(g.memsz) / 0x1000 <= p.space.frames.available
    ensures Reached(p, LoadSegment(q, t, g), t, n, gs + [g])
  {
    hide SoundProcess, Loadable, LoadSegment, PageUp, PageDown, HeldBehind, SegmentIn, TakenFrom, Keeps;
    var u := Loads(q, t, n, g);
    assert (gs + [g])[..|gs|] == gs;
    assert (gs + [g])[|gs|] == g;
    LastRegion(q, u, t, n, gs, g);
    assert Pages(gs + [g]) == Pages(gs) + PageUp(g.memsz) / 0x1000;
  }

  lemma {:induction false} LastRegion(q: Process, u: Process, t: Tables, n: nat, gs: seq<Segment>, g: Segment)
    requires JustLoaded(q, u, t, n, g)
    ensures LastEnds(u.space.regions, g.Base() + PageUp(g.memsz)) && u.space.mapped && SoundProcess(u, t, n)
    ensures u.space.frames.available == q.space.frames.available - PageUp(g.memsz) / 0x1000
  {
    hide Sound, AllowedCall, SegmentIn, HeldBehind, TakenFrom, PageUp, PageDown;
    UpTwice(g.memsz);
  }

  lemma {:induction false} OrderlyReached(p: Process, t: Tables, n: nat, gs: seq<Segment>)
    requires SoundProcess(p, t, n) && t.startVa < U64 && !p.space.mapped && STACK_BASE <= Top(n)
    requires Orderly(gs) && Pages(gs) <= p.space.frames.available
    ensures AllLoadable(p, t, n, gs) && Reached(p, LoadSegments(p, t, gs), t, n, gs)
    decreases |gs|
  {
    hide SoundProcess, Loadable, LoadSegment, PageUp, PageDown;
    if gs != [] {
      var rest, last := gs[..|gs| - 1], gs[|gs| - 1];
      assert gs == rest + [last];
      OrderlyPrefix(gs);
      OrderlyReached(p, t, n, rest);
      var q := LoadSegments(p, t, rest).process;
      NextLoadable(p, q, t, n, rest, last);
      NextReached(p, q, t, n, rest, last);
    }
  }

  lemma {:induction false} OrderlyPrefix(gs: seq<Segment>)
    requires Orderly(gs) && gs != []
    ensures Orderly(gs[..|gs| - 1])
  {
    hide Proper, PageUp, PageDown;
  }

  /** Segments in order, and frames for their pages and the stack, are all that a process with
      nothing mapped needs. */
  lemma {:induction false} OrderlyFits(p: Process, t: Tables, n: nat, gs: seq<Segment>, spare: nat)
    requires SoundProcess(p, t, n) && !p.space.mapped && STACK_BASE <= Top(n) && 0 < spare < U64
    requires Orderly(gs) && Pages(gs) + 4 <= p.space.frames.available
    ensures ExecutableFits(p, t, n, gs, spare)
  {
    StackRequest(p, t, n);
    hide SoundProcess, AllLoadable, LoadSegments, Pages, AllowedCall, Reached;
    OrderlyReached(p, t, n, gs);
    OrderlyStack(p, t, n, gs, spare);
  }

  lemma {:induction false} OrderlyStack(p: Process, t: Tables, n: nat, gs: seq<Segment>, spare: nat)
    requires t.startVa < U64 && Reached(p, LoadSegments(p, t, gs), t, n, gs) && STACK_BASE <= Top(n) && 0 < spare < U64
    requires Orderly(gs) && Pages(gs) + 4 <= p.space.frames.available
    ensures StackAllowed(LoadSegments(p, t, gs).process, t, n, spare)
  {
    hide SoundProcess, Pages, AllowedCall, LoadSegments;
    assert PageUp(STACK_SIZE) == STACK_SIZE;
    assert gs != [] ==> Proper(gs[|gs| - 1]);
    NextAllowed(p, LoadSegments(p, t, gs).process, t, n, gs, StackCall(spare));
  }

  // ----- what it finds

  lemma ImageStays(image: seq<byte>, mem: seq<byte>, ctx: Context, args: seq<CString>, envs: seq<CString>, g: Segment,
                   clean: bool)
    requires StackWritten(image, mem, ctx, args, envs) && ImageHolds(image, g, clean)
    requires g.vaddr + g.memsz <= STACK_BASE - STACK_SIZE
    ensures ImageHolds(mem, g, clean)
  {
    hide HoldsArray, ReadStrings, Total;
    assert mem[g.vaddr..g.vaddr + |g.file|] == image[g.vaddr..g.vaddr + |g.file|];
  }

  lemma StackStoresMapped(q: Process, t: Tables, spare: nat, image: seq<byte>, mem: seq<byte>, ws: seq<ByteStore>)
    requires Served(q.Translates(t), StackCall(spare)) && Leads(ws, image, mem)
    ensures AllMapped(q.Translates(t), ws)
  {
    hide Served;
    StackPages(q.Translates(t), spare);
  }

  /** What the program reads: through its registers the arguments and the environment, on its stack
      their count, and at their addresses the segments that start at a page. */
  ghost predicate Finds(seen: seq<byte>, ctx: Context, gs: seq<Segment>, args: seq<CString>, envs: seq<CString>,
                        clean: bool) {
    && ReadStrings(seen, ctx.x1) == args && ReadStrings(seen, ctx.x2) == envs && ctx.x0 == |args|
    && ctx.sp + 4 <= |seen| && seen[ctx.sp..ctx.sp + 4] == Bytes(|args|, 4)
    && forall i | 0 <= i < |gs| && Offset(gs[i]) == 0 :: ImageHolds(seen, gs[i], clean)
  }

  /** Whatever stores inside the stack `create_new_process` builds it with: made through the page
      tables of the process, they leave memory in which the program finds all that. */
  lemma ProgramFinds(q: Process, t: Tables, n: nat, gs: seq<Segment>, spare: nat, mem: seq<byte>, ctx: Context,
                     args: seq<CString>, envs: seq<CString>, ws: seq<ByteStore>, clean: bool)
    requires ExecutableIn(q, t, n, gs, spare) && STACK_BASE <= Top(n) && (clean ==> AllZeroFilled(q, t, n, gs))
    requires StackWritten(View(q.bytes, q.Translates(t), Top(n)), mem, ctx, args, envs)
    requires Leads(ws, View(q.bytes, q.Translates(t), Top(n)), mem)
    ensures Finds(View(StoreAllThrough(q.bytes, q.Translates(t), ws), q.Translates(t), Top(n)), ctx, gs, args, envs,
            clean)
  {
    hide View, SegmentIn, Served, ImageHolds, Leads, HoldsArray, ReadStrings, Total, Bytes, Sound, NoSharing,
         ZeroFilled, Offset, BelowStack;
    var image := View(q.bytes, q.Translates(t), Top(n));
    ProcessLayout(q, t, n);
    LowWindow(t, n);
    StackStoresMapped(q, t, spare, image, mem, ws);
    LeadsThere(q, t, n, image, mem, ws);
    forall i | 0 <= i < |gs| && Offset(gs[i]) == 0 ensures ImageHolds(mem, gs[i], clean) {
      SegmentIsHeld(q, t, n, gs[i], clean);
      EndsBelow(q, t, n, gs[i]);
      ImageStays(image, mem, ctx, args, envs, gs[i], clean);
    }
  }

  lemma EndsBelow(q: Process, t: Tables, n: nat, g: Segment)
    requires SegmentIn(q, t, n, g) && Offset(g) == 0 && BelowStack(g)
    ensures g.vaddr + g.memsz <= STACK_BASE - STACK_SIZE
  {
  }

  lemma LeadsThere(q: Process, t: Tables, n: nat, image: seq<byte>, mem: seq<byte>, ws: seq<ByteStore>)
    requires image == View(q.bytes, q.Translates(t), Top(n)) && Leads(ws, image, mem)
    requires NoSharing(q.Translates(t)) && Top(n) <= 0x4000_0000 && AllMapped(q.Translates(t), ws)
    ensures View(StoreAllThrough(q.bytes, q.Translates(t), ws), q.Translates(t), Top(n)) == mem
  {
    hide NoSharing, View;
    StoresRefine(q.bytes, q.Translates(t), Top(n), ws);
  }

  /** The program finds everything, with whatever stores its stack is written. */
  ghost predicate StartsWell(q: Process, t: Tables, gs: seq<Segment>, clean: bool) {
    var tr := q.Translates(t);
    forall mem, ctx, args, envs, ws |
      StackWritten(View(q.bytes, tr, Top(4)), mem, ctx, args, envs) && Leads(ws, View(q.bytes, tr, Top(4)), mem) ::
      Finds(View(StoreAllThrough(q.bytes, tr, ws), tr, Top(4)), ctx, gs, args, envs, clean)
  }

  lemma {:induction false} AlwaysFinds(q: Process, t: Tables, gs: seq<Segment>, spare: nat, clean: bool)
    requires ExecutableIn(q, t, 4, gs, spare) && (clean ==> AllZeroFilled(q, t, 4, gs))
    ensures StartsWell(q, t, gs, clean)
  {
    hide ExecutableIn, AllZeroFilled, View, StoreAllThrough, StackWritten, Leads, Finds;
    var tr := q.Translates(t);
    forall mem, ctx, args, envs, ws |
      StackWritten(View(q.bytes, tr, Top(4)), mem, ctx, args, envs) && Leads(ws, View(q.bytes, tr, Top(4)), mem)
      ensures Finds(View(StoreAllThrough(q.bytes, tr, ws), tr, Top(4)), ctx, gs, args, envs, clean)
    {
      ProgramFinds(q, t, 4, gs, spare, mem, ctx, args, envs, ws, clean);
    }
  }

  /** From new tables to the first instruction: a process that `create_user_translation_table` has
      made, with its table frames zeroed, segments in order, frames for their pages and the
      stack, and a stack that `create_new_process` has written. The program finds its segments,
      arguments and environment through its own page tables. */
  lemma {:induction false} NewProgramFinds(m: Words, f: Frames, t: Tables, self: nat, bytes: Memory,
                                           gs: seq<Segment>, spare: nat)
    requires f.Conserved() && UserTables.Aligned(f) && UserTables.Kept(f, t)
    requires TablesApart(t, 4) && t.startVa == 0 && self < U64 && 0 < spare < U64
    requires forall p: nat, i: nat | IsTable(t, 4, p) && i < 512 :: Read(m, p, i) == ZERO
    requires Orderly(gs) && Pages(gs) + 4 <= f.available
    ensures var p := Process(Space(m, f, false, [Region(0, 0, self)]), bytes);
            var r := LoadExecutable(p, t, gs, spare);
            r.Loaded? && StartsWell(r.process, t, gs, Clean(p))
  {
    hide Sound, ExecutableFits, ExecutableIn, Keeps, StartsWell, LoadExecutable, Read, Clean, AllZeroFilled, Pages,
         Orderly;
    var p := Process(Space(m, f, false, [Region(0, 0, self)]), bytes);
    UserTables.NewProcessIsSound(m, f, t, self);
    OrderlyFits(p, t, 4, gs, spare);
    ExecutableLoads(p, t, 4, gs, spare);
    AlwaysFinds(LoadExecutable(p, t, gs, spare).process, t, gs, spare, Clean(p));
  }
}
