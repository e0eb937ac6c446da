/** `_malloc` of heap.c whole and in memory, and `kcalloc` and `scalloc` on top of it. */
module GrowthInPlace {
  import opened Bits
  import opened ByteMemory
  import opened Heap
  import opened HeapGrowth
  import opened HeapInPlace
  import opened Wrappers
  import B = SharedBreak

  // ----- the list after the store of a header

  function NewChunk(at: nat, need: nat): Chunk { Chunk(at, need, true, at + 32) }

  /** The header of a new chunk, in memory `w`; the rest is as in `m`. */
  ghost predicate NewStored(m: seq<byte>, w: seq<byte>, at: nat, need: nat) {
    Stored(m, w, at, Header(need, 1, at + 32, 0))
  }

  lemma ClearUnlessTorn(cs: seq<Chunk>, at: nat, j: nat, base: nat)
    requires cs != [] && Heap.Sound(cs, base, Top(cs)) && !Tears(cs, at) && j < |cs| && j != StartingAt(cs, at, 0)
    ensures Clear(cs[j], at, 32)
  {
    assert cs[j] in cs;
    var i := StartingAt(cs, at, 0);
    if i < |cs| {
      ChunksAscend(cs, base, Top(cs));
    }
  }

  /** Memory then holds the list that `Rewritten` says. */
  lemma RewrittenIsLinked(m: seq<byte>, w: seq<byte>, head: nat, cs: seq<Chunk>, base: nat, at: nat, need: nat)
    requires cs != [] && Heap.Sound(cs, base, Top(cs)) && Linked(m, head, cs) && NewStored(m, w, at, need)
    requires !Tears(cs, at)
    ensures Linked(w, head, Rewritten(cs, NewChunk(at, need)))
  {
    var c, i := NewChunk(at, need), StartingAt(cs, at, 0);
    var u := Rewritten(cs, c);
    hide Heap.Sound, Tears, Rewritten, Stored, Only, Holds, Clear;
    forall j | 0 <= j < |cs| && j != i ensures Kept(w, cs, j) {
      ClearUnlessTorn(cs, at, j, base);
      KeptElsewhere(m, w, cs, at, 32, j);
    }
    RewrittenEnds(cs, c);
    if i < |cs| {
      forall j | 0 <= j < |u| ensures Kept(w, u, j) {
        if j < i {
          assert Kept(w, cs, j);
        }
      }
    }
  }

  lemma RewrittenEnds(cs: seq<Chunk>, c: Chunk)
    requires !Tears(cs, c.at)
    ensures var i, u := StartingAt(cs, c.at, 0), Rewritten(cs, c);
            if i == |cs| then u == cs
            else |u| == i + 1 && u[i] == c && (i > 0 ==> u[0] == cs[0])
                 && forall j | 0 <= j < i :: u[j] == cs[j] && NextAt(u, j) == NextAt(cs, j)
  {
  }

  /** The words of a header, where another is stored over a part of it. */
  lemma TornWord(m: seq<byte>, w: seq<byte>, at: nat, need: nat, a: nat)
    requires NewStored(m, w, at, need) && a + 32 <= |m| && a != at && a % 8 == 0 && at % 8 == 0
    requires a < at + 32 && at < a + 32
    ensures var h := HeaderAt(w, a);
            || (a + 8 == at && h.used == need && h.address == 1)
            || (a + 16 == at && h.address == need && h.next == 1)
            || (a + 24 == at && h.next == need)
            || (at + 8 == a && h.size == 1)
            || (at + 16 == a && h.size == at + 32)
            || (at + 24 == a && h.size == 0)
  {
    hide Load64;
    assert a + 8 == at || a + 16 == at || a + 24 == at || at + 8 == a || at + 16 == a || at + 24 == a;
  }

  /** Two lists from the same head in memory that differs in a stretch: they have the same chunks as
      long as the headers are clear of it. */
  lemma {:induction false} SamePrefix(m: seq<byte>, w: seq<byte>, head: nat, cs: seq<Chunk>, ds: seq<Chunk>,
                                      at: nat, i: nat, base: nat, end: nat)
    requires Linked(m, head, cs) && Linked(w, head, ds) && Only(m, w, at, 32) && i < |cs|
    requires Heap.Sound(cs, head, end) && Heap.Sound(ds, head, base)
    requires forall j | 0 <= j < i :: Clear(cs[j], at, 32)
    ensures i < |ds| && ds[i].at == cs[i].at
    decreases i
  {
    if i > 0 {
      SamePrefix(m, w, head, cs, ds, at, i - 1, base, end);
      OneHeader(m, head, cs, i - 1, head, end);
      FarHeader(m, w, at, 32, cs[i - 1].at);
      OneHeader(w, head, ds, i - 1, head, base);
    }
  }

  /** No chunk of a list in the upper half has a header that has been torn. */
  lemma TornIsNoChunk(m: seq<byte>, w: seq<byte>, head: nat, ds: seq<Chunk>, i: nat, end: nat, at: nat, need: nat)
    requires Heap.Sound(ds, head, end) && Linked(w, head, ds) && i < |ds| && NewStored(m, w, at, need)
    requires 0x8000_0000_0000_0000 <= head <= at && at % 8 == 0 && 32 <= need < 0x8000_0000_0000_0000
    ensures ds[i].at == at || Clear(ds[i], at, 32)
  {
    OneHeader(w, head, ds, i, head, end);
    ChunkInside(ds, i, head, end);
    if i + 1 < |ds| { ChunkInside(ds, i + 1, head, end); }
    if ds[i].at != at && !Clear(ds[i], at, 32) {
      TornWord(m, w, at, need, ds[i].at);
    }
  }

  lemma {:induction false} FirstTorn(cs: seq<Chunk>, at: nat, base: nat) returns (i: nat)
    requires cs != [] && Heap.Sound(cs, base, Top(cs)) && Tears(cs, at)
    ensures i < |cs| && cs[i].at != at && cs[i].at < at + 32 && at < cs[i].at + 32
    ensures forall j | 0 <= j < i :: Clear(cs[j], at, 32)
  {
    var c :| c in cs && c.at != at && c.at < at + 32 && at < c.at + 32;
    var k :| 0 <= k < |cs| && cs[k] == c;
    if k > 0 && !Clear(cs[k - 1], at, 32) {
      i := k - 1;
    } else {
      i := k;
    }
    forall j | 0 <= j < i ensures Clear(cs[j], at, 32) {
      TilesInOrder(cs, j, k, base, Top(cs));
      ChunkInside(cs, j, base, Top(cs));
      if j + 1 < k {
        TilesInOrder(cs, j + 1, k, base, Top(cs));
        ChunkInside(cs, j + 1, base, Top(cs));
      }
    }
    ChunkInside(cs, k, base, Top(cs));
    if i < k {
      TilesInOrder(cs, i, k, base, Top(cs));
      ChunkInside(cs, i, base, Top(cs));
    }
  }

  /** In the upper half, where the kernel is: after the header of a new chunk has been stored, there
      is a heap in memory that starts where the old one does exactly if no header has been torn. */
  lemma HeapLeftIff(m: seq<byte>, w: seq<byte>, head: nat, cs: seq<Chunk>, at: nat, need: nat)
    requires cs != [] && Heap.Sound(cs, head, Top(cs)) && Linked(m, head, cs) && NewStored(m, w, at, need)
    requires 0x8000_0000_0000_0000 <= head <= at && at + need < U64 && at % 8 == 0 && need % 8 == 0
             && 32 <= need < 0x8000_0000_0000_0000
    ensures !Tears(cs, at)
        <==> exists ds: seq<Chunk>, end: nat :: Heap.Sound(ds, head, end) && Linked(w, head, ds)
  {
    if !Tears(cs, at) {
      RewrittenIsSound(cs, NewChunk(at, need), head);
      RewrittenIsLinked(m, w, head, cs, head, at, need);
    } else {
      var i := FirstTorn(cs, at, head);
      forall ds: seq<Chunk>, end: nat | Heap.Sound(ds, head, end) && Linked(w, head, ds) ensures false {
        SamePrefix(m, w, head, cs, ds, at, i, end, Top(cs));
        TornIsNoChunk(m, w, head, ds, i, end, at, need);
        assert false;
      }
    }
  }

  // ----- the code

  /** What is left of the result when there is no more to tell than a pointer. */
  function Answer(r: nat, faults: bool): Served { if faults then Faults else if r == 0 then Null else Payload(r) }

  /** A chunk that `sbrk` makes room for lies in memory of `n` bytes. */
  predicate InMemory(a: B.Area, need: nat, n: nat)
    requires a.Words() && 0 < need < 0x8000_0000_0000_0000
  {
    var tmp := B.Sbrk(a, need).1;
    tmp == U64 - B.ENOMEM || tmp + need <= n
  }

  /** The fields of a new chunk. It becomes the tail, and stays it since it has no link. */
  method PutHeader(heap: GroupHeap, tmp: nat, need: nat) returns (r: nat)
    requires tmp + 32 <= heap.mem.Length < U64 && need < U64
    modifies heap.mem, heap`tail
    ensures r == tmp + 32 && heap.tail == tmp && NewStored(old(heap.mem[..]), heap.mem[..], tmp, need)
  {
    hide Load64, Only;
    ghost var m := heap.mem[..];
    SetSize(heap.mem, tmp, need);
    ghost var v := heap.mem[..];
    SetNext(heap.mem, tmp, 0);
    Twice(m, v, heap.mem[..], tmp, HeaderAt(m, tmp).(size := need, next := 0));
    v := heap.mem[..];
    SetUsed(heap.mem, tmp, 0);
    Twice(m, v, heap.mem[..], tmp, HeaderAt(m, tmp).(size := need, next := 0, used := 0));
    v := heap.mem[..];
    SetAddress(heap.mem, tmp, 0);
    Twice(m, v, heap.mem[..], tmp, Header(need, 0, 0, 0));
    heap.tail := tmp;
    v := heap.mem[..];
    SetUsed(heap.mem, tmp, 1);
    Twice(m, v, heap.mem[..], tmp, Header(need, 1, 0, 0));
    v := heap.mem[..];
    SetAddress(heap.mem, tmp, tmp + 32);
    Twice(m, v, heap.mem[..], tmp, Header(need, 1, tmp + 32, 0));
    r := tmp + 32;
  }

  /** `_malloc` where no chunk of the list fits. */
  method GrowHeap(heap: GroupHeap, sbrk: B.SharedHeap, need: nat, ghost grown: seq<Chunk>)
    returns (r: nat, faults: bool, ghost after: seq<Chunk>)
    requires heap.Valid() && sbrk.View().Words() && 32 <= need < 0x8000_0000_0000_0000 && need % 8 == 0
    requires InMemory(sbrk.View(), need, heap.mem.Length)
    modifies heap.mem, heap`tail, heap`chunks, heap`end, sbrk`brk
    ensures Grow(Pool(old(heap.chunks), old(sbrk.View()), grown), need)
         == (Pool(heap.chunks, sbrk.View(), after), Answer(r, faults))
    ensures after == grown ==> r == 0 && heap.mem[..] == old(heap.mem[..])
    ensures after != grown ==> r >= 32 && !faults && NewStored(old(heap.mem[..]), heap.mem[..], r - 32, need)
                               && r - 32 + need <= heap.mem.Length
                               && heap.chunks == Rewritten(old(heap.chunks), NewChunk(r - 32, need))
    ensures heap.chunks != [] ==> heap.Valid()
  {
    hide Heap.Sound, Linked, B.Sbrk, B.Safe, Stored, Rewritten, Tears;
    r, faults, after := 0, false, grown;
    var tmp := sbrk.MoveBreak(need);
    if tmp == 0 { return; }
    if tmp == U64 - B.ENOMEM {
      faults := true;
      return;
    }
    ghost var m, cs, c := heap.mem[..], heap.chunks, NewChunk(tmp, need);
    after := grown + [c];
    r := PutHeader(heap, tmp, need);
    ListAfter(m, heap.mem[..], heap.head, cs, heap.base, heap.end, tmp, need);
    heap.chunks := Rewritten(cs, c);
    heap.end := if heap.chunks == [] then heap.end else Top(heap.chunks);
  }

  lemma ListAfter(m: seq<byte>, w: seq<byte>, head: nat, cs: seq<Chunk>, base: nat, end: nat, at: nat, need: nat)
    requires Heap.Sound(cs, base, end) && Linked(m, head, cs) && NewStored(m, w, at, need)
    requires 32 <= need && need % 8 == 0 && at + need <= |m| < U64 && end <= |m|
    ensures var u := Rewritten(cs, NewChunk(at, need));
            u != [] ==> Heap.Sound(u, base, Top(u)) && Linked(w, head, u) && Top(u) <= |m|
  {
    hide Heap.Sound, Linked, Stored, Tears;
    SoundTop(cs, base, end);
    if !Tears(cs, at) {
      NotEmpty(cs, base, end);
      RewrittenIsSound(cs, NewChunk(at, need), base);
      RewrittenIsLinked(m, w, head, cs, base, at, need);
    }
  }

  lemma NotEmpty(cs: seq<Chunk>, base: nat, end: nat)
    requires Heap.Sound(cs, base, end)
    ensures cs != []
  {
  }

  lemma ServeIs(p: Pool, size: nat, stale: nat, i: nat)
    requires p.area.Words() && Small(size) && 0 < size && i == FirstFit(p.chunks, AllocSize(size), 0)
    ensures size + 80 < U64 && 32 <= AllocSize(size) < 0x8000_0000_0000_0000 && AllocSize(size) % 8 == 0
    ensures Serve(p, size, stale)
         == if i < |p.chunks|
            then var (cs, r) := TakeChunk(p.chunks, i, size, stale); (p.(chunks := cs), Answer(r, false))
            else Grow(p, AllocSize(size))
  {
    SmallNeed(size);
    hide TakeChunk, FirstFit, AllocSize, Grow;
  }

  /** What it does where the heap grows: it stores a header in front of the payload. */
  ghost predicate ByGrowth(m: seq<byte>, w: seq<byte>, cs: seq<Chunk>, us: seq<Chunk>, size: nat, r: nat) {
    && r >= 32 && NewStored(m, w, r - 32, AllocSize(size)) && r - 32 + AllocSize(size) <= |m|
    && us == Rewritten(cs, NewChunk(r - 32, AllocSize(size)))
  }

  /** `_malloc` on memory and the fields of the break. `faults` where the kernel stores through the
      error value. */
  method MallocAny(heap: GroupHeap, sbrk: B.SharedHeap, size: nat, ghost grown: seq<Chunk>)
    returns (r: nat, faults: bool, ghost after: seq<Chunk>)
    requires heap.Valid() && sbrk.View().Words() && Small(size)
    requires Listed(heap.chunks, size) || InMemory(sbrk.View(), AllocSize(size), heap.mem.Length)
    modifies heap.mem, heap`tail, heap`chunks, heap`end, sbrk`brk
    ensures Serve(Pool(old(heap.chunks), old(sbrk.View()), grown), size,
                  StaleFor(old(heap.mem[..]), old(heap.chunks), size))
         == (Pool(heap.chunks, sbrk.View(), after), Answer(r, faults))
    ensures heap.chunks != [] ==> heap.Valid()
    ensures r == 0 ==> heap.mem[..] == old(heap.mem[..])
    ensures old(Listed(heap.chunks, size)) ==>
              && heap.Valid() && heap.end == old(heap.end) && after == grown && !faults
              && FromList(old(heap.mem[..]), heap.mem[..], old(heap.chunks), heap.chunks, size, r)
    ensures !old(Listed(heap.chunks, size)) && r != 0 ==>
              ByGrowth(old(heap.mem[..]), heap.mem[..], old(heap.chunks), heap.chunks, size, r)
  {
    r, faults, after := 0, false, grown;
    hide Heap.Sound, Linked, TakeChunk, FirstFit, Grow, AllocSize, Stored, Only, Stale, FromList, ByGrowth;
    NotEmpty(heap.chunks, heap.base, heap.end);
    NothingAsked(heap.mem[..], heap.chunks);
    if size == 0 { return; }
    var allocSize := Align(size + 32);
    NeedIs(size, allocSize);
    var tmp;
    ghost var i;
    tmp, i := heap.FindFit(allocSize);
    ghost var m, cs := heap.mem[..], heap.chunks;
    ServeIs(Pool(cs, sbrk.View(), grown), size, StaleFor(m, cs, size), i);
    hide Serve;
    ChunksAscend(cs, heap.base, heap.end);
    if tmp != 0 {
      TakenAt(cs, i, size, StaleFor(m, cs, size), heap.base, heap.end);
      r := heap.TakeFound(tmp, size, allocSize, i);
      FromListIs(m, heap.mem[..], cs, heap.chunks, size, r, heap.base, heap.end);
      NotEmpty(heap.chunks, heap.base, heap.end);
    } else {
      r, faults, after := GrowHeap(heap, sbrk, allocSize, grown);
      if r != 0 { ByGrowthIs(m, heap.mem[..], cs, heap.chunks, size, r); }
    }
  }

  lemma ByGrowthIs(m: seq<byte>, w: seq<byte>, cs: seq<Chunk>, us: seq<Chunk>, size: nat, r: nat)
    requires r >= 32 && NewStored(m, w, r - 32, AllocSize(size)) && r - 32 + AllocSize(size) <= |m|
    requires us == Rewritten(cs, NewChunk(r - 32, AllocSize(size)))
    ensures ByGrowth(m, w, cs, us, size, r)
  {
  }

  lemma TakenInside(cs: seq<Chunk>, i: nat, size: nat, base: nat, end: nat)
    requires Heap.Sound(cs, base, end) && i < |cs| && cs[i].FreeFor(AllocSize(size)) && Small(size)
    ensures cs[i].at + 32 + size <= cs[i].End() <= end
  {
    ChunkInside(cs, i, base, end);
  }

  lemma NeedIs(size: nat, need: nat)
    requires Small(size) && need == Align(size + 32)
    ensures need == AllocSize(size) && size + 80 < U64 && size + 32 <= need
  {
  }

  // ----- cleared memory

  ghost predicate AllClear(cs: seq<Chunk>, at: nat, n: nat) { forall c | c in cs :: Clear(c, at, n) }

  /** Behind the header of chunk `i`, and in front of the next. */
  predicate InGap(cs: seq<Chunk>, i: nat, at: nat, n: nat)
    requires i < |cs|
  {
    cs[i].at + 32 <= at && (i + 1 < |cs| ==> at + n <= cs[i + 1].at)
  }

  /** What is stored behind the first header misses all headers exactly if it lies behind one and in
      front of the next. */
  lemma AllClearIff(cs: seq<Chunk>, base: nat, at: nat, n: nat)
    requires cs != [] && Heap.Sound(cs, base, Top(cs)) && base <= at && 0 < n
    ensures AllClear(cs, at, n) <==> exists i: nat :: i < |cs| && InGap(cs, i, at, n)
  {
    if AllClear(cs, at, n) {
      var i := LastBefore(cs, base, at);
      assert cs[i] in cs;
      assert i + 1 < |cs| ==> cs[i + 1] in cs;
      assert InGap(cs, i, at, n);
    }
    if i: nat :| i < |cs| && InGap(cs, i, at, n) {
      forall c | c in cs ensures Clear(c, at, n) {
        var j: nat :| j < |cs| && cs[j] == c;
        ChunksAscend(cs, base, Top(cs));
        assert j > i + 1 ==> cs[i + 1].at < cs[j].at;
        assert j < i ==> cs[j].at < cs[i].at;
      }
    }
  }

  lemma {:induction false} LastBefore(cs: seq<Chunk>, base: nat, at: nat) returns (i: nat)
    requires cs != [] && Heap.Sound(cs, base, Top(cs)) && base <= at
    ensures i < |cs| && cs[i].at <= at && (i + 1 < |cs| ==> at < cs[i + 1].at)
  {
    i := 0;
    while i + 1 < |cs| && cs[i + 1].at <= at
      invariant i < |cs| && cs[i].at <= at
    {
      i := i + 1;
    }
  }

  ghost predicate Zeroed(m: seq<byte>, at: nat, n: nat) { at + n <= |m| && forall j | at <= j < at + n :: m[j] == 0 }

  /** The bytes of the payload are what they were. */
  ghost predicate Untouched(m: seq<byte>, w: seq<byte>, at: nat, n: nat) {
    at + n <= |m| == |w| && w[at..at + n] == m[at..at + n]
  }

  lemma FilledOnly(v: seq<byte>, at: nat, n: nat)
    requires at + n <= |v|
    ensures Only(v, Filled(v, at, n, 0), at, n) && Zeroed(Filled(v, at, n, 0), at, n)
  {
    FilledIs(v, at, n, 0);
  }

  /** Bytes inside a chunk that was free belong to nobody's payload. */
  lemma OthersUntouched(m: seq<byte>, w: seq<byte>, cs: seq<Chunk>, i: nat, live: Live, base: nat, end: nat)
    requires Heap.Sound(cs, base, end) && Backed(cs, live) && i < |cs| && !cs[i].used && end <= |m|
    requires Only(m, w, cs[i].at, cs[i].size)
    ensures forall p | p in live :: Untouched(m, w, p, live[p])
  {
    hide Tiles, NoFreePair;
    forall p | p in live ensures Untouched(m, w, p, live[p]) {
      var d :| d in cs && d.used && d.address == p && live[p] <= d.size - 32;
      ChunksApart(cs, cs[i], d, base, end);
      ChunkFits(cs, d, base, end);
      assert w[p..p + live[p]] == m[p..p + live[p]];
    }
  }

  /** Stores inside a live payload leave the list alone. */
  lemma PayloadStored(v: seq<byte>, w: seq<byte>, head: nat, us: seq<Chunk>, live: Live, r: nat, base: nat, end: nat)
    requires Heap.Sound(us, base, end) && Backed(us, live) && Linked(v, head, us) && r in live && Only(v, w, r, live[r])
    ensures Linked(w, head, us)
  {
    hide Heap.Sound, Backed, Only;
    LivePayloadsApart(us, live, base, end, r);
    forall j | 0 <= j < |us| ensures Clear(us[j], r, live[r]) {
      assert us[j] in us;
    }
    LinkedElsewhere(v, w, head, us, r, live[r]);
  }

  lemma FromListInside(m: seq<byte>, v: seq<byte>, cs: seq<Chunk>, us: seq<Chunk>, size: nat, r: nat, base: nat,
                       end: nat)
    requires Heap.Sound(cs, base, end) && 0 < size && Small(size) && FromList(m, v, cs, us, size, r)
    ensures 0 < r && r + size <= end
  {
    TakenInside(cs, FirstFit(cs, AllocSize(size), 0), size, base, end);
  }

  lemma ListCleared(m: seq<byte>, v: seq<byte>, w: seq<byte>, head: nat, cs: seq<Chunk>, us: seq<Chunk>, live: Live,
                    size: nat, r: nat, base: nat, end: nat)
    requires Heap.Sound(cs, base, end) && Backed(cs, live) && end <= |m| && 0 < size && Small(size)
    requires FromList(m, v, cs, us, size, r) && Linked(v, head, us) && Heap.Sound(us, base, end)
    requires Only(v, w, r, size) && Zeroed(w, r, size)
    ensures OwnMemory(m, w, us, live, size, r) && Linked(w, head, us)
  {
    hide Heap.Sound, Backed, Only, Malloc, AllocSize, FirstFit, Linked, Untouched, StaleFor;
    var i := FirstFit(cs, AllocSize(size), 0);
    AllocKeeps(cs, live, size, StaleFor(m, cs, size), base, end);
    TakenInside(cs, i, size, base, end);
    PayloadStored(v, w, head, us, live[r := size], r, base, end);
    Within(v, w, r, size, cs[i].at, cs[i].size);
    Both(m, v, w, cs[i].at, cs[i].size);
    OthersUntouched(m, w, cs, i, live, base, end);
  }

  lemma ByGrowthInside(m: seq<byte>, v: seq<byte>, cs: seq<Chunk>, us: seq<Chunk>, size: nat, r: nat)
    requires Small(size) && ByGrowth(m, v, cs, us, size, r)
    ensures r >= 32 && r + size <= |v|
  {
  }

  lemma GrownCleared(m: seq<byte>, v: seq<byte>, w: seq<byte>, cs: seq<Chunk>, us: seq<Chunk>, size: nat, r: nat)
    requires Small(size) && ByGrowth(m, v, cs, us, size, r) && Only(v, w, r, size) && Zeroed(w, r, size)
    ensures BehindBreak(m, w, size, r)
  {
    FarHeader(v, w, r, size, r - 32);
  }

  lemma ListUncleared(m: seq<byte>, v: seq<byte>, w: seq<byte>, head: nat, cs: seq<Chunk>, us: seq<Chunk>, size: nat,
                      r: nat)
    requires Linked(m, head, cs) && ByGrowth(m, v, cs, us, size, r) && BehindBreak(m, w, size, r)
    requires AllClear(cs, r - 32, size + 32)
    ensures us == cs && Linked(w, head, cs)
  {
    assert forall c | c in cs :: Clear(c, r - 32, size + 32);
    forall j | 0 <= j < |cs| ensures Clear(cs[j], r - 32, size + 32) {
      assert cs[j] in cs;
    }
    LinkedElsewhere(m, w, head, cs, r - 32, size + 32);
  }

  lemma ServeNothing(p: Pool, stale: nat)
    requires p.area.Words()
    ensures Listed(p.chunks, 0) && Serve(p, 0, stale) == (p, Null)
  {
  }

  /** The size that `kcalloc` asks for. */
  function Product(nmeb: nat, count: nat): nat { nmeb * count % 0x1_0000_0000_0000_0000 }

  /** It is the product in 64 bits. */
  lemma ProductIs(nmeb: nat, count: nat)
    ensures Product(nmeb, count) < 0x1_0000_0000_0000_0000
    ensures (nmeb * count - Product(nmeb, count)) % 0x1_0000_0000_0000_0000 == 0
  {
    Multiple(nmeb * count);
  }

  lemma Multiple(x: nat)
    ensures (x - x % 0x1_0000_0000_0000_0000) % 0x1_0000_0000_0000_0000 == 0
  {
  }

  /** Cleared memory from the list: no header and nobody else's payload has changed. */
  ghost predicate OwnMemory(m: seq<byte>, w: seq<byte>, us: seq<Chunk>, live: Live, size: nat, r: nat) {
    && r != 0 && r !in live && Backed(us, live[r := size]) && Zeroed(w, r, size)
    && forall p | p in live :: Untouched(m, w, p, live[p])
  }

  /** Cleared memory behind the break: header and zeros are wherever it is. */
  ghost predicate BehindBreak(m: seq<byte>, w: seq<byte>, size: nat, r: nat) {
    && r >= 32 && Zeroed(w, r, size) && Only(m, w, r - 32, size + 32)
    && Holds(w, r - 32, Header(AllocSize(size), 1, r, 0))
  }

  /** `kcalloc` and `scalloc`. Where the heap grows, the list stays what it was if what is stored
      misses all its headers. */
  method Kcalloc(heap: GroupHeap, sbrk: B.SharedHeap, nmeb: nat, count: nat, ghost live: Live, ghost grown: seq<Chunk>)
    returns (r: nat, faults: bool, ghost after: seq<Chunk>)
    requires heap.Valid() && Backed(heap.chunks, live) && sbrk.View().Words()
    requires var size := Product(nmeb, count);
             Small(size) && (Listed(heap.chunks, size) || InMemory(sbrk.View(), AllocSize(size), heap.mem.Length))
    modifies heap.mem, heap`tail, heap`chunks, heap`end, sbrk`brk
    ensures Serve(Pool(old(heap.chunks), old(sbrk.View()), grown), Product(nmeb, count),
                  StaleFor(old(heap.mem[..]), old(heap.chunks), Product(nmeb, count)))
            == (Pool(heap.chunks, sbrk.View(), after), Answer(r, faults))
    ensures r == 0 ==> heap.mem[..] == old(heap.mem[..])
    ensures old(Listed(heap.chunks, Product(nmeb, count))) ==>
              heap.Valid() &&
              (Product(nmeb, count) > 0 ==>
                 OwnMemory(old(heap.mem[..]), heap.mem[..], heap.chunks, live, Product(nmeb, count), r))
    ensures !old(Listed(heap.chunks, Product(nmeb, count))) && r != 0 ==>
              && BehindBreak(old(heap.mem[..]), heap.mem[..], Product(nmeb, count), r)
              && (AllClear(old(heap.chunks), r - 32, Product(nmeb, count) + 32) ==>
                    heap.Valid() && heap.chunks == old(heap.chunks))
  {
    hide Heap.Sound, Linked, Backed, AllocSize, FirstFit, StaleFor, Serve, InMemory, Only, Product, FromList, ByGrowth,
         OwnMemory, BehindBreak, AllClear;
    var allocSize := Product(nmeb, count);
    ghost var m, cs, end := heap.mem[..], heap.chunks, heap.end;
    r, faults, after := 0, false, grown;
    if allocSize == 0 {
      ServeNothing(Pool(cs, sbrk.View(), grown), StaleFor(m, cs, 0));
      return;
    }
    ghost var listed := Listed(cs, allocSize);
    r, faults, after := MallocAny(heap, sbrk, allocSize, grown);
    ghost var v, us := heap.mem[..], heap.chunks;
    if listed {
      FromListInside(m, v, cs, us, allocSize, r, heap.base, end);
    }
    if r == 0 { return; }
    if !listed { ByGrowthInside(m, v, cs, us, allocSize, r); }
    Memset(heap.mem, r, 0, allocSize);
    FilledOnly(v, r, allocSize);
    if listed {
      ListCleared(m, v, heap.mem[..], heap.head, cs, us, live, allocSize, r, heap.base, end);
    } else {
      GrownCleared(m, v, heap.mem[..], cs, us, allocSize, r);
      if AllClear(cs, r - 32, allocSize + 32) {
        ListUncleared(m, v, heap.mem[..], heap.head, cs, us, allocSize, r);
      }
    }
  }

  predicate In(j: nat, a: nat, n: nat) { a <= j < a + n }

  /** Some byte belongs to both stretches. */
  ghost predicate Share(a: nat, n: nat, b: nat, k: nat) { exists j: nat :: In(j, a, n) && In(j, b, k) }

  lemma ShareIff(a: nat, n: nat, b: nat, k: nat)
    ensures Share(a, n, b, k) <==> 0 < n && 0 < k && a < b + k && b < a + n
  {
    if 0 < n && 0 < k && a < b + k && b < a + n {
      var j := if a < b then b else a;
      assert In(j, a, n) && In(j, b, k);
    }
  }

  /** The heap grows for a request, and its new break is where all that was asked for leaves it. */
  ghost predicate Grows(p: Pool, size: nat, at: nat) {
    && Good(p) && 0 < size && Small(size) && NoWrap(p, size) && Malloc(p.chunks, size, 0).None?
    && at == p.area.start + 0x2000 + Between(p.grown, 0, |p.grown|) + AllocSize(size) <= p.area.End()
  }

  lemma GrowsIs(p: Pool, size: nat, at: nat)
    requires Grows(p, size, at)
    ensures p.area.Words() && Serve(p, size, 0).1 == Payload(at + 32)
  {
    SmallNeed(size);
    hide Heap.Sound, AllocSize;
    GrowIs(p, AllocSize(size));
  }

  /** The header and the zeros that `kcalloc` then stores reach into a live payload of the list exactly
      if the break has not passed its end and they end behind its start; so never once the break has
      passed the list. */
  lemma ListPayloadHitIff(p: Pool, live: Live, size: nat, at: nat, q: nat)
    requires Grows(p, size, at) && Backed(p.chunks, live) && q in live && 0 < live[q]
    ensures p.area.Words() && Serve(p, size, 0).1 == Payload(at + 32)
    ensures Share(at, size + 32, q, live[q]) <==> at < q + live[q] && q < at + size + 32
    ensures Top(p.chunks) <= at ==> !Share(at, size + 32, q, live[q])
  {
    GrowsIs(p, size, at);
    ShareIff(at, size + 32, q, live[q]);
    hide Heap.Sound, AllocSize, Backed;
    LivePayloadsApart(p.chunks, live, p.area.start, Top(p.chunks), q);
  }

  /** They reach into the payload of a chunk that was put behind the break exactly if less than its
      size was asked for since. */
  lemma GrownPayloadHitIff(p: Pool, size: nat, at: nat, k: nat)
    requires Grows(p, size, at) && k < |p.grown| && p.grown[k].size > 32
    ensures Share(at, size + 32, p.grown[k].at + 32, p.grown[k].size - 32)
        <==> Between(p.grown, k + 1, |p.grown|) + AllocSize(size) < p.grown[k].size
  {
    hide Heap.Sound;
    SmallNeed(size);
    BetweenSplits(p.grown, 0, k + 1, |p.grown|);
    ShareIff(at, size + 32, p.grown[k].at + 32, p.grown[k].size - 32);
  }
}
