/** The heap of heap.c in memory: 32-byte headers among the payloads, linked into a list. */
module HeapInPlace {
  import opened Bits
  import opened ByteMemory
  import opened Heap
  import opened Wrappers

  // ----- headers in memory

  datatype Header = Header(size: nat, used: nat, address: nat, next: nat)

  /** The four words of a header. */
  function HeaderAt(m: seq<byte>, at: nat): Header
    requires at + 32 <= |m|
  {
    Header(Load64(m, at), Load64(m, at + 8), Load64(m, at + 16), Load64(m, at + 24))
  }

  ghost predicate Holds(m: seq<byte>, at: nat, x: Header) { at + 32 <= |m| && HeaderAt(m, at) == x }

  /** Outside `n` bytes from `at` on, memory is as before. */
  ghost predicate Only(m: seq<byte>, w: seq<byte>, at: nat, n: nat) {
    |w| == |m| && forall j | 0 <= j < |m| && !(at <= j < at + n) :: w[j] == m[j]
  }

  /** A header has been stored, and nothing else. */
  ghost predicate Stored(m: seq<byte>, w: seq<byte>, at: nat, x: Header) { Only(m, w, at, 32) && Holds(w, at, x) }

  lemma FarWord(m: seq<byte>, w: seq<byte>, at: nat, n: nat, a: nat)
    requires Only(m, w, at, n) && a + 8 <= |m| && (a + 8 <= at || at + n <= a)
    ensures Load64(w, a) == Load64(m, a)
  {
    assert m[a..a + 8] == w[a..a + 8];
  }

  lemma FarHeader(m: seq<byte>, w: seq<byte>, at: nat, n: nat, a: nat)
    requires Only(m, w, at, n) && a + 32 <= |m| && (a + 32 <= at || at + n <= a)
    ensures HeaderAt(w, a) == HeaderAt(m, a)
  {
    FarWord(m, w, at, n, a);
    FarWord(m, w, at, n, a + 8);
    FarWord(m, w, at, n, a + 16);
    FarWord(m, w, at, n, a + 24);
  }

  lemma NothingStored(m: seq<byte>, at: nat, n: nat)
    ensures Only(m, m, at, n)
  {
  }

  lemma Within(m: seq<byte>, w: seq<byte>, at: nat, n: nat, a: nat, k: nat)
    requires Only(m, w, at, n) && a <= at && at + n <= a + k
    ensures Only(m, w, a, k)
  {
  }

  lemma Both(m: seq<byte>, v: seq<byte>, w: seq<byte>, at: nat, n: nat)
    requires Only(m, v, at, n) && Only(v, w, at, n)
    ensures Only(m, w, at, n)
  {
  }

  /** The later of two headers stored at the same place. */
  lemma Twice(m: seq<byte>, v: seq<byte>, w: seq<byte>, at: nat, x: Header)
    requires Only(m, v, at, 32) && Stored(v, w, at, x)
    ensures Stored(m, w, at, x)
  {
  }

  method PutWord(mem: array<byte>, at: nat, w: nat)
    requires at + 8 <= mem.Length && w < U64
    modifies mem
    ensures Only(old(mem[..]), mem[..], at, 8) && Load64(mem[..], at) == w
  {
    hide Bytes;
    StoreWord(mem, at, w, 8);
    assert mem[..][at..at + 8] == Bytes(w, 8);
    WordReads(mem[..], at, w);
  }

  /** One word of a header has been stored. */
  lemma FieldPut(m: seq<byte>, w: seq<byte>, at: nat, k: nat)
    requires at + 32 <= |m| && Only(m, w, at + k, 8) && (k == 0 || k == 8 || k == 16 || k == 24)
    ensures Only(m, w, at, 32)
    ensures k != 0 ==> Load64(w, at) == Load64(m, at)
    ensures k != 8 ==> Load64(w, at + 8) == Load64(m, at + 8)
    ensures k != 16 ==> Load64(w, at + 16) == Load64(m, at + 16)
    ensures k != 24 ==> Load64(w, at + 24) == Load64(m, at + 24)
  {
    hide Load64;
    if k != 0 { FarWord(m, w, at + k, 8, at); }
    if k != 8 { FarWord(m, w, at + k, 8, at + 8); }
    if k != 16 { FarWord(m, w, at + k, 8, at + 16); }
    if k != 24 { FarWord(m, w, at + k, 8, at + 24); }
  }

  method SetSize(mem: array<byte>, at: nat, size: nat)
    requires at + 32 <= mem.Length && size < U64
    modifies mem
    ensures Stored(old(mem[..]), mem[..], at, HeaderAt(old(mem[..]), at).(size := size))
  {
    hide Load64;
    PutWord(mem, at, size);
    FieldPut(old(mem[..]), mem[..], at, 0);
  }

  method SetUsed(mem: array<byte>, at: nat, used: nat)
    requires at + 32 <= mem.Length && used < U64
    modifies mem
    ensures Stored(old(mem[..]), mem[..], at, HeaderAt(old(mem[..]), at).(used := used))
  {
    hide Load64;
    PutWord(mem, at + 8, used);
    FieldPut(old(mem[..]), mem[..], at, 8);
  }

  method SetAddress(mem: array<byte>, at: nat, address: nat)
    requires at + 32 <= mem.Length && address < U64
    modifies mem
    ensures Stored(old(mem[..]), mem[..], at, HeaderAt(old(mem[..]), at).(address := address))
  {
    hide Load64;
    PutWord(mem, at + 16, address);
    FieldPut(old(mem[..]), mem[..], at, 16);
  }

  method SetNext(mem: array<byte>, at: nat, next: nat)
    requires at + 32 <= mem.Length && next < U64
    modifies mem
    ensures Stored(old(mem[..]), mem[..], at, HeaderAt(old(mem[..]), at).(next := next))
  {
    hide Load64;
    PutWord(mem, at + 24, next);
    FieldPut(old(mem[..]), mem[..], at, 24);
  }

  // ----- the list in memory

  function HeaderOf(c: Chunk, next: nat): Header { Header(c.size, if c.used then 1 else 0, c.address, next) }

  /** Where the chunk after `i` starts; zero after the last. */
  function NextAt(cs: seq<Chunk>, i: nat): nat { if i + 1 < |cs| then cs[i + 1].at else 0 }

  /** The header of chunk `i` is in memory. */
  ghost predicate Kept(m: seq<byte>, cs: seq<Chunk>, i: nat)
    requires i < |cs|
  {
    Holds(m, cs[i].at, HeaderOf(cs[i], NextAt(cs, i)))
  }

  /** The headers in memory are the list. */
  ghost predicate Linked(m: seq<byte>, head: nat, cs: seq<Chunk>) {
    cs != [] && head == cs[0].at && forall i | 0 <= i < |cs| :: Kept(m, cs, i)
  }

  /** Which chunk follows after a replacement. */
  lemma NextAtReplaced(cs: seq<Chunk>, i: nat, n: nat, xs: seq<Chunk>, k: nat)
    requires 0 < n && i + n <= |cs| && xs != [] && xs[0].at == cs[i].at
    requires k < |Replace(cs, i, n, xs)|
    ensures k < i ==> Replace(cs, i, n, xs)[k] == cs[k] && NextAt(Replace(cs, i, n, xs), k) == NextAt(cs, k)
    ensures i <= k < i + |xs| ==>
              && Replace(cs, i, n, xs)[k] == xs[k - i]
              && NextAt(Replace(cs, i, n, xs), k) == if k + 1 < i + |xs| then xs[k + 1 - i].at
                 else NextAt(cs, i + n - 1)
    ensures i + |xs| <= k ==>
              && Replace(cs, i, n, xs)[k] == cs[k - |xs| + n]
              && NextAt(Replace(cs, i, n, xs), k) == NextAt(cs, k - |xs| + n)
  {
    var r := Replace(cs, i, n, xs);
    assert |r| == |cs| - n + |xs|;
    if k + 1 < |r| {
      assert r[k + 1] == if k + 1 < i then cs[k + 1] else if k + 1 < i + |xs| then xs[k + 1 - i]
             else cs[k + 1 - |xs| + n];
    }
  }

  /** The header of chunk `k` of a piece of a list, behind which the list goes on at `rest`. */
  ghost predicate Put(w: seq<byte>, xs: seq<Chunk>, k: nat, rest: nat)
    requires k < |xs|
  {
    Holds(w, xs[k].at, HeaderOf(xs[k], if k + 1 < |xs| then xs[k + 1].at else rest))
  }

  /** New headers for the chunks that replace some, and the other headers left alone. */
  lemma LinkedReplace(w: seq<byte>, head: nat, cs: seq<Chunk>, i: nat, n: nat, xs: seq<Chunk>, rest: nat)
    requires 0 < n && i + n <= |cs| && head == cs[0].at && xs != [] && xs[0].at == cs[i].at
    requires rest == NextAt(cs, i + n - 1) && forall k | 0 <= k < |xs| :: Put(w, xs, k, rest)
    requires forall j | 0 <= j < |cs| && !(i <= j < i + n) :: Kept(w, cs, j)
    ensures Linked(w, head, Replace(cs, i, n, xs))
  {
    hide NextAt, HeaderOf, Replace, Holds;
    var r := Replace(cs, i, n, xs);
    ReplacedEnds(cs, i, n, xs);
    forall k | 0 <= k < |r| ensures Kept(w, r, k) {
      NextAtReplaced(cs, i, n, xs, k);
      if i <= k < i + |xs| {
        assert Put(w, xs, k - i, rest);
      } else {
        assert Kept(w, cs, if k < i then k else k - |xs| + n);
      }
    }
  }

  lemma ReplacedEnds(cs: seq<Chunk>, i: nat, n: nat, xs: seq<Chunk>)
    requires 0 < n && i + n <= |cs| && xs != [] && xs[0].at == cs[i].at
    ensures |Replace(cs, i, n, xs)| == |cs| - n + |xs| && Replace(cs, i, n, xs)[0].at == cs[0].at
  {
  }

  /** The header of chunk `j` does not meet `n` bytes from `at` on. */
  predicate Clear(c: Chunk, at: nat, n: nat) { c.at + 32 <= at || at + n <= c.at }

  /** No other header meets one that lies inside a chunk. */
  lemma HeadersApart(cs: seq<Chunk>, i: nat, x: nat, n: nat, base: nat, end: nat)
    requires Tiles(cs, base, end) && i < |cs| && cs[i].at <= x && x + n <= cs[i].End()
    ensures forall j | 0 <= j < |cs| && j != i :: Clear(cs[j], x, n)
  {
    forall j | 0 <= j < |cs| && j != i ensures Clear(cs[j], x, n) {
      if i < j {
        TilesInOrder(cs, i, j, base, end);
      } else {
        TilesInOrder(cs, j, i, base, end);
        ChunkInside(cs, j, base, end);
      }
    }
  }

  lemma ChunksAscend(cs: seq<Chunk>, base: nat, end: nat)
    requires Sound(cs, base, end)
    ensures forall i | 0 <= i < |cs| :: 0 < cs[i].at && cs[i].at + 32 <= cs[i].End() <= end < U64
    ensures forall i, j | 0 <= i < j < |cs| :: cs[i].at < cs[j].at
  {
    forall i | 0 <= i < |cs| ensures 0 < cs[i].at && cs[i].at + 32 <= cs[i].End() <= end {
      ChunkInside(cs, i, base, end);
    }
    forall i, j | 0 <= i < j < |cs| ensures cs[i].at < cs[j].at {
      TilesInOrder(cs, i, j, base, end);
      ChunkInside(cs, i, base, end);
    }
  }

  lemma OneHeader(m: seq<byte>, head: nat, cs: seq<Chunk>, i: nat, base: nat, end: nat)
    requires Linked(m, head, cs) && Tiles(cs, base, end) && i < |cs| && 0 < base && end < U64
    ensures Holds(m, cs[i].at, HeaderOf(cs[i], NextAt(cs, i))) && 0 < cs[i].at && cs[i].at + 32 <= cs[i].End() < U64
    ensures NextAt(cs, i) == 0 <==> i + 1 == |cs|
    ensures NextAt(cs, i) < U64 && cs[i].End() == if i + 1 < |cs| then cs[i + 1].at else end
  {
    assert Kept(m, cs, i);
    ChunkInside(cs, i, base, end);
    if i + 1 < |cs| {
      ChunkInside(cs, i + 1, base, end);
    }
  }

  /** Headers that are clear of what has been stored are still there. */
  lemma KeptElsewhere(m: seq<byte>, w: seq<byte>, cs: seq<Chunk>, at: nat, n: nat, j: nat)
    requires j < |cs| && Kept(m, cs, j) && Only(m, w, at, n) && Clear(cs[j], at, n)
    ensures Kept(w, cs, j)
  {
    FarHeader(m, w, at, n, cs[j].at);
  }

  lemma LinkedElsewhere(m: seq<byte>, w: seq<byte>, head: nat, cs: seq<Chunk>, at: nat, n: nat)
    requires Linked(m, head, cs) && Only(m, w, at, n) && forall j | 0 <= j < |cs| :: Clear(cs[j], at, n)
    ensures Linked(w, head, cs)
  {
    hide Only, Clear, Kept;
    forall j | 0 <= j < |cs| ensures Kept(w, cs, j) {
      KeptElsewhere(m, w, cs, at, n, j);
    }
  }

  lemma LinkedReplaceOne(m: seq<byte>, w: seq<byte>, head: nat, cs: seq<Chunk>, i: nat, n: nat, c: Chunk)
    requires Linked(m, head, cs) && 0 < n && i + n <= |cs| && c.at == cs[i].at
    requires forall j | 0 <= j < |cs| && j != i :: Clear(cs[j], c.at, 32)
    requires Stored(m, w, c.at, HeaderOf(c, NextAt(cs, i + n - 1)))
    ensures Linked(w, head, Replace(cs, i, n, [c]))
  {
    hide Replace, NextAt, HeaderOf, Only, Clear, Kept, Holds;
    forall j | 0 <= j < |cs| && !(i <= j < i + n) ensures Kept(w, cs, j) {
      KeptElsewhere(m, w, cs, c.at, 32, j);
    }
    LinkedReplace(w, head, cs, i, n, [c], NextAt(cs, i + n - 1));
  }

  lemma HandOutLinks(m: seq<byte>, w: seq<byte>, head: nat, cs: seq<Chunk>, i: nat, final: seq<Chunk>, base: nat,
                     end: nat)
    requires Linked(m, head, cs) && i < |cs| && Tiles(final, base, end)
             && final == Replace(cs, i, 1, [HandedOut(cs[i])])
    requires Stored(m, w, cs[i].at, HeaderOf(cs[i], NextAt(cs, i)).(used := 1, address := cs[i].at + 32))
    ensures Linked(w, head, final)
  {
    hide Tiles, Replace, Only, Kept, Holds, NextAt;
    SameStarts(cs, i, final);
    ChunkInside(final, i, base, end);
    HeadersApart(final, i, cs[i].at, 32, base, end);
    LinkedReplaceOne(m, w, head, cs, i, 1, HandedOut(cs[i]));
  }

  lemma SameStarts(cs: seq<Chunk>, i: nat, final: seq<Chunk>)
    requires i < |cs| && final == Replace(cs, i, 1, [HandedOut(cs[i])])
    ensures |final| == |cs| && forall j | 0 <= j < |cs| :: final[j].at == cs[j].at && final[j].size == cs[j].size
  {
  }

  lemma AbsorbLinks(m: seq<byte>, w: seq<byte>, head: nat, cs: seq<Chunk>, i: nat, address: nat, base: nat, end: nat)
    requires Linked(m, head, cs) && i + 1 < |cs| && Tiles(cs, base, end)
    requires Stored(m, w, cs[i].at, HeaderOf(cs[i].(size := cs[i].size + cs[i + 1].size, address := address),
                                             NextAt(cs, i + 1)))
    ensures Linked(w, head, Absorbed(cs, i, address))
  {
    hide Tiles, Replace, Only, Kept, Holds, NextAt;
    ChunkInside(cs, i, base, end);
    HeadersApart(cs, i, cs[i].at, 32, base, end);
    LinkedReplaceOne(m, w, head, cs, i, 2, cs[i].(size := cs[i].size + cs[i + 1].size, address := address));
  }

  /** The list after a split. */
  function Halves(cs: seq<Chunk>, i: nat, size: nat, stale: nat): seq<Chunk>
    requires i < |cs| && size + 80 < U64 && Split(cs[i], size, stale).Some?
  {
    var (a, b) := Split(cs[i], size, stale).value;
    Replace(cs, i, 1, [a, b])
  }

  lemma TwoLinks(m: seq<byte>, v: seq<byte>, w: seq<byte>, head: nat, cs: seq<Chunk>, i: nat, a: Chunk, b: Chunk)
    requires Linked(m, head, cs) && i < |cs| && a.at == cs[i].at && a.at + 32 <= b.at
    requires forall j | 0 <= j < |cs| && j != i :: Clear(cs[j], a.at, 32) && Clear(cs[j], b.at, 32)
    requires Stored(m, v, b.at, HeaderOf(b, NextAt(cs, i))) && Stored(v, w, a.at, HeaderOf(a, b.at))
    ensures Linked(w, head, Replace(cs, i, 1, [a, b]))
  {
    FarHeader(v, w, a.at, 32, b.at);
    forall j | 0 <= j < |cs| && j != i ensures Kept(w, cs, j) {
      assert Kept(m, cs, j);
      hide Only, Clear, Kept, Linked;
      KeptElsewhere(m, v, cs, b.at, 32, j);
      KeptElsewhere(v, w, cs, a.at, 32, j);
    }
    assert Put(w, [a, b], 0, NextAt(cs, i)) && Put(w, [a, b], 1, NextAt(cs, i));
    hide Replace, NextAt, HeaderOf, Only, Kept, Linked, Clear, Put;
    LinkedReplace(w, head, cs, i, 1, [a, b], NextAt(cs, i));
  }

  lemma SplitInside(cs: seq<Chunk>, i: nat, size: nat, stale: nat, base: nat, end: nat)
    requires Tiles(cs, base, end) && i < |cs| && size + 80 < U64 && Split(cs[i], size, stale).Some?
    ensures var (a, b) := Split(cs[i], size, stale).value;
            && a.at == cs[i].at && a.at + 32 <= b.at == cs[i].at + AllocSize(size) && b.at + 32 <= cs[i].End() <= end
            && AllocSize(size) == Align(size + 32)
            && forall j | 0 <= j < |cs| && j != i :: Clear(cs[j], a.at, 32) && Clear(cs[j], b.at, 32)
  {
    hide Tiles;
    AllocSizeHoldsIff(size);
    ChunkInside(cs, i, base, end);
    HeadersApart(cs, i, cs[i].at, 32, base, end);
    HeadersApart(cs, i, Split(cs[i], size, stale).value.1.at, 32, base, end);
  }

  /** The two headers that a split writes. */
  lemma SplitLinks(m: seq<byte>, v: seq<byte>, w: seq<byte>, head: nat, cs: seq<Chunk>, i: nat, size: nat, stale: nat,
                   base: nat, end: nat)
    requires Linked(m, head, cs) && Tiles(cs, base, end) && i < |cs| && size + 80 < U64
             && Split(cs[i], size, stale).Some?
    requires var start := AllocSize(size);
             && start <= cs[i].size
             && Stored(m, v, cs[i].at + start, Header(cs[i].size - start, 0, stale, NextAt(cs, i)))
             && Stored(v, w, cs[i].at, Header(start, 0, cs[i].address, cs[i].at + start))
    ensures Linked(w, head, Halves(cs, i, size, stale))
  {
    hide Tiles, Replace, Align, AllocSize, Linked, Stored, Clear;
    var (a, b) := Split(cs[i], size, stale).value;
    SplitInside(cs, i, size, stale, base, end);
    TwoLinks(m, v, w, head, cs, i, a, b);
  }

  /** Marking the chunk after the split is what `TakeChunk` says. */
  lemma SplitThenMark(cs: seq<Chunk>, i: nat, size: nat, stale: nat, mid: seq<Chunk>)
    requires i < |cs| && size + 80 < U64 && (cs[i].size > AllocSize(size) + 40 ==> Split(cs[i], size, stale).Some?)
    requires mid == if cs[i].size > AllocSize(size) + 40 then Halves(cs, i, size, stale) else cs
    ensures i < |mid| && mid[i].at == cs[i].at
    ensures TakeChunk(cs, i, size, stale) == (Replace(mid, i, 1, [HandedOut(mid[i])]), cs[i].Payload())
  {
    hide AllocSize;
    if cs[i].size > AllocSize(size) + 40 {
      var (a, b) := Split(cs[i], size, stale).value;
      assert mid[..i] == cs[..i] && mid[i] == a && mid[i + 1..] == [b] + cs[i + 1..];
      assert cs[..i] + [HandedOut(a)] + ([b] + cs[i + 1..]) == cs[..i] + [HandedOut(a), b] + cs[i + 1..];
    }
  }

  lemma FoundChunk(cs: seq<Chunk>, i: nat, size: nat, stale: nat, base: nat, end: nat)
    requires Sound(cs, base, end) && i < |cs| && cs[i].FreeFor(AllocSize(size)) && size + 80 < U64
    ensures cs[i].size > AllocSize(size) + 40 ==> Split(cs[i], size, stale).Some?
  {
    ChunkInside(cs, i, base, end);
    if cs[i].size > AllocSize(size) + 40 {
      SplitTiles(cs[i], size, stale);
    }
  }

  /** What memory holds where the second header of a split gets its address field, which `split`
      does not store. */
  function Stale(m: seq<byte>, c: Chunk, size: nat): nat {
    var a := c.at + AllocSize(size) + 16;
    if a + 8 <= |m| then Load64(m, a) else 0
  }

  /** The same for the chunk that a request gets. */
  function StaleFor(m: seq<byte>, cs: seq<Chunk>, size: nat): nat {
    var i := FirstFit(cs, AllocSize(size), 0);
    if i < |cs| then Stale(m, cs[i], size) else 0
  }

  /** The list can serve the request. */
  predicate Listed(cs: seq<Chunk>, size: nat) { size == 0 || FirstFit(cs, AllocSize(size), 0) < |cs| }

  /** What `_malloc` does from memory `m` to `w`, and from chunks `cs` to `us`, where the list serves
      the request. Outside the chunk that is taken, memory stays. */
  ghost predicate FromList(m: seq<byte>, w: seq<byte>, cs: seq<Chunk>, us: seq<Chunk>, size: nat, r: nat)
    requires size + 80 < U64
  {
    && Listed(cs, size) && Malloc(cs, size, StaleFor(m, cs, size)) == Some((us, r))
    && if size == 0 then w == m
       else var c := cs[FirstFit(cs, AllocSize(size), 0)]; r == c.at + 32 && Only(m, w, c.at, c.size)
  }

  lemma NothingAsked(m: seq<byte>, cs: seq<Chunk>)
    ensures FromList(m, m, cs, cs, 0, 0)
  {
  }

  lemma FromListIs(m: seq<byte>, w: seq<byte>, cs: seq<Chunk>, us: seq<Chunk>, size: nat, r: nat, base: nat, end: nat)
    requires Sound(cs, base, end) && 0 < size && size + 80 < U64 && Listed(cs, size)
    requires var i := FirstFit(cs, AllocSize(size), 0);
             (us, r) == TakeChunk(cs, i, size, Stale(m, cs[i], size)) && Only(m, w, cs[i].at, cs[i].size)
    ensures FromList(m, w, cs, us, size, r)
  {
    hide Sound, TakeChunk, Stale, Only;
    var i := FirstFit(cs, AllocSize(size), 0);
    TakenAt(cs, i, size, Stale(m, cs[i], size), base, end);
  }

  /** A `group_heap` in memory, whose bytes are numbered by their addresses. */
  class GroupHeap {
    const mem: array<byte>
    var head: nat
    var tail: nat
    ghost var chunks: seq<Chunk>
    ghost var base: nat
    ghost var end: nat

    ghost predicate Valid()
      reads this, mem
    {
      Sound(chunks, base, end) && Linked(mem[..], head, chunks) && end <= mem.Length < U64
    }

    /** `heap_init` for one heap, whose break starts at `start`. */
    constructor (memory: array<byte>, start: nat)
      requires 0 < start && start % 8 == 0 && start + 0x5000 <= memory.Length < U64
      modifies memory
      ensures Valid() && mem == memory && head == tail == start && base == start && end == start + 0x5000
      ensures chunks == Init(start, Load64(old(memory[..]), start + 16))
      ensures Only(old(memory[..]), memory[..], start, 32)
    {
      hide Load64, Sound;
      var size := 0x2000 + PageUp(start + 0x2000 + 1 - start);
      InitIsSound(start, Load64(memory[..], start + 16));
      mem := memory;
      head, tail := start, start;
      chunks, base, end := Init(start, Load64(memory[..], start + 16)), start, start + 0x5000;
      new;
      SetSize(memory, start, size);
      SetUsed(memory, start, 0);
      SetNext(memory, start, 0);
      assert Kept(mem[..], chunks, 0);
    }

    /** `split` of the chunk at `ptr`, which is number `i`. */
    method SplitChunk(ptr: nat, size: nat, ghost i: nat) returns (ok: bool)
      requires Valid() && i < |chunks| && ptr == chunks[i].at && size + 80 < U64
      modifies mem, this`chunks
      ensures Linked(mem[..], head, chunks) && Only(old(mem[..]), mem[..], ptr, old(chunks)[i].size)
      ensures var stale := Stale(old(mem[..]), old(chunks)[i], size);
              && (ok <==> Split(old(chunks)[i], size, stale).Some?)
              && chunks == if ok then Halves(old(chunks), i, size, stale) else old(chunks)
    {
      hide Tiles, NoFreePair, Addressed, Replace, AllocSize, Halves, Linked, Load64, Only;
      OneHeader(mem[..], head, chunks, i, base, end);
      ghost var m, c := mem[..], chunks[i];
      ghost var stale := Stale(m, c, size);
      NothingStored(m, ptr, c.size);
      var was := HeaderAt(mem[..], ptr);
      if was.used != 0 { return false; }
      var totalSize := Align(64) + size;
      if was.size <= totalSize { return false; }
      var startSize := Align(size + 32);
      var tmp := ptr + startSize;
      SplitInside(chunks, i, size, stale, base, end);
      assert stale == HeaderAt(m, tmp).address;
      WriteTail(mem, tmp, was.size - startSize, was.next);
      ghost var v := mem[..];
      FarHeader(m, v, tmp, 32, ptr);
      SetSize(mem, ptr, startSize);
      ghost var x := mem[..];
      SetNext(mem, ptr, tmp);
      Twice(v, x, mem[..], ptr, was.(size := startSize, next := tmp));
      Within(m, v, tmp, 32, ptr, c.size);
      Within(v, mem[..], ptr, 32, ptr, c.size);
      Both(m, v, mem[..], ptr, c.size);
      SplitLinks(m, v, mem[..], head, chunks, i, size, stale, base, end);
      chunks := Halves(chunks, i, size, stale);
      ok := true;
    }

    /** The search of `_malloc`. */
    method FindFit(need: nat) returns (tmp: nat, ghost i: nat)
      requires Valid()
      ensures i == FirstFit(chunks, need, 0) && tmp == if i < |chunks| then chunks[i].at else 0
    {
      hide Load64;
      ChunksAscend(chunks, base, end);
      tmp, i := head, 0;
      while tmp != 0
        invariant i <= |chunks| && tmp == if i < |chunks| then chunks[i].at else 0
        invariant FirstFit(chunks, need, 0) == FirstFit(chunks, need, i)
        decreases |chunks| - i
      {
        assert Kept(mem[..], chunks, i);
        var h := HeaderAt(mem[..], tmp);
        if h.used == 0 && h.size >= need { break; }
        tmp := h.next;
        i := i + 1;
      }
    }

    /** The end of `_malloc`: the chunk at `tmp` is handed out. */
    method HandOut(tmp: nat, ghost i: nat, ghost final: seq<Chunk>) returns (r: nat)
      requires Linked(mem[..], head, chunks) && i < |chunks| && tmp == chunks[i].at && Sound(final, base, end)
      requires final == Replace(chunks, i, 1, [HandedOut(chunks[i])]) && end <= mem.Length < U64
      modifies mem, this`tail, this`chunks
      ensures Valid() && chunks == final && r == tmp + 32 && Only(old(mem[..]), mem[..], tmp, 32)
      ensures tail == if tmp != old(tail) then old(tail) else if i + 1 < |final| then final[i + 1].at else tmp
    {
      hide Tiles, NoFreePair, Addressed, Replace, Load64;
      ghost var m := mem[..];
      SameStarts(chunks, i, final);
      assert Kept(m, chunks, i);
      ChunkInside(final, i, base, end);
      SetUsed(mem, tmp, 1);
      ghost var v := mem[..];
      SetAddress(mem, tmp, tmp + 32);
      Twice(m, v, mem[..], tmp, HeaderOf(chunks[i], NextAt(chunks, i)).(used := 1, address := tmp + 32));
      HandOutLinks(m, mem[..], head, chunks, i, final, base, end);
      chunks := final;
      OneHeader(mem[..], head, final, i, base, end);
      if tmp == tail {
        var next := HeaderAt(mem[..], tmp).next;
        tail := if next == 0 then tmp else next;
      }
      r := tmp + 32;
    }

    /** Splits the chunk if that leaves more than a header and a word; false if `split` refuses,
        which it never does. */
    method SplitIfLarge(tmp: nat, size: nat, allocSize: nat, ghost i: nat) returns (ok: bool)
      requires Valid() && size + 80 < U64 && allocSize == AllocSize(size)
      requires i < |chunks| && tmp == chunks[i].at && chunks[i].FreeFor(allocSize)
      modifies mem, this`chunks
      ensures ok && Linked(mem[..], head, chunks) && Only(old(mem[..]), mem[..], tmp, old(chunks)[i].size)
      ensures var stale, cs := Stale(old(mem[..]), old(chunks)[i], size), old(chunks);
              && (cs[i].size > allocSize + 40 ==> Split(cs[i], size, stale).Some?)
              && chunks == if cs[i].size > allocSize + 40 then Halves(cs, i, size, stale) else cs
    {
      hide Sound, Linked, Split, AllocSize, Halves, Stale, Load64, Only;
      FoundChunk(chunks, i, size, Stale(mem[..], chunks[i], size), base, end);
      FoundHeader(mem[..], head, chunks, i, base, end);
      NothingStored(mem[..], tmp, chunks[i].size);
      ok := true;
      if HeaderAt(mem[..], tmp).size > allocSize + 40 {
        ok := SplitChunk(tmp, size, i);
      }
    }

    /** `_malloc` from the chunk it has found on. */
    method TakeFound(tmp: nat, size: nat, allocSize: nat, ghost i: nat) returns (r: nat)
      requires Valid() && size + 80 < U64 && allocSize == AllocSize(size)
      requires i < |chunks| && tmp == chunks[i].at && chunks[i].FreeFor(allocSize)
      modifies mem, this`tail, this`chunks
      ensures Valid() && Only(old(mem[..]), mem[..], tmp, old(chunks)[i].size)
      ensures (chunks, r) == TakeChunk(old(chunks), i, size, Stale(old(mem[..]), old(chunks)[i], size))
    {
      hide Sound, Linked, Replace, Split, AllocSize, TakeChunk, Halves, HandedOut, Stale, Only, Load64;
      ghost var m, cs := mem[..], chunks;
      ghost var stale := Stale(m, cs[i], size);
      TakeIsSound(cs, i, size, stale, base, end);
      FoundHeader(m, head, cs, i, base, end);
      r := 0;
      var ok := SplitIfLarge(tmp, size, allocSize, i);
      ghost var v := mem[..];
      SplitThenMark(cs, i, size, stale, chunks);
      if ok {
        r := HandOut(tmp, i, TakeChunk(cs, i, size, stale).0);
        Within(v, mem[..], tmp, 32, tmp, cs[i].size);
        Both(m, v, mem[..], tmp, cs[i].size);
      }
    }

    /** `_malloc` for a request that the list can serve. It stores nothing outside the chunk. */
    method MallocServed(size: nat) returns (r: nat)
      requires Valid() && size + 80 < U64 && Listed(chunks, size)
      modifies mem, this`tail, this`chunks
      ensures Valid() && FromList(old(mem[..]), mem[..], old(chunks), chunks, size, r)
    {
      hide Sound, Linked, TakeChunk, Stale, Only, Load64, FromList;
      NothingAsked(mem[..], chunks);
      if size == 0 { return 0; }
      var allocSize := Align(size + 32);
      assert allocSize == AllocSize(size);
      var tmp;
      ghost var i;
      ghost var m, cs := mem[..], chunks;
      tmp, i := FindFit(allocSize);
      r := TakeFound(tmp, size, allocSize, i);
      FromListIs(m, mem[..], cs, chunks, size, r, base, end);
    }

    /** The search of `_free`: the chunk and the one before it. */
    method FindChunk(addr: nat) returns (ptr: nat, prev: nat, ghost i: nat)
      requires Valid()
      ensures i == FindAddress(chunks, addr, 0) && ptr == if i < |chunks| then chunks[i].at else 0
      ensures prev == if i == 0 then head else chunks[i - 1].at
    {
      hide Load64;
      ChunksAscend(chunks, base, end);
      ptr, prev, i := head, head, 0;
      while ptr != 0
        invariant i <= |chunks| && ptr == if i < |chunks| then chunks[i].at else 0
        invariant prev == if i == 0 then head else chunks[i - 1].at
        invariant FindAddress(chunks, addr, 0) == FindAddress(chunks, addr, i)
        decreases |chunks| - i
      {
        assert Kept(mem[..], chunks, i);
        var h := HeaderAt(mem[..], ptr);
        if h.address == addr { break; }
        prev := ptr;
        ptr := h.next;
        i := i + 1;
      }
    }

    method MergeWithNext(ptr: nat, ghost i: nat)
      requires Valid() && i < |chunks| && ptr == chunks[i].at
      modifies mem, this`chunks
      ensures Valid() && chunks == MergeNext(old(chunks), i) && i < |chunks| && chunks[i].at == ptr
      ensures i > 0 ==> chunks[i - 1] == old(chunks)[i - 1]
      ensures chunks[i].used && i + 1 < |chunks| ==> chunks[i + 1].used
      ensures Only(old(mem[..]), mem[..], ptr, 32)
    {
      hide Tiles, NoFreePair, Addressed, Absorbed, Linked, Load64, Only;
      ghost var m, cs := mem[..], chunks;
      NothingStored(m, ptr, 32);
      MergeNextIsSound(cs, i, base, end);
      OneHeader(m, head, cs, i, base, end);
      if i + 1 < |cs| { OneHeader(m, head, cs, i + 1, base, end); }
      var h := HeaderAt(mem[..], ptr);
      if h.next != 0 && HeaderAt(mem[..], h.next).used == 0 {
        var next := HeaderAt(mem[..], h.next);
        SetSize(mem, ptr, h.size + next.size);
        ghost var v := mem[..];
        SetNext(mem, ptr, next.next);
        Twice(m, v, mem[..], ptr, h.(size := h.size + next.size, next := next.next));
        AbsorbLinks(m, mem[..], head, cs, i, cs[i].address, base, end);
        chunks := Absorbed(cs, i, cs[i].address);
      }
    }

    method MergeWithPrevious(ptr: nat, prev: nat, ghost i: nat)
      requires Valid() && i < |chunks| && ptr == chunks[i].at && prev == chunks[if i == 0 then 0 else i - 1].at
      requires chunks[i].used && i + 1 < |chunks| ==> chunks[i + 1].used
      modifies mem, this`chunks
      ensures Valid() && chunks == MergePrevious(old(chunks), i)
      ensures Only(old(mem[..]), mem[..], prev, 32)
    {
      hide Tiles, NoFreePair, Addressed, Absorbed, Linked, Load64, Only;
      ghost var m, cs := mem[..], chunks;
      NothingStored(m, prev, 32);
      MergePreviousIsSound(cs, i, base, end);
      OneHeader(m, head, cs, i, base, end);
      if i > 0 {
        OneHeader(m, head, cs, i - 1, base, end);
        ChunksAscend(cs, base, end);
      }
      if ptr != prev && HeaderAt(mem[..], prev).used == 0 {
        var h, p := HeaderAt(mem[..], ptr), HeaderAt(mem[..], prev);
        SetSize(mem, prev, p.size + h.size);
        ghost var v := mem[..];
        SetAddress(mem, prev, 0);
        Twice(m, v, mem[..], prev, p.(size := p.size + h.size, address := 0));
        v := mem[..];
        SetNext(mem, prev, h.next);
        Twice(m, v, mem[..], prev, Header(p.size + h.size, p.used, 0, h.next));
        AbsorbLinks(m, mem[..], head, cs, i - 1, 0, base, end);
        chunks := Absorbed(cs, i - 1, 0);
      }
    }

    /** `_free`, whatever it is given. It stores into headers of the list only. */
    method FreeAddress(addr: nat)
      requires Valid()
      modifies mem, this`chunks
      ensures Valid() && chunks == Free(old(chunks), addr)
      ensures forall j | 0 <= j < mem.Length && NoHeader(old(chunks), j) :: mem[j] == old(mem[j])
      ensures FindAddress(old(chunks), addr, 0) == |old(chunks)| ==> mem[..] == old(mem[..])
    {
      hide Sound, FindAddress, MergeNext, MergePrevious, Linked;
      var ptr, prev;
      ghost var i;
      ptr, prev, i := FindChunk(addr);
      ChunksAscend(chunks, base, end);
      if ptr == 0 { return; }
      ghost var cs := chunks;
      MergeWithNext(ptr, i);
      ghost var v := mem[..];
      FirstIsHead(old(mem[..]), head, cs);
      MergeWithPrevious(ptr, prev, i);
      forall j | 0 <= j < mem.Length && NoHeader(cs, j) ensures mem[j] == old(mem[j]) {
        assert !(ptr <= j < ptr + 32) && !(prev <= j < prev + 32);
        assert mem[..][j] == v[j] && v[j] == old(mem[..])[j];
      }
    }
  }

  /** No header of the list has this byte. */
  ghost predicate NoHeader(cs: seq<Chunk>, j: nat) { forall c | c in cs :: !(c.at <= j < c.at + 32) }

  lemma FirstIsHead(m: seq<byte>, head: nat, cs: seq<Chunk>)
    requires Linked(m, head, cs)
    ensures cs != [] && cs[0].at == head
  {
  }

  lemma FoundHeader(m: seq<byte>, head: nat, cs: seq<Chunk>, i: nat, base: nat, end: nat)
    requires Sound(cs, base, end) && Linked(m, head, cs) && i < |cs|
    ensures Holds(m, cs[i].at, HeaderOf(cs[i], NextAt(cs, i))) && cs[i].size >= 32
  {
    OneHeader(m, head, cs, i, base, end);
  }

  lemma TakenAt(cs: seq<Chunk>, i: nat, size: nat, stale: nat, base: nat, end: nat)
    requires Sound(cs, base, end) && i < |cs| && i == FirstFit(cs, AllocSize(size), 0) && 0 < size && size + 80 < U64
    ensures TakeChunk(cs, i, size, stale).1 == cs[i].at + 32
    ensures Malloc(cs, size, stale) == Some(TakeChunk(cs, i, size, stale))
  {
    TakeIsSound(cs, i, size, stale, base, end);
  }


  /** The header behind the first part of a split; its address field is not stored. */
  method WriteTail(mem: array<byte>, tmp: nat, size: nat, next: nat)
    requires tmp + 32 <= mem.Length && size < U64 && next < U64
    modifies mem
    ensures Stored(old(mem[..]), mem[..], tmp, Header(size, 0, HeaderAt(old(mem[..]), tmp).address, next))
  {
    hide Load64;
    SetSize(mem, tmp, size);
    SetNext(mem, tmp, next);
    SetUsed(mem, tmp, 0);
  }
}
