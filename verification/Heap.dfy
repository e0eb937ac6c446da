/** The chunk-list heap of heap.c: first fit, splitting, and merging on free. */
module Heap {
  import opened Bits
  import opened Wrappers

  /** A chunk of the list: where its 32-byte header is, and the header's fields but for the
      link. `address` is what `_free` looks for; in chunks never handed out it is whatever
      memory held. */
  datatype Chunk = Chunk(at: nat, size: nat, used: bool, address: nat) {
    function Payload(): nat { at + 32 }
    function End(): nat { at + size }
    predicate FreeFor(need: nat) { !used && size >= need }
  }

  /** `align`: always to eight bytes. */
  function Align(n: nat): nat { Add64(n, 7) / 8 * 8 }

  /** Header and payload of a request. */
  function AllocSize(size: nat): nat { Align(Add64(size, 32)) }

  /** A chunk of this size holds the request exactly when the sum does not wrap. */
  lemma AllocSizeHoldsIff(size: nat)
    requires size < U64
    ensures AllocSize(size) % 8 == 0
    ensures AllocSize(size) >= size + 32 <==> size + 39 < U64
    ensures size + 39 < U64 ==> AllocSize(size) < size + 40
  {
  }

  // ----- the operations

  /** The first free chunk from `i` on that is large enough; the length if there is none. */
  function FirstFit(cs: seq<Chunk>, need: nat, i: nat): (r: nat)
    requires i <= |cs|
    ensures i <= r <= |cs|
    ensures forall j | i <= j < r :: !cs[j].FreeFor(need)
    ensures r < |cs| ==> cs[r].FreeFor(need)
    decreases |cs| - i
  {
    if i == |cs| || cs[i].FreeFor(need) then i else FirstFit(cs, need, i + 1)
  }

  function Replace(cs: seq<Chunk>, i: nat, n: nat, xs: seq<Chunk>): seq<Chunk>
    requires i + n <= |cs|
  {
    cs[..i] + xs + cs[i + n..]
  }

  /** `split`: none if it refuses. The second header's `address` field keeps what was there. */
  function Split(c: Chunk, size: nat, stale: nat): Option<(Chunk, Chunk)>
    requires size + 80 < U64
  {
    if c.used || c.size <= Align(64) + size then None
    else
      var start := AllocSize(size);
      Some((c.(size := start), Chunk(c.at + start, c.size - start, false, stale)))
  }

  function HandedOut(c: Chunk): Chunk { c.(used := true, address := c.at + 32) }

  /** The chunk is taken, split before if more than a header and a word would be left. */
  function TakeChunk(cs: seq<Chunk>, i: nat, size: nat, stale: nat): (seq<Chunk>, nat)
    requires i < |cs| && size + 80 < U64
  {
    var c := cs[i];
    if c.size > AllocSize(size) + 40 then
      match Split(c, size, stale)
      case None => (cs, 0)
      case Some((a, b)) => (Replace(cs, i, 1, [HandedOut(a), b]), c.Payload())
    else (Replace(cs, i, 1, [HandedOut(c)]), c.Payload())
  }

  /** `_malloc`: none where the list cannot serve the request and the heap would grow. */
  function Malloc(cs: seq<Chunk>, size: nat, stale: nat): Option<(seq<Chunk>, nat)>
    requires size + 80 < U64
  {
    if size == 0 then Some((cs, 0))
    else
      var i := FirstFit(cs, AllocSize(size), 0);
      if i == |cs| then None else Some(TakeChunk(cs, i, size, stale))
  }

  /** The first chunk with this address; the length if there is none. */
  function FindAddress(cs: seq<Chunk>, a: nat, i: nat): (r: nat)
    requires i <= |cs|
    ensures i <= r <= |cs|
    ensures forall j | i <= j < r :: cs[j].address != a
    ensures r < |cs| ==> cs[r].address == a
    decreases |cs| - i
  {
    if i == |cs| || cs[i].address == a then i else FindAddress(cs, a, i + 1)
  }

  /** Chunk `i` takes over the one after it. */
  function Absorbed(cs: seq<Chunk>, i: nat, address: nat): seq<Chunk>
    requires i + 1 < |cs|
  {
    Replace(cs, i, 2, [cs[i].(size := cs[i].size + cs[i + 1].size, address := address)])
  }

  /** The next chunk is merged into this one if it is free. */
  function MergeNext(cs: seq<Chunk>, i: nat): seq<Chunk>
    requires i < |cs|
  {
    if i + 1 < |cs| && !cs[i + 1].used then Absorbed(cs, i, cs[i].address) else cs
  }

  /** This chunk is merged into the one before if that is free. */
  function MergePrevious(cs: seq<Chunk>, i: nat): seq<Chunk>
    requires i < |cs|
  {
    if i > 0 && !cs[i - 1].used then Absorbed(cs, i - 1, 0) else cs
  }

  /** `_free`: merging is all it does; `used` stays as it is. */
  function Free(cs: seq<Chunk>, a: nat): seq<Chunk> {
    var i := FindAddress(cs, a, 0);
    if i == |cs| then cs else MergePrevious(MergeNext(cs, i), i)
  }

  // ----- tiling

  /** The chunks fill the arena from `base` to `end` without gap or overlap; sizes are multiples
      of eight with room for a header. */
  ghost predicate Tiles(cs: seq<Chunk>, base: nat, end: nat)
    decreases |cs|
  {
    if cs == [] then base == end
    else cs[0].at == base && cs[0].size % 8 == 0 && cs[0].size >= 32 && Tiles(cs[1..], cs[0].End(), end)
  }

  lemma {:induction false} TilesJoin(a: seq<Chunk>, b: seq<Chunk>, base: nat, mid: nat, end: nat)
    requires Tiles(a, base, mid) && Tiles(b, mid, end)
    ensures Tiles(a + b, base, end)
    decreases |a|
  {
    if a == [] {
      assert a + b == b;
    } else {
      TilesJoin(a[1..], b, a[0].End(), mid, end);
      assert (a + b)[1..] == a[1..] + b;
    }
  }

  lemma {:induction false} TilesCut(cs: seq<Chunk>, k: nat, base: nat, end: nat) returns (mid: nat)
    requires Tiles(cs, base, end) && k <= |cs|
    ensures Tiles(cs[..k], base, mid) && Tiles(cs[k..], mid, end)
    ensures k < |cs| ==> cs[k].at == mid
    ensures k > 0 ==> cs[k - 1].End() == mid
    ensures base <= mid <= end
    decreases k
  {
    if k == 0 {
      mid := base;
      assert cs[..0] == [] && cs[0..] == cs;
      if cs != [] {
        TilesBounds(cs, base, end);
      }
    } else {
      mid := TilesCut(cs[1..], k - 1, cs[0].End(), end);
      assert cs[..k][1..] == cs[1..][..k - 1];
      assert cs[1..][k - 1..] == cs[k..];
    }
  }

  lemma {:induction false} TilesBounds(cs: seq<Chunk>, base: nat, end: nat)
    requires Tiles(cs, base, end)
    ensures base + 32 * |cs| <= end
    decreases |cs|
  {
    if cs != [] {
      TilesBounds(cs[1..], cs[0].End(), end);
    }
  }

  /** What replaces some chunks must fill the same stretch. */
  lemma ReplaceTiles(cs: seq<Chunk>, i: nat, n: nat, xs: seq<Chunk>, base: nat, end: nat)
    requires Tiles(cs, base, end) && 0 < n && i + n <= |cs|
    requires Tiles(xs, cs[i].at, cs[i + n - 1].End())
    ensures Tiles(Replace(cs, i, n, xs), base, end)
  {
    var low := TilesCut(cs, i, base, end);
    var high := TilesCut(cs, i + n, base, end);
    TilesJoin(cs[..i], xs, base, low, high);
    TilesJoin(cs[..i] + xs, cs[i + n..], base, high, end);
  }

  /** Where a chunk of a tiling lies, and its neighbour. */
  lemma ChunkInside(cs: seq<Chunk>, i: nat, base: nat, end: nat)
    requires Tiles(cs, base, end) && i < |cs|
    ensures cs[i].size % 8 == 0 && cs[i].size >= 32 && base <= cs[i].at && cs[i].End() <= end
    ensures cs[i].End() == if i + 1 < |cs| then cs[i + 1].at else end
    ensures base % 8 == 0 ==> cs[i].at % 8 == 0
  {
    var mid := TilesCut(cs, i, base, end);
    TilesAligned(cs[..i], base, mid);
    assert cs[i..][0] == cs[i];
    var next := TilesCut(cs, i + 1, base, end);
  }

  lemma {:induction false} TilesAligned(cs: seq<Chunk>, base: nat, end: nat)
    requires Tiles(cs, base, end)
    ensures base % 8 == 0 ==> end % 8 == 0
    decreases |cs|
  {
    if cs != [] {
      TilesAligned(cs[1..], cs[0].End(), end);
    }
  }

  /** A later chunk starts at or after the end of an earlier one. */
  lemma TilesInOrder(cs: seq<Chunk>, i: nat, j: nat, base: nat, end: nat)
    requires Tiles(cs, base, end) && i < j < |cs|
    ensures cs[i].End() <= cs[j].at
  {
    var mid := TilesCut(cs, i + 1, base, end);
    assert cs[i + 1..][j - i - 1] == cs[j];
    ChunkInside(cs[i + 1..], j - i - 1, mid, end);
  }

  function TotalSize(cs: seq<Chunk>): nat {
    if cs == [] then 0 else cs[0].size + TotalSize(cs[1..])
  }

  lemma {:induction false} TilesTotal(cs: seq<Chunk>, base: nat, end: nat)
    requires Tiles(cs, base, end)
    ensures TotalSize(cs) == end - base
    decreases |cs|
  {
    if cs != [] {
      TilesTotal(cs[1..], cs[0].End(), end);
    }
  }

  // ----- what every call keeps

  ghost predicate NoFreePair(cs: seq<Chunk>) {
    forall i | 0 < i < |cs| :: cs[i - 1].used || cs[i].used
  }

  /** Chunks that were handed out carry their own payload address; the others, anything. */
  ghost predicate Addressed(cs: seq<Chunk>) {
    forall i | 0 <= i < |cs| && cs[i].used :: cs[i].address == cs[i].Payload()
  }

  ghost predicate Sound(cs: seq<Chunk>, base: nat, end: nat) {
    cs != [] && 0 < base && base % 8 == 0 && end < U64 && Tiles(cs, base, end) && NoFreePair(cs) && Addressed(cs)
  }

  lemma ReplaceNoFreePair(cs: seq<Chunk>, i: nat, n: nat, xs: seq<Chunk>)
    requires NoFreePair(cs) && NoFreePair(xs) && i + n <= |cs| && xs != []
    requires i > 0 ==> cs[i - 1].used || xs[0].used
    requires i + n < |cs| ==> xs[|xs| - 1].used || cs[i + n].used
    ensures NoFreePair(Replace(cs, i, n, xs))
  {
    var r := Replace(cs, i, n, xs);
    forall k | 0 < k < |r| ensures r[k - 1].used || r[k].used {
      if k < i {
        assert r[k - 1] == cs[k - 1] && r[k] == cs[k];
      } else if i < k < i + |xs| {
        assert r[k - 1] == xs[k - 1 - i] && r[k] == xs[k - i];
      } else if k > i + |xs| {
        assert r[k - 1] == cs[k - 1 - |xs| + n] && r[k] == cs[k - |xs| + n];
      }
    }
  }

  lemma SplitTiles(c: Chunk, size: nat, stale: nat)
    requires !c.used && c.size % 8 == 0 && c.size > AllocSize(size) + 40 && size + 80 < U64
    ensures Split(c, size, stale).Some?
    ensures var (a, b) := Split(c, size, stale).value;
            && Tiles([HandedOut(a), b], c.at, c.End())
            && a.at == c.at && a.size == AllocSize(size) && !b.used && b.address == stale && b.size > 40
  {
    AllocSizeHoldsIff(size);
    var (a, b) := Split(c, size, stale).value;
    assert [HandedOut(a), b][1..] == [b] && [b][1..] == [];
  }

  /** A request the list can serve: it gets the lowest free chunk that fits, of which it has at
      least `size` bytes behind the header; `split` never refuses. */
  lemma MallocTakesLowest(cs: seq<Chunk>, size: nat, stale: nat, base: nat, end: nat) returns (i: nat)
    requires Sound(cs, base, end) && 0 < size && size + 80 < U64 && Malloc(cs, size, stale).Some?
    ensures i < |cs| && cs[i].FreeFor(AllocSize(size))
    ensures forall j | 0 <= j < |cs| && cs[j].FreeFor(AllocSize(size)) :: cs[i].at <= cs[j].at
    ensures var (u, r) := Malloc(cs, size, stale).value;
            && r == cs[i].at + 32 && r % 8 == 0 && Sound(u, base, end)
            && u[..i] == cs[..i] && i < |u| && u[i].used && u[i].address == r && size <= u[i].size - 32
            && (forall j | i < j < |cs| :: cs[j] in u)
  {
    i := FirstFit(cs, AllocSize(size), 0);
    forall j | 0 <= j < |cs| && cs[j].FreeFor(AllocSize(size)) ensures cs[i].at <= cs[j].at {
      if i < j {
        TilesInOrder(cs, i, j, base, end);
      }
    }
    AllocSizeHoldsIff(size);
    ChunkInside(cs, i, base, end);
    TakeIsSound(cs, i, size, stale, base, end);
  }

  /** The pieces that replace the chunk. */
  function Pieces(c: Chunk, size: nat, stale: nat): seq<Chunk>
    requires size + 80 < U64
  {
    match Split(c, size, stale)
    case Some((a, b)) => if c.size > AllocSize(size) + 40 then [HandedOut(a), b] else [HandedOut(c)]
    case None => [HandedOut(c)]
  }

  lemma PiecesFit(c: Chunk, size: nat, stale: nat, cs: seq<Chunk>, i: nat)
    requires c.FreeFor(AllocSize(size)) && c.size % 8 == 0 && c.size >= 32 && size + 80 < U64 && i < |cs| && cs[i] == c
    ensures TakeChunk(cs, i, size, stale) == (Replace(cs, i, 1, Pieces(c, size, stale)), c.Payload())
    ensures var xs := Pieces(c, size, stale);
            && xs != [] && xs[0].used && xs[0].address == c.Payload() && xs[0].size >= AllocSize(size)
            && Tiles(xs, c.at, c.End()) && Addressed(xs) && NoFreePair(xs)
  {
    AllocSizeHoldsIff(size);
    if c.size > AllocSize(size) + 40 {
      SplitTiles(c, size, stale);
    } else {
      assert [HandedOut(c)][1..] == [];
    }
  }

  lemma TakeIsSound(cs: seq<Chunk>, i: nat, size: nat, stale: nat, base: nat, end: nat)
    requires Sound(cs, base, end) && size + 80 < U64 && i < |cs| && cs[i].FreeFor(AllocSize(size))
    ensures var (u, r) := TakeChunk(cs, i, size, stale);
            && r == cs[i].Payload() && Sound(u, base, end)
            && u[..i] == cs[..i] && i < |u| && u[i].used && u[i].address == r && u[i].size >= AllocSize(size)
            && (forall j | i < j < |cs| :: cs[j] in u)
  {
    hide Tiles, TakeChunk, Split, AllocSize, Pieces;
    ChunkInside(cs, i, base, end);
    var xs := Pieces(cs[i], size, stale);
    PiecesFit(cs[i], size, stale, cs, i);
    ReplaceTiles(cs, i, 1, xs, base, end);
    ReplaceNoFreePair(cs, i, 1, xs);
    var u := Replace(cs, i, 1, xs);
    forall j | i < j < |cs| ensures cs[j] in u {
      assert u[j - 1 + |xs|] == cs[j];
    }
  }

  /** `split` refuses a chunk in use, and one that two headers and the request fill. */
  lemma SplitIsExact(c: Chunk, size: nat, stale: nat)
    requires size + 80 < U64
    ensures var need := (size + 39) / 8 * 8;
            Split(c, size, stale)
            == if c.used || c.size <= size + 64 then None
               else Some((Chunk(c.at, need, false, c.address), Chunk(c.at + need, c.size - need, false, stale)))
  {
    NeedIs(size);
    assert Align(64) == 64;
  }

  /** The size of the chunk for a request. */
  lemma NeedIs(size: nat)
    requires size + 80 < U64
    ensures AllocSize(size) == (size + 39) / 8 * 8
  {
  }

  /** A request is served unless every chunk is in use or too small. */
  lemma MallocRefusesIff(cs: seq<Chunk>, size: nat, stale: nat)
    requires 0 < size && size + 80 < U64
    ensures Malloc(cs, size, stale).None?
        <==> forall j | 0 <= j < |cs| :: cs[j].used || cs[j].size < (size + 39) / 8 * 8
  {
    NeedIs(size);
    hide AllocSize, TakeChunk;
  }

  /** It gets the first chunk that is free and large enough, split in two if more than 40 bytes are left
      over. */
  lemma MallocIsExact(cs: seq<Chunk>, size: nat, stale: nat, i: nat)
    requires 0 < size && size + 80 < U64 && i < |cs| && !cs[i].used && cs[i].size >= (size + 39) / 8 * 8
    requires forall j | 0 <= j < i :: cs[j].used || cs[j].size < (size + 39) / 8 * 8
    ensures var need, at := (size + 39) / 8 * 8, cs[i].at;
            var taken := if cs[i].size > need + 40
                then [Chunk(at, need, true, at + 32), Chunk(at + need, cs[i].size - need, false, stale)]
                else [Chunk(at, cs[i].size, true, at + 32)];
            Malloc(cs, size, stale) == Some((cs[..i] + taken + cs[i + 1..], at + 32))
  {
    NeedIs(size);
    assert cs[i].size > AllocSize(size) + 40 ==> Split(cs[i], size, stale).Some? by { assert Align(64) == 64; }
    FirstFitIs(cs, AllocSize(size), i);
    hide FirstFit, AllocSize;
  }

  lemma FirstFitIs(cs: seq<Chunk>, need: nat, i: nat)
    requires i < |cs| && cs[i].FreeFor(need) && forall j | 0 <= j < i :: !cs[j].FreeFor(need)
    ensures FirstFit(cs, need, 0) == i
  {
  }

  /** Freeing an address that no chunk carries does nothing. */
  lemma FreeNothing(cs: seq<Chunk>, a: nat)
    requires forall j | 0 <= j < |cs| :: cs[j].address != a
    ensures Free(cs, a) == cs
  {
  }

  /** Otherwise the first chunk that carries it takes over a free chunk behind it, and is taken over by a free
      chunk in front of it, which then carries no address. */
  lemma FreeIsExact(cs: seq<Chunk>, a: nat, i: nat)
    requires i < |cs| && cs[i].address == a && forall j | 0 <= j < i :: cs[j].address != a
    ensures var behind := i + 1 < |cs| && !cs[i + 1].used;
            var size := cs[i].size + if behind then cs[i + 1].size else 0;
            var rest := cs[if behind then i + 2 else i + 1..];
            Free(cs, a) == if i > 0 && !cs[i - 1].used
              then cs[..i - 1] + [Chunk(cs[i - 1].at, cs[i - 1].size + size, false, 0)] + rest
              else cs[..i] + [cs[i].(size := size)] + rest
  {
    assert FindAddress(cs, a, 0) == i;
    var behind := i + 1 < |cs| && !cs[i + 1].used;
    var size := cs[i].size + if behind then cs[i + 1].size else 0;
    var rest := cs[if behind then i + 2 else i + 1..];
    MergeNextIs(cs, i, size, rest);
    hide MergeNext, MergePrevious, FindAddress;
    MergePreviousIs(cs[..i], cs[i].(size := size), rest);
  }

  lemma MergeNextIs(cs: seq<Chunk>, i: nat, size: nat, rest: seq<Chunk>)
    requires i < |cs| && size == cs[i].size + if i + 1 < |cs| && !cs[i + 1].used then cs[i + 1].size else 0
    requires rest == cs[if i + 1 < |cs| && !cs[i + 1].used then i + 2 else i + 1..]
    ensures MergeNext(cs, i) == cs[..i] + [cs[i].(size := size)] + rest
  {
    assert cs == cs[..i] + [cs[i]] + cs[i + 1..];
  }

  lemma MergePreviousIs(front: seq<Chunk>, c: Chunk, rest: seq<Chunk>)
    ensures var n := |front|;
            MergePrevious(front + [c] + rest, n)
            == if n > 0 && !front[n - 1].used
               then front[..n - 1] + [Chunk(front[n - 1].at, front[n - 1].size + c.size, false, 0)] + rest
               else front + [c] + rest
  {
    var n, cs := |front|, front + [c] + rest;
    assert cs[n] == c && (n > 0 ==> cs[n - 1] == front[n - 1] && cs[..n - 1] == front[..n - 1]);
    assert cs[n + 1..] == rest;
  }

  /** Merging two neighbours. */
  lemma MergeIsSound(cs: seq<Chunk>, i: nat, c: Chunk, base: nat, end: nat)
    requires Sound(cs, base, end) && i + 1 < |cs|
    requires c.at == cs[i].at && c.size == cs[i].size + cs[i + 1].size && c.used == cs[i].used
    requires c.used ==> c.address == cs[i].address
    requires i + 2 < |cs| ==> c.used || cs[i + 2].used
    ensures Sound(Replace(cs, i, 2, [c]), base, end)
  {
    ChunkInside(cs, i, base, end);
    ChunkInside(cs, i + 1, base, end);
    assert [c][1..] == [];
    ReplaceTiles(cs, i, 2, [c], base, end);
    ReplaceNoFreePair(cs, i, 2, [c]);
  }

  /** A chunk in use that is not the one at `i` outlives the merging. */
  ghost predicate OthersStay(cs: seq<Chunk>, u: seq<Chunk>, i: nat) {
    forall j | 0 <= j < |cs| && j != i && cs[j].used :: cs[j] in u
  }

  lemma MergeNextIsSound(cs: seq<Chunk>, i: nat, base: nat, end: nat)
    requires Sound(cs, base, end) && i < |cs|
    ensures var u := MergeNext(cs, i);
            && Sound(u, base, end) && i < |u| && u[..i] == cs[..i] && u[i].used == cs[i].used
            && u[i].at == cs[i].at && u[i].address == cs[i].address && (i > 0 ==> u[i - 1] == cs[i - 1])
            && (cs[i].used && i + 1 < |u| ==> u[i + 1].used) && OthersStay(cs, u, i)
  {
    hide Tiles, Addressed;
    if i + 1 < |cs| && !cs[i + 1].used {
      MergeIsSound(cs, i, cs[i].(size := cs[i].size + cs[i + 1].size), base, end);
      var u := MergeNext(cs, i);
      forall j | 0 <= j < |cs| && j != i && cs[j].used ensures cs[j] in u {
        assert u[if j < i then j else j - 1] == cs[j];
      }
    }
  }

  lemma MergePreviousIsSound(cs: seq<Chunk>, i: nat, base: nat, end: nat)
    requires Sound(cs, base, end) && i < |cs| && (cs[i].used && i + 1 < |cs| ==> cs[i + 1].used)
    ensures Sound(MergePrevious(cs, i), base, end) && OthersStay(cs, MergePrevious(cs, i), i)
  {
    hide Tiles, Addressed;
    if i > 0 && !cs[i - 1].used {
      MergeIsSound(cs, i - 1, cs[i - 1].(size := cs[i - 1].size + cs[i].size, address := 0), base, end);
      var u := MergePrevious(cs, i);
      forall j | 0 <= j < |cs| && j != i && cs[j].used ensures cs[j] in u {
        assert u[if j < i then j else j - 1] == cs[j];
      }
    }
  }

  /** Whatever address it is given, `_free` keeps the heap sound, and keeps every chunk in use
      that has another address. */
  lemma FreeIsSound(cs: seq<Chunk>, a: nat, base: nat, end: nat)
    requires Sound(cs, base, end)
    ensures Sound(Free(cs, a), base, end)
    ensures forall c | c in cs && c.used && c.address != a :: c in Free(cs, a)
  {
    hide Sound, MergeNext, MergePrevious;
    var i := FindAddress(cs, a, 0);
    if i < |cs| {
      var mid := MergeNext(cs, i);
      MergeNextIsSound(cs, i, base, end);
      MergePreviousIsSound(mid, i, base, end);
      forall c | c in cs && c.used && c.address != a ensures c in Free(cs, a) {
        var j :| 0 <= j < |cs| && cs[j] == c;
        StaysThrough(cs, mid, Free(cs, a), i, j);
      }
    }
  }

  lemma StaysThrough(cs: seq<Chunk>, mid: seq<Chunk>, u: seq<Chunk>, i: nat, j: nat)
    requires OthersStay(cs, mid, i) && OthersStay(mid, u, i) && j < |cs| && j != i && cs[j].used
    requires i < |mid| && i < |cs| && mid[..i] == cs[..i] && cs[i].address != cs[j].address
    requires mid[i].address == cs[i].address
    ensures cs[j] in u
  {
    assert cs[j] in mid;
    var k :| 0 <= k < |mid| && mid[k] == cs[j];
  }

  /** An address that a free chunk happens to hold is found there, and nothing is changed. */
  lemma StaleMatchDoesNothing(cs: seq<Chunk>, a: nat)
    requires NoFreePair(cs) && FindAddress(cs, a, 0) < |cs| && !cs[FindAddress(cs, a, 0)].used
    ensures Free(cs, a) == cs
  {
    var i := FindAddress(cs, a, 0);
    assert MergeNext(cs, i) == cs;
  }

  /** A payload is found in its own chunk exactly when no free chunk before it holds its address. */
  lemma PayloadFoundIff(cs: seq<Chunk>, i: nat, base: nat, end: nat)
    requires Sound(cs, base, end) && i < |cs| && cs[i].used
    ensures FindAddress(cs, cs[i].Payload(), 0) == i
        <==> forall j | 0 <= j < i && !cs[j].used :: cs[j].address != cs[i].Payload()
  {
    var a := cs[i].Payload();
    forall j | 0 <= j < i && cs[j].used ensures cs[j].address != a {
      TilesInOrder(cs, j, i, base, end);
      ChunkInside(cs, j, base, end);
    }
  }

  function FreeBytes(cs: seq<Chunk>): nat {
    if cs == [] then 0 else (if cs[0].used then 0 else cs[0].size) + FreeBytes(cs[1..])
  }

  lemma {:induction false} FreeBytesJoin(a: seq<Chunk>, b: seq<Chunk>)
    ensures FreeBytes(a + b) == FreeBytes(a) + FreeBytes(b)
    decreases |a|
  {
    if a == [] {
      assert a + b == b;
    } else {
      FreeBytesJoin(a[1..], b);
      assert (a + b)[1..] == a[1..] + b;
    }
  }

  lemma FreeBytesReplace(cs: seq<Chunk>, i: nat, n: nat, xs: seq<Chunk>)
    requires i + n <= |cs|
    ensures FreeBytes(Replace(cs, i, n, xs)) == FreeBytes(cs) - FreeBytes(cs[i..i + n]) + FreeBytes(xs)
  {
    hide FreeBytes;
    FreeBytesJoin(cs[..i] + xs, cs[i + n..]);
    FreeBytesJoin(cs[..i], xs);
    FreeBytesJoin(cs[..i], cs[i..i + n]);
    FreeBytesJoin(cs[..i] + cs[i..i + n], cs[i + n..]);
    assert cs == cs[..i] + cs[i..i + n] + cs[i + n..];
  }

  lemma FreeBytesOfTwo(a: Chunk, b: Chunk)
    ensures FreeBytes([a]) == if a.used then 0 else a.size
    ensures FreeBytes([a, b]) == (if a.used then 0 else a.size) + if b.used then 0 else b.size
  {
    assert [a, b][1..] == [b] && [b][1..] == [] && [a][1..] == [];
  }

  lemma MergeBytes(cs: seq<Chunk>, i: nat, c: Chunk)
    requires i + 1 < |cs| && c.size == cs[i].size + cs[i + 1].size && c.used == cs[i].used
    ensures FreeBytes(Replace(cs, i, 2, [c]))
          + (if cs[i].used then 0 else cs[i].size) + (if cs[i + 1].used then 0 else cs[i + 1].size)
         == FreeBytes(cs) + if c.used then 0 else c.size
  {
    hide FreeBytes, Replace;
    FreeBytesReplace(cs, i, 2, [c]);
    assert cs[i..i + 2] == [cs[i], cs[i + 1]];
    FreeBytesOfTwo(cs[i], cs[i + 1]);
    FreeBytesOfTwo(c, c);
  }

  lemma NextBytes(cs: seq<Chunk>, i: nat)
    requires i < |cs| && cs[i].used
    ensures FreeBytes(MergeNext(cs, i)) + (if i + 1 < |cs| && !cs[i + 1].used then cs[i + 1].size else 0)
            == FreeBytes(cs)
    ensures i < |MergeNext(cs, i)| && MergeNext(cs, i)[i].used && (i > 0 ==> MergeNext(cs, i)[i - 1] == cs[i - 1])
    ensures MergeNext(cs, i)[i].size == cs[i].size + if i + 1 < |cs| && !cs[i + 1].used then cs[i + 1].size else 0
  {
    hide FreeBytes;
    if i + 1 < |cs| && !cs[i + 1].used {
      MergeBytes(cs, i, cs[i].(size := cs[i].size + cs[i + 1].size));
    }
  }

  lemma PreviousBytes(cs: seq<Chunk>, i: nat)
    requires i < |cs| && cs[i].used
    ensures FreeBytes(MergePrevious(cs, i)) == FreeBytes(cs) + if i > 0 && !cs[i - 1].used then cs[i].size else 0
  {
    hide FreeBytes;
    if i > 0 && !cs[i - 1].used {
      MergeBytes(cs, i - 1, cs[i - 1].(size := cs[i - 1].size + cs[i].size, address := 0));
    }
  }

  /** What freeing does for later requests: behind a free chunk, the chunk becomes free; else it
      does not, and even takes a free chunk that follows out of use. */
  lemma FreedBytes(cs: seq<Chunk>, i: nat)
    requires i < |cs| && cs[i].used && FindAddress(cs, cs[i].address, 0) == i
    ensures var after := FreeBytes(Free(cs, cs[i].address));
            if i > 0 && !cs[i - 1].used then after == FreeBytes(cs) + cs[i].size
            else if i + 1 < |cs| && !cs[i + 1].used then after + cs[i + 1].size == FreeBytes(cs)
            else after == FreeBytes(cs)
  {
    hide FreeBytes, MergeNext, MergePrevious;
    NextBytes(cs, i);
    PreviousBytes(MergeNext(cs, i), i);
  }

  // ----- whole runs

  /** The payloads handed out and not yet given back, each with the size asked for. */
  type Live = map<nat, nat>

  /** Each of them is the payload of a chunk in use that has room for it. */
  ghost predicate Backed(cs: seq<Chunk>, live: Live) {
    forall p | p in live :: exists c :: c in cs && c.used && c.address == p && live[p] <= c.size - 32
  }

  /** Chunks of the list do not overlap. */
  lemma ChunksApart(cs: seq<Chunk>, c: Chunk, d: Chunk, base: nat, end: nat)
    requires Tiles(cs, base, end) && c in cs && d in cs
    ensures c == d || c.End() <= d.at || d.End() <= c.at
  {
    var i :| 0 <= i < |cs| && cs[i] == c;
    var j :| 0 <= j < |cs| && cs[j] == d;
    if i < j {
      TilesInOrder(cs, i, j, base, end);
    } else if j < i {
      TilesInOrder(cs, j, i, base, end);
    }
  }

  lemma ChunkFits(cs: seq<Chunk>, c: Chunk, base: nat, end: nat)
    requires Sound(cs, base, end) && c in cs
    ensures c.at % 8 == 0 && base <= c.at && c.at + 32 <= c.End() <= end && (c.used ==> c.address == c.Payload())
  {
    var i :| 0 <= i < |cs| && cs[i] == c;
    ChunkInside(cs, i, base, end);
  }

  /** Live payloads are aligned, lie in the arena, and are clear of each other and of all
      headers. */
  lemma LivePayloadsApart(cs: seq<Chunk>, live: Live, base: nat, end: nat, p: nat)
    requires Sound(cs, base, end) && Backed(cs, live) && p in live
    ensures p % 8 == 0 && base + 32 <= p && p + live[p] <= end
    ensures forall c | c in cs :: p + live[p] <= c.at || c.at + 32 <= p
    ensures forall q | q in live && q != p :: p + live[p] + 32 <= q || q + live[q] + 32 <= p
  {
    hide Tiles, NoFreePair, Addressed;
    var d :| d in cs && d.used && d.address == p && live[p] <= d.size - 32;
    ChunkFits(cs, d, base, end);
    forall c | c in cs ensures p + live[p] <= c.at || c.at + 32 <= p {
      ChunksApart(cs, c, d, base, end);
      ChunkFits(cs, c, base, end);
    }
    forall q | q in live && q != p ensures p + live[p] + 32 <= q || q + live[q] + 32 <= p {
      var c :| c in cs && c.used && c.address == q && live[q] <= c.size - 32;
      ChunksApart(cs, c, d, base, end);
      ChunkFits(cs, c, base, end);
    }
  }

  datatype Op = Alloc(size: nat, stale: nat) | Release(address: nat)

  /** The list serves the request, whose size is not within a few bytes of 2^64; anything may
      be passed to `_free`. */
  predicate Legal(cs: seq<Chunk>, op: Op) {
    op.Alloc? ==> op.size + 80 < U64 && Malloc(cs, op.size, op.stale).Some?
  }

  function Step(cs: seq<Chunk>, op: Op): (seq<Chunk>, nat)
    requires Legal(cs, op)
  {
    match op
    case Alloc(size, stale) => Malloc(cs, size, stale).value
    case Release(address) => (Free(cs, address), 0)
  }

  function Ledger(live: Live, op: Op, r: nat): Live {
    match op
    case Alloc(size, _) => if r == 0 then live else live[r := size]
    case Release(address) => live - {address}
  }

  lemma AllocKeeps(cs: seq<Chunk>, live: Live, size: nat, stale: nat, base: nat, end: nat)
    requires Sound(cs, base, end) && Backed(cs, live) && Legal(cs, Alloc(size, stale)) && 0 < size
    ensures var (u, r) := Malloc(cs, size, stale).value;
            r != 0 && r !in live && Sound(u, base, end) && Backed(u, live[r := size])
  {
    hide Malloc, Tiles;
    var i := MallocTakesLowest(cs, size, stale, base, end);
    var (u, r) := Malloc(cs, size, stale).value;
    if r in live {
      var c :| c in cs && c.used && c.address == r && live[r] <= c.size - 32;
      var j :| 0 <= j < |cs| && cs[j] == c;
      ChunkInside(cs, i, base, end);
      ChunkInside(cs, j, base, end);
      if i < j {
        TilesInOrder(cs, i, j, base, end);
      } else {
        TilesInOrder(cs, j, i, base, end);
      }
      assert false;
    }
    forall p | p in live ensures exists c :: c in u && c.used && c.address == p && live[p] <= c.size - 32 {
      var c :| c in cs && c.used && c.address == p && live[p] <= c.size - 32;
      var j :| 0 <= j < |cs| && cs[j] == c;
      assert j < i ==> u[..i][j] == c;
    }
    assert u[i] in u;
  }

  lemma StepKeeps(cs: seq<Chunk>, live: Live, op: Op, base: nat, end: nat)
    requires Sound(cs, base, end) && Backed(cs, live) && Legal(cs, op)
    ensures var (u, r) := Step(cs, op); Sound(u, base, end) && Backed(u, Ledger(live, op, r))
  {
    hide Sound;
    match op
    case Alloc(size, stale) =>
      if size > 0 {
        AllocKeeps(cs, live, size, stale, base, end);
      }
    case Release(a) => FreeIsSound(cs, a, base, end);
  }

  predicate LegalRun(cs: seq<Chunk>, ops: seq<Op>)
    decreases |ops|
  {
    ops == [] || (Legal(cs, ops[0]) && LegalRun(Step(cs, ops[0]).0, ops[1..]))
  }

  function Run(cs: seq<Chunk>, live: Live, ops: seq<Op>): (seq<Chunk>, Live)
    requires LegalRun(cs, ops)
    decreases |ops|
  {
    if ops == [] then (cs, live)
    else var (u, r) := Step(cs, ops[0]); Run(u, Ledger(live, ops[0], r), ops[1..])
  }

  lemma {:induction false} RunKeeps(cs: seq<Chunk>, live: Live, ops: seq<Op>, base: nat, end: nat)
    requires Sound(cs, base, end) && Backed(cs, live) && LegalRun(cs, ops)
    ensures var (u, l) := Run(cs, live, ops); Sound(u, base, end) && Backed(u, l)
    decreases |ops|
  {
    if ops != [] {
      hide Sound, Backed, Step, Ledger;
      StepKeeps(cs, live, ops[0], base, end);
      var (u, r) := Step(cs, ops[0]);
      RunKeeps(u, Ledger(live, ops[0], r), ops[1..], base, end);
    }
  }

  /** A payload that is handed out stays among the live ones, with its size, until it is given back. */
  lemma {:induction false} StaysLive(cs: seq<Chunk>, live: Live, ops: seq<Op>, base: nat, end: nat, p: nat)
    requires Sound(cs, base, end) && Backed(cs, live) && LegalRun(cs, ops) && p in live
    requires forall op | op in ops :: op != Release(p)
    ensures var l := Run(cs, live, ops).1; p in l && l[p] == live[p]
    decreases |ops|
  {
    if ops != [] {
      hide Sound, Backed, Step;
      assert ops[0] in ops && forall op | op in ops[1..] :: op in ops;
      var (u, r) := Step(cs, ops[0]);
      StepKeeps(cs, live, ops[0], base, end);
      StepStaysLive(cs, live, ops[0], base, end, p);
      StaysLive(u, Ledger(live, ops[0], r), ops[1..], base, end, p);
    }
  }

  lemma StepStaysLive(cs: seq<Chunk>, live: Live, op: Op, base: nat, end: nat, p: nat)
    requires Sound(cs, base, end) && Backed(cs, live) && Legal(cs, op) && p in live && op != Release(p)
    ensures var l := Ledger(live, op, Step(cs, op).1); p in l && l[p] == live[p]
  {
    hide Sound, Backed, Malloc;
    match op
    case Alloc(size, stale) =>
      if size > 0 {
        AllocKeeps(cs, live, size, stale, base, end);
      } else {
        EmptyRequest(cs, stale);
      }
    case Release(_) =>
  }

  lemma EmptyRequest(cs: seq<Chunk>, stale: nat)
    ensures Malloc(cs, 0, stale) == Some((cs, 0))
  {
  }

  /** So after any run, every request in it that was not for nothing and that nothing has given back since is
      backed by a chunk of its own. */
  lemma {:induction false} EveryRequestBacked(cs: seq<Chunk>, live: Live, size: nat, stale: nat, ops: seq<Op>,
                                              base: nat, end: nat)
    requires Sound(cs, base, end) && Backed(cs, live) && 0 < size && LegalRun(cs, [Alloc(size, stale)] + ops)
    ensures Legal(cs, Alloc(size, stale))
    ensures var (u, r) := Malloc(cs, size, stale).value;
            (forall op | op in ops :: op != Release(r)) ==>
              var (v, l) := Run(cs, live, [Alloc(size, stale)] + ops);
              r in l && l[r] == size && exists c :: c in v && c.used && c.at + 32 == r && size <= c.size - 32
  {
    hide Sound, Malloc;
    var all := [Alloc(size, stale)] + ops;
    assert all[0] == Alloc(size, stale) && all[1..] == ops;
    AllocKeeps(cs, live, size, stale, base, end);
    var (u, r) := Malloc(cs, size, stale).value;
    if forall op | op in ops :: op != Release(r) {
      StaysLive(u, live[r := size], ops, base, end, r);
      RunKeeps(u, live[r := size], ops, base, end);
      var (v, l) := Run(u, live[r := size], ops);
      var c :| c in v && c.used && c.address == r && l[r] <= c.size - 32;
      ChunkFits(v, c, base, end);
    }
  }

  /** `heap_init`: one free chunk. Its size is the two pages asked for, and once more those and
      the byte behind them in whole pages. */
  function Init(base: nat, stale: nat): seq<Chunk>
    requires base + 0x2000 < U64
  {
    [Chunk(base, 0x2000 + PageUp(base + 0x2000 + 1 - base), false, stale)]
  }

  lemma InitIsSound(base: nat, stale: nat)
    requires 0 < base && base % 8 == 0 && base + 0x5000 < U64
    ensures Init(base, stale) == [Chunk(base, 0x5000, false, stale)]
    ensures Sound(Init(base, stale), base, base + 0x5000)
  {
    assert base + 0x2000 + 1 - base == 0x2001 && PageUp(0x2001) == 0x3000;
    assert [Chunk(base, 0x5000, false, stale)][1..] == [];
  }

  /** Over any run of requests that the list serves and frees of any addresses at all: the
      chunks tile the initial 20 KB with aligned sizes, no two neighbours are both free, and
      the live payloads are apart. */
  lemma RunFromInit(base: nat, stale: nat, ops: seq<Op>)
    requires 0 < base && base % 8 == 0 && base + 0x5000 < U64 && LegalRun(Init(base, stale), ops)
    ensures var (u, live) := Run(Init(base, stale), map[], ops);
            && Sound(u, base, base + 0x5000) && TotalSize(u) == 0x5000 && Backed(u, live)
            && forall p, q | p in live && q in live && p != q :: p + live[p] + 32 <= q || q + live[q] + 32 <= p
  {
    hide Run;
    InitIsSound(base, stale);
    RunKeeps(Init(base, stale), map[], ops, base, base + 0x5000);
    var (u, live) := Run(Init(base, stale), map[], ops);
    TilesTotal(u, base, base + 0x5000);
    forall p, q | p in live && q in live && p != q ensures p + live[p] + 32 <= q || q + live[q] + 32 <= p {
      LivePayloadsApart(u, live, base, base + 0x5000, p);
    }
  }

  // ----- what the list of heap_init never does

  /** No chunk but the last is free. */
  ghost predicate OnlyLastFree(cs: seq<Chunk>) {
    forall i | 0 <= i < |cs| - 1 :: cs[i].used
  }

  lemma {:induction false} FreeBytesOfLast(cs: seq<Chunk>)
    requires OnlyLastFree(cs) && cs != []
    ensures FreeBytes(cs) == if cs[|cs| - 1].used then 0 else cs[|cs| - 1].size
    decreases |cs|
  {
    if |cs| > 1 {
      assert forall i | 0 <= i < |cs[1..]| - 1 :: cs[1..][i] == cs[i + 1];
      FreeBytesOfLast(cs[1..]);
    } else {
      assert cs[1..] == [];
    }
  }

  /** A request is served from the last chunk, and leaves no more than the rest of it. */
  lemma MallocUsesLast(cs: seq<Chunk>, size: nat, stale: nat, base: nat, end: nat)
    requires Sound(cs, base, end) && OnlyLastFree(cs) && 0 < size && size + 80 < U64 && Malloc(cs, size, stale).Some?
    ensures var u := Malloc(cs, size, stale).value.0;
            u != [] && OnlyLastFree(u) && FreeBytes(u) + AllocSize(size) <= FreeBytes(cs)
  {
    var i := FirstFit(cs, AllocSize(size), 0);
    assert i == |cs| - 1;
    ChunkInside(cs, i, base, end);
    PiecesFit(cs[i], size, stale, cs, i);
    var xs := Pieces(cs[i], size, stale);
    var u := Replace(cs, i, 1, xs);
    LastPiece(cs[i], size, stale);
    hide FreeBytes, Pieces, Malloc, TakeChunk, Tiles;
    assert Malloc(cs, size, stale).value.0 == u by { MallocIs(cs, size, stale, i); }
    assert forall k | 0 <= k < |u| :: u[k] == if k < i then cs[k] else xs[k - i];
    FreeBytesOfLast(cs);
    FreeBytesOfLast(u);
  }

  lemma MallocIs(cs: seq<Chunk>, size: nat, stale: nat, i: nat)
    requires 0 < size && size + 80 < U64 && i == FirstFit(cs, AllocSize(size), 0) && i < |cs|
    ensures Malloc(cs, size, stale) == Some(TakeChunk(cs, i, size, stale))
  {
  }

  lemma LastPiece(c: Chunk, size: nat, stale: nat)
    requires c.FreeFor(AllocSize(size)) && size + 80 < U64
    ensures var xs := Pieces(c, size, stale);
            && 1 <= |xs| <= 2 && xs[0].used
            && (|xs| == 2 ==> xs[1].size + AllocSize(size) == c.size)
  {
  }

  /** `_free` never merges into a chunk before, finds every payload in its own chunk, and never
      adds to the free bytes. */
  lemma FreeRecoversNothing(cs: seq<Chunk>, a: nat, base: nat, end: nat)
    requires Sound(cs, base, end) && OnlyLastFree(cs)
    ensures Free(cs, a) != [] && OnlyLastFree(Free(cs, a)) && FreeBytes(Free(cs, a)) <= FreeBytes(cs)
    ensures forall i | 0 <= i < |cs| && cs[i].used :: FindAddress(cs, cs[i].Payload(), 0) == i
  {
    var i := FindAddress(cs, a, 0);
    if i < |cs| {
      assert Free(cs, a) == MergeNext(cs, i);
      FreeBytesOfLast(cs);
      FreeBytesOfLast(Free(cs, a));
    }
    forall i | 0 <= i < |cs| && cs[i].used ensures FindAddress(cs, cs[i].Payload(), 0) == i {
      PayloadFoundIff(cs, i, base, end);
    }
  }

  /** What the requests of a run take, headers included. */
  function Asked(ops: seq<Op>): nat {
    if ops == [] then 0
    else (if ops[0].Alloc? && ops[0].size > 0 then AllocSize(ops[0].size) else 0) + Asked(ops[1..])
  }

  /** Every request adds its chunk, and nothing else does. */
  lemma {:induction false} AskedAdds(ops: seq<Op>, op: Op)
    ensures Asked([]) == 0
    ensures Asked(ops + [op]) == Asked(ops) + if op.Alloc? && op.size > 0 then AllocSize(op.size) else 0
    decreases |ops|
  {
    if ops != [] {
      assert (ops + [op])[1..] == ops[1..] + [op];
      AskedAdds(ops[1..], op);
    } else {
      assert (ops + [op])[1..] == [];
    }
  }

  lemma StepRecoversNothing(cs: seq<Chunk>, op: Op, base: nat, end: nat)
    requires Sound(cs, base, end) && OnlyLastFree(cs) && Legal(cs, op)
    ensures Sound(Step(cs, op).0, base, end) && OnlyLastFree(Step(cs, op).0)
    ensures FreeBytes(Step(cs, op).0) + Asked([op]) <= FreeBytes(cs)
  {
    hide Sound, OnlyLastFree, FreeBytes, AllocSize;
    assert [op][1..] == [];
    StepKeeps(cs, map[], op, base, end);
    match op
    case Alloc(size, stale) =>
      if size > 0 {
        MallocUsesLast(cs, size, stale, base, end);
      }
    case Release(a) => FreeRecoversNothing(cs, a, base, end);
  }

  lemma {:induction false} RunRecoversNothing(cs: seq<Chunk>, live: Live, ops: seq<Op>, base: nat, end: nat)
    requires Sound(cs, base, end) && OnlyLastFree(cs) && LegalRun(cs, ops)
    ensures var u := Run(cs, live, ops).0;
            Sound(u, base, end) && OnlyLastFree(u) && FreeBytes(u) + Asked(ops) <= FreeBytes(cs)
    decreases |ops|
  {
    if ops != [] {
      hide Sound, OnlyLastFree, FreeBytes, AllocSize, Step, Ledger;
      StepRecoversNothing(cs, ops[0], base, end);
      assert [ops[0]][1..] == [];
      var (u, r) := Step(cs, ops[0]);
      RunRecoversNothing(u, Ledger(live, ops[0], r), ops[1..], base, end);
    }
  }

  /** The list serves at most the initial 20 KB in its whole life, whatever is freed: beyond them the
      heap grows. And a freed payload is never hidden by a stale address. */
  lemma ListIsSpentOnce(base: nat, stale: nat, ops: seq<Op>)
    requires 0 < base && base % 8 == 0 && base + 0x5000 < U64 && LegalRun(Init(base, stale), ops)
    ensures var u := Run(Init(base, stale), map[], ops).0;
            && FreeBytes(u) + Asked(ops) <= 0x5000
            && forall i | 0 <= i < |u| && u[i].used :: FindAddress(u, u[i].Payload(), 0) == i
  {
    hide Run, FreeBytes, LegalRun;
    InitIsSound(base, stale);
    RunRecoversNothing(Init(base, stale), map[], ops, base, base + 0x5000);
    FreeBytesOfLast(Init(base, stale));
    FreeRecoversNothing(Run(Init(base, stale), map[], ops).0, 0, base, base + 0x5000);
  }

  // ----- inputs at which freeing fails

  /** A request that the list of `heap_init` can serve, and the freeing of it. */
  lemma FirstServed(base: nat, stale: nat, first: nat)
    requires 0 < base && base % 8 == 0 && base + 0x5000 < U64 && 0 < first <= 0x5000 - 32
    ensures Malloc(Init(base, stale), first, stale).Some?
    ensures var (u, r) := Malloc(Init(base, stale), first, stale).value;
            r == base + 32 && Free(u, base + 32) == [Chunk(base, 0x5000, true, base + 32)]
  {
    InitIsSound(base, stale);
    var need, whole := AllocSize(first), Chunk(base, 0x5000, false, stale);
    assert first + 32 <= need <= 0x5000 && need % 8 == 0;
    assert FirstFit([whole], need, 0) == 0;
    if 0x5000 > need + 40 {
      var a, b := Chunk(base, need, true, base + 32), Chunk(base + need, 0x5000 - need, false, stale);
      assert Align(64) == 64 && Split(whole, first, stale) == Some((whole.(size := need), b));
      assert Replace([whole], 0, 1, [a, b]) == [a, b];
      assert Malloc([whole], first, stale) == Some(([a, b], base + 32));
      assert Free([a, b], base + 32) == [Chunk(base, 0x5000, true, base + 32)];
    } else {
      assert Replace([whole], 0, 1, [HandedOut(whole)]) == [HandedOut(whole)];
      assert Malloc([whole], first, stale) == Some(([HandedOut(whole)], base + 32));
    }
  }

  /** After one request and the freeing of it, the list of `heap_init` serves no request again. */
  lemma FirstFreeSpendsList(base: nat, stale: nat, first: nat, again: nat)
    requires 0 < base && base % 8 == 0 && base + 0x5000 < U64 && 0 < first <= 0x5000 - 32
    requires 0 < again && again + 80 < U64
    ensures var ops := [Alloc(first, stale), Release(base + 32)];
            && LegalRun(Init(base, stale), ops)
            && Run(Init(base, stale), map[], ops).0 == [Chunk(base, 0x5000, true, base + 32)]
            && Malloc(Run(Init(base, stale), map[], ops).0, again, stale).None?
  {
    FirstServed(base, stale, first);
    hide Malloc, Free, Init;
    var cs, ops := Init(base, stale), [Alloc(first, stale), Release(base + 32)];
    var whole := [Chunk(base, 0x5000, true, base + 32)];
    var u := Malloc(cs, first, stale).value.0;
    assert ops[1..] == [Release(base + 32)] && ops[1..][1..] == [];
    var live := Ledger(map[], ops[0], base + 32);
    assert LegalRun(whole, []) && LegalRun(u, [Release(base + 32)]);
    assert Run(cs, map[], ops) == Run(u, live, [Release(base + 32)]);
    assert Run(u, live, [Release(base + 32)]) == Run(whole, live - {base + 32}, []);
    UsedServesNothing(Chunk(base, 0x5000, true, base + 32), again, stale);
  }

  lemma UsedServesNothing(c: Chunk, size: nat, stale: nat)
    requires c.used && 0 < size && size + 80 < U64
    ensures Malloc([c], size, stale).None?
  {
  }

  /** In a heap with a free chunk elsewhere, which `heap_init` does not lead to, its stale address
      can hide a block in use: the block is not found and nothing is freed. */
  lemma StaleAddressHidesBlock()
    ensures var cs := [Chunk(8, 40, false, 80), Chunk(48, 40, true, 80)];
            Sound(cs, 8, 88) && Backed(cs, map[80 := 8]) && FindAddress(cs, 80, 0) == 0 && Free(cs, 80) == cs
  {
    var cs := [Chunk(8, 40, false, 80), Chunk(48, 40, true, 80)];
    assert cs[1..] == [Chunk(48, 40, true, 80)] && cs[1..][1..] == [];
    assert cs[1] in cs;
    StaleMatchDoesNothing(cs, 80);
  }
}
