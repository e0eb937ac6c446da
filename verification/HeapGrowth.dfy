/** `_malloc` of heap.c whole, with what it does when no chunk of the list fits: it moves the break
    and puts a chunk where the break then is. No list leads to it, unless its header is stored over
    one of the list. */
module HeapGrowth {
  import opened Bits
  import opened Wrappers
  import opened Heap
  import B = SharedBreak

  /** A heap: the chunks of its list, its part of the address space, and the chunks that were put
      behind the break, the latest last. No chunks: the headers in memory are no list any more. */
  datatype Pool = Pool(chunks: seq<Chunk>, area: B.Area, grown: seq<Chunk>) {
    predicate Lost() { chunks == [] }
  }

  /** A null pointer, a payload, or a store through the error value of `sbrk`, which faults. */
  datatype Served = Null | Payload(at: nat) | Faults

  /** The length that is passed to `sbrk` does not become negative. */
  predicate Small(size: nat) { size < 0x7FFF_FFFF_FFFF_FF00 }

  // ----- what the header of a new chunk does to the list

  /** The header at `at` meets one of the list that starts elsewhere. */
  predicate Tears(cs: seq<Chunk>, at: nat) {
    exists c :: c in cs && c.at != at && c.at < at + 32 && at < c.at + 32
  }

  /** The chunk that starts at `at`; the length if there is none. */
  function StartingAt(cs: seq<Chunk>, at: nat, i: nat): (r: nat)
    requires i <= |cs|
    ensures i <= r <= |cs|
    ensures forall j | i <= j < r :: cs[j].at != at
    ensures r < |cs| ==> cs[r].at == at
    decreases |cs| - i
  {
    if i == |cs| || cs[i].at == at then i else StartingAt(cs, at, i + 1)
  }

  /** The list that memory holds once the header of `c`, without a link, has been stored: over the
      header of a chunk it ends the list there. */
  function Rewritten(cs: seq<Chunk>, c: Chunk): seq<Chunk> {
    var i := StartingAt(cs, c.at, 0);
    if Tears(cs, c.at) then [] else if i == |cs| then cs else cs[..i] + [c]
  }

  /** Where the list ends. */
  function Top(cs: seq<Chunk>): nat
    requires cs != []
  {
    cs[|cs| - 1].End()
  }

  lemma SoundTop(cs: seq<Chunk>, base: nat, end: nat)
    requires Heap.Sound(cs, base, end)
    ensures Top(cs) == end
  {
    ChunkInside(cs, |cs| - 1, base, end);
  }

  /** A list that ends with the new chunk is a heap again, shorter or longer. */
  lemma RewrittenIsSound(cs: seq<Chunk>, c: Chunk, base: nat)
    requires cs != [] && Heap.Sound(cs, base, Top(cs)) && !Tears(cs, c.at)
    requires c.used && c.address == c.at + 32 && c.size % 8 == 0 && c.size >= 32 && c.End() < U64
    ensures var u := Rewritten(cs, c); u != [] && Heap.Sound(u, base, Top(u)) && (u == cs || Top(u) == c.End())
  {
    var i := StartingAt(cs, c.at, 0);
    if i < |cs| {
      var mid := TilesCut(cs, i, base, Top(cs));
      assert [c][1..] == [];
      TilesJoin(cs[..i], [c], base, c.at, c.End());
    }
  }

  /** The list stays exactly if the header clears those of the list, or repeats the last one. */
  lemma RewrittenSameIff(cs: seq<Chunk>, c: Chunk, base: nat)
    requires cs != [] && Heap.Sound(cs, base, Top(cs))
    ensures Rewritten(cs, c) == cs
        <==> !Tears(cs, c.at) && (StartingAt(cs, c.at, 0) < |cs| ==> c == cs[|cs| - 1])
  {
    var i, n := StartingAt(cs, c.at, 0), |cs| - 1;
    if i < n {
      TilesInOrder(cs, i, n, base, Top(cs));
      ChunkInside(cs, i, base, Top(cs));
    }
    hide Heap.Sound, Tears;
    if i < |cs| {
      assert |cs[..i] + [c]| == i + 1 && (cs[..i] + [c])[i] == c;
    }
    assert cs[..n] + [cs[n]] == cs;
  }

  // ----- one request

  function Grow(p: Pool, need: nat): (Pool, Served)
    requires p.area.Words() && 0 < need < 0x8000_0000_0000_0000
  {
    var (area, tmp) := B.Sbrk(p.area, need);
    if tmp == 0 then (p.(area := area), Null)
    else if tmp == U64 - B.ENOMEM then (p.(area := area), Faults)
    else
      var c := Chunk(tmp, need, true, tmp + 32);
      (Pool(Rewritten(p.chunks, c), area, p.grown + [c]), Payload(tmp + 32))
  }

  lemma SmallNeed(size: nat)
    requires Small(size)
    ensures size + 80 < U64 && size + 32 <= AllocSize(size) < 0x8000_0000_0000_0000 && AllocSize(size) % 8 == 0
  {
  }

  /** `_malloc`. */
  function Serve(p: Pool, size: nat, stale: nat): (Pool, Served)
    requires p.area.Words() && Small(size)
  {
    if size == 0 then (p, Null)
    else
      SmallNeed(size);
      match Malloc(p.chunks, size, stale)
      case Some((cs, r)) => (p.(chunks := cs), if r == 0 then Null else Payload(r))
      case None => Grow(p, AllocSize(size))
  }

  // ----- where grown chunks lie

  /** The sizes of the chunks from `i` to before `j`, together. */
  function Between(gs: seq<Chunk>, i: nat, j: nat): nat
    requires j <= |gs|
  {
    if j <= i then 0 else Between(gs, i, j - 1) + gs[j - 1].size
  }

  /** Each chunk starts where the break was after it was asked for. */
  ghost predicate Placed(gs: seq<Chunk>, from: nat, brk: nat) {
    && brk == from + Between(gs, 0, |gs|)
    && forall k | 0 <= k < |gs| ::
         gs[k].at == from + Between(gs, 0, k + 1) && gs[k].size >= 32 && gs[k].size % 8 == 0
  }

  /** The break has moved from behind the first 8 KB on, with each chunk that was put there. */
  ghost predicate Laid(p: Pool) {
    && p.area.Words() && p.area.Inside() && p.area.base == p.area.start && p.area.start % 8 == 0
    && Placed(p.grown, p.area.start + 0x2000, p.area.brk)
  }

  /** Besides, the list is a heap that starts with the area. */
  ghost predicate Good(p: Pool) {
    Laid(p) && !p.Lost() && Heap.Sound(p.chunks, p.area.start, Top(p.chunks))
  }

  lemma {:induction false} BetweenSplits(gs: seq<Chunk>, i: nat, j: nat, k: nat)
    requires i <= j <= k <= |gs|
    ensures Between(gs, i, k) == Between(gs, i, j) + Between(gs, j, k)
    decreases k
  {
    if j < k {
      BetweenSplits(gs, i, j, k - 1);
    }
  }

  lemma {:induction false} BetweenPrefix(gs: seq<Chunk>, c: Chunk, i: nat, j: nat)
    requires j <= |gs|
    ensures Between(gs + [c], i, j) == Between(gs, i, j)
    decreases j
  {
    if i < j {
      BetweenPrefix(gs, c, i, j - 1);
    }
  }

  predicate Meet(c: Chunk, d: Chunk) { c.at < d.End() && d.at < c.End() }

  /** Of two grown chunks the later meets the earlier exactly if what was asked for since then,
      itself included, is less than the earlier one's size. */
  lemma GrownMeetIff(gs: seq<Chunk>, from: nat, brk: nat, j: nat, k: nat)
    requires Placed(gs, from, brk) && j < k < |gs|
    ensures gs[k].at == gs[j].at + Between(gs, j + 1, k + 1)
    ensures Meet(gs[j], gs[k]) <==> Between(gs, j + 1, k + 1) < gs[j].size
  {
    BetweenSplits(gs, 0, j + 1, k + 1);
  }

  ghost predicate AllApart(gs: seq<Chunk>) { forall j, k | 0 <= j < k < |gs| :: !Meet(gs[j], gs[k]) }

  ghost predicate NeverSmaller(gs: seq<Chunk>) { forall j | 0 <= j < |gs| - 1 :: gs[j].size <= gs[j + 1].size }

  /** So no two meet exactly if no request was smaller than the one before it. */
  lemma AllApartIff(gs: seq<Chunk>, from: nat, brk: nat)
    requires Placed(gs, from, brk)
    ensures AllApart(gs) <==> NeverSmaller(gs)
  {
    if AllApart(gs) {
      forall j | 0 <= j < |gs| - 1 ensures gs[j].size <= gs[j + 1].size {
        GrownMeetIff(gs, from, brk, j, j + 1);
        assert Between(gs, j + 1, j + 2) == Between(gs, j + 1, j + 1) + gs[j + 1].size;
        assert !Meet(gs[j], gs[j + 1]);
      }
    }
    if NeverSmaller(gs) {
      forall j, k | 0 <= j < k < |gs| ensures !Meet(gs[j], gs[k]) {
        GrownMeetIff(gs, from, brk, j, k);
        BetweenSplits(gs, j + 1, j + 2, k + 1);
        assert Between(gs, j + 1, j + 2) == Between(gs, j + 1, j + 1) + gs[j + 1].size;
      }
    }
  }

  /** A grown chunk meets the initial 20 KB exactly if all that was asked for is less than the 12 KB
      of them that lie behind the first break. */
  lemma MeetsArenaIff(p: Pool, k: nat)
    requires Laid(p) && k < |p.grown|
    ensures p.grown[k].at < p.area.start + 0x5000 <==> Between(p.grown, 0, k + 1) < 0x3000
    ensures p.area.start + 0x2000 < p.grown[k].at
  {
    assert Between(p.grown, 0, k + 1) == Between(p.grown, 0, k) + p.grown[k].size;
  }

  // ----- what one call does

  /** No sum with the break wraps. */
  predicate NoWrap(p: Pool, size: nat) { p.area.End() + size + 80 < U64 }

  function Grown(p: Pool, need: nat): Pool {
    var c := Chunk(p.area.brk + need, need, true, p.area.brk + need + 32);
    Pool(Rewritten(p.chunks, c), p.area.(brk := c.at), p.grown + [c])
  }

  lemma GrowIs(p: Pool, need: nat)
    requires Laid(p) && 32 <= need < 0x8000_0000_0000_0000 && p.area.End() + need < U64
    ensures Grow(p, need)
         == if p.area.brk + need > p.area.End() then (p, Faults)
            else (Grown(p, need), Payload(p.area.brk + need + 32))
  {
    hide Placed, Rewritten;
  }

  lemma GrownIsLaid(p: Pool, need: nat)
    requires Laid(p) && 32 <= need && need % 8 == 0 && p.area.brk + need <= p.area.End()
    ensures Laid(Grown(p, need))
  {
    var u := Grown(p, need);
    hide Rewritten;
    var c := u.grown[|p.grown|];
    assert u.grown == p.grown + [c];
    forall k | 0 <= k < |u.grown| ensures u.grown[k].at == p.area.start + 0x2000 + Between(u.grown, 0, k + 1) {
      BetweenPrefix(p.grown, c, 0, if k < |p.grown| then k + 1 else k);
    }
  }

  /** Wherever the header clears those of the list, or starts where one of them does, there is a
      list afterwards. */
  lemma GrownIsGood(p: Pool, need: nat)
    requires Good(p) && 32 <= need && need % 8 == 0 && p.area.brk + need <= p.area.End() && p.area.End() + need < U64
    ensures var u := Grown(p, need);
            && Laid(u) && (u.Lost() <==> Tears(p.chunks, p.area.brk + need))
            && (!u.Lost() ==> Good(u) && (u.chunks == p.chunks || Top(u.chunks) == u.grown[|p.grown|].End()))
  {
    hide Heap.Sound, Placed;
    GrownIsLaid(p, need);
    if !Tears(p.chunks, p.area.brk + need) {
      RewrittenIsSound(p.chunks, Grown(p, need).grown[|p.grown|], p.area.start);
    }
  }

  /** A request that is not for nothing never gets a null pointer: the list serves it, or the break
      moves, or the kernel faults where there is no room. */
  lemma NeverNull(p: Pool, size: nat, stale: nat)
    requires Good(p) && 0 < size && Small(size)
    ensures Serve(p, size, stale).1 != Null
  {
    SmallNeed(size);
    if Malloc(p.chunks, size, stale).Some? {
      var i := MallocTakesLowest(p.chunks, size, stale, p.area.start, Top(p.chunks));
    }
  }

  /** A request that the list serves. */
  lemma ListServes(p: Pool, size: nat, stale: nat)
    requires Good(p) && 0 < size && Small(size) && Malloc(p.chunks, size, stale).Some?
    ensures var (u, r) := Serve(p, size, stale);
            r.Payload? && Good(u) && u.area == p.area && u.grown == p.grown && Top(u.chunks) == Top(p.chunks)
  {
    SmallNeed(size);
    var i := MallocTakesLowest(p.chunks, size, stale, p.area.start, Top(p.chunks));
    hide Heap.Sound, Placed;
    SoundTop(Malloc(p.chunks, size, stale).value.0, p.area.start, Top(p.chunks));
  }

  /** What one request does. It faults exactly where the list cannot serve it and the break would
      leave the heap. Where the heap grows, the list is lost exactly if the new header tears one of
      it, and the new chunk lies in the heap exactly if there is room for it behind the new break. */
  lemma ServeKeeps(p: Pool, size: nat, stale: nat)
    requires Good(p) && 0 < size && Small(size) && NoWrap(p, size)
    ensures var (u, r) := Serve(p, size, stale);
            var listed, need := Malloc(p.chunks, size, stale).Some?, AllocSize(size);
            && Laid(u) && (!u.Lost() ==> Good(u)) && u.area.(brk := 0) == p.area.(brk := 0)
            && (r == Faults <==> !listed && p.area.brk + need > p.area.End())
            && (r == Faults ==> u == p)
            && (listed ==> u.grown == p.grown && u.area == p.area)
            && (u.Lost() <==> !listed && r != Faults && Tears(p.chunks, p.area.brk + need))
            && (!u.Lost() ==> Top(u.chunks) == Top(p.chunks)
                              || (|u.grown| > |p.grown| && Top(u.chunks) == u.grown[|p.grown|].End()))
            && p.grown <= u.grown
            && (!listed && r != Faults ==>
                  && u == Grown(p, need) && r == Payload(p.area.brk + need + 32)
                  && (u.grown[|p.grown|].End() <= p.area.End() <==> p.area.brk + 2 * need <= p.area.End()))
  {
    SmallNeed(size);
    if Malloc(p.chunks, size, stale).Some? {
      hide Good, AllocSize, Malloc, Laid;
      ListServes(p, size, stale);
      assert Good(p) ==> Laid(p) && !p.Lost() by { GoodIs(p); }
      GoodIs(Serve(p, size, stale).0);
    } else {
      hide Malloc, Heap.Sound, Placed, Rewritten, AllocSize;
      GrowIs(p, AllocSize(size));
      if p.area.brk + AllocSize(size) <= p.area.End() {
        GrownIsGood(p, AllocSize(size));
      }
    }
  }

  lemma GoodIs(p: Pool)
    ensures Good(p) ==> Laid(p) && !p.Lost()
  {
  }

  // ----- whole runs

  predicate Ordinary(p: Pool, op: Op) { op.Alloc? ==> Small(op.size) && NoWrap(p, op.size) }

  function PoolStep(p: Pool, op: Op): Pool
    requires p.area.Words() && Ordinary(p, op)
  {
    match op
    case Alloc(size, stale) => Serve(p, size, stale).0
    case Release(address) => p.(chunks := Free(p.chunks, address))
  }

  /** The heap keeps its place, and what holds of it. The list, unless it is lost, fills what it
      filled, or ends with a chunk that was put behind the break. */
  ghost predicate Follows(p: Pool, u: Pool)
    requires !p.Lost()
  {
    && Laid(u) && u.area.(brk := 0) == p.area.(brk := 0)
    && (!u.Lost() ==>
          Good(u) && (Top(u.chunks) == Top(p.chunks) || exists g :: g in u.grown && g.End() == Top(u.chunks)))
  }

  lemma FreeKeeps(p: Pool, address: nat)
    requires Good(p)
    ensures var u := p.(chunks := Free(p.chunks, address)); Good(u) && Top(u.chunks) == Top(p.chunks)
  {
    hide Placed, Free;
    FreeIsSound(p.chunks, address, p.area.start, Top(p.chunks));
    SoundTop(Free(p.chunks, address), p.area.start, Top(p.chunks));
  }

  /** One step of a run. Once the list is lost, a request may also be answered from wherever the
      words that are left lead. */
  ghost predicate Next(u: Pool, op: Op, v: Pool)
    requires u.area.Words() && Ordinary(u, op)
  {
    v == PoolStep(u, op) || (u.Lost() && v == u)
  }

  lemma LostFollows(p: Pool, u: Pool, op: Op)
    requires !p.Lost() && Follows(p, u) && u.Lost() && Ordinary(p, op)
    ensures Ordinary(u, op) && Follows(p, PoolStep(u, op)) && PoolStep(u, op).Lost()
  {
    match op
    case Alloc(size, stale) =>
      if size > 0 {
        SmallNeed(size);
        hide Placed, AllocSize;
        GrowIs(u, AllocSize(size));
        if u.area.brk + AllocSize(size) <= u.area.End() {
          GrownIsLaid(u, AllocSize(size));
        }
      }
    case Release(address) =>
  }

  /** The operation puts a header where it tears one of the list. */
  predicate TearsBy(u: Pool, op: Op) {
    && op.Alloc? && 0 < op.size && op.size + 80 < U64 && Malloc(u.chunks, op.size, op.stale).None?
    && u.area.brk + AllocSize(op.size) <= u.area.End() && Tears(u.chunks, u.area.brk + AllocSize(op.size))
  }

  lemma StepFollows(p: Pool, u: Pool, op: Op)
    requires !p.Lost() && Follows(p, u) && !u.Lost() && Ordinary(p, op)
    ensures Ordinary(u, op) && Follows(p, PoolStep(u, op))
    ensures PoolStep(u, op).Lost() <==> TearsBy(u, op)
  {
    hide Laid, Good, Heap.Sound, Placed, Malloc, AllocSize, Tears, Small;
    match op
    case Alloc(size, stale) =>
      if size > 0 {
        ServeKeeps(u, size, stale);
        hide Serve, Grown;
        GoodIs(u);
        InsideEnd(u);
        var v := Serve(u, size, stale).0;
        if !v.Lost() && Top(v.chunks) == Top(u.chunks) != Top(p.chunks) {
          var g :| g in u.grown && g.End() == Top(u.chunks);
          assert g in v.grown;
        }
      }
    case Release(address) =>
      FreeKeeps(u, address);
      GoodIs(u.(chunks := Free(u.chunks, address)));
  }

  /** The pools between the operations of a run. */
  ghost predicate PoolRun(us: seq<Pool>, ops: seq<Op>) {
    && |us| == |ops| + 1
    && forall i | 0 <= i < |ops| :: us[i].area.Words() && Ordinary(us[i], ops[i]) && Next(us[i], ops[i], us[i + 1])
  }

  /** Over any run of requests, wherever they are served from, and frees of any addresses: the
      grown chunks are where the break was, so that no two of them meet exactly if no request that
      grew the heap was smaller than the one before it; and the list is a heap exactly as long as no
      header that was put behind the break has torn one of it. */
  lemma {:induction false} RunFollows(us: seq<Pool>, ops: seq<Op>, k: nat)
    requires PoolRun(us, ops) && Good(us[0]) && k <= |ops|
    requires forall i | 0 <= i < |ops| :: Ordinary(us[0], ops[i])
    ensures Follows(us[0], us[k]) && (AllApart(us[k].grown) <==> NeverSmaller(us[k].grown))
    ensures us[k].Lost() <==> exists i: nat :: i < k && TearsBy(us[i], ops[i])
    decreases k
  {
    hide Ordinary, PoolStep, Follows, Good, TearsBy, AllApart, NeverSmaller;
    GoodIs(us[0]);
    if k == 0 {
      GoodFollows(us[0]);
    } else {
      RunFollows(us, ops, k - 1);
      if us[k - 1].Lost() {
        LostFollows(us[0], us[k - 1], ops[k - 1]);
      } else {
        StepFollows(us[0], us[k - 1], ops[k - 1]);
      }
    }
    FollowsApart(us[0], us[k]);
  }

  lemma GoodFollows(p: Pool)
    requires Good(p)
    ensures Follows(p, p)
  {
  }

  lemma FollowsApart(p: Pool, u: Pool)
    requires !p.Lost() && Follows(p, u)
    ensures AllApart(u.grown) <==> NeverSmaller(u.grown)
  {
    hide AllApart, NeverSmaller;
    AllApartIff(u.grown, u.area.start + 0x2000, u.area.brk);
  }

  /** The break is behind the list; or it is behind the last header, and nothing in front is free. */
  predicate Past(p: Pool)
    requires !p.Lost()
  {
    || Top(p.chunks) <= p.area.brk + 32
    || ((forall c | c in p.chunks :: c.used) && p.chunks[|p.chunks| - 1].at <= p.area.brk + 8)
  }

  lemma HeadersBelow(p: Pool, at: nat)
    requires Good(p) && at >= p.area.brk + 40 && Past(p)
    ensures forall c | c in p.chunks :: c.at + 32 <= at
  {
    var n := |p.chunks| - 1;
    forall c | c in p.chunks ensures c.at + 32 <= at {
      var i :| 0 <= i < |p.chunks| && p.chunks[i] == c;
      ChunkInside(p.chunks, n, p.area.start, Top(p.chunks));
      if i < n {
        TilesInOrder(p.chunks, i, n, p.area.start, Top(p.chunks));
        ChunkInside(p.chunks, i, p.area.start, Top(p.chunks));
      }
    }
  }

  lemma BelowStays(cs: seq<Chunk>, c: Chunk)
    requires forall d | d in cs :: d.at + 32 <= c.at
    ensures !Tears(cs, c.at) && Rewritten(cs, c) == cs
  {
  }

  lemma UsedServesNone(cs: seq<Chunk>, size: nat, stale: nat, address: nat)
    requires (forall c | c in cs :: c.used) && 0 < size && size + 80 < U64
    ensures Malloc(cs, size, stale).None? && Free(cs, address) == cs
  {
  }

  lemma StepStaysPast(u: Pool, op: Op)
    requires Good(u) && Past(u) && Ordinary(u, op)
    ensures var v := PoolStep(u, op); Good(v) && Past(v) && Top(v.chunks) == Top(u.chunks)
  {
    match op
    case Alloc(size, stale) =>
      if size > 0 {
        SmallNeed(size);
        ServeKeeps(u, size, stale);
        if Malloc(u.chunks, size, stale).None? {
          hide Good, Laid, Malloc, Serve, AllocSize;
          var at := u.area.brk + AllocSize(size);
          assert AllocSize(size) >= 40 by { NeedAtLeast(size); }
          HeadersBelow(u, at);
          BelowStays(u.chunks, Chunk(at, AllocSize(size), true, at + 32));
        } else if Top(u.chunks) > u.area.brk + 32 {
          UsedServesNone(u.chunks, size, stale, 0);
        } else {
          hide Good, Laid;
          ListServes(u, size, stale);
        }
      }
    case Release(address) =>
      FreeKeeps(u, address);
      if Top(u.chunks) > u.area.brk + 32 {
        assert Free(u.chunks, address) == u.chunks by { UsedServesNone(u.chunks, 1, 0, address); }
      }
  }

  lemma NeedAtLeast(size: nat)
    requires 0 < size && Small(size)
    ensures AllocSize(size) >= 40
  {
  }

  /** From there on the list is never lost and ends where it ended, whatever is asked for. */
  lemma {:induction false} RunStaysPast(us: seq<Pool>, ops: seq<Op>, k: nat)
    requires PoolRun(us, ops) && Good(us[0]) && Past(us[0]) && k <= |ops|
    ensures Good(us[k]) && Past(us[k]) && Top(us[k].chunks) == Top(us[0].chunks)
    decreases k
  {
    hide Good, Past, Ordinary, PoolStep;
    if k > 0 {
      RunStaysPast(us, ops, k - 1);
      StepStaysPast(us[k - 1], ops[k - 1]);
    }
  }

  // ----- inputs at which growth goes wrong

  lemma TakeFirstOf(c: Chunk, size: nat, stale: nat, need: nat)
    requires !c.used && 0 < size && size + 80 < U64 && AllocSize(size) == need && c.size > need + 40
    ensures Pieces(c, size, stale)
         == [Chunk(c.at, need, true, c.at + 32), Chunk(c.at + need, c.size - need, false, stale)]
  {
  }

  function ThreeChunks(base: nat, stale: nat): seq<Chunk> {
    [Chunk(base, 0x3000, true, base + 0x20), Chunk(base + 0x3000, 0x1800, true, base + 0x3020),
     Chunk(base + 0x4800, 0x800, false, stale)]
  }

  /** Two requests that the list of `heap_init` serves. */
  lemma TwoServed(base: nat, size: nat, stale: nat)
    requires RoomFor(base, size)
    ensures base + 0x5000 < U64
    ensures var (p, q) := Serve(Start(base, size, stale), 0x2FE0, stale);
            var (u, r) := Serve(p, 0x17E0, stale);
            && q == Payload(base + 0x20) && r == Payload(base + 0x3020)
            && u.area == Start(base, size, stale).area && u.grown == []
            && u.chunks == ThreeChunks(base, stale)
  {
    InitIsSound(base, stale);
    assert AllocSize(0x2FE0) == 0x3000 && AllocSize(0x17E0) == 0x1800;
    var cs := Init(base, stale);
    TakeFirstOf(cs[0], 0x2FE0, stale, 0x3000);
    var a, b := Chunk(base, 0x3000, true, base + 0x20), Chunk(base + 0x3000, 0x2000, false, stale);
    PiecesFit(cs[0], 0x2FE0, stale, cs, 0);
    assert Replace(cs, 0, 1, [a, b]) == [a, b];
    assert Malloc(cs, 0x2FE0, stale) == Some(([a, b], base + 0x20)) by { MallocIs(cs, 0x2FE0, stale, 0); }
    TakeFirstOf(b, 0x17E0, stale, 0x1800);
    var c, d := Chunk(base + 0x3000, 0x1800, true, base + 0x3020), Chunk(base + 0x4800, 0x800, false, stale);
    PiecesFit(b, 0x17E0, stale, [a, b], 1);
    assert Replace([a, b], 1, 1, [c, d]) == [a, c, d];
    assert FirstFit([a, b], 0x1800, 0) == 1;
    MallocIs([a, b], 0x17E0, stale, 1);
  }

  lemma ThreeRewritten(base: nat, stale: nat)
    ensures var cs := ThreeChunks(base, stale);
            && Rewritten(cs, Chunk(base + 0x3000, 0x1000, true, base + 0x3020))
               == [Chunk(base, 0x3000, true, base + 0x20), Chunk(base + 0x3000, 0x1000, true, base + 0x3020)]
            && Rewritten(cs, Chunk(base + 0x2FF8, 0xFF8, true, base + 0x3018)) == []
  {
    var cs, c := ThreeChunks(base, stale), Chunk(base + 0x3000, 0x1000, true, base + 0x3020);
    assert StartingAt(cs, c.at, 0) == 1 && cs[..1] + [c] == [cs[0], c];
    assert !Tears(cs, c.at);
    assert cs[1] in cs && Tears(cs, base + 0x2FF8);
  }

  lemma ThreeServeNo(base: nat, stale: nat, size: nat)
    requires size == 0xFE0 || size == 0xFD8
    ensures AllocSize(size) == size + 32 && Malloc(ThreeChunks(base, stale), size, stale).None?
  {
  }

  lemma ThirdGrows(base: nat, size: nat, stale: nat, u: Pool, third: nat)
    requires RoomFor(base, size) && (third == 0xFE0 || third == 0xFD8)
    requires u == Pool(ThreeChunks(base, stale), B.Area(base, size, base, base + 0x2000), [])
    ensures var (v, r) := Serve(u, third, stale);
            var at := base + 0x2020 + third;
            r == Payload(at + 32) && v.chunks == Rewritten(u.chunks, Chunk(at, third + 32, true, at + 32))
  {
    ThreeServeNo(base, stale, third);
    hide Malloc, AllocSize, Rewritten, ThreeChunks;
  }

  /** The third does not fit: its chunk is put on the header of the second, whose caller has the
      same payload, and the free chunk behind it drops out of the list. With eight bytes less, the
      new header tears that of the second, and the list is lost. Nothing has been freed. */
  lemma GrowthTakesLiveBlock(base: nat, size: nat, stale: nat)
    requires RoomFor(base, size)
    ensures base + 0x5000 < U64
    ensures var (p, q) := Serve(Start(base, size, stale), 0x2FE0, stale);
            var (u, r) := Serve(p, 0x17E0, stale);
            var (v, again) := Serve(u, 0xFE0, stale);
            && r == again == Payload(base + 0x3020)
            && v.chunks == [Chunk(base, 0x3000, true, base + 0x20), Chunk(base + 0x3000, 0x1000, true, base + 0x3020)]
            && Serve(u, 0xFD8, stale).0.Lost()
  {
    TwoServed(base, size, stale);
    ThreeRewritten(base, stale);
    var u := Serve(Serve(Start(base, size, stale), 0x2FE0, stale).0, 0x17E0, stale).0;
    hide Serve, Rewritten, ThreeChunks;
    ThirdGrows(base, size, stale, u, 0xFE0);
    ThirdGrows(base, size, stale, u, 0xFD8);
  }

  // ----- the shared heap after booting

  /** `heap_init` for one heap. */
  function Start(base: nat, size: nat, stale: nat): Pool
    requires base + 0x5000 < U64
  {
    Pool(Init(base, stale), B.Area(base, size, base, base + 0x2000), [])
  }

  predicate RoomFor(base: nat, size: nat) {
    0 < base && base % 8 == 0 && 0x5000 <= size && base + size < MINUS_ONE - 0x1_0000
  }

  lemma StartIsGood(base: nat, size: nat, stale: nat)
    requires RoomFor(base, size)
    ensures base + 0x5000 < U64 && Good(Start(base, size, stale))
  {
    InitIsSound(base, stale);
  }

  /** The list has one chunk, which stays marked as used for ever. */
  predicate Spent(p: Pool) {
    |p.chunks| == 1 && p.chunks[0].used && p.chunks[0].at == p.area.start
  }

  /** `smalloc` and `sfree` of some bytes. */
  function AskAndFree(p: Pool, size: nat, stale: nat): (Pool, Served)
    requires p.area.Words() && Small(size)
  {
    var (u, r) := Serve(p, size, stale);
    (if r.Payload? then u.(chunks := Free(u.chunks, r.at)) else u, r)
  }

  /** The first request, if the list can serve it, and its freeing leave the list spent. */
  lemma BootSpends(base: nat, size: nat, stale: nat, first: nat)
    requires RoomFor(base, size) && 0 < first <= 0x5000 - 32
    ensures base + 0x5000 < U64
    ensures var (p, r) := AskAndFree(Start(base, size, stale), first, stale);
            && r == Payload(base + 32) && Spent(p) && Good(p) && !p.Lost() && Past(p)
            && p.grown == [] && p.area.brk == base + 0x2000
  {
    StartIsGood(base, size, stale);
    InitIsSound(base, stale);
    FirstServed(base, stale, first);
    ServeKeeps(Start(base, size, stale), first, stale);
    var u := Serve(Start(base, size, stale), first, stale).0;
    FreeKeeps(u, base + 32);
  }

  /** A list that is spent serves nothing and is changed by no freeing. */
  lemma SpentGrows(p: Pool, size: nat, stale: nat)
    requires Spent(p) && p.area.Words() && 0 < size && Small(size)
    ensures 0 < AllocSize(size) < 0x8000_0000_0000_0000
    ensures Serve(p, size, stale) == Grow(p, AllocSize(size))
    ensures forall a: nat :: Free(p.chunks, a) == p.chunks
  {
    SmallNeed(size);
  }

  /** `n` times. */
  function Repeated(p: Pool, size: nat, stale: nat, n: nat): (r: (Pool, bool))
    requires p.area.Words() && Small(size)
    ensures r.0.area.Words()
  {
    if n == 0 then (p, true)
    else
      var (u, all) := Repeated(p, size, stale, n - 1);
      var (v, r) := AskAndFree(u, size, stale);
      (v, all && r.Payload?)
  }

  /** These are so many grown chunks of the same size. */
  ghost predicate Equals(gs: seq<Chunk>, n: nat, need: nat) {
    |gs| == n && forall k | 0 <= k < n :: gs[k].size == need
  }

  lemma {:induction false} EqualsSum(gs: seq<Chunk>, n: nat, need: nat, j: nat)
    requires Equals(gs, n, need) && j <= n
    ensures Between(gs, 0, j) == j * need
    decreases j
  {
    if j > 0 {
      EqualsSum(gs, n, need, j - 1);
    }
  }

  /** `n` requests of a size, each freed again, of a list that is spent: all are served exactly if
      the heap has room for all of them at once, since freeing gives nothing back. */
  ghost predicate AllServed(p: Pool, u: Pool, n: nat, need: nat) {
    && Good(u) && Spent(u) && u.area.start == p.area.start && u.area.size == p.area.size
    && Equals(u.grown, n, need) && u.area.brk == p.area.brk + n * need
  }

  lemma OneMoreServed(p: Pool, u: Pool, n: nat, size: nat, stale: nat)
    requires p.area.Words() && 0 < size && Small(size) && NoWrap(p, size) && AllServed(p, u, n, AllocSize(size))
    ensures var (v, r) := AskAndFree(u, size, stale);
            if p.area.brk + (n + 1) * AllocSize(size) <= p.area.End()
            then r.Payload? && AllServed(p, v, n + 1, AllocSize(size))
            else r == Faults && v == u
  {
    var need := AllocSize(size);
    SmallNeed(size);
    SpentGrows(u, size, stale);
    hide Heap.Sound, Placed, AllocSize, Serve, Small;
    GrowIs(u, need);
    assert (n + 1) * need == n * need + need;
    if u.area.brk + need <= u.area.End() {
      GrownIsGood(u, need);
    }
  }

  /** What `n` requests come to, when together they move the break by `sum`. */
  ghost predicate Repeats(p: Pool, size: nat, stale: nat, n: nat, sum: nat)
    requires p.area.Words() && Small(size)
  {
    var (u, all) := Repeated(p, size, stale, n);
    (all <==> p.area.brk + sum <= p.area.End()) && (all ==> AllServed(p, u, n, AllocSize(size)))
  }

  lemma RepeatsNext(p: Pool, size: nat, stale: nat, n: nat, sum: nat)
    requires p.area.Words() && 0 < size && Small(size) && NoWrap(p, size)
    requires sum == n * AllocSize(size) && Repeats(p, size, stale, n, sum)
    ensures Repeats(p, size, stale, n + 1, sum + AllocSize(size))
  {
    hide AskAndFree, AllServed, AllocSize, Small, NoWrap;
    var (u, all) := Repeated(p, size, stale, n);
    Less(n + 1, AllocSize(size));
    if all {
      OneMoreServed(p, u, n, size, stale);
    }
  }

  lemma {:induction false} RepeatedIs(p: Pool, size: nat, stale: nat, n: nat, need: nat)
    requires Good(p) && Spent(p) && p.grown == [] && 0 < size && Small(size) && NoWrap(p, size)
             && need == AllocSize(size)
    ensures p.area.Words() && Repeats(p, size, stale, n, n * need)
    decreases n
  {
    hide Repeats, AllServed, AllocSize, NoWrap, Good, Spent, Small;
    InsideEnd(p);
    if n == 0 {
      NoneYet(p, size, stale);
    } else {
      RepeatedIs(p, size, stale, n - 1, need);
      Less(n, need);
      RepeatsNext(p, size, stale, n - 1, (n - 1) * need);
    }
  }

  lemma NoneYet(p: Pool, size: nat, stale: nat)
    requires Good(p) && Spent(p) && p.grown == [] && Small(size)
    ensures p.area.Words() && Repeats(p, size, stale, 0, 0)
  {
    InsideEnd(p);
    NoneServed(p, AllocSize(size));
    hide AllServed;
  }

  lemma Less(n: nat, need: nat)
    requires n > 0
    ensures n * need == (n - 1) * need + need
  {
  }

  lemma InsideEnd(p: Pool)
    requires Good(p)
    ensures p.area.brk <= p.area.End() && p.area.Words()
  {
  }

  lemma NoneServed(p: Pool, need: nat)
    requires Good(p) && Spent(p) && p.grown == []
    ensures AllServed(p, p, 0, need)
  {
  }

  /** Every call of `io_hypercall` asks for 56 bytes of the shared heap and frees them. After the
      request and the freeing that booting does, `n` calls get a block exactly if 88 bytes for each
      of them fit behind the first 8 KB. Then their blocks are apart from each other, and lie in the
      heap exactly if 88 bytes more do. */
  lemma HypercallsServedIff(base: nat, size: nat, stale: nat, n: nat)
    requires RoomFor(base, size)
    ensures base + 0x5000 < U64 && AskAndFree(Start(base, size, stale), 20, stale).0.area.Words()
    ensures var booted := AskAndFree(Start(base, size, stale), 20, stale).0;
            var (u, all) := Repeated(booted, 56, stale, n);
            && (all <==> 0x2000 + 88 * n <= size)
            && (all ==> |u.grown| == n && AllApart(u.grown) && AllAbove(u.grown, base + 0x2000)
                        && (AllBelow(u.grown, base + size) <==> n == 0 || 0x2000 + 88 * (n + 1) <= size))
  {
    BootSpends(base, size, stale, 20);
    var booted := AskAndFree(Start(base, size, stale), 20, stale).0;
    assert AllocSize(56) == 88;
    hide AskAndFree, Repeated, Good, Spent;
    RepeatedIs(booted, 56, stale, n, 88);
    var (u, all) := Repeated(booted, 56, stale, n);
    if all {
      ServedApart(booted, u, n, 88);
      ServedBelow(booted, u, n, 88);
    }
  }

  lemma ServedApart(p: Pool, u: Pool, n: nat, need: nat)
    requires AllServed(p, u, n, need)
    ensures |u.grown| == n && AllApart(u.grown) && AllAbove(u.grown, u.area.start + 0x2000)
  {
    AllApartIff(u.grown, u.area.start + 0x2000, u.area.brk);
  }

  /** Since each chunk is put behind the break that has made room for it, the last one needs as much
      room again. */
  lemma ServedBelow(p: Pool, u: Pool, n: nat, need: nat)
    requires AllServed(p, u, n, need)
    ensures AllBelow(u.grown, u.area.End()) <==> n == 0 || u.area.brk + need <= u.area.End()
  {
    hide Heap.Sound;
    forall k | 0 <= k < n ensures u.grown[k].End() <= u.area.brk + need {
      BetweenSplits(u.grown, 0, k + 1, n);
    }
    if n > 0 {
      assert u.grown[n - 1].End() == u.area.brk + need;
    }
  }

  ghost predicate AllBelow(gs: seq<Chunk>, a: nat) { forall k | 0 <= k < |gs| :: gs[k].End() <= a }

  ghost predicate AllAbove(gs: seq<Chunk>, a: nat) { forall k | 0 <= k < |gs| :: a <= gs[k].at }

  /** The list is spent, and 8 KB are asked for and then 56 bytes, as a system call that transfers
      8 KB does for its buffer and then for its argument block: the second chunk lies inside the
      first. */
  lemma SmallerMeetsLarger(p: Pool, stale: nat)
    requires Good(p) && Spent(p) && NoWrap(p, 0x3000) && p.area.brk + 0x3000 <= p.area.End()
    ensures var (u, r) := Serve(p, 0x2000, stale);
            var (v, q) := Serve(u, 56, stale);
            && r.Payload? && q.Payload? && |v.grown| == |p.grown| + 2
            && Meet(v.grown[|p.grown|], v.grown[|p.grown| + 1]) && r.at < q.at < q.at + 56 <= r.at + 0x2000
  {
    assert AllocSize(0x2000) == 0x2020 && AllocSize(56) == 88;
    SpentGrows(p, 0x2000, stale);
    GrowIs(p, 0x2020);
    GrownIsGood(p, 0x2020);
    var u := Grown(p, 0x2020);
    SpentGrows(u, 56, stale);
    GrowIs(u, 88);
  }
}
