/** What the frame allocator promises: the range search is exact, the counter is never wrong,
    and no frame is handed out twice, over whole runs of calls. */
module FrameRuns {
  import opened Bits
  import opened FrameAllocator

  // ----- the range search

  /** With a free run, the lowest one is returned and exactly its frames become used; without
      one nothing is marked. The answer for "nothing found" is the error value, unless frames
      are left but too scattered and the map ends in free frames. */
  lemma RangeIsExact(f: Frames, n: nat)
    requires f.Conserved() && 0 < n
    ensures var (g, r) := RangeStep(f, n);
            && (forall i: nat | f.RunAt(i, n) && (forall j: nat | j < i :: !f.RunAt(j, n)) ::
                  && r == f.AddressOf(i) && g.available == f.available - n
                  && (forall k | 0 <= k < |f.bytes| ::
                        g.bytes[k] == if i <= k < i + n then KFRAME_USED else f.bytes[k]))
            && ((forall i: nat :: !f.RunAt(i, n)) ==>
                  && g == f
                  && (r == MINUS_ONE <==> n > f.available || f.bytes[f.count - 1] == KFRAME_USED))
  {
    var (g, r) := RangeStep(f, n);
    forall i: nat | f.RunAt(i, n) ensures n <= f.available {
      MarkRunCount(f, i, n);
    }
    if n <= f.available && FindRun(f, n, 0).None? {
      assert f.count > 0;
      var t := TrailStart(f, f.count);
      assert f.RunAt(t, f.count - t);
      assert t == f.count <==> f.bytes[f.count - 1] != KFRAME_FREE by {
        if t < f.count {
          assert f.bytes[f.count - 1] == KFRAME_FREE;
        }
      }
    }
  }

  lemma FreeFrameExists(f: Frames) returns (i: nat)
    requires f.Conserved() && f.available > 0
    ensures f.RunAt(i, 1)
  {
    assert KFRAME_FREE in f.bytes[..f.count];
    i :| i < f.count && f.bytes[..f.count][i] == KFRAME_FREE;
  }

  /** A request for one frame fails exactly when there is no free frame. */
  lemma OneFrameIsExact(f: Frames)
    requires f.Conserved()
    ensures RangeStep(f, 1).1 == MINUS_ONE <==> f.available == 0
    ensures f.available > 0 ==> FindRun(f, 1, 0).Some?
    ensures f.available == 0 ==> RangeStep(f, 1).0 == f
  {
    if f.available > 0 {
      var i := FreeFrameExists(f);
    }
  }

  /** The frame with this number meets the request: it ends behind its address, and with it at the
      latest. */
  predicate Asked(f: Frames, address: nat, n: nat, j: nat) {
    address < f.start + (j + 1) * 0x1000 <= address + n * 0x1000
  }

  /** The byte of each frame of the request is `now`, and every other byte of the map stays; the counter
      drops by `less`. */
  ghost predicate Changed(f: Frames, g: Frames, address: nat, n: nat, now: byte, less: int) {
    && g.start == f.start && g.count == f.count && |g.bytes| == |f.bytes|
    && g.available == (f.available - less) % 0x1_0000_0000_0000_0000
    && forall j | 0 <= j < |f.bytes| :: g.bytes[j] == if Asked(f, address, n, j) then now else f.bytes[j]
  }

  lemma AskedIs(f: Frames, address: nat, n: nat, j: nat)
    requires f.start <= address
    ensures var i := (address - f.start) / 0x1000; Asked(f, address, n, j) <==> i <= j < i + n
  {
  }

  /** A fixed request gets its address exactly if its frames are in range and all of them are free; then
      exactly these become used. Otherwise it gets the error value, and nothing changes. */
  lemma FixedIsExact(f: Frames, address: nat, n: nat)
    requires f.Shaped() && address + n * 0x1000 < U64
    ensures var (g, r) := FixedStep(f, address, n);
            if && f.start <= address && address + n * 0x1000 <= f.start + f.count * 0x1000
               && forall j | 0 <= j < f.count && Asked(f, address, n, j) :: f.bytes[j] == 0
            then r == address && Changed(f, g, address, n, 0xFF, n)
            else r == 0xFFFF_FFFF_FFFF_FFFF && g == f
  {
    hide Asked;
    if f.start <= address {
      forall j: nat ensures Asked(f, address, n, j)
          <==> (address - f.start) / 0x1000 <= j < (address - f.start) / 0x1000 + n {
        AskedIs(f, address, n, j);
      }
    }
  }

  lemma FirstFreeIs(f: Frames, i: nat)
    requires f.Shaped() && i < f.count && f.bytes[i] == 0 && forall j | 0 <= j < i :: f.bytes[j] != 0
    ensures FindRun(f, 1, 0).Some? && FindRun(f, 1, 0).value == i
  {
    var v := FindRun(f, 1, 0);
    assert f.RunAt(i, 1);
    assert f.RunAt(v.value, 1) && f.bytes[v.value] == 0;
  }

  /** A single request gets the lowest free frame; the error value if there is none although the counter
      has not run out, and zero if it has. */
  lemma SingleIsExact(f: Frames)
    requires f.Shaped()
    ensures var (g, r) := SingleStep(f);
            && (f.available == 0 ==> r == 0 && g == f)
            && (f.available > 0 && (forall j | 0 <= j < f.count :: f.bytes[j] != 0) ==>
                  r == 0xFFFF_FFFF_FFFF_FFFF && g == f)
            && forall i: nat | f.available > 0 && i < f.count && f.bytes[i] == 0
                             && forall j | 0 <= j < i :: f.bytes[j] != 0 ::
                 r == f.start + i * 0x1000 && Changed(f, g, r, 1, 0xFF, 1)
  {
    var (g, r) := SingleStep(f);
    forall i: nat | f.available > 0 && i < f.count && f.bytes[i] == 0 && forall j | 0 <= j < i :: f.bytes[j] != 0
      ensures r == f.start + i * 0x1000 && Changed(f, g, r, 1, 0xFF, 1)
    {
      FirstFreeIs(f, i);
    }
    var first := FindRun(f, 1, 0);
    assert first.Some? ==> f.RunAt(first.value, 1) && f.bytes[first.value] == 0;
  }

  /** Freeing an address from the first frame to just behind the last sets the byte of its frame free and
      counts it; any other does nothing. */
  lemma FreeIsExact(f: Frames, address: nat)
    requires f.Shaped()
    requires f.start <= address <= f.start + f.count * 0x1000 ==> (address - f.start) / 0x1000 < |f.bytes|
    ensures if f.start <= address <= f.start + f.count * 0x1000
            then Changed(f, FreeStep(f, address), address, 1, 0, -1)
            else FreeStep(f, address) == f
  {
  }

  /** What a range request answers where no run is found: the start of the free frames at the end of the
      map, if it ends in any and the counter is high enough. */
  lemma RangeElse(f: Frames, n: nat, t: nat)
    requires f.Shaped() && 0 < n <= f.available && (forall i: nat :: !f.RunAt(i, n)) && t <= f.count
    requires (forall j | t <= j < f.count :: f.bytes[j] == 0) && (t > 0 ==> f.bytes[t - 1] != 0)
    ensures RangeStep(f, n) == (f, if t == f.count then 0xFFFF_FFFF_FFFF_FFFF else f.start + t * 0x1000)
  {
    var s := TrailStart(f, f.count);
    assert f.RunAt(s, f.count - s);
    assert !(s < t) && !(t < s);
  }

  /** A range of no frames succeeds, with the start of the frames, exactly if there are some and all of them
      are free; nothing changes either way. */
  lemma RangeOfNone(f: Frames)
    requires f.Shaped()
    ensures RangeStep(f, 0)
         == (f, if f.count == 0 || exists j :: 0 <= j < f.count && f.bytes[j] != 0 then 0xFFFF_FFFF_FFFF_FFFF
                else f.start)
  {
    if f.RunAt(0, f.count) {
      assert forall j | 0 <= j < f.count :: f.bytes[j] == 0;
    }
  }

  /** `kframe_allocator_init`: as many frames as fit, all of them free, and counted. */
  lemma InitIsExact(start: nat, size: nat, bitmapSize: nat)
    requires size / 0x1000 <= bitmapSize && start + size < U64
    ensures var f := InitStep(start, size, bitmapSize);
            && f.start == start && f.count == f.available == size / 0x1000 && |f.bytes| == bitmapSize
            && forall j | 0 <= j < bitmapSize :: f.bytes[j] == 0
  {
  }

  // ----- conservation

  lemma TakeConserves(f: Frames, i: nat, n: nat)
    requires f.Conserved() && f.RunAt(i, n)
    ensures Take(f, i, n).Conserved() && Take(f, i, n).available == f.available - n
  {
    hide MarkRun;
    MarkRunCount(f, i, n);
  }

  /** `kframe_free` keeps the counter true exactly when it does nothing or frees a frame that
      is in use: a second free, and a free of the address just past the last frame, do not. */
  lemma FreeConservesIff(f: Frames, address: nat)
    requires f.Conserved()
    requires FreeHits(f, address) ==> (address - f.start) / KFRAME_SIZE < |f.bytes|
    ensures FreeStep(f, address).Conserved()
        <==> !FreeHits(f, address)
             || var i := (address - f.start) / KFRAME_SIZE; i < f.count && f.bytes[i] == KFRAME_USED
  {
    if FreeHits(f, address) {
      var i := (address - f.start) / KFRAME_SIZE;
      var g := FreeStep(f, address);
      assert |multiset(f.bytes[..f.count])| == f.count;
      assert f.FreeBelow() <= f.count;
      if i < f.count {
        assert g.bytes[..f.count] == f.bytes[..f.count][i := KFRAME_FREE];
      } else {
        assert g.bytes[..f.count] == f.bytes[..f.count];
      }
    }
  }

  // ----- whole runs

  datatype Request = Single | Fixed(address: nat, n: nat) | Range(n: nat) | Release(address: nat)

  function IndexOf(f: Frames, address: nat): nat
    requires f.start <= address
  {
    (address - f.start) / KFRAME_SIZE
  }

  /** What callers owe: ranges that do not wrap, and only frames in use are freed. */
  predicate Legal(f: Frames, q: Request)
    requires f.Shaped()
  {
    match q
    case Single => true
    case Fixed(address, n) => address + n * KFRAME_SIZE < U64
    case Range(n) => true
    case Release(address) =>
      && f.start <= address < f.End()
      && f.bytes[IndexOf(f, address)] == KFRAME_USED
  }

  function Step(f: Frames, q: Request): (Frames, nat)
    requires f.Shaped() && Legal(f, q)
  {
    match q
    case Single => SingleStep(f)
    case Fixed(address, n) => FixedStep(f, address, n)
    case Range(n) => RangeStep(f, n)
    case Release(address) => (FreeStep(f, address), 0)
  }

  function FrameSet(i: nat, n: nat): multiset<nat> {
    if n == 0 then multiset{} else FrameSet(i, n - 1) + multiset{i + n - 1}
  }

  lemma {:induction false} FrameSetIs(i: nat, n: nat)
    ensures |FrameSet(i, n)| == n
    ensures forall k: nat :: FrameSet(i, n)[k] == if i <= k < i + n then 1 else 0
  {
    if n > 0 {
      FrameSetIs(i, n - 1);
    }
  }

  /** The frames callers hold, each as often as it was handed to them: an answer other than
      the error value is taken for `n` frames. */
  function LedgerStep(held: multiset<nat>, f: Frames, q: Request): multiset<nat>
    requires f.Shaped() && Legal(f, q)
  {
    var r := Step(f, q).1;
    match q
    case Single =>
      if f.available == 0 || r == MINUS_ONE || r < f.start then held else held + FrameSet(IndexOf(f, r), 1)
    case Fixed(_, n) => if r == MINUS_ONE || r < f.start then held else held + FrameSet(IndexOf(f, r), n)
    case Range(n) => if r == MINUS_ONE || r < f.start then held else held + FrameSet(IndexOf(f, r), n)
    case Release(address) => held - multiset{IndexOf(f, address)}
  }

  /** Callers hold exactly the used frames, each once. */
  ghost predicate Matches(held: multiset<nat>, f: Frames)
    requires f.Shaped()
  {
    && (forall k: nat :: held[k] == if k < f.count && f.bytes[k] == KFRAME_USED then 1 else 0)
    && |held| + f.available == f.count
  }

  /** The callers' test of the result of a range request is sound here. */
  predicate Trusted(f: Frames, n: nat)
    requires f.Shaped()
  {
    n == 0 || n > f.available || FindRun(f, n, 0).Some? || f.count == 0 || f.bytes[f.count - 1] == KFRAME_USED
  }

  lemma TakeMatches(held: multiset<nat>, f: Frames, i: nat, n: nat)
    requires f.Conserved() && Matches(held, f) && f.RunAt(i, n)
    ensures Take(f, i, n).Conserved() && Matches(held + FrameSet(i, n), Take(f, i, n))
  {
    TakeConserves(f, i, n);
    FrameSetIs(i, n);
  }

  lemma ReleaseMatches(held: multiset<nat>, f: Frames, address: nat)
    requires f.Conserved() && Matches(held, f) && Legal(f, Release(address))
    ensures FreeStep(f, address).Conserved()
    ensures Matches(held - multiset{IndexOf(f, address)}, FreeStep(f, address))
  {
    FreeConservesIff(f, address);
    var i := IndexOf(f, address);
    assert held[i] == 1;
    assert |held - multiset{i}| == |held| - 1;
  }

  lemma FoundRange(held: multiset<nat>, f: Frames, n: nat)
    requires f.Conserved() && Matches(held, f) && 0 < n <= f.available && FindRun(f, n, 0).Some?
    ensures var (g, r) := Step(f, Range(n));
            && g.Conserved() && Matches(LedgerStep(held, f, Range(n)), g)
  {
    var i := FindRun(f, n, 0).value;
    TakeMatches(held, f, i, n);
    assert IndexOf(f, f.AddressOf(i)) == i;
  }

  lemma MissedRange(held: multiset<nat>, f: Frames, n: nat)
    requires f.Conserved() && Matches(held, f) && 0 < n && FindRun(f, n, 0).None?
    ensures Step(f, Range(n)).0 == f
    ensures Matches(LedgerStep(held, f, Range(n)), f) <==> Trusted(f, n)
  {
    RangeIsExact(f, n);
    var (g, r) := RangeStep(f, n);
    if r != MINUS_ONE {
      FrameSetIs(IndexOf(f, r), n);
      assert |held + FrameSet(IndexOf(f, r), n)| == |held| + n;
    }
  }

  /** An answer to a range request that was not found but looks like an address makes a caller
      believe it holds frames it does not: the books stay right exactly when `Trusted`. */
  lemma RangeTrustedIff(held: multiset<nat>, f: Frames, n: nat)
    requires f.Conserved() && Matches(held, f)
    ensures Matches(LedgerStep(held, f, Range(n)), Step(f, Range(n)).0) <==> Trusted(f, n)
    ensures Step(f, Range(n)).0.Conserved()
  {
    if n == 0 {
    } else if FindRun(f, n, 0).None? {
      MissedRange(held, f, n);
    } else if n <= f.available {
      FoundRange(held, f, n);
    }
  }

  lemma SingleMatches(held: multiset<nat>, f: Frames)
    requires f.Conserved() && Matches(held, f)
    ensures Step(f, Single).0.Conserved() && Matches(LedgerStep(held, f, Single), Step(f, Single).0)
  {
    if f.available > 0 {
      var _ := FreeFrameExists(f);
      var i := FindRun(f, 1, 0).value;
      TakeMatches(held, f, i, 1);
      assert IndexOf(f, f.AddressOf(i)) == i;
    }
  }

  lemma FixedMatches(held: multiset<nat>, f: Frames, address: nat, n: nat)
    requires f.Conserved() && Matches(held, f) && Legal(f, Fixed(address, n))
    ensures var (g, r) := Step(f, Fixed(address, n));
            && g.Conserved() && Matches(LedgerStep(held, f, Fixed(address, n)), g)
            && (r == MINUS_ONE ==> g == f)
  {
    if f.start <= address && address + n * KFRAME_SIZE <= f.End() && f.RunAt(IndexOf(f, address), n) {
      TakeMatches(held, f, IndexOf(f, address), n);
    }
  }

  /** One call, whatever it answers. */
  lemma StepMatches(held: multiset<nat>, f: Frames, q: Request)
    requires f.Conserved() && Matches(held, f) && Legal(f, q)
    requires q.Range? ==> Trusted(f, q.n)
    ensures Step(f, q).0.Conserved() && Matches(LedgerStep(held, f, q), Step(f, q).0)
  {
    match q
    case Single => SingleMatches(held, f);
    case Fixed(address, n) => FixedMatches(held, f, address, n);
    case Range(n) => RangeTrustedIff(held, f, n);
    case Release(address) => ReleaseMatches(held, f, address);
  }

  predicate LegalRun(f: Frames, qs: seq<Request>)
    requires f.Shaped()
    decreases |qs|
  {
    qs == [] ||
    (&& Legal(f, qs[0]) && (qs[0].Range? ==> Trusted(f, qs[0].n))
     && var g := Step(f, qs[0]).0; g.Shaped() && LegalRun(g, qs[1..]))
  }

  function Run(held: multiset<nat>, f: Frames, qs: seq<Request>): (multiset<nat>, Frames)
    requires f.Shaped() && LegalRun(f, qs)
    decreases |qs|
  {
    if qs == [] then (held, f)
    else Run(LedgerStep(held, f, qs[0]), Step(f, qs[0]).0, qs[1..])
  }

  /** Over any run the counter equals the number of free bytes, and the frames held are
      exactly the used ones, so live allocations are in range and pairwise disjoint. */
  lemma {:induction false} RunConserves(held: multiset<nat>, f: Frames, qs: seq<Request>)
    requires f.Conserved() && Matches(held, f) && LegalRun(f, qs)
    ensures var (h, g) := Run(held, f, qs); g.Conserved() && Matches(h, g)
    decreases |qs|
  {
    if qs != [] {
      StepMatches(held, f, qs[0]);
      RunConserves(LedgerStep(held, f, qs[0]), Step(f, qs[0]).0, qs[1..]);
    }
  }

  /** The same from initialisation on, when nothing is held. */
  lemma RunFromInit(start: nat, size: nat, bitmapSize: nat, qs: seq<Request>)
    requires size / KFRAME_SIZE <= bitmapSize && start + size < U64
    requires LegalRun(InitStep(start, size, bitmapSize), qs)
    ensures var (h, g) := Run(multiset{}, InitStep(start, size, bitmapSize), qs);
            g.Conserved() && Matches(h, g)
  {
    InitConserves(start, size, bitmapSize);
    RunConserves(multiset{}, InitStep(start, size, bitmapSize), qs);
  }

  // ----- inputs at which it fails

  /** A frame that is freed while it is free, and the address behind the last frame, make the
      counter wrong. */
  lemma DoubleFreeMiscounts()
    ensures var f := Frames(0, 1, [KFRAME_FREE, KFRAME_FREE], 1);
            && f.Conserved()
            && FreeStep(f, 0).available == 2 && !FreeStep(f, 0).Conserved()
            && FreeStep(f, 0x1000).available == 2 && !FreeStep(f, 0x1000).Conserved()
  {
    var f := Frames(0, 1, [KFRAME_FREE, KFRAME_FREE], 1);
    assert f.bytes[..1] == [KFRAME_FREE];
    FreeConservesIff(f, 0);
    FreeConservesIff(f, 0x1000);
  }

  /** Free, used, free: a request for two frames is answered with the address of the last one,
      and the caller believes to hold it and the one behind the memory. */
  lemma ShortRunIsHandedOut()
    ensures var f, held := Frames(0, 3, [KFRAME_FREE, KFRAME_USED, KFRAME_FREE], 2), multiset{1};
            && f.Conserved() && Matches(held, f) && !Trusted(f, 2)
            && RangeStep(f, 2) == (f, 0x2000)
            && !Matches(LedgerStep(held, f, Range(2)), f)
  {
    var f, held := Frames(0, 3, [KFRAME_FREE, KFRAME_USED, KFRAME_FREE], 2), multiset{1};
    assert f.bytes[..3] == f.bytes;
    assert !f.RunAt(0, 2) by { assert f.bytes[1] != KFRAME_FREE; }
    assert !f.RunAt(1, 2) by { assert f.bytes[1] != KFRAME_FREE; }
    assert FindRun(f, 2, 0).None?;
    assert TrailStart(f, 1) == 0 && TrailStart(f, 2) == 2 && TrailStart(f, 3) == 2;
    RangeTrustedIff(held, f, 2);
  }
}
