/** The frame allocator `kframe_*` of vma.c: one byte of a map for each 4 KB frame, and a
    counter of the frames that are left. */
module FrameAllocator {
  import opened Bits
  import opened Wrappers

  const KFRAME_SIZE: nat := 0x1000
  const KFRAME_FREE: byte := 0x00
  const KFRAME_USED: byte := 0xFF

  /** How many frames of a map are free. */
  function FreeIn(bytes: seq<byte>): nat { multiset(bytes)[KFRAME_FREE] }

  /** The fields of `kframe_alloc_t`; `bytes` may be longer than `count`. */
  datatype Frames = Frames(start: nat, count: nat, bytes: seq<byte>, available: nat) {

    predicate Shaped() {
      && count <= |bytes|
      && start + count * KFRAME_SIZE < U64
      && available < U64
      && forall i | 0 <= i < |bytes| :: bytes[i] == KFRAME_FREE || bytes[i] == KFRAME_USED
    }

    function FreeBelow(): nat
      requires Shaped()
    {
      FreeIn(bytes[..count])
    }

    /** The counter tells the truth. */
    predicate Conserved() {
      Shaped() && available == FreeBelow()
    }

    function End(): nat { start + count * KFRAME_SIZE }

    function AddressOf(i: nat): nat { start + i * KFRAME_SIZE }

    predicate RunAt(i: nat, n: nat)
      requires Shaped()
    {
      i + n <= count && forall j | i <= j < i + n :: bytes[j] == KFRAME_FREE
    }
  }

  /** The map after `n` frames from index `i` have been taken, one at a time. */
  function MarkRun(bytes: seq<byte>, i: nat, n: nat): (r: seq<byte>)
    requires i + n <= |bytes|
    ensures |r| == |bytes|
    ensures forall j | 0 <= j < |r| :: r[j] == if i <= j < i + n then KFRAME_USED else bytes[j]
  {
    if n == 0 then bytes else MarkRun(bytes, i, n - 1)[i + n - 1 := KFRAME_USED]
  }

  /** The first index from `i` on where `n` free frames start. */
  function FindRun(f: Frames, n: nat, i: nat): (r: Option<nat>)
    requires f.Shaped()
    ensures r.Some? ==> i <= r.value && f.RunAt(r.value, n) && forall j | i <= j < r.value :: !f.RunAt(j, n)
    ensures r.None? ==> forall j | i <= j :: !f.RunAt(j, n)
    decreases f.count - i
  {
    if i + n > f.count then None
    else if f.RunAt(i, n) then Some(i)
    else if i == f.count then None
    else FindRun(f, n, i + 1)
  }

  /** Where the free frames just below `limit` begin; `limit` if there are none. */
  function TrailStart(f: Frames, limit: nat): (r: nat)
    requires f.Shaped() && limit <= f.count
    ensures r <= limit && f.RunAt(r, limit - r)
    ensures r > 0 ==> f.bytes[r - 1] != KFRAME_FREE
  {
    if limit == 0 || f.bytes[limit - 1] != KFRAME_FREE then limit else TrailStart(f, limit - 1)
  }

  function Take(f: Frames, i: nat, n: nat): Frames
    requires f.Shaped() && i + n <= f.count
  {
    f.(bytes := MarkRun(f.bytes, i, n), available := (f.available - n) % U64)
  }

  function InitStep(frameStart: nat, size: nat, bitmapSize: nat): (f: Frames)
    requires size / KFRAME_SIZE <= bitmapSize && frameStart + size < U64
    ensures f.Shaped()
  {
    Frames(frameStart, size / KFRAME_SIZE, seq(bitmapSize, _ => KFRAME_FREE), size / KFRAME_SIZE)
  }

  function SingleStep(f: Frames): (Frames, nat)
    requires f.Shaped()
  {
    if f.available == 0 then (f, 0)
    else match FindRun(f, 1, 0)
         case Some(i) => (Take(f, i, 1), f.AddressOf(i))
         case None => (f, MINUS_ONE)
  }

  function FixedStep(f: Frames, address: nat, n: nat): (Frames, nat)
    requires f.Shaped() && address + n * KFRAME_SIZE < U64
  {
    if address < f.start || f.End() < address + n * KFRAME_SIZE then (f, MINUS_ONE)
    else
      var i := (address - f.start) / KFRAME_SIZE;
      if f.RunAt(i, n) then (Take(f, i, n), address) else (f, MINUS_ONE)
  }

  /** A search that fails still answers with the start of the free frames at the end of the
      map, if there are any; a search for nothing succeeds only on a map without used frames. */
  function RangeStep(f: Frames, n: nat): (r: (Frames, nat))
    requires f.Shaped()
    ensures r.0.Shaped() && r.0.start == f.start && r.0.count == f.count
  {
    if n > f.available then (f, MINUS_ONE)
    else if n == 0 then (f, if f.count > 0 && f.RunAt(0, f.count) then f.start else MINUS_ONE)
    else match FindRun(f, n, 0)
         case Some(i) => (Take(f, i, n), f.AddressOf(i))
         case None =>
           var t := TrailStart(f, f.count);
           (f, if t == f.count then MINUS_ONE else f.AddressOf(t))
  }

  /** `kframe_free` writes to the map where this holds. */
  predicate FreeHits(f: Frames, address: nat) {
    f.start <= address <= f.End()
  }

  function FreeStep(f: Frames, address: nat): Frames
    requires f.Shaped()
    requires FreeHits(f, address) ==> (address - f.start) / KFRAME_SIZE < |f.bytes|
  {
    if !FreeHits(f, address) then f
    else f.(bytes := f.bytes[(address - f.start) / KFRAME_SIZE := KFRAME_FREE],
            available := Add64(f.available, 1))
  }

  // ----- runs of free frames

  /** A run of `n` ends at `i` exactly when the free frames below `i` reach back that far. */
  lemma RunsEndingAt(f: Frames, n: nat, i: nat)
    requires f.Shaped() && 0 < n && i <= f.count
    ensures forall j: nat | j + n == i :: f.RunAt(j, n) <==> TrailStart(f, i) <= j
  {
    forall j: nat | j + n == i ensures f.RunAt(j, n) <==> TrailStart(f, i) <= j {
      var t := TrailStart(f, i);
      if t > j {
        assert f.bytes[t - 1] != KFRAME_FREE;
      }
    }
  }

  /** No run of `n` free frames ends at or before `i`. */
  ghost predicate NoneUpTo(f: Frames, n: nat, i: nat)
    requires f.Shaped()
  {
    forall j: nat | j + n <= i :: !f.RunAt(j, n)
  }

  /** The search may go on while the free frames below `i` are fewer than `n`, and may stop
      as soon as they are `n`. */
  lemma SearchStep(f: Frames, n: nat, i: nat)
    requires f.Shaped() && 0 < n && 0 < i <= f.count && NoneUpTo(f, n, i - 1)
    ensures TrailStart(f, i) + n > i ==> NoneUpTo(f, n, i)
    ensures TrailStart(f, i) + n == i ==> FindRun(f, n, 0) == Some(i - n)
  {
    RunsEndingAt(f, n, i);
  }

  lemma UseOne(s: seq<byte>, j: nat)
    requires j < |s| && s[j] == KFRAME_FREE
    ensures FreeIn(s[j := KFRAME_USED]) == FreeIn(s) - 1
  {
  }

  lemma MarkLast(bytes: seq<byte>, count: nat, i: nat, n: nat)
    requires 0 < n && i + n <= count <= |bytes|
    ensures MarkRun(bytes, i, n)[..count] == MarkRun(bytes, i, n - 1)[..count][i + n - 1 := KFRAME_USED]
  {
  }

  lemma {:induction false} MarkCount(bytes: seq<byte>, count: nat, i: nat, n: nat)
    requires i + n <= count <= |bytes| && forall j | i <= j < i + n :: bytes[j] == KFRAME_FREE
    ensures FreeIn(MarkRun(bytes, i, n)[..count]) == FreeIn(bytes[..count]) - n
  {
    hide FreeIn;
    if n > 0 {
      MarkCount(bytes, count, i, n - 1);
      UseOne(MarkRun(bytes, i, n - 1)[..count], i + n - 1);
      MarkLast(bytes, count, i, n);
    }
  }

  /** Taking a free run lowers the number of free frames by its length. */
  lemma MarkRunCount(f: Frames, i: nat, n: nat)
    requires f.Shaped() && f.RunAt(i, n)
    ensures FreeIn(MarkRun(f.bytes, i, n)[..f.count]) == f.FreeBelow() - n
  {
    hide MarkRun, FreeIn;
    MarkCount(f.bytes, f.count, i, n);
  }

  lemma {:induction false} AllFreeCount(s: seq<byte>)
    requires forall i | 0 <= i < |s| :: s[i] == KFRAME_FREE
    ensures FreeIn(s) == |s|
  {
    if s != [] {
      AllFreeCount(s[..|s| - 1]);
      assert s == s[..|s| - 1] + [s[|s| - 1]];
    }
  }

  lemma InitConserves(start: nat, size: nat, bitmapSize: nat)
    requires size / KFRAME_SIZE <= bitmapSize && start + size < U64
    ensures InitStep(start, size, bitmapSize).Conserved()
  {
    var f := InitStep(start, size, bitmapSize);
    AllFreeCount(f.bytes[..f.count]);
  }

  lemma Decrement(a: nat, i: nat)
    requires a < U64
    ensures Sub64((a - i) % U64, 1) == (a - (i + 1)) % U64
  {
  }

  // ----- the allocator in place

  class Allocator {
    var frameStart: nat
    var frameCount: nat
    var bitmap: array<byte>
    var available: nat

    ghost function View(): Frames
      reads this, bitmap
    {
      Frames(frameStart, frameCount, bitmap[..], available)
    }

    /** `kframe_allocator_init` on a map of `bytes.Length` bytes; a size of zero is refused. */
    constructor (bytes: array<byte>, start: nat, size: nat)
      requires 0 < size
      requires size / KFRAME_SIZE <= bytes.Length && start + size < U64
      modifies bytes
      ensures bitmap == bytes && View() == InitStep(start, size, bytes.Length)
      ensures View().Conserved() && frameStart == start && frameCount == available == size / 0x1000
      ensures forall j | 0 <= j < bytes.Length :: bytes[j] == 0
    {
      frameStart := start;
      frameCount := size / KFRAME_SIZE;
      bitmap := bytes;
      available := size / KFRAME_SIZE;
      new;
      for i := 0 to bytes.Length
        invariant bitmap == bytes && frameStart == start
        invariant frameCount == available == size / KFRAME_SIZE
        invariant forall j | 0 <= j < i :: bytes[j] == KFRAME_FREE
      {
        bytes[i] := KFRAME_FREE;
      }
      InitConserves(start, size, bytes.Length);
      assert bytes[..] == seq(bytes.Length, _ => KFRAME_FREE);
    }

    /** Marks the run that a search has found. */
    method MarkUsed(index: nat, n: nat)
      requires View().Shaped() && index + n <= frameCount
      modifies this`available, bitmap
      ensures bitmap == old(bitmap) && View() == Take(old(View()), index, n)
    {
      ghost var was := bitmap[..];
      for i := 0 to n
        invariant bitmap == old(bitmap) && bitmap[..] == MarkRun(was, index, i)
        invariant available == (old(available) - i) % U64
      {
        bitmap[index + i] := KFRAME_USED;
        assert bitmap[..] == MarkRun(was, index, i)[index + i := KFRAME_USED];
        available := Sub64(available, 1);
        Decrement(old(available), i);
      }
    }

    method AllocateSingleFrame() returns (r: nat)
      requires View().Shaped()
      modifies this`available, bitmap
      ensures bitmap == old(bitmap) && (View(), r) == SingleStep(old(View()))
    {
      if available == 0 { return 0; }
      ghost var f := View();
      for start := 0 to frameCount
        invariant View() == f
        invariant forall j: nat | j < start :: !f.RunAt(j, 1)
      {
        if bitmap[start] == KFRAME_FREE {
          assert f.RunAt(start, 1);
          MarkUsed(start, 1);
          return frameStart + start * KFRAME_SIZE;
        }
        assert f.bytes[start] != KFRAME_FREE;
      }
      r := MINUS_ONE;
    }

    method Free(address: nat)
      requires View().Shaped()
      requires FreeHits(View(), address) ==> (address - frameStart) / KFRAME_SIZE < bitmap.Length
      modifies this`available, bitmap
      ensures bitmap == old(bitmap) && View() == FreeStep(old(View()), address)
    {
      if address < frameStart || address > frameStart + frameCount * KFRAME_SIZE { return; }
      var index := (address - frameStart) / KFRAME_SIZE;
      bitmap[index] := KFRAME_FREE;
      available := Add64(available, 1);
    }

    method AllocateFixed(start: nat, count: nat) returns (r: nat)
      requires View().Shaped() && start + count * KFRAME_SIZE < U64
      modifies this`available, bitmap
      ensures bitmap == old(bitmap) && (View(), r) == FixedStep(old(View()), start, count)
    {
      var end := frameStart + frameCount * KFRAME_SIZE;
      if start < frameStart || end < start + count * KFRAME_SIZE { return MINUS_ONE; }
      var index := (start - frameStart) / KFRAME_SIZE;
      assert index + count <= frameCount;
      for i := 0 to count
        invariant View() == old(View())
        invariant forall j | index <= j < index + i :: bitmap[j] == KFRAME_FREE
      {
        if bitmap[index + i] == KFRAME_USED {
          assert !View().RunAt(index, count);
          return MINUS_ONE;
        }
        assert bitmap[..][index + i] == KFRAME_FREE;
      }
      assert View().RunAt(index, count);
      MarkUsed(index, count);
      r := start;
    }

    /** The search of `kframe_allocate_range`: how many free frames it has in a row when it
        stops, and where they start. */
    method SearchRun(count: nat) returns (target: nat, length: nat)
      requires View().Shaped()
      ensures count > 0 && FindRun(View(), count, 0).Some? ==>
                length == count && target == View().AddressOf(FindRun(View(), count, 0).value)
      ensures count > 0 && FindRun(View(), count, 0).None? ==>
                && length < count && length == frameCount - TrailStart(View(), frameCount)
                && target == if length == 0 then MINUS_ONE else frameStart + (frameCount - length) * KFRAME_SIZE
      ensures count == 0 ==>
                target == if frameCount > 0 && View().RunAt(0, frameCount) then frameStart else MINUS_ONE
    {
      target, length := MINUS_ONE, 0;
      var i := 0;
      ghost var f := View();
      while i < frameCount && (i == 0 || length != count)
        invariant i <= frameCount
        invariant length == i - TrailStart(f, i)
        invariant target == if length == 0 then MINUS_ONE else f.AddressOf(i - length)
        invariant count == 0 && length != 0 ==> length == i
        invariant count > 0 ==> length <= count
        invariant count > 0 && length < count ==> NoneUpTo(f, count, i)
        invariant count > 0 && length == count ==> FindRun(f, count, 0) == Some(i - count)
      {
        i := i + 1;
        assert f.bytes[i - 1] == bitmap[i - 1];
        if bitmap[i - 1] == KFRAME_FREE {
          target := if target == MINUS_ONE then (i - 1) * KFRAME_SIZE + frameStart else target;
          length := length + 1;
        } else {
          target := MINUS_ONE;
          length := 0;
        }
        if count > 0 { SearchStep(f, count, i); }
      }
    }

    method AllocateRange(count: nat) returns (r: nat)
      requires View().Shaped()
      modifies this`available, bitmap
      ensures bitmap == old(bitmap) && (View(), r) == RangeStep(old(View()), count)
    {
      if count > available { return MINUS_ONE; }
      var length;
      r, length := SearchRun(count);
      if length == count && count > 0 {
        MarkUsed((r - frameStart) / KFRAME_SIZE, count);
      }
    }
  }
}
