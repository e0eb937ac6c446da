/** The break of the shared heap: `shared_brk` and `shared_sbrk` of vma.c, in 64-bit words. */
module SharedBreak {
  import opened Bits

  const ENOMEM: int := 12

  /** The fields of `kernel_struct` that the two functions use. */
  datatype Area = Area(start: nat, size: nat, base: nat, brk: nat) {
    function End(): nat { start + size }

    predicate Words() { size < U64 && base < U64 && brk < U64 && End() < MINUS_ONE }

    /** The break is set and inside the heap. */
    predicate Inside() { start <= base <= brk <= End() }
  }

  /** A signed 64-bit length; negating the least one overflows. */
  type Length = n: int | -0x8000_0000_0000_0000 < n < 0x8000_0000_0000_0000

  function Brk(a: Area, address: nat): (Area, int) {
    if a.base != 0 then (a, -1)
    else if address < a.start || address > a.End() then (a, -ENOMEM)
    else (a.(base := address, brk := address), 0)
  }

  /** The length is added to or subtracted from a `uint64_t`. */
  function Sbrk(a: Area, length: Length): (r: (Area, nat))
    requires a.Words()
    ensures r.0.Words()
  {
    if length < 0 then
      var brk := Sub64(a.brk, -length);
      var b := a.(brk := if brk < a.base then a.base else brk);
      (b, b.brk)
    else if length == 0 then (a, a.brk)
    else if Add64(length, a.brk) > a.End() then (a, U64 - ENOMEM)
    else if Add64(length, a.brk) < a.start then (a.(brk := a.base), a.base)
    else var b := a.(brk := Add64(a.brk, length)); (b, b.brk)
  }

  /** What `shared_sbrk` does for every length: nothing; a break that shrinks to its base at the lowest; the
      error value of `ENOMEM` behind the end; the base below the start; or a break that grows. Sums and
      differences are those of 64-bit words. */
  lemma SbrkIsExact(a: Area, length: Length)
    requires a.Words()
    ensures var (b, r), to := Sbrk(a, length), (a.brk + length) % 0x1_0000_0000_0000_0000;
            && b.start == a.start && b.size == a.size && b.base == a.base
            && (length == 0 ==> b.brk == r == a.brk)
            && (length < 0 ==> b.brk == r == if to < a.base then a.base else to)
            && (length > 0 && to > a.start + a.size ==> b.brk == a.brk && r == 0xFFFF_FFFF_FFFF_FFF4)
            && (length > 0 && to <= a.start + a.size ==> b.brk == r == if to < a.start then a.base else to)
  {
  }

  /** The start is high enough that no shrinking wraps, and no growing wraps into the heap below
      the base. */
  predicate Safe(a: Area) {
    a.base >= 0x7FFF_FFFF_FFFF_FFFF && (a.base == a.start || a.size <= 0x8000_0000_0000_0000)
  }

  lemma StepStaysInside(a: Area, length: Length)
    requires a.Words() && a.Inside() && Safe(a)
    ensures Sbrk(a, length).0.Inside() && Safe(Sbrk(a, length).0)
    ensures Sbrk(a, length).1 == Sbrk(a, length).0.brk || (Sbrk(a, length) == (a, U64 - ENOMEM))
  {
  }

  function Run(a: Area, lengths: seq<Length>): (r: Area)
    requires a.Words()
    ensures r.Words()
    decreases |lengths|
  {
    if lengths == [] then a else Run(Sbrk(a, lengths[0]).0, lengths[1..])
  }

  lemma {:induction false} RunStaysInside(a: Area, lengths: seq<Length>)
    requires a.Words() && a.Inside() && Safe(a)
    ensures Run(a, lengths).Inside()
    decreases |lengths|
  {
    if lengths != [] {
      StepStaysInside(a, lengths[0]);
      RunStaysInside(Sbrk(a, lengths[0]).0, lengths[1..]);
    }
  }

  /** A base in the lower half: shrinking by one more than the base wraps to the last word. */
  lemma LowBaseEscapes(a: Area)
    requires a.Words() && a.Inside() && a.brk == a.base && a.base < 0x7FFF_FFFF_FFFF_FFFF
    ensures !Run(a, [-(a.base + 1)]).Inside()
  {
    assert Run(a, [-(a.base + 1)]) == Run(Sbrk(a, -(a.base + 1)).0, []);
  }

  lemma RunOne(a: Area, n: Length)
    requires a.Words()
    ensures Run(a, [n]) == Sbrk(a, n).0
  {
    assert [n][1..] == [];
  }

  lemma RunTwo(a: Area, n: Length, k: Length)
    requires a.Words()
    ensures Run(a, [n, k]) == Sbrk(Sbrk(a, n).0, k).0
  {
    assert [n, k][1..] == [k];
    RunOne(Sbrk(a, n).0, k);
  }

  lemma RunThree(a: Area, n: Length, k: Length, j: Length)
    requires a.Words()
    ensures Run(a, [n, k, j]) == Sbrk(Sbrk(Sbrk(a, n).0, k).0, j).0
  {
    assert [n, k, j][1..] == [k, j];
    RunTwo(Sbrk(a, n).0, k, j);
  }

  lemma Grows(a: Area, n: Length)
    requires a.Words() && a.Inside() && 0 < n && a.brk + n <= a.End()
    ensures Sbrk(a, n).0 == a.(brk := a.brk + n)
  {
  }

  lemma GrowWraps(a: Area, n: Length)
    requires a.Words() && 0 < n && a.start <= a.brk + n - U64 <= a.End()
    ensures Sbrk(a, n).0 == a.(brk := a.brk + n - U64)
  {
  }

  /** A base above the start of a heap of more than half the address space: growing can wrap to
      the start, below the base. */
  lemma LargeHeapEscapes(a: Area) returns (lengths: seq<Length>)
    requires a.Words() && a.Inside() && a.brk == a.base && a.start < a.base && a.size > 0x8000_0000_0000_0000
    ensures !Run(a, lengths).Inside()
  {
    hide Run, Sbrk;
    var half := 0x8000_0000_0000_0000;
    var target := a.start + half + 1;
    if target <= a.base {
      lengths := [U64 + a.start - a.base];
      RunOne(a, lengths[0]);
      GrowWraps(a, lengths[0]);
    } else if target - a.base < half {
      lengths := [target - a.base, half - 1];
      RunTwo(a, target - a.base, half - 1);
      Grows(a, target - a.base);
      GrowWraps(a.(brk := target), half - 1);
    } else {
      lengths := [1, target - a.base - 1, half - 1];
      RunThree(a, 1, target - a.base - 1, half - 1);
      Grows(a, 1);
      Grows(a.(brk := a.brk + 1), target - a.base - 1);
      GrowWraps(a.(brk := target), half - 1);
    }
  }

  /** After `shared_brk` has set it, the break stays inside the heap for every run of lengths if
      and only if the base is in the upper half, give or take a byte, and, unless the base is
      the start of the heap, the heap is at most half the address space. */
  lemma BreakStaysInsideIff(a: Area)
    requires a.Words() && a.Inside() && a.brk == a.base
    ensures (forall lengths: seq<Length> :: Run(a, lengths).Inside()) <==> Safe(a)
  {
    if Safe(a) {
      forall lengths: seq<Length> ensures Run(a, lengths).Inside() {
        RunStaysInside(a, lengths);
      }
    } else if a.base < 0x7FFF_FFFF_FFFF_FFFF {
      LowBaseEscapes(a);
    } else {
      var lengths := LargeHeapEscapes(a);
    }
  }

  /** What `shared_brk` establishes, and that it does so once. */
  lemma BrkSetsBase(a: Area, address: nat)
    requires a.Words()
    ensures var (b, r) := Brk(a, address);
            && (r == 0 <==> a.base == 0 && a.start <= address <= a.End())
            && (r == 0 ==> b.Words() && b.Inside() && b.base == b.brk == address)
            && (r != 0 ==> b == a)
            && (r == 0 && address != 0 ==> forall again: nat :: Brk(b, again) == (b, -1))
  {
  }

  /** The fields in place. */
  class SharedHeap {
    var start: nat
    var size: nat
    var base: nat
    var brk: nat

    function View(): Area
      reads this
    {
      Area(start, size, base, brk)
    }

    constructor (heapStart: nat, heapSize: nat)
      ensures View() == Area(heapStart, heapSize, 0, 0)
    {
      start, size, base, brk := heapStart, heapSize, 0, 0;
    }

    method SetBreak(address: nat) returns (r: int)
      requires View().Words()
      modifies this`base, this`brk
      ensures (View(), r) == Brk(old(View()), address)
      ensures r == 0 ==> old(base) == 0 && View().Inside() && base == brk == address
      ensures r != 0 ==> View() == old(View())
    {
      if base != 0 { return -1; }
      if address < start || address > start + size { return -ENOMEM; }
      base := address;
      brk := address;
      r := 0;
    }

    method MoveBreak(n: Length) returns (r: nat)
      requires View().Words()
      modifies this`brk
      ensures (View(), r) == Sbrk(old(View()), n)
      ensures old(View().Inside() && Safe(View())) ==>
                && View().Inside() && Safe(View())
                && (r == brk || (r == U64 - ENOMEM && brk == old(brk)))
    {
      if View().Inside() && Safe(View()) { StepStaysInside(View(), n); }
      var length: int := n;
      if length < 0 {
        length := 0 - length;
        brk := Sub64(brk, length);
        if brk < base { brk := base; }
        return brk;
      }
      if length == 0 { return brk; }
      if Add64(length, brk) > start + size { return U64 - ENOMEM; }
      if Add64(length, brk) < start {
        brk := base;
        return brk;
      }
      brk := Add64(brk, length);
      r := brk;
    }
  }
}
