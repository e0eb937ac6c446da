/** The lists of mapped regions: `mmap_region_insert` and `search_mmap_region_fixed` of vma.c,
    and `kernel_vma_regions_alloc` of main.c. */
module Regions {
  import opened Bits

  /** `va_base + va_size` of two 64-bit words, as the code computes it. */
  function EndOf(base: nat, size: nat): nat {
    if base + size < U64 then base + size else base + size - U64
  }

  lemma EndOfIs(base: nat, size: nat)
    requires base < U64 && size < U64
    ensures EndOf(base, size) == (base + size) % 0x1_0000_0000_0000_0000
  {
  }

  /** Base and size of a `mem_region_t`, and the address of the structure itself. */
  datatype Region = Region(base: nat, size: nat, self: nat) {

    function End(): nat { EndOf(base, size) }

    /** The region does not run over the end of the address space. */
    predicate Fits() { base + size < U64 }
  }

  ghost predicate AllFit(rs: seq<Region>) { forall i | 0 <= i < |rs| :: rs[i].Fits() }

  ghost predicate Sorted(rs: seq<Region>) {
    forall i, j | 0 <= i < j < |rs| :: rs[i].base <= rs[j].base
  }

  /** Each region ends at or below the base of every later one. */
  ghost predicate Ascending(rs: seq<Region>) {
    AllFit(rs) && forall i, j | 0 <= i < j < |rs| :: rs[i].End() <= rs[j].base
  }

  // ----- insertion

  /** The list with a region put before node `i`. */
  function Splice(rs: seq<Region>, x: Region, i: nat): seq<Region>
    requires i <= |rs|
  {
    rs[..i] + [x] + rs[i..]
  }

  /** Where the walk of `mmap_region_insert` from node `i` on puts the region: before which node,
      at the end, or (one more) nowhere. */
  function PlaceFrom(rs: seq<Region>, x: Region, i: nat): (j: nat)
    requires i < |rs|
    ensures j <= |rs| + 1
    decreases |rs| - i
  {
    if i + 1 == |rs| then
      if rs[i].End() <= x.base then |rs| else |rs| + 1
    else if rs[i].base > x.base then i
    else if rs[i].End() <= x.base && x.End() < rs[i + 1].base then i + 1
    else PlaceFrom(rs, x, i + 1)
  }

  function Insert(rs: seq<Region>, x: Region): (seq<Region>, bool) {
    var j := if rs == [] then 0 else PlaceFrom(rs, x, 0);
    if j <= |rs| then (Splice(rs, x, j), true) else (rs, false)
  }

  /** The walk takes node `i` for the lower edge of a gap that the region fits in. */
  predicate Gap(rs: seq<Region>, x: Region, i: nat)
    requires i + 1 < |rs|
  {
    rs[i].End() <= x.base && x.End() < rs[i + 1].base
  }

  /** The walk goes on past node `i`. */
  predicate Passed(rs: seq<Region>, x: Region, i: nat)
    requires i + 1 < |rs|
  {
    rs[i].base <= x.base && !Gap(rs, x, i)
  }

  /** Where the walk has stopped: in front of a node above the region, in a gap, behind the last
      node, or nowhere. */
  lemma {:induction false} PlaceCases(rs: seq<Region>, x: Region, i: nat)
    requires i < |rs| && forall k | 0 <= k < i :: Passed(rs, x, k)
    ensures var j, last := PlaceFrom(rs, x, i), |rs| - 1;
            || (j < last && rs[j].base > x.base && forall k | 0 <= k < j :: Passed(rs, x, k))
            || (0 < j <= last && rs[j - 1].base <= x.base && Gap(rs, x, j - 1) && forall k | 0 <= k < j - 1 ::
               Passed(rs, x, k))
            || (j > last && (forall k | 0 <= k < last :: Passed(rs, x, k)) && (j == |rs| <==> rs[last].End() <= x.base))
    decreases |rs| - i
  {
    if i + 1 < |rs| && Passed(rs, x, i) {
      PlaceCases(rs, x, i + 1);
    }
  }

  /** The region fits the gap that the walk finds only because its end has wrapped around, and
      lies above the gap; or the last node has wrapped and starts above the region. */
  ghost predicate Misplaced(rs: seq<Region>, x: Region) {
    || (exists i :: 0 <= i < |rs| - 1 && rs[i].base <= x.base && Gap(rs, x, i) && rs[i + 1].base < x.base)
    || (rs != [] && rs[|rs| - 1].End() <= x.base < rs[|rs| - 1].base && forall i | 0 <= i < |rs| - 1 ::
       Passed(rs, x, i))
  }

  lemma SpliceSortedIff(rs: seq<Region>, x: Region, j: nat)
    requires Sorted(rs) && j <= |rs|
    ensures Sorted(Splice(rs, x, j)) <==> (j > 0 ==> rs[j - 1].base <= x.base) && (j < |rs| ==> x.base <= rs[j].base)
  {
    var r := Splice(rs, x, j);
    assert r[j] == x && (j > 0 ==> r[j - 1] == rs[j - 1]) && (j < |rs| ==> r[j + 1] == rs[j]);
  }

  lemma NoEarlierGap(rs: seq<Region>, x: Region, j: nat)
    requires Sorted(rs) && j < |rs| && x.base <= rs[j].base && forall k | 0 <= k < j - 1 :: Passed(rs, x, k)
    ensures !exists i :: 0 <= i < |rs| - 1 && rs[i].base <= x.base && Gap(rs, x, i) && rs[i + 1].base < x.base
  {
    assert forall i | 0 <= i < j - 1 :: Passed(rs, x, i) && !Gap(rs, x, i);
    assert forall k | j <= k < |rs| :: rs[k].base >= x.base;
  }

  /** The three ways in which the walk ends. */
  lemma StopsBelow(rs: seq<Region>, x: Region, j: nat)
    requires Sorted(rs) && j + 1 < |rs| && rs[j].base > x.base && forall k | 0 <= k < j :: Passed(rs, x, k)
    ensures Sorted(Splice(rs, x, j)) && !Misplaced(rs, x)
  {
    SpliceSortedIff(rs, x, j);
    NoEarlierGap(rs, x, j);
    assert j > 0 ==> Passed(rs, x, j - 1);
    assert !Passed(rs, x, j);
  }

  lemma StopsInGap(rs: seq<Region>, x: Region, j: nat)
    requires Sorted(rs) && 0 < j < |rs| && rs[j - 1].base <= x.base && Gap(rs, x, j - 1)
    requires forall k | 0 <= k < j - 1 :: Passed(rs, x, k)
    ensures Sorted(Splice(rs, x, j)) <==> !Misplaced(rs, x)
  {
    var i := j - 1;
    assert !Passed(rs, x, i);
    SpliceSortedIff(rs, x, j);
    if x.base <= rs[j].base {
      NoEarlierGap(rs, x, j);
    } else {
      assert 0 <= i < |rs| - 1 && rs[i].base <= x.base && Gap(rs, x, i) && rs[i + 1].base < x.base;
    }
  }

  lemma ReachesLast(rs: seq<Region>, x: Region)
    requires Sorted(rs) && rs != [] && forall k | 0 <= k < |rs| - 1 :: Passed(rs, x, k)
    ensures rs[|rs| - 1].End() <= x.base ==> (Sorted(Splice(rs, x, |rs|)) <==> !Misplaced(rs, x))
    ensures rs[|rs| - 1].End() > x.base ==> !Misplaced(rs, x)
  {
    SpliceSortedIff(rs, x, |rs|);
    assert forall i | 0 <= i < |rs| - 1 :: Passed(rs, x, i) ==> !Gap(rs, x, i);
  }

  /** The list stays sorted exactly then, overlapping or not. */
  lemma InsertSortedIff(rs: seq<Region>, x: Region)
    requires Sorted(rs)
    ensures Sorted(Insert(rs, x).0) <==> !Misplaced(rs, x)
  {
    if rs != [] {
      hide Gap, PlaceFrom, Misplaced, Sorted, Splice;
      var j, last := PlaceFrom(rs, x, 0), |rs| - 1;
      PlaceCases(rs, x, 0);
      if j < last && rs[j].base > x.base && (forall k | 0 <= k < j :: Passed(rs, x, k)) {
        StopsBelow(rs, x, j);
      } else if j <= last {
        StopsInGap(rs, x, j);
      } else {
        ReachesLast(rs, x);
      }
    } else {
      assert Splice(rs, x, 0) == [x];
    }
  }

  /** So it does as long as no region runs over the end of the address space. */
  lemma InsertKeepsSorted(rs: seq<Region>, x: Region)
    requires AllFit(rs) && x.Fits() && Sorted(rs)
    ensures Sorted(Insert(rs, x).0)
  {
    InsertSortedIff(rs, x);
  }

  /** A region that does can land in the wrong place. */
  lemma WrappingRegionBreaksOrder()
    ensures var rs := [Region(0x1000, 0x1000, 0), Region(0x3000, 0x1000, 0)];
            var x := Region(0x5000, 0xFFFF_FFFF_FFFF_C000, 0);
            AllFit(rs) && Sorted(rs) && !x.Fits() && Insert(rs, x).0 == [rs[0], x, rs[1]] && !Sorted(Insert(rs, x).0)
  {
    var rs, x := [Region(0x1000, 0x1000, 0), Region(0x3000, 0x1000, 0)], Region(0x5000, 0xFFFF_FFFF_FFFF_C000, 0);
    var r := Insert(rs, x).0;
    assert r == rs[..1] + [x] + rs[1..];
    assert r[1].base > r[2].base;
  }

  predicate Disjoint(a: Region, b: Region) { a.End() <= b.base || b.End() <= a.base }

  /** Where a disjoint region is refused: between the last two nodes, touching the last, or
      below the only node. */
  predicate Refused(rs: seq<Region>, x: Region) {
    && rs != []
    && var last := rs[|rs| - 1];
       if |rs| == 1 then x.End() <= last.base else x.End() == last.base
  }

  ghost predicate Added(rs: seq<Region>, x: Region, r: seq<Region>) {
    Ascending(r) && multiset(r) == multiset(rs) + multiset{x}
  }

  lemma SpliceAdds(rs: seq<Region>, x: Region, i: nat)
    requires Ascending(rs) && x.Fits() && i <= |rs|
    requires forall k | 0 <= k < i :: rs[k].End() <= x.base
    requires forall k | i <= k < |rs| :: x.End() <= rs[k].base
    ensures Added(rs, x, Splice(rs, x, i))
  {
    var r := Splice(rs, x, i);
    SpliceBag(rs, x, i);
    forall k | 0 <= k < |r| ensures r[k] == if k < i then rs[k] else if k == i then x else rs[k - 1] {}
    hide Splice;
    assert AllFit(r);
  }

  lemma SpliceBag(rs: seq<Region>, x: Region, i: nat)
    requires i <= |rs|
    ensures multiset(Splice(rs, x, i)) == multiset(rs) + multiset{x}
  {
    assert rs == rs[..i] + rs[i..];
  }

  /** The nodes before `p` end below the region, the others start above it. */
  ghost predicate Splits(rs: seq<Region>, x: Region, p: nat) {
    && p <= |rs|
    && (forall k | 0 <= k < p :: rs[k].End() <= x.base)
    && (forall k | p <= k < |rs| :: x.End() <= rs[k].base)
  }

  /** A region disjoint from each node of an ordered list has its place between them. */
  lemma {:induction false} FindSplit(rs: seq<Region>, x: Region) returns (p: nat)
    requires Ascending(rs) && x.Fits() && forall k | 0 <= k < |rs| :: Disjoint(rs[k], x)
    ensures Splits(rs, x, p)
  {
    p := 0;
    while p < |rs| && rs[p].End() <= x.base
      invariant p <= |rs| && forall k | 0 <= k < p :: rs[k].End() <= x.base
    {
      p := p + 1;
    }
    if p < |rs| {
      assert Disjoint(rs[p], x);
      forall k | p <= k < |rs| ensures x.End() <= rs[k].base {
        assert k > p ==> rs[p].base <= rs[p].End() <= rs[k].base;
      }
    }
  }

  /** The walk finds that place, but for two cases at the last node. */
  lemma {:induction false} WalkFindsSplit(rs: seq<Region>, x: Region, p: nat, i: nat)
    requires AllFit(rs) && x.Fits() && 0 < x.size && forall k | 0 <= k < |rs| :: rs[k].size > 0
    requires Splits(rs, x, p) && i <= p && i < |rs| && (0 < i == p ==> x.End() == rs[p].base)
    ensures PlaceFrom(rs, x, i)
         == if p + 1 == |rs| && (p == 0 || x.End() == rs[p].base) then |rs| + 1 else p
    decreases |rs| - i
  {
    assert i < p ==> rs[i].base < rs[i].End() <= x.base;
    if i + 1 < |rs| && i < p && !(p == i + 1 && x.End() < rs[i + 1].base) {
      WalkFindsSplit(rs, x, p, i + 1);
    }
  }

  /** A non-empty region disjoint from a sorted list of disjoint ones is added, and nothing else
      changes, or it is refused and nothing changes; refused exactly in the cases above. */
  lemma InsertDisjoint(rs: seq<Region>, x: Region)
    requires Ascending(rs) && x.Fits() && 0 < x.size
    requires forall k | 0 <= k < |rs| :: rs[k].size > 0 && Disjoint(rs[k], x)
    ensures var (r, ok) := Insert(rs, x);
            && (if ok then Added(rs, x, r) else r == rs)
            && (!ok <==> Refused(rs, x))
  {
    var p := FindSplit(rs, x);
    SpliceAdds(rs, x, p);
    if rs != [] {
      WalkFindsSplit(rs, x, p, 0);
      LastDecides(rs, x, p);
    }
  }

  lemma LastDecides(rs: seq<Region>, x: Region, p: nat)
    requires Ascending(rs) && x.Fits() && 0 < x.size && rs != [] && Splits(rs, x, p)
    requires forall k | 0 <= k < |rs| :: rs[k].size > 0
    ensures Refused(rs, x) <==> p + 1 == |rs| && (p == 0 || x.End() == rs[p].base)
  {
    var last := |rs| - 1;
    if p < last {
      assert x.End() <= rs[p].base < rs[p].End() <= rs[last].base;
    } else if p > last {
      assert rs[last].base < rs[last].End() <= x.base < x.End();
    }
  }

  lemma {:induction false} AppendFrom(rs: seq<Region>, x: Region, i: nat)
    requires Ascending(rs + [x]) && i < |rs|
    ensures PlaceFrom(rs, x, i) == |rs|
    decreases |rs| - i
  {
    assert (rs + [x])[i] == rs[i] && (rs + [x])[|rs|] == x;
    if i + 1 < |rs| {
      assert (rs + [x])[i + 1] == rs[i + 1];
      AppendFrom(rs, x, i + 1);
    }
  }

  /** A region above all others is appended. */
  lemma InsertAppends(rs: seq<Region>, x: Region)
    requires Ascending(rs + [x])
    ensures Insert(rs, x) == (rs + [x], true)
  {
    if rs != [] {
      AppendFrom(rs, x, 0);
    }
    assert Splice(rs, x, |rs|) == rs + [x];
  }

  function InsertAll(rs: seq<Region>, xs: seq<Region>): seq<Region>
    decreases |xs|
  {
    if xs == [] then rs else InsertAll(Insert(rs, xs[0]).0, xs[1..])
  }

  /** The result of any insertion: in front of a node above the region, but for the last; in a gap; behind
      the last node; or nowhere, exactly if the walk passes all nodes but the last, which ends above the
      region's base. */
  lemma InsertCases(rs: seq<Region>, x: Region)
    ensures rs == [] ==> Insert(rs, x) == ([x], true)
    ensures rs != [] ==>
              var (r, ok), last := Insert(rs, x), |rs| - 1;
              (exists j: nat | j <= |rs| :: ok && r == rs[..j] + [x] + rs[j..] && Stops(rs, x, j))
              || (!ok && r == rs && rs[last].End() > x.base && forall k | 0 <= k < last :: Passed(rs, x, k))
  {
    if rs == [] {
      assert Splice(rs, x, 0) == [x];
    } else {
      PlaceCases(rs, x, 0);
      var j := PlaceFrom(rs, x, 0);
      if j <= |rs| {
        assert Stops(rs, x, j) && Splice(rs, x, j) == rs[..j] + [x] + rs[j..];
      }
    }
  }

  /** The walk puts the region before node `j`, or behind the last. */
  ghost predicate Stops(rs: seq<Region>, x: Region, j: nat)
    requires 0 < |rs| && j <= |rs|
  {
    var last := |rs| - 1;
    || (j < last && rs[j].base > x.base && forall k | 0 <= k < j :: Passed(rs, x, k))
    || (0 < j <= last && rs[j - 1].base <= x.base && rs[j - 1].End() <= x.base && x.End() < rs[j].base
        && forall k | 0 <= k < j - 1 :: Passed(rs, x, k))
    || (j == |rs| && rs[last].End() <= x.base && forall k | 0 <= k < last :: Passed(rs, x, k))
  }

  /** Inserting regions that are already in order keeps all of them, in order. */
  lemma {:induction false} InsertAllAscending(rs: seq<Region>, xs: seq<Region>)
    requires Ascending(rs + xs)
    ensures InsertAll(rs, xs) == rs + xs
    decreases |xs|
  {
    if xs == [] {
      assert rs + xs == rs;
    } else {
      var front := rs + [xs[0]];
      assert rs + xs == front + xs[1..];
      assert forall i | 0 <= i < |front| :: front[i] == (rs + xs)[i];
      InsertAppends(rs, xs[0]);
      InsertAllAscending(front, xs[1..]);
    }
  }

  // ----- the fixed search

  /** The node that `search_mmap_region_fixed` answers with, if any: one whose region holds the
      address or ends behind the request, or the one before a gap that holds the address. */
  function GapFrom(rs: seq<Region>, address: nat, i: nat): (r: nat)
    requires i < |rs|
    ensures r < |rs|
    decreases |rs| - i
  {
    if i + 1 == |rs| || rs[i].End() <= address < rs[i + 1].base then i else GapFrom(rs, address, i + 1)
  }

  function SearchFixed(rs: seq<Region>, address: nat, size: nat): (r: nat)
    ensures r <= |rs|
  {
    var end := EndOf(address, size);
    if rs == [] then 0
    else if rs[0].End() >= end || rs[0].base <= address < rs[0].End() then 0
    else
      var i := GapFrom(rs, address, 0);
      if i + 1 < |rs| || end <= rs[i].End() then i else |rs|
  }

  /** A gap with the address, after node `i`. */
  predicate GapAt(rs: seq<Region>, address: nat, i: nat)
    requires i + 1 < |rs|
  {
    rs[i].End() <= address < rs[i + 1].base
  }

  lemma {:induction false} GapFromFirst(rs: seq<Region>, address: nat, i: nat)
    requires i < |rs|
    ensures var j := GapFrom(rs, address, i);
            && (forall k | i <= k < j :: !GapAt(rs, address, k))
            && (j + 1 < |rs| ==> GapAt(rs, address, j))
    decreases |rs| - i
  {
    if i + 1 < |rs| && !GapAt(rs, address, i) {
      GapFromFirst(rs, address, i + 1);
    }
  }

  /** Which node the search answers with, of any list: the first, if its region ends at or behind the
      request or holds the address; else the first before a gap with the address; else the last, if it
      ends at or behind the request; else none. */
  lemma SearchFixedIs(rs: seq<Region>, address: nat, size: nat)
    requires rs != [] && address < U64 && size < U64
    ensures var end, last, r := (address + size) % 0x1_0000_0000_0000_0000, |rs| - 1, SearchFixed(rs, address, size);
            if rs[0].End() >= end || rs[0].base <= address < rs[0].End() then r == 0
            else if forall k | 0 <= k < last :: !GapAt(rs, address, k)
            then r == if end <= rs[last].End() then last else |rs|
            else r < last && GapAt(rs, address, r) && forall k | 0 <= k < r :: !GapAt(rs, address, k)
  {
    EndOfIs(address, size);
    GapFromFirst(rs, address, 0);
  }

  lemma {:induction false} GapAbove(rs: seq<Region>, address: nat, i: nat)
    requires i < |rs| && forall k | 0 <= k < |rs| :: rs[k].base <= address
    ensures GapFrom(rs, address, i) == |rs| - 1
    decreases |rs| - i
  {
    if i + 1 < |rs| {
      GapAbove(rs, address, i + 1);
    }
  }

  /** A request at or above the end of every region finds none. */
  lemma SearchMissesAbove(rs: seq<Region>, address: nat, size: nat)
    requires Ascending(rs) && 0 < size && address + size < U64
    requires forall k | 0 <= k < |rs| :: rs[k].End() <= address
    ensures SearchFixed(rs, address, size) == |rs|
  {
    if rs != [] {
      GapAbove(rs, address, 0);
    }
  }

  ghost predicate AllNonEmpty(rs: seq<Region>) { forall i | 0 <= i < |rs| :: rs[i].size > 0 }

  /** The request overlaps no region. */
  ghost predicate ClearOf(rs: seq<Region>, address: nat, size: nat) {
    forall k | 0 <= k < |rs| :: Disjoint(rs[k], Region(address, size, 0))
  }

  /** From a node at or below the address on, the search finds the gap of an address below the end
      of the last node. */
  lemma {:induction false} GapFound(rs: seq<Region>, address: nat, size: nat, i: nat)
    requires Ascending(rs) && AllNonEmpty(rs) && ClearOf(rs, address, size) && 0 < size && address + size < U64
    requires i < |rs| && rs[i].End() <= address < rs[|rs| - 1].End()
    ensures GapFrom(rs, address, i) + 1 < |rs|
    decreases |rs| - i
  {
    assert i + 1 < |rs| && Disjoint(rs[i + 1], Region(address, size, 0));
    if rs[i + 1].base <= address {
      GapFound(rs, address, size, i + 1);
    }
  }

  /** For a request that overlaps no region, the search misses exactly if the request is at or
      above the end of the last region: in every gap below, it hits. */
  lemma SearchMissesIff(rs: seq<Region>, address: nat, size: nat)
    requires Ascending(rs) && AllNonEmpty(rs) && rs != [] && 0 < size && address + size < U64
    ensures SearchFixed(rs, address, size) == |rs| && ClearOf(rs, address, size) <==> rs[|rs| - 1].End() <= address
  {
    var last := |rs| - 1;
    if rs[last].End() <= address {
      forall k | 0 <= k < |rs| ensures rs[k].End() <= address {
        if k < last {
          assert rs[k].End() <= rs[last].base;
        }
      }
      SearchMissesAbove(rs, address, size);
    } else if ClearOf(rs, address, size) {
      assert Disjoint(rs[0], Region(address, size, 0));
      if rs[0].End() <= address {
        GapFound(rs, address, size, 0);
      }
    }
  }

  /** The request ends behind the last region, and starts behind it too, below the first, or inside
      another than the first. */
  ghost predicate Missed(rs: seq<Region>, address: nat, size: nat) {
    rs != [] ==>
      && var end := rs[|rs| - 1].End();
         end < address + size
         && (end <= address || address < rs[0].base || exists i :: 0 < i < |rs| && rs[i].base <= address < rs[i].End())
  }

  /** The last node from `i` on that is not above the address. */
  lemma {:induction false} NodeBelow(rs: seq<Region>, address: nat, i: nat) returns (j: nat)
    requires i < |rs| && rs[i].base <= address
    ensures i <= j < |rs| && rs[j].base <= address && (j + 1 < |rs| ==> address < rs[j + 1].base)
    decreases |rs| - i
  {
    j := i;
    if i + 1 < |rs| && rs[i + 1].base <= address {
      j := NodeBelow(rs, address, i + 1);
    }
  }

  lemma {:induction false} GapFromIs(rs: seq<Region>, address: nat, i: nat, j: nat)
    requires Ascending(rs) && i <= j < |rs| && rs[j].base <= address && (j + 1 < |rs| ==> address < rs[j + 1].base)
    requires AllNonEmpty(rs)
    ensures GapFrom(rs, address, i) == if j + 1 < |rs| && rs[j].End() <= address then j else |rs| - 1
    decreases |rs| - i
  {
    if i + 1 < |rs| {
      if i < j {
        assert rs[i + 1].base <= rs[j].base;
        GapFromIs(rs, address, i + 1, j);
      } else if !(rs[i].End() <= address) {
        GapBelow(rs, address, i + 1);
      }
    }
  }

  lemma {:induction false} GapBelow(rs: seq<Region>, address: nat, i: nat)
    requires Ascending(rs) && AllNonEmpty(rs) && i < |rs| && address < rs[i].base
    ensures GapFrom(rs, address, i) == |rs| - 1
    decreases |rs| - i
  {
    if i + 1 < |rs| {
      assert rs[i].End() <= rs[i + 1].base;
      GapBelow(rs, address, i + 1);
    }
  }

  /** For every request the search misses exactly then. */
  lemma SearchMissedIff(rs: seq<Region>, address: nat, size: nat)
    requires Ascending(rs) && AllNonEmpty(rs) && 0 < size && address + size < U64
    ensures SearchFixed(rs, address, size) == |rs| <==> Missed(rs, address, size)
  {
    if rs != [] {
      var last := |rs| - 1;
      assert forall i | 0 <= i < last :: rs[i].base < rs[i].End() <= rs[last].base;
      if address < rs[0].base {
        GapBelow(rs, address, 0);
      } else {
        var j := NodeBelow(rs, address, 0);
        GapFromIs(rs, address, 0, j);
        assert forall i | 0 <= i < |rs| && i != j :: !(rs[i].base <= address < rs[i].End());
      }
    }
  }

  // ----- linked lists

  /** A `mem_region_t`. Any node can be the cell whose `next` field a list hangs on, as the
      `mem_region_t **` argument of the insertion. */
  class Node {
    const self: nat
    var base: nat
    var size: nat
    var isMapped: bool
    var next: Node?

    constructor (address: nat)
      ensures self == address && base == 0 && size == 0 && !isMapped && next == null
    {
      self := address;
      base, size, isMapped, next := 0, 0, false, null;
    }

    ghost function View(): Region
      reads this
    {
      Region(base, size, self)
    }
  }

  /** The nodes hang on `first`, in this order and without repetition. */
  ghost predicate Chain(first: Node?, nodes: seq<Node>)
    reads nodes
  {
    && first == (if nodes == [] then null else nodes[0])
    && (forall i {:trigger nodes[i].next} | 0 <= i < |nodes| ::
       nodes[i].next == if i + 1 < |nodes| then nodes[i + 1] else null)
    && forall i, j | 0 <= i < j < |nodes| :: nodes[i] != nodes[j]
  }

  ghost function ViewAll(nodes: seq<Node>): (rs: seq<Region>)
    reads nodes
    ensures |rs| == |nodes|
  {
    seq(|nodes|, i requires 0 <= i < |nodes| reads nodes => nodes[i].View())
  }

  ghost function SpliceNodes(nodes: seq<Node>, x: Node, i: nat): seq<Node>
    requires i <= |nodes|
  {
    nodes[..i] + [x] + nodes[i..]
  }

  lemma SplicedView(nodes: seq<Node>, x: Node, i: nat)
    requires i <= |nodes|
    ensures ViewAll(SpliceNodes(nodes, x, i)) == Splice(ViewAll(nodes), x.View(), i)
  {
  }

  /** Hangs the new node on `prev`, in front of what hung there: the cell, or node `i - 1`. */
  method LinkAfter(cell: Node, ghost nodes: seq<Node>, ghost i: nat, prev: Node, x: Node)
    requires Chain(cell.next, nodes) && cell !in nodes && x !in nodes && x != cell && i <= |nodes|
    requires prev == if i == 0 then cell else nodes[i - 1]
    modifies prev`next, x`next
    ensures Chain(cell.next, SpliceNodes(nodes, x, i))
    ensures ViewAll(nodes) == old(ViewAll(nodes))
    ensures ViewAll(SpliceNodes(nodes, x, i)) == Splice(ViewAll(nodes), x.View(), i)
    ensures cell !in SpliceNodes(nodes, x, i) && forall n | n in SpliceNodes(nodes, x, i) :: n in nodes || n == x
  {
    hide Splice;
    SplicedView(nodes, x, i);
    assert prev.next == if i < |nodes| then nodes[i] else null;
    x.next := prev.next;
    prev.next := x;
    ghost var after := SpliceNodes(nodes, x, i);
    forall k | 0 <= k < |after| ensures after[k].next == if k + 1 < |after| then after[k + 1] else null {
      if k < i {
        assert after[k] == nodes[k];
      } else if k > i {
        assert after[k] == nodes[k - 1];
      }
    }
  }

  /** `mmap_region_insert` on the list that hangs on the cell; the new node comes with no
      successor, as it is allocated. */
  method MmapRegionInsert(cell: Node, ghost nodes: seq<Node>, x: Node) returns (ok: bool, ghost after: seq<Node>)
    requires Chain(cell.next, nodes) && cell !in nodes && x !in nodes && x != cell && x.next == null
    modifies cell`next, nodes`next, x`next
    ensures Chain(cell.next, after) && cell !in after
    ensures (ViewAll(after), ok) == Insert(old(ViewAll(nodes)), x.View())
    ensures forall n | n in after :: n in nodes || n == x
  {
    hide Splice, SpliceNodes, Missed;
    ghost var rs := ViewAll(nodes);
    if cell.next == null {
      LinkAfter(cell, nodes, 0, cell, x);
      return true, SpliceNodes(nodes, x, 0);
    }
    var insertEnd := EndOf(x.base, x.size);
    var prev, cptr := cell, cell.next;
    ghost var i := 0;
    while cptr.next != null
      invariant 0 <= i < |nodes| && cptr == nodes[i] && prev == if i == 0 then cell else nodes[i - 1]
      invariant Chain(cell.next, nodes) && ViewAll(nodes) == rs
      invariant PlaceFrom(rs, x.View(), 0) == PlaceFrom(rs, x.View(), i)
      decreases |nodes| - i
    {
      assert cptr.next == nodes[i].next;
      assert rs[i] == cptr.View() && rs[i + 1] == cptr.next.View();
      var cur := EndOf(cptr.base, cptr.size);
      if cptr.base > x.base {
        LinkAfter(cell, nodes, i, prev, x);
        return true, SpliceNodes(nodes, x, i);
      }
      if x.base >= cur && insertEnd < cptr.next.base {
        LinkAfter(cell, nodes, i + 1, cptr, x);
        return true, SpliceNodes(nodes, x, i + 1);
      }
      prev := cptr;
      cptr := cptr.next;
      i := i + 1;
    }
    assert nodes[i].next == null;
    assert rs[i] == cptr.View() && i + 1 == |nodes|;
    if EndOf(cptr.base, cptr.size) <= x.base {
      LinkAfter(cell, nodes, i + 1, cptr, x);
      return true, SpliceNodes(nodes, x, i + 1);
    }
    return false, nodes;
  }

  // ----- the regions of the kernel

  /** The page range of a section of the image, moved to its kernel address. */
  function SectionRegion(start: nat, end: nat, image: nat, self: nat): Region
    requires start < U64 && end < U64 && image < U64
  {
    Region(PageDown(Add64(Sub64(start, image), KERNEL_VA_BASE)), Sub64(PageUp(end), PageDown(start)), self)
  }

  /** Sections in the order of the linker script, a page or more apart from each other's pages,
      in an image that fits above the kernel base. */
  ghost predicate LinkOrder(sections: seq<(nat, nat)>, image: nat) {
    && image % 0x1000 == 0
    && (forall i | 0 <= i < |sections| ::
          image <= sections[i].0 <= sections[i].1 && sections[i].1 + 0x1000 < image + 0x1000_0000_0000
          && sections[i].1 + 0x1000 < U64)
    && forall i, j | 0 <= i < j < |sections| :: PageUp(sections[i].1) <= PageDown(sections[j].0)
  }

  lemma SectionRegionIs(start: nat, end: nat, image: nat, self: nat)
    requires image % 0x1000 == 0 && image <= start <= end && end + 0x1000 < U64
    requires end + 0x1000 < image + 0x1000_0000_0000
    ensures var r := SectionRegion(start, end, image, self);
            && r.base == PageDown(start) - image + KERNEL_VA_BASE
            && r.base + r.size == PageUp(end) - image + KERNEL_VA_BASE < U64
  {
    var k := KERNEL_VA_BASE - image;
    assert k % 0x1000 == 0;
  }

  function SectionRegions(sections: seq<(nat, nat)>, image: nat, selves: seq<nat>): seq<Region>
    requires image < U64 && |selves| >= |sections|
    requires forall i | 0 <= i < |sections| :: sections[i].0 < U64 && sections[i].1 < U64
  {
    seq(|sections|, i requires 0 <= i < |sections| => SectionRegion(sections[i].0, sections[i].1, image, selves[i]))
  }

  lemma SectionsAscend(sections: seq<(nat, nat)>, image: nat, selves: seq<nat>)
    requires LinkOrder(sections, image) && image < U64 && |selves| >= |sections|
    ensures forall i | 0 <= i < |sections| :: sections[i].0 < U64 && sections[i].1 < U64
    ensures Ascending(SectionRegions(sections, image, selves))
  {
    forall i | 0 <= i < |sections| ensures sections[i].0 < U64 && sections[i].1 < U64 {}
    forall i | 0 <= i < |sections|
      ensures var r := SectionRegions(sections, image, selves)[i];
              && r.base == PageDown(sections[i].0) - image + KERNEL_VA_BASE
              && r.base + r.size == PageUp(sections[i].1) - image + KERNEL_VA_BASE < U64
    {
      SectionRegionIs(sections[i].0, sections[i].1, image, selves[i]);
    }
  }

  /** Inserts one region after the other. Their `self` fields are the addresses that the heap gives
      out; a null one is a crash. */
  method InsertRegions(cell: Node, ghost nodes: seq<Node>, regions: seq<Region>)
    returns (ok: bool, ghost after: seq<Node>)
    requires Chain(cell.next, nodes) && cell !in nodes
    modifies cell`next, nodes`next
    ensures ok <==> forall i | 0 <= i < |regions| :: regions[i].self != 0
    ensures ok ==> Chain(cell.next, after) && cell !in after && forall n | n in after :: n in nodes || fresh(n)
    ensures ok ==> ViewAll(after) == InsertAll(old(ViewAll(nodes)), regions)
  {
    after, ok := nodes, true;
    for i := 0 to |regions|
      invariant ok && forall k | 0 <= k < i :: regions[k].self != 0
      invariant Chain(cell.next, after) && cell !in after
      invariant forall n | n in after :: n in nodes || fresh(n)
      invariant InsertAll(ViewAll(after), regions[i..]) == InsertAll(old(ViewAll(nodes)), regions)
    {
      if regions[i].self == 0 { return false, after; }
      assert forall k | 0 <= k < |after| :: after[k] in nodes || fresh(after[k]);
      after := InsertRegion(cell, after, regions[i]);
      assert regions[i..][0] == regions[i] && regions[i..][1..] == regions[i + 1..];
    }
    assert regions[|regions|..] == [];
  }

  /** A new node for the region. */
  method InsertRegion(cell: Node, ghost nodes: seq<Node>, r: Region) returns (ghost after: seq<Node>)
    requires Chain(cell.next, nodes) && cell !in nodes
    modifies cell`next, nodes`next
    ensures Chain(cell.next, after) && cell !in after
    ensures forall n | n in after :: n in nodes || fresh(n)
    ensures ViewAll(after) == Insert(old(ViewAll(nodes)), r).0
  {
    ghost var rs := ViewAll(nodes);
    var region := new Node(r.self);
    region.base, region.size := r.base, r.size;
    assert region.View() == r && ViewAll(nodes) == rs;
    var _, next := MmapRegionInsert(cell, nodes, region);
    after := next;
  }

  function KernelRegions(sections: seq<(nat, nat)>, image: nat, selves: seq<nat>,
                         heapStart: nat, mmapStart: nat, mmapSize: nat): seq<Region>
    requires image < U64 && |selves| == |sections| + 3 && heapStart <= mmapStart
    requires forall i | 0 <= i < |sections| :: sections[i].0 < U64 && sections[i].1 < U64
  {
    SectionRegions(sections, image, selves)
    + [Region(heapStart, mmapStart - heapStart, selves[|sections|]),
       Region(mmapStart, mmapSize, selves[|sections| + 1]),
       Region(mmapStart + mmapSize, mmapSize, selves[|sections| + 2])]
  }

  /** A section from `start` to `end`: from the page of its start at its kernel address, to the page behind
      its end. */
  predicate OfSection(base: nat, size: nat, start: nat, end: nat, image: nat) {
    && base == start / 0x1000 * 0x1000 - image + 0xFFFF_F000_0000_0000
    && base + size == (end + 0xFFF) / 0x1000 * 0x1000 - image + 0xFFFF_F000_0000_0000
  }

  /** What the regions are. */
  lemma KernelRegionsAre(sections: seq<(nat, nat)>, image: nat, selves: seq<nat>,
                         heapStart: nat, mmapStart: nat, mmapSize: nat)
    requires LinkOrder(sections, image) && image < U64 && |selves| == |sections| + 3 && heapStart <= mmapStart
    ensures forall i | 0 <= i < |sections| :: sections[i].0 < U64 && sections[i].1 < U64
    ensures var rs, n := KernelRegions(sections, image, selves, heapStart, mmapStart, mmapSize), |sections|;
            && |rs| == n + 3 && rs[n].base == heapStart && rs[n].base + rs[n].size == mmapStart
            && rs[n + 1].base == mmapStart && rs[n + 1].size == mmapSize
            && rs[n + 2].base == mmapStart + mmapSize && rs[n + 2].size == mmapSize
            && forall i | 0 <= i < n ::
                 OfSection(rs[i].base, rs[i].size, sections[i].0, sections[i].1, image)
  {
    forall i | 0 <= i < |sections| ensures sections[i].0 < U64 && sections[i].1 < U64 {}
    var rs := KernelRegions(sections, image, selves, heapStart, mmapStart, mmapSize);
    forall i | 0 <= i < |sections| ensures OfSection(rs[i].base, rs[i].size, sections[i].0, sections[i].1, image) {
      SectionRegionIs(sections[i].0, sections[i].1, image, selves[i]);
    }
  }

  lemma SelvesUsed(sections: seq<(nat, nat)>, image: nat, selves: seq<nat>,
                   heapStart: nat, mmapStart: nat, mmapSize: nat)
    requires image < U64 && |selves| == |sections| + 3 && heapStart <= mmapStart
    requires forall i | 0 <= i < |sections| :: sections[i].0 < U64 && sections[i].1 < U64
    ensures var rs := KernelRegions(sections, image, selves, heapStart, mmapStart, mmapSize);
            |rs| == |selves| && forall i | 0 <= i < |selves| :: rs[i].self == selves[i]
  {
  }

  lemma KernelRegionsAscend(sections: seq<(nat, nat)>, image: nat, selves: seq<nat>,
                            heapStart: nat, mmapStart: nat, mmapSize: nat)
    requires LinkOrder(sections, image) && image < U64 && |selves| == |sections| + 3
    requires heapStart <= mmapStart && mmapStart + mmapSize + mmapSize < U64
    requires forall i | 0 <= i < |sections| :: PageUp(sections[i].1) - image + KERNEL_VA_BASE <= heapStart
    ensures forall i | 0 <= i < |sections| :: sections[i].0 < U64 && sections[i].1 < U64
    ensures Ascending(KernelRegions(sections, image, selves, heapStart, mmapStart, mmapSize))
  {
    SectionsAscend(sections, image, selves);
    var front, n := SectionRegions(sections, image, selves), |sections|;
    var all := KernelRegions(sections, image, selves, heapStart, mmapStart, mmapSize);
    forall i | 0 <= i < n ensures front[i].Fits() && front[i].End() <= heapStart {
      SectionRegionIs(sections[i].0, sections[i].1, image, selves[i]);
    }
    forall i, j | 0 <= i < j < |all| ensures all[i].End() <= all[j].base {
      if j < n {
        assert front[i].End() <= front[j].base;
      }
    }
  }

  /** `kernel_vma_regions_alloc`: the sections, then the heap, the mmap area and the devices.
      Unless the heap has no memory left, all of them end up in the list, in address order, and
      a copy of the mmap area's region, at `headSelf`, starts the list of mappings. */
  method KernelVmaRegionsAlloc(sections: seq<(nat, nat)>, image: nat, selves: seq<nat>,
                               heapStart: nat, mmapStart: nat, mmapSize: nat, headSelf: nat)
    returns (ok: bool, head: Node, mmapHead: Node, ghost nodes: seq<Node>)
    requires LinkOrder(sections, image) && image < U64 && |selves| == |sections| + 3
    requires heapStart <= mmapStart && mmapStart + mmapSize + mmapSize < U64
    requires forall i | 0 <= i < |sections| :: PageUp(sections[i].1) - image + KERNEL_VA_BASE <= heapStart
    ensures forall i | 0 <= i < |sections| :: sections[i].0 < U64 && sections[i].1 < U64
    ensures ok <==> forall i | 0 <= i < |selves| :: selves[i] != 0
    ensures ok ==> Chain(head.next, nodes) && Ascending(ViewAll(nodes))
    ensures ok ==> ViewAll(nodes) == KernelRegions(sections, image, selves, heapStart, mmapStart, mmapSize)
    ensures ok ==>
              var n := |sections|;
              && |nodes| == n + 3 && nodes[n].base == heapStart && nodes[n].base + nodes[n].size == mmapStart
              && nodes[n + 1].base == mmapStart && nodes[n + 1].size == mmapSize
              && nodes[n + 2].base == mmapStart + mmapSize && nodes[n + 2].size == mmapSize
              && (forall i | 0 <= i < n ::
                    OfSection(nodes[i].base, nodes[i].size, sections[i].0, sections[i].1, image))
              && forall i | 0 <= i < |nodes| :: nodes[i].self == selves[i]
    ensures ok ==>
              mmapHead.View() == Region(mmapStart, mmapSize, headSelf) && mmapHead.next == null && !mmapHead.isMapped
  {
    KernelRegionsAscend(sections, image, selves, heapStart, mmapStart, mmapSize);
    SelvesUsed(sections, image, selves, heapStart, mmapStart, mmapSize);
    KernelRegionsAre(sections, image, selves, heapStart, mmapStart, mmapSize);
    var regions := KernelRegions(sections, image, selves, heapStart, mmapStart, mmapSize);
    hide KernelRegions, OfSection, Ascending, InsertAll, LinkOrder;
    head := new Node(0);
    mmapHead := new Node(headSelf);
    mmapHead.base, mmapHead.size := mmapStart, mmapSize;
    ok, nodes := InsertFirst(head, regions);
    if ok { NodesAre(nodes, regions); }
  }

  lemma NodesAre(nodes: seq<Node>, rs: seq<Region>)
    requires ViewAll(nodes) == rs
    ensures |nodes| == |rs|
    ensures forall i | 0 <= i < |nodes| ::
              nodes[i].base == rs[i].base && nodes[i].size == rs[i].size && nodes[i].self == rs[i].self
  {
    assert forall i | 0 <= i < |nodes| :: ViewAll(nodes)[i] == nodes[i].View();
  }

  /** The same from an empty list. */
  method InsertFirst(cell: Node, regions: seq<Region>) returns (ok: bool, ghost nodes: seq<Node>)
    requires cell.next == null && Ascending(regions)
    modifies cell`next
    ensures ok <==> forall i | 0 <= i < |regions| :: regions[i].self != 0
    ensures ok ==> Chain(cell.next, nodes) && cell !in nodes && ViewAll(nodes) == regions
    ensures forall n | n in nodes :: fresh(n)
  {
    hide Ascending, InsertAll;
    assert [] + regions == regions && ViewAll([]) == [];
    InsertAllAscending([], regions);
    ok, nodes := InsertRegions(cell, [], regions);
    if !ok { nodes := []; }
  }
}
