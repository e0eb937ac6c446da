/** `generic_mmap` of vma.c over the memory, the allocator and the linked list of regions. */
module MmapInPlace {
  import opened Bits
  import opened FrameAllocator
  import opened PageTables
  import opened PageMap
  import opened Regions
  import opened Mmap

  ghost function SpaceOf(mem: PhysicalMemory, fa: Allocator, head: Node, nodes: seq<Node>): Space
    reads mem, fa, fa.bitmap, head, nodes
  {
    Space(mem.words, fa.View(), head.isMapped, ViewAll([head] + nodes))
  }

  /** `search_mmap_region_fixed`; null for no hit. */
  method SearchRegionFixed(head: Node, ghost nodes: seq<Node>, address: nat, size: nat) returns (hit: Node?)
    requires Chain(head, nodes) && nodes != []
    ensures var i := SearchFixed(ViewAll(nodes), address, size);
            hit == if i < |nodes| then nodes[i] else null
  {
    ghost var rs := ViewAll(nodes);
    var requestEnd := EndOf(address, size);
    var range := EndOf(head.base, head.size);
    assert rs[0] == head.View();
    if range >= requestEnd || (address < range && address >= head.base) { return head; }
    var p := head;
    ghost var i := 0;
    while p.next != null
      invariant 0 <= i < |nodes| && p == nodes[i]
      invariant GapFrom(rs, address, 0) == GapFrom(rs, address, i)
      decreases |nodes| - i
    {
      assert p.next == nodes[i + 1];
      assert rs[i] == p.View() && rs[i + 1] == p.next.View();
      range := EndOf(p.base, p.size);
      if address >= range && address < p.next.base { return p; }
      p := p.next;
      i := i + 1;
    }
    assert nodes[i].next == null;
    assert rs[i] == p.View();
    range := EndOf(p.base, p.size);
    if requestEnd <= range { return p; }
    hit := null;
  }

  /** `search_mmap_region`. */
  method SearchRegion(head: Node, ghost nodes: seq<Node>, size: nat) returns (hit: Node?)
    requires Chain(head, nodes) && nodes != []
    ensures var i := SearchSize(ViewAll(nodes), size, 0);
            hit == if i < |nodes| then nodes[i] else null
  {
    ghost var rs := ViewAll(nodes);
    if head.next == null { return head; }
    var p, next := head, head.next;
    ghost var i := 0;
    while next != null
      invariant 0 <= i < |nodes| && p == nodes[i] && next == p.next && |nodes| > 1
      invariant SearchSize(rs, size, 0) == SearchSize(rs, size, i)
      decreases |nodes| - i
    {
      assert rs[i] == p.View();
      if p.size >= size { return p; }
      p := next;
      next := next.next;
      i := i + 1;
    }
    hit := null;
  }

  /** One turn of the mapping loop; false where it calls `crash`. */
  method MapOnePage(mem: PhysicalMemory, fa: Allocator, t: Tables, va: nat, flags: nat,
                    ghost turn: Turn) returns (ok: bool)
    requires fa.View().Shaped() && t.startVa < U64 && va < U64 && IsTurn(turn, t, flags)
    modifies mem, fa`available, fa.bitmap
    ensures fa.bitmap == old(fa.bitmap) && (ok ==> fa.View().Shaped())
    ensures turn(old(mem.words), old(fa.View()), va) == if ok then Continued(mem.words, fa.View()) else Stopped
  {
    assert Here(mem.words, fa.View(), va);
    TurnIs(t, flags, mem.words, fa.View(), va);
    var frame := fa.AllocateRange(1);
    if frame == MINUS_ONE { return false; }
    ok := mem.PageTableMap(t, va, frame, flags, false);
  }

  /** The mapping loop. */
  method MapLoop(mem: PhysicalMemory, fa: Allocator, t: Tables, base: nat, size: nat, flags: nat,
                 ghost turn: Turn) returns (ok: bool)
    requires fa.View().Shaped() && t.startVa < U64 && base < U64 && size % 0x1000 == 0 && IsTurn(turn, t, flags)
    modifies mem, fa`available, fa.bitmap
    ensures fa.bitmap == old(fa.bitmap)
    ensures MapPages(turn, old(mem.words), old(fa.View()), base, size / 0x1000)
         == if ok then Continued(mem.words, fa.View()) else Stopped
  {
    ghost var m, f, k := mem.words, fa.View(), size / 0x1000;
    var count := 0;
    ghost var i := 0;
    assert size == 0x1000 * k;
    while count < size
      invariant i <= k && count == 0x1000 * i && fa.bitmap == old(fa.bitmap)
      invariant fa.View().Shaped() && MapPages(turn, m, f, base, i) == Continued(mem.words, fa.View())
      decreases k - i
    {
      OneTurn(turn, m, f, base, i, mem.words, fa.View());
      ok := MapOnePage(mem, fa, t, Add64(base, count), flags, turn);
      i := i + 1;
      if !ok {
        StaysStopped(turn, m, f, base, i, k);
        return;
      }
      count := count + 0x1000;
    }
    ok := true;
  }

  lemma OneTurn(turn: Turn, m: Words, f: Frames, base: nat, i: nat, w: Words, g: Frames)
    requires MapPages(turn, m, f, base, i) == Continued(w, g)
    ensures MapPages(turn, m, f, base, i + 1) == turn(w, g, Add64(base, 0x1000 * i))
  {
  }

  lemma {:induction false} StaysStopped(turn: Turn, m: Words, f: Frames, base: nat, i: nat, k: nat)
    requires i <= k && MapPages(turn, m, f, base, i) == Stopped
    ensures MapPages(turn, m, f, base, k) == Stopped
  {
    if i < k {
      StaysStopped(turn, m, f, base, i, k - 1);
    }
  }

  /** The request that fills the first region. */
  method MapFirst(mem: PhysicalMemory, fa: Allocator, t: Tables, head: Node, ghost nodes: seq<Node>, base: nat,
                  size: nat, flags: nat)
    returns (ok: bool)
    requires fa.View().Shaped() && t.startVa < U64 && base < U64 && size % 0x1000 == 0
    requires Chain(head.next, nodes) && head !in nodes
    modifies mem, fa`available, fa.bitmap, head`size, head`base, head`isMapped
    ensures fa.bitmap == old(fa.bitmap) && head.isMapped
    ensures ViewAll([head] + nodes) == old(ViewAll([head] + nodes))[0 := Region(base, size, head.self)]
    ensures MapPages(TurnFor(t, flags), old(mem.words), old(fa.View()), base, size / 0x1000)
         == if ok then Continued(mem.words, fa.View()) else Stopped
  {
    head.size := size;
    head.base := base;
    head.isMapped := true;
    ok := MapLoop(mem, fa, t, base, size, flags, TurnFor(t, flags));
  }

  /** The request that adds a region. */
  method MapNext(mem: PhysicalMemory, fa: Allocator, t: Tables, head: Node, ghost nodes: seq<Node>, base: nat,
                 size: nat, flags: nat, spare: nat)
    returns (ok: bool, ghost after: seq<Node>)
    requires fa.View().Shaped() && t.startVa < U64 && base < U64 && size % 0x1000 == 0
    requires Chain(head.next, nodes) && head !in nodes
    modifies mem, fa`available, fa.bitmap, head`next, nodes`next
    ensures fa.bitmap == old(fa.bitmap)
    ensures MapPages(TurnFor(t, flags), old(mem.words), old(fa.View()), base, size / 0x1000)
         == if ok then Continued(mem.words, fa.View()) else Stopped
    ensures ok ==> Chain(head.next, after) && head !in after
    ensures ok ==> ViewAll(after) == Insert(old(ViewAll(nodes)), Region(base, size, spare)).0
  {
    var region := new Node(spare);
    region.size := size;
    region.base := base;
    region.isMapped := true;
    ghost var rs := ViewAll(nodes);
    ok := MapLoop(mem, fa, t, base, size, flags, TurnFor(t, flags));
    after := nodes;
    if ok {
      assert ViewAll(nodes) == rs && region.View() == Region(base, size, spare);
      var _, longer := MmapRegionInsert(head, nodes, region);
      after := longer;
    }
  }

  lemma HeadAndRest(head: Node, nodes: seq<Node>)
    ensures ViewAll([head] + nodes) == [head.View()] + ViewAll(nodes)
    ensures Chain(head.next, nodes) && head !in nodes ==> Chain(head, [head] + nodes)
  {
  }

  /** `generic_mmap`: what `Request` says of the space before the call, which is `s`. */
  method GenericMmap(mem: PhysicalMemory, fa: Allocator, t: Tables, head: Node, ghost nodes: seq<Node>, address: nat,
                     length: nat, flags: nat, fixed: bool, spare: nat, mmapStart: nat, ghost s: Space)
    returns (r: Result, ghost after: seq<Node>)
    requires Chain(head.next, nodes) && head !in nodes
    requires s == SpaceOf(mem, fa, head, nodes) && RequestOk(s, t, address, mmapStart)
    modifies mem, fa`available, fa.bitmap, head, nodes`next
    ensures r == Request(s, t, address, length, flags, fixed, spare, mmapStart).1
    ensures r != Crashed ==>
              && Chain(head.next, after) && head !in after && fa.bitmap == old(fa.bitmap)
              && SpaceOf(mem, fa, head, after) == Request(s, t, address, length, flags, fixed, spare, mmapStart).0
  {
    hide MapPages, Insert, TurnFor, SearchFixed, SearchSize;
    HeadAndRest(head, nodes);
    after := nodes;
    if length == 0 { return Failed, nodes; }
    var size := PageUp(length);
    if !head.isMapped {
      var base := if fixed then address else mmapStart;
      var ok := MapFirst(mem, fa, t, head, nodes, base, size, flags);
      FirstIs(s, t, address, length, flags, fixed, spare, mmapStart, base,
              if ok then Continued(mem.words, fa.View()) else Stopped);
      return if ok then Returned(base) else Crashed, nodes;
    }
    var hit;
    if fixed {
      hit := SearchRegionFixed(head, [head] + nodes, address, size);
    } else {
      hit := SearchRegion(head, [head] + nodes, size);
    }
    if spare == 0 { return Failed, nodes; }
    var base := if hit == null then address else hit.self;
    ghost var i := if fixed then SearchFixed(s.regions, address, size) else SearchSize(s.regions, size, 0);
    assert base == if i < |s.regions| then s.regions[i].self else address;
    assert s.regions[1..] == ViewAll(nodes) && head.View() == s.regions[0];
    var ok, longer := MapNext(mem, fa, t, head, nodes, base, size, flags, spare);
    NextIs(s, t, address, length, flags, fixed, spare, mmapStart, i, base,
           if ok then Continued(mem.words, fa.View()) else Stopped);
    HeadAndRest(head, longer);
    return if ok then Returned(base) else Crashed, longer;
  }
}
