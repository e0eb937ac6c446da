/** `io_hypercall` of hypercall.c on the shared heap, to the answer of `handle_hypercall` of main.rs. */
module Hypercall {
  import opened Bits
  import opened ByteMemory
  import opened Heap
  import opened HeapGrowth
  import opened HeapInPlace
  import opened GrowthInPlace
  import opened UartChannel
  import B = SharedBreak

  // ----- words in a row

  function WordBytes(ws: seq<nat>): (s: seq<byte>)
    ensures |s| == 8 * |ws|
  {
    if ws == [] then [] else WordBytes(ws[..|ws| - 1]) + Bytes(ws[|ws| - 1], 8)
  }

  lemma {:induction false} WordBytesJoin(a: seq<nat>, b: seq<nat>)
    ensures WordBytes(a + b) == WordBytes(a) + WordBytes(b)
    decreases |b|
  {
    if b == [] {
      assert a + b == a;
    } else {
      WordBytesJoin(a, b[..|b| - 1]);
      assert (a + b)[..|a + b| - 1] == a + b[..|b| - 1];
    }
  }

  method PutWords(mem: array<byte>, at: nat, ws: seq<nat>)
    requires at + 8 * |ws| <= mem.Length
    modifies mem
    ensures Only(old(mem[..]), mem[..], at, 8 * |ws|) && HoldsWords(mem[..], at, ws)
  {
    hide Bytes;
    ghost var m := mem[..];
    for i := 0 to |ws|
      invariant Only(m, mem[..], at, 8 * i) && mem[at..at + 8 * i] == WordBytes(ws[..i])
    {
      ghost var v := mem[..];
      StoreWord(mem, at + 8 * i, ws[i], 8);
      assert ws[..i + 1][..i] == ws[..i];
      assert mem[at..at + 8 * i] == v[at..at + 8 * i];
      assert mem[at..at + 8 * (i + 1)] == mem[at..at + 8 * i] + mem[at + 8 * i..at + 8 * i + 8];
    }
    assert ws[..|ws|] == ws;
  }

  ghost predicate HoldsWords(m: seq<byte>, at: nat, ws: seq<nat>) {
    at + 8 * |ws| <= |m| && m[at..at + 8 * |ws|] == WordBytes(ws)
  }

  /** The words at an address. */
  function WordsAt(m: seq<byte>, at: nat, n: nat): (ws: seq<nat>)
    requires at + 8 * n <= |m|
    ensures |ws| == n
  {
    seq(n, i requires 0 <= i < n => Load64(m, at + 8 * i))
  }

  /** Words that were stored are read back. */
  lemma {:induction false} WordsRead(m: seq<byte>, at: nat, ws: seq<nat>)
    requires HoldsWords(m, at, ws) && forall w | w in ws :: w < U64
    ensures WordsAt(m, at, |ws|) == ws
    decreases |ws|
  {
    hide Bytes, Value;
    if ws != [] {
      var n := |ws| - 1;
      var most := ws[..n];
      assert ws[n] in ws && forall w | w in most :: w in ws;
      assert m[at..at + 8 * n] == m[at..at + 8 * |ws|][..8 * n];
      assert WordBytes(ws)[..8 * n] == WordBytes(most);
      WordsRead(m, at, most);
      assert m[at + 8 * n..at + 8 * n + 8] == m[at..at + 8 * |ws|][8 * n..] == Bytes(ws[n], 8);
      WordReads(m, at + 8 * n, ws[n]);
      assert forall i | 0 <= i < n :: WordsAt(m, at, |ws|)[i] == WordsAt(m, at, n)[i] == ws[i];
    }
  }

  // ----- the block on a list that is spent

  /** A spent list, and room in the heap for one more break and in memory for the chunk behind it. */
  ghost predicate Room(p: Pool, size: nat, n: nat) {
    && Good(p) && Spent(p) && 0 < size && Small(size) && NoWrap(p, size)
    && p.area.brk + AllocSize(size) <= p.area.End() && p.area.End() + AllocSize(size) <= n < U64
  }

  /** The pool after a request that a spent list does not serve. */
  function Moved(p: Pool, need: nat): Pool {
    var at := p.area.brk + need;
    Pool(p.chunks, p.area.(brk := at), p.grown + [NewChunk(at, need)])
  }

  lemma SpentMoves(p: Pool, size: nat, stale: nat, n: nat)
    requires Room(p, size, n) && p.area.Words()
    ensures var need, at := AllocSize(size), p.area.brk + AllocSize(size);
            && 0 < need < 0x8000_0000_0000_0000 && size + 32 <= need
            && !Listed(p.chunks, size) && InMemory(p.area, need, n)
            && Serve(p, size, stale) == (Moved(p, need), Payload(at + 32))
            && Good(Moved(p, need)) && Spent(Moved(p, need))
            && p.area.start + 32 <= at
  {
    SmallNeed(size);
    SpentGrows(p, size, stale);
    hide Heap.Sound, Placed, AllocSize, Serve, Small;
    var at := p.area.brk + AllocSize(size);
    GrowIs(p, AllocSize(size));
    SpentStays(p, NewChunk(at, AllocSize(size)));
    GrownIsGood(p, AllocSize(size));
  }

  lemma SpentStays(p: Pool, c: Chunk)
    requires Spent(p) && p.area.start + 32 <= c.at
    ensures Rewritten(p.chunks, c) == p.chunks && !Tears(p.chunks, c.at)
  {
  }

  lemma SpentClear(p: Pool, at: nat, n: nat)
    requires Spent(p) && p.area.start + 32 <= at
    ensures AllClear(p.chunks, at, n)
  {
  }

  /** Stores behind the only header leave the list alone. */
  lemma SpentElsewhere(m: seq<byte>, w: seq<byte>, head: nat, p: Pool, at: nat, n: nat)
    requires Spent(p) && Linked(m, head, p.chunks) && Only(m, w, at, n) && p.area.start + 32 <= at
    ensures Linked(w, head, p.chunks)
  {
    LinkedElsewhere(m, w, head, p.chunks, at, n);
  }

  lemma NotLost(p: Pool)
    requires Spent(p)
    ensures p.chunks != []
  {
  }

  /** `io_hypercall` up to its words: the block for the arguments, cleared and filled. */
  method PutBlock(heap: GroupHeap, sbrk: B.SharedHeap, args: seq<nat>, ghost grown: seq<Chunk>)
    returns (ioCall: nat, ghost cleared: seq<byte>, ghost after: seq<Chunk>)
    requires heap.Valid() && sbrk.View().Words() && |args| == 7
    requires Room(Pool(heap.chunks, sbrk.View(), grown), 56, heap.mem.Length)
    modifies heap.mem, heap`tail, heap`chunks, heap`end, sbrk`brk
    ensures ioCall == old(sbrk.brk) + 120 && ioCall + 56 <= heap.mem.Length && heap.Valid()
    ensures Only(old(heap.mem[..]), cleared, ioCall - 32, 88) && Holds(cleared, ioCall - 32, Header(88, 1, ioCall, 0))
    ensures Only(cleared, heap.mem[..], ioCall, 56) && HoldsWords(heap.mem[..], ioCall, args)
    ensures Pool(heap.chunks, sbrk.View(), after) == Moved(Pool(old(heap.chunks), old(sbrk.View()), grown), 88)
  {
    hide Heap.Sound, Good, Linked, Small, NoWrap, Serve, InMemory, FirstFit, StaleFor, Product, AllClear, Zeroed;
    ghost var p := Pool(heap.chunks, sbrk.View(), grown);
    var faults;
    assert AllocSize(56) == 88 && Product(8, 7) == 56 by { EightWords(); }
    hide AllocSize;
    SpentMoves(p, 56, StaleFor(heap.mem[..], heap.chunks, 56), heap.mem.Length);
    assert Backed(heap.chunks, map[]);
    ioCall, faults, after := Kcalloc(heap, sbrk, 8, 7, map[], grown);
    SpentClear(p, ioCall - 32, 88);
    cleared := heap.mem[..];
    PutWords(heap.mem, ioCall, args);
    SpentElsewhere(cleared, heap.mem[..], heap.head, p, ioCall, 56);
  }

  lemma EightWords()
    ensures AllocSize(56) == 88 && Product(8, 7) == 56
  {
  }

  // ----- the call

  /** `handle_hypercall` at the block, with a host that answers `host` says. */
  method HandleHypercall(mem: array<byte>, at: nat, host: HostCall -> nat)
    requires at + 56 <= mem.Length && forall call :: host(call) < U64
    modifies mem
    ensures Only(old(mem[..]), mem[..], at, 8)
    ensures var call := Decode(WordsAt(old(mem[..]), at, 7));
            Load64(mem[..], at) == if call.Unknown? then MINUS_ONE else host(call)
  {
    hide Load64;
    var call := Decode(WordsAt(mem[..], at, 7));
    PutWord(mem, at, if call.Unknown? then MINUS_ONE else host(call));
  }

  /** The host finds the byte at `a` where its physical address, with the shared bit, bit 32, cleared,
      is. */
  predicate Sees(place: nat -> nat, toPhysical: nat -> nat, a: nat) {
    var pa := toPhysical(a);
    place(if pa / 0x1_0000_0000 % 2 == 1 then pa - 0x1_0000_0000 else pa) == a
  }

  /** `io_hypercall` with a list that is spent, on a heap that `toPhysical` says is where in physical
      memory, and `place` where the host finds it: the block is put behind the new break, the monitor
      dispatches exactly its address without the shared bit, the host works on what it finds there, the
      caller gets its answer to the arguments, and freeing the block leaves everything as it is. */
  method IoHypercall(heap: GroupHeap, sbrk: B.SharedHeap, toPhysical: nat -> nat, place: nat -> nat, args: seq<nat>,
                     console: UartDevice, sys: UartDevice, host: HostCall -> nat, ghost grown: seq<Chunk>)
    returns (ret: nat, dispatched: seq<nat>, ghost after: seq<Chunk>)
    requires heap.Valid() && sbrk.View().Words() && |args| == 7 && forall w | w in args :: w < U64
    requires Room(Pool(heap.chunks, sbrk.View(), grown), 56, heap.mem.Length)
    requires console != sys && sys.recvBuffer == []
    requires (forall a :: toPhysical(a) < U64) && Sees(place, toPhysical, sbrk.brk + 120)
    requires forall call :: host(call) < U64
    modifies heap.mem, heap`tail, heap`chunks, heap`end, sbrk`brk, console, sys
    ensures var pa := toPhysical(old(sbrk.brk) + 120);
            dispatched == [if pa / 0x1_0000_0000 % 2 == 1 then pa - 0x1_0000_0000 else pa] && sys.recvBuffer == []
    ensures ret == if Decode(args).Unknown? then MINUS_ONE else host(Decode(args))
    ensures heap.Valid() && Only(old(heap.mem[..]), heap.mem[..], old(sbrk.brk) + 88, 88)
    ensures Pool(heap.chunks, sbrk.View(), after) == Moved(Pool(old(heap.chunks), old(sbrk.View()), grown), 88)
  {
    hide Room, Spent, Good, Linked, Heap.Sound, HoldsWords, Load64, Only, Free, FindAddress, CaughtUp, WordsAt;
    ghost var m, p := heap.mem[..], Pool(heap.chunks, sbrk.View(), grown);
    RoomIs(p, heap.mem.Length);
    var ioCall;
    ghost var cleared;
    ioCall, cleared, after := PutBlock(heap, sbrk, args, grown);
    ghost var v := heap.mem[..];
    WordsRead(v, ioCall, args);
    var address := Unshared(toPhysical(ioCall));
    var exits := UartSyscallWrite(address);
    OneAddressDelivered(address, [], []);
    dispatched := RunLoop(console, sys, exits);
    OneAddressDelivered(address, sys.recvBuffer, dispatched);
    assert place(dispatched[0]) == ioCall;
    HandleHypercall(heap.mem, place(dispatched[0]), host);
    BlockStored(m, cleared, v, heap.mem[..], ioCall);
    SpentElsewhere(v, heap.mem[..], heap.head, p, ioCall, 8);
    ret := Load64(heap.mem[..], ioCall);
    SpentFrees(p, ioCall);
    heap.FreeAddress(ioCall);
  }

  lemma BlockStored(m: seq<byte>, cleared: seq<byte>, v: seq<byte>, w: seq<byte>, ioCall: nat)
    requires ioCall >= 32 && Only(m, cleared, ioCall - 32, 88) && Only(cleared, v, ioCall, 56) && Only(v, w, ioCall, 8)
    ensures Only(m, w, ioCall - 32, 88)
  {
  }

  lemma RoomIs(p: Pool, n: nat)
    requires Room(p, 56, n)
    ensures Good(p) && Spent(p) && p.area.start + 0x2000 <= p.area.brk
  {
  }

  /** No chunk of a spent list has the address of the block. */
  lemma SpentFrees(p: Pool, a: nat)
    requires Good(p) && Spent(p) && a != p.area.start + 32
    ensures FindAddress(p.chunks, a, 0) == |p.chunks| && Free(p.chunks, a) == p.chunks
  {
  }
}
