/** `sys_read` and `sys_write` of syscall.c: a buffer on the shared heap for the host, and behind it
    the argument block that `io_hypercall` allocates. */
module TransferBuffer {
  import opened Bits
  import opened ByteMemory
  import opened Heap
  import opened HeapGrowth
  import opened HeapInPlace
  import opened GrowthInPlace
  import opened Hypercall
  import opened UartChannel
  import B = SharedBreak

  // ----- bytes and headers

  method CopyIn(mem: array<byte>, at: nat, s: seq<byte>)
    requires at + |s| <= mem.Length
    modifies mem
    ensures Only(old(mem[..]), mem[..], at, |s|) && mem[at..at + |s|] == s
  {
    for copied := 0 to |s|
      invariant forall j | 0 <= j < mem.Length :: mem[j] == if at <= j < at + copied then s[j - at] else old(mem[j])
    {
      mem[at + copied] := s[copied];
    }
  }

  lemma OneMoreWord(m: seq<byte>, at: nat, ws: seq<nat>)
    requires ws != [] && HoldsWords(m, at, ws[..|ws| - 1]) && at + 8 * |ws| <= |m|
    requires Load64(m, at + 8 * |ws| - 8) == ws[|ws| - 1]
    ensures HoldsWords(m, at, ws)
  {
    hide Bytes, Value;
    var a := at + 8 * |ws| - 8;
    BytesOfValue(m[a..a + 8]);
    assert m[at..a + 8] == m[at..a] + m[a..a + 8];
  }

  /** A header is its four words. */
  lemma HeaderBytes(m: seq<byte>, at: nat, x: Header)
    requires Holds(m, at, x)
    ensures HoldsWords(m, at, [x.size, x.used, x.address, x.next])
  {
    var ws := [x.size, x.used, x.address, x.next];
    assert ws[..4] == ws && ws[..3][..2] == ws[..2] && ws[..2][..1] == ws[..1] && ws[..1][..0] == [];
    assert HoldsWords(m, at, []);
    hide HoldsWords, Load64;
    OneMoreWord(m, at, ws[..1]);
    OneMoreWord(m, at, ws[..2]);
    OneMoreWord(m, at, ws[..3]);
    OneMoreWord(m, at, ws[..4]);
  }

  // ----- the buffer under the argument block

  /** The argument block with its header, in memory. */
  function Block(at: nat, args: seq<nat>): (s: seq<byte>)
    ensures |s| == 32 + 8 * |args|
  {
    WordBytes([32 + 8 * |args|, 1, at + 32, 0] + args)
  }

  /** What a buffer holds, once other bytes have been put `off` bytes behind its start. */
  function Overlaid(data: seq<byte>, off: nat, other: seq<byte>): (s: seq<byte>)
    ensures |s| == |data|
  {
    seq(|data|, k requires 0 <= k < |data| => if off <= k < off + |other| then other[k - off] else data[k])
  }

  /** The bytes from `off` on are the other ones already. */
  predicate Agrees(data: seq<byte>, off: nat, other: seq<byte>) {
    forall k | off <= k < |data| && k < off + |other| :: data[k] == other[k - off]
  }

  lemma OverlaidSameIff(data: seq<byte>, off: nat, other: seq<byte>)
    ensures Overlaid(data, off, other) == data <==> Agrees(data, off, other)
  {
    var s := Overlaid(data, off, other);
    if s == data {
      forall k | off <= k < |data| && k < off + |other| ensures data[k] == other[k - off] {
        assert s[k] == other[k - off];
      }
    }
  }

  /** The bytes of the buffer at `buf`, with the block 56 bytes behind. */
  lemma BufferIs(m: seq<byte>, v: seq<byte>, w: seq<byte>, buf: nat, data: seq<byte>, size: nat, args: seq<nat>)
    requires buf + |data| <= |m| && m[buf..buf + |data|] == data
    requires Only(m, v, buf + 56, 32 + size) && Holds(v, buf + 56, Header(32 + 8 * |args|, 1, buf + 88, 0))
    requires Only(v, w, buf + 88, 8 * |args|) && HoldsWords(w, buf + 88, args) && size == 8 * |args|
    ensures buf + |data| <= |w| && w[buf..buf + |data|] == Overlaid(data, 56, Block(buf + 56, args))
  {
    var head := [32 + 8 * |args|, 1, buf + 88, 0];
    HeaderBytes(v, buf + 56, Header(32 + 8 * |args|, 1, buf + 88, 0));
    WordBytesJoin(head, args);
    var block := Block(buf + 56, args);
    forall k | 0 <= k < |data| ensures w[buf + k] == Overlaid(data, 56, block)[k] {
      assert m[buf + k] == m[buf..buf + |data|][k];
      if 56 <= k < 88 {
        assert v[buf + k] == v[buf + 56..buf + 88][k - 56];
      } else if 88 <= k < 88 + 8 * |args| {
        assert w[buf + k] == w[buf + 88..buf + 88 + 8 * |args|][k - 88];
      }
    }
  }

  /** The argument words for a buffer that the host finds at `host`. */
  function Arguments(code: nat, fd: nat, host: nat, count: nat): seq<nat> { [code, fd, host, count, 0, 0, 0] }

  /** `smalloc` for a buffer, and the bytes of the user in it. */
  method FillBuffer(heap: GroupHeap, sbrk: B.SharedHeap, user: seq<byte>, ghost grown: seq<Chunk>)
    returns (buf: nat, ghost after: seq<Chunk>)
    requires heap.Valid() && sbrk.View().Words()
    requires Room(Pool(heap.chunks, sbrk.View(), grown), |user|, heap.mem.Length)
    modifies heap.mem, heap`tail, heap`chunks, heap`end, sbrk`brk
    ensures buf == old(sbrk.brk) + AllocSize(|user|) + 32 && buf + |user| <= heap.mem.Length
    ensures heap.mem[..][buf..buf + |user|] == user && heap.Valid()
    ensures Pool(heap.chunks, sbrk.View(), after)
         == Moved(Pool(old(heap.chunks), old(sbrk.View()), grown), AllocSize(|user|))
  {
    hide Heap.Sound, Good, Linked, AllocSize, Small, NoWrap, Serve, InMemory, FirstFit, StaleFor, FromList, ByGrowth,
         AllClear;
    ghost var p := Pool(heap.chunks, sbrk.View(), grown);
    var faults;
    SpentMoves(p, |user|, StaleFor(heap.mem[..], heap.chunks, |user|), heap.mem.Length);
    buf, faults, after := MallocAny(heap, sbrk, |user|, grown);
    NotLost(p);
    ghost var m := heap.mem[..];
    CopyIn(heap.mem, buf, user);
    SpentElsewhere(m, heap.mem[..], heap.head, p, buf, |user|);
  }

  /** The list is spent, as booting leaves it, and there is room for a buffer and a block. */
  ghost predicate Ready(p: Pool, count: nat, n: nat) {
    && Good(p) && Spent(p) && 0 < count && Small(count)
    && p.area.brk + AllocSize(count) + 88 <= p.area.End()
    && p.area.End() + AllocSize(count) + 0x100 <= n < U64
  }

  lemma ReadyIsRoom(p: Pool, count: nat, n: nat)
    requires Ready(p, count, n) && p.area.Words()
    ensures Room(p, count, n) && Room(Moved(p, AllocSize(count)), 56, n) && Moved(p, AllocSize(count)).area.Words()
  {
    SmallNeed(count);
    SpentMoves(p, count, 0, n);
  }

  /** The seven words in memory, with which the host reads into or writes from `count` bytes that it finds
      at `at`. */
  ghost predicate Asks(m: seq<byte>, ioCall: nat, code: nat, fd: nat, at: nat, count: nat)
    requires ioCall + 56 <= |m|
  {
    && WordsAt(m, ioCall, 7) == [code, fd, at, count, 0, 0, 0]
    && (code == 0x8002 ==> Decode(WordsAt(m, ioCall, 7)) == ReadInto(CInt(fd), at, count))
    && (code == 0x8003 ==> Decode(WordsAt(m, ioCall, 7)) == WriteFrom(CInt(fd), at, count))
  }

  lemma WordsAsk(m: seq<byte>, ioCall: nat, code: nat, fd: nat, host: nat, count: nat)
    requires ioCall + 56 <= |m| && WordsAt(m, ioCall, 7) == Arguments(code, fd, host, count)
    ensures Asks(m, ioCall, code, fd, host, count)
  {
  }

  /** `sys_write` from its buffer to the argument block: the block comes to lie 56 bytes behind the
      start of the buffer, which the user has filled. */
  method SendBuffer(heap: GroupHeap, sbrk: B.SharedHeap, user: seq<byte>, code: nat, fd: nat,
                    toPhysical: nat -> nat, ghost grown: seq<Chunk>)
    returns (buf: nat, ioCall: nat, ghost after: seq<Chunk>)
    requires heap.Valid() && sbrk.View().Words()
    requires Ready(Pool(heap.chunks, sbrk.View(), grown), |user|, heap.mem.Length)
    requires code < U64 && fd < U64 && forall a :: toPhysical(a) < U64
    modifies heap.mem, heap`tail, heap`chunks, heap`end, sbrk`brk
    ensures buf == old(sbrk.brk) + AllocSize(|user|) + 32 && ioCall == buf + 88
    ensures buf + |user| <= heap.mem.Length
    ensures ioCall + 56 <= heap.mem.Length
    ensures var words := WordsAt(heap.mem[..], ioCall, 7);
            heap.mem[..][buf..buf + |user|] == Overlaid(user, 56, Block(buf + 56, words))
    ensures var pa := toPhysical(buf);
            Asks(heap.mem[..], ioCall, code, fd,
                 if pa / 0x1_0000_0000 % 2 == 1 then pa - 0x1_0000_0000 else pa, |user|)
    ensures heap.Valid()
    ensures Pool(heap.chunks, sbrk.View(), after)
         == Moved(Moved(Pool(old(heap.chunks), old(sbrk.View()), grown), AllocSize(|user|)), 88)
  {
    hide Heap.Sound, Good, Linked, AllocSize, Room, Only, Holds, Overlaid, Block, HoldsWords;
    ghost var cleared;
    ReadyIsRoom(Pool(heap.chunks, sbrk.View(), grown), |user|, heap.mem.Length);
    hide Ready;
    buf, after := FillBuffer(heap, sbrk, user, grown);
    ghost var m := heap.mem[..];
    var host := Unshared(toPhysical(buf));
    var args := Arguments(code, fd, host, |user|);
    ioCall, cleared, after := PutBlock(heap, sbrk, args, after);
    WordsRead(heap.mem[..], ioCall, args);
    WordsAsk(heap.mem[..], ioCall, code, fd, host, |user|);
    BufferIs(m, cleared, heap.mem[..], buf, user, 56, args);
  }

  // ----- what arrives

  lemma BlockStarts(at: nat, args: seq<nat>)
    requires |args| == 7
    ensures Block(at, args)[0] == 88 && forall k | 1 <= k < 8 :: Block(at, args)[k] == 0
  {
    var head := [88, 1, at + 32, 0];
    assert head + args == [88] + ([1, at + 32, 0] + args);
    WordBytesJoin([88], [1, at + 32, 0] + args);
    assert [88][..0] == [];
    assert Bytes(88, 8) == [88, 0, 0, 0, 0, 0, 0, 0];
  }

  ghost predicate NoZero(s: seq<byte>) { forall k | 0 <= k < |s| :: s[k] != 0 }

  /** The host finds in the buffer what the user wrote exactly if it agrees with the block from byte 56
      on; for bytes without a zero among them, such as a text, exactly if there are at most 56, or one
      more that is 88, the size of the block. */
  lemma WriteArrivesIff(data: seq<byte>, at: nat, args: seq<nat>)
    requires |args| == 7
    ensures Overlaid(data, 56, Block(at, args)) == data <==> Agrees(data, 56, Block(at, args))
    ensures NoZero(data) ==>
              (Overlaid(data, 56, Block(at, args)) == data <==> |data| <= 56 || (|data| == 57 && data[56] == 88))
  {
    BlockStarts(at, args);
    OverlaidSameIff(data, 56, Block(at, args));
    if |data| > 57 && Agrees(data, 56, Block(at, args)) {
      assert data[57] == Block(at, args)[1];
    }
  }

  /** `sys_read` from the answer of the host on: it has put what came into the buffer, and the number
      of bytes where the code of the call was, 88 bytes behind the start of the buffer. */
  method ReceiveBuffer(mem: array<byte>, buf: nat, came: seq<byte>) returns (ret: nat, got: seq<byte>)
    requires buf + |came| <= mem.Length && buf + 96 <= mem.Length && |came| < U64
    modifies mem
    ensures ret == |came| && got == Overlaid(came, 88, Bytes(|came|, 8))
  {
    hide Bytes, Value;
    CopyIn(mem, buf, came);
    ghost var m := mem[..];
    PutWord(mem, buf + 88, |came|);
    WordIs(mem[..], buf + 88, |came|);
    ret := Load64(mem[..], buf + 88);
    got := [];
    for copied := 0 to ret
      invariant got == Overlaid(came, 88, Bytes(|came|, 8))[..copied]
    {
      assert m[buf + copied] == m[buf..buf + |came|][copied];
      assert 88 <= copied < 96 ==> mem[buf + copied] == mem[..][buf + 88..buf + 96][copied - 88];
      got := got + [mem[buf + copied]];
    }
  }

  lemma WordIs(m: seq<byte>, at: nat, w: nat)
    requires at + 8 <= |m| && Load64(m, at) == w
    ensures m[at..at + 8] == Bytes(w, 8)
  {
    BytesOfValue(m[at..at + 8]);
  }

  lemma CountBytes(n: nat)
    requires n < 0x100_0000_0000_0000
    ensures Bytes(n, 8)[0] == n % 256 && Bytes(n, 8)[7] == 0 && (n < 256 ==> Bytes(n, 8)[1] == 0)
  {
    var s := Bytes(n / 256, 7);
    assert Bytes(n, 8)[1] == s[0] && Bytes(n, 8)[7] == s[6];
    TopByte(n / 256, 6);
  }

  lemma {:induction false} TopByte(n: nat, k: nat)
    requires n < Pow256(k)
    ensures Bytes(n, k + 1)[k] == 0
  {
    if k > 0 {
      TopByte(n / 256, k - 1);
    }
  }

  /** The user gets what came exactly if it agrees with the number of all bytes from byte 88 on; for
      bytes without a zero among them exactly if there are at most 88, or one more that is 89. */
  lemma ReadArrivesIff(came: seq<byte>)
    requires |came| < 0x100_0000_0000_0000
    ensures Overlaid(came, 88, Bytes(|came|, 8)) == came <==> Agrees(came, 88, Bytes(|came|, 8))
    ensures NoZero(came) ==>
              (Overlaid(came, 88, Bytes(|came|, 8)) == came <==> |came| <= 88 || (|came| == 89 && came[88] == 89))
  {
    hide Bytes, Overlaid;
    CountBytes(|came|);
    OverlaidSameIff(came, 88, Bytes(|came|, 8));
    TextAgreesIff(came, Bytes(|came|, 8));
    hide Agrees, NoZero;
  }

  lemma TextAgreesIff(came: seq<byte>, s: seq<byte>)
    requires |s| == 8 && s[0] == |came| % 256 && s[7] == 0 && (|came| < 256 ==> s[1] == 0)
    ensures NoZero(came) ==> (Agrees(came, 88, s) <==> |came| <= 88 || (|came| == 89 && came[88] == 89))
  {
    if |came| > 89 && Agrees(came, 88, s) {
      assert came[89] == s[1];
      assert |came| > 95 ==> came[95] == s[7];
    }
  }
}
