/** Byte-addressed memory, and the `memset` of memops.c, which fills it a word at a time. */
module ByteMemory {
  import opened Bits

  /** A 64-bit word as its eight bytes in memory, little end first. */
  function Bytes(w: nat, n: nat): (s: seq<byte>)
    ensures |s| == n
  {
    if n == 0 then [] else [w % 256] + Bytes(w / 256, n - 1)
  }

  function Value(s: seq<byte>): nat {
    if s == [] then 0 else s[0] + 256 * Value(s[1..])
  }

  function Pow256(n: nat): (p: nat)
    ensures p > 0
  {
    if n == 0 then 1 else 256 * Pow256(n - 1)
  }

  /** Storing a word and loading it gives it back, and the other way round. */
  lemma {:induction false} ValueOfBytes(w: nat, n: nat)
    requires w < Pow256(n)
    ensures Value(Bytes(w, n)) == w
  {
    if n > 0 {
      ValueOfBytes(w / 256, n - 1);
      assert Bytes(w, n)[1..] == Bytes(w / 256, n - 1);
    }
  }

  lemma {:induction false} BytesOfValue(s: seq<byte>)
    ensures Value(s) < Pow256(|s|) && Bytes(Value(s), |s|) == s
  {
    if s != [] {
      BytesOfValue(s[1..]);
      assert (s[0] + 256 * Value(s[1..])) % 256 == s[0] && (s[0] + 256 * Value(s[1..])) / 256 == Value(s[1..]);
    }
  }

  lemma EightBytes()
    ensures Pow256(8) == U64
  {
    assert Pow256(4) == 0x1_0000_0000;
    assert Pow256(8) == 256 * (256 * (256 * (256 * Pow256(4))));
  }

  // ----- words in memory

  function Load64(mem: seq<byte>, at: nat): nat
    requires at + 8 <= |mem|
  {
    Value(mem[at..at + 8])
  }

  ghost predicate HoldsWord(mem: seq<byte>, at: nat, w: nat) {
    at + 8 <= |mem| && mem[at..at + 8] == Bytes(w, 8)
  }

  lemma WordReads(mem: seq<byte>, at: nat, w: nat)
    requires HoldsWord(mem, at, w) && w < U64
    ensures at + 8 <= |mem| && Load64(mem, at) == w
  {
    EightBytes();
    ValueOfBytes(w, 8);
  }

  lemma WordHeld(mem: seq<byte>, at: nat)
    requires at + 8 <= |mem|
    ensures HoldsWord(mem, at, Load64(mem, at)) && Load64(mem, at) < U64
  {
    EightBytes();
    BytesOfValue(mem[at..at + 8]);
  }

  // ----- the fill word

  /** `fill |= fill << bits`, where `shift` is 2 to the power of `bits`. */
  function Doubled(fill: nat, shift: nat): nat { BitOr(fill, fill * shift % 0x1_0000_0000_0000_0000) }

  function FillWord(b: byte): nat { Doubled(Doubled(Doubled(b, 0x100), 0x1_0000), 0x1_0000_0000) }

  lemma OrZero(a: nat)
    ensures BitOr(a, 0) == a && BitOr(0, a) == a
  {
  }

  lemma DoubledIs(k: nat, p: nat, fill: nat)
    requires p == Pow2(k) && fill < p && fill * p < U64
    ensures Doubled(fill, p) == fill + fill * p
  {
    hide Pow2, BitOr;
    OrSplit(k, fill, 0, 0, fill);
    OrZero(fill);
    assert fill * p == p * fill && p * 0 == 0;
  }

  lemma Powers()
    ensures Pow2(8) == 0x100 && Pow2(16) == 0x1_0000 && Pow2(32) == 0x1_0000_0000
  {
    assert Pow2(8) == 0x100;
    Pow2Plus(8, 8);
    Pow2Plus(16, 16);
  }

  /** The word holds the byte eight times. */
  lemma FillWordIs(b: byte)
    ensures FillWord(b) == b * 0x0101_0101_0101_0101
  {
    hide Pow2, BitOr, Doubled;
    Powers();
    DoubledIs(8, 0x100, b);
    DoubledIs(16, 0x1_0000, b * 0x101);
    DoubledIs(32, 0x1_0000_0000, b * 0x0101_0101);
  }

  lemma FillBytes(b: byte)
    ensures Bytes(FillWord(b), 8) == seq(8, _ => b)
  {
    hide FillWord, Bytes;
    FillWordIs(b);
    Repeated(b, b * 0x01_0101_0101_0101, 7);
    Repeated(b, b * 0x0101_0101_0101, 6);
    Repeated(b, b * 0x01_0101_0101, 5);
    Repeated(b, b * 0x0101_0101, 4);
    Repeated(b, b * 0x01_0101, 3);
    Repeated(b, b * 0x0101, 2);
    Repeated(b, b, 1);
    Repeated(b, 0, 0);
    NoBytes(0);
  }

  lemma NoBytes(w: nat)
    ensures Bytes(w, 0) == []
  {
  }

  lemma Repeated(b: byte, rest: nat, n: nat)
    ensures Bytes(b + 256 * rest, n + 1) == [b] + Bytes(rest, n)
  {
    assert (b + 256 * rest) % 256 == b && (b + 256 * rest) / 256 == rest;
  }

  // ----- memset

  /** The memory with `count` bytes from `at` on filled, one byte at a time. */
  function Filled(mem: seq<byte>, at: nat, count: nat, b: byte): (r: seq<byte>)
    requires at + count <= |mem|
    ensures |r| == |mem|
  {
    if count == 0 then mem else Filled(mem, at, count - 1, b)[at + count - 1 := b]
  }

  /** Exactly those bytes change. */
  lemma {:induction false} FilledIs(mem: seq<byte>, at: nat, count: nat, b: byte)
    requires at + count <= |mem|
    ensures forall i | 0 <= i < |mem| :: Filled(mem, at, count, b)[i] == if at <= i < at + count then b else mem[i]
  {
    if count > 0 {
      FilledIs(mem, at, count - 1, b);
    }
  }

  /** Stores a word of `n` bytes at an address. */
  method StoreWord(mem: array<byte>, at: nat, w: nat, n: nat)
    requires at + n <= mem.Length
    modifies mem
    ensures forall j | 0 <= j < mem.Length :: mem[j] == if at <= j < at + n then Bytes(w, n)[j - at] else old(mem[j])
  {
    var v := w;
    ghost var s := Bytes(w, n);
    for i := 0 to n
      invariant Bytes(v, n - i) == s[i..]
      invariant forall j | 0 <= j < mem.Length :: mem[j] == if at <= j < at + i then s[j - at] else old(mem[j])
    {
      assert s[i] == s[i..][0] == v % 256;
      assert Bytes(v / 256, n - i - 1) == s[i..][1..];
      mem[at + i] := v % 256;
      v := v / 256;
    }
  }

  /** Of `mem`, which was `m`, the bytes from `dst` to `ptr` are filled so far. */
  ghost predicate FilledTo(m: seq<byte>, mem: array<byte>, dst: nat, ptr: nat, b: byte)
    reads mem
  {
    |m| == mem.Length && dst <= ptr && forall i | 0 <= i < mem.Length :: mem[i] == if dst <= i < ptr then b else m[i]
  }

  /** Single bytes until the address is aligned or nothing is left. */
  method FillHead(mem: array<byte>, dst: nat, b: byte, count: nat) returns (ptr: nat, left: nat)
    requires dst + count <= mem.Length && 0 < count
    modifies mem
    ensures ptr + left == dst + count && (left == 0 || ptr % 8 == 0) && FilledTo(old(mem[..]), mem, dst, ptr, b)
  {
    ptr, left := dst, count;
    while ptr % 8 != 0
      invariant ptr + left == dst + count && left > 0 && FilledTo(old(mem[..]), mem, dst, ptr, b)
      decreases left
    {
      mem[ptr] := b;
      ptr := ptr + 1;
      left := left - 1;
      if left == 0 { return; }
    }
  }

  /** Words as long as eight bytes are left. */
  method FillWords(mem: array<byte>, start: nat, b: byte, count: nat, fill: nat) returns (ptr: nat, left: nat)
    requires start + count <= mem.Length && fill < U64 && Bytes(fill, 8) == seq(8, _ => b)
    modifies mem
    ensures ptr + left == start + count && left < 8 && FilledTo(old(mem[..]), mem, start, ptr, b)
  {
    ptr, left := start, count;
    while left >= 8
      invariant ptr + left == start + count && FilledTo(old(mem[..]), mem, start, ptr, b)
      decreases left
    {
      StoreWord(mem, ptr, fill, 8);
      ptr := ptr + 8;
      left := left - 8;
    }
  }

  /** `memset`: single bytes up to an aligned address, then words, then single bytes. Index and
      address are the same. */
  method Memset(mem: array<byte>, dst: nat, val: int, count: nat)
    requires dst + count <= mem.Length
    modifies mem
    ensures mem[..] == Filled(old(mem[..]), dst, count, val % 256)
  {
    hide Bytes, FillWord;
    var b: byte := val % 256;
    FilledIs(mem[..], dst, count, b);
    if count == 0 { return; }
    ghost var m := mem[..];
    var ptr, left := FillHead(mem, dst, b, count);
    if left > 0 {
      FillBytes(b);
      FillWordIs(b);
      ptr, left := FillWords(mem, ptr, b, left, FillWord(b));
      while left > 0
        invariant ptr + left == dst + count && FilledTo(m, mem, dst, ptr, b)
        decreases left
      {
        left := left - 1;
        mem[ptr] := b;
        ptr := ptr + 1;
      }
    }
    assert mem[..] == Filled(m, dst, count, b);
  }
}
