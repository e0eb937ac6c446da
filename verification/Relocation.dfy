/** The two relocations of start.c: `relocate_kernel` for the address the image is loaded at, and
    `shift_to_va` for the address it is mapped at. */
module Relocation {
  import opened Bits
  import opened ByteMemory

  const MAX_RELOCATIONS: nat := 272

  // ----- writing words to disjoint slots

  function Write(m: seq<byte>, at: nat, w: nat): (r: seq<byte>)
    requires at + 8 <= |m|
    ensures |r| == |m|
    ensures forall j | 0 <= j < |m| :: r[j] == if at <= j < at + 8 then Bytes(w, 8)[j - at] else m[j]
  {
    m[..at] + Bytes(w, 8) + m[at + 8..]
  }

  /** Words for slots; only some of the slots are written. */
  datatype Patch = Patch(slot: nat, value: nat, on: bool)

  function Apply(m: seq<byte>, ps: seq<Patch>): (r: seq<byte>)
    requires forall p | p in ps :: p.slot + 8 <= |m|
    ensures |r| == |m|
  {
    if ps == [] then m
    else
      var last := ps[|ps| - 1];
      assert last in ps && forall p | p in ps[..|ps| - 1] :: p in ps;
      var before := Apply(m, ps[..|ps| - 1]);
      if last.on then Write(before, last.slot, last.value) else before
  }

  /** The slots lie in memory and apart from each other. */
  ghost predicate Apart(m: seq<byte>, ps: seq<Patch>) {
    && (forall i | 0 <= i < |ps| :: ps[i].slot + 8 <= |m|)
    && forall i, j | 0 <= i < j < |ps| :: ps[i].slot + 8 <= ps[j].slot || ps[j].slot + 8 <= ps[i].slot
  }

  predicate Within(p: Patch, j: nat) { p.slot <= j < p.slot + 8 }

  /** Each byte comes from its slot's word, or is as before. */
  lemma {:induction false} ApplyBytes(m: seq<byte>, ps: seq<Patch>)
    requires Apart(m, ps)
    ensures forall p | p in ps :: p.slot + 8 <= |m|
    ensures forall k: nat, j: nat | k < |ps| && ps[k].on && Within(ps[k], j) ::
            Apply(m, ps)[j] == Bytes(ps[k].value, 8)[j - ps[k].slot]
    ensures forall j: nat | j < |m| && (forall k | 0 <= k < |ps| && ps[k].on :: !Within(ps[k], j)) ::
            Apply(m, ps)[j] == m[j]
  {
    hide Bytes, Write;
    if ps != [] {
      var n := |ps| - 1;
      var front := ps[..n];
      ApplyBytes(m, front);
      forall k: nat, j: nat | k < |ps| && ps[k].on && Within(ps[k], j)
        ensures Apply(m, ps)[j] == Bytes(ps[k].value, 8)[j - ps[k].slot]
      {
        if k < n {
          assert front[k] == ps[k];
        }
      }
      forall j: nat | j < |m| && (forall k | 0 <= k < |ps| && ps[k].on :: !Within(ps[k], j))
        ensures Apply(m, ps)[j] == m[j]
      {
        assert forall k | 0 <= k < |front| && front[k].on :: front[k] == ps[k] && !Within(front[k], j);
      }
    }
  }

  /** A slot that is written holds its word; one that is not holds what it held. */
  lemma ApplyHolds(m: seq<byte>, ps: seq<Patch>, k: nat)
    requires Apart(m, ps) && k < |ps|
    ensures forall p | p in ps :: p.slot + 8 <= |m|
    ensures HoldsWord(Apply(m, ps), ps[k].slot, if ps[k].on then ps[k].value else Load64(m, ps[k].slot))
  {
    hide Apply, Bytes, Load64, HoldsWord;
    if ps[k].on {
      HoldsWritten(m, ps, k);
    } else {
      HoldsUnwritten(m, ps, k);
    }
  }

  lemma HoldsWritten(m: seq<byte>, ps: seq<Patch>, k: nat)
    requires Apart(m, ps) && k < |ps| && ps[k].on
    ensures forall p | p in ps :: p.slot + 8 <= |m|
    ensures HoldsWord(Apply(m, ps), ps[k].slot, ps[k].value)
  {
    ApplyBytes(m, ps);
    hide Apply, Bytes, Write, Apart;
    var r, at := Apply(m, ps), ps[k].slot;
    forall j: nat | at <= j < at + 8 ensures r[j] == Bytes(ps[k].value, 8)[j - at] {
      assert Within(ps[k], j);
    }
    assert r[at..at + 8] == Bytes(ps[k].value, 8);
  }

  lemma HoldsUnwritten(m: seq<byte>, ps: seq<Patch>, k: nat)
    requires Apart(m, ps) && k < |ps| && !ps[k].on
    ensures forall p | p in ps :: p.slot + 8 <= |m|
    ensures HoldsWord(Apply(m, ps), ps[k].slot, Load64(m, ps[k].slot))
  {
    ApplyBytes(m, ps);
    hide Apply, Bytes, Write, Load64;
    var r, at := Apply(m, ps), ps[k].slot;
    forall j: nat | at <= j < at + 8 ensures r[j] == m[j] {
      assert forall i | 0 <= i < |ps| && ps[i].on :: !Within(ps[i], j);
    }
    WordHeld(m, at);
    assert r[at..at + 8] == m[at..at + 8];
  }

  /** Bytes that meet no slot stay. */
  lemma ApplyElsewhere(m: seq<byte>, ps: seq<Patch>, a: nat, b: nat)
    requires Apart(m, ps) && a <= b <= |m| && forall k | 0 <= k < |ps| :: ps[k].slot + 8 <= a || b <= ps[k].slot
    ensures forall p | p in ps :: p.slot + 8 <= |m|
    ensures Apply(m, ps)[a..b] == m[a..b]
  {
    ApplyBytes(m, ps);
    forall j: nat | a <= j < b ensures Apply(m, ps)[j] == m[j] {
      assert forall k | 0 <= k < |ps| && ps[k].on :: !Within(ps[k], j);
    }
  }

  // ----- the image

  /** Where the image is loaded, and its relocation and symbol tables, of 24-byte entries. */
  datatype Image = Image(base: nat, rela: nat, count: nat, symbols: nat, symbolCount: nat)

  /** One relocation: where it goes, whether its type is one of the three that are handled, and
      the sum of symbol value and addend. */
  datatype Entry = Entry(slot: nat, handled: bool, target: nat)

  predicate TablesFit(m: seq<byte>, im: Image) {
    && im.rela + 24 * im.count <= |m| && im.symbols + 24 * im.symbolCount <= |m|
    && forall i | 0 <= i < im.count :: Load64(m, im.rela + 24 * i + 8) / 0x1_0000_0000 < im.symbolCount
  }

  /** `R_AARCH64_ABS64`, `R_AARCH64_GLOB_DAT` and `R_AARCH64_JUMP_SLOT`. */
  predicate Handled(kind: nat) { kind == 257 || kind == 1025 || kind == 1026 }

  function EntryOf(m: seq<byte>, im: Image, i: nat): Entry
    requires TablesFit(m, im) && i < im.count
  {
    var offset, info, addend := Load64(m, im.rela + 24 * i), Load64(m, im.rela + 24 * i + 8),
        Load64(m, im.rela + 24 * i + 16);
    var symbol := Load64(m, im.symbols + 24 * (info / 0x1_0000_0000) + 8);
    Entry(Add64(im.base, offset), Handled(info % 0x1_0000_0000), Add64(symbol, addend))
  }

  function Entries(m: seq<byte>, im: Image): (es: seq<Entry>)
    requires TablesFit(m, im)
    ensures |es| == im.count
  {
    seq(im.count, i requires 0 <= i < im.count => EntryOf(m, im, i))
  }

  /** Slots lie in memory, apart from each other. */
  ghost predicate SlotsApart(m: seq<byte>, es: seq<Entry>) {
    && (forall i | 0 <= i < |es| :: 0 < es[i].slot && es[i].slot + 8 <= |m|)
    && forall i, j | 0 <= i < j < |es| :: es[i].slot + 8 <= es[j].slot || es[j].slot + 8 <= es[i].slot
  }

  ghost predicate SlotsMiss(es: seq<Entry>, a: nat, b: nat) {
    forall i | 0 <= i < |es| :: es[i].slot + 8 <= a || b <= es[i].slot
  }

  /** No more relocations than the second step has room for, and slots apart from each other and
      from the tables. */
  ghost predicate WellFormed(m: seq<byte>, im: Image) {
    && im.base < U64 && |m| < U64 && TablesFit(m, im) && im.count <= MAX_RELOCATIONS
    && SlotsApart(m, Entries(m, im))
    && SlotsMiss(Entries(m, im), im.rela, im.rela + 24 * im.count)
    && SlotsMiss(Entries(m, im), im.symbols, im.symbols + 24 * im.symbolCount)
  }

  // ----- the two steps, and the single one

  /** Relocating for an address: the handled slots get it plus their target. */
  function Plan(es: seq<Entry>, address: nat): (ps: seq<Patch>)
    ensures |ps| == |es|
  {
    seq(|es|, i requires 0 <= i < |es| => Patch(es[i].slot, Add64(address, es[i].target), es[i].handled))
  }

  /** What the second step writes, of what the first has left: it shifts every slot. */
  function ShiftOf(w: nat, base: nat): nat
    requires base < U64 && w < U64
  {
    Add64(Sub64(w, base), KERNEL_VA_BASE)
  }

  function Shifts(m: seq<byte>, es: seq<Entry>, base: nat): (ps: seq<Patch>)
    requires SlotsApart(m, es) && base < U64
    ensures |ps| == |es|
  {
    seq(|es|, i requires 0 <= i < |es| =>
      WordHeld(m, es[i].slot);
      Patch(es[i].slot, ShiftOf(Load64(m, es[i].slot), base), true))
  }

  lemma PlansApart(m: seq<byte>, es: seq<Entry>, address: nat, base: nat)
    requires SlotsApart(m, es) && base < U64
    ensures Apart(m, Plan(es, address)) && Apart(m, Shifts(m, es, base))
    ensures forall p | p in Plan(es, address) :: p.slot + 8 <= |m|
    ensures forall p | p in Shifts(m, es, base) :: p.slot + 8 <= |m|
  {
  }

  /** Relocating once. */
  function Once(m: seq<byte>, es: seq<Entry>, address: nat): (r: seq<byte>)
    requires SlotsApart(m, es)
    ensures |r| == |m|
  {
    PlansApart(m, es, address, 0);
    Apply(m, Plan(es, address))
  }

  /** The second step on what the first leaves. */
  function Shifted(m: seq<byte>, es: seq<Entry>, base: nat): (r: seq<byte>)
    requires SlotsApart(m, es) && base < U64
    ensures |r| == |m|
  {
    PlansApart(m, es, 0, base);
    Apply(m, Shifts(m, es, base))
  }

  lemma ShiftCancels(base: nat, target: nat)
    requires base < U64
    ensures ShiftOf(Add64(base, target), base) == Add64(KERNEL_VA_BASE, target)
  {
    var t := target % 0x1_0000_0000_0000_0000;
    AddRest(base, target);
    AddRest(KERNEL_VA_BASE, target);
    hide Add64, Sub64;
    SubUndoes(base, t);
  }

  lemma AddRest(a: nat, b: nat)
    ensures Add64(a, b) == Add64(a, b % 0x1_0000_0000_0000_0000)
  {
  }

  lemma SubUndoes(a: nat, b: nat)
    requires a < U64 && b < U64
    ensures Sub64(Add64(a, b), a) == b
  {
  }

  lemma ShiftChanges(w: nat, base: nat)
    requires base < U64 && w < U64
    ensures ShiftOf(w, base) == w <==> base == KERNEL_VA_BASE
  {
  }

  lemma HeldWord(m: seq<byte>, at: nat, w: nat)
    requires HoldsWord(m, at, w) && w < U64
    ensures at + 8 <= |m| && Load64(m, at) == w
  {
    WordReads(m, at, w);
  }

  /** After each step a slot holds this. */
  lemma SlotAfter(m: seq<byte>, es: seq<Entry>, base: nat, k: nat)
    requires SlotsApart(m, es) && base < U64 && k < |es|
    ensures var m1 := Once(m, es, base); var e := es[k];
            && Load64(m1, e.slot) == (if e.handled then Add64(base, e.target) else Load64(m, e.slot))
            && Load64(m, e.slot) < U64
            && Load64(Shifted(m1, es, base), e.slot)
               == if e.handled then Add64(KERNEL_VA_BASE, e.target) else ShiftOf(Load64(m, e.slot), base)
  {
    hide Load64, HoldsWord, Apply, Apart;
    var m1, e := Once(m, es, base), es[k];
    PlansApart(m, es, base, base);
    ApplyHolds(m, Plan(es, base), k);
    WordHeld(m, e.slot);
    HeldWord(m1, e.slot, if e.handled then Add64(base, e.target) else Load64(m, e.slot));
    PlansApart(m1, es, base, base);
    ApplyHolds(m1, Shifts(m1, es, base), k);
    HeldWord(Shifted(m1, es, base), e.slot, ShiftOf(Load64(m1, e.slot), base));
    ShiftCancels(base, e.target);
  }

  /** Bytes in no slot are those of the image. */
  lemma RestStays(m: seq<byte>, es: seq<Entry>, base: nat, a: nat, b: nat)
    requires SlotsApart(m, es) && base < U64 && a <= b <= |m| && SlotsMiss(es, a, b)
    ensures Once(m, es, base)[a..b] == m[a..b]
    ensures Shifted(Once(m, es, base), es, base)[a..b] == m[a..b]
  {
    hide Apply, Apart;
    var m1 := Once(m, es, base);
    PlansApart(m, es, base, base);
    ApplyElsewhere(m, Plan(es, base), a, b);
    PlansApart(m1, es, base, base);
    ApplyElsewhere(m1, Shifts(m1, es, base), a, b);
  }

  lemma SameWordSameBytes(a: seq<byte>, b: seq<byte>, at: nat, j: nat)
    requires at + 8 <= |a| && |a| == |b| && Load64(a, at) == Load64(b, at) && at <= j < at + 8
    ensures a[j] == b[j]
  {
    BytesOfValue(a[at..at + 8]);
    BytesOfValue(b[at..at + 8]);
    assert a[at..at + 8][j - at] == b[at..at + 8][j - at];
  }

  lemma ByteAgrees(m: seq<byte>, es: seq<Entry>, base: nat, j: nat)
    requires SlotsApart(m, es) && base < U64 && j < |m| && forall i | 0 <= i < |es| :: es[i].handled
    ensures Shifted(Once(m, es, base), es, base)[j] == Once(m, es, KERNEL_VA_BASE)[j]
  {
    hide Once, Shifted, Load64;
    var two, one := Shifted(Once(m, es, base), es, base), Once(m, es, KERNEL_VA_BASE);
    if i :| 0 <= i < |es| && es[i].slot <= j < es[i].slot + 8 {
      SlotAfter(m, es, base, i);
      SlotAfter(m, es, KERNEL_VA_BASE, i);
      SameWordSameBytes(two, one, es[i].slot, j);
    } else {
      RestStays(m, es, base, j, j + 1);
      RestStays(m, es, KERNEL_VA_BASE, j, j + 1);
      assert two[j] == two[j..j + 1][0] && one[j] == one[j..j + 1][0];
    }
  }

  /** The two steps leave exactly the image that relocating once for the final address leaves, if
      and only if every relocation is of a type that is handled: the second step shifts the
      slots of the others all the same. */
  lemma TwoStepsAreOneIff(m: seq<byte>, es: seq<Entry>, base: nat)
    requires SlotsApart(m, es) && base < U64 && base != KERNEL_VA_BASE
    ensures Shifted(Once(m, es, base), es, base) == Once(m, es, KERNEL_VA_BASE)
        <==> forall i | 0 <= i < |es| :: es[i].handled
  {
    hide Once, Shifted, Load64, ShiftOf;
    if i :| 0 <= i < |es| && !es[i].handled {
      SlotAfter(m, es, base, i);
      SlotAfter(m, es, KERNEL_VA_BASE, i);
      ShiftChanges(Load64(m, es[i].slot), base);
    } else {
      forall j: nat | j < |m| ensures Shifted(Once(m, es, base), es, base)[j] == Once(m, es, KERNEL_VA_BASE)[j] {
        ByteAgrees(m, es, base, j);
      }
    }
  }

  // ----- what that means for the tables in memory

  /** Entry `i` of the tables in `m`, and its slot in `w`: a word of one of the types 257, 1025 and 1026
      (`R_AARCH64_ABS64`, `R_AARCH64_GLOB_DAT`, `R_AARCH64_JUMP_SLOT`) is the address plus symbol value
      plus addend; any other is what it was, shifted by `shift`. */
  ghost predicate Relocated(m: seq<byte>, w: seq<byte>, im: Image, i: nat, address: nat, shift: int)
    requires i < im.count && TablesFit(m, im)
  {
    var offset, info := Load64(m, im.rela + 24 * i), Load64(m, im.rela + 24 * i + 8);
    var addend := Load64(m, im.rela + 24 * i + 16);
    var symbol := Load64(m, im.symbols + 24 * (info / 0x1_0000_0000) + 8);
    SlotHolds(m, w, (im.base + offset) % 0x1_0000_0000_0000_0000, info % 0x1_0000_0000,
              (address + symbol + addend) % 0x1_0000_0000_0000_0000, shift)
  }

  ghost predicate SlotHolds(m: seq<byte>, w: seq<byte>, slot: nat, kind: nat, word: nat, shift: int) {
    && slot + 8 <= |m| == |w|
    && Load64(w, slot) == if kind == 257 || kind == 1025 || kind == 1026 then word
         else (Load64(m, slot) + shift) % 0x1_0000_0000_0000_0000
  }

  ghost predicate AllRelocated(m: seq<byte>, w: seq<byte>, im: Image, address: nat, shift: int)
    requires TablesFit(m, im)
  {
    forall i: nat | i < im.count :: Relocated(m, w, im, i, address, shift)
  }

  lemma ThreeTerms(a: nat, b: nat, c: nat)
    ensures Add64(a, Add64(b, c)) == (a + b + c) % 0x1_0000_0000_0000_0000
  {
  }

  lemma ShiftIsDifference(w: nat, base: nat)
    requires base < U64 && w < U64
    ensures ShiftOf(w, base) == (w + (KERNEL_VA_BASE - base)) % 0x1_0000_0000_0000_0000
  {
  }

  /** After the first step every slot is as it should be for the address of the image; after the second,
      for the address that it is mapped at. */
  lemma EverySlotIs(m: seq<byte>, im: Image, i: nat)
    requires WellFormed(m, im) && i < im.count
    ensures TablesFit(m, im) && SlotsApart(m, Entries(m, im)) && im.base < U64
    ensures var m1 := Once(m, Entries(m, im), im.base);
            && Relocated(m, m1, im, i, im.base, 0)
            && Relocated(m, Shifted(m1, Entries(m, im), im.base), im, i, 0xFFFF_F000_0000_0000,
                         0xFFFF_F000_0000_0000 - im.base)
  {
    BaseFits(m, im);
    InMemory(m, im, i);
    hide Once, Shifted, WellFormed, SlotsApart, TablesFit, Entries, Load64, Relocated, ShiftOf, Add64;
    var es := Entries(m, im);
    SlotAfter(m, es, im.base, i);
    FirstSlotIs(m, Once(m, es, im.base), im, i);
    SecondSlotIs(m, Shifted(Once(m, es, im.base), es, im.base), im, i);
  }

  lemma FirstSlotIs(m: seq<byte>, w: seq<byte>, im: Image, i: nat)
    requires TablesFit(m, im) && i < im.count && |w| == |m| && Entries(m, im)[i].slot + 8 <= |m|
    requires var e := Entries(m, im)[i];
             && Load64(m, e.slot) < U64
             && Load64(w, e.slot) == if e.handled then Add64(im.base, e.target) else Load64(m, e.slot)
    ensures Relocated(m, w, im, i, im.base, 0)
  {
    hide TablesFit, Entries, Load64, Relocated, Add64;
    SameWord(Load64(m, Entries(m, im)[i].slot));
    SlotIs(m, w, im, i, im.base, 0);
  }

  lemma SecondSlotIs(m: seq<byte>, w: seq<byte>, im: Image, i: nat)
    requires TablesFit(m, im) && i < im.count && |w| == |m| && Entries(m, im)[i].slot + 8 <= |m| && im.base < U64
    requires var e := Entries(m, im)[i];
             && Load64(m, e.slot) < U64
             && Load64(w, e.slot) == if e.handled then Add64(KERNEL_VA_BASE, e.target)
                                     else ShiftOf(Load64(m, e.slot), im.base)
    ensures Relocated(m, w, im, i, 0xFFFF_F000_0000_0000, 0xFFFF_F000_0000_0000 - im.base)
  {
    hide TablesFit, Entries, Load64, Relocated, Add64, ShiftOf;
    ShiftIsDifference(Load64(m, Entries(m, im)[i].slot), im.base);
    SlotIs(m, w, im, i, 0xFFFF_F000_0000_0000, 0xFFFF_F000_0000_0000 - im.base);
  }

  lemma SameWord(w: nat)
    requires w < U64
    ensures (w + 0) % 0x1_0000_0000_0000_0000 == w
  {
  }

  /** The same in terms of the entry that has been read. */
  lemma SlotIs(m: seq<byte>, w: seq<byte>, im: Image, i: nat, address: nat, shift: int)
    requires TablesFit(m, im) && i < im.count && |w| == |m|
    requires var e := Entries(m, im)[i];
             && e.slot + 8 <= |m|
             && Load64(w, e.slot) == if e.handled then Add64(address, e.target)
                                     else (Load64(m, e.slot) + shift) % 0x1_0000_0000_0000_0000
    ensures Relocated(m, w, im, i, address, shift)
  {
    hide Load64, TablesFit, Entries, Add64, SlotHolds;
    EntryIs(m, im, i);
    var info, addend := Load64(m, im.rela + 24 * i + 8), Load64(m, im.rela + 24 * i + 16);
    var symbol := Load64(m, im.symbols + 24 * (info / 0x1_0000_0000) + 8);
    var e := Entries(m, im)[i];
    ThreeTerms(address, symbol, addend);
    SlotHoldsIs(m, w, e, info % 0x1_0000_0000, Add64(address, e.target), shift);
  }

  lemma SlotHoldsIs(m: seq<byte>, w: seq<byte>, e: Entry, kind: nat, word: nat, shift: int)
    requires e.slot + 8 <= |m| == |w| && e.handled == (kind == 257 || kind == 1025 || kind == 1026)
    requires Load64(w, e.slot) == if e.handled then word
                                  else (Load64(m, e.slot) + shift) % 0x1_0000_0000_0000_0000
    ensures SlotHolds(m, w, e.slot, kind, word, shift)
  {
    hide Load64;
  }

  /** What is read of entry `i`. */
  lemma EntryIs(m: seq<byte>, im: Image, i: nat)
    requires TablesFit(m, im) && i < im.count
    ensures im.rela + 24 * i + 24 <= |m|
    ensures var offset, info := Load64(m, im.rela + 24 * i), Load64(m, im.rela + 24 * i + 8);
            && im.symbols + 24 * (info / 0x1_0000_0000) + 16 <= |m|
            && var kind, e := info % 0x1_0000_0000, Entries(m, im)[i];
            && e.slot == (im.base + offset) % 0x1_0000_0000_0000_0000
            && e.handled == (kind == 257 || kind == 1025 || kind == 1026)
            && e.target == Add64(Load64(m, im.symbols + 24 * (info / 0x1_0000_0000) + 8),
                                 Load64(m, im.rela + 24 * i + 16))
  {
    hide Load64;
  }

  // ----- in place

  datatype RelocStore = RelocStore(address: nat, value: nat)

  method Store64(mem: array<byte>, at: nat, w: nat)
    requires at + 8 <= mem.Length
    modifies mem
    ensures mem[..] == Write(old(mem[..]), at, w)
  {
    StoreWord(mem, at, w, 8);
  }

  method Fetch64(mem: array<byte>, at: nat) returns (w: nat)
    requires at + 8 <= mem.Length
    ensures w == Load64(mem[..], at) && w < U64
  {
    WordHeld(mem[..], at);
    assert mem[at..at + 8] == mem[..][at..at + 8];
    w := Value(mem[at..at + 8]);
  }

  /** The image after the first `n` relocations. */
  function Partly(m: seq<byte>, es: seq<Entry>, base: nat, n: nat): (r: seq<byte>)
    requires SlotsApart(m, es) && n <= |es|
    ensures |r| == |m|
  {
    PlansApart(m, es, base, 0);
    assert forall p | p in Plan(es, base)[..n] :: p in Plan(es, base);
    Apply(m, Plan(es, base)[..n])
  }

  /** A word that no slot meets stays. */
  lemma WordStays(m: seq<byte>, es: seq<Entry>, base: nat, n: nat, a: nat, b: nat, at: nat)
    requires SlotsApart(m, es) && n <= |es| && SlotsMiss(es, a, b) && a <= at && at + 8 <= b <= |m|
    ensures Load64(Partly(m, es, base, n), at) == Load64(m, at)
  {
    hide Apply, Load64;
    var ps := Plan(es, base)[..n];
    PlansApart(m, es, base, 0);
    assert forall k | 0 <= k < n :: ps[k].slot == es[k].slot;
    ApplyElsewhere(m, ps, at, at + 8);
    SameBytesSameWord(Partly(m, es, base, n), m, at);
  }

  lemma SameBytesSameWord(a: seq<byte>, b: seq<byte>, at: nat)
    requires at + 8 <= |a| && |a| == |b| && a[at..at + 8] == b[at..at + 8]
    ensures Load64(a, at) == Load64(b, at)
  {
  }

  /** The tables can be read at any time: no slot meets them. */
  lemma EntryStays(m: seq<byte>, im: Image, n: nat, i: nat)
    requires WellFormed(m, im) && n <= im.count && i < im.count
    ensures var w := Partly(m, Entries(m, im), im.base, n);
            && Load64(w, im.rela + 24 * i) == Load64(m, im.rela + 24 * i)
            && Load64(w, im.rela + 24 * i + 8) == Load64(m, im.rela + 24 * i + 8)
            && Load64(w, im.rela + 24 * i + 16) == Load64(m, im.rela + 24 * i + 16)
            && (forall s: nat | s < im.symbolCount ::
               Load64(w, im.symbols + 24 * s + 8) == Load64(m, im.symbols + 24 * s + 8))
  {
    hide Partly, Load64, EntryOf, Entries, SlotsApart, SlotsMiss;
    var es := Entries(m, im);
    WordStays(m, es, im.base, n, im.rela, im.rela + 24 * im.count, im.rela + 24 * i);
    WordStays(m, es, im.base, n, im.rela, im.rela + 24 * im.count, im.rela + 24 * i + 8);
    WordStays(m, es, im.base, n, im.rela, im.rela + 24 * im.count, im.rela + 24 * i + 16);
    forall s: nat | s < im.symbolCount
      ensures Load64(Partly(m, es, im.base, n), im.symbols + 24 * s + 8) == Load64(m, im.symbols + 24 * s + 8)
    {
      WordStays(m, es, im.base, n, im.symbols, im.symbols + 24 * im.symbolCount, im.symbols + 24 * s + 8);
    }
  }

  lemma PartlySteps(m: seq<byte>, es: seq<Entry>, base: nat, n: nat)
    requires SlotsApart(m, es) && n < |es|
    ensures Partly(m, es, base, n + 1)
         == if es[n].handled then Write(Partly(m, es, base, n), es[n].slot, Add64(base, es[n].target))
             else Partly(m, es, base, n)
  {
    hide Write, Bytes;
    assert Plan(es, base)[..n + 1][..n] == Plan(es, base)[..n];
  }

  lemma PartlyEnds(m: seq<byte>, es: seq<Entry>, base: nat)
    requires SlotsApart(m, es)
    ensures Partly(m, es, base, 0) == m && Partly(m, es, base, |es|) == Once(m, es, base)
  {
    assert Plan(es, base)[..|es|] == Plan(es, base);
  }

  lemma AddTwice(a: nat, b: nat, c: nat)
    ensures Add64(Add64(a, b), c) == Add64(a, Add64(b, c))
  {
  }

  /** What the loop reads of entry `i`. */
  lemma EntryRead(m: seq<byte>, im: Image, n: nat, i: nat)
    requires WellFormed(m, im) && n <= im.count && i < im.count
    ensures var e, w := Entries(m, im)[i], Partly(m, Entries(m, im), im.base, n);
            var info := Load64(w, im.rela + 24 * i + 8);
            && info / 0x1_0000_0000 < im.symbolCount && e.slot == Add64(im.base, Load64(w, im.rela + 24 * i))
            && e.handled == Handled(info % 0x1_0000_0000)
            && Add64(im.base, e.target)
               == Add64(Add64(im.base, Load64(w, im.symbols + 24 * (info / 0x1_0000_0000) + 8)),
                   Load64(w, im.rela + 24 * i + 16))
  {
    hide Partly, Load64, SlotsApart, SlotsMiss, Entries, Add64;
    BaseFits(m, im);
    EntryStays(m, im, n, i);
    EntryIs(m, im, i);
    WrapsOnce(im.base, Load64(m, im.rela + 24 * i));
    var info := Load64(m, im.rela + 24 * i + 8);
    AddTwice(im.base, Load64(m, im.symbols + 24 * (info / 0x1_0000_0000) + 8), Load64(m, im.rela + 24 * i + 16));
  }

  lemma WrapsOnce(a: nat, b: nat)
    ensures Add64(a, b) == (a + b) % 0x1_0000_0000_0000_0000
  {
  }

  lemma InMemory(m: seq<byte>, im: Image, i: nat)
    requires WellFormed(m, im) && i < im.count
    ensures im.rela + 24 * i + 24 <= |m| && (forall s: nat | s < im.symbolCount :: im.symbols + 24 * s + 16 <= |m|)
    ensures TablesFit(m, im) && SlotsApart(m, Entries(m, im)) && 0 < Entries(m, im)[i].slot
            && Entries(m, im)[i].slot + 8 <= |m|
  {
  }

  /** One turn of the first loop of `relocate_kernel`. */
  method RelocateSlot(mem: array<byte>, im: Image, i: nat, ghost m: seq<byte>)
    requires WellFormed(m, im) && i < im.count && mem[..] == Partly(m, Entries(m, im), im.base, i)
    modifies mem
    ensures mem[..] == Partly(m, Entries(m, im), im.base, i + 1)
  {
    hide Partly, WellFormed, Entries, Load64, Write, SlotsApart, TablesFit;
    InMemory(m, im, i);
    EntryRead(m, im, i, i);
    PartlySteps(m, Entries(m, im), im.base, i);
    var offset := Fetch64(mem, im.rela + 24 * i);
    var info := Fetch64(mem, im.rela + 24 * i + 8);
    if Handled(info % 0x1_0000_0000) {
      var addend := Fetch64(mem, im.rela + 24 * i + 16);
      var symbol := Fetch64(mem, im.symbols + 24 * (info / 0x1_0000_0000) + 8);
      Store64(mem, Add64(im.base, offset), Add64(Add64(im.base, symbol), addend));
    }
  }

  method RelocateSlots(mem: array<byte>, im: Image)
    requires WellFormed(mem[..], im)
    modifies mem
    ensures mem[..] == Once(old(mem[..]), Entries(old(mem[..]), im), im.base)
  {
    ghost var m := mem[..];
    ghost var es := Entries(m, im);
    BaseFits(m, im);
    PartlyEnds(m, es, im.base);
    hide Partly, Once, WellFormed, Entries, SlotsApart, TablesFit;
    for i := 0 to im.count
      invariant mem[..] == Partly(m, es, im.base, i)
    {
      RelocateSlot(mem, im, i, m);
    }
  }

  /** What is kept for the second step, of the first `n` relocations: the slot, and its shifted
      word. */
  ghost predicate StoredTo(m: seq<byte>, es: seq<Entry>, base: nat, store: seq<RelocStore>, n: nat) {
    && SlotsApart(m, es) && base < U64 && n <= |es| <= |store| == MAX_RELOCATIONS
    && (forall i | 0 <= i < n :: store[i].address == es[i].slot && store[i].value == Shifts(m, es, base)[i].value)
    && forall i | n <= i < MAX_RELOCATIONS :: store[i].address == 0
  }

  ghost predicate Stored(m: seq<byte>, es: seq<Entry>, base: nat, store: seq<RelocStore>) {
    StoredTo(m, es, base, store, |es|)
  }

  lemma StoreStep(m: seq<byte>, es: seq<Entry>, base: nat, store: seq<RelocStore>, n: nat, r: RelocStore)
    requires StoredTo(m, es, base, store, n) && n < |es| && r == RelocStore(es[n].slot, Shifts(m, es, base)[n].value)
    ensures StoredTo(m, es, base, store[n := r], n + 1)
  {
  }

  method ClearStore(store: array<RelocStore>)
    requires store.Length == MAX_RELOCATIONS
    modifies store
    ensures forall k | 0 <= k < MAX_RELOCATIONS :: store[k] == RelocStore(0, 0)
  {
    for i := 0 to MAX_RELOCATIONS
      invariant forall k | 0 <= k < i :: store[k] == RelocStore(0, 0)
    {
      store[i] := RelocStore(0, 0);
    }
  }

  /** One turn of the last loop: a slot, and its word for the final address. */
  method ReadSlot(mem: array<byte>, im: Image, i: nat, ghost m: seq<byte>) returns (r: RelocStore)
    requires WellFormed(m, im) && i < im.count && mem[..] == Once(m, Entries(m, im), im.base)
    ensures SlotsApart(mem[..], Entries(m, im)) && im.base < U64
    ensures r == RelocStore(Entries(m, im)[i].slot, Shifts(mem[..], Entries(m, im), im.base)[i].value)
  {
    hide Once, Entries, Load64, WellFormed, TablesFit;
    assert im.base < U64 by { BaseFits(m, im); }
    InMemory(m, im, i);
    OnceKeepsTables(m, im, i);
    var offset := Fetch64(mem, im.rela + 24 * i);
    var word := Fetch64(mem, Add64(im.base, offset));
    r := RelocStore(Add64(im.base, offset), Add64(Sub64(word, im.base), KERNEL_VA_BASE));
  }

  lemma BaseFits(m: seq<byte>, im: Image)
    requires WellFormed(m, im)
    ensures im.base < U64 && im.count <= MAX_RELOCATIONS && TablesFit(m, im) && SlotsApart(m, Entries(m, im))
  {
  }

  /** The last loop; `w` is what memory holds. */
  method FillStore(mem: array<byte>, im: Image, store: array<RelocStore>, ghost m: seq<byte>, ghost w: seq<byte>,
                   ghost es: seq<Entry>)
    requires WellFormed(m, im) && es == Entries(m, im) && w == mem[..] == Once(m, es, im.base)
    requires SlotsApart(w, es) && im.base < U64
    requires store.Length == MAX_RELOCATIONS && StoredTo(w, es, im.base, store[..], 0)
    modifies store
    ensures Stored(w, es, im.base, store[..])
  {
    BaseFits(m, im);
    hide Once, Entries, WellFormed, SlotsApart, Shifts, TablesFit, StoredTo;
    for i := 0 to im.count
      invariant StoredTo(w, es, im.base, store[..], i)
    {
      var r := ReadSlot(mem, im, i, m);
      ghost var before := store[..];
      store[i] := r;
      StoreStep(w, es, im.base, before, i, r);
      assert store[..] == before[i := r];
    }
  }

  lemma StillApart(m: seq<byte>, es: seq<Entry>, base: nat)
    requires SlotsApart(m, es)
    ensures SlotsApart(Once(m, es, base), es)
  {
  }

  /** `relocate_kernel`, once the sections are found. */
  method RelocateKernel(mem: array<byte>, im: Image, store: array<RelocStore>)
    requires WellFormed(mem[..], im) && store.Length == MAX_RELOCATIONS
    modifies mem, store
    ensures mem[..] == Once(old(mem[..]), Entries(old(mem[..]), im), im.base)
    ensures Stored(mem[..], Entries(old(mem[..]), im), im.base, store[..])
    ensures AllRelocated(old(mem[..]), mem[..], im, im.base, 0)
  {
    ghost var m := mem[..];
    ghost var es := Entries(m, im);
    BaseFits(m, im);
    StillApart(m, es, im.base);
    AllSlotsAre(m, im);
    hide Once, Entries, WellFormed, SlotsApart, Stored, AllRelocated;
    RelocateSlots(mem, im);
    ghost var w := mem[..];
    ClearStore(store);
    assert mem[..] == w;
    assert forall k | 0 <= k < MAX_RELOCATIONS :: store[..][k] == store[k];
    FillStore(mem, im, store, m, w, es);
    assert mem[..] == w;
  }

  lemma AllSlotsAre(m: seq<byte>, im: Image)
    requires WellFormed(m, im)
    ensures TablesFit(m, im) && SlotsApart(m, Entries(m, im)) && im.base < U64
    ensures var m1 := Once(m, Entries(m, im), im.base);
            && AllRelocated(m, m1, im, im.base, 0)
            && AllRelocated(m, Shifted(m1, Entries(m, im), im.base), im, 0xFFFF_F000_0000_0000,
                            0xFFFF_F000_0000_0000 - im.base)
  {
    hide Relocated, Once, Shifted, Entries;
    BaseFits(m, im);
    var m1 := Once(m, Entries(m, im), im.base);
    var m2, shift := Shifted(m1, Entries(m, im), im.base), 0xFFFF_F000_0000_0000 - im.base;
    forall i: nat | i < im.count
      ensures Relocated(m, m1, im, i, im.base, 0) && Relocated(m, m2, im, i, 0xFFFF_F000_0000_0000, shift)
    {
      EverySlotIs(m, im, i);
    }
  }

  lemma OnceKeepsTables(m: seq<byte>, im: Image, i: nat)
    requires WellFormed(m, im) && i < im.count
    ensures Add64(im.base, Load64(Once(m, Entries(m, im), im.base), im.rela + 24 * i)) == Entries(m, im)[i].slot
  {
    PartlyEnds(m, Entries(m, im), im.base);
    EntryRead(m, im, im.count, i);
  }

  /** The image after the first `n` of the stored words. */
  function ShiftedTo(m: seq<byte>, es: seq<Entry>, base: nat, n: nat): (r: seq<byte>)
    requires SlotsApart(m, es) && base < U64 && n <= |es|
    ensures |r| == |m|
  {
    PlansApart(m, es, 0, base);
    assert forall p | p in Shifts(m, es, base)[..n] :: p in Shifts(m, es, base);
    Apply(m, Shifts(m, es, base)[..n])
  }

  lemma ShiftedEnds(m: seq<byte>, es: seq<Entry>, base: nat)
    requires SlotsApart(m, es) && base < U64
    ensures ShiftedTo(m, es, base, 0) == m && ShiftedTo(m, es, base, |es|) == Shifted(m, es, base)
  {
    assert Shifts(m, es, base)[..|es|] == Shifts(m, es, base);
  }

  lemma ShiftStep(m: seq<byte>, es: seq<Entry>, base: nat, n: nat)
    requires SlotsApart(m, es) && base < U64 && n < |es|
    ensures es[n].slot + 8 <= |m|
    ensures ShiftedTo(m, es, base, n + 1)
         == Write(ShiftedTo(m, es, base, n), es[n].slot, Shifts(m, es, base)[n].value)
  {
    hide Write, Bytes;
    assert Shifts(m, es, base)[..n + 1][..n] == Shifts(m, es, base)[..n];
  }

  /** `shift_to_va`: the stored words are written, up to the first empty entry. */
  method ShiftToVa(mem: array<byte>, store: array<RelocStore>, ghost es: seq<Entry>, ghost base: nat)
    requires Stored(mem[..], es, base, store[..])
    modifies mem
    ensures mem[..] == Shifted(old(mem[..]), es, base)
  {
    ghost var m := mem[..];
    StoredFits(m, es, base, store[..]);
    ShiftedEnds(m, es, base);
    hide ShiftedTo, Shifted, Shifts, Write, Stored, SlotsApart;
    var i := 0;
    while i < MAX_RELOCATIONS
      invariant i <= |es| && mem[..] == ShiftedTo(m, es, base, i)
    {
      StoredAt(m, es, base, store[..], i);
      assert store[..][i] == store[i];
      if store[i].address == 0 { break; }
      ShiftStep(m, es, base, i);
      Store64(mem, store[i].address, store[i].value);
      i := i + 1;
    }
    assert i == |es|;
  }

  lemma StoredFits(m: seq<byte>, es: seq<Entry>, base: nat, store: seq<RelocStore>)
    requires Stored(m, es, base, store)
    ensures SlotsApart(m, es) && base < U64 && |es| <= MAX_RELOCATIONS == |store|
  {
  }

  lemma StoredAt(m: seq<byte>, es: seq<Entry>, base: nat, store: seq<RelocStore>, i: nat)
    requires Stored(m, es, base, store) && i < MAX_RELOCATIONS
    ensures store[i].address == 0 <==> i >= |es|
    ensures i < |es| ==> store[i].address == es[i].slot && store[i].value == Shifts(m, es, base)[i].value
  {
  }

  /** Both steps in a row, at boot and once the image is mapped at its final address. */
  method RelocateTwice(mem: array<byte>, im: Image, store: array<RelocStore>)
    requires WellFormed(mem[..], im) && store.Length == MAX_RELOCATIONS && im.base != KERNEL_VA_BASE
    modifies mem, store
    ensures var m, es := old(mem[..]), Entries(old(mem[..]), im);
            && (mem[..] == Once(m, es, KERNEL_VA_BASE) <==> forall i | 0 <= i < |es| :: es[i].handled)
            && (forall a: nat, b: nat | a <= b <= |m| && SlotsMiss(es, a, b) :: mem[..][a..b] == m[a..b])
    ensures AllRelocated(old(mem[..]), mem[..], im, 0xFFFF_F000_0000_0000, 0xFFFF_F000_0000_0000 - im.base)
  {
    ghost var m := mem[..];
    ghost var es := Entries(m, im);
    AllSlotsAre(m, im);
    hide Once, Shifted, Entries, AllRelocated;
    RelocateKernel(mem, im, store);
    ShiftToVa(mem, store, es, im.base);
    TwoStepsAreOneIff(m, es, im.base);
    forall a: nat, b: nat | a <= b <= |m| && SlotsMiss(es, a, b) ensures mem[..][a..b] == m[a..b] {
      RestStays(m, es, im.base, a, b);
    }
  }

  // ----- an input at which it fails

  /** An image with one relocation of the type `R_AARCH64_RELATIVE`, for the word 7 at 48. */
  function UnhandledImage(): seq<byte> {
    Bytes(0, 8) + Bytes(1027, 8) + Bytes(0, 8) + seq(24, _ => 0) + Bytes(7, 8)
  }

  lemma WordsOfUnhandled()
    ensures var m := UnhandledImage();
            && |m| == 56 && Load64(m, 0) == 0 && Load64(m, 8) == 1027 && Load64(m, 16) == 0 && Load64(m, 48) == 7
  {
    hide Bytes, Load64;
    var m := UnhandledImage();
    assert m[0..8] == Bytes(0, 8) && m[8..16] == Bytes(1027, 8) && m[16..24] == Bytes(0, 8) && m[48..56] == Bytes(7, 8);
    WordReads(m, 0, 0);
    WordReads(m, 8, 1027);
    WordReads(m, 16, 0);
    WordReads(m, 48, 7);
  }

  lemma UnhandledEntries()
    ensures var m, im := UnhandledImage(), Image(48, 0, 1, 24, 1);
            && |m| == 56 && Load64(m, 48) == 7 && WellFormed(m, im)
            && Entries(m, im)[0].slot == 48 && !Entries(m, im)[0].handled
  {
    hide Load64, UnhandledImage;
    WordsOfUnhandled();
  }

  /** The first step leaves the word alone, and the second shifts it all the same. */
  lemma UnhandledSlotIsShifted()
    ensures var m, im := UnhandledImage(), Image(48, 0, 1, 24, 1);
            && WellFormed(m, im) && !Entries(m, im)[0].handled
            && Load64(Once(m, Entries(m, im), KERNEL_VA_BASE), 48) == 7
            && Load64(Shifted(Once(m, Entries(m, im), 48), Entries(m, im), 48), 48) == KERNEL_VA_BASE - 41
  {
    hide Load64, Once, Shifted, UnhandledImage, Entries, TablesFit, SlotsApart, SlotsMiss;
    var m, im := UnhandledImage(), Image(48, 0, 1, 24, 1);
    UnhandledEntries();
    SlotAfter(m, Entries(m, im), 48, 0);
    SlotAfter(m, Entries(m, im), KERNEL_VA_BASE, 0);
  }
}
