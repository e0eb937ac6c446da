/** Virtual addresses and the translation table descriptors of defines.h: 4 KB granule,
    48-bit addresses, as in section D8.3 of the Arm Architecture Reference Manual (DDI 0487). */
module Descriptors {
  import opened Arithmetic
  import opened Bits

  // ----- virtual addresses

  function OffsetL0(va: nat): (r: nat) ensures r < 512 { va / 0x80_0000_0000 % 512 }
  function OffsetL1(va: nat): (r: nat) ensures r < 512 { va / 0x4000_0000 % 512 }
  function OffsetL2(va: nat): (r: nat) ensures r < 512 { va / 0x20_0000 % 512 }
  function OffsetL3(va: nat): (r: nat) ensures r < 512 { va / 0x1000 % 512 }

  /** The page a walk translates: bits 47 to 12. */
  function PageOf(va: nat): (p: nat)
    ensures p < 0x10_0000_0000
  {
    va / 0x1000 % 0x10_0000_0000
  }

  /** The four table indices are the digits of the page number in base 512. */
  lemma PageDigits(va: nat)
    ensures var p := PageOf(va);
            && OffsetL0(va) == p / 0x800_0000 && OffsetL1(va) == p / 0x4_0000 % 512
            && OffsetL2(va) == p / 512 % 512 && OffsetL3(va) == p % 512
  {
    var v := va / 0x1000;
    Digits(va, 0x1000, 0x800_0000);
    Digits(v, 0x800_0000, 512);
    Digits(va, 0x1000, 0x4_0000);
    Digits(v, 0x4_0000, 0x4_0000);
    Digits(v / 0x4_0000, 512, 512);
    Digits(va, 0x1000, 512);
    Digits(v, 512, 0x800_0000);
    Digits(v / 512, 512, 0x4_0000);
  }

  // ----- descriptors

  /** `MASK_VA_36_TABLE_ADDRESS`, and `BD_OA_l3_get`: bits 47 to 12 as a number. */
  function Field36(address: nat): (r: nat)
    ensures r < 0x10_0000_0000
    ensures address < 0x1_0000_0000_0000 ==> r == address / 0x1000
  {
    address / 0x1000 % 0x10_0000_0000
  }

  /** The bit-field view that `TABLE_FORMAT_4KB_48_OA` and the `l3` member of
      `block_page_descriptor_4KB_48_OA` share: the two type bits, ten low attributes, the
      36-bit address of a table or page, and what is above it. */
  datatype Descriptor = Descriptor(valid: bool, link: bool, lower: nat, address: nat, upper: nat) {

    /** The twelve low bits of the `reg` view. */
    function Low(): nat {
      (if valid then 1 else 0) + (if link then 2 else 0) + 4 * lower
    }

    function Reg(): nat {
      Low() + 0x1000 * address + 0x1_0000_0000_0000 * upper
    }
  }

  const ZERO: Descriptor := Descriptor(false, false, 0, 0, 0)

  function FromReg(w: nat): Descriptor {
    Descriptor(w % 2 == 1, w / 2 % 2 == 1, w % 0x1000 / 4, Field36(w), w / 0x1_0000_0000_0000)
  }

  /** The three parts of a word: low attributes, address, high attributes. */
  lemma Parts(low: nat, page: nat, high: nat)
    requires low < 0x1000 && page < 0x10_0000_0000
    ensures var d := low + page * 0x1000 + high * 0x1_0000_0000_0000;
            && d % 0x1000 == low && Field36(d) == page && d / 0x1_0000_0000_0000 == high
  {
    var d := low + page * 0x1000 + high * 0x1_0000_0000_0000;
    DivUnique(d, 0x1000, page + high * 0x10_0000_0000, low);
    DivUnique(page + high * 0x10_0000_0000, 0x10_0000_0000, high, page);
    DivUnique(d, 0x1_0000_0000_0000, high, low + page * 0x1000);
  }

  /** Both views of the union hold the same bits. */
  lemma ViewsAgree(d: Descriptor, w: nat)
    requires d.lower < 0x400 && d.address < 0x10_0000_0000
    ensures FromReg(d.Reg()) == d
    ensures FromReg(w).Low() == w % 0x1000
  {
    Parts(d.Low(), d.address, d.upper);
    LowViews(d.Reg());
    LowViews(w);
  }

  lemma LowViews(w: nat)
    ensures w % 2 == w % 0x1000 % 2 && w / 2 % 2 == w % 0x1000 / 2 % 2
    ensures FromReg(w).Low() == w % 0x1000
  {
    Digits(w, 2, 0x800);
    Digits(w / 2, 2, 0x400);
    Digits(w % 0x1000, 2, 2);
  }

  const PT_PAGE: nat := 3
  const PT_KERNEL: nat := 0
  const PT_USER: nat := 0x40
  const PT_RW: nat := 0
  const PT_RO: nat := 0x80
  const PT_ISH: nat := 0x300
  const PT_AF: nat := 0x400
  const PT_MEM: nat := 0
  const PT_DEV: nat := 4
  const PT_NX: nat := 0x40_0000_0000_0000

  // Reading, writing and executing are the bits 1, 2 and 4.
  const PROT_W: nat := 2
  const PROT_RW: nat := 3
  const PROT_RWX: nat := 7

  /** A `uint64_t` put into an `int`: only the low half is left. */
  function ToInt(w: nat): nat { w % 0x1_0000_0000 }

  /** `perm_to_pt`: the execute-never bit does not survive in the `int` result. */
  function PermToPt(prot: nat): nat {
    var pt := ToInt(BitOr(0, if Bit(prot, 0x4) then 0 else PT_NX));
    if prot == PROT_RW || prot == PROT_RWX || Bit(prot, 0x2) then BitOr(pt, PT_RW)
    else if Bit(prot, 0x1) then BitOr(pt, PT_RO)
    else pt
  }

  /** Reading is allowed and writing is not. */
  predicate ReadOnly(prot: nat) { Bit(prot, 1) && !Bit(prot, 2) }

  /** What `page_table_map` adds to the output page in the last level; the constants of each
      group have no bit in common. */
  function LeafFlags(flags: nat, isDev: bool): nat {
    BitOr(BitOr(PT_PAGE + PT_ISH, flags), if isDev then PT_NX + PT_DEV + PT_AF else PT_MEM + PT_AF)
  }

  /** The entry `page_table_map` stores: fields set in one view, flags or-ed in the other. */
  function LeafEntry(pa: nat, flags: nat, isDev: bool): Descriptor {
    var entry := ZERO.(valid := true, link := false, address := Field36(pa));
    FromReg(BitOr(entry.Reg(), LeafFlags(flags, isDev)))
  }

  // ----- what the hardware makes of a last-level word

  datatype Attributes = Attributes(
    el0: bool, readOnly: bool, device: bool, nonCacheable: bool, innerShareable: bool, executeNever: bool)

  datatype Translation = Fault | Mapped(frame: nat, attributes: Attributes)

  /** AP[1] and AP[2], AttrIndx (one is device memory and two non-cacheable in MAIR_EL1 as
      `configure_translation` sets it), SH and UXN. */
  function AttributesOf(d: Descriptor): Attributes {
    var low := d.Low();
    Attributes(Bit(low, 0x40), Bit(low, 0x80), Bit(low, 4), Bit(low, 8),
               Bit(low, 0x100) && Bit(low, 0x200), Bit(d.upper, 0x40))
  }

  predicate Accessed(d: Descriptor) { Bit(d.Low(), 0x400) }

  /** A page descriptor needs its two type bits and the access flag. */
  function Decode(d: Descriptor): Translation {
    if d.valid && d.link && Accessed(d) then Mapped(d.address, AttributesOf(d)) else Fault
  }

  /** Bit `p` of a word in the bits below 12. */
  lemma LowBit(w: nat, p: nat, q: nat)
    requires p > 0 && p * q == 0x1000 && q % 2 == 0
    ensures w % 0x1000 / p % 2 == w / p % 2
  {
    Digits(w, p, q);
    DivUnique(w % 0x1000, p, w / p % q, w % p);
    Digits(w / p, 2, q / 2);
  }

  /** A last-level word of the register: it needs the bits 0, 1 and 10, and gives bits 47 to 12 as the page; EL0
      and read-only are bits 6 and 7, the memory type bits 2 and 3, inner shareable the bits 8 and 9 together,
      execute-never bit 54. */
  lemma DecodeRegister(w: nat)
    requires w < U64
    ensures Decode(FromReg(w))
         == if w % 4 == 3 && w / 0x400 % 2 == 1
            then Mapped(w / 0x1000 % 0x10_0000_0000,
                        Attributes(w / 0x40 % 2 == 1, w / 0x80 % 2 == 1, w / 4 % 2 == 1, w / 8 % 2 == 1,
                                   w / 0x100 % 2 == 1 && w / 0x200 % 2 == 1, w / 0x40_0000_0000_0000 % 2 == 1))
            else Fault
  {
    RegisterParts(w);
    hide FromReg, Field36;
    AttributesAreBits(FromReg(w), w);
    TypeBits(w);
  }

  lemma RegisterParts(w: nat)
    ensures var d := FromReg(w);
            && d.Low() == w % 0x1000 && d.address == w / 0x1000 % 0x10_0000_0000 && d.upper == w / 0x1_0000_0000_0000
            && d.valid == (w % 2 == 1) && d.link == (w / 2 % 2 == 1)
  {
    LowViews(w);
  }

  lemma AttributesAreBits(d: Descriptor, w: nat)
    requires d.Low() == w % 0x1000 && d.upper == w / 0x1_0000_0000_0000
    ensures Accessed(d) <==> w / 0x400 % 2 == 1
    ensures AttributesOf(d)
         == Attributes(w / 0x40 % 2 == 1, w / 0x80 % 2 == 1, w / 4 % 2 == 1, w / 8 % 2 == 1,
                       w / 0x100 % 2 == 1 && w / 0x200 % 2 == 1, w / 0x40_0000_0000_0000 % 2 == 1)
  {
    LowBit(w, 4, 0x400);
    LowBit(w, 8, 0x200);
    LowBit(w, 0x40, 0x40);
    LowBit(w, 0x80, 0x20);
    LowBit(w, 0x100, 0x10);
    LowBit(w, 0x200, 8);
    LowBit(w, 0x400, 4);
    ExecuteBit(w);
  }

  lemma ExecuteBit(w: nat)
    ensures w / 0x1_0000_0000_0000 / 0x40 == w / 0x40_0000_0000_0000
  {
    Digits(w, 0x1_0000_0000_0000, 0x40);
  }

  /** Or-ing flags into a word with an output page leaves the page alone. */
  lemma JoinParts(low: nat, flags: nat, page: nat, high: nat)
    requires low < 0x1000 && flags < 0x1000 && page < 0x10_0000_0000
    ensures var d := BitOr(low + 0x1000 * page, flags + 0x1_0000_0000_0000 * high);
            && d % 0x1000 == BitOr(low, flags)
            && Field36(d) == page
            && d / 0x1_0000_0000_0000 == high
  {
    Or12(low, flags, page, 0x10_0000_0000 * high);
    Or36(page, high);
    Parts(BitOr(low, flags), page, high);
  }

  /** The low flags of a leaf. */
  function LowFlags(flags: nat, isDev: bool): nat {
    BitOr(BitOr(0x303, flags), if isDev then 0x404 else 0x400)
  }

  lemma FlagParts(low: nat, more: nat, high: nat)
    requires low < 0x1000 && more < 0x1000
    ensures BitOr(low, more) < 0x1000
    ensures BitOr(low, more + 0x1000 * high) == BitOr(low, more) + 0x1000 * high
  {
    Or12(low, more, 0, high);
  }

  /** The flags split into a low part and, for devices, the execute-never bit. */
  lemma LowFlagsFit(flags: nat, isDev: bool)
    requires flags < 0x1000
    ensures LowFlags(flags, isDev) < 0x1000
    ensures LeafFlags(flags, isDev) == LowFlags(flags, isDev) + 0x1_0000_0000_0000 * (if isDev then 0x40 else 0)
  {
    FlagParts(0x303, flags, 0);
    if isDev {
      FlagParts(BitOr(0x303, flags), 0x404, 0x400_0000_0000);
    } else {
      FlagParts(BitOr(0x303, flags), 0x400, 0);
    }
  }

  lemma FromParts(w: nat, low: nat, page: nat, high: nat)
    requires w % 0x1000 == low && Field36(w) == page && w / 0x1_0000_0000_0000 == high
    ensures FromReg(w).Low() == low && FromReg(w).address == page && FromReg(w).upper == high
  {
    LowViews(w);
  }

  lemma PartsOf(page: nat, low: nat, high: nat)
    requires page < 0x10_0000_0000 && low < 0x1000
    ensures var d := FromReg(BitOr(ZERO.(valid := true, address := page).Reg(), low + 0x1_0000_0000_0000 * high));
            d.Low() == BitOr(1, low) && d.address == page && d.upper == high
  {
    JoinParts(1, low, page, high);
    FromParts(BitOr(1 + 0x1000 * page, low + 0x1_0000_0000_0000 * high), BitOr(1, low), page, high);
  }

  /** Low attributes, output page and high attributes of a leaf keep out of each other's way. */
  lemma LeafParts(pa: nat, flags: nat, isDev: bool)
    requires flags < 0x1000
    ensures var d := LeafEntry(pa, flags, isDev);
            && d.Low() == BitOr(1, LowFlags(flags, isDev))
            && d.address == Field36(pa)
            && d.upper == if isDev then 0x40 else 0
  {
    LowFlagsFit(flags, isDev);
    PartsOf(Field36(pa), LowFlags(flags, isDev), if isDev then 0x40 else 0);
  }

  lemma SmallPowers()
    ensures Pow2(0) == 1 && Pow2(1) == 2 && Pow2(2) == 4 && Pow2(3) == 8
    ensures Pow2(6) == 0x40 && Pow2(7) == 0x80 && Pow2(8) == 0x100 && Pow2(9) == 0x200 && Pow2(10) == 0x400
  {
  }

  /** Each low bit of a leaf comes from the type, the fixed flags, or the flags asked for. */
  lemma LeafBit(flags: nat, isDev: bool, k: nat, p: nat, fixed: bool)
    requires p == Pow2(k)
    requires fixed == (Bit(1, p) || Bit(0x303, p) || Bit(if isDev then 0x404 else 0x400, p))
    ensures Bit(BitOr(1, LowFlags(flags, isDev)), p) == (fixed || Bit(flags, p))
  {
    var add := if isDev then 0x404 else 0x400;
    OrBit(1, BitOr(BitOr(0x303, flags), add), k, p);
    OrBit(BitOr(0x303, flags), add, k, p);
    OrBit(0x303, flags, k, p);
  }

  /** The type bits, both shareability bits and the access flag are always set. */
  lemma FixedBits(flags: nat, isDev: bool)
    ensures var w := BitOr(1, LowFlags(flags, isDev));
            Bit(w, 1) && Bit(w, 2) && Bit(w, 0x100) && Bit(w, 0x200) && Bit(w, 0x400)
  {
    SmallPowers();
    LeafBit(flags, isDev, 0, 1, true);
    LeafBit(flags, isDev, 1, 2, true);
    LeafBit(flags, isDev, 8, 0x100, true);
    LeafBit(flags, isDev, 9, 0x200, true);
    LeafBit(flags, isDev, 10, 0x400, true);
  }

  /** The others are as asked for, with the memory type of devices. */
  lemma ChosenBits(flags: nat, isDev: bool)
    ensures var w := BitOr(1, LowFlags(flags, isDev));
            && Bit(w, 4) == (Bit(flags, 4) || isDev) && Bit(w, 8) == Bit(flags, 8)
            && Bit(w, 0x40) == Bit(flags, 0x40) && Bit(w, 0x80) == Bit(flags, 0x80)
  {
    SmallPowers();
    LeafBit(flags, isDev, 2, 4, isDev);
    LeafBit(flags, isDev, 3, 8, false);
    LeafBit(flags, isDev, 6, 0x40, false);
    LeafBit(flags, isDev, 7, 0x80, false);
  }

  lemma TypeBits(d: nat)
    ensures d % 0x1000 % 4 == d % 4
    ensures Bit(d, 1) && Bit(d, 2) <==> d % 4 == 3
  {
    Digits(d, 4, 0x400);
    Digits(d, 2, 2);
  }

  lemma DecodeParts(d: Descriptor)
    requires var low := d.Low();
             Bit(low, 1) && Bit(low, 2) && Bit(low, 0x100) && Bit(low, 0x200) && Bit(low, 0x400)
    ensures d.valid && d.link
    ensures Decode(d) == Mapped(d.address, Attributes(Bit(d.Low(), 0x40), Bit(d.Low(), 0x80), Bit(d.Low(), 4),
                                                      Bit(d.Low(), 8), true, Bit(d.upper, 0x40)))
  {
    TypeBits(d.Low());
  }

  /** The walker reads back from a leaf the page and the attributes that were asked for. */
  lemma LeafDecodes(pa: nat, flags: nat, isDev: bool)
    requires flags < 0x1000
    ensures Decode(LeafEntry(pa, flags, isDev))
         == Mapped(Field36(pa), Attributes(Bit(flags, 0x40), Bit(flags, 0x80), Bit(flags, 4) || isDev,
                                           Bit(flags, 8), true, isDev))
  {
    LeafParts(pa, flags, isDev);
    AttributesAre(LeafEntry(pa, flags, isDev), flags, isDev);
  }

  lemma AttributesAre(d: Descriptor, flags: nat, isDev: bool)
    requires d.Low() == BitOr(1, LowFlags(flags, isDev)) && d.upper == if isDev then 0x40 else 0
    ensures Decode(d) == Mapped(d.address, Attributes(Bit(flags, 0x40), Bit(flags, 0x80), Bit(flags, 4) || isDev,
                                                      Bit(flags, 8), true, isDev))
  {
    FixedBits(flags, isDev);
    ChosenBits(flags, isDev);
    DecodeParts(d);
  }

  /** The execute-never bit is lost; what is left is the read-only bit. */
  lemma PermIs(prot: nat)
    ensures PermToPt(prot) == if ReadOnly(prot) then PT_RO else 0
  {
    assert ToInt(if Bit(prot, 4) then 0 else PT_NX) == 0;
    assert prot == PROT_RW || prot == PROT_RWX ==> Bit(prot, 2);
  }

  lemma BothFlags()
    ensures BitOr(0x80, 0x40) == 0xC0
  {
    assert Pow2(7) == 0x80;
    OrSplit(7, 0, 0x40, 1, 0);
  }

  lemma FlagBits()
    ensures Bit(0xC0, 0x40) && Bit(0xC0, 0x80) && !Bit(0xC0, 4) && !Bit(0xC0, 8)
    ensures Bit(0x40, 0x40) && !Bit(0x40, 0x80) && !Bit(0x40, 4) && !Bit(0x40, 8)
    ensures !Bit(0x80, 0x40) && Bit(0x80, 0x80) && !Bit(0x80, 4) && !Bit(0x80, 8)
  {
  }

  /** Read-only is asked for by readable without writable, whatever else is asked for. */
  lemma PermBits(prot: nat, mode: nat)
    requires mode == PT_KERNEL || mode == PT_USER
    ensures var flags := BitOr(PermToPt(prot), mode);
            && flags < 0x1000
            && Bit(flags, 0x40) == (mode == PT_USER)
            && Bit(flags, 0x80) == ReadOnly(prot)
            && !Bit(flags, 4) && !Bit(flags, 8)
  {
    PermIs(prot);
    BothFlags();
    FlagBits();
    var pt := PermToPt(prot);
    assert BitOr(pt, mode) == if pt == 0 then mode else if mode == 0 then pt else 0xC0;
  }

  /** `page_table_map_device` asks for execute-never too, and loses it in the same way. */
  lemma DeviceFlags(prot: nat)
    ensures BitOr(PermToPt(prot), ToInt(PT_KERNEL + PT_NX)) == BitOr(PermToPt(prot), PT_KERNEL)
  {
    assert 0x40_0000_0000_0000 % 0x1_0000_0000 == 0;
  }
}
