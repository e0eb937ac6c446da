/** `create_new_process` of execve.c for every argument list and environment, and what becomes of
    the arguments when the environment is null: its count is then the error value, which puts
    the strings 22 words too low, where they meet the pointers and the stored count. */
module NewProcess {
  import opened Bits
  import opened ByteMemory
  import opened ProcessStack
  import opened Wrappers

  // ----- bytes written one piece after the other

  datatype Piece = Piece(at: nat, bytes: seq<byte>) {
    predicate Covers(j: nat) { at <= j < at + |bytes| }
    function Byte(j: nat): byte requires Covers(j) { bytes[j - at] }
    predicate Fits(size: nat) { at + |bytes| <= size }
  }

  ghost predicate AllFit(ps: seq<Piece>, size: nat) { forall i | 0 <= i < |ps| :: ps[i].Fits(size) }

  function Put(m: seq<byte>, p: Piece): (r: seq<byte>)
    requires p.Fits(|m|)
    ensures |r| == |m|
    ensures forall j: nat | j < |m| :: r[j] == if p.Covers(j) then p.Byte(j) else m[j]
  {
    m[..p.at] + p.bytes + m[p.at + |p.bytes|..]
  }

  ghost function Written(m: seq<byte>, ps: seq<Piece>): (r: seq<byte>)
    requires AllFit(ps, |m|)
    ensures |r| == |m|
  {
    if ps == [] then m else Put(Written(m, ps[..|ps| - 1]), ps[|ps| - 1])
  }

  ghost predicate Holds(m: seq<byte>, p: Piece) {
    p.Fits(|m|) && forall j: nat | p.Covers(j) :: m[j] == p.Byte(j)
  }

  ghost predicate HoldsAll(m: seq<byte>, ps: seq<Piece>) { forall i | 0 <= i < |ps| :: Holds(m, ps[i]) }

  /** Where two pieces meet they ask for the same bytes. */
  ghost predicate Agree(p: Piece, q: Piece) {
    forall j: nat | p.Covers(j) && q.Covers(j) :: p.Byte(j) == q.Byte(j)
  }

  ghost predicate Compatible(ps: seq<Piece>) {
    forall i, k | 0 <= i < k < |ps| :: Agree(ps[i], ps[k])
  }

  lemma PutKeeps(m: seq<byte>, p: Piece, q: Piece)
    requires q.Fits(|m|) && Holds(m, p) && Agree(p, q)
    ensures Holds(Put(m, q), p)
  {
  }

  lemma {:induction false} CompatibleHold(m: seq<byte>, ps: seq<Piece>)
    requires AllFit(ps, |m|) && Compatible(ps)
    ensures HoldsAll(Written(m, ps), ps)
  {
    if ps != [] {
      hide Holds, Agree;
      var n := |ps| - 1;
      CompatibleHold(m, ps[..n]);
      forall i | 0 <= i < n ensures Holds(Written(m, ps), ps[i]) {
        assert Holds(Written(m, ps[..n]), ps[..n][i]);
        PutKeeps(Written(m, ps[..n]), ps[i], ps[n]);
      }
      LastHolds(Written(m, ps[..n]), ps[n]);
    }
  }

  lemma LastHolds(m: seq<byte>, p: Piece)
    requires p.Fits(|m|)
    ensures Holds(Put(m, p), p)
  {
  }

  lemma BothHoldAgree(m: seq<byte>, p: Piece, q: Piece)
    requires Holds(m, p) && Holds(m, q)
    ensures Agree(p, q)
  {
  }

  /** All pieces are there in the end exactly if they agree wherever two of them meet. */
  lemma AllHoldIff(m: seq<byte>, ps: seq<Piece>)
    requires AllFit(ps, |m|)
    ensures HoldsAll(Written(m, ps), ps) <==> Compatible(ps)
  {
    if Compatible(ps) {
      CompatibleHold(m, ps);
    }
    if HoldsAll(Written(m, ps), ps) {
      forall i, k | 0 <= i < k < |ps| ensures Agree(ps[i], ps[k]) {
        BothHoldAgree(Written(m, ps), ps[i], ps[k]);
      }
    }
  }

  // ----- the stack under a null environment

  function WordAt(at: nat, w: nat): Piece { Piece(at, Bytes(w, 8)) }

  function StringAt(at: nat, s: CString): Piece { Piece(at, s + [0]) }

  /** What the loop over the arguments writes in its first `n` turns. */
  function ArgumentPieces(args: seq<CString>, slots: nat, text: nat, n: nat): (ps: seq<Piece>)
    requires n <= |args|
    ensures |ps| == 2 * n
  {
    if n == 0 then []
    else
      var at := text + TextSize(args, n - 1);
      ArgumentPieces(args, slots, text, n - 1) + [WordAt(slots + 8 * (n - 1), at), StringAt(at, args[n - 1])]
  }

  lemma {:induction false} PieceIs(args: seq<CString>, slots: nat, text: nat, n: nat, i: nat)
    requires i < n <= |args|
    ensures ArgumentPieces(args, slots, text, n)[2 * i] == WordAt(slots + 8 * i, text + TextSize(args, i))
    ensures ArgumentPieces(args, slots, text, n)[2 * i + 1] == StringAt(text + TextSize(args, i), args[i])
  {
    hide WordAt, StringAt, TextSize;
    if i < n - 1 {
      PieceIs(args, slots, text, n - 1, i);
    }
  }

  /** All that is written: pointers and strings, two null pointers, and the count below them. */
  function NullPieces(args: seq<CString>, sp: nat, text: nat): seq<Piece>
    requires sp >= 8
  {
    ArgumentPieces(args, sp, text, |args|)
    + [WordAt(sp + 8 * |args|, 0), WordAt(sp + 8 * (|args| + 1), 0), Piece(sp - 8, Bytes(|args|, 4))]
  }

  /** The layout that the code means to leave: the arguments with their pointers, an empty
      environment, and the count. */
  ghost predicate Intact(mem: seq<byte>, args: seq<CString>, sp: nat, text: nat) {
    && HoldsArray(mem, sp, text, args) && HoldsWord(mem, sp + 8 * (|args| + 1), 0)
    && 8 <= sp <= |mem| && mem[sp - 8..sp - 4] == Bytes(|args|, 4)
  }

  lemma SliceHolds(mem: seq<byte>, p: Piece)
    ensures Holds(mem, p) <==> p.Fits(|mem|) && mem[p.at..p.at + |p.bytes|] == p.bytes
  {
    if p.Fits(|mem|) {
      var slice := mem[p.at..p.at + |p.bytes|];
      assert forall j: nat | p.Covers(j) :: mem[j] == slice[j - p.at];
      if Holds(mem, p) {
        forall k: nat | k < |p.bytes| ensures slice[k] == p.bytes[k] {
          assert p.Covers(p.at + k);
        }
      }
    }
  }

  lemma WordHolds(mem: seq<byte>, at: nat, w: nat)
    ensures Holds(mem, WordAt(at, w)) <==> HoldsWord(mem, at, w)
  {
    hide Holds;
    SliceHolds(mem, WordAt(at, w));
  }

  lemma StringHolds(mem: seq<byte>, at: nat, s: CString)
    ensures Holds(mem, StringAt(at, s)) <==> HoldsString(mem, at, s)
  {
    hide Holds;
    SliceHolds(mem, StringAt(at, s));
    if at + |s| < |mem| {
      var slice := mem[at..at + (|s| + 1)];
      assert slice[..|s|] == mem[at..at + |s|] && slice[|s|] == mem[at + |s|];
      assert slice == slice[..|s|] + [slice[|s|]] && (s + [0])[..|s|] == s;
    }
  }

  lemma ArgumentsHold(mem: seq<byte>, args: seq<CString>, slots: nat, text: nat)
    ensures HoldsAll(mem, ArgumentPieces(args, slots, text, |args|)) <==> HoldsStrings(mem, slots, text, args, |args|)
  {
    hide Holds, HoldsWord, HoldsString, ArgumentPieces, TextSize, WordAt, StringAt;
    var ps := ArgumentPieces(args, slots, text, |args|);
    forall i | 0 <= i < |args|
      ensures Holds(mem, ps[2 * i]) <==> HoldsWord(mem, slots + 8 * i, text + TextSize(args, i))
      ensures Holds(mem, ps[2 * i + 1]) <==> HoldsString(mem, text + TextSize(args, i), args[i])
    {
      PieceIs(args, slots, text, |args|, i);
      WordHolds(mem, slots + 8 * i, text + TextSize(args, i));
      StringHolds(mem, text + TextSize(args, i), args[i]);
    }
    if HoldsStrings(mem, slots, text, args, |args|) {
      forall k | 0 <= k < |ps| ensures Holds(mem, ps[k]) {
        var i := k / 2;
        assert HoldsWord(mem, slots + 8 * i, text + TextSize(args, i))
               && HoldsString(mem, text + TextSize(args, i), args[i]);
        assert k == 2 * i || k == 2 * i + 1;
      }
    }
  }

  /** The layout is intact exactly if every piece is there. */
  lemma IntactIsAll(mem: seq<byte>, args: seq<CString>, sp: nat, text: nat)
    requires 8 <= sp <= |mem|
    ensures HoldsAll(mem, NullPieces(args, sp, text)) <==> Intact(mem, args, sp, text)
  {
    hide Holds, HoldsWord, HoldsStrings, ArgumentPieces, WordAt;
    var ps, front := NullPieces(args, sp, text), ArgumentPieces(args, sp, text, |args|);
    ArgumentsHold(mem, args, sp, text);
    WordHolds(mem, sp + 8 * |args|, 0);
    WordHolds(mem, sp + 8 * (|args| + 1), 0);
    SliceHolds(mem, Piece(sp - 8, Bytes(|args|, 4)));
    var n := |front|;
    assert forall i | 0 <= i < n :: ps[i] == front[i];
    assert ps[n] == WordAt(sp + 8 * |args|, 0) && ps[n + 1] == WordAt(sp + 8 * (|args| + 1), 0);
    assert ps[n + 2] == Piece(sp - 8, Bytes(|args|, 4));
  }

  /** Pieces that end below the next one agree with it. */
  lemma ApartAgree(p: Piece, q: Piece)
    requires p.at + |p.bytes| <= q.at || q.at + |q.bytes| <= p.at
    ensures Agree(p, q)
  {
  }

  lemma FrontIs(args: seq<CString>, sp: nat, text: nat, i: nat)
    requires sp >= 8 && i < |args|
    ensures var ps := NullPieces(args, sp, text);
            && 2 * i + 1 < |ps| && ps[2 * i] == WordAt(sp + 8 * i, text + TextSize(args, i))
            && ps[2 * i + 1] == StringAt(text + TextSize(args, i), args[i])
  {
    hide ArgumentPieces, TextSize, Bytes, WordAt, StringAt;
    PieceIs(args, sp, text, |args|, i);
  }

  lemma RestIs(args: seq<CString>, sp: nat, text: nat)
    requires sp >= 8
    ensures var ps, n := NullPieces(args, sp, text), |args|;
            && |ps| == 2 * n + 3 && ps[2 * n] == WordAt(sp + 8 * n, 0)
            && ps[2 * n + 1] == WordAt(sp + 8 * (n + 1), 0) && ps[2 * n + 2] == Piece(sp - 8, Bytes(n, 4))
  {
    hide ArgumentPieces, TextSize, Bytes, WordAt, StringAt;
  }

  lemma FrontSpans(args: seq<CString>, sp: nat, text: nat, i: nat)
    requires sp >= 8 && i < |args|
    ensures var ps := NullPieces(args, sp, text);
            && 2 * i + 1 < |ps| && ps[2 * i].at == sp + 8 * i && |ps[2 * i].bytes| == 8
            && var p := ps[2 * i + 1];
               && p.at == text + TextSize(args, i) && p.at + |p.bytes| == text + TextSize(args, i + 1)
               && p.at + |p.bytes| <= text + TextSize(args, |args|)
  {
    hide NullPieces, TextSize;
    FrontIs(args, sp, text, i);
    TextGrows(args, i, |args|);
    NextText(args, i);
  }

  lemma NextText(args: seq<CString>, i: nat)
    requires i < |args|
    ensures TextSize(args, i + 1) == TextSize(args, i) + |args[i]| + 1
  {
  }

  /** Where piece `k` lies: word `i` or string `i` of the list, one of the two null pointers, or
      the count. */
  lemma Spans(args: seq<CString>, sp: nat, text: nat, k: nat) returns (i: nat)
    requires sp >= 8 && k < |NullPieces(args, sp, text)|
    ensures var p, n := NullPieces(args, sp, text)[k], |args|;
            || (i < n && k == 2 * i && p.at == sp + 8 * i && |p.bytes| == 8)
            || (i < n && k == 2 * i + 1 && p.at == text + TextSize(args, i)
                && p.at + |p.bytes| == text + TextSize(args, i + 1) <= text + TextSize(args, n))
            || (n <= i <= n + 1 && k == n + i && p.at == sp + 8 * i && |p.bytes| == 8)
            || (i == n + 2 && k == n + i && p.at == sp - 8 && |p.bytes| == 4)
  {
    hide NullPieces, TextSize;
    RestIs(args, sp, text);
    if k < 2 * |args| {
      i := k / 2;
      FrontSpans(args, sp, text, i);
      assert k == 2 * i || k == 2 * i + 1;
    } else {
      i := k - |args|;
    }
  }

  lemma EarlierText(args: seq<CString>, i: nat, k: nat)
    requires i < k < |args|
    ensures TextSize(args, i + 1) <= TextSize(args, k)
  {
    TextGrows(args, i, k);
  }

  /** Strings that end below the count are out of the way of everything. */
  lemma ShortTextIsCompatible(args: seq<CString>, sp: nat, text: nat)
    requires sp >= 8 && text + TextSize(args, |args|) <= sp - 8
    ensures Compatible(NullPieces(args, sp, text))
  {
    hide NullPieces, TextSize, Agree;
    var ps := NullPieces(args, sp, text);
    forall i, k | 0 <= i < k < |ps| ensures Agree(ps[i], ps[k]) {
      var a := Spans(args, sp, text, i);
      var b := Spans(args, sp, text, k);
      if a < b < |args| {
        EarlierText(args, a, b);
      }
      ApartAgree(ps[i], ps[k]);
    }
  }

  /** A last string that ends with the lowest byte of the count loses its zero to it. */
  lemma LostZero(args: seq<CString>, sp: nat, text: nat)
    requires sp >= 8 && 0 < |args| < 256 && text + TextSize(args, |args|) == sp - 7
    ensures !Compatible(NullPieces(args, sp, text))
  {
    hide Bytes, NullPieces, TextSize, StringAt, Agree, Compatible;
    var n := |args|;
    var at := text + TextSize(args, n - 1);
    NextText(args, n - 1);
    ZeroAtEnd(at, args[n - 1]);
    LowByte(sp - 8, n);
    CoveredTwice(StringAt(at, args[n - 1]), Piece(sp - 8, Bytes(n, 4)), sp - 8);
    FrontIs(args, sp, text, n - 1);
    RestIs(args, sp, text);
    MeetBadly(NullPieces(args, sp, text), 2 * (n - 1) + 1, 2 * n + 2);
  }

  lemma ZeroAtEnd(at: nat, s: CString)
    ensures StringAt(at, s).Covers(at + |s|) && StringAt(at, s).Byte(at + |s|) == 0
  {
  }

  lemma MeetBadly(ps: seq<Piece>, i: nat, k: nat)
    requires i < k < |ps| && !Agree(ps[i], ps[k])
    ensures !Compatible(ps)
  {
  }

  lemma CoveredTwice(p: Piece, q: Piece, j: nat)
    requires p.Covers(j) && q.Covers(j) && p.Byte(j) != q.Byte(j)
    ensures !Agree(p, q)
  {
  }

  lemma LowByte(at: nat, n: nat)
    requires 0 < n < 256
    ensures Piece(at, Bytes(n, 4)).Covers(at) && Piece(at, Bytes(n, 4)).Byte(at) == n
  {
  }

  /** What is read at a pointer is a string in memory, if memory goes on behind it. */
  lemma {:induction false} ReadIsHeld(mem: seq<byte>, at: nat, s: CString)
    requires ReadString(mem, at) == s && at + |s| < |mem|
    ensures HoldsString(mem, at, s)
    decreases |s|
  {
    if s != [] {
      ReadIsHeld(mem, at + 1, s[1..]);
      assert mem[at..at + |s|] == [mem[at]] + mem[at + 1..at + 1 + |s[1..]|];
    } else {
      assert mem[at..at] == [];
    }
  }

  /** If the pointers are in place, reading back the arguments means that their strings are. */
  lemma {:induction false} ReadArgumentsAreHeld(mem: seq<byte>, args: seq<CString>, sp: nat, text: nat, i: nat)
    requires i <= |args| && 0 < text && text + TextSize(args, |args|) <= |mem| <= U64
    requires forall k | 0 <= k < |args| :: HoldsWord(mem, sp + 8 * k, text + TextSize(args, k))
    requires ReadStrings(mem, sp + 8 * i) == args[i..]
    ensures forall k | i <= k < |args| :: HoldsString(mem, text + TextSize(args, k), args[k])
    decreases |args| - i
  {
    hide HoldsWord, HoldsString, Load64, ReadString, TextSize;
    if i < |args| {
      var at := text + TextSize(args, i);
      TextGrows(args, i, |args|);
      WordReads(mem, sp + 8 * i, at);
      assert args[i..][0] == args[i] && args[i..][1..] == args[i + 1..];
      assert ReadStrings(mem, sp + 8 * i) == [ReadString(mem, at)] + ReadStrings(mem, sp + 8 * i + 8);
      ReadIsHeld(mem, at, args[i]);
      assert sp + 8 * i + 8 == sp + 8 * (i + 1);
      ReadArgumentsAreHeld(mem, args, sp, text, i + 1);
    }
  }

  /** A piece that agrees with all that are written after it is there in the end. */
  lemma {:induction false} PieceHolds(m: seq<byte>, ps: seq<Piece>, k: nat)
    requires AllFit(ps, |m|) && k < |ps| && forall i | k < i < |ps| :: Agree(ps[k], ps[i])
    ensures Holds(Written(m, ps), ps[k])
    decreases |ps|
  {
    hide Holds, Agree;
    var n := |ps| - 1;
    if k < n {
      assert ps[..n][k] == ps[k];
      PieceHolds(m, ps[..n], k);
      PutKeeps(Written(m, ps[..n]), ps[k], ps[n]);
    } else {
      LastHolds(Written(m, ps[..n]), ps[n]);
    }
  }

  ghost predicate RoomFor(size: nat, args: seq<CString>, sp: nat, text: nat) {
    && 8 <= sp && 0 < text && sp + 8 * (|args| + 2) <= size && text + TextSize(args, |args|) <= size <= U64
  }

  lemma PiecesFit(size: nat, args: seq<CString>, sp: nat, text: nat)
    requires RoomFor(size, args, sp, text)
    ensures AllFit(NullPieces(args, sp, text), size)
  {
    hide NullPieces, TextSize;
    var ps := NullPieces(args, sp, text);
    forall k | 0 <= k < |ps| ensures ps[k].Fits(size) {
      var _ := Spans(args, sp, text, k);
      assert |ps| == 2 * |args| + 3 by { RestIs(args, sp, text); }
    }
  }

  /** Memory after all writes. */
  ghost function AfterWrites(m: seq<byte>, args: seq<CString>, sp: nat, text: nat): (r: seq<byte>)
    requires RoomFor(|m|, args, sp, text)
    ensures |r| == |m|
  {
    PiecesFit(|m|, args, sp, text);
    Written(m, NullPieces(args, sp, text))
  }

  predicate IsPointer(args: seq<CString>, k: nat, i: nat) {
    (i < |args| && k == 2 * i) || (|args| <= i <= |args| + 2 && k == |args| + i)
  }

  /** Strings that end below the pointers are out of the way of a pointer, and so are the others. */
  lemma PointerAgrees(args: seq<CString>, sp: nat, text: nat, k: nat, i: nat, j: nat)
    requires sp >= 8 && text + TextSize(args, |args|) <= sp && IsPointer(args, k, i)
    requires k < j < |NullPieces(args, sp, text)|
    ensures Agree(NullPieces(args, sp, text)[k], NullPieces(args, sp, text)[j])
  {
    hide NullPieces, TextSize, Agree;
    RestIs(args, sp, text);
    var ps := NullPieces(args, sp, text);
    if i < |args| {
      FrontSpans(args, sp, text, i);
      assert ps[k].at == sp + 8 * i && |ps[k].bytes| == 8;
    } else {
      assert i <= |args| + 1;
      assert ps[k].at == sp + 8 * i && |ps[k].bytes| == 8;
    }
    var b := Spans(args, sp, text, j);
    ApartAgree(ps[k], ps[j]);
  }

  /** If the strings end below the pointers, the pointers are in place. */
  lemma PointersHold(m: seq<byte>, args: seq<CString>, sp: nat, text: nat, k: nat, i: nat)
    requires RoomFor(|m|, args, sp, text) && text + TextSize(args, |args|) <= sp && IsPointer(args, k, i)
    ensures k < |NullPieces(args, sp, text)| && Holds(AfterWrites(m, args, sp, text), NullPieces(args, sp, text)[k])
  {
    hide NullPieces, TextSize, Agree, Holds, Written;
    var ps := NullPieces(args, sp, text);
    RestIs(args, sp, text);
    PiecesFit(|m|, args, sp, text);
    forall j | k < j < |ps| ensures Agree(ps[k], ps[j]) {
      PointerAgrees(args, sp, text, k, i, j);
    }
    PieceHolds(m, ps, k);
  }

  /** One pointer. */
  lemma PointerHolds(m: seq<byte>, args: seq<CString>, sp: nat, text: nat, i: nat)
    requires RoomFor(|m|, args, sp, text) && text + TextSize(args, |args|) <= sp && i < |args|
    ensures HoldsWord(AfterWrites(m, args, sp, text), sp + 8 * i, text + TextSize(args, i))
  {
    hide TextSize, Holds, AfterWrites, HoldsWord, NullPieces, WordAt, Bytes;
    FrontIs(args, sp, text, i);
    PointersHold(m, args, sp, text, 2 * i, i);
    WordHolds(AfterWrites(m, args, sp, text), sp + 8 * i, text + TextSize(args, i));
  }

  lemma RestHolds(m: seq<byte>, args: seq<CString>, sp: nat, text: nat)
    requires RoomFor(|m|, args, sp, text) && text + TextSize(args, |args|) <= sp
    ensures var r, n := AfterWrites(m, args, sp, text), |args|;
            HoldsWord(r, sp + 8 * n, 0) && HoldsWord(r, sp + 8 * (n + 1), 0) && r[sp - 8..sp - 4] == Bytes(n, 4)
  {
    hide TextSize, Holds, AfterWrites, HoldsWord, NullPieces, WordAt, Bytes;
    var r, n := AfterWrites(m, args, sp, text), |args|;
    RestIs(args, sp, text);
    PointersHold(m, args, sp, text, 2 * n, n);
    PointersHold(m, args, sp, text, 2 * n + 1, n + 1);
    PointersHold(m, args, sp, text, 2 * n + 2, n + 2);
    WordHolds(r, sp + 8 * n, 0);
    WordHolds(r, sp + 8 * (n + 1), 0);
    SliceHolds(r, Piece(sp - 8, Bytes(n, 4)));
  }

  lemma IntactReads(mem: seq<byte>, args: seq<CString>, sp: nat, text: nat)
    requires Intact(mem, args, sp, text) && 0 < text && |mem| <= U64
    ensures ReadStrings(mem, sp) == args && ReadStrings(mem, sp + 8 * (|args| + 1)) == []
  {
    hide HoldsArray, HoldsWord;
    ReadsBack(mem, sp, text, args);
    WordReads(mem, sp + 8 * (|args| + 1), 0);
  }

  /** With the pointers in place, arguments that are read back were left intact. */
  lemma ReadBackIsIntact(m: seq<byte>, args: seq<CString>, sp: nat, text: nat)
    requires RoomFor(|m|, args, sp, text) && text + TextSize(args, |args|) <= sp
    requires ReadStrings(AfterWrites(m, args, sp, text), sp) == args
    ensures Intact(AfterWrites(m, args, sp, text), args, sp, text)
  {
    hide TextSize, Holds, AfterWrites, HoldsWord, HoldsString, ReadStrings, Bytes;
    var r := AfterWrites(m, args, sp, text);
    forall k | 0 <= k < |args| ensures HoldsWord(r, sp + 8 * k, text + TextSize(args, k)) {
      PointerHolds(m, args, sp, text, k);
    }
    RestHolds(m, args, sp, text);
    assert args[0..] == args && sp + 8 * 0 == sp;
    ReadArgumentsAreHeld(r, args, sp, text, 0);
  }

  lemma IntactIff(m: seq<byte>, args: seq<CString>, sp: nat, text: nat)
    requires RoomFor(|m|, args, sp, text)
    ensures Intact(AfterWrites(m, args, sp, text), args, sp, text) <==> Compatible(NullPieces(args, sp, text))
  {
    hide TextSize, Holds, Intact, Compatible, NullPieces;
    PiecesFit(|m|, args, sp, text);
    AllHoldIff(m, NullPieces(args, sp, text));
    IntactIsAll(AfterWrites(m, args, sp, text), args, sp, text);
  }

  /** What becomes of a stack with a null environment. The intended layout is left exactly if its
      pieces agree wherever they meet, and then the program reads its arguments and an empty
      environment. That is so if the strings end below the stored count. If they reach into the
      count, but not into the pointers, the arguments are read back exactly if the bytes agree.
      If they reach into the pointers, the layout is lost unless the bytes agree; what is read
      through other pointers could still be the same by chance. */
  lemma NullEnvironment(m: seq<byte>, args: seq<CString>, sp: nat, text: nat)
    requires RoomFor(|m|, args, sp, text)
    ensures var r, end := AfterWrites(m, args, sp, text), text + TextSize(args, |args|);
            var agree := Compatible(NullPieces(args, sp, text));
            && (Intact(r, args, sp, text) <==> agree)
            && (agree ==> ReadStrings(r, sp) == args && ReadStrings(r, sp + 8 * (|args| + 1)) == [])
            && (end <= sp - 8 ==> agree)
            && (end <= sp ==> (ReadStrings(r, sp) == args <==> agree))
  {
    hide TextSize, Holds, Intact, AfterWrites, Compatible, ReadStrings;
    var r, ps, end := AfterWrites(m, args, sp, text), NullPieces(args, sp, text), text + TextSize(args, |args|);
    IntactIff(m, args, sp, text);
    if Compatible(ps) {
      IntactReads(r, args, sp, text);
    }
    if end <= sp - 8 {
      ShortTextIsCompatible(args, sp, text);
    }
    if end <= sp && ReadStrings(r, sp) == args {
      ReadBackIsIntact(m, args, sp, text);
    }
  }

  /** One argument of 144 characters is lost: its zero is overwritten by the count. */
  lemma LongArgumentIsLost(m: seq<byte>, sp: nat)
    requires 152 < sp && sp + 24 <= |m| <= U64
    ensures var args: seq<CString> := [seq(144, _ => 65)];
            RoomFor(|m|, args, sp, sp - 152) && ReadStrings(AfterWrites(m, args, sp, sp - 152), sp) != args
  {
    var args: seq<CString> := [seq(144, _ => 65)];
    assert TextSize(args, 1) == 145;
    hide AfterWrites, NullPieces, Compatible, ReadStrings;
    LostZero(args, sp, sp - 152);
    NullEnvironment(m, args, sp, sp - 152);
  }

  // ----- in place

  lemma WrittenMore(m: seq<byte>, ps: seq<Piece>, p: Piece)
    requires AllFit(ps, |m|) && p.Fits(|m|)
    ensures AllFit(ps + [p], |m|) && Written(m, ps + [p]) == Put(Written(m, ps), p)
  {
    hide Put;
    assert (ps + [p])[..|ps|] == ps;
  }

  method PutWord(mem: array<byte>, at: nat, w: nat, n: nat)
    requires at + n <= mem.Length
    modifies mem
    ensures mem[..] == Put(old(mem[..]), Piece(at, Bytes(w, n)))
  {
    StoreWord(mem, at, w, n);
  }

  /** `strcpy`, and what `strlen` then finds there. */
  method CopyString(mem: array<byte>, at: nat, s: CString) returns (length: nat)
    requires at + |s| < mem.Length
    modifies mem
    ensures mem[..] == Put(old(mem[..]), StringAt(at, s)) && length == |s|
  {
    ghost var m := mem[..];
    StrCpy(mem, at, s);
    StringHolds(mem[..], at, s);
    assert mem[..] == Put(m, StringAt(at, s));
    length := StrLen(mem, at, s);
  }

  lemma PiecesInside(args: seq<CString>, sp: nat, text: nat, n: nat, size: nat)
    requires RoomFor(size, args, sp, text) && n <= |args|
    ensures AllFit(ArgumentPieces(args, sp, text, n), size)
    ensures n < |args| ==> sp + 8 * n + 8 <= size && text + TextSize(args, n) + |args[n]| < size
  {
    hide TextSize, ArgumentPieces;
    forall k | 0 <= k < 2 * n ensures ArgumentPieces(args, sp, text, n)[k].Fits(size) {
      var i := k / 2;
      PieceIs(args, sp, text, n, i);
      TextGrows(args, i, |args|);
      assert k == 2 * i || k == 2 * i + 1;
    }
    if n < |args| {
      TextGrows(args, n, |args|);
    }
  }

  /** What one turn of the loop writes. */
  lemma TurnWrites(m: seq<byte>, args: seq<CString>, sp: nat, text: nat, i: nat)
    requires RoomFor(|m|, args, sp, text) && i < |args|
    ensures var ps, at := ArgumentPieces(args, sp, text, i), text + TextSize(args, i);
            var word, chars := Piece(sp + 8 * i, Bytes(at, 8)), StringAt(at, args[i]);
            && AllFit(ps, |m|) && word.Fits(|m|) && chars.Fits(|m|)
            && AllFit(ArgumentPieces(args, sp, text, i + 1), |m|)
            && Written(m, ArgumentPieces(args, sp, text, i + 1)) == Put(Put(Written(m, ps), word), chars)
  {
    hide Put, Written, StringAt, TextSize, Bytes;
    PiecesInside(args, sp, text, i, |m|);
    var ps, at := ArgumentPieces(args, sp, text, i), text + TextSize(args, i);
    var word, chars := WordAt(sp + 8 * i, at), StringAt(at, args[i]);
    assert chars.Fits(|m|) by { StringSize(at, args[i]); }
    WrittenMore(m, ps, word);
    WrittenMore(m, ps + [word], chars);
    assert ps + [word] + [chars] == ArgumentPieces(args, sp, text, i + 1);
  }

  lemma StringSize(at: nat, s: CString)
    ensures StringAt(at, s).at == at && |StringAt(at, s).bytes| == |s| + 1
  {
  }

  /** One turn of the loop, wherever the string meets the pointers. */
  method PutArgument(mem: array<byte>, args: seq<CString>, sp: nat, text: nat, next: nat, i: nat, ghost m: seq<byte>)
    returns (after: nat)
    requires |m| == mem.Length && RoomFor(|m|, args, sp, text) && i < |args| && next == text + TextSize(args, i)
    requires AllFit(ArgumentPieces(args, sp, text, i), |m|) && mem[..] == Written(m, ArgumentPieces(args, sp, text, i))
    modifies mem
    ensures after == text + TextSize(args, i + 1)
    ensures AllFit(ArgumentPieces(args, sp, text, i + 1), |m|)
    ensures mem[..] == Written(m, ArgumentPieces(args, sp, text, i + 1))
  {
    hide Put, Written, StringAt, ArgumentPieces, Bytes, AllFit;
    TurnWrites(m, args, sp, text, i);
    StringSize(next, args[i]);
    PutWord(mem, sp + 8 * i, next, 8);
    var length := CopyString(mem, next, args[i]);
    after := next + (length + 1);
  }

  /** The writes of `create_new_process` when the loop over the environment has no turn. */
  method WriteArguments(mem: array<byte>, args: seq<CString>, sp: nat, text: nat)
    requires RoomFor(mem.Length, args, sp, text)
    modifies mem
    ensures mem[..] == AfterWrites(old(mem[..]), args, sp, text)
  {
    ghost var m := mem[..];
    var next := text;
    for i := 0 to |args|
      invariant next == text + TextSize(args, i) && AllFit(ArgumentPieces(args, sp, text, i), |m|)
      invariant mem[..] == Written(m, ArgumentPieces(args, sp, text, i))
    {
      hide Put, Written, ArgumentPieces, TextSize;
      next := PutArgument(mem, args, sp, text, next, i, m);
    }
    PutRest(mem, args, sp, text, m);
  }

  /** What the two null pointers and the count add. */
  lemma RestWrites(m: seq<byte>, args: seq<CString>, sp: nat, text: nat)
    requires RoomFor(|m|, args, sp, text)
    ensures var ps, n := ArgumentPieces(args, sp, text, |args|), |args|;
            var a, b := Piece(sp + 8 * n, Bytes(0, 8)), Piece(sp + 8 * (n + 1), Bytes(0, 8));
            var c := Piece(sp - 8, Bytes(n, 4));
            && AllFit(ps, |m|) && a.Fits(|m|) && b.Fits(|m|) && c.Fits(|m|)
            && AfterWrites(m, args, sp, text) == Put(Put(Put(Written(m, ps), a), b), c)
  {
    hide Put, Written, ArgumentPieces, TextSize, Bytes;
    var ps, n := ArgumentPieces(args, sp, text, |args|), |args|;
    var a, b, c := WordAt(sp + 8 * n, 0), WordAt(sp + 8 * (n + 1), 0), Piece(sp - 8, Bytes(n, 4));
    PiecesInside(args, sp, text, n, |m|);
    WrittenMore(m, ps, a);
    WrittenMore(m, ps + [a], b);
    WrittenMore(m, ps + [a] + [b], c);
    assert ps + [a] + [b] + [c] == NullPieces(args, sp, text);
  }

  /** The two null pointers and the count. */
  method PutRest(mem: array<byte>, args: seq<CString>, sp: nat, text: nat, ghost m: seq<byte>)
    requires |m| == mem.Length && RoomFor(|m|, args, sp, text) && AllFit(ArgumentPieces(args, sp, text, |args|), |m|)
    requires mem[..] == Written(m, ArgumentPieces(args, sp, text, |args|))
    modifies mem
    ensures mem[..] == AfterWrites(m, args, sp, text)
  {
    hide Put, Written, ArgumentPieces, TextSize, Bytes, AllFit, AfterWrites;
    RestWrites(m, args, sp, text);
    PutWord(mem, sp + 8 * |args|, 0, 8);
    PutWord(mem, sp + 8 * (|args| + 1), 0, 8);
    PutWord(mem, sp - 8, |args|, 4);
  }

  /** `check_and_get_count`. */
  method CheckAndGetCount(arg: Option<seq<CString>>) returns (count: int)
    ensures count == if arg.None? then -EINVAL else |arg.value|
  {
    if arg.None? { return -EINVAL; }
    count := 0;
    while count < |arg.value|
      invariant 0 <= count <= |arg.value|
    {
      count := count + 1;
    }
  }

  /** The bytes reserved with a null environment, whose count is not zero either. */
  function NullTotal(args: seq<CString>): nat { SlotsAndText(args) + 16 }

  /** Enough stack for what is written, below the reserved space too. */
  predicate StackFits(stackBase: nat, args: seq<CString>, envp: Option<seq<CString>>) {
    if envp.None? then Space(NullTotal(args)) + 160 <= stackBase else Space(Total(args, envp.value)) + 8 <= stackBase
  }

  /** The registers and the memory that a null environment leaves. */
  ghost predicate StartsWithout(m: seq<byte>, mem: seq<byte>, ctx: Context, stackBase: nat, args: seq<CString>) {
    && ctx.x0 == |args| && ctx.sp + 8 == ctx.x1 && ctx.x2 == ctx.x1 + 8 * (|args| + 1)
    && ctx.x1 + Space(NullTotal(args)) == stackBase <= |m| && ctx.x1 >= 160
    && (var needed := 8 * (|args| + 2) + TextSize(args, |args|);
        ctx.x1 + needed <= stackBase < ctx.x1 + needed + 16 && (stackBase - ctx.x1) % 16 == 0)
    && var text := ctx.x1 + 8 * |args| - 160;
       RoomFor(|m|, args, ctx.x1, text) && mem == AfterWrites(m, args, ctx.x1, text)
  }

  lemma EnoughStack(stackBase: nat, args: seq<CString>, envp: Option<seq<CString>>)
    requires StackFits(stackBase, args, envp)
    ensures envp.Some? ==> Space(Total(args, envp.value)) + 8 <= stackBase
    ensures envp.None? ==> Space(NullTotal(args)) + 160 <= stackBase
  {
  }

  /** The rest of `create_new_process` for a null environment, with the count that it got for it. */
  method StartWithoutEnvironment(mem: array<byte>, stackBase: nat, entry: nat, args: seq<CString>, envCount: int)
    returns (ctx: Context)
    requires stackBase <= mem.Length <= 0x8000_0000 && envCount == -EINVAL
    requires args != [] && Space(NullTotal(args)) + 160 <= stackBase
    modifies mem
    ensures ctx.elr == entry && StartsWithout(old(mem[..]), mem[..], ctx, stackBase, args)
  {
    hide AfterWrites, TextSize;
    var total := CountStrings(args);
    var sp := stackBase - (total + 16 + 15) / 16 * 16;
    var text := TextStart(sp, |args|, envCount);
    WriteArguments(mem, args, sp, text);
    ctx := Context(sp - 8, |args|, sp, sp + 8 * (|args| + 1), entry);
  }

  /** `create_new_process` on a stack that ends at `stackBase`. Without arguments it fails and
      writes nothing. With an environment the program finds what it was given; without one, see
      `NullEnvironment`. */
  method CreateNewProcess(mem: array<byte>, stackBase: nat, entry: nat, argv: Option<seq<CString>>,
                          envp: Option<seq<CString>>)
    returns (ret: int, ctx: Context)
    requires stackBase <= mem.Length <= 0x8000_0000
    requires argv.Some? && argv.value != [] ==> StackFits(stackBase, argv.value, envp)
    modifies mem
    ensures argv.None? || argv.value == [] ==> ret == -EINVAL && mem[..] == old(mem[..])
    ensures argv.Some? && argv.value != [] ==>
              && ret == 0 && ctx.elr == entry
              && match envp
                 case Some(envs) => Starts(old(mem[..]), mem[..], ctx, stackBase, argv.value, envs)
                 case None => StartsWithout(old(mem[..]), mem[..], ctx, stackBase, argv.value)
  {
    var argCount := CheckAndGetCount(argv);
    var envCount := CheckAndGetCount(envp);
    if argCount <= 0 { return -EINVAL, Context(0, 0, 0, 0, 0); }
    hide Starts, StartsWithout, StackFits;
    EnoughStack(stackBase, argv.value, envp);
    match envp
    case Some(envs) =>
      ctx := StartWithEnvironment(mem, stackBase, entry, argv.value, envs);
      ret := 0;
    case None =>
      ctx := StartWithoutEnvironment(mem, stackBase, entry, argv.value, envCount);
      ret := 0;
  }
}
