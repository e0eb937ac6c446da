/** The stack a new process starts with, as `create_new_process` of execve.c lays it out:
    pointers to arguments and environment, and behind them the strings. */
module ProcessStack {
  import opened Bits
  import opened ByteMemory

  /** A C string without its terminating zero. */
  type CString = s: seq<byte> | forall i | 0 <= i < |s| :: s[i] != 0

  // ----- what a program reads

  /** The string at an address: the bytes up to the first zero. */
  function ReadString(mem: seq<byte>, at: nat): seq<byte>
    decreases |mem| - at
  {
    if at >= |mem| || mem[at] == 0 then [] else [mem[at]] + ReadString(mem, at + 1)
  }

  /** The strings of a null-terminated array of pointers. */
  function ReadStrings(mem: seq<byte>, at: nat): seq<seq<byte>>
    decreases |mem| - at
  {
    if at + 8 > |mem| || Load64(mem, at) == 0 then []
    else [ReadString(mem, Load64(mem, at))] + ReadStrings(mem, at + 8)
  }

  // ----- the layout

  /** How many bytes the first `n` strings take with their zeros. */
  function TextSize(ss: seq<CString>, n: nat): nat
    requires n <= |ss|
  {
    if n == 0 then 0 else TextSize(ss, n - 1) + |ss[n - 1]| + 1
  }

  ghost predicate HoldsString(mem: seq<byte>, at: nat, s: CString) {
    at + |s| < |mem| && mem[at..at + |s|] == s && mem[at + |s|] == 0
  }

  /** Pointers to the first `n` strings from `slots` on, and the strings one after the other from
      `text` on. */
  ghost predicate HoldsStrings(mem: seq<byte>, slots: nat, text: nat, ss: seq<CString>, n: nat)
    requires n <= |ss|
  {
    forall i | 0 <= i < n ::
      HoldsWord(mem, slots + 8 * i, text + TextSize(ss, i)) && HoldsString(mem, text + TextSize(ss, i), ss[i])
  }

  /** All of them, and a null pointer at the end. */
  ghost predicate HoldsArray(mem: seq<byte>, slots: nat, text: nat, ss: seq<CString>) {
    HoldsStrings(mem, slots, text, ss, |ss|) && HoldsWord(mem, slots + 8 * |ss|, 0)
  }

  lemma {:induction false} TextGrows(ss: seq<CString>, i: nat, j: nat)
    requires i < j <= |ss|
    ensures TextSize(ss, i) + |ss[i]| + 1 <= TextSize(ss, j)
    decreases j
  {
    if i + 1 < j {
      TextGrows(ss, i, j - 1);
    }
  }

  lemma {:induction false} StringReads(mem: seq<byte>, at: nat, s: CString)
    requires HoldsString(mem, at, s)
    ensures at < |mem| && ReadString(mem, at) == s
    decreases |s|
  {
    if s != [] {
      assert mem[at] == mem[at..at + |s|][0] == s[0];
      assert mem[at + 1..at + |s|] == mem[at..at + |s|][1..];
      StringReads(mem, at + 1, s[1..]);
      assert s == [s[0]] + s[1..];
    }
  }

  /** From any pointer on, the rest of the list is read back. */
  lemma {:induction false} ArrayReads(mem: seq<byte>, slots: nat, text: nat, ss: seq<CString>, i: nat)
    requires HoldsArray(mem, slots, text, ss) && 0 < text && |mem| <= U64 && i <= |ss|
    ensures ReadStrings(mem, slots + 8 * i) == ss[i..]
    decreases |ss| - i
  {
    hide ReadString, Load64, TextSize, HoldsWord, HoldsString;
    if i == |ss| {
      WordReads(mem, slots + 8 * i, 0);
    } else {
      var p := text + TextSize(ss, i);
      StringReads(mem, p, ss[i]);
      WordReads(mem, slots + 8 * i, p);
      ArrayReads(mem, slots, text, ss, i + 1);
      assert slots + 8 * i + 8 == slots + 8 * (i + 1);
      assert ss[i..] == [ss[i]] + ss[i + 1..];
    }
  }

  /** Reading an array of strings gives what was written. */
  lemma ReadsBack(mem: seq<byte>, slots: nat, text: nat, ss: seq<CString>)
    requires HoldsArray(mem, slots, text, ss) && 0 < text && |mem| <= U64
    ensures ReadStrings(mem, slots) == ss
  {
    ArrayReads(mem, slots, text, ss, 0);
  }

  // ----- writing it

  ghost predicate SameOutside(m: seq<byte>, mem: seq<byte>, a: nat, b: nat, c: nat, d: nat) {
    |m| == |mem| && forall j | 0 <= j < |m| && !(a <= j < b) && !(c <= j < d) :: mem[j] == m[j]
  }

  ghost predicate SameInside(m: seq<byte>, mem: seq<byte>, a: nat, b: nat) {
    a <= b <= |m| && |m| == |mem| && forall j | a <= j < b :: mem[j] == m[j]
  }

  lemma OutsideGrows(m: seq<byte>, mid: seq<byte>, mem: seq<byte>, a: nat, b: nat, b1: nat, c: nat, d: nat, d1: nat)
    requires SameOutside(m, mid, a, b, c, d) && SameOutside(mid, mem, b, b1, d, d1)
    requires a <= b <= b1 && c <= d <= d1
    ensures SameOutside(m, mem, a, b1, c, d1)
  {
  }

  lemma ApartIsSame(m: seq<byte>, mem: seq<byte>, a: nat, b: nat, c: nat, d: nat, p: nat, q: nat)
    requires SameOutside(m, mem, a, b, c, d) && p <= q <= |m| && (q <= a || b <= p) && (q <= c || d <= p)
    ensures SameInside(m, mem, p, q)
  {
  }

  lemma WordStays(m: seq<byte>, mem: seq<byte>, at: nat, w: nat)
    requires HoldsWord(m, at, w) && SameInside(m, mem, at, at + 8)
    ensures HoldsWord(mem, at, w)
  {
  }

  lemma StringStays(m: seq<byte>, mem: seq<byte>, at: nat, s: CString)
    requires HoldsString(m, at, s) && SameInside(m, mem, at, at + |s| + 1)
    ensures HoldsString(mem, at, s)
  {
    assert mem[at..at + |s|] == m[at..at + |s|];
  }

  lemma InsideShrinks(m: seq<byte>, mem: seq<byte>, a: nat, b: nat, c: nat, d: nat)
    requires SameInside(m, mem, a, b) && a <= c <= d <= b
    ensures SameInside(m, mem, c, d)
  {
  }

  /** What is written elsewhere leaves the pointers and strings alone. */
  lemma StringsStay(m: seq<byte>, mem: seq<byte>, slots: nat, text: nat, ss: seq<CString>, n: nat)
    requires n <= |ss| && HoldsStrings(m, slots, text, ss, n)
    requires SameInside(m, mem, slots, slots + 8 * n) && SameInside(m, mem, text, text + TextSize(ss, n))
    ensures HoldsStrings(mem, slots, text, ss, n)
  {
    hide HoldsWord, HoldsString, SameInside, TextSize;
    forall i | 0 <= i < n
      ensures HoldsWord(mem, slots + 8 * i, text + TextSize(ss, i)) && HoldsString(mem, text + TextSize(ss, i), ss[i])
    {
      TextGrows(ss, i, n);
      InsideShrinks(m, mem, slots, slots + 8 * n, slots + 8 * i, slots + 8 * i + 8);
      InsideShrinks(m, mem, text, text + TextSize(ss, n), text + TextSize(ss, i), text + TextSize(ss, i) + |ss[i]| + 1);
      WordStays(m, mem, slots + 8 * i, text + TextSize(ss, i));
      StringStays(m, mem, text + TextSize(ss, i), ss[i]);
    }
  }

  /** `strcpy`. */
  method StrCpy(mem: array<byte>, to: nat, from: CString)
    requires to + |from| < mem.Length
    modifies mem
    ensures HoldsString(mem[..], to, from) && SameOutside(old(mem[..]), mem[..], to, to + |from| + 1, 0, 0)
  {
    var i := 0;
    while i < |from|
      invariant i <= |from| && mem[to..to + i] == from[..i]
      invariant SameOutside(old(mem[..]), mem[..], to, to + i, 0, 0)
    {
      mem[to + i] := from[i];
      assert mem[to..to + i + 1] == mem[to..to + i] + [from[i]] && from[..i + 1] == from[..i] + [from[i]];
      i := i + 1;
    }
    mem[to + i] := 0;
    assert mem[..][to..to + |from|] == from[..|from|] == from;
  }

  /** `strlen` of a string in memory. */
  method StrLen(mem: array<byte>, at: nat, ghost s: CString) returns (n: nat)
    requires HoldsString(mem[..], at, s)
    ensures n == |s|
  {
    n := 0;
    assert mem[at + |s|] == 0;
    while mem[at + n] != 0
      invariant n <= |s|
      decreases |s| - n
    {
      assert n < |s| ==> s[n] == mem[..][at..at + |s|][n];
      n := n + 1;
    }
  }

  /** One turn of the loops: the pointer, then the string. */
  method PutString(mem: array<byte>, slot: nat, text: nat, s: CString) returns (next: nat)
    requires slot + 8 <= text && text + |s| < mem.Length <= U64
    modifies mem
    ensures next == text + |s| + 1 && HoldsWord(mem[..], slot, text) && HoldsString(mem[..], text, s)
    ensures SameOutside(old(mem[..]), mem[..], slot, slot + 8, text, next)
  {
    StoreWord(mem, slot, text, 8);
    assert mem[..][slot..slot + 8] == Bytes(text, 8);
    ghost var m := mem[..];
    StrCpy(mem, text, s);
    WordStays(m, mem[..], slot, text);
    var n := StrLen(mem, text, s);
    next := text + (n + 1);
  }

  /** The loop over the arguments, or over the environment. */
  method PutArray(mem: array<byte>, slots: nat, text: nat, ss: seq<CString>) returns (next: nat)
    requires slots + 8 * (|ss| + 1) <= text && text + TextSize(ss, |ss|) <= mem.Length <= U64
    modifies mem
    ensures next == text + TextSize(ss, |ss|) && HoldsArray(mem[..], slots, text, ss)
    ensures SameOutside(old(mem[..]), mem[..], slots, slots + 8 * (|ss| + 1), text, next)
  {
    hide HoldsWord, HoldsString, HoldsStrings, SameOutside, SameInside;
    ghost var m := mem[..];
    next := text;
    NoStrings(m, slots, text, ss);
    for i := 0 to |ss|
      invariant next == text + TextSize(ss, i) && HoldsStrings(mem[..], slots, text, ss, i)
      invariant SameOutside(m, mem[..], slots, slots + 8 * i, text, next)
    {
      TextGrows(ss, i, |ss|);
      ghost var before, at := mem[..], next;
      next := PutString(mem, slots + 8 * i, next, ss[i]);
      OneMoreString(before, mem[..], slots, text, ss, i, next);
      OutsideGrows(m, before, mem[..], slots, slots + 8 * i, slots + 8 * (i + 1), text, at, next);
    }
    ghost var before := mem[..];
    PutNull(mem, slots + 8 * |ss|, next);
    ApartIsSame(before, mem[..], slots + 8 * |ss|, slots + 8 * (|ss| + 1), next, next, slots, slots + 8 * |ss|);
    ApartIsSame(before, mem[..], slots + 8 * |ss|, slots + 8 * (|ss| + 1), next, next, text, next);
    StringsStay(before, mem[..], slots, text, ss, |ss|);
    OutsideGrows(m, before, mem[..], slots, slots + 8 * |ss|, slots + 8 * (|ss| + 1), text, next, next);
  }

  lemma NoStrings(m: seq<byte>, slots: nat, text: nat, ss: seq<CString>)
    ensures HoldsStrings(m, slots, text, ss, 0) && SameOutside(m, m, slots, slots, text, text)
  {
  }

  lemma OneMoreString(m: seq<byte>, mem: seq<byte>, slots: nat, text: nat, ss: seq<CString>, i: nat, next: nat)
    requires i < |ss| && HoldsStrings(m, slots, text, ss, i) && slots + 8 * (i + 1) <= text && next <= |m|
    requires next == text + TextSize(ss, i) + |ss[i]| + 1
    requires SameOutside(m, mem, slots + 8 * i, slots + 8 * i + 8, text + TextSize(ss, i), next)
    requires HoldsWord(mem, slots + 8 * i, text + TextSize(ss, i)) && HoldsString(mem, text + TextSize(ss, i), ss[i])
    ensures HoldsStrings(mem, slots, text, ss, i + 1)
  {
    hide HoldsWord, HoldsString, SameOutside, SameInside, TextSize;
    var at := text + TextSize(ss, i);
    ApartIsSame(m, mem, slots + 8 * i, slots + 8 * i + 8, at, next, slots, slots + 8 * i);
    ApartIsSame(m, mem, slots + 8 * i, slots + 8 * i + 8, at, next, text, at);
    StringsStay(m, mem, slots, text, ss, i);
  }

  /** The null pointer behind the others; `text` is any address. */
  method PutNull(mem: array<byte>, at: nat, ghost text: nat)
    requires at + 8 <= mem.Length
    modifies mem
    ensures HoldsWord(mem[..], at, 0) && SameOutside(old(mem[..]), mem[..], at, at + 8, text, text)
  {
    StoreWord(mem, at, 0, 8);
    assert mem[..][at..at + 8] == Bytes(0, 8);
  }

  // ----- create_new_process

  /** The registers the process starts with. */
  datatype Context = Context(sp: nat, x0: nat, x1: nat, x2: nat, elr: nat)

  const EINVAL: int := 22

  function SlotsAndText(ss: seq<CString>): nat { 8 * |ss| + TextSize(ss, |ss|) }

  /** What the code reserves, before alignment: a pointer and the string for each, two null
      pointers, and one word more if there is no environment. */
  function Total(args: seq<CString>, envs: seq<CString>): nat {
    SlotsAndText(args) + SlotsAndText(envs) + (if envs == [] then 8 else 0) + 16
  }

  function Space(total: nat): (r: nat)
    ensures total <= r < total + 16 && r % 16 == 0
  {
    (total + 15) / 16 * 16
  }

  method CountStrings(ss: seq<CString>) returns (n: nat)
    ensures n == SlotsAndText(ss)
  {
    n := 0;
    for i := 0 to |ss|
      invariant n == 8 * i + TextSize(ss, i)
    {
      n := n + 8 + |ss[i]| + 1;
    }
  }

  /** Where the strings start, as the code computes it from the two counts. */
  function TextStart(sp: nat, argCount: nat, envCount: int): int { sp + 8 * (argCount + envCount + 2) }

  /** The two arrays do not get in each other's way. */
  lemma FirstArrayStays(m: seq<byte>, mem: seq<byte>, sp: nat, slots: nat, text: nat, args: seq<CString>, next: nat,
                        a: nat, b: nat, c: nat, d: nat)
    requires HoldsArray(m, sp, text, args) && SameOutside(m, mem, a, b, c, d)
    requires b <= sp || a == sp + 8 * (|args| + 1) <= b <= text
    requires c == text + TextSize(args, |args|) || c == d == 0
    requires text <= |m| && sp + 8 * (|args| + 1) <= text && text + TextSize(args, |args|) <= |m| && (c <= d)
    ensures HoldsArray(mem, sp, text, args)
  {
    hide HoldsWord, SameOutside, HoldsStrings;
    ApartIsSame(m, mem, a, b, c, d, sp, sp + 8 * |args|);
    ApartIsSame(m, mem, a, b, c, d, text, text + TextSize(args, |args|));
    ApartIsSame(m, mem, a, b, c, d, sp + 8 * |args|, sp + 8 * |args| + 8);
    StringsStay(m, mem, sp, text, args, |args|);
    WordStays(m, mem, sp + 8 * |args|, 0);
  }

  lemma AllInside(m: seq<byte>, m1: seq<byte>, m2: seq<byte>, mem: seq<byte>, sp: nat, base: nat, slots: nat,
                  text: nat, next: nat, end: nat)
    requires SameOutside(m, m1, sp + 8, slots, text, next) && SameOutside(m2, mem, sp, sp + 4, 0, 0)
    requires SameOutside(m1, m2, slots, text, next, end) && sp + 8 <= slots <= text <= next <= end <= base
    ensures SameOutside(m, mem, sp, base, 0, 0)
  {
  }

  /** The count of arguments is stored as an `int`. */
  method PutCount(mem: array<byte>, at: nat, count: nat)
    requires at + 4 <= mem.Length && count < 0x8000_0000
    modifies mem
    ensures mem[at..at + 4] == Bytes(count, 4) && SameOutside(old(mem[..]), mem[..], at, at + 4, 0, 0)
  {
    StoreWord(mem, at, count, 4);
  }

  /** Where the pointers and the strings go. */
  method Reserve(stackBase: nat, args: seq<CString>, envs: seq<CString>) returns (sp: nat, text: nat)
    requires Space(Total(args, envs)) + 8 <= stackBase
    ensures sp == stackBase - Space(Total(args, envs)) && sp >= 8 && text == sp + 8 * (|args| + 1) + 8 * (|envs| + 1)
    ensures text + TextSize(args, |args|) + TextSize(envs, |envs|) <= stackBase
  {
    var count := CountStrings(args);
    var more := CountStrings(envs);
    var total := count + more + (if |envs| == 0 then 8 else 0) + 16;
    sp := stackBase - (total + 15) / 16 * 16;
    text := TextStart(sp, |args|, |envs|);
  }

  /** Both arrays, and the count below them. */
  method WriteStack(mem: array<byte>, stackBase: nat, sp: nat, text: nat, args: seq<CString>, envs: seq<CString>)
    returns (slots: nat, next: nat)
    requires stackBase <= mem.Length <= 0x8000_0000 && sp >= 8 && text == sp + 8 * (|args| + 1) + 8 * (|envs| + 1)
    requires text + TextSize(args, |args|) + TextSize(envs, |envs|) <= stackBase
    modifies mem
    ensures slots == sp + 8 * (|args| + 1) && next == text + TextSize(args, |args|)
    ensures HoldsArray(mem[..], sp, text, args) && HoldsArray(mem[..], slots, next, envs)
    ensures mem[sp - 8..sp - 4] == Bytes(|args|, 4) && SameOutside(old(mem[..]), mem[..], sp - 8, stackBase, 0, 0)
  {
    hide HoldsWord, HoldsStrings, HoldsArray, SameOutside, TextSize;
    ghost var m := mem[..];
    next := PutArray(mem, sp, text, args);
    ghost var m1 := mem[..];
    slots := sp + 8 * (|args| + 1);
    var end := PutArray(mem, slots, next, envs);
    ghost var m2 := mem[..];
    FirstArrayStays(m1, m2, sp, slots, text, args, next, slots, slots + 8 * (|envs| + 1), next, end);
    PutCount(mem, sp - 8, |args|);
    FirstArrayStays(m2, mem[..], sp, slots, text, args, next, sp - 8, sp - 4, 0, 0);
    FirstArrayStays(m2, mem[..], slots, slots, next, envs, end, sp - 8, sp - 4, 0, 0);
    AllInside(m, m1, m2, mem[..], sp - 8, stackBase, slots, text, next, end);
  }

  /** What the new process finds through its registers and on its stack. */
  ghost predicate Starts(m: seq<byte>, mem: seq<byte>, ctx: Context, stackBase: nat, args: seq<CString>,
                         envs: seq<CString>) {
    && ctx.x0 == |args| && ReadStrings(mem, ctx.x1) == args && ReadStrings(mem, ctx.x2) == envs
    && ctx.sp + 8 == ctx.x1 && ctx.x1 + Space(Total(args, envs)) == stackBase <= |mem|
    && (var needed := 8 * (|args| + |envs| + 2) + TextSize(args, |args|) + TextSize(envs, |envs|)
                      + if |envs| == 0 then 8 else 0;
        ctx.x1 + needed <= stackBase < ctx.x1 + needed + 16 && (stackBase - ctx.x1) % 16 == 0)
    && mem[ctx.sp..ctx.sp + 4] == Bytes(|args|, 4)
    && ctx.x2 == ctx.x1 + 8 * (|args| + 1)
    && (var text := ctx.x2 + 8 * (|envs| + 1);
        && HoldsArray(mem, ctx.x1, text, args) && HoldsArray(mem, ctx.x2, text + TextSize(args, |args|), envs)
        && text + TextSize(args, |args|) + TextSize(envs, |envs|) <= stackBase)
    && SameOutside(m, mem, ctx.sp, stackBase, 0, 0)
  }

  lemma TotalIs(args: seq<CString>, envs: seq<CString>)
    ensures Total(args, envs) == 8 * (|args| + |envs| + 2) + TextSize(args, |args|) + TextSize(envs, |envs|)
                                 + if |envs| == 0 then 8 else 0
  {
    hide TextSize;
  }

  lemma StartsFrom(m: seq<byte>, mem: seq<byte>, ctx: Context, stackBase: nat, sp: nat, slots: nat, text: nat,
                   next: nat, args: seq<CString>, envs: seq<CString>)
    requires sp >= 8 && sp + Space(Total(args, envs)) == stackBase <= |mem| <= U64
    requires slots == sp + 8 * (|args| + 1) && text == slots + 8 * (|envs| + 1)
    requires next == text + TextSize(args, |args|) && next + TextSize(envs, |envs|) <= stackBase
    requires HoldsArray(mem, sp, text, args) && HoldsArray(mem, slots, next, envs)
    requires mem[sp - 8..sp - 4] == Bytes(|args|, 4) && SameOutside(m, mem, sp - 8, stackBase, 0, 0)
    requires ctx == Context(sp - 8, |args|, sp, slots, ctx.elr)
    ensures Starts(m, mem, ctx, stackBase, args, envs)
  {
    hide HoldsWord, HoldsStrings, HoldsArray, SameOutside, ReadStrings, TextSize, Total, Space;
    TotalIs(args, envs);
    ReadsBack(mem, sp, text, args);
    ReadsBack(mem, slots, next, envs);
  }

  /** The rest of `create_new_process` for an environment that is not null: the program finds in
      its registers and on its stack the arguments and the environment it was given, and the
      reserved space is enough. */
  method StartWithEnvironment(mem: array<byte>, stackBase: nat, entry: nat, args: seq<CString>, envs: seq<CString>)
    returns (ctx: Context)
    requires stackBase <= mem.Length <= 0x8000_0000 && Space(Total(args, envs)) + 8 <= stackBase
    modifies mem
    ensures ctx.elr == entry && Starts(old(mem[..]), mem[..], ctx, stackBase, args, envs)
  {
    hide Starts, HoldsArray, SameOutside, TextSize, Total, Space;
    ghost var m := mem[..];
    var sp, text := Reserve(stackBase, args, envs);
    var slots, next := WriteStack(mem, stackBase, sp, text, args, envs);
    ctx := Context(sp - 8, |args|, sp, slots, entry);
    StartsFrom(m, mem[..], ctx, stackBase, sp, slots, text, next, args, envs);
  }
}
