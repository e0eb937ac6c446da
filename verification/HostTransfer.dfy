/** `hypercall_write` and `hypercall_read` of main.rs: loops around host calls that may transfer
    less than they are asked to. */
module HostTransfer {
  import opened Bits

  // ----- loops that ask for what is left

  /** What the host answers to its call number `k` when `left` bytes are missing: how many bytes
      it transfers, or a negative number for a failure. */
  type Answers = (nat, nat) -> int

  ghost predicate Bounded(host: Answers) {
    forall k: nat, left: nat :: host(k, left) <= left
  }

  /** How many bytes of `len` are transferred after `k` calls; a failure transfers none. */
  ghost function Moved(host: Answers, len: nat, k: nat): (n: nat)
    requires Bounded(host)
    ensures n <= len
  {
    if k == 0 then 0
    else
      var n := Moved(host, len, k - 1);
      var a := host(k - 1, len - n);
      if a > 0 then n + a else n
  }

  /** The answer to call `k` of the loop. */
  ghost function Answer(host: Answers, len: nat, k: nat): int
    requires Bounded(host)
  {
    host(k, len - Moved(host, len, k))
  }

  /** The loop is left before call `k`: everything is there, or that call fails. */
  ghost predicate Leaves(host: Answers, len: nat, k: nat)
    requires Bounded(host)
  {
    Moved(host, len, k) == len || Answer(host, len, k) < 0
  }

  /** The loop comes to an end. */
  ghost predicate Ends(host: Answers, len: nat)
    requires Bounded(host)
  {
    exists k: nat :: Leaves(host, len, k)
  }

  ghost predicate ZeroFrom(host: Answers, left: nat, k: nat) {
    forall i: nat | k <= i :: host(i, left) == 0
  }

  /** From call `k` on, which is reached with bytes missing, the host answers zero for ever. */
  ghost predicate StallsAt(host: Answers, len: nat, k: nat)
    requires Bounded(host)
  {
    && Moved(host, len, k) < len && (forall i: nat | i < k :: Answer(host, len, i) >= 0)
    && ZeroFrom(host, len - Moved(host, len, k), k)
  }

  ghost predicate Stalls(host: Answers, len: nat)
    requires Bounded(host)
  {
    exists k: nat :: StallsAt(host, len, k)
  }

  /** While the host answers zero, nothing more is transferred. */
  lemma {:induction false} ZerosMoveNothing(host: Answers, len: nat, k: nat, j: nat, left: nat)
    requires Bounded(host) && k <= j && left == len - Moved(host, len, k)
    requires forall i: nat | k <= i < j :: host(i, left) == 0
    ensures Moved(host, len, j) == Moved(host, len, k)
  {
    if k < j {
      ZerosMoveNothing(host, len, k, j - 1, left);
    }
  }

  lemma {:induction false} MovedGrows(host: Answers, len: nat, j: nat, k: nat)
    requires Bounded(host) && j <= k
    ensures Moved(host, len, j) <= Moved(host, len, k)
  {
    if j < k {
      MovedGrows(host, len, j, k - 1);
    }
  }

  /** A loop that stalls is never left. */
  lemma StallGoesOn(host: Answers, len: nat, k: nat, j: nat)
    requires Bounded(host) && StallsAt(host, len, k)
    ensures !Leaves(host, len, j)
  {
    if j < k {
      MovedGrows(host, len, j, k);
    } else {
      ZerosMoveNothing(host, len, k, j, len - Moved(host, len, k));
    }
  }

  /** The first call from `j` on whose answer is not zero, if there is one at `i`. */
  lemma {:induction false} FirstAnswer(host: Answers, left: nat, j: nat, i: nat) returns (f: nat)
    requires j <= i && host(i, left) != 0
    ensures j <= f && host(f, left) != 0 && forall h: nat | j <= h < f :: host(h, left) == 0
    decreases i - j
  {
    if host(j, left) != 0 {
      f := j;
    } else {
      f := FirstAnswer(host, left, j + 1, i);
    }
  }

  /** Without a stall, a loop that has reached call `k` is left at some later call. */
  lemma {:induction false} LeavesFrom(host: Answers, len: nat, k: nat) returns (e: nat)
    requires Bounded(host) && !Stalls(host, len) && forall i: nat | i < k :: Answer(host, len, i) >= 0
    ensures Leaves(host, len, e)
    decreases len - Moved(host, len, k)
  {
    e := k;
    if Moved(host, len, k) < len {
      var left := len - Moved(host, len, k);
      assert !StallsAt(host, len, k) && !ZeroFrom(host, left, k);
      var i: nat :| k <= i && host(i, left) != 0;
      var f := FirstAnswer(host, left, k, i);
      forall h: nat | k <= h <= f ensures Moved(host, len, h) == Moved(host, len, k) {
        ZerosMoveNothing(host, len, k, h, left);
      }
      if host(f, left) < 0 {
        e := f;
      } else {
        assert Moved(host, len, f + 1) == Moved(host, len, f) + host(f, left);
        e := LeavesFrom(host, len, f + 1);
      }
    }
  }

  /** The loop ends exactly if there is no call, reached with bytes missing, from which the host
      answers zero for ever. */
  lemma EndsIff(host: Answers, len: nat)
    requires Bounded(host)
    ensures Ends(host, len) <==> !Stalls(host, len)
  {
    if Stalls(host, len) {
      var k: nat :| StallsAt(host, len, k);
      forall j: nat ensures !Leaves(host, len, j) {
        StallGoesOn(host, len, k, j);
      }
    } else {
      var e := LeavesFrom(host, len, 0);
    }
  }

  // ----- writing

  /** The most that one `write` is asked for. */
  const ISIZE_MAX: nat := 0x7FFF_FFFF_FFFF_FFFF

  function Chunk(left: nat): (n: nat)
    ensures n <= left && (left > 0 ==> n > 0)
    ensures n <= 0x7FFF_FFFF_FFFF_FFFF && (n == left || n == 0x7FFF_FFFF_FFFF_FFFF)
  {
    if left < ISIZE_MAX then left else ISIZE_MAX
  }

  /** What the host answers to its call number `k` when asked to write `n` bytes: how many it has
      written, or -1. */
  type Writer = (nat, nat) -> int

  ghost predicate WritesNoMore(host: Writer) {
    forall k: nat, n: nat :: -1 <= host(k, n) <= n
  }

  function WriteAnswers(host: Writer): Answers { (k: nat, left: nat) => host(k, Chunk(left)) }

  lemma WritesBounded(host: Writer)
    requires WritesNoMore(host)
    ensures Bounded(WriteAnswers(host))
  {
    forall k: nat, left: nat ensures WriteAnswers(host)(k, left) <= left {
      assert host(k, Chunk(left)) <= Chunk(left);
    }
  }

  ghost function Sent(host: Writer, len: nat, k: nat): (n: nat)
    requires WritesNoMore(host)
    ensures n <= len
  {
    WritesBounded(host);
    Moved(WriteAnswers(host), len, k)
  }

  /** The write loop ends. */
  ghost predicate WriteEnds(host: Writer, len: nat)
    requires WritesNoMore(host)
  {
    WritesBounded(host);
    Ends(WriteAnswers(host), len)
  }

  datatype WriteResult = Ok(count: nat) | Err

  ghost predicate WritesSome(host: Writer) {
    forall k: nat, n: nat | n > 0 :: host(k, n) != 0
  }

  lemma SentStep(host: Writer, len: nat, k: nat, end: nat)
    requires WritesNoMore(host) && Sent(host, len, k) < len
    ensures var a := host(k, Chunk(len - Sent(host, len, k)));
            && -1 <= a <= Chunk(len - Sent(host, len, k))
            && Sent(host, len, k + 1) == (if a > 0 then Sent(host, len, k) + a else Sent(host, len, k))
            && (a >= 0 && k == end ==> !WriteLeaves(host, len, end))
            && (WritesSome(host) ==> a != 0)
  {
  }

  ghost predicate WriteLeaves(host: Writer, len: nat, k: nat)
    requires WritesNoMore(host)
  {
    WritesBounded(host);
    Leaves(WriteAnswers(host), len, k)
  }

  lemma WriteEnd(host: Writer, len: nat) returns (end: nat)
    requires WritesNoMore(host) && WriteEnds(host, len)
    ensures WriteLeaves(host, len, end)
  {
    WritesBounded(host);
    end :| Leaves(WriteAnswers(host), len, end);
  }

  /** For any host with which the loop ends: success means that exactly the bytes of the buffer
      came out, once and in order; failure, that the host has failed, after a part of them. */
  method HypercallWrite(buf: seq<byte>, isNull: bool, host: Writer)
    returns (r: WriteResult, emitted: seq<byte>, calls: nat)
    requires |buf| < U64 && WritesNoMore(host) && (!isNull ==> WriteEnds(host, |buf|))
    ensures isNull ==> r == Err && emitted == []
    ensures !isNull && r.Ok? ==> r.count == |buf| && emitted == buf
    ensures !isNull && r.Err? ==>
              |emitted| < |buf| && emitted == buf[..|emitted|] && host(calls, Chunk(|buf| - |emitted|)) == -1
    ensures !isNull ==> |emitted| == Sent(host, |buf|, calls) && (WritesSome(host) ==> calls <= |buf|)
  {
    calls, emitted := 0, [];
    if isNull { return Err, [], 0; }
    ghost var end := WriteEnd(host, |buf|);
    var len: nat, bufPtr: nat, count := |buf|, 0, |buf|;
    SentNothing(host, len);
    hide Sent, WritesSome, WriteEnds, WriteLeaves, WritesNoMore, Chunk;
    while len > 0
      invariant len + bufPtr == |buf| && emitted == buf[..bufPtr]
      invariant bufPtr == Sent(host, |buf|, calls) && calls <= end && (WritesSome(host) ==> calls <= bufPtr)
      decreases end - calls
    {
      SentStep(host, |buf|, calls, end);
      var n := Chunk(len);
      var ret := host(calls, n);
      if ret < 0 { return Err, emitted, calls; }
      emitted := emitted + buf[bufPtr..bufPtr + ret];
      len := len - ret;
      bufPtr := bufPtr + ret;
      calls := calls + 1;
    }
    assert buf[..|buf|] == buf;
    r := Ok(count);
  }

  lemma SentNothing(host: Writer, len: nat)
    requires WritesNoMore(host)
    ensures Sent(host, len, 0) == 0
  {
  }

  ghost predicate NoneWrittenFrom(host: Writer, n: nat, k: nat) {
    forall i: nat | k <= i :: host(i, n) == 0
  }

  /** Call `k` is reached with bytes missing, and from it on the host answers zero for ever. */
  ghost predicate WriteStallsAt(host: Writer, len: nat, k: nat)
    requires WritesNoMore(host)
  {
    && Sent(host, len, k) < len && (forall i: nat | i < k :: host(i, Chunk(len - Sent(host, len, i))) >= 0)
    && NoneWrittenFrom(host, Chunk(len - Sent(host, len, k)), k)
  }

  lemma WriteStallIs(host: Writer, len: nat, k: nat)
    requires WritesNoMore(host) && Bounded(WriteAnswers(host))
    ensures StallsAt(WriteAnswers(host), len, k) <==> WriteStallsAt(host, len, k)
  {
    var a := WriteAnswers(host);
    var left := len - Moved(a, len, k);
    assert forall i: nat :: a(i, left) == host(i, Chunk(left));
    forall i: nat ensures Answer(a, len, i) == host(i, Chunk(len - Sent(host, len, i))) {}
  }

  /** The write loop ends exactly if there is no such call; a host that answers zero now and then
      does no harm. */
  lemma WriteEndsIff(host: Writer, len: nat)
    requires WritesNoMore(host)
    ensures WriteEnds(host, len) <==> !exists k: nat :: WriteStallsAt(host, len, k)
  {
    hide StallsAt, WriteStallsAt, WriteAnswers, Ends;
    WritesBounded(host);
    EndsIff(WriteAnswers(host), len);
    forall k: nat ensures StallsAt(WriteAnswers(host), len, k) <==> WriteStallsAt(host, len, k) {
      WriteStallIs(host, len, k);
    }
  }

  // ----- reading

  datatype ReadAnswer = Failed | Data(bytes: seq<byte>)

  type Reader = (nat, nat) -> ReadAnswer

  ghost predicate ReadsNoMore(host: Reader) {
    forall k: nat, n: nat :: host(k, n).Data? ==> |host(k, n).bytes| <= n
  }

  function ReadAnswers(host: Reader): Answers {
    (k: nat, left: nat) => match host(k, left) case Failed => -1 case Data(bytes) => |bytes|
  }

  lemma ReadsBounded(host: Reader)
    requires ReadsNoMore(host)
    ensures Bounded(ReadAnswers(host))
  {
    forall k: nat, left: nat ensures ReadAnswers(host)(k, left) <= left {
      assert host(k, left).Data? ==> |host(k, left).bytes| <= left;
    }
  }

  /** What has come in after `k` calls. */
  ghost function Got(host: Reader, len: nat, k: nat): (g: seq<byte>)
    requires ReadsNoMore(host)
    ensures |g| <= len
  {
    if k == 0 then []
    else
      var g := Got(host, len, k - 1);
      match host(k - 1, len - |g|)
      case Failed => g
      case Data(bytes) => g + bytes
  }

  lemma {:induction false} GotIsMoved(host: Reader, len: nat, k: nat)
    requires ReadsNoMore(host)
    ensures Bounded(ReadAnswers(host)) && |Got(host, len, k)| == Moved(ReadAnswers(host), len, k)
  {
    ReadsBounded(host);
    if k > 0 {
      GotIsMoved(host, len, k - 1);
    }
  }

  /** The read loop ends. */
  ghost predicate ReadEnds(host: Reader, len: nat)
    requires ReadsNoMore(host)
  {
    ReadsBounded(host);
    Ends(ReadAnswers(host), len)
  }

  ghost predicate ReadLeaves(host: Reader, len: nat, k: nat)
    requires ReadsNoMore(host)
  {
    ReadsBounded(host);
    Leaves(ReadAnswers(host), len, k)
  }

  lemma ReadEnd(host: Reader, len: nat) returns (end: nat)
    requires ReadsNoMore(host) && ReadEnds(host, len)
    ensures ReadLeaves(host, len, end)
  {
    ReadsBounded(host);
    end :| Leaves(ReadAnswers(host), len, end);
  }

  lemma GotStep(host: Reader, len: nat, k: nat, end: nat)
    requires ReadsNoMore(host) && |Got(host, len, k)| < len
    ensures var g := Got(host, len, k);
            match host(k, len - |g|)
            case Failed => true
            case Data(bytes) =>
              && |g| + |bytes| <= len && Got(host, len, k + 1) == g + bytes
              && (k == end ==> !ReadLeaves(host, len, end))
  {
    GotIsMoved(host, len, k);
  }

  lemma GotNothing(host: Reader, len: nat)
    requires ReadsNoMore(host)
    ensures Got(host, len, 0) == []
  {
  }

  /** The buffer, which was `was`, starts with `g` and is otherwise as before. */
  ghost predicate StartsWith(buf: seq<byte>, g: seq<byte>, was: seq<byte>) {
    |g| <= |was| && buf == g + was[|g|..]
  }

  /** The host's store into the buffer. */
  method CopyIn(buf: array<byte>, at: nat, bytes: seq<byte>, ghost g: seq<byte>, ghost was: seq<byte>)
    requires StartsWith(buf[..], g, was) && at == |g| && at + |bytes| <= buf.Length
    modifies buf
    ensures StartsWith(buf[..], g + bytes, was)
  {
    for i := 0 to |bytes|
      invariant forall j | 0 <= j < buf.Length :: buf[j] == if at <= j < at + i then bytes[j - at] else old(buf[j])
    {
      buf[at + i] := bytes[i];
    }
  }

  /** One call of `read`: the host puts bytes behind those that are there, or it fails. */
  method ReadOnce(buf: array<byte>, host: Reader, total: nat, calls: nat, ghost end: nat, ghost was: seq<byte>)
    returns (count: int)
    requires ReadsNoMore(host) && total < buf.Length && ReadLeaves(host, buf.Length, end) && calls <= end
    requires total == |Got(host, buf.Length, calls)| && StartsWith(buf[..], Got(host, buf.Length, calls), was)
    modifies buf
    ensures host(calls, buf.Length - total) == Failed <==> count == -1
    ensures count == -1 ==> buf[..] == old(buf[..])
    ensures count != -1 ==>
              && count >= 0 && calls < end && total + count == |Got(host, buf.Length, calls + 1)| <= buf.Length
              && StartsWith(buf[..], Got(host, buf.Length, calls + 1), was)
  {
    GotStep(host, buf.Length, calls, end);
    hide Got, ReadLeaves, ReadsNoMore, StartsWith;
    match host(calls, buf.Length - total)
    case Failed => return -1;
    case Data(bytes) =>
      CopyIn(buf, total, bytes, Got(host, buf.Length, calls), was);
      count := |bytes|;
  }

  /** For any host with which the loop ends: the buffer starts with what came in, and the rest of
      it is as before. The answer is the number of those bytes, all that were asked for unless
      the host has failed; only if it fails at once is the answer -1. */
  method HypercallRead(buf: array<byte>, host: Reader) returns (r: int, calls: nat)
    requires buf.Length < 0x8000_0000_0000_0000 && ReadsNoMore(host) && ReadEnds(host, buf.Length)
    modifies buf
    ensures var g := Got(host, buf.Length, calls);
            && StartsWith(buf[..], g, old(buf[..]))
            && (|g| < buf.Length ==> host(calls, buf.Length - |g|) == Failed)
            && r == if g == [] && buf.Length > 0 then -1 else |g|
  {
    ghost var end := ReadEnd(host, buf.Length);
    var total: nat, remaining: nat := 0, buf.Length;
    ghost var was := buf[..];
    calls := 0;
    GotNothing(host, buf.Length);
    assert [] + was == was && was[0..] == was;
    hide Got, ReadEnds, ReadLeaves, ReadsNoMore, StartsWith;
    while remaining > 0
      invariant total + remaining == buf.Length && calls <= end
      invariant total == |Got(host, buf.Length, calls)| && StartsWith(buf[..], Got(host, buf.Length, calls), was)
      decreases end - calls
    {
      var count := ReadOnce(buf, host, total, calls, end, was);
      if count < 0 {
        r := if remaining < buf.Length then buf.Length - remaining else -1;
        return;
      }
      total := total + count;
      remaining := remaining - count;
      calls := calls + 1;
    }
    r := total;
  }

  ghost predicate NoBytesFrom(host: Reader, n: nat, k: nat) {
    forall i: nat | k <= i :: host(i, n) == Data([])
  }

  /** Call `k` is reached with bytes missing, and from it on the host has no bytes for ever, as at
      the end of a file. */
  ghost predicate ReadStallsAt(host: Reader, len: nat, k: nat)
    requires ReadsNoMore(host)
  {
    && |Got(host, len, k)| < len && (forall i: nat | i < k :: host(i, len - |Got(host, len, i)|) != Failed)
    && NoBytesFrom(host, len - |Got(host, len, k)|, k)
  }

  lemma ReadStallIs(host: Reader, len: nat, k: nat)
    requires ReadsNoMore(host) && Bounded(ReadAnswers(host))
    ensures StallsAt(ReadAnswers(host), len, k) <==> ReadStallsAt(host, len, k)
  {
    hide Got, Moved;
    var a := ReadAnswers(host);
    forall i: nat ensures |Got(host, len, i)| == Moved(a, len, i) {
      GotIsMoved(host, len, i);
    }
    var left := len - Moved(a, len, k);
    assert forall i: nat :: a(i, left) == 0 <==> host(i, left) == Data([]);
    forall i: nat ensures Answer(a, len, i) >= 0 <==> host(i, len - |Got(host, len, i)|) != Failed {}
  }

  /** The read loop ends exactly if there is no such call. */
  lemma ReadEndsIff(host: Reader, len: nat)
    requires ReadsNoMore(host)
    ensures ReadEnds(host, len) <==> !exists k: nat :: ReadStallsAt(host, len, k)
  {
    hide StallsAt, ReadStallsAt, ReadAnswers, Ends;
    ReadsBounded(host);
    EndsIff(ReadAnswers(host), len);
    forall k: nat ensures StallsAt(ReadAnswers(host), len, k) <==> ReadStallsAt(host, len, k) {
      ReadStallIs(host, len, k);
    }
  }

  /** A host that reads from a file, and then has no more bytes. */
  function FileReader(file: seq<byte>): Reader {
    (k: nat, n: nat) => Data(if k > 0 then [] else if n < |file| then file[..n] else file)
  }

  /** A file that is shorter than the request is read for ever. */
  lemma ShortFileNeverEnds(file: seq<byte>, len: nat)
    requires |file| < len
    ensures ReadsNoMore(FileReader(file)) && !ReadEnds(FileReader(file), len)
  {
    var host := FileReader(file);
    hide ReadEnds;
    ReadEndsIff(host, len);
    assert Got(host, len, 0) == [];
    assert Got(host, len, 1) == [] + file;
    assert ReadStallsAt(host, len, 1);
  }
}
