/** The channel by which the guest calls the VMM: eight bytes of an address through a UART
    register (uart_syscall.c, and the write path of main.rs), and the words at that address
    (hypercall.c, and `handle_hypercall` of main.rs). */
module UartChannel {
  import opened Bits
  import opened ByteMemory

  const UART0_BASE_ADDRESS: nat := 0x900_0000
  const UART_SYS_BASE_ADDRESS: nat := 0x900_1000

  // ----- the VMM loop

  /** What a virtual CPU leaves the guest for: a store to a device register, of at least one
      byte, or anything else that the loop goes on from. */
  datatype Exit = MmioWrite(address: nat, data: seq<byte>) | OtherExit {
    predicate Ok() { MmioWrite? ==> data != [] }
  }

  /** The bytes that were stored to a data register, in order. */
  function BytesTo(es: seq<Exit>, address: nat): seq<byte>
    requires forall e | e in es :: e.Ok()
  {
    if es == [] then []
    else
      var last := es[|es| - 1];
      assert last in es && last.Ok();
      BytesTo(es[..|es| - 1], address) + if last.MmioWrite? && last.address == address then [last.data[0]] else []
  }

  function SysBytes(es: seq<Exit>): seq<byte>
    requires forall e | e in es :: e.Ok()
  {
    BytesTo(es, UART_SYS_BASE_ADDRESS)
  }

  /** The words of a byte stream, eight bytes each; an incomplete one at the end is left out. */
  function WordsOf(bs: seq<byte>): seq<nat>
    decreases |bs|
  {
    if |bs| < 8 then [] else [Value(bs[..8])] + WordsOf(bs[8..])
  }

  lemma {:induction false} WordsJoin(a: seq<byte>, b: seq<byte>)
    requires |a| % 8 == 0
    ensures WordsOf(a + b) == WordsOf(a) + WordsOf(b)
    decreases |a|
  {
    if a == [] {
      assert a + b == b;
    } else {
      assert (a + b)[..8] == a[..8] && (a + b)[8..] == a[8..] + b;
      WordsJoin(a[8..], b);
    }
  }

  class UartDevice {
    var dataReg: nat
    var recvBuffer: seq<byte>
    var printed: seq<byte>

    constructor ()
      ensures recvBuffer == [] && printed == []
    {
      dataReg, recvBuffer, printed := 0, [], [];
    }

    /** `handle_write_request`. */
    method HandleWriteRequest(addr: nat, data: seq<byte>) returns (r: nat)
      requires data != []
      modifies this
      ensures addr == UART0_BASE_ADDRESS ==>
                printed == old(printed) + [data[0]] && recvBuffer == old(recvBuffer) && r == 0
      ensures addr == UART_SYS_BASE_ADDRESS ==>
                recvBuffer == old(recvBuffer) + [data[0]] && printed == old(printed) && r == |recvBuffer|
      ensures addr != UART0_BASE_ADDRESS && addr != UART_SYS_BASE_ADDRESS ==>
                recvBuffer == old(recvBuffer) && printed == old(printed) && r == 0
    {
      if addr == UART0_BASE_ADDRESS {
        dataReg := data[0];
        printed := printed + [data[0]];
      } else if addr == UART_SYS_BASE_ADDRESS {
        dataReg := data[0];
        recvBuffer := recvBuffer + [data[0]];
        return |recvBuffer|;
      }
      r := 0;
    }
  }

  /** The state between two exits, after the bytes `bs`: what is not a whole word is in the
      buffer, and the whole ones have been dispatched. */
  ghost predicate CaughtUp(bs: seq<byte>, buffer: seq<byte>, calls: seq<nat>) {
    |buffer| < 8 && |bs| % 8 == |buffer| && buffer == bs[|bs| - |buffer|..] && calls == WordsOf(bs)
  }

  lemma FewBytes(bs: seq<byte>)
    requires |bs| <= 8
    ensures WordsOf(bs) == if |bs| < 8 then [] else [Value(bs)]
  {
    if |bs| == 8 {
      assert bs[..8] == bs && bs[8..] == [];
    }
  }

  lemma OneByte(bs: seq<byte>, buffer: seq<byte>, calls: seq<nat>, b: byte)
    requires CaughtUp(bs, buffer, calls)
    ensures |buffer| + 1 < 8 ==> CaughtUp(bs + [b], buffer + [b], calls)
    ensures |buffer| + 1 == 8 ==> CaughtUp(bs + [b], [], calls + [Value((buffer + [b])[..8])])
  {
    hide WordsOf, Value;
    var whole := bs[..|bs| - |buffer|];
    assert bs == whole + buffer && bs + [b] == whole + (buffer + [b]);
    assert |buffer| + 1 == 8 ==> (buffer + [b])[..8] == buffer + [b];
    WordsJoin(whole, buffer);
    WordsJoin(whole, buffer + [b]);
    FewBytes(buffer);
    FewBytes(buffer + [b]);
  }

  lemma OneMore(es: seq<Exit>, i: nat, address: nat)
    requires i < |es| && forall e | e in es :: e.Ok()
    ensures (forall e | e in es[..i] :: e.Ok()) && (forall e | e in es[..i + 1] :: e.Ok()) && es[i].Ok()
    ensures BytesTo(es[..i + 1], address)
         == BytesTo(es[..i], address) + if es[i].MmioWrite? && es[i].address == address then [es[i].data[0]] else []
  {
    assert es[..i + 1][..i] == es[..i] && es[i] in es;
  }

  /** One exit: `calls` grows by the address in the buffer when that is full. */
  method HandleExit(console: UartDevice, sys: UartDevice, e: Exit, calls: seq<nat>,
                    ghost bs: seq<byte>) returns (after: seq<nat>)
    requires console != sys && e.Ok() && CaughtUp(bs, sys.recvBuffer, calls)
    modifies console, sys
    ensures CaughtUp(bs + if e.MmioWrite? && e.address == UART_SYS_BASE_ADDRESS then [e.data[0]] else [],
                     sys.recvBuffer, after)
    ensures console.printed
         == old(console.printed) + if e.MmioWrite? && e.address == UART0_BASE_ADDRESS then [e.data[0]] else []
  {
    after := calls;
    assert bs + [] == bs && console.printed + [] == console.printed;
    if e.MmioWrite? {
      if e.address == UART0_BASE_ADDRESS {
        var _ := console.HandleWriteRequest(e.address, e.data);
      } else if e.address == UART_SYS_BASE_ADDRESS {
        hide CaughtUp;
        assert |sys.recvBuffer| < 8 by { BufferBound(bs, sys.recvBuffer, calls); }
        OneByte(bs, sys.recvBuffer, calls, e.data[0]);
        var held := sys.HandleWriteRequest(e.address, e.data);
        if held >= 8 {
          after := calls + [Value(sys.recvBuffer[..8])];
          sys.recvBuffer := [];
        }
      }
    }
  }

  lemma BufferBound(bs: seq<byte>, buffer: seq<byte>, calls: seq<nat>)
    requires CaughtUp(bs, buffer, calls)
    ensures |buffer| < 8
  {
  }

  /** The loop of the VMM over a sequence of exits: `calls` are the addresses it hands to
      `handle_hypercall`. Whatever comes between them, the bytes for the system call device are
      taken in groups of eight, in order, and fewer than eight are kept; console bytes are
      printed as they come. */
  method RunLoop(console: UartDevice, sys: UartDevice, exits: seq<Exit>) returns (calls: seq<nat>)
    requires console != sys && sys.recvBuffer == [] && forall e | e in exits :: e.Ok()
    modifies console, sys
    ensures CaughtUp(SysBytes(exits), sys.recvBuffer, calls)
    ensures console.printed == old(console.printed) + BytesTo(exits, UART0_BASE_ADDRESS)
  {
    calls := [];
    for i := 0 to |exits|
      invariant forall e | e in exits[..i] :: e.Ok()
      invariant CaughtUp(SysBytes(exits[..i]), sys.recvBuffer, calls)
      invariant console.printed == old(console.printed) + BytesTo(exits[..i], UART0_BASE_ADDRESS)
    {
      hide CaughtUp, BytesTo;
      OneMore(exits, i, UART_SYS_BASE_ADDRESS);
      OneMore(exits, i, UART0_BASE_ADDRESS);
      calls := HandleExit(console, sys, exits[i], calls, SysBytes(exits[..i]));
    }
    assert exits[..|exits|] == exits;
  }

  // ----- the guest

  /** The stores of `uart_syscall_write`: the bytes of the value in memory order. */
  function Sends(value: nat): seq<Exit> {
    seq(8, i requires 0 <= i < 8 => MmioWrite(UART_SYS_BASE_ADDRESS, [Bytes(value, 8)[i]]))
  }

  /** `uart_syscall_send_byte_array`; the device is always ready. */
  method SendByteArray(array_: seq<byte>) returns (count: nat, exits: seq<Exit>)
    ensures count == |array_| && |exits| == count
    ensures forall i | 0 <= i < count :: exits[i] == MmioWrite(UART_SYS_BASE_ADDRESS, [array_[i]])
  {
    count, exits := 0, [];
    while count < |array_|
      invariant count == |exits| <= |array_|
      invariant forall i | 0 <= i < count :: exits[i] == MmioWrite(UART_SYS_BASE_ADDRESS, [array_[i]])
    {
      exits := exits + [MmioWrite(UART_SYS_BASE_ADDRESS, [array_[count]])];
      count := count + 1;
    }
  }

  method UartSyscallWrite(value: nat) returns (exits: seq<Exit>)
    requires value < U64
    ensures exits == Sends(value)
  {
    var _, es := SendByteArray(Bytes(value, 8));
    exits := es;
  }

  function AllBytes(values: seq<nat>): seq<byte> {
    if values == [] then [] else Bytes(values[0], 8) + AllBytes(values[1..])
  }

  lemma {:induction false} WordsOfAllBytes(values: seq<nat>)
    requires forall v | v in values :: v < U64
    ensures |AllBytes(values)| % 8 == 0 && WordsOf(AllBytes(values)) == values
  {
    hide WordsOf, Bytes, Value;
    FewBytes([]);
    if values != [] {
      assert values[0] in values && forall v | v in values[1..] :: v in values;
      WordsOfAllBytes(values[1..]);
      EightBytes();
      ValueOfBytes(values[0], 8);
      WordsJoin(Bytes(values[0], 8), AllBytes(values[1..]));
      FewBytes(Bytes(values[0], 8));
    }
  }

  lemma {:induction false} SysBytesJoin(a: seq<Exit>, b: seq<Exit>)
    requires (forall e | e in a :: e.Ok()) && forall e | e in b :: e.Ok()
    ensures forall e | e in a + b :: e.Ok()
    ensures SysBytes(a + b) == SysBytes(a) + SysBytes(b)
    decreases |b|
  {
    if b == [] {
      assert a + b == a;
    } else {
      var n := |b| - 1;
      SysBytesJoin(a, b[..n]);
      assert (a + b)[..|a + b| - 1] == a + b[..n];
    }
  }

  /** The stores of one `uart_syscall_write` are one word of the stream. */
  lemma SendsOneWord(value: nat)
    ensures (forall e | e in Sends(value) :: e.Ok()) && SysBytes(Sends(value)) == Bytes(value, 8)
  {
    FirstSends(value, 8);
    assert Sends(value)[..8] == Sends(value) && Bytes(value, 8)[..8] == Bytes(value, 8);
  }

  lemma {:induction false} FirstSends(value: nat, n: nat)
    requires n <= 8
    ensures (forall e | e in Sends(value)[..n] :: e.Ok()) && SysBytes(Sends(value)[..n]) == Bytes(value, 8)[..n]
  {
    if n > 0 {
      FirstSends(value, n - 1);
      assert Sends(value)[..n][..n - 1] == Sends(value)[..n - 1];
      assert Bytes(value, 8)[..n] == Bytes(value, 8)[..n - 1] + [Bytes(value, 8)[n - 1]];
    }
  }

  /** The stores of one `uart_syscall_write` after the other. */
  function AllSends(values: seq<nat>): seq<Exit> {
    if values == [] then [] else Sends(values[0]) + AllSends(values[1..])
  }

  lemma {:induction false} AllSendsBytes(values: seq<nat>)
    ensures (forall e | e in AllSends(values) :: e.Ok()) && SysBytes(AllSends(values)) == AllBytes(values)
  {
    if values != [] {
      SendsOneWord(values[0]);
      AllSendsBytes(values[1..]);
      SysBytesJoin(Sends(values[0]), AllSends(values[1..]));
    }
  }

  /** The stores for the system call device among the exits. */
  function SysOnly(es: seq<Exit>): seq<Exit> {
    if es == [] then []
    else
      var last := es[|es| - 1];
      SysOnly(es[..|es| - 1]) + if last.MmioWrite? && last.address == UART_SYS_BASE_ADDRESS then [last] else []
  }

  lemma {:induction false} SysOnlyBytes(es: seq<Exit>)
    requires forall e | e in es :: e.Ok()
    ensures (forall e | e in SysOnly(es) :: e.Ok()) && SysBytes(SysOnly(es)) == SysBytes(es)
  {
    if es != [] {
      var n := |es| - 1;
      assert es[n] in es;
      SysOnlyBytes(es[..n]);
      SysBytesJoin(SysOnly(es[..n]), [es[n]]);
      assert SysOnly(es[..n]) + [] == SysOnly(es[..n]);
      assert [es[n]][..0] == [];
    }
  }

  /** The VMM dispatches exactly the addresses that were sent, in order, whatever other exits,
      such as console bytes, come in between; then its buffer is empty. */
  lemma ChannelDelivers(es: seq<Exit>, values: seq<nat>, buffer: seq<byte>, calls: seq<nat>)
    requires (forall e | e in es :: e.Ok()) && (forall v | v in values :: v < U64)
    requires SysOnly(es) == AllSends(values) && CaughtUp(SysBytes(es), buffer, calls)
    ensures calls == values && buffer == []
  {
    SysOnlyBytes(es);
    AllSendsBytes(values);
    WordsOfAllBytes(values);
  }

  // ----- the words at the address

  const HVC_OPEN: nat := 0x8001
  const HVC_READ: nat := 0x8002
  const HVC_WRITE: nat := 0x8003
  const HVC_LSEEK: nat := 0x8004
  const HVC_CLOSE: nat := 0x8005
  const HVC_EXIT: nat := 0x8006

  /** `as c_int`: the low half of a word, as a signed number. */
  function CInt(w: nat): (r: int)
    ensures -0x8000_0000 <= r < 0x8000_0000 && (w - r) % 0x1_0000_0000 == 0
  {
    var low := w % 0x1_0000_0000;
    if low < 0x8000_0000 then low else low - 0x1_0000_0000
  }

  /** Every signed 32-bit value is read back from the 64-bit word that it was extended to, with its sign. */
  lemma CIntReads(v: int)
    requires -0x8000_0000 <= v < 0x8000_0000
    ensures CInt(if v < 0 then v + 0x1_0000_0000_0000_0000 else v) == v
  {
  }

  /** What the host is asked to do. */
  datatype HostCall =
    | Open(name: nat, flags: int, mode: nat)
    | ReadInto(fd: int, buffer: nat, len: nat)
    | WriteFrom(fd: int, buffer: nat, len: nat)
    | Seek(fd: int, offset: nat, whence: int)
    | Close(fd: int)
    | ExitVmm(code: int)
    | Unknown

  /** The decoding in `handle_hypercall`. Closing and exiting use word 2. */
  function Decode(w: seq<nat>): HostCall
    requires |w| == 7
  {
    if w[0] == HVC_OPEN then Open(w[1], CInt(w[2]), w[3] % 0x1_0000_0000)
    else if w[0] == HVC_READ then ReadInto(CInt(w[1]), w[2], w[3])
    else if w[0] == HVC_WRITE then WriteFrom(CInt(w[1]), w[2], w[3])
    else if w[0] == HVC_LSEEK then Seek(CInt(w[1]), w[2], CInt(w[3]))
    else if w[0] == HVC_CLOSE then Close(CInt(w[2]))
    else if w[0] == HVC_EXIT then ExitVmm(CInt(w[2]))
    else Unknown
  }

  /** What the caller of `io_hypercall` means by a code and its arguments. */
  function Meant(code: nat, a0: nat, a1: nat, a2: nat): HostCall {
    if code == HVC_OPEN then Open(a0, CInt(a1), a2 % 0x1_0000_0000)
    else if code == HVC_READ then ReadInto(CInt(a0), a1, a2)
    else if code == HVC_WRITE then WriteFrom(CInt(a0), a1, a2)
    else if code == HVC_LSEEK then Seek(CInt(a0), a1, CInt(a2))
    else if code == HVC_CLOSE then Close(CInt(a0))
    else if code == HVC_EXIT then ExitVmm(CInt(a0))
    else Unknown
  }

  /** What the host does for each code. */
  lemma DecodeIs(a: nat, b: nat, c: nat, d: nat, e: nat, f: nat)
    ensures Decode([0x8001, a, b, c, d, e, f]) == Open(a, CInt(b), c % 0x1_0000_0000)
    ensures Decode([0x8002, a, b, c, d, e, f]) == ReadInto(CInt(a), b, c)
    ensures Decode([0x8003, a, b, c, d, e, f]) == WriteFrom(CInt(a), b, c)
    ensures Decode([0x8004, a, b, c, d, e, f]) == Seek(CInt(a), b, CInt(c))
    ensures Decode([0x8005, a, b, c, d, e, f]) == Close(CInt(b))
    ensures Decode([0x8006, a, b, c, d, e, f]) == ExitVmm(CInt(b))
    ensures forall code: nat | code < 0x8001 || 0x8006 < code :: Decode([code, a, b, c, d, e, f]) == Unknown
  {
  }

  /** Host and guest agree on every call but closing and exiting; on those exactly when the
      first two arguments are the same descriptor or exit code. */
  lemma AgreeIff(code: nat, args: seq<nat>)
    requires |args| == 6
    ensures Decode([code] + args) == Meant(code, args[0], args[1], args[2])
        <==> (code == HVC_CLOSE || code == HVC_EXIT ==> CInt(args[0]) == CInt(args[1]))
  {
  }

  /** `hvc_call_exit` passes its reason first and zeros after it: the host always exits with
      code zero. */
  lemma ExitReasonIsLost(reason: nat)
    ensures Decode([HVC_EXIT, reason, 0, 0, 0, 0, 0]) == ExitVmm(0)
  {
  }

  /** `get_shared_bit`, and clearing it: bit 32 marks memory that the host can see. */
  const SHARED_BIT: nat := 0x1_0000_0000

  function Unshared(pa: nat): (r: nat)
    ensures r == if pa / 0x1_0000_0000 % 2 == 1 then pa - 0x1_0000_0000 else pa
    ensures r / 0x1_0000_0000 % 2 == 0
  {
    if Bit(pa, 0x1_0000_0000) then pa - SHARED_BIT else pa
  }

  /** The stores for one address, sent to a monitor that has nothing in its buffer, make it
      dispatch that address once. */
  lemma OneAddressDelivered(address: nat, buffer: seq<byte>, calls: seq<nat>)
    requires address < U64
    ensures forall e | e in Sends(address) :: e.Ok()
    ensures CaughtUp(SysBytes(Sends(address)), buffer, calls) ==> calls == [address] && buffer == []
  {
    SendsOneWord(address);
    EightBytes();
    ValueOfBytes(address, 8);
    FewBytes(Bytes(address, 8));
  }
}
