/** The five x86-64 instructions of the startup trampoline (Intel SDM, volume 2), from the bytes in memory, and the
    record that shim_register_tls reads (shim.cpp, ShimTlsInfo). */
module Processor {
  import opened Bytes
  import opened PeImage

  /** The registers that matter. */
  datatype Cpu = Cpu(rip: int, rsp: int, rdi: int)

  datatype Outcome = Next(cpu: Cpu) | Called(target: nat, cpu: Cpu) | Jumped(cpu: Cpu) | Unknown

  function Fetched(m: int -> byte, a: int, n: nat): (s: seq<byte>)
    ensures |s| == n && forall i :: 0 <= i < n ==> s[i] == m(a + i)
  {
    seq<byte>(n, i requires 0 <= i => m(a + i))
  }

  function Load(m: int -> byte, a: int, n: nat): nat { FromLe(Fetched(m, a, n)) }

  function Signed32(v: nat): int { if v < 0x8000_0000 then v else v - U32 }

  /** One instruction. A call is taken to return with the stack as it was. */
  function Step(m: int -> byte, c: Cpu): Outcome {
    var a := c.rip;
    if Fetched(m, a, 4) == [0x48, 0x83, 0xe4, 0xf0] then                // and rsp, -16
      Next(c.(rip := a + 4, rsp := c.rsp - c.rsp % 16))
    else if Fetched(m, a, 3) == [0x48, 0x8d, 0x3d] then                 // lea rdi, [rip + disp32]
      Next(c.(rip := a + 7, rdi := a + 7 + Signed32(Load(m, a + 3, 4))))
    else if Fetched(m, a, 2) == [0xff, 0x15] then                       // call [rip + disp32]
      Called(Load(m, a + 6 + Signed32(Load(m, a + 2, 4)), 8), c.(rip := a + 6))
    else if m(a) == 0x50 then                                         // push rax
      Next(c.(rip := a + 1, rsp := c.rsp - 8))
    else if m(a) == 0xe9 then                                         // jmp rel32
      Jumped(c.(rip := a + 5 + Signed32(Load(m, a + 1, 4))))
    else Unknown
  }

  /** What a start comes to: the call with its argument and stack, and where it goes after that. */
  datatype Start = Start(target: nat, arg: int, callSp: int, entry: int, entrySp: int) | Lost

  /** Running up to the jump; the call may leave anything in rdi. */
  function Started(m: int -> byte, at: int, sp: int, rdi: int, left: int): Start {
    match Step(m, Cpu(at, sp, rdi))
    case Next(a) => (
      match Step(m, a)
      case Next(b) => (
        match Step(m, b)
        case Called(target, c) => (
          match Step(m, c.(rdi := left))
          case Next(d) => (
            match Step(m, d)
            case Jumped(e) => Start(target, b.rdi, b.rsp, e.rip, e.rsp)
            case _ => Lost)
          case _ => Lost)
        case _ => Lost)
      case _ => Lost)
    case _ => Lost
  }

  /** The TLS record at an address: six 64-bit fields. */
  function TlsRecord(m: int -> byte, a: int): Tls {
    Tls(Load(m, a, 8), Load(m, a + 8, 8), Load(m, a + 16, 8), Load(m, a + 24, 8), Load(m, a + 32, 8),
        Load(m, a + 40, 8))
  }
}
