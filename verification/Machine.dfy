/**
 The part of the x86-64 machine that the generated code uses. Nothing the
 processor leaves undefined is given a value: a register holds a value only
 once it was written and no call came since, the flags are known only right after
 a comparison, and an instruction that reads anything else is `Stuck`.
 */
module Machine {
  import opened Wrappers
  import opened Words
  import opened Semantics

  /** `%r8` to `%r11` as `R(0)` to `R(3)`, and the registers of division and calls. */
  datatype Reg = R(n: nat) | RAX | RDX | RDI

  /** Condition codes as in `sete`, `jne`, ... */
  datatype Cc = E | NE | L | G | LE | GE

  /** Operands in AT&T order: the last one is the destination. */
  datatype Instr =
    | MovImm(value: Int32, dst: Reg)
    | Load(name: string, dst: Reg)
    | Store(src: Reg, name: string)
    | Mov(src: Reg, dst: Reg)
    | AddQ(src: Reg, dst: Reg)
    | SubQ(src: Reg, dst: Reg)
    | IMulQ(src: Reg, dst: Reg)
    | Cqo
    | IDivQ(src: Reg)
    | CmpQ(src: Reg, dst: Reg)
    | SetB(cc: Cc, dst: Reg)
    | MovZBQ(dst: Reg)
    | CallPrintInt
    | Label(l: nat)
    | Jmp(l: nat)
    | J(cc: Cc, l: nat)

  datatype Flags = Flags(zf: bool, sf: bool, of: bool)

  datatype Mach = Mach(pc: nat, regs: map<Reg, Int64>, flags: Option<Flags>, w: World)
  {
    function Next(): Mach {
      this.(pc := pc + 1)
    }

    /** Write a register; the flags are not affected. */
    function Write(r: Reg, v: Int64): Mach {
      Next().(regs := regs[r := v])
    }

    /** Write the result of an arithmetic instruction. */
    function WriteArith(r: Reg, v: Int64): Mach {
      Write(r, v).(flags := None)
    }
  }

  /** The flags after subtracting `b` from `a`. */
  function CmpFlags(a: Int64, b: Int64): Flags {
    Flags(Wrap64(a - b) == 0, Wrap64(a - b) < 0, Wrap64(a - b) != a - b)
  }

  predicate Holds(cc: Cc, f: Flags) {
    match cc
    case E => f.zf
    case NE => !f.zf
    case L => f.sf != f.of
    case GE => f.sf == f.of
    case LE => f.zf || f.sf != f.of
    case G => !f.zf && f.sf == f.of
  }

  datatype Outcome = Next(m: Mach) | Halted | Fault | Stuck

  /** An instruction that does not jump. */
  function Exec1(i: Instr, m: Mach): Outcome {
    match i
    case MovImm(v, d) => Next(m.Write(d, v))
    case Load(x, d) => Next(m.Write(d, Get(m.w.store, x)))
    case Store(s, x) =>
      if s !in m.regs then Stuck
      else Next(m.Next().(w := m.w.(store := m.w.store[x := m.regs[s]])))
    case Mov(s, d) =>
      if s !in m.regs then Stuck else Next(m.Write(d, m.regs[s]))
    case AddQ(s, d) =>
      if s !in m.regs || d !in m.regs then Stuck
      else Next(m.WriteArith(d, Wrap64(m.regs[d] as int + m.regs[s] as int)))
    case SubQ(s, d) =>
      if s !in m.regs || d !in m.regs then Stuck
      else Next(m.WriteArith(d, Wrap64(m.regs[d] as int - m.regs[s] as int)))
    case IMulQ(s, d) =>
      if s !in m.regs || d !in m.regs then Stuck
      else Next(m.WriteArith(d, Wrap64(m.regs[d] as int * m.regs[s] as int)))
    case Cqo =>
      if RAX !in m.regs then Stuck
      else Next(m.Write(RDX, if m.regs[RAX] < 0 then -1 else 0))
    case IDivQ(s) =>
      if s !in m.regs || RAX !in m.regs || RDX !in m.regs then Stuck
      else
        // the dividend is the 128-bit number in %rdx:%rax
        var dividend := m.regs[RDX] * TWO_64 + m.regs[RAX] % TWO_64;
        if m.regs[s] == 0 then Fault
        else
          var q := TruncDiv(dividend, m.regs[s]);
          if q < -TWO_63 || q >= TWO_63 then Fault
          else Next(m.Next().(regs := (m.regs - {RDX})[RAX := q], flags := None))
    case CmpQ(s, d) =>
      if s !in m.regs || d !in m.regs then Stuck
      else Next(m.Next().(flags := Some(CmpFlags(m.regs[d], m.regs[s]))))
    case SetB(cc, d) =>
      // writes the low byte only
      if d !in m.regs || m.flags.None? then Stuck
      else Next(m.Write(d, WithLowByte(m.regs[d], Holds(cc, m.flags.value))))
    case MovZBQ(d) =>
      if d !in m.regs then Stuck else Next(m.Write(d, LowByte(m.regs[d])))
    case CallPrintInt =>
      // printint moves %edi, and the call may overwrite every register used here
      if RDI !in m.regs then Stuck
      else Next(m.Next().(regs := map[], flags := None, w := m.w.(out := m.w.out + [Wrap32(m.regs[RDI])])))
    case Label(_) => Next(m.Next())
    case Jmp(_) => Stuck
    case J(_, _) => Stuck
  }

  /** The position of a label's definition; the first one, if there were several. */
  function FindLabel(code: seq<Instr>, l: nat): Option<nat> {
    if code == [] then None
    else if code[0] == Label(l) then Some(0)
    else
      var p :- FindLabel(code[1..], l);
      Some(p + 1)
  }

  function Goto(code: seq<Instr>, l: nat, m: Mach): Outcome {
    match FindLabel(code, l)
    case None => Stuck
    case Some(p) => Next(m.(pc := p))
  }

  function Step(code: seq<Instr>, m: Mach): Outcome {
    if m.pc >= |code| then Halted
    else match code[m.pc]
      case Jmp(l) => Goto(code, l, m)
      case J(cc, l) =>
        if m.flags.None? then Stuck
        else if Holds(cc, m.flags.value) then Goto(code, l, m)
        else Next(m.Next())
      case i => Exec1(i, m)
  }

  /** The state after `n` steps; None if the machine stops earlier. */
  function Steps(code: seq<Instr>, m: Mach, n: nat): Option<Mach>
    decreases n
  {
    if n == 0 then Some(m)
    else match Step(code, m)
      case Next(m') => Steps(code, m', n - 1)
      case _ => None
  }

  /** How `main` is entered: no register holds anything. */
  function Start(w: World): Mach {
    Mach(0, map[], None, w)
  }

  lemma {:induction false} StepsAdd(code: seq<Instr>, m: Mach, a: nat, b: nat)
    ensures Steps(code, m, a + b)
            == match Steps(code, m, a) case None => None case Some(m') => Steps(code, m', b)
    decreases a
  {
    if a > 0 && Step(code, m).Next? {
      StepsAdd(code, Step(code, m).m, a - 1, b);
    }
  }

  /** Generated code can rely on no register after a call, as before its first instruction. */
  lemma NothingKept(m: Mach, w: World)
    ensures Exec1(CallPrintInt, m).Next? ==>
              var m' := Exec1(CallPrintInt, m).m;
              m'.regs.Keys == {} && m'.flags.None? && m'.w.store == m.w.store
    ensures Start(w).regs.Keys == {} && Start(w).flags.None?
  {
  }

  /** The signed conditions read from the flags are the comparisons, overflow or not. */
  lemma FlagsMeaning(a: Int64, b: Int64)
    ensures var f := CmpFlags(a, b);
            && (Holds(E, f) <==> a == b) && (Holds(NE, f) <==> a != b)
            && (Holds(L, f) <==> a < b) && (Holds(GE, f) <==> a >= b)
            && (Holds(LE, f) <==> a <= b) && (Holds(G, f) <==> a > b)
  {
    var d := a - b + TWO_63;
    assert d % TWO_64 == if d < 0 then d + TWO_64 else if d >= TWO_64 then d - TWO_64 else d;
  }

  /** After `cqo`, the 128-bit dividend is the number in %rax. */
  lemma SignExtended(a: Int64)
    ensures (if a < 0 then -1 else 0) * TWO_64 + a % TWO_64 == a
  {
    assert a % TWO_64 == if a < 0 then a + TWO_64 else a;
  }
}
