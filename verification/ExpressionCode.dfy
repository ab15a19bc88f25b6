/** The code of an expression computes its value and disturbs nothing else. */
module ExpressionCode {
  import opened Wrappers
  import opened Words
  import opened PrecedenceParser
  import opened Ast
  import opened Semantics
  import opened Machine
  import opened CodeGen
  import opened Labels
  import opened Registers

  /** A run of straight-line code: to its end, or to an instruction that faults in state `m`. */
  datatype Line = Finished(m: Mach) | Faulted(m: Mach) | Broken

  function RunLine(code: seq<Instr>, m: Mach): Line {
    if code == [] then Finished(m)
    else match Exec1(code[0], m)
      case Next(m') => RunLine(code[1..], m')
      case Fault => Faulted(m)
      case _ => Broken
  }

  lemma {:induction false} RunLineConcat(a: seq<Instr>, b: seq<Instr>, m: Mach)
    ensures RunLine(a + b, m) == match RunLine(a, m) case Finished(m') => RunLine(b, m') case r => r
  {
    if a == [] {
      assert a + b == b;
    } else {
      assert (a + b)[1..] == a[1..] + b;
      match Exec1(a[0], m)
      case Next(m') => RunLineConcat(a[1..], b, m');
      case _ =>
    }
  }

  lemma RunFirst(i: Instr, rest: seq<Instr>, m: Mach)
    ensures Exec1(i, m).Next? ==> RunLine([i] + rest, m) == RunLine(rest, Exec1(i, m).m)
    ensures Exec1(i, m).Fault? ==> RunLine([i] + rest, m) == Faulted(m)
  {
    assert ([i] + rest)[1..] == rest;
  }

  lemma RunOne(i: Instr, m: Mach)
    ensures Exec1(i, m).Next? ==> RunLine([i], m) == Finished(Exec1(i, m).m)
    ensures Exec1(i, m).Fault? ==> RunLine([i], m) == Faulted(m)
  {
  }

  // ---------- In its place in a program ----------

  /** `frag` stands at position `pos` of `code`. */
  ghost predicate CodeAt(code: seq<Instr>, pos: nat, frag: seq<Instr>) {
    pos + |frag| <= |code| && code[pos..pos + |frag|] == frag
  }

  lemma CodeAtParts(code: seq<Instr>, pos: nat, a: seq<Instr>, b: seq<Instr>)
    requires CodeAt(code, pos, a + b)
    ensures CodeAt(code, pos, a) && CodeAt(code, pos + |a|, b)
  {
    assert a == (a + b)[..|a|] && b == (a + b)[|a|..];
  }

  lemma StepsStraight(code: seq<Instr>, i: Instr, m: Mach)
    requires m.pc < |code| && code[m.pc] == i && IsStraight(i)
    ensures Step(code, m) == Exec1(i, m)
    ensures Exec1(i, m).Next? ==> Exec1(i, m).m.pc == m.pc + 1
  {
  }

  lemma {:induction false} LineInProgram(code: seq<Instr>, frag: seq<Instr>, m: Mach) returns (n: nat)
    requires CodeAt(code, m.pc, frag) && Straight(frag) && !RunLine(frag, m).Broken?
    ensures Steps(code, m, n) == Some(RunLine(frag, m).m)
    ensures match RunLine(frag, m)
            case Finished(m') => m'.pc == m.pc + |frag|
            case Faulted(m') => Step(code, m') == Fault
    decreases |frag|
  {
    hide Exec1, Step;
    n := 0;
    if frag != [] {
      StepsStraight(code, frag[0], m);
      if Exec1(frag[0], m).Next? {
        var rest := frag[1..];
        assert frag == [frag[0]] + rest;
        CodeAtParts(code, m.pc, [frag[0]], rest);
        assert Straight(rest) by {
          assert forall i :: 0 <= i < |rest| ==> rest[i] == frag[i + 1];
        }
        n := LineInProgram(code, rest, Exec1(frag[0], m).m);
        n := n + 1;
      }
    }
  }

  // ---------- Correctness ----------

  ghost predicate InRegister(m: Mach, r: nat, v: Int64) {
    R(r) in m.regs && m.regs[R(r)] == v
  }

  /** The registers that `f` does not list as free keep their values. */
  ghost predicate Keeps(f: FreeList, m: Mach, m': Mach) {
    forall q: nat :: q < 4 && !f[q] && R(q) in m.regs ==> R(q) in m'.regs && m'.regs[R(q)] == m.regs[R(q)]
  }

  /** Combining two registers computes the operation, and changes no third one of the four. */
  lemma OperatorRuns(op: BinOp, r1: nat, r2: nat, m: Mach)
    requires r1 < 4 && r2 < 4 && r1 != r2 && R(r1) in m.regs && R(r2) in m.regs
    ensures var (code, reg, _) := OperatorCode(op, r1, r2);
            match Arith(op, m.regs[R(r1)], m.regs[R(r2)])
            case None => RunLine(code, m).Faulted? && RunLine(code, m).m.w == m.w
            case Some(v) =>
              && RunLine(code, m).Finished?
              && var m' := RunLine(code, m).m;
                 && InRegister(m', reg, v) && m'.w == m.w
                 && forall q :: q != r1 && q != r2 && R(q) in m.regs ==>
                                  R(q) in m'.regs && m'.regs[R(q)] == m.regs[R(q)]
  {
    hide RunLine, Quotient, Compare, SetCode, IsQuotient;
    var (code, _, _) := OperatorCode(op, r1, r2);
    if op == Divide {
      DivideRuns(r1, r2, m);
      DivideMeaning(m.regs[R(r1)], m.regs[R(r2)],
                    if RunLine(code, m).Finished? then RunLine(code, m).m.regs[R(r1)] else 0);
    } else if op.IsComparison() {
      CompareRuns(op, r1, r2, m);
    } else {
      RunOne(code[0], m);
    }
  }

  lemma DivideRuns(r1: nat, r2: nat, m: Mach)
    requires r1 != r2 && R(r1) in m.regs && R(r2) in m.regs
    ensures var code := [Mov(R(r1), RAX), Cqo, IDivQ(R(r2)), Mov(RAX, R(r1))];
            var a, b := m.regs[R(r1)], m.regs[R(r2)];
            if b == 0 || (a == -0x8000_0000_0000_0000 && b == -1) then
              RunLine(code, m).Faulted? && RunLine(code, m).m.w == m.w
            else
              && RunLine(code, m).Finished?
              && var m' := RunLine(code, m).m;
                 && R(r1) in m'.regs && IsQuotient(a, b, m'.regs[R(r1)]) && m'.w == m.w
                 && forall q :: q != r1 && R(q) in m.regs ==> R(q) in m'.regs && m'.regs[R(q)] == m.regs[R(q)]
  {
    hide RunLine, TruncDiv, IsQuotient;
    var a := m.regs[R(r1)];
    var m1 := m.Write(RAX, a);
    var m2 := m1.Write(RDX, if a < 0 then -1 else 0);
    var store := [Mov(RAX, R(r1))];
    var divide := [IDivQ(R(r2))] + store;
    RunFirst(Mov(R(r1), RAX), [Cqo] + divide, m);
    RunFirst(Cqo, divide, m1);
    RunFirst(IDivQ(R(r2)), store, m2);
    assert [Mov(R(r1), RAX), Cqo, IDivQ(R(r2)), Mov(RAX, R(r1))] == [Mov(R(r1), RAX)] + ([Cqo] + divide);
    IDivRuns(R(r2), a, m2);
    if m.regs[R(r2)] != 0 {
      QuotientRange(a, m.regs[R(r2)]);
    }
    if Exec1(IDivQ(R(r2)), m2).Next? {
      TruncDivMeaning(a, m.regs[R(r2)], Exec1(IDivQ(R(r2)), m2).m.regs[RAX]);
      RunOne(Mov(RAX, R(r1)), Exec1(IDivQ(R(r2)), m2).m);
    }
  }

  /** `idivq` on a dividend that `cqo` extended from %rax. */
  lemma IDivRuns(r: Reg, a: Int64, m: Mach)
    requires r in m.regs && RAX in m.regs && RDX in m.regs
    requires m.regs[RAX] == a && m.regs[RDX] == (if a < 0 then -1 else 0)
    ensures var b := m.regs[r];
            if b == 0 || !(-TWO_63 <= TruncDiv(a, b) < TWO_63) then Exec1(IDivQ(r), m) == Fault
            else Exec1(IDivQ(r), m) == Next(m.Next().(regs := (m.regs - {RDX})[RAX := TruncDiv(a, b)], flags := None))
  {
    hide TruncDiv;
    SignExtended(a);
  }

  lemma CompareRuns(op: BinOp, r1: nat, r2: nat, m: Mach)
    requires op.IsComparison() && R(r1) in m.regs && R(r2) in m.regs
    ensures var code := [CmpQ(R(r2), R(r1)), SetB(SetCode(op), R(r2)), MovZBQ(R(r2))];
            && RunLine(code, m).Finished?
            && var m' := RunLine(code, m).m;
               && InRegister(m', r2, if Compare(op, m.regs[R(r1)], m.regs[R(r2)]) then 1 else 0)
               && m'.w == m.w
               && forall q :: q != r2 && R(q) in m.regs ==> R(q) in m'.regs && m'.regs[R(q)] == m.regs[R(q)]
  {
    var a, b := m.regs[R(r1)], m.regs[R(r2)];
    assert Holds(SetCode(op), CmpFlags(a, b)) == Compare(op, a, b) by {
      FlagsMeaning(a, b);
    }
    var tail := [SetB(SetCode(op), R(r2)), MovZBQ(R(r2))];
    assert [CmpQ(R(r2), R(r1)), SetB(SetCode(op), R(r2)), MovZBQ(R(r2))] == [CmpQ(R(r2), R(r1))] + tail;
    RunFirst(CmpQ(R(r2), R(r1)), tail, m);
    SetRuns(SetCode(op), R(r2), m.Next().(flags := Some(CmpFlags(a, b))));
  }

  /** `setcc` and the zero extension leave 1 or 0, whatever the register held. */
  lemma SetRuns(cc: Cc, d: Reg, m: Mach)
    requires d in m.regs && m.flags.Some?
    ensures var r := RunLine([SetB(cc, d), MovZBQ(d)], m);
            && r.Finished? && r.m.w == m.w
            && r.m.regs == m.regs[d := if Holds(cc, m.flags.value) then 1 else 0]
  {
    hide LowByte, WithLowByte, RunLine, Holds;
    var v := WithLowByte(m.regs[d], Holds(cc, m.flags.value));
    LowByteSet(m.regs[d], Holds(cc, m.flags.value));
    var m1 := m.Write(d, v);
    var m2 := m1.Write(d, LowByte(v));
    assert Exec1(SetB(cc, d), m) == Next(m1) && Exec1(MovZBQ(d), m1) == Next(m2);
    assert m2.regs == m.regs[d := LowByte(v)];
    assert [SetB(cc, d), MovZBQ(d)] == [SetB(cc, d)] + [MovZBQ(d)];
    RunFirst(SetB(cc, d), [MovZBQ(d)], m);
    RunOne(MovZBQ(d), m1);
  }

  lemma LeafRuns(gsym: seq<string>, a: Atom, f: FreeList, m: Mach)
    requires LoadAtom(gsym, a, f).Some?
    ensures var r := LoadAtom(gsym, a, f).value;
            && |r.code| == 1 && Exec1(r.code[0], m).Next?
            && var m' := Exec1(r.code[0], m).m;
               && InRegister(m', r.reg, match a case Num(v) => v case Slot(id) => Get(m.w.store, Name(gsym, id)))
               && Keeps(f, m, m') && m'.w == m.w
  {
  }

  /** From any registers held: the value ends up in the register returned, every register
      that was held keeps its value, and so do the variables and the output. The code faults
      exactly when the expression has no value. */
  lemma {:induction false} ExpressionCorrect(gsym: seq<string>, e: Expr, f: FreeList, m: Mach)
    requires GenExpr(gsym, e, f).Some?
    ensures var r := GenExpr(gsym, e, f).value;
            match Eval(gsym, e, m.w.store)
            case None => RunLine(r.code, m).Faulted? && RunLine(r.code, m).m.w == m.w
            case Some(v) =>
              && RunLine(r.code, m).Finished?
              && var m' := RunLine(r.code, m).m;
                 InRegister(m', r.reg, v) && Keeps(f, m, m') && m'.w == m.w
    decreases e
  {
    hide RunLine, Exec1, Release, Arith;
    match e
    case Leaf(a) =>
      LeafRuns(gsym, a, f, m);
      RunOne(GenExpr(gsym, e, f).value.code[0], m);
    case Node(op, l, r) =>
      var a := GenExpr(gsym, l, f).value;
      var b := GenExpr(gsym, r, a.free).value;
      var (code, _, _) := OperatorCode(op, a.reg, b.reg);
      HoldsOneMore(gsym, l, f);
      HoldsOneMore(gsym, r, a.free);
      RunLineConcat(a.code, b.code, m);
      RunLineConcat(a.code + b.code, code, m);
      ExpressionCorrect(gsym, l, f, m);
      if RunLine(a.code, m).Finished? {
        var m1 := RunLine(a.code, m).m;
        ExpressionCorrect(gsym, r, a.free, m1);
        if RunLine(b.code, m1).Finished? {
          OperatorRuns(op, a.reg, b.reg, RunLine(b.code, m1).m);
        }
      }
  }
}
