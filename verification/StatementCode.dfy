/** The code of a statement, run where it stands in a program, does what the statement does. */
module StatementCode {
  import opened Wrappers
  import opened Words
  import opened Ast
  import opened Semantics
  import opened Machine
  import opened CodeGen
  import opened Labels
  import opened Registers
  import opened ExpressionCode

  ghost predicate LabelsOnce(code: seq<Instr>) {
    forall l: nat :: Definitions(code, l) <= 1
  }

  lemma LabelAt(code: seq<Instr>, l: nat, p: nat)
    requires LabelsOnce(code) && CodeAt(code, p, [Label(l)])
    ensures FindLabel(code, l) == Some(p)
  {
    assert code[p] == code[p..p + 1][0];
    DefinedAt(code, l, p);
    FoundWhereDefined(code, l, p);
  }

  /** Executing a label only moves on. */
  lemma PassLabel(code: seq<Instr>, l: nat, m: Mach)
    requires CodeAt(code, m.pc, [Label(l)])
    ensures Steps(code, m, 1) == Some(m.Next())
  {
    assert code[m.pc] == code[m.pc..m.pc + 1][0];
    assert Steps(code, m.Next(), 0) == Some(m.Next());
  }

  lemma JumpTo(code: seq<Instr>, l: nat, m: Mach, p: nat)
    requires LabelsOnce(code) && CodeAt(code, m.pc, [Jmp(l)]) && CodeAt(code, p, [Label(l)])
    ensures Steps(code, m, 1) == Some(m.(pc := p))
  {
    LabelAt(code, l, p);
    assert code[m.pc] == code[m.pc..m.pc + 1][0];
    OneStep(code, m);
  }

  /** A jump to a label at position `p`, and past it. */
  lemma JumpPast(code: seq<Instr>, l: nat, m: Mach, p: nat)
    requires LabelsOnce(code) && CodeAt(code, m.pc, [Jmp(l)]) && CodeAt(code, p, [Label(l)])
    ensures Steps(code, m, 2) == Some(m.(pc := p + 1))
  {
    JumpTo(code, l, m, p);
    PassLabel(code, l, m.(pc := p));
    Continue(code, m, 1, m.(pc := p), 1, m.(pc := p + 1));
  }

  lemma Continue(code: seq<Instr>, m: Mach, n1: nat, m1: Mach, n2: nat, m2: Mach)
    requires Steps(code, m, n1) == Some(m1) && Steps(code, m1, n2) == Some(m2)
    ensures Steps(code, m, n1 + n2) == Some(m2)
  {
    StepsAdd(code, m, n1, n2);
  }

  lemma NoStep(code: seq<Instr>, m: Mach)
    ensures Steps(code, m, 0) == Some(m)
  {
  }

  lemma OneStep(code: seq<Instr>, m: Mach)
    requires Step(code, m).Next?
    ensures Steps(code, m, 1) == Some(Step(code, m).m)
  {
    assert Steps(code, Step(code, m).m, 0) == Some(Step(code, m).m);
  }

  // ---------- Conditions ----------

  lemma InverseJumps(op: BinOp, a: Int64, b: Int64)
    requires op.IsComparison()
    ensures Arith(op, a, b) == Some(if Holds(InverseCode(op), CmpFlags(a, b)) then 0 else 1)
  {
    FlagsMeaning(a, b);
  }

  lemma OperandsRun(gsym: seq<string>, c: Condition, f: FreeList, m: Mach)
    requires GenExpr(gsym, c.left, f).Some?
    requires GenExpr(gsym, c.right, GenExpr(gsym, c.left, f).value.free).Some?
    ensures var a := GenExpr(gsym, c.left, f).value;
            var b := GenExpr(gsym, c.right, a.free).value;
            var r := RunLine(a.code + b.code + [CmpQ(R(b.reg), R(a.reg))], m);
            match Eval(gsym, c, m.w.store)
            case None => r.Faulted? && r.m.w == m.w
            case Some(v) =>
              && r.Finished? && r.m.w == m.w && r.m.flags.Some?
              && (v != 0 <==> !Holds(InverseCode(c.op), r.m.flags.value))
  {
    hide CmpFlags, Holds, InverseCode, Arith, RunLine, GenExpr;
    var a := GenExpr(gsym, c.left, f).value;
    var b := GenExpr(gsym, c.right, a.free).value;
    HoldsOneMore(gsym, c.left, f);
    RunLineConcat(a.code, b.code, m);
    RunLineConcat(a.code + b.code, [CmpQ(R(b.reg), R(a.reg))], m);
    ExpressionCorrect(gsym, c.left, f, m);
    if RunLine(a.code, m).Finished? {
      var m1 := RunLine(a.code, m).m;
      ExpressionCorrect(gsym, c.right, a.free, m1);
      if RunLine(b.code, m1).Finished? {
        var m2 := RunLine(b.code, m1).m;
        InverseJumps(c.op, m2.regs[R(a.reg)], m2.regs[R(b.reg)]);
        RunOne(CmpQ(R(b.reg), R(a.reg)), m2);
      }
    }
  }

  /** A condition falls through exactly when it holds, and jumps to its parent's label otherwise. */
  lemma ConditionRuns(gsym: seq<string>, c: Condition, f: FreeList, lab: nat, code: seq<Instr>, m: Mach, p: nat)
    returns (n: nat, m': Mach)
    requires GenCondition(gsym, c, f, lab).Some? && CodeAt(code, m.pc, GenCondition(gsym, c, f, lab).value)
    requires FindLabel(code, lab) == Some(p)
    ensures Steps(code, m, n) == Some(m') && m'.w == m.w
    ensures match Eval(gsym, c, m.w.store)
            case None => Step(code, m') == Fault
            case Some(v) =>
              m'.pc == if v != 0 then m.pc + |GenCondition(gsym, c, f, lab).value| else p
  {
    hide Steps, Step, CodeAt, RunLine, Eval, GenExpr, FindLabel, Holds, InverseCode, Straight;
    var a := GenExpr(gsym, c.left, f).value;
    var b := GenExpr(gsym, c.right, a.free).value;
    var jump := J(InverseCode(c.op), lab);
    var line := a.code + b.code + [CmpQ(R(b.reg), R(a.reg))];
    assert line + [jump] == GenCondition(gsym, c, f, lab).value;
    CodeAtParts(code, m.pc, line, [jump]);
    ConditionLabels(gsym, c, f, lab);
    assert Straight(line) by {
      assert line == (line + [jump])[..|line + [jump]| - 1];
    }
    OperandsRun(gsym, c, f, m);
    n := LineInProgram(code, line, m);
    m' := RunLine(line, m).m;
    if Eval(gsym, c, m.w.store).Some? {
      ConditionalJump(code, InverseCode(c.op), lab, m', p);
      var next := Step(code, m').m;
      Continue(code, m, n, m', 1, next);
      n, m' := n + 1, next;
    }
  }

  lemma ConditionalJump(code: seq<Instr>, cc: Cc, l: nat, m: Mach, p: nat)
    requires CodeAt(code, m.pc, [J(cc, l)]) && FindLabel(code, l) == Some(p) && m.flags.Some?
    ensures var m' := m.(pc := if Holds(cc, m.flags.value) then p else m.pc + 1);
            Step(code, m) == Next(m') && Steps(code, m, 1) == Some(m')
  {
    assert code[m.pc] == code[m.pc..m.pc + 1][0];
    OneStep(code, m);
  }

  // ---------- Statements ----------

  /** What the machine has reached after `n` steps stands for result `r` of a run with
      loop bound `k`, if the code ends at position `end`. */
  ghost predicate Reached(code: seq<Instr>, m: Mach, n: nat, r: Result, k: nat, end: nat) {
    && m.w == r.w
    && match r
       case Done(_) => m.pc == end
       case Trap(_) => Step(code, m) == Fault
       case Timeout(_) => n >= k
  }

  lemma {:induction false} StatementRuns(gsym: seq<string>, s: Stmt, f: FreeList, lab: nat,
                                         code: seq<Instr>, m: Mach, k: nat)
    returns (n: nat, m': Mach)
    requires GenStmt(gsym, s, f, lab).Some? && CodeAt(code, m.pc, GenStmt(gsym, s, f, lab).value.code)
    requires LabelsOnce(code)
    ensures Steps(code, m, n) == Some(m')
    ensures Reached(code, m', n, Exec(gsym, s, m.w, k), k, m.pc + |GenStmt(gsym, s, f, lab).value.code|)
    decreases k, s, 1
  {
    hide Steps, Step, CodeAt, Eval, GenExpr, GenCondition, FindLabel, LabelsOnce;
    match s
    case Print(e) =>
      n, m' := LineRuns(gsym, e, f, [Mov(R(GenExpr(gsym, e, f).value.reg), RDI), CallPrintInt], code, m);
    case Assign(x, e) =>
      n, m' := LineRuns(gsym, e, f, [Store(R(GenExpr(gsym, e, f).value.reg), Name(gsym, x))], code, m);
    case Glue(s1, s2) =>
      var a := GenStmt(gsym, s1, f, lab).value;
      var b := GenStmt(gsym, s2, ALL_FREE, a.next).value;
      CodeAtParts(code, m.pc, a.code, b.code);
      n, m' := StatementRuns(gsym, s1, f, lab, code, m, k);
      if Exec(gsym, s1, m.w, k).Done? {
        var n1, m1 := n, m';
        n, m' := StatementRuns(gsym, s2, ALL_FREE, a.next, code, m1, k);
        Continue(code, m, n1, m1, n, m');
        n := n1 + n;
      }
    case If(c, thn, None) =>
      n, m' := IfRuns(gsym, c, thn, f, lab, code, m, k);
    case If(c, thn, Some(els)) =>
      n, m' := IfElseRuns(gsym, c, thn, els, f, lab, code, m, k);
    case While(c, body) =>
      n, m' := WhileRuns(gsym, c, body, f, lab, code, m, k);
  }

  lemma LastIsStraight(last: seq<Instr>)
    requires (|last| == 1 && last[0].Store?) || (|last| == 2 && last[0].Mov? && last[1] == CallPrintInt)
    ensures Straight(last)
  {
  }

  /** An expression followed by the instructions that use its value. */
  lemma LineRuns(gsym: seq<string>, e: Expr, f: FreeList, last: seq<Instr>, code: seq<Instr>, m: Mach)
    returns (n: nat, m': Mach)
    requires GenExpr(gsym, e, f).Some? && CodeAt(code, m.pc, GenExpr(gsym, e, f).value.code + last)
    requires var r := R(GenExpr(gsym, e, f).value.reg);
             last == [Mov(r, RDI), CallPrintInt] || (|last| == 1 && last[0].Store? && last[0].src == r)
    ensures Steps(code, m, n) == Some(m')
    ensures match Eval(gsym, e, m.w.store)
            case None => m'.w == m.w && Step(code, m') == Fault
            case Some(v) =>
              && m'.pc == m.pc + |GenExpr(gsym, e, f).value.code + last|
              && m'.w == if |last| == 1 then m.w.(store := m.w.store[last[0].name := v])
                         else m.w.(out := m.w.out + [Wrap32(v)])
  {
    hide GenExpr, Eval, Steps, Step, Straight, CodeAt;
    var a := GenExpr(gsym, e, f).value;
    ExpressionsAreStraight(gsym, e, f);
    LastIsStraight(last);
    StraightConcat(a.code, last);
    RunLineConcat(a.code, last, m);
    ExpressionCorrect(gsym, e, f, m);
    if Eval(gsym, e, m.w.store).Some? {
      var m1 := RunLine(a.code, m).m;
      if |last| == 1 {
        RunOne(last[0], m1);
      } else {
        assert last == [last[0]] + [CallPrintInt];
        RunFirst(last[0], [CallPrintInt], m1);
        RunOne(CallPrintInt, m1.Write(RDI, m1.regs[R(a.reg)]));
      }
    }
    n := LineInProgram(code, a.code + last, m);
    m' := RunLine(a.code + last, m).m;
  }

  lemma {:induction false} IfRuns(gsym: seq<string>, c: Condition, thn: Stmt, f: FreeList, lab: nat,
                                  code: seq<Instr>, m: Mach, k: nat)
    returns (n: nat, m': Mach)
    requires var g := GenStmt(gsym, If(c, thn, None), f, lab);
             g.Some? && CodeAt(code, m.pc, g.value.code)
    requires LabelsOnce(code)
    ensures Steps(code, m, n) == Some(m')
    ensures Reached(code, m', n, Exec(gsym, If(c, thn, None), m.w, k), k,
                    m.pc + |GenStmt(gsym, If(c, thn, None), f, lab).value.code|)
    decreases k, If(c, thn, None), 0
  {
    hide Steps, Step, CodeAt, Eval, GenExpr, GenCondition, FindLabel, LabelsOnce;
    var cond := GenCondition(gsym, c, f, lab).value;
    var a := GenStmt(gsym, thn, ALL_FREE, lab + 1).value;
    CodeAtParts(code, m.pc, cond + a.code, [Label(lab)]);
    CodeAtParts(code, m.pc, cond, a.code);
    var p := m.pc + |cond| + |a.code|;
    LabelAt(code, lab, p);
    n, m' := ConditionRuns(gsym, c, f, lab, code, m, p);
    var v := Eval(gsym, c, m.w.store);
    if v.Some? {
      if v.value != 0 {
        var n1, m1 := n, m';
        n, m' := StatementRuns(gsym, thn, ALL_FREE, lab + 1, code, m1, k);
        Continue(code, m, n1, m1, n, m');
        n := n1 + n;
      }
      if v.value == 0 || Exec(gsym, thn, m.w, k).Done? {
        PassLabel(code, lab, m');
        Continue(code, m, n, m', 1, m'.Next());
        n, m' := n + 1, m'.Next();
      }
    }
  }

  lemma {:induction false} IfElseRuns(gsym: seq<string>, c: Condition, thn: Stmt, els: Stmt, f: FreeList, lab: nat,
                                      code: seq<Instr>, m: Mach, k: nat)
    returns (n: nat, m': Mach)
    requires var g := GenStmt(gsym, If(c, thn, Some(els)), f, lab);
             g.Some? && CodeAt(code, m.pc, g.value.code)
    requires LabelsOnce(code)
    ensures Steps(code, m, n) == Some(m')
    ensures Reached(code, m', n, Exec(gsym, If(c, thn, Some(els)), m.w, k), k,
                    m.pc + |GenStmt(gsym, If(c, thn, Some(els)), f, lab).value.code|)
    decreases k, If(c, thn, Some(els)), 0
  {
    hide Steps, Step, CodeAt, Eval, GenExpr, GenCondition, FindLabel, LabelsOnce;
    var cond := GenCondition(gsym, c, f, lab).value;
    var a := GenStmt(gsym, thn, ALL_FREE, lab + 2).value;
    var b := GenStmt(gsym, els, ALL_FREE, a.next).value;
    IfElseParts(code, m.pc, cond, a.code, b.code, lab);
    var p := m.pc + |cond| + |a.code| + 1;
    LabelAt(code, lab, p);
    n, m' := ConditionRuns(gsym, c, f, lab, code, m, p);
    var v := Eval(gsym, c, m.w.store);
    if v.Some? {
      var n1, m1 := n, m';
      if v.value != 0 {
        n, m' := StatementRuns(gsym, thn, ALL_FREE, lab + 2, code, m1, k);
        Continue(code, m, n1, m1, n, m');
        n := n1 + n;
        if Exec(gsym, thn, m.w, k).Done? {
          JumpPast(code, lab + 1, m', p + 1 + |b.code|);
          Continue(code, m, n, m', 2, m'.(pc := p + 1 + |b.code| + 1));
          n, m' := n + 2, m'.(pc := p + 1 + |b.code| + 1);
        }
      } else {
        PassLabel(code, lab, m1);
        var m2 := m1.Next();
        Continue(code, m, n1, m1, 1, m2);
        n, m' := StatementRuns(gsym, els, ALL_FREE, a.next, code, m2, k);
        Continue(code, m, n1 + 1, m2, n, m');
        n := n1 + 1 + n;
        if Exec(gsym, els, m.w, k).Done? {
          PassLabel(code, lab + 1, m');
          Continue(code, m, n, m', 1, m'.Next());
          n, m' := n + 1, m'.Next();
        }
      }
    }
  }

  lemma IfElseParts(code: seq<Instr>, pos: nat, cond: seq<Instr>, thn: seq<Instr>, els: seq<Instr>, lab: nat)
    requires CodeAt(code, pos, cond + thn + [Jmp(lab + 1), Label(lab)] + els + [Label(lab + 1)])
    ensures CodeAt(code, pos, cond) && CodeAt(code, pos + |cond|, thn)
    ensures var p := pos + |cond| + |thn|;
            && CodeAt(code, p, [Jmp(lab + 1)]) && CodeAt(code, p + 1, [Label(lab)])
            && CodeAt(code, p + 2, els) && CodeAt(code, p + 2 + |els|, [Label(lab + 1)])
  {
    var skip := [Jmp(lab + 1), Label(lab)];
    CodeAtParts(code, pos, cond + thn + skip + els, [Label(lab + 1)]);
    CodeAtParts(code, pos, cond + thn + skip, els);
    CodeAtParts(code, pos, cond + thn, skip);
    CodeAtParts(code, pos, cond, thn);
    assert skip == [Jmp(lab + 1)] + [Label(lab)];
    CodeAtParts(code, pos + |cond| + |thn|, [Jmp(lab + 1)], [Label(lab)]);
  }

  lemma WhileParts(code: seq<Instr>, pos: nat, cond: seq<Instr>, body: seq<Instr>, lab: nat)
    requires CodeAt(code, pos, [Label(lab)] + cond + body + [Jmp(lab), Label(lab + 1)])
    ensures CodeAt(code, pos, [Label(lab)]) && CodeAt(code, pos + 1, cond) && CodeAt(code, pos + 1 + |cond|, body)
    ensures var p := pos + 1 + |cond| + |body|;
            CodeAt(code, p, [Jmp(lab)]) && CodeAt(code, p + 1, [Label(lab + 1)])
  {
    var back := [Jmp(lab), Label(lab + 1)];
    CodeAtParts(code, pos, [Label(lab)] + cond + body, back);
    CodeAtParts(code, pos, [Label(lab)] + cond, body);
    CodeAtParts(code, pos, [Label(lab)], cond);
    assert back == [Jmp(lab)] + [Label(lab + 1)];
    CodeAtParts(code, pos + 1 + |cond| + |body|, [Jmp(lab)], [Label(lab + 1)]);
  }

  /** A loop: one pass through condition, body and jump for each iteration, by induction on
      the iterations left. */
  lemma {:induction false} WhileRuns(gsym: seq<string>, c: Condition, body: Stmt, f: FreeList, lab: nat,
                                     code: seq<Instr>, m: Mach, k: nat)
    returns (n: nat, m': Mach)
    requires var g := GenStmt(gsym, While(c, body), f, lab);
             g.Some? && CodeAt(code, m.pc, g.value.code)
    requires LabelsOnce(code)
    ensures Steps(code, m, n) == Some(m')
    ensures Reached(code, m', n, Exec(gsym, While(c, body), m.w, k), k,
                    m.pc + |GenStmt(gsym, While(c, body), f, lab).value.code|)
    decreases k, While(c, body), 0
  {
    hide Steps, Step, CodeAt, Eval, GenExpr, GenCondition, FindLabel, LabelsOnce;
    var cond := GenCondition(gsym, c, f, lab + 1).value;
    var a := GenStmt(gsym, body, ALL_FREE, lab + 2).value;
    WhileParts(code, m.pc, cond, a.code, lab);
    var p := m.pc + 1 + |cond| + |a.code| + 1;
    if k == 0 {
      n, m' := 0, m;
      NoStep(code, m);
      return;
    }
    PassLabel(code, lab, m);
    LabelAt(code, lab + 1, p);
    n, m' := ConditionRuns(gsym, c, f, lab + 1, code, m.Next(), p);
    Continue(code, m, 1, m.Next(), n, m');
    n := n + 1;
    var v := Eval(gsym, c, m.w.store);
    if v.Some? {
      if v.value == 0 {
        PassLabel(code, lab + 1, m');
        Continue(code, m, n, m', 1, m'.Next());
        n, m' := n + 1, m'.Next();
      } else {
        var n1, m1 := n, m';
        n, m' := StatementRuns(gsym, body, ALL_FREE, lab + 2, code, m1, k);
        Continue(code, m, n1, m1, n, m');
        n := n1 + n;
        if Exec(gsym, body, m.w, k).Done? {
          // back to the start, where the rest of the loop runs
          var n2, m2 := n, m';
          n, m' := JumpBack(gsym, c, body, f, lab, code, m.pc, m2, k - 1);
          Continue(code, m, n2, m2, n, m');
          n := n2 + n;
        }
      }
    }
  }

  lemma {:induction false} JumpBack(gsym: seq<string>, c: Condition, body: Stmt, f: FreeList, lab: nat,
                                    code: seq<Instr>, start: nat, m: Mach, k: nat)
    returns (n: nat, m': Mach)
    requires var g := GenStmt(gsym, While(c, body), f, lab);
             g.Some? && CodeAt(code, start, g.value.code)
    requires LabelsOnce(code) && CodeAt(code, m.pc, [Jmp(lab)])
    ensures Steps(code, m, n) == Some(m')
    ensures Reached(code, m', n, Exec(gsym, While(c, body), m.w, k), k + 1,
                    start + |GenStmt(gsym, While(c, body), f, lab).value.code|)
    decreases k, While(c, body), 1
  {
    hide Steps, Step, CodeAt, Eval, GenExpr, GenCondition, FindLabel, LabelsOnce, Exec;
    WhileParts(code, start, GenCondition(gsym, c, f, lab + 1).value,
               GenStmt(gsym, body, ALL_FREE, lab + 2).value.code, lab);
    var m1 := m.(pc := start);
    JumpTo(code, lab, m, start);
    n, m' := WhileRuns(gsym, c, body, f, lab, code, m1, k);
    Continue(code, m, 1, m1, n, m');
    n := n + 1;
  }
}
