/** Label discipline of the generated code. */
module Labels {
  import opened Wrappers
  import opened Ast
  import opened Machine
  import opened CodeGen

  /** How often `l` is defined in `code`. */
  function Definitions(code: seq<Instr>, l: nat): nat {
    if code == [] then 0
    else (if code[0] == Label(l) then 1 else 0) + Definitions(code[1..], l)
  }

  lemma {:induction false} DefinitionsConcat(a: seq<Instr>, b: seq<Instr>, l: nat)
    ensures Definitions(a + b, l) == Definitions(a, l) + Definitions(b, l)
  {
    if a == [] {
      assert a + b == b;
    } else {
      assert (a + b)[1..] == a[1..] + b;
      DefinitionsConcat(a[1..], b, l);
    }
  }

  /** Every jump in `code` goes to a label from `lo` up to `hi`. */
  ghost predicate JumpsWithin(code: seq<Instr>, lo: nat, hi: nat) {
    forall i :: 0 <= i < |code| && (code[i].Jmp? || code[i].J?) ==> lo <= code[i].l < hi
  }

  lemma JumpsConcat(a: seq<Instr>, b: seq<Instr>, lo: nat, hi: nat)
    requires JumpsWithin(a, lo, hi) && JumpsWithin(b, lo, hi)
    ensures JumpsWithin(a + b, lo, hi)
  {
  }

  /** A fragment that defines each label from `lo` up to `hi` once, no other label, and
      jumps only to these. */
  ghost predicate Owns(code: seq<Instr>, lo: nat, hi: nat) {
    && (forall l: nat :: Definitions(code, l) == if lo <= l < hi then 1 else 0)
    && JumpsWithin(code, lo, hi)
  }

  // ---------- Code without labels ----------

  predicate IsStraight(i: Instr) {
    !i.Label? && !i.Jmp? && !i.J?
  }

  /** Code without labels and jumps. */
  ghost predicate Straight(code: seq<Instr>) {
    forall i :: 0 <= i < |code| ==> IsStraight(code[i])
  }

  lemma StraightConcat(a: seq<Instr>, b: seq<Instr>)
    requires Straight(a) && Straight(b)
    ensures Straight(a + b)
  {
  }

  lemma {:induction false} StraightOwnsNothing(code: seq<Instr>, lab: nat)
    requires Straight(code)
    ensures Owns(code, lab, lab)
  {
    if code != [] {
      assert IsStraight(code[0]);
      assert Straight(code[1..]) by {
        assert forall i :: 0 <= i < |code[1..]| ==> code[1..][i] == code[i + 1];
      }
      StraightOwnsNothing(code[1..], lab);
    }
  }

  lemma {:induction false} ExpressionsAreStraight(gsym: seq<string>, e: Expr, f: FreeList)
    requires GenExpr(gsym, e, f).Some?
    ensures Straight(GenExpr(gsym, e, f).value.code)
  {
    if e.Node? {
      ExpressionsAreStraight(gsym, e.left, f);
      var a := GenExpr(gsym, e.left, f).value;
      ExpressionsAreStraight(gsym, e.right, a.free);
      var b := GenExpr(gsym, e.right, a.free).value;
      StraightConcat(a.code, b.code);
      StraightConcat(a.code + b.code, OperatorCode(e.op, a.reg, b.reg).0);
    }
  }

  /** A condition is straight but for its last instruction, a jump to the label that its
      parent passed in; it defines no label. */
  lemma ConditionLabels(gsym: seq<string>, c: Condition, f: FreeList, lab: nat)
    requires GenCondition(gsym, c, f, lab).Some?
    ensures var code := GenCondition(gsym, c, f, lab).value;
            && (forall l: nat :: Definitions(code, l) == 0) && JumpsWithin(code, lab, lab + 1)
            && code != [] && code[|code| - 1] == J(InverseCode(c.op), lab) && Straight(code[..|code| - 1])
  {
    var a := GenExpr(gsym, c.left, f).value;
    var b := GenExpr(gsym, c.right, a.free).value;
    var cmp := [CmpQ(R(b.reg), R(a.reg))];
    var jump := [J(InverseCode(c.op), lab)];
    ExpressionsAreStraight(gsym, c.left, f);
    ExpressionsAreStraight(gsym, c.right, a.free);
    StraightConcat(a.code, b.code);
    StraightConcat(a.code + b.code, cmp);
    var line := a.code + b.code + cmp;
    StraightOwnsNothing(line, lab);
    assert GenCondition(gsym, c, f, lab).value == line + jump;
    forall l: nat
      ensures Definitions(line + jump, l) == 0
    {
      DefinitionsConcat(line, jump, l);
    }
  }

  // ---------- Statements ----------

  lemma LineOwnsNothing(gsym: seq<string>, e: Expr, f: FreeList, last: seq<Instr>, lab: nat)
    requires GenExpr(gsym, e, f).Some? && Straight(last)
    ensures Owns(GenExpr(gsym, e, f).value.code + last, lab, lab)
  {
    ExpressionsAreStraight(gsym, e, f);
    StraightConcat(GenExpr(gsym, e, f).value.code, last);
    StraightOwnsNothing(GenExpr(gsym, e, f).value.code + last, lab);
  }

  lemma GlueOwns(a: seq<Instr>, b: seq<Instr>, lo: nat, mid: nat, hi: nat)
    requires lo <= mid <= hi && Owns(a, lo, mid) && Owns(b, mid, hi)
    ensures Owns(a + b, lo, hi)
  {
    forall l: nat
      ensures Definitions(a + b, l) == if lo <= l < hi then 1 else 0
    {
      DefinitionsConcat(a, b, l);
    }
    JumpsConcat(a, b, lo, hi);
  }

  lemma IfOwns(cond: seq<Instr>, thn: seq<Instr>, lab: nat, hi: nat)
    requires (forall l: nat :: Definitions(cond, l) == 0) && JumpsWithin(cond, lab, lab + 1)
    requires lab + 1 <= hi && Owns(thn, lab + 1, hi)
    ensures Owns(cond + thn + [Label(lab)], lab, hi)
  {
    forall l: nat
      ensures Definitions(cond + thn + [Label(lab)], l) == if lab <= l < hi then 1 else 0
    {
      DefinitionsConcat(cond, thn, l);
      DefinitionsConcat(cond + thn, [Label(lab)], l);
    }
    JumpsConcat(cond, thn, lab, hi);
    JumpsConcat(cond + thn, [Label(lab)], lab, hi);
  }

  lemma IfElseOwns(cond: seq<Instr>, thn: seq<Instr>, els: seq<Instr>, lab: nat, mid: nat, hi: nat)
    requires (forall l: nat :: Definitions(cond, l) == 0) && JumpsWithin(cond, lab, lab + 1)
    requires lab + 2 <= mid <= hi && Owns(thn, lab + 2, mid) && Owns(els, mid, hi)
    ensures Owns(cond + thn + [Jmp(lab + 1), Label(lab)] + els + [Label(lab + 1)], lab, hi)
  {
    var skip := [Jmp(lab + 1), Label(lab)];
    var front := cond + thn + skip;
    var whole := front + els + [Label(lab + 1)];
    forall l: nat
      ensures Definitions(whole, l) == if lab <= l < hi then 1 else 0
    {
      DefinitionsConcat(cond, thn, l);
      DefinitionsConcat([Jmp(lab + 1)], [Label(lab)], l);
      assert skip == [Jmp(lab + 1)] + [Label(lab)];
      DefinitionsConcat(cond + thn, skip, l);
      DefinitionsConcat(front, els, l);
      DefinitionsConcat(front + els, [Label(lab + 1)], l);
    }
    JumpsConcat(cond, thn, lab, hi);
    JumpsConcat(cond + thn, skip, lab, hi);
    JumpsConcat(front, els, lab, hi);
    JumpsConcat(front + els, [Label(lab + 1)], lab, hi);
  }

  lemma WhileOwns(cond: seq<Instr>, body: seq<Instr>, lab: nat, hi: nat)
    requires (forall l: nat :: Definitions(cond, l) == 0) && JumpsWithin(cond, lab + 1, lab + 2)
    requires lab + 2 <= hi && Owns(body, lab + 2, hi)
    ensures Owns([Label(lab)] + cond + body + [Jmp(lab), Label(lab + 1)], lab, hi)
  {
    var back := [Jmp(lab), Label(lab + 1)];
    var front := [Label(lab)] + cond;
    forall l: nat
      ensures Definitions(front + body + back, l) == if lab <= l < hi then 1 else 0
    {
      DefinitionsConcat([Label(lab)], cond, l);
      DefinitionsConcat([Jmp(lab)], [Label(lab + 1)], l);
      assert back == [Jmp(lab)] + [Label(lab + 1)];
      DefinitionsConcat(front, body, l);
      DefinitionsConcat(front + body, back, l);
    }
    JumpsConcat([Label(lab)], cond, lab, hi);
    JumpsConcat(front, body, lab, hi);
    JumpsConcat(front + body, back, lab, hi);
  }

  /** A fragment generated with the counter at `lab` and leaving it at `next` owns the labels
      in between. */
  lemma {:induction false} LabelDiscipline(gsym: seq<string>, s: Stmt, f: FreeList, lab: nat)
    requires GenStmt(gsym, s, f, lab).Some?
    ensures var r := GenStmt(gsym, s, f, lab).value;
            lab <= r.next && Owns(r.code, lab, r.next)
    decreases s
  {
    hide GenExpr, GenCondition, Definitions, JumpsWithin, Owns;
    match s
    case Print(e) =>
      LineOwnsNothing(gsym, e, f, [Mov(R(GenExpr(gsym, e, f).value.reg), RDI), CallPrintInt], lab);
    case Assign(x, e) =>
      LineOwnsNothing(gsym, e, f, [Store(R(GenExpr(gsym, e, f).value.reg), Name(gsym, x))], lab);
    case Glue(s1, s2) =>
      LabelDiscipline(gsym, s1, f, lab);
      var a := GenStmt(gsym, s1, f, lab).value;
      LabelDiscipline(gsym, s2, ALL_FREE, a.next);
      var b := GenStmt(gsym, s2, ALL_FREE, a.next).value;
      GlueOwns(a.code, b.code, lab, a.next, b.next);
    case If(c, thn, None) =>
      LabelDiscipline(gsym, thn, ALL_FREE, lab + 1);
      IfCase(gsym, c, thn, f, lab);
    case If(c, thn, Some(els)) =>
      LabelDiscipline(gsym, thn, ALL_FREE, lab + 2);
      LabelDiscipline(gsym, els, ALL_FREE, GenStmt(gsym, thn, ALL_FREE, lab + 2).value.next);
      IfElseCase(gsym, c, thn, els, f, lab);
    case While(c, body) =>
      LabelDiscipline(gsym, body, ALL_FREE, lab + 2);
      WhileCase(gsym, c, body, f, lab);
  }

  lemma IfCase(gsym: seq<string>, c: Condition, thn: Stmt, f: FreeList, lab: nat)
    requires GenStmt(gsym, If(c, thn, None), f, lab).Some?
    requires var a := GenStmt(gsym, thn, ALL_FREE, lab + 1).value;
             lab + 1 <= a.next && Owns(a.code, lab + 1, a.next)
    ensures var r := GenStmt(gsym, If(c, thn, None), f, lab).value;
            lab <= r.next && Owns(r.code, lab, r.next)
  {
    hide GenExpr, GenCondition, Owns;
    ConditionLabels(gsym, c, f, lab);
    var a := GenStmt(gsym, thn, ALL_FREE, lab + 1).value;
    IfOwns(GenCondition(gsym, c, f, lab).value, a.code, lab, a.next);
  }

  lemma IfElseCase(gsym: seq<string>, c: Condition, thn: Stmt, els: Stmt, f: FreeList, lab: nat)
    requires GenStmt(gsym, If(c, thn, Some(els)), f, lab).Some?
    requires var a := GenStmt(gsym, thn, ALL_FREE, lab + 2).value;
             var b := GenStmt(gsym, els, ALL_FREE, a.next).value;
             lab + 2 <= a.next <= b.next && Owns(a.code, lab + 2, a.next) && Owns(b.code, a.next, b.next)
    ensures var r := GenStmt(gsym, If(c, thn, Some(els)), f, lab).value;
            lab <= r.next && Owns(r.code, lab, r.next)
  {
    hide GenExpr, GenCondition, Owns;
    ConditionLabels(gsym, c, f, lab);
    var a := GenStmt(gsym, thn, ALL_FREE, lab + 2).value;
    var b := GenStmt(gsym, els, ALL_FREE, a.next).value;
    IfElseOwns(GenCondition(gsym, c, f, lab).value, a.code, b.code, lab, a.next, b.next);
  }

  lemma WhileCase(gsym: seq<string>, c: Condition, body: Stmt, f: FreeList, lab: nat)
    requires GenStmt(gsym, While(c, body), f, lab).Some?
    requires var a := GenStmt(gsym, body, ALL_FREE, lab + 2).value;
             lab + 2 <= a.next && Owns(a.code, lab + 2, a.next)
    ensures var r := GenStmt(gsym, While(c, body), f, lab).value;
            lab <= r.next && Owns(r.code, lab, r.next)
  {
    hide GenExpr, GenCondition, Owns;
    ConditionLabels(gsym, c, f, lab + 1);
    var a := GenStmt(gsym, body, ALL_FREE, lab + 2).value;
    WhileOwns(GenCondition(gsym, c, f, lab + 1).value, a.code, lab, a.next);
  }

  /** A label that is defined once is found where it is defined. */
  lemma {:induction false} FoundWhereDefined(code: seq<Instr>, l: nat, p: nat)
    requires Definitions(code, l) == 1 && p < |code| && code[p] == Label(l)
    ensures FindLabel(code, l) == Some(p)
  {
    if p > 0 {
      assert code[0] != Label(l) by {
        if code[0] == Label(l) {
          DefinedAt(code[1..], l, p - 1);
        }
      }
      FoundWhereDefined(code[1..], l, p - 1);
    }
  }

  lemma {:induction false} DefinedAt(code: seq<Instr>, l: nat, p: nat)
    requires p < |code| && code[p] == Label(l)
    ensures Definitions(code, l) >= 1
  {
    if p > 0 {
      DefinedAt(code[1..], l, p - 1);
    }
  }

  /** Over a whole program the labels are numbered from 1, each is defined once, and every jump
      target is defined. */
  lemma ProgramLabels(gsym: seq<string>, s: Stmt) returns (next: nat)
    requires GenProgram(gsym, s).Some?
    ensures var code := GenProgram(gsym, s).value;
            && (forall l: nat :: Definitions(code, l) == if 1 <= l < next then 1 else 0)
            && forall i :: 0 <= i < |code| && (code[i].Jmp? || code[i].J?) ==> Definitions(code, code[i].l) == 1
  {
    LabelDiscipline(gsym, s, ALL_FREE, FIRST_LABEL);
    next := GenStmt(gsym, s, ALL_FREE, FIRST_LABEL).value.next;
  }
}
