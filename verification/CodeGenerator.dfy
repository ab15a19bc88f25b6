/** The code generator as the compiler runs it: one walk over the tree that appends
    instructions to the output, takes and gives back registers in place, and draws label
    numbers from a counter. `None` stands for `fatal`. */
module CodeGenerator {
  import opened Wrappers
  import opened Words
  import opened PrecedenceParser
  import opened Ast
  import opened Machine
  import opened CodeGen
  import opened Registers

  lemma Joined(o: seq<Instr>, a: seq<Instr>, b: seq<Instr>)
    ensures o + a + b == o + (a + b)
  {
  }

  lemma Appended(o: seq<Instr>, a: seq<Instr>, b: seq<Instr>, c: seq<Instr>)
    ensures o + a + b + c == o + (a + b + c)
  {
  }

  lemma IfElseText(o: seq<Instr>, c: seq<Instr>, a: seq<Instr>, b: seq<Instr>, l: nat)
    ensures o + c + a + [Jmp(l + 1)] + [Label(l)] + b + [Label(l + 1)]
            == o + (c + a + [Jmp(l + 1), Label(l)] + b + [Label(l + 1)])
  {
    assert [Jmp(l + 1)] + [Label(l)] == [Jmp(l + 1), Label(l)];
  }

  /** The code of an if statement in terms of the code of its parts. */
  lemma IfParts(gsym: seq<string>, c: Condition, thn: Stmt, els: Option<Stmt>, f: FreeList, lab: nat)
    ensures var r := GenStmt(gsym, If(c, thn, els), f, lab);
            var cond := GenCondition(gsym, c, f, lab);
            var a := GenStmt(gsym, thn, ALL_FREE, if els.Some? then lab + 2 else lab + 1);
            if cond.None? || a.None? then r.None?
            else if els.None? then
              r == Some(StmtCode(cond.value + a.value.code + [Label(lab)], ALL_FREE, a.value.next))
            else
              var b := GenStmt(gsym, els.value, ALL_FREE, a.value.next);
              if b.None? then r.None?
              else r == Some(StmtCode(cond.value + a.value.code + [Jmp(lab + 1), Label(lab)] + b.value.code
                                      + [Label(lab + 1)], ALL_FREE, b.value.next))
  {
  }

  lemma WhileParts(gsym: seq<string>, c: Condition, body: Stmt, f: FreeList, lab: nat)
    ensures var r := GenStmt(gsym, While(c, body), f, lab);
            var cond := GenCondition(gsym, c, f, lab + 1);
            var a := GenStmt(gsym, body, ALL_FREE, lab + 2);
            if cond.None? || a.None? then r.None?
            else r == Some(StmtCode([Label(lab)] + cond.value + a.value.code + [Jmp(lab), Label(lab + 1)],
                                    ALL_FREE, a.value.next))
  {
  }

  lemma WhileText(o: seq<Instr>, c: seq<Instr>, a: seq<Instr>, l: nat)
    ensures o + [Label(l)] + c + a + [Jmp(l)] + [Label(l + 1)]
            == o + ([Label(l)] + c + a + [Jmp(l), Label(l + 1)])
  {
    assert [Jmp(l)] + [Label(l + 1)] == [Jmp(l), Label(l + 1)];
  }

  class Generator {
    const gsym: seq<string>
    const freereg: array<bool>
    var outfile: seq<Instr>
    var id: nat

    constructor (gsym: seq<string>)
      ensures Valid() && fresh(freereg) && this.gsym == gsym
      ensures Free() == ALL_FREE && outfile == [] && id == FIRST_LABEL
    {
      this.gsym := gsym;
      freereg := new bool[4](i => true);
      outfile := [];
      id := FIRST_LABEL;
    }

    ghost predicate Valid()
      reads this
    {
      freereg.Length == 4
    }

    ghost function Free(): FreeList
      requires Valid()
      reads this, freereg
    {
      freereg[..]
    }

    // ---------- Registers ----------

    method FreeAllRegisters()
      requires Valid()
      modifies freereg
      ensures Free() == ALL_FREE
    {
      freereg[0], freereg[1], freereg[2], freereg[3] := true, true, true, true;
    }

    method AllocRegister() returns (r: Option<nat>)
      requires Valid()
      modifies freereg
      ensures r == FirstFree(old(Free()), 0)
      ensures r.Some? ==> Free() == old(Free())[r.value := false]
    {
      var i := 0;
      while i < 4
        invariant 0 <= i <= 4 && Free() == old(Free())
        invariant FirstFree(old(Free()), 0) == FirstFree(old(Free()), i)
      {
        if freereg[i] {
          freereg[i] := false;
          return Some(i);
        }
        i := i + 1;
      }
      return None;
    }

    method FreeRegister(r: nat) returns (ok: bool)
      requires Valid() && r < 4
      modifies freereg
      ensures ok <==> Release(old(Free()), r).Some?
      ensures ok ==> Free() == Release(old(Free()), r).value
    {
      if freereg[r] {
        return false;
      }
      freereg[r] := true;
      return true;
    }

    // ---------- Emitters ----------

    method Emit(code: seq<Instr>)
      modifies this`outfile
      ensures outfile == old(outfile) + code
    {
      outfile := outfile + code;
    }

    method CgLoadInt(value: Int32) returns (r: Option<nat>)
      requires Valid()
      modifies this`outfile, freereg
      ensures Returned(LoadAtom(gsym, Num(value), old(Free())), r, old(outfile))
    {
      r := AllocRegister();
      if r.Some? {
        Emit([MovImm(value, R(r.value))]);
      }
    }

    method CgLoadGlob(identifier: string, ghost slot: nat) returns (r: Option<nat>)
      requires Valid() && identifier == Name(gsym, slot)
      modifies this`outfile, freereg
      ensures Returned(LoadAtom(gsym, Slot(slot), old(Free())), r, old(outfile))
    {
      r := AllocRegister();
      if r.Some? {
        Emit([Load(identifier, R(r.value))]);
      }
    }

    /** `r` is what an expression method returns when its code should be `c`. */
    ghost predicate Returned(c: Option<ExprCode>, r: Option<nat>, before: seq<Instr>)
      requires Valid()
      reads this, freereg
    {
      match c
      case None => r.None?
      case Some(x) => r == Some(x.reg) && Free() == x.free && outfile == before + x.code
    }

    /** Emit the code that combines two registers, and give one of them back. */
    ghost predicate Combined(op: BinOp, r1: nat, r2: nat, r: Option<nat>, held: FreeList, before: seq<Instr>)
      requires Valid() && r1 < 4 && r2 < 4
      reads this, freereg
    {
      var (code, reg, given) := OperatorCode(op, r1, r2);
      match Release(held, given)
      case None => r.None?
      case Some(f) => r == Some(reg) && Free() == f && outfile == before + code
    }

    method CgAdd(r1: nat, r2: nat) returns (r: Option<nat>)
      requires Valid() && r1 < 4 && r2 < 4
      modifies this`outfile, freereg
      ensures Combined(Add, r1, r2, r, old(Free()), old(outfile))
    {
      Emit([AddQ(R(r1), R(r2))]);
      var ok := FreeRegister(r1);
      r := if ok then Some(r2) else None;
    }

    method CgSub(r1: nat, r2: nat) returns (r: Option<nat>)
      requires Valid() && r1 < 4 && r2 < 4
      modifies this`outfile, freereg
      ensures Combined(Subtract, r1, r2, r, old(Free()), old(outfile))
    {
      Emit([SubQ(R(r2), R(r1))]);
      var ok := FreeRegister(r2);
      r := if ok then Some(r1) else None;
    }

    method CgMul(r1: nat, r2: nat) returns (r: Option<nat>)
      requires Valid() && r1 < 4 && r2 < 4
      modifies this`outfile, freereg
      ensures Combined(Multiply, r1, r2, r, old(Free()), old(outfile))
    {
      Emit([IMulQ(R(r1), R(r2))]);
      var ok := FreeRegister(r1);
      r := if ok then Some(r2) else None;
    }

    method CgDiv(r1: nat, r2: nat) returns (r: Option<nat>)
      requires Valid() && r1 < 4 && r2 < 4
      modifies this`outfile, freereg
      ensures Combined(Divide, r1, r2, r, old(Free()), old(outfile))
    {
      Emit([Mov(R(r1), RAX), Cqo, IDivQ(R(r2)), Mov(RAX, R(r1))]);
      var ok := FreeRegister(r2);
      r := if ok then Some(r1) else None;
    }

    method CgCompareAndSet(op: BinOp, r1: nat, r2: nat) returns (r: Option<nat>)
      requires Valid() && r1 < 4 && r2 < 4 && op.IsComparison()
      modifies this`outfile, freereg
      ensures Combined(op, r1, r2, r, old(Free()), old(outfile))
    {
      Emit([CmpQ(R(r2), R(r1)), SetB(SetCode(op), R(r2)), MovZBQ(R(r2))]);
      var ok := FreeRegister(r1);
      r := if ok then Some(r2) else None;
    }

    method CgCompareAndJump(op: BinOp, r1: nat, r2: nat, lab: nat)
      requires Valid() && op.IsComparison()
      modifies this`outfile, freereg
      ensures outfile == old(outfile) + [CmpQ(R(r2), R(r1)), J(InverseCode(op), lab)] && Free() == ALL_FREE
    {
      Emit([CmpQ(R(r2), R(r1)), J(InverseCode(op), lab)]);
      FreeAllRegisters();
    }

    method CgPrintInt(r: nat) returns (ok: bool)
      requires Valid() && r < 4
      modifies this`outfile, freereg
      ensures outfile == old(outfile) + [Mov(R(r), RDI), CallPrintInt]
      ensures ok <==> Release(old(Free()), r).Some?
    {
      Emit([Mov(R(r), RDI), CallPrintInt]);
      ok := FreeRegister(r);
    }

    method NewLabel() returns (l: nat)
      modifies this`id
      ensures l == old(id) && id == old(id) + 1
    {
      l := id;
      id := id + 1;
    }

    // ---------- The walk ----------

    /** `genAST` on an expression whose value is wanted in a register. */
    method GenExpression(e: Expr) returns (r: Option<nat>)
      requires Valid()
      modifies this`outfile, freereg
      ensures Returned(GenExpr(gsym, e, old(Free())), r, old(outfile))
      decreases e
    {
      hide OperatorCode, FirstFree, Release;
      ghost var before, free := outfile, Free();
      match e
      case Leaf(Num(v)) =>
        r := CgLoadInt(v);
      case Leaf(Slot(x)) =>
        r := CgLoadGlob(Name(gsym, x), x);
      case Node(op, left, right) =>
        var r1 := GenExpression(left);
        if r1.None? {
          return None;
        }
        var r2 := GenExpression(right);
        if r2.None? {
          return None;
        }
        r := GenOperator(op, r1.value, r2.value);
        ghost var a := GenExpr(gsym, left, free).value;
        ghost var b := GenExpr(gsym, right, a.free).value;
        Appended(before, a.code, b.code, OperatorCode(op, a.reg, b.reg).0);
    }

    /** The second switch of `genAST`, on an operator. */
    method GenOperator(op: BinOp, r1: nat, r2: nat) returns (r: Option<nat>)
      requires Valid() && r1 < 4 && r2 < 4
      modifies this`outfile, freereg
      ensures Combined(op, r1, r2, r, old(Free()), old(outfile))
    {
      match op
      case Add => r := CgAdd(r1, r2);
      case Subtract => r := CgSub(r1, r2);
      case Multiply => r := CgMul(r1, r2);
      case Divide => r := CgDiv(r1, r2);
      case _ => r := CgCompareAndSet(op, r1, r2);
    }

    /** `genAST` on the comparison of an A_IF or A_WHILE, with the label to jump to if it fails. */
    method GenComparison(c: Condition, lab: nat) returns (ok: bool)
      requires Valid()
      modifies this`outfile, freereg
      ensures ok <==> GenCondition(gsym, c, old(Free()), lab).Some?
      ensures ok ==> outfile == old(outfile) + GenCondition(gsym, c, old(Free()), lab).value
      ensures ok ==> Free() == ALL_FREE
    {
      hide GenExpr;
      ghost var before, free := outfile, Free();
      var r1 := GenExpression(c.left);
      if r1.None? {
        return false;
      }
      var r2 := GenExpression(c.right);
      if r2.None? {
        return false;
      }
      CgCompareAndJump(c.op, r1.value, r2.value, lab);
      ghost var a := GenExpr(gsym, c.left, free).value;
      ghost var b := GenExpr(gsym, c.right, a.free).value;
      Appended(before, a.code, b.code, [CmpQ(R(b.reg), R(a.reg)), J(InverseCode(c.op), lab)]);
      return true;
    }

    /** What a statement method does when its code should be `c`. */
    ghost predicate Generated(c: Option<StmtCode>, ok: bool, before: seq<Instr>)
      requires Valid()
      reads this, freereg
    {
      (ok <==> c.Some?) &&
      (ok ==> Free() == c.value.free && outfile == before + c.value.code && id == c.value.next)
    }

    /** `genIF`. */
    method GenIf(c: Condition, thn: Stmt, els: Option<Stmt>) returns (ok: bool)
      requires Valid()
      modifies this`outfile, this`id, freereg
      ensures Generated(GenStmt(gsym, If(c, thn, els), old(Free()), old(id)), ok, old(outfile))
      decreases If(c, thn, els), 0
    {
      hide GenCondition, GenExpr, GenStmt, FirstFree, Release, OperatorCode;
      IfParts(gsym, c, thn, els, Free(), id);
      ghost var whole := GenStmt(gsym, If(c, thn, els), Free(), id);
      ghost var before := outfile;
      ghost var free := Free();
      var lFalse := NewLabel();
      var lEnd := lFalse;
      if els.Some? {
        lEnd := NewLabel();
      }
      ok := GenComparison(c, lFalse);
      if !ok {
        return;
      }
      FreeAllRegisters();
      ghost var cond, first := GenCondition(gsym, c, free, lFalse).value, id;
      ok := GenStatement(thn);
      if !ok {
        return;
      }
      ghost var code1, next := GenStmt(gsym, thn, ALL_FREE, first).value.code, id;
      FreeAllRegisters();
      if els.Some? {
        Emit([Jmp(lEnd)]);
      }
      Emit([Label(lFalse)]);
      ghost var front := outfile;
      if els.None? {
        Appended(before, cond, code1, [Label(lFalse)]);
        return;
      }
      ok := GenStatement(els.value);
      if !ok {
        return;
      }
      FreeAllRegisters();
      Emit([Label(lEnd)]);
      ghost var code2 := GenStmt(gsym, els.value, ALL_FREE, next).value.code;
      IfElseText(before, cond, code1, code2, lFalse);
      assert outfile == front + code2 + [Label(lEnd)] == before + whole.value.code;
    }

    /** `genWHILE`. */
    method GenWhile(c: Condition, body: Stmt) returns (ok: bool)
      requires Valid()
      modifies this`outfile, this`id, freereg
      ensures Generated(GenStmt(gsym, While(c, body), old(Free()), old(id)), ok, old(outfile))
      decreases While(c, body), 0
    {
      hide GenCondition, GenExpr, GenStmt;
      WhileParts(gsym, c, body, Free(), id);
      ghost var before := outfile;
      ghost var cond := GenCondition(gsym, c, Free(), id + 1);
      var lStart := NewLabel();
      var lEnd := NewLabel();
      Emit([Label(lStart)]);
      ok := GenComparison(c, lEnd);
      if !ok {
        return;
      }
      FreeAllRegisters();
      ghost var first := id;
      ok := GenStatement(body);
      if !ok {
        return;
      }
      WhileText(before, cond.value, GenStmt(gsym, body, ALL_FREE, first).value.code, lStart);
      FreeAllRegisters();
      Emit([Jmp(lStart)]);
      Emit([Label(lEnd)]);
    }

    /** `genAST` on a statement. */
    method GenStatement(s: Stmt) returns (ok: bool)
      requires Valid()
      modifies this`outfile, this`id, freereg
      ensures Generated(GenStmt(gsym, s, old(Free()), old(id)), ok, old(outfile))
      decreases s, 1
    {
      hide GenCondition, GenExpr;
      ghost var before, free, lab := outfile, Free(), id;
      match s
      case If(c, thn, els) =>
        ok := GenIf(c, thn, els);
      case While(c, body) =>
        ok := GenWhile(c, body);
      case Glue(s1, s2) =>
        ok := GenStatement(s1);
        if !ok {
          return;
        }
        FreeAllRegisters();
        ghost var a := GenStmt(gsym, s1, free, lab).value;
        ok := GenStatement(s2);
        if !ok {
          return;
        }
        FreeAllRegisters();
        Joined(before, a.code, GenStmt(gsym, s2, ALL_FREE, a.next).value.code);
      case Assign(x, e) =>
        var r := GenExpression(e);
        if r.None? {
          return false;
        }
        Emit([Store(R(r.value), Name(gsym, x))]);
        Joined(before, GenExpr(gsym, e, free).value.code, [Store(R(r.value), Name(gsym, x))]);
        return true;
      case Print(e) =>
        var r := GenExpression(e);
        if r.None? {
          return false;
        }
        ok := CgPrintInt(r.value);
        if ok {
          FreeAllRegisters();
          Joined(before, GenExpr(gsym, e, free).value.code, [Mov(R(r.value), RDI), CallPrintInt]);
        }
    }
  }

  /** The whole compilation of a tree, on a fresh generator. */
  method Compile(gsym: seq<string>, s: Stmt) returns (code: Option<seq<Instr>>)
    ensures code == GenProgram(gsym, s)
    ensures code.Some? <==> StmtNeed(s) <= 4
  {
    var g := new Generator(gsym);
    assert g.Free() == ALL_FREE && g.id == FIRST_LABEL && g.gsym == gsym;
    var ok := g.GenStatement(s);
    StatementRegisters(gsym, s, FIRST_LABEL);
    code := None;
    if ok {
      ghost var c := GenStmt(gsym, s, ALL_FREE, FIRST_LABEL).value.code;
      assert g.outfile == [] + c == c;
      code := Some(g.outfile);
    }
  }
}
