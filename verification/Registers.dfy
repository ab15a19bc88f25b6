/** How many registers a tree needs, and that the generator fails exactly when it has fewer. */
module Registers {
  import opened Wrappers
  import opened PrecedenceParser
  import opened Ast
  import opened CodeGen

  function Max(a: nat, b: nat): nat {
    if a < b then b else a
  }

  /** The left operand is held while the right one is computed. */
  function Need<A, O>(e: Tree<A, O>): nat {
    match e
    case Leaf(_) => 1
    case Node(_, l, r) => Max(Need(l), 1 + Need(r))
  }

  /** The largest need of an expression in a statement. */
  function StmtNeed(s: Stmt): nat {
    match s
    case Print(e) => Need(e)
    case Assign(_, e) => Need(e)
    case Glue(s1, s2) => Max(StmtNeed(s1), StmtNeed(s2))
    case If(c, thn, None) => Max(Need(c), StmtNeed(thn))
    case If(c, thn, Some(els)) => Max(Need(c), Max(StmtNeed(thn), StmtNeed(els)))
    case While(c, body) => Max(Need(c), StmtNeed(body))
  }

  function Held(f: FreeList): nat {
    (if f[0] then 0 else 1) + (if f[1] then 0 else 1) + (if f[2] then 0 else 1) + (if f[3] then 0 else 1)
  }

  lemma HoldOne(f: FreeList, r: nat)
    requires r < 4 && f[r]
    ensures Held(f[r := false]) == Held(f) + 1
  {
  }

  /** Exactly one register more is held afterwards: the one with the value, which was free. */
  lemma {:induction false} HoldsOneMore(gsym: seq<string>, e: Expr, f: FreeList)
    requires GenExpr(gsym, e, f).Some?
    ensures var r := GenExpr(gsym, e, f).value;
            f[r.reg] && r.free == f[r.reg := false] && Held(r.free) == Held(f) + 1
  {
    if e.Node? {
      HoldsOneMore(gsym, e.left, f);
      var a := GenExpr(gsym, e.left, f).value;
      HoldsOneMore(gsym, e.right, a.free);
      CombineHolds(e.op, f, a, GenExpr(gsym, e.right, a.free).value);
    }
    HoldOne(f, GenExpr(gsym, e, f).value.reg);
  }

  /** Of the two registers of the operands, one stays held and the other one is given up. */
  lemma CombineHolds(op: BinOp, f: FreeList, a: ExprCode, b: ExprCode)
    requires a.reg < 4 && b.reg < 4 && f[a.reg] && a.free == f[a.reg := false]
    requires a.free[b.reg] && b.free == a.free[b.reg := false]
    ensures var r := Combine(op, a, b);
            r.Some? && f[r.value.reg] && r.value.free == f[r.value.reg := false]
  {
    assert b.free[a.reg := true] == f[b.reg := false];
    assert b.free[b.reg := true] == f[a.reg := false];
  }

  /** Expression code fails for no other reason than too few free registers; in particular
      no register is ever given up twice. */
  lemma {:induction false} RegistersSuffice(gsym: seq<string>, e: Expr, f: FreeList)
    ensures GenExpr(gsym, e, f).Some? <==> Held(f) + Need(e) <= 4
  {
    match e
    case Leaf(_) =>
    case Node(op, l, r) =>
      RegistersSuffice(gsym, l, f);
      var a := GenExpr(gsym, l, f);
      if a.Some? {
        HoldsOneMore(gsym, l, f);
        RegistersSuffice(gsym, r, a.value.free);
        var b := GenExpr(gsym, r, a.value.free);
        if b.Some? {
          HoldsOneMore(gsym, r, a.value.free);
          CombineHolds(op, f, a.value, b.value);
        }
      }
  }

  lemma ConditionRegisters(gsym: seq<string>, c: Condition, f: FreeList, lab: nat)
    ensures GenCondition(gsym, c, f, lab).Some? <==> Held(f) + Need(c) <= 4
  {
    RegistersSuffice(gsym, c.left, f);
    var a := GenExpr(gsym, c.left, f);
    if a.Some? {
      HoldsOneMore(gsym, c.left, f);
      RegistersSuffice(gsym, c.right, a.value.free);
    }
  }

  lemma {:induction false} StatementRegisters(gsym: seq<string>, s: Stmt, lab: nat)
    ensures GenStmt(gsym, s, ALL_FREE, lab).Some? <==> StmtNeed(s) <= 4
    decreases s
  {
    match s
    case Print(e) =>
      RegistersSuffice(gsym, e, ALL_FREE);
      if GenExpr(gsym, e, ALL_FREE).Some? {
        HoldsOneMore(gsym, e, ALL_FREE);
      }
    case Assign(_, e) =>
      RegistersSuffice(gsym, e, ALL_FREE);
    case Glue(s1, s2) =>
      StatementRegisters(gsym, s1, lab);
      if StmtNeed(s1) <= 4 {
        StatementRegisters(gsym, s2, GenStmt(gsym, s1, ALL_FREE, lab).value.next);
      }
    case If(c, thn, None) =>
      ConditionRegisters(gsym, c, ALL_FREE, lab);
      StatementRegisters(gsym, thn, lab + 1);
    case If(c, thn, Some(els)) =>
      ConditionRegisters(gsym, c, ALL_FREE, lab);
      StatementRegisters(gsym, thn, lab + 2);
      if StmtNeed(thn) <= 4 {
        StatementRegisters(gsym, els, GenStmt(gsym, thn, ALL_FREE, lab + 2).value.next);
      }
    case While(c, body) =>
      ConditionRegisters(gsym, c, ALL_FREE, lab + 1);
      StatementRegisters(gsym, body, lab + 2);
  }
}
