/** The translation of trees to instructions, as functions: what code a tree gets, from
    the registers that are free and the next label, and what it leaves of both. */
module CodeGen {
  import opened Wrappers
  import opened PrecedenceParser
  import opened Ast
  import opened Machine

  /** `freereg`: true where the register is available. */
  type FreeList = f: seq<bool> | |f| == 4 witness [true, true, true, true]

  const ALL_FREE: FreeList := [true, true, true, true]

  const FIRST_LABEL: nat := 1

  // ---------- Registers ----------

  function FirstFree(f: FreeList, i: nat): (r: Option<nat>)
    requires i <= 4
    ensures r.Some? ==> i <= r.value < 4 && f[r.value] && forall j :: i <= j < r.value ==> !f[j]
    ensures r.None? ==> forall j :: i <= j < 4 ==> !f[j]
    decreases 4 - i
  {
    if i == 4 then None else if f[i] then Some(i) else FirstFree(f, i + 1)
  }

  function Release(f: FreeList, r: nat): Option<FreeList>
    requires r < 4
  {
    if f[r] then None else Some(f[r := true])
  }

  // ---------- Expressions ----------

  /** Code that leaves a value in register `reg`, and the free list after it. */
  datatype ExprCode = ExprCode(code: seq<Instr>, reg: nat, free: FreeList)

  function LoadAtom(gsym: seq<string>, a: Atom, f: FreeList): (r: Option<ExprCode>)
    ensures r.Some? ==> r.value.reg < 4
  {
    var r :- FirstFree(f, 0);
    Some(ExprCode([match a case Num(v) => MovImm(v, R(r)) case Slot(id) => Load(Name(gsym, id), R(r))],
                  r, f[r := false]))
  }

  function SetCode(op: BinOp): Cc
    requires op.IsComparison()
  {
    match op case Eq => E case Ne => NE case Lt => L case Gt => G case Le => LE case Ge => GE
  }

  function InverseCode(op: BinOp): Cc
    requires op.IsComparison()
  {
    match op case Eq => NE case Ne => E case Lt => GE case Gt => LE case Le => G case Ge => L
  }

  /** The instructions that combine two registers, the register of the result, and the one given up. */
  function OperatorCode(op: BinOp, r1: nat, r2: nat): (r: (seq<Instr>, nat, nat))
    requires r1 < 4 && r2 < 4
    ensures r.1 < 4 && r.2 < 4
  {
    match op
    case Add => ([AddQ(R(r1), R(r2))], r2, r1)
    case Subtract => ([SubQ(R(r2), R(r1))], r1, r2)
    case Multiply => ([IMulQ(R(r1), R(r2))], r2, r1)
    case Divide => ([Mov(R(r1), RAX), Cqo, IDivQ(R(r2)), Mov(RAX, R(r1))], r1, r2)
    case _ => ([CmpQ(R(r2), R(r1)), SetB(SetCode(op), R(r2)), MovZBQ(R(r2))], r2, r1)
  }

  function Combine(op: BinOp, a: ExprCode, b: ExprCode): (r: Option<ExprCode>)
    requires a.reg < 4 && b.reg < 4
    ensures r.Some? ==> r.value.reg < 4
  {
    var (code, reg, given) := OperatorCode(op, a.reg, b.reg);
    var f :- Release(b.free, given);
    Some(ExprCode(a.code + b.code + code, reg, f))
  }

  function GenExpr(gsym: seq<string>, e: Expr, f: FreeList): (r: Option<ExprCode>)
    ensures r.Some? ==> r.value.reg < 4
  {
    match e
    case Leaf(a) => LoadAtom(gsym, a, f)
    case Node(op, l, r) =>
      var a :- GenExpr(gsym, l, f);
      var b :- GenExpr(gsym, r, a.free);
      Combine(op, a, b)
  }

  /** A comparison below A_IF or A_WHILE: falls through if it holds, jumps to `l` otherwise. */
  function GenCondition(gsym: seq<string>, c: Condition, f: FreeList, l: nat): Option<seq<Instr>> {
    var a :- GenExpr(gsym, c.left, f);
    var b :- GenExpr(gsym, c.right, a.free);
    Some(a.code + b.code + [CmpQ(R(b.reg), R(a.reg)), J(InverseCode(c.op), l)])
  }

  // ---------- Statements ----------

  /** Code for a statement, and the free list and next label number after it. */
  datatype StmtCode = StmtCode(code: seq<Instr>, free: FreeList, next: nat)

  function GenStmt(gsym: seq<string>, s: Stmt, f: FreeList, lab: nat): Option<StmtCode> {
    match s
    case Print(e) =>
      var a :- GenExpr(gsym, e, f);
      var _ :- Release(a.free, a.reg);
      Some(StmtCode(a.code + [Mov(R(a.reg), RDI), CallPrintInt], ALL_FREE, lab))
    case Assign(x, e) =>
      var a :- GenExpr(gsym, e, f);
      Some(StmtCode(a.code + [Store(R(a.reg), Name(gsym, x))], a.free, lab))
    case Glue(s1, s2) =>
      var a :- GenStmt(gsym, s1, f, lab);
      var b :- GenStmt(gsym, s2, ALL_FREE, a.next);
      Some(StmtCode(a.code + b.code, ALL_FREE, b.next))
    case If(c, thn, None) =>
      var lFalse := lab;
      var cond :- GenCondition(gsym, c, f, lFalse);
      var a :- GenStmt(gsym, thn, ALL_FREE, lab + 1);
      Some(StmtCode(cond + a.code + [Label(lFalse)], ALL_FREE, a.next))
    case If(c, thn, Some(els)) =>
      var lFalse, lEnd := lab, lab + 1;
      var cond :- GenCondition(gsym, c, f, lFalse);
      var a :- GenStmt(gsym, thn, ALL_FREE, lab + 2);
      var b :- GenStmt(gsym, els, ALL_FREE, a.next);
      Some(StmtCode(cond + a.code + [Jmp(lEnd), Label(lFalse)] + b.code + [Label(lEnd)], ALL_FREE, b.next))
    case While(c, body) =>
      var lStart, lEnd := lab, lab + 1;
      var cond :- GenCondition(gsym, c, f, lEnd);
      var a :- GenStmt(gsym, body, ALL_FREE, lab + 2);
      Some(StmtCode([Label(lStart)] + cond + a.code + [Jmp(lStart), Label(lEnd)], ALL_FREE, a.next))
  }

  /** The code of `main`, between its preamble and its postamble. */
  function GenProgram(gsym: seq<string>, s: Stmt): Option<seq<Instr>> {
    var r :- GenStmt(gsym, s, ALL_FREE, FIRST_LABEL);
    Some(r.code)
  }
}
