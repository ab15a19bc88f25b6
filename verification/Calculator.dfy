/** Stage 4: `main` prints the value of an expression by interpreting its tree with C ints,
    and then generates 64-bit code that prints it again. */
module Calculator {
  import opened Wrappers
  import opened Words
  import opened PrecedenceParser
  import opened Ast
  import opened Semantics
  import opened Machine
  import opened CodeGen
  import opened Registers
  import opened Behaviour
  import opened RecursiveDescent
  import G = ExpressionGrammar

  /** `interpretAST`: C int arithmetic, with no result where C defines none. */
  function Interpret(t: ArithExpr): Option<Int32> {
    match t
    case Leaf(v) => Some(v)
    case Node(op, l, r) =>
      var a :- Interpret(l);
      var b :- Interpret(r);
      if op == Over && b == 0 then None
      else
        var v := Exact(op, a, b);
        if -TWO_31 <= v < TWO_31 then Some(v) else None
  }

  function Exact(op: ArithOp, a: int, b: int): int
    requires op == Over ==> b != 0
  {
    match op
    case Plus => a + b
    case Minus => a - b
    case Times => a * b
    case Over => TruncDiv(a, b)
  }

  /** Wrap-around int arithmetic: every operation is cut to 32 bits; division by zero yields zero. */
  function Wrapped(t: ArithExpr): Int32 {
    match t
    case Leaf(v) => v
    case Node(op, l, r) =>
      if op == Over && Wrapped(r) == 0 then 0 else Wrap32(Exact(op, Wrapped(l), Wrapped(r)))
  }

  function Operation(op: ArithOp): BinOp {
    match op case Plus => Add case Minus => Subtract case Times => Multiply case Over => Divide
  }

  /** The generator of stage 4 is that of stage 10 on these trees. */
  function ToExpr(t: ArithExpr): Expr {
    match t
    case Leaf(v) => Leaf(Num(v))
    case Node(op, l, r) => Node(Operation(op), ToExpr(l), ToExpr(r))
  }

  /** `generatecode`: the value of the tree, printed. */
  function GenerateCode(t: ArithExpr): Option<seq<Instr>> {
    GenProgram([], Print(ToExpr(t)))
  }

  // ---------- Registers ----------

  lemma {:induction false} SameNeed(t: ArithExpr)
    ensures Need(ToExpr(t)) == Need(t)
  {
    if t.Node? {
      SameNeed(t.left);
      SameNeed(t.right);
    }
  }

  /** However long the input, what stage 4 parses needs at most three registers, so code
      generation never fails. */
  lemma AlwaysCompiles(ts: seq<Lexeme>)
    requires BinExpr(Arithmetic(), ts, 0).Some?
    ensures var t := BinExpr(Arithmetic(), ts, 0).value.0;
            Need(t) <= 3 && GenerateCode(t).Some?
  {
    var (t, rest) := BinExpr(Arithmetic(), ts, 0).value;
    assert Syntax(Arithmetic()) == Arithmetic();
    ParseIff(Arithmetic(), ts, t, rest);
    G.NeedBound(Arithmetic(), t, 20);
    SameNeed(t);
    StatementRegisters([], Print(ToExpr(t)), FIRST_LABEL);
  }

  // ---------- Values ----------

  predicate IntValue(t: ArithExpr, store: Store) {
    var v := Eval([], ToExpr(t), store);
    v.Some? && -0x8000_0000 <= v.value <= 0x7fff_ffff
  }

  /** Every part has a 64-bit value that is an int, and no divisor is zero. */
  predicate AllInts(t: ArithExpr, store: Store) {
    IntValue(t, store) &&
    (t.Node? ==>
       && AllInts(t.left, store) && AllInts(t.right, store)
       && (t.op == Over ==> Eval([], ToExpr(t.right), store) != Some(0)))
  }

  /** The interpreter has a value exactly if nothing overflows an int and nothing is divided by
      zero, and then it is the 64-bit value. */
  lemma {:induction false} InterpretEval(t: ArithExpr, store: Store)
    ensures Interpret(t).Some? <==> AllInts(t, store)
    ensures Interpret(t).Some? ==> Eval([], ToExpr(t), store) == Some(Interpret(t).value)
  {
    hide TruncDiv, Wrap64;
    match t
    case Leaf(_) =>
    case Node(op, l, r) =>
      InterpretEval(l, store);
      InterpretEval(r, store);
      if Interpret(l).Some? && Interpret(r).Some? && (op == Over ==> Interpret(r).value != 0) {
        OperationFits(op, Interpret(l).value, Interpret(r).value);
      }
  }

  /** No operation on two ints overflows 64 bits. */
  lemma OperationFits(op: ArithOp, a: Int32, b: Int32)
    requires op == Over ==> b != 0
    ensures Arith(Operation(op), a, b) == Some(Exact(op, a, b))
  {
    hide TruncDiv;
    if op == Over {
      IntQuotient(a, b);
    } else if op == Times {
      IntProduct(a, b);
    }
  }

  lemma IntProduct(a: Int32, b: Int32)
    ensures -TWO_63 <= a * b < TWO_63
  {
    AbsProduct(a, b);
    ProductBound(Abs(a), Abs(b), TWO_31);
  }

  lemma Wraps(v: int)
    ensures -TWO_31 <= v < TWO_31 ==> Wrap64(v) == v && Wrap32(v) == v
  {
  }

  /** No division by zero, and the operands of every division are ints, as 64-bit values. */
  predicate DivisionsInRange(t: ArithExpr, store: Store) {
    t.Node? ==>
      && DivisionsInRange(t.left, store) && DivisionsInRange(t.right, store)
      && (t.op == Over ==> IntValue(t.left, store) && IntValue(t.right, store)
                           && Eval([], ToExpr(t.right), store) != Some(0))
  }

  predicate DivisionFree(t: ArithExpr) {
    t.Node? ==> t.op != Over && DivisionFree(t.left) && DivisionFree(t.right)
  }

  lemma {:induction false} DivisionFreeInRange(t: ArithExpr, store: Store)
    requires DivisionFree(t)
    ensures DivisionsInRange(t, store)
  {
    if t.Node? {
      DivisionFreeInRange(t.left, store);
      DivisionFreeInRange(t.right, store);
    }
  }

  lemma {:induction false} InterpretedInRange(t: ArithExpr, store: Store)
    requires Interpret(t).Some?
    ensures DivisionsInRange(t, store) && Wrapped(t) == Interpret(t).value
  {
    if t.Node? {
      InterpretedInRange(t.left, store);
      InterpretedInRange(t.right, store);
      InterpretEval(t.left, store);
      InterpretEval(t.right, store);
      Wraps(Exact(t.op, Wrapped(t.left), Wrapped(t.right)));
    }
  }

  /** If the divisions are in range, 64-bit and 32-bit wrap-around evaluation agree on the low
      32 bits, whatever else overflows on the way. */
  lemma {:induction false} EvalLow32(t: ArithExpr, store: Store)
    requires DivisionsInRange(t, store)
    ensures Eval([], ToExpr(t), store).Some?
    ensures SameLow32(Eval([], ToExpr(t), store).value, Wrapped(t))
  {
    hide SameLow32, TruncDiv, Quotient, Wrap32;
    match t
    case Leaf(v) =>
      Wrap32IsLow32(v);
      Wraps(v);
    case Node(op, l, r) =>
      EvalLow32(l, store);
      EvalLow32(r, store);
      var a, b := Eval([], ToExpr(l), store).value, Eval([], ToExpr(r), store).value;
      if op == Over {
        DivisionLow32(a, b, Wrapped(l), Wrapped(r));
      } else {
        OperationLow32(op, a, b, Wrapped(l), Wrapped(r));
      }
  }

  lemma SameInt(a: Int64, b: Int32)
    requires SameLow32(a, b) && -TWO_31 <= a < TWO_31
    ensures a == b
  {
    SameLow32SameWrap(a, b);
    Wraps(a);
    Wraps(b);
  }

  lemma DivisionLow32(a: Int64, b: Int64, c: Int32, d: Int32)
    requires SameLow32(a, c) && SameLow32(b, d) && b != 0
    requires -TWO_31 <= a < TWO_31 && -TWO_31 <= b < TWO_31
    ensures d != 0 && Quotient(a, b).Some?
    ensures SameLow32(Quotient(a, b).value, Wrap32(Exact(Over, c, d)))
  {
    SameInt(a, c);
    SameInt(b, d);
    IntQuotient(a, b);
    Wrap32IsLow32(TruncDiv(a, b));
  }

  /** The quotient of two ints may only overflow an int: INT_MIN / -1. */
  lemma IntQuotient(a: Int32, b: Int32)
    requires b != 0
    ensures Quotient(a, b) == Some(TruncDiv(a, b))
  {
    hide TruncDiv;
    TruncDivSmaller(a, b);
  }

  lemma OperationLow32(op: ArithOp, a: int, b: int, c: int, d: int)
    requires op != Over && SameLow32(a, c) && SameLow32(b, d)
    ensures SameLow32(Wrap64(Exact(op, a, b)), Wrap32(Exact(op, c, d)))
  {
    var x, y := Exact(op, a, b), Exact(op, c, d);
    assert SameLow32(x, y) by {
      SameLow32Add(a, b, c, d);
      SameLow32Mul(a, b, c, d);
    }
    Wrap64KeepsLow32(x);
    SameLow32Symmetric(x, Wrap64(x));
    SameLow32Transitive(Wrap64(x), x, y);
    Wrap32IsLow32(y);
    SameLow32Transitive(Wrap64(x), y, Wrap32(y));
  }

  // ---------- The whole of stage 4 ----------

  /** The code prints `v` and ends. */
  ghost predicate Prints(code: seq<Instr>, w: World, v: Int32) {
    MachineStops(code, w, Halted, w.(out := w.out + [v]))
  }

  lemma PrintsValue(t: ArithExpr, w: World, v: Int32)
    requires GenerateCode(t).Some?
    requires Eval([], ToExpr(t), w.store).Some? && Wrap32(Eval([], ToExpr(t), w.store).value) == v
    ensures Prints(GenerateCode(t).value, w, v)
  {
    assert Exec([], Print(ToExpr(t)), w, 0) == Done(w.(out := w.out + [v]));
    TerminatesAlike([], Print(ToExpr(t)), w, w.(out := w.out + [v]));
  }

  /** For every input that parses, the code prints the wrapped value if the operands of every
      division are ints and no divisor is zero, even if other operations overflow. This is so where
      nothing is divided, and where the interpreter has a value, which is then the wrapped value:
      where no part overflows an int and no divisor is zero. */
  lemma InterpreterAndCodeAgree(ts: seq<Lexeme>, w: World)
    requires BinExpr(Arithmetic(), ts, 0).Some?
    ensures var t := BinExpr(Arithmetic(), ts, 0).value.0;
            && GenerateCode(t).Some?
            && (DivisionsInRange(t, w.store) ==> Prints(GenerateCode(t).value, w, Wrapped(t)))
            && (Interpret(t).Some? <==> AllInts(t, w.store))
            && (Interpret(t).Some? ==> DivisionsInRange(t, w.store) && Wrapped(t) == Interpret(t).value)
            && (DivisionFree(t) ==> DivisionsInRange(t, w.store))
  {
    hide BinExpr, GenerateCode, Eval, Wrapped, DivisionsInRange, Interpret, DivisionFree, AllInts;
    var t := BinExpr(Arithmetic(), ts, 0).value.0;
    AlwaysCompiles(ts);
    if DivisionsInRange(t, w.store) {
      EvalLow32(t, w.store);
      SameLow32SameWrap(Eval([], ToExpr(t), w.store).value, Wrapped(t));
      Wraps(Wrapped(t));
      PrintsValue(t, w, Wrapped(t));
    }
    InterpretEval(t, w.store);
    if Interpret(t).Some? {
      InterpretedInRange(t, w.store);
    }
    if DivisionFree(t) {
      DivisionFreeInRange(t, w.store);
    }
  }

  /** Beyond that range overflow shows: 65536 * 65536 / 65536 wraps to 0, but the code prints 65536. */
  lemma DivisionShowsOverflow(w: World)
    ensures var t := Node(Over, Node(Times, Leaf(65536), Leaf(65536)), Leaf(65536));
            && !DivisionsInRange(t, w.store) && Wrapped(t) == 0
            && GenerateCode(t).Some? && Prints(GenerateCode(t).value, w, 65536)
  {
    hide GenerateCode, Need;
    var side: ArithExpr := Leaf(65536);
    var square: ArithExpr := Node(Times, side, side);
    var t: ArithExpr := Node(Over, square, side);
    assert ToExpr(side) == Leaf(Num(65536)) && Eval([], ToExpr(side), w.store) == Some(65536);
    assert Wrapped(side) == 65536 && Wrapped(square) == 0;
    assert ToExpr(square) == Node(Multiply, ToExpr(side), ToExpr(side));
    assert Eval([], ToExpr(square), w.store) == Some(TWO_32);
    assert ToExpr(t) == Node(Divide, ToExpr(square), ToExpr(side));
    assert TruncDiv(TWO_32, 65536) == 65536;
    assert Eval([], ToExpr(t), w.store) == Some(65536);
    SquareCompiles(t, side);
    PrintsValue(t, w, 65536);
  }

  lemma SquareCompiles(t: ArithExpr, side: ArithExpr)
    requires side.Leaf? && t == Node(Over, Node(Times, side, side), side)
    ensures GenerateCode(t).Some?
  {
    hide GenStmt;
    assert Need(side) == 1 && Need(Node(Times, side, side)) == 2 && Need(t) == 2;
    SameNeed(t);
    StatementRegisters([], Print(ToExpr(t)), FIRST_LABEL);
  }
}
