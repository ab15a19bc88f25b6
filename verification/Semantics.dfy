/** What a tree means: 64-bit variables that start at zero, arithmetic that wraps
    around, division that truncates toward zero and traps, `print` of the low 32 bits. */
module Semantics {
  import opened Wrappers
  import opened Words
  import opened PrecedenceParser
  import opened Ast

  type Store = map<string, Int64>

  function Get(store: Store, name: string): Int64 {
    if name in store then store[name] else 0
  }

  function Compare(op: BinOp, a: int, b: int): bool
    requires op.IsComparison()
  {
    match op
    case Eq => a == b
    case Ne => a != b
    case Lt => a < b
    case Gt => a > b
    case Le => a <= b
    case Ge => a >= b
  }

  /** None is the trap of a division by zero or of an unrepresentable quotient. */
  function Arith(op: BinOp, a: Int64, b: Int64): Option<Int64> {
    match op
    case Add => Some(Wrap64(a + b))
    case Subtract => Some(Wrap64(a - b))
    case Multiply => Some(Wrap64(a * b))
    case Divide => Quotient(a, b)
    case _ => Some(if Compare(op, a, b) then 1 else 0)
  }

  function Quotient(a: Int64, b: Int64): Option<Int64> {
    if b == 0 || !(-TWO_63 <= TruncDiv(a, b) < TWO_63) then None
    else Some(TruncDiv(a, b))
  }

  /** Every operation in terms of integers: sums, differences and products modulo 2^64, the
      truncated quotient, and 1 or 0 for a comparison. */
  lemma ArithMeaning(op: BinOp, a: Int64, b: Int64, v: Int64)
    ensures Arith(op, a, b).None? <==>
            op == Divide && (b == 0 || (a == -0x8000_0000_0000_0000 && b == -1))
    ensures Arith(op, a, b) == Some(v) <==>
            match op
            case Add => (a + b - v) % 0x1_0000_0000_0000_0000 == 0
            case Subtract => (a - b - v) % 0x1_0000_0000_0000_0000 == 0
            case Multiply => (a * b - v) % 0x1_0000_0000_0000_0000 == 0
            case Divide => IsQuotient(a, b, v)
            case Eq => v == if a == b then 1 else 0
            case Ne => v == if a == b then 0 else 1
            case Lt => v == if a < b then 1 else 0
            case Gt => v == if b < a then 1 else 0
            case Le => v == if b < a then 0 else 1
            case Ge => v == if a < b then 0 else 1
  {
    hide TruncDiv, IsQuotient, Wrap64;
    match op
    case Add => WrapMeaning(a + b, v);
    case Subtract => WrapMeaning(a - b, v);
    case Multiply => WrapMeaning(a * b, v);
    case Divide => DivideMeaning(a, b, v);
    case _ =>
  }

  lemma DivideMeaning(a: Int64, b: Int64, v: Int64)
    ensures Quotient(a, b).None? <==> b == 0 || (a == -TWO_63 && b == -1)
    ensures Quotient(a, b) == Some(v) <==> IsQuotient(a, b, v)
  {
    hide TruncDiv;
    if b != 0 {
      QuotientRange(a, b);
      TruncDivMeaning(a, b, v);
    }
  }

  /** A variable has the value last stored in it, and zero before. */
  lemma GetMeaning(store: Store, x: string, v: Int64, y: string)
    ensures Get(store[x := v], y) == (if y == x then v else Get(store, y)) && Get(map[], y) == 0
  {
  }

  function Eval(gsym: seq<string>, e: Expr, store: Store): Option<Int64> {
    match e
    case Leaf(Num(v)) => Some(v)
    case Leaf(Slot(id)) => Some(Get(store, Name(gsym, id)))
    case Node(op, l, r) =>
      var a :- Eval(gsym, l, store);
      var b :- Eval(gsym, r, store);
      Arith(op, a, b)
  }

  datatype World = World(store: Store, out: seq<Int32>)

  /** How far a run got: to its end, to a trap, or until the iterations it was given ran out. */
  datatype Result = Done(w: World) | Trap(w: World) | Timeout(w: World)

  /** Runs `s`, giving no loop more than `k` iterations in a row. */
  function Exec(gsym: seq<string>, s: Stmt, w: World, k: nat): Result
    decreases k, s
  {
    match s
    case Print(e) =>
      (match Eval(gsym, e, w.store)
       case None => Trap(w)
       case Some(v) => Done(w.(out := w.out + [Wrap32(v)])))
    case Assign(id, e) =>
      (match Eval(gsym, e, w.store)
       case None => Trap(w)
       case Some(v) => Done(w.(store := w.store[Name(gsym, id) := v])))
    case Glue(s1, s2) =>
      (match Exec(gsym, s1, w, k)
       case Done(w1) => Exec(gsym, s2, w1, k)
       case r => r)
    case If(cond, thn, els) =>
      (match Eval(gsym, cond, w.store)
       case None => Trap(w)
       case Some(v) =>
         if v != 0 then Exec(gsym, thn, w, k)
         else if els.Some? then Exec(gsym, els.value, w, k)
         else Done(w))
    case While(cond, body) =>
      if k == 0 then Timeout(w)
      else
        (match Eval(gsym, cond, w.store)
         case None => Trap(w)
         case Some(v) =>
           if v == 0 then Done(w)
           else match Exec(gsym, body, w, k)
             case Done(w1) => Exec(gsym, s, w1, k - 1)
             case r => r)
  }

  /** A run that ended or trapped does the same however many more iterations it is given. */
  lemma {:induction false} MoreIterations(gsym: seq<string>, s: Stmt, w: World, k: nat, more: nat)
    requires k <= more && !Exec(gsym, s, w, k).Timeout?
    ensures Exec(gsym, s, w, more) == Exec(gsym, s, w, k)
    decreases k, s
  {
    match s
    case Print(_) =>
    case Assign(_, _) =>
    case Glue(s1, s2) =>
      MoreIterations(gsym, s1, w, k, more);
      if Exec(gsym, s1, w, k).Done? {
        MoreIterations(gsym, s2, Exec(gsym, s1, w, k).w, k, more);
      }
    case If(cond, thn, els) =>
      var v := Eval(gsym, cond, w.store);
      if v.Some? && v.value != 0 {
        MoreIterations(gsym, thn, w, k, more);
      } else if v.Some? && els.Some? {
        MoreIterations(gsym, els.value, w, k, more);
      }
    case While(cond, body) =>
      var v := Eval(gsym, cond, w.store);
      if v.Some? && v.value != 0 {
        MoreIterations(gsym, body, w, k, more);
        if Exec(gsym, body, w, k).Done? {
          MoreIterations(gsym, s, Exec(gsym, body, w, k).w, k - 1, more - 1);
        }
      }
  }
}
