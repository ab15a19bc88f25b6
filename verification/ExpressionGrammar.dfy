/** The expressions of stage 10: the operator table, and what it means for register use. */
module ExpressionGrammar {
  import opened Wrappers
  import opened PrecedenceParser
  import opened Ast
  import opened Tokens
  import opened SymbolTable
  import opened CodeGen
  import opened Registers

  /** OpPrec: comparisons bind more tightly than arithmetic. */
  function OpPrec(op: BinOp): nat {
    match op
    case Add | Subtract => 10
    case Multiply | Divide => 20
    case Eq | Ne => 30
    case Lt | Gt | Le | Ge => 40
  }

  function Expressions(): Grammar<Atom, BinOp, Expr> {
    Plain((op: BinOp) => OpPrec(op), (op: BinOp) => false, false)
  }

  /** A token as the expression parser sees it; an unknown variable is no operand. */
  function SymOf(gsym: seq<string>, t: Token): Sym<Atom, BinOp> {
    match t
    case TLit(v) => Operand(Num(v))
    case TIdent(x) => (match FindGlob(gsym, x) case None => Other case Some(i) => Operand(Slot(i)))
    case TOp(op) => Operator(op)
    case TSemi => Stop
    case TRParen => Stop
    case _ => Other
  }

  function Syms(gsym: seq<string>, ts: seq<Token>): (r: seq<Sym<Atom, BinOp>>)
    ensures |r| == |ts|
  {
    seq(|ts|, i requires 0 <= i < |ts| => SymOf(gsym, ts[i]))
  }

  /** `binexpr(0)` on tokens: the tree, and the tokens left. */
  function ParseExpr(gsym: seq<string>, ts: seq<Token>): (r: Option<(Expr, seq<Token>)>)
    ensures r.Some? ==> |r.value.1| < |ts| && r.value.1 == ts[|ts| - |r.value.1|..]
  {
    var (e, rest) :- BinExpr(Expressions(), Syms(gsym, ts), 0);
    Some((e, ts[|ts| - |rest|..]))
  }

  // ---------- The grammar that the table stands for ----------

  /** One rule for each level: sums of products of equalities of relations of operands, all
      grouped to the left. */
  predicate IsSum<A>(t: Tree<A, BinOp>) {
    if t.Node? && (t.op == Add || t.op == Subtract) then IsSum(t.left) && IsProduct(t.right) else IsProduct(t)
  }

  predicate IsProduct<A>(t: Tree<A, BinOp>) {
    if t.Node? && (t.op == Multiply || t.op == Divide) then IsProduct(t.left) && IsEquality(t.right)
    else IsEquality(t)
  }

  predicate IsEquality<A>(t: Tree<A, BinOp>) {
    if t.Node? && (t.op == Eq || t.op == Ne) then IsEquality(t.left) && IsRelation(t.right) else IsRelation(t)
  }

  predicate IsRelation<A>(t: Tree<A, BinOp>) {
    t.Node? ==> t.op.IsComparison() && t.op != Eq && t.op != Ne && IsRelation(t.left) && t.right.Leaf?
  }

  lemma {:induction false} Levels<A, N>(g: Grammar<A, BinOp, N>, t: Tree<A, BinOp>)
    requires forall op :: g.prec(op) == OpPrec(op) && !g.rightAssoc(op)
    ensures && (IsSum(t) <==> Canonical(g, t))
            && (IsProduct(t) <==> Canonical(g, t) && (t.Node? ==> OpPrec(t.op) >= 20))
            && (IsEquality(t) <==> Canonical(g, t) && (t.Node? ==> OpPrec(t.op) >= 30))
            && (IsRelation(t) <==> Canonical(g, t) && (t.Node? ==> OpPrec(t.op) >= 40))
  {
    if t.Node? {
      Levels(g, t.left);
      Levels(g, t.right);
    }
  }

  /** `binexpr(0)` accepts the sums of this grammar, up to a ';' or ')', and returns their trees. */
  lemma ParsesGrammar(ss: seq<Sym<Atom, BinOp>>, e: Expr, rest: seq<Sym<Atom, BinOp>>)
    ensures BinExpr(Expressions(), ss, 0) == Some((e, rest))
            <==> IsSum(e) && ss == Flatten(e) + rest && rest != [] && rest[0] == Stop
  {
    var g := Expressions();
    assert Syntax(g) == g;
    ParseIff(g, ss, e, rest);
    Levels(g, e);
  }

  // ---------- The operator table bounds the registers a tree can need ----------

  lemma {:induction false} NeedBound<A, O, N>(g: Grammar<A, O, N>, t: Tree<A, O>, max: nat)
    requires forall op :: g.prec(op) % 10 == 0 && g.prec(op) <= max && !g.rightAssoc(op)
    requires max % 10 == 0 && Canonical(g, t)
    ensures Need(t) <= if t.Leaf? then 1 else 2 + (max - g.prec(t.op)) / 10
  {
    if t.Node? {
      NeedBound(g, t.left, max);
      NeedBound(g, t.right, max);
    }
  }

  /** Whatever expression stage 10 parses needs at most 5 registers, so with 4 the generator
      fails exactly on those that need all 5. */
  lemma ParsedNeed(ss: seq<Sym<Atom, BinOp>>, gsym: seq<string>)
    requires BinExpr(Expressions(), ss, 0).Some?
    ensures var e := BinExpr(Expressions(), ss, 0).value.0;
            Need(e) <= 5 && (GenExpr(gsym, e, ALL_FREE).None? <==> Need(e) == 5)
  {
    hide BinExpr, GenExpr, Canonical, Flatten, Ends;
    var g := Expressions();
    var (e, rest) := BinExpr(g, ss, 0).value;
    assert Syntax(g) == g;
    ParseIff(g, ss, e, rest);
    NeedBound(g, e, 40);
    RegistersSuffice(gsym, e, ALL_FREE);
  }

  lemma LeafOnTheLeft(op: BinOp, v: Atom, right: Expr)
    ensures var e: Expr := Node(op, Leaf(v), right);
            && Need(e) == Max(1, 1 + Need(right))
            && Flatten(e) == [Operand(v), Operator(op)] + Flatten(right)
  {
    var leaf: Expr := Leaf(v);
    assert Need(leaf) == 1 && Flatten(leaf) == [Operand(v)];
  }

  /** The bound is reached: `v + v * v == v < v` parses, and there is no register for its last operand. */
  lemma FiveNeeded(v: Atom, gsym: seq<string>)
    ensures var ss := [Operand(v), Operator(Add), Operand(v), Operator(Multiply), Operand(v),
                       Operator(Eq), Operand(v), Operator(Lt), Operand(v), Stop];
            var r := BinExpr(Expressions(), ss, 0);
            r.Some? && Need(r.value.0) == 5 && GenExpr(gsym, r.value.0, ALL_FREE).None?
  {
    hide BinExpr, GenExpr;
    var leaf: Expr := Leaf(v);
    var lt := Node(Lt, leaf, leaf);
    var eq := Node(Eq, leaf, lt);
    var mul := Node(Multiply, leaf, eq);
    var e := Node(Add, leaf, mul);
    var ss := [Operand(v), Operator(Add), Operand(v), Operator(Multiply), Operand(v),
               Operator(Eq), Operand(v), Operator(Lt), Operand(v), Stop];
    assert IsRelation(leaf) && IsEquality(leaf) && IsProduct(leaf) && IsSum(leaf);
    assert IsRelation(lt);
    assert IsEquality(eq);
    assert IsProduct(mul);
    assert IsSum(e);
    assert Need(leaf) == 1 && Flatten(leaf) == [Operand(v)];
    hide Flatten, Need;
    LeafOnTheLeft(Lt, v, leaf);
    LeafOnTheLeft(Eq, v, lt);
    LeafOnTheLeft(Multiply, v, eq);
    LeafOnTheLeft(Add, v, mul);
    assert ss == Flatten(e) + [Stop];
    ParsesGrammar(ss, e, [Stop]);
    RegistersSuffice(gsym, e, ALL_FREE);
  }
}
