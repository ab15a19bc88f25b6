/** Stage 18 makes assignment an operator: it binds least of all, groups to the right, and its
    node holds the source on the left and the target on the right, so that the code for the
    source comes first. (Identifiers and literals of one scalar type.) */
module AssignmentExpressions {
  import opened Wrappers
  import opened PrecedenceParser
  import opened Ast
  import G = ExpressionGrammar

  datatype Op = Becomes | Binary(op: BinOp)

  type AssignExpr = Tree<Atom, Op>

  function OpPrec(op: Op): nat {
    match op
    case Becomes => 10
    case Binary(Add) | Binary(Subtract) => 20
    case Binary(Multiply) | Binary(Divide) => 30
    case Binary(Eq) | Binary(Ne) => 40
    case Binary(_) => 50
  }

  /** What `binexpr` does with an operator and its two sub-trees. */
  function Join(op: Op, left: AssignExpr, right: AssignExpr): AssignExpr {
    if op == Becomes then Node(op, right, left) else Node(op, left, right)
  }

  function Assignments(): Grammar<Atom, Op, AssignExpr> {
    Grammar((op: Op) => OpPrec(op), (op: Op) => op == Becomes, false, (a: Atom) => Leaf(a),
            (op: Op, l: AssignExpr, r: AssignExpr) => Some(Join(op, l, r)))
  }

  /** A tree as it was written: targets on the left. */
  function Written(n: AssignExpr): AssignExpr {
    match n
    case Leaf(_) => n
    case Node(op, l, r) => Join(op, Written(l), Written(r))
  }

  lemma {:induction false} WrittenTwice(n: AssignExpr)
    ensures Written(Written(n)) == n
  {
    if n.Node? {
      WrittenTwice(n.left);
      WrittenTwice(n.right);
    }
  }

  lemma {:induction false} BuildFlips(t: AssignExpr)
    ensures Build(Assignments(), t) == Some(Written(t))
  {
    if t.Node? {
      BuildFlips(t.left);
      BuildFlips(t.right);
    }
  }

  /** How operators may nest in writing: nothing takes an assignment as an operand, except that
      an assignment may be the source of another one; all other operators group to the left. */
  predicate Grouped(t: AssignExpr) {
    match t
    case Leaf(_) => true
    case Node(Becomes, target, source) =>
      (target.Node? ==> target.op != Becomes) && Grouped(target) && Grouped(source)
    case Node(op, l, r) =>
      && (l.Node? ==> OpPrec(l.op) >= OpPrec(op))
      && (r.Node? ==> OpPrec(r.op) > OpPrec(op))
      && Grouped(l) && Grouped(r)
  }

  lemma {:induction false} GroupedIsCanonical(t: AssignExpr)
    ensures Grouped(t) <==> Canonical(Assignments(), t)
  {
    if t.Node? {
      GroupedIsCanonical(t.left);
      GroupedIsCanonical(t.right);
    }
  }

  /** The parser returns a tree exactly if its written form is well grouped and spells what was
      read up to the end of the expression. */
  lemma AssignmentRoundTrip(ss: seq<Sym<Atom, Op>>, n: AssignExpr, rest: seq<Sym<Atom, Op>>)
    ensures BinExpr(Assignments(), ss, 0) == Some((n, rest))
            <==> Grouped(Written(n)) && ss == Flatten(Written(n)) + rest && rest != [] && rest[0] == Stop
  {
    var g := Assignments();
    WrittenTwice(n);
    GroupedIsCanonical(Written(n));
    BuildFlips(Written(n));
    ParseBuildIff(g, ss, n, rest);
    if BinExpr(g, ss, 0) == Some((n, rest)) {
      var t :| Canonical(g, t) && ss == Flatten(t) + rest && Build(g, t) == Some(n);
      BuildFlips(t);
      WrittenTwice(t);
    }
    if Canonical(g, Written(n)) && ss == Flatten(Written(n)) + rest && Ends(g, rest) {
      assert Build(g, Written(n)) == Some(n);
    }
  }

  function WithoutAssignment(t: Expr): AssignExpr {
    match t
    case Leaf(a) => Leaf(a)
    case Node(op, l, r) => Node(Binary(op), WithoutAssignment(l), WithoutAssignment(r))
  }

  /** Without assignments, expressions group as they did in stage 10. */
  lemma GroupedAsBefore(t: Expr)
    ensures Grouped(WithoutAssignment(t)) <==> G.IsSum(t)
  {
    G.Levels(G.Expressions(), t);
    SameCanonical(t);
  }

  lemma {:induction false} SameCanonical(t: Expr)
    ensures Grouped(WithoutAssignment(t)) <==> Canonical(G.Expressions(), t)
  {
    if t.Node? {
      SameCanonical(t.left);
      SameCanonical(t.right);
    }
  }

  /** `x = y = z` assigns z to y and the result to x; each node has its source first. */
  lemma AssignmentsChain(x: Atom, y: Atom, z: Atom)
    ensures BinExpr(Assignments(), [Operand(x), Operator(Becomes), Operand(y), Operator(Becomes), Operand(z), Stop], 0)
            == Some((Node(Becomes, Node(Becomes, Leaf(z), Leaf(y)), Leaf(x)), [Stop]))
  {
    var n: AssignExpr := Node(Becomes, Node(Becomes, Leaf(z), Leaf(y)), Leaf(x));
    var inner: AssignExpr := Node(Becomes, Leaf(y), Leaf(z));
    assert Written(n.left) == inner;
    assert Written(n) == Node(Becomes, Leaf(x), inner);
    assert Flatten(inner) == [Operand(y), Operator(Becomes), Operand(z)];
    assert Flatten(Written(n)) == [Operand(x), Operator(Becomes)] + Flatten(inner);
    assert Grouped(inner.left) && Grouped(inner.right);
    assert Grouped(inner) && Grouped(Written(n));
    AssignmentRoundTrip(Flatten(Written(n)) + [Stop], n, [Stop]);
    assert Flatten(Written(n)) + [Stop]
        == [Operand(x), Operator(Becomes), Operand(y), Operator(Becomes), Operand(z), Stop];
  }
}
