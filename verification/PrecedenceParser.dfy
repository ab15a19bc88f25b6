/**
 The operator-precedence parser `binexpr`, which every stage of the compiler
 repeats with its own tables. A stage supplies

 - its precedence table and the set of right-associative operators,
 - whether the end of the input ends an expression (it does up to stage 4;
   later it is a syntax error and only ';' and ')' end one),
 - what to build for an operand and for an operator with two sub-trees.

 A failing result stands for `fatal`/`exit`.
 */
module PrecedenceParser {
  import opened Wrappers

  /** What `binexpr` sees of a token. `Other` is every token that is neither an
      operand, nor a binary operator, nor an end of expression. */
  datatype Sym<A, O> = Operand(leaf: A) | Operator(op: O) | Stop | Other

  datatype Tree<A, O> = Leaf(leaf: A) | Node(op: O, left: Tree<A, O>, right: Tree<A, O>)

  datatype Grammar<!A, !O, !N> = Grammar(
    prec: O -> nat,
    rightAssoc: O -> bool,
    eofStops: bool,
    leaf: A -> N,
    join: (O, N, N) -> Option<N>)

  /** The loop condition of `binexpr`: does `op` bind into a sub-expression that
      was started after an operator of precedence `ptp`? */
  predicate Climbs<A, O, N>(g: Grammar<A, O, N>, op: O, ptp: nat) {
    g.prec(op) > ptp || (g.rightAssoc(op) && g.prec(op) == ptp)
  }

  predicate Ends<A, O, N>(g: Grammar<A, O, N>, ss: seq<Sym<A, O>>) {
    if ss == [] then g.eofStops else ss[0].Stop?
  }

  /** `binexpr(ptp)` on the symbols still to be read; the result carries the unread rest. */
  function BinExpr<A, O, N>(g: Grammar<A, O, N>, ss: seq<Sym<A, O>>, ptp: nat)
    : (r: Option<(N, seq<Sym<A, O>>)>)
    ensures r.Some? ==> |r.value.1| < |ss|
    decreases |ss|
  {
    if ss == [] || !ss[0].Operand? then None
    else Climb(g, g.leaf(ss[0].leaf), ss[1..], ptp)
  }

  /** The loop of `binexpr(ptp)` with the tree `left` built so far. */
  function Climb<A, O, N>(g: Grammar<A, O, N>, left: N, ss: seq<Sym<A, O>>, ptp: nat)
    : (r: Option<(N, seq<Sym<A, O>>)>)
    ensures r.Some? ==> |r.value.1| <= |ss|
    decreases |ss|
  {
    if Ends(g, ss) then Some((left, ss))
    else if ss == [] || !ss[0].Operator? then None
    else if !Climbs(g, ss[0].op, ptp) then Some((left, ss))
    else
      var (right, rest) :- BinExpr(g, ss[1..], g.prec(ss[0].op));
      var joined :- g.join(ss[0].op, left, right);
      Climb(g, joined, rest, ptp)
  }

  /** What one test of the loop condition settles about the result of the loop. */
  lemma LoopTest<A, O, N>(g: Grammar<A, O, N>, left: N, ss: seq<Sym<A, O>>, ptp: nat)
    ensures Ends(g, ss) ==> Climb(g, left, ss, ptp) == Some((left, ss))
    ensures !Ends(g, ss) && (ss == [] || !ss[0].Operator?) ==> Climb(g, left, ss, ptp) == None
    ensures !Ends(g, ss) && ss != [] && ss[0].Operator? && !Climbs(g, ss[0].op, ptp)
            ==> Climb(g, left, ss, ptp) == Some((left, ss))
  {
  }

  lemma FirstOperand<A, O, N>(g: Grammar<A, O, N>, ss: seq<Sym<A, O>>, ptp: nat)
    ensures BinExpr(g, ss, ptp) == if ss == [] || !ss[0].Operand? then None
                                   else Climb(g, g.leaf(ss[0].leaf), ss[1..], ptp)
  {
  }

  /** What one iteration does to it. */
  lemma LoopBody<A, O, N>(g: Grammar<A, O, N>, left: N, ss: seq<Sym<A, O>>, ptp: nat)
    requires !Ends(g, ss) && ss != [] && ss[0].Operator? && Climbs(g, ss[0].op, ptp)
    ensures var right := BinExpr(g, ss[1..], g.prec(ss[0].op));
            && (right.None? ==> Climb(g, left, ss, ptp) == None)
            && (right.Some? ==>
                  var joined := g.join(ss[0].op, left, right.value.0);
                  && (joined.None? ==> Climb(g, left, ss, ptp) == None)
                  && (joined.Some? ==> Climb(g, left, ss, ptp) == Climb(g, joined.value, right.value.1, ptp)))
  {
  }

  // ---------- Shape of the parsed trees ----------

  /** A grammar that builds plain syntax trees. */
  function Plain<A, O>(prec: O -> nat, rightAssoc: O -> bool, eofStops: bool): Grammar<A, O, Tree<A, O>> {
    Grammar(prec, rightAssoc, eofStops, (a: A) => Leaf(a),
            (op: O, l: Tree<A, O>, r: Tree<A, O>) => Some(Node(op, l, r)))
  }

  function Syntax<A, O, N>(g: Grammar<A, O, N>): Grammar<A, O, Tree<A, O>> {
    Plain(g.prec, g.rightAssoc, g.eofStops)
  }

  function Flatten<A, O>(t: Tree<A, O>): (ss: seq<Sym<A, O>>)
    ensures ss != [] && ss[0].Operand?
  {
    match t
    case Leaf(a) => [Operand(a)]
    case Node(op, l, r) => Flatten(l) + [Operator(op)] + Flatten(r)
  }

  /** Every right child binds more tightly than its parent's operator (or equally, if
      its own operator is right-associative); no left child lets its parent in. */
  ghost predicate Canonical<A, O, N>(g: Grammar<A, O, N>, t: Tree<A, O>) {
    t.Node? ==>
      && Canonical(g, t.left) && Canonical(g, t.right)
      && (t.left.Node? ==> !Climbs(g, t.op, g.prec(t.left.op)))
      && (t.right.Node? ==> Climbs(g, t.right.op, g.prec(t.op)))
  }

  /** `ss` does not continue an expression started after precedence `p`. */
  ghost predicate Bounded<A, O, N>(g: Grammar<A, O, N>, ss: seq<Sym<A, O>>, p: nat) {
    Ends(g, ss) || (ss != [] && ss[0].Operator? && !Climbs(g, ss[0].op, p))
  }

  ghost predicate Fits<A, O, N>(g: Grammar<A, O, N>, t: Tree<A, O>, ptp: nat) {
    t.Node? ==> Climbs(g, t.op, ptp)
  }

  /** One iteration of the loop, before and after `right` is joined to `left`. */
  lemma SyntaxJoins<A, O, N>(g: Grammar<A, O, N>, left: Tree<A, O>, right: Tree<A, O>,
                             ss: seq<Sym<A, O>>, rest: seq<Sym<A, O>>, ptp: nat)
    requires !Ends(g, ss) && ss != [] && ss[0].Operator? && Climbs(g, ss[0].op, ptp)
    requires BinExpr(Syntax(g), ss[1..], g.prec(ss[0].op)) == Some((right, rest))
    ensures Climb(Syntax(g), left, ss, ptp) == Climb(Syntax(g), Node(ss[0].op, left, right), rest, ptp)
  {
  }

  // Soundness: what is returned is canonical, and flattens to what was read.

  lemma {:induction false} BinExprSound<A, O, N>(g: Grammar<A, O, N>, ss: seq<Sym<A, O>>, ptp: nat)
    requires BinExpr(Syntax(g), ss, ptp).Some?
    ensures var (t, rest) := BinExpr(Syntax(g), ss, ptp).value;
            && Canonical(g, t) && Fits(g, t, ptp)
            && ss == Flatten(t) + rest && Bounded(g, rest, ptp)
    decreases |ss|
  {
    ClimbSound(g, Leaf(ss[0].leaf), ss[1..], ptp);
  }

  lemma FlattenJoin<A, O>(op: O, l: Tree<A, O>, r: Tree<A, O>, ss: seq<Sym<A, O>>, rest: seq<Sym<A, O>>)
    requires ss != [] && ss[0] == Operator(op) && ss[1..] == Flatten(r) + rest
    ensures Flatten(l) + ss == Flatten(Node(op, l, r)) + rest
  {
    assert ss == [Operator(op)] + (Flatten(r) + rest);
  }

  lemma {:induction false} ClimbSound<A, O, N>(g: Grammar<A, O, N>, left: Tree<A, O>, ss: seq<Sym<A, O>>, ptp: nat)
    requires Canonical(g, left) && Fits(g, left, ptp)
    requires left.Node? ==> Bounded(g, ss, g.prec(left.op))
    requires Climb(Syntax(g), left, ss, ptp).Some?
    ensures var (t, rest) := Climb(Syntax(g), left, ss, ptp).value;
            && Canonical(g, t) && Fits(g, t, ptp)
            && Flatten(left) + ss == Flatten(t) + rest && Bounded(g, rest, ptp)
    decreases |ss|
  {
    if !Ends(g, ss) && Climbs(g, ss[0].op, ptp) {
      var op := ss[0].op;
      var (right, rest) := BinExpr(Syntax(g), ss[1..], g.prec(op)).value;
      SyntaxJoins(g, left, right, ss, rest, ptp);
      BinExprSound(g, ss[1..], g.prec(op));
      FlattenJoin(op, left, right, ss, rest);
      ClimbSound(g, Node(op, left, right), rest, ptp);
    }
  }

  // Completeness: parsing what a canonical tree flattens to rebuilds that tree.

  lemma {:induction false} BinExprComplete<A, O, N>(
    g: Grammar<A, O, N>, t: Tree<A, O>, rest: seq<Sym<A, O>>, ptp: nat)
    requires Canonical(g, t) && Fits(g, t, ptp)
    requires t.Node? ==> Bounded(g, rest, g.prec(t.op))
    ensures BinExpr(Syntax(g), Flatten(t) + rest, ptp) == Climb(Syntax(g), t, rest, ptp)
    decreases t
  {
    match t
    case Leaf(a) =>
      assert (Flatten(t) + rest)[1..] == rest;
    case Node(op, l, r) =>
      var tail := Flatten(r) + rest;
      var cont := [Operator(op)] + tail;
      FlattenJoin(op, l, r, cont, rest);
      assert BinExpr(Syntax(g), Flatten(l) + cont, ptp) == Climb(Syntax(g), l, cont, ptp) by {
        BinExprComplete(g, l, cont, ptp);
      }
      assert BinExpr(Syntax(g), tail, g.prec(op)) == Some((r, rest)) by {
        BinExprComplete(g, r, rest, g.prec(op));
      }
      SyntaxJoins(g, l, r, cont, rest, ptp);
  }

  /** A whole expression: what `binexpr(0)` accepts, and the only tree it can return. */
  lemma ParseIff<A, O, N>(g: Grammar<A, O, N>, ss: seq<Sym<A, O>>, t: Tree<A, O>, rest: seq<Sym<A, O>>)
    requires forall op :: g.prec(op) > 0
    ensures BinExpr(Syntax(g), ss, 0) == Some((t, rest))
            <==> Canonical(g, t) && ss == Flatten(t) + rest && Ends(g, rest)
  {
    if BinExpr(Syntax(g), ss, 0) == Some((t, rest)) {
      BinExprSound(g, ss, 0);
    }
    if Canonical(g, t) && ss == Flatten(t) + rest && Ends(g, rest) {
      BinExprComplete(g, t, rest, 0);
    }
  }

  lemma CanonicalUnique<A, O, N>(g: Grammar<A, O, N>, t: Tree<A, O>, u: Tree<A, O>)
    requires forall op :: g.prec(op) > 0
    requires Canonical(g, t) && Canonical(g, u) && Flatten(t) == Flatten(u)
    ensures t == u
  {
    ParseIff(g, Flatten(t) + [Stop], t, [Stop]);
    ParseIff(g, Flatten(t) + [Stop], u, [Stop]);
  }

  // ---------- Building while parsing is building after parsing ----------

  function Build<A, O, N>(g: Grammar<A, O, N>, t: Tree<A, O>): Option<N> {
    match t
    case Leaf(a) => Some(g.leaf(a))
    case Node(op, l, r) =>
      var left :- Build(g, l);
      var right :- Build(g, r);
      g.join(op, left, right)
  }

  function BuildResult<A, O, N>(g: Grammar<A, O, N>, r: Option<(Tree<A, O>, seq<Sym<A, O>>)>)
    : Option<(N, seq<Sym<A, O>>)>
  {
    var (t, rest) :- r;
    var n :- Build(g, t);
    Some((n, rest))
  }

  lemma {:induction false} ParseThenBuild<A, O, N>(g: Grammar<A, O, N>, ss: seq<Sym<A, O>>, ptp: nat)
    ensures BinExpr(g, ss, ptp) == BuildResult(g, BinExpr(Syntax(g), ss, ptp))
    decreases |ss|
  {
    if ss != [] && ss[0].Operand? {
      ClimbThenBuild(g, Leaf(ss[0].leaf), ss[1..], ptp);
    }
  }

  lemma {:induction false} ClimbThenBuild<A, O, N>(g: Grammar<A, O, N>, left: Tree<A, O>, ss: seq<Sym<A, O>>, ptp: nat)
    ensures BuildResult(g, Climb(Syntax(g), left, ss, ptp)) == ClimbBuilt(g, Build(g, left), ss, ptp)
    decreases |ss|
  {
    if Ends(g, ss) || ss == [] || !ss[0].Operator? || !Climbs(g, ss[0].op, ptp) {
    } else {
      var op := ss[0].op;
      ParseThenBuild(g, ss[1..], g.prec(op));
      match BinExpr(Syntax(g), ss[1..], g.prec(op))
      case None =>
      case Some((right, rest)) =>
        ClimbThenBuild(g, Node(op, left, right), rest, ptp);
        SyntaxJoins(g, left, right, ss, rest, ptp);
        ClimbJoins(g, left, right, ss, rest, ptp);
    }
  }

  function ClimbBuilt<A, O, N>(g: Grammar<A, O, N>, left: Option<N>, ss: seq<Sym<A, O>>, ptp: nat)
    : Option<(N, seq<Sym<A, O>>)>
  {
    var n :- left;
    Climb(g, n, ss, ptp)
  }

  /** One iteration of the loop, with the tree that `g` builds. */
  lemma ClimbJoins<A, O, N>(g: Grammar<A, O, N>, left: Tree<A, O>, right: Tree<A, O>,
                            ss: seq<Sym<A, O>>, rest: seq<Sym<A, O>>, ptp: nat)
    requires !Ends(g, ss) && ss != [] && ss[0].Operator? && Climbs(g, ss[0].op, ptp)
    requires BinExpr(Syntax(g), ss[1..], g.prec(ss[0].op)) == Some((right, rest))
    requires BinExpr(g, ss[1..], g.prec(ss[0].op)) == BuildResult(g, Some((right, rest)))
    ensures ClimbBuilt(g, Build(g, left), ss, ptp)
            == ClimbBuilt(g, Build(g, Node(ss[0].op, left, right)), rest, ptp)
  {
    match Build(g, left)
    case None =>
    case Some(l) =>
      match Build(g, right)
      case None =>
      case Some(r) =>
        assert BinExpr(g, ss[1..], g.prec(ss[0].op)) == Some((r, rest));
  }

  /** The parser of any stage, described without running it. */
  lemma ParseBuildIff<A, O, N>(g: Grammar<A, O, N>, ss: seq<Sym<A, O>>, n: N, rest: seq<Sym<A, O>>)
    requires forall op :: g.prec(op) > 0
    ensures BinExpr(g, ss, 0) == Some((n, rest))
            <==> Ends(g, rest) && exists t :: Canonical(g, t) && ss == Flatten(t) + rest && Build(g, t) == Some(n)
  {
    ParseThenBuild(g, ss, 0);
    if BinExpr(g, ss, 0) == Some((n, rest)) {
      var (t, r) := BinExpr(Syntax(g), ss, 0).value;
      ParseIff(g, ss, t, r);
    }
    forall t | Canonical(g, t) && ss == Flatten(t) + rest && Ends(g, rest) && Build(g, t) == Some(n)
      ensures BinExpr(g, ss, 0) == Some((n, rest))
    {
      ParseIff(g, ss, t, rest);
    }
  }
}
