/** Expressions as tokens: what `binexpr(0)` reads is what was spelled, with the variables
    resolved to their slots. */
module ExpressionSpelling {
  import opened Wrappers
  import opened PrecedenceParser
  import opened Ast
  import opened Semantics
  import opened Tokens
  import opened Pools
  import opened SymbolTable
  import opened ExpressionGrammar
  import opened SourceLanguage

  /** The same operator table, over trees with named variables. */
  function SourceExpressions(): Grammar<Term, BinOp, SourceExpr> {
    Plain((op: BinOp) => OpPrec(op), (op: BinOp) => false, false)
  }

  /** Without parentheses, only sums of products of equalities of relations can be written. */
  predicate CanonicalSource(e: SourceExpr) {
    IsSum(e)
  }

  /** Variables by slot instead of by name; None if one was never declared. */
  function Resolve(gsym: seq<string>, e: SourceExpr): Option<Expr> {
    match e
    case Leaf(Number(v)) => Some(Leaf(Num(v)))
    case Leaf(Named(x)) =>
      var i :- FindGlob(gsym, x);
      Some(Leaf(Slot(i)))
    case Node(op, l, r) =>
      var a :- Resolve(gsym, l);
      var b :- Resolve(gsym, r);
      Some(Node(op, a, b))
  }

  /** Resolution looks names up, and the tree means the same. */
  lemma {:induction false} ResolveMeaning(gsym: seq<string>, e: SourceExpr, later: seq<string>, store: Store)
    requires Resolve(gsym, e).Some? && gsym <= later
    ensures Eval(later, Resolve(gsym, e).value, store) == EvalSource(e, store)
  {
    match e
    case Leaf(Number(_)) =>
    case Leaf(Named(x)) =>
      FoundLater(gsym, later, x);
    case Node(_, l, r) =>
      ResolveMeaning(gsym, l, later, store);
      ResolveMeaning(gsym, r, later, store);
  }

  lemma ResolveCanonical(gsym: seq<string>, e: SourceExpr)
    requires Resolve(gsym, e).Some?
    ensures Canonical(Expressions(), Resolve(gsym, e).value) <==> CanonicalSource(e)
  {
    ResolveKeepsShape(gsym, e);
    Levels(SourceExpressions(), e);
  }

  lemma {:induction false} ResolveKeepsShape(gsym: seq<string>, e: SourceExpr)
    requires Resolve(gsym, e).Some?
    ensures Canonical(Expressions(), Resolve(gsym, e).value) <==> Canonical(SourceExpressions(), e)
  {
    if e.Node? {
      ResolveKeepsShape(gsym, e.left);
      ResolveKeepsShape(gsym, e.right);
    }
  }

  lemma SymsConcat(gsym: seq<string>, a: seq<Token>, b: seq<Token>)
    ensures Syms(gsym, a + b) == Syms(gsym, a) + Syms(gsym, b)
  {
  }

  lemma {:induction false} SymsOfTokens(gsym: seq<string>, e: SourceExpr)
    ensures Resolve(gsym, e).Some? ==> Syms(gsym, ExprTokens(e)) == Flatten(Resolve(gsym, e).value)
    ensures Resolve(gsym, e).None? ==> Other in Syms(gsym, ExprTokens(e))
    ensures Stop !in Syms(gsym, ExprTokens(e))
  {
    match e
    case Leaf(a) =>
      assert Syms(gsym, ExprTokens(e)) == [SymOf(gsym, TermToken(a))];
    case Node(op, l, r) =>
      SymsOfTokens(gsym, l);
      SymsOfTokens(gsym, r);
      SymsConcat(gsym, ExprTokens(l), [TOp(op)]);
      SymsConcat(gsym, ExprTokens(l) + [TOp(op)], ExprTokens(r));
      assert Syms(gsym, [TOp(op)]) == [Operator(op)];
  }

  lemma {:induction false} NothingElse(t: Expr)
    ensures Other !in Flatten(t)
  {
    if t.Node? {
      NothingElse(t.left);
      NothingElse(t.right);
    }
  }

  ghost predicate EndsExpression(ts: seq<Token>) {
    ts != [] && (ts[0] == TSemi || ts[0] == TRParen)
  }

  function WithRest<D>(d: Option<D>, rest: seq<Token>): Option<(D, seq<Token>)> {
    var x :- d;
    Some((x, rest))
  }

  lemma StopsExpression(gsym: seq<string>, ts: seq<Token>)
    requires EndsExpression(ts)
    ensures Ends(Expressions(), Syms(gsym, ts))
  {
  }

  /** Parsing the spelling of an expression resolves it, or fails if that fails. */
  lemma ExpressionRoundTrip(gsym: seq<string>, e: SourceExpr, rest: seq<Token>)
    requires CanonicalSource(e) && EndsExpression(rest)
    ensures ParseExpr(gsym, ExprTokens(e) + rest) == WithRest(Resolve(gsym, e), rest)
  {
    hide Flatten, Canonical, ExprTokens, Resolve, BinExpr, SymOf;
    var ts := ExprTokens(e) + rest;
    SymsConcat(gsym, ExprTokens(e), rest);
    SymsOfTokens(gsym, e);
    var g := Expressions();
    assert Syntax(g) == g;
    match Resolve(gsym, e)
    case Some(t) =>
      ResolveCanonical(gsym, e);
      StopsExpression(gsym, rest);
      ParseIff(g, Syms(gsym, ts), t, Syms(gsym, rest));
      assert ts[|ts| - |rest|..] == rest;
    case None =>
      if BinExpr(g, Syms(gsym, ts), 0).Some? {
        var (t, left) := BinExpr(g, Syms(gsym, ts), 0).value;
        ParseIff(g, Syms(gsym, ts), t, left);
        NothingElse(t);
        CleanUpToStop(Syms(gsym, ExprTokens(e)), Syms(gsym, rest), Flatten(t), left);
      }
  }

  lemma CleanUpToStop(a: seq<Sym<Atom, BinOp>>, b: seq<Sym<Atom, BinOp>>,
                      c: seq<Sym<Atom, BinOp>>, d: seq<Sym<Atom, BinOp>>)
    requires a + b == c + d && Other !in c && Stop !in a && d != [] && d[0] == Stop
    ensures Other !in a
  {
    assert (a + b)[|c|] == (c + d)[|c|] == Stop;
    assert |a| <= |c|;
    assert forall p :: 0 <= p < |a| ==> a[p] == (a + b)[p] == (c + d)[p] == c[p];
  }

  // ---------- Everything that is parsed was spelled ----------

  function Spell(gsym: seq<string>, t: Expr): SourceExpr {
    match t
    case Leaf(Num(v)) => Leaf(Number(v))
    case Leaf(Slot(i)) => Leaf(Named(Name(gsym, i)))
    case Node(op, l, r) => Node(op, Spell(gsym, l), Spell(gsym, r))
  }

  lemma {:induction false} SpelledTokens(gsym: seq<string>, t: Expr, ts: seq<Token>)
    requires Syms(gsym, ts) == Flatten(t)
    ensures ts == ExprTokens(Spell(gsym, t)) && Resolve(gsym, Spell(gsym, t)) == Some(t)
    decreases t
  {
    match t
    case Leaf(a) =>
      assert Syms(gsym, ts)[0] == SymOf(gsym, ts[0]);
    case Node(op, l, r) =>
      var n := |Flatten(l)|;
      var a, b := ts[..n], ts[n + 1..];
      assert ts == a + [ts[n]] + b;
      assert Syms(gsym, a) == Syms(gsym, ts)[..n] == Flatten(l);
      assert Syms(gsym, b) == Syms(gsym, ts)[n + 1..] == Flatten(r);
      assert SymOf(gsym, ts[n]) == Syms(gsym, ts)[n] == Operator(op);
      SpelledTokens(gsym, l, a);
      SpelledTokens(gsym, r, b);
  }

  lemma SameSplit<T>(a: seq<T>, b: seq<T>, c: seq<T>, d: seq<T>)
    requires a + b == c + d && |a| == |c|
    ensures a == c && b == d
  {
    assert a == (a + b)[..|a|] == c;
    assert b == (a + b)[|a|..] == d;
  }

  /** What was read is the spelling of a canonical expression that resolves to the tree. */
  lemma ExpressionSound(gsym: seq<string>, ts: seq<Token>) returns (e: SourceExpr)
    requires ParseExpr(gsym, ts).Some?
    ensures var (t, rest) := ParseExpr(gsym, ts).value;
            && CanonicalSource(e) && EndsExpression(rest)
            && ts == ExprTokens(e) + rest && Resolve(gsym, e) == Some(t)
  {
    hide Flatten, Canonical, ExprTokens, Resolve, BinExpr;
    var g := Expressions();
    assert Syntax(g) == g;
    var (t, rest) := ParseExpr(gsym, ts).value;
    var left := BinExpr(g, Syms(gsym, ts), 0).value.1;
    ParseIff(g, Syms(gsym, ts), t, left);
    var n := |Flatten(t)|;
    e := Spell(gsym, t);
    assert rest == ts[n..] && ts == ts[..n] + rest;
    SymsConcat(gsym, ts[..n], rest);
    SameSplit(Flatten(t), left, Syms(gsym, ts[..n]), Syms(gsym, rest));
    SpelledTokens(gsym, t, ts[..n]);
    ResolveCanonical(gsym, e);
    assert left[0] == SymOf(gsym, rest[0]);
  }
}
