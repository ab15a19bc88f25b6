/** The statement parser, as functions from the tokens still to be read to a tree, the
    tokens left and the symbol table. A declaration yields no tree. */
module StatementParser {
  import opened Wrappers
  import opened Ast
  import opened Tokens
  import opened SymbolTable
  import opened ExpressionGrammar

  datatype Parsed<T> = Parsed(tree: T, rest: seq<Token>, gsym: seq<string>)

  /** `match`: the tokens after an expected one. */
  function Match(ts: seq<Token>, t: Token): (r: Option<seq<Token>>)
    ensures r.Some? ==> ts == [t] + r.value
  {
    if ts != [] && ts[0] == t then Some(ts[1..]) else None
  }

  function ParseCondition(gsym: seq<string>, ts: seq<Token>): (r: Option<(Condition, seq<Token>)>)
    ensures r.Some? ==> |r.value.1| < |ts|
  {
    var (e, rest) :- ParseExpr(gsym, ts);
    if IsCondition(e) then Some((e, rest)) else None
  }

  /** The keyword and the condition in parentheses with which `if` and `while` begin. */
  function ParseTest(gsym: seq<string>, ts: seq<Token>, keyword: Token): (r: Option<(Condition, seq<Token>)>)
    ensures r.Some? ==> |r.value.1| < |ts|
  {
    var ts1 :- Match(ts, keyword);
    var ts2 :- Match(ts1, TLParen);
    var (c, ts3) :- ParseCondition(gsym, ts2);
    var ts4 :- Match(ts3, TRParen);
    Some((c, ts4))
  }

  function ParsePrint(gsym: seq<string>, ts: seq<Token>): (r: Option<Parsed<Option<Stmt>>>)
    ensures r.Some? ==> |r.value.rest| < |ts|
  {
    var ts1 :- Match(ts, TPrint);
    var (e, rest) :- ParseExpr(gsym, ts1);
    Some(Parsed(Some(Print(e)), rest, gsym))
  }

  function ParseDeclaration(gsym: seq<string>, ts: seq<Token>): (r: Option<Parsed<Option<Stmt>>>)
    ensures r.Some? ==> |r.value.rest| < |ts|
  {
    var ts1 :- Match(ts, TInt);
    if ts1 == [] || !ts1[0].TIdent? then None
    else
      var gsym1 :- AddGlob(gsym, ts1[0].name);
      var rest :- Match(ts1[1..], TSemi);
      Some(Parsed(None, rest, gsym1))
  }

  function ParseAssignment(gsym: seq<string>, ts: seq<Token>): (r: Option<Parsed<Option<Stmt>>>)
    ensures r.Some? ==> |r.value.rest| < |ts|
  {
    if ts == [] || !ts[0].TIdent? then None
    else
      var id :- FindGlob(gsym, ts[0].name);
      var ts1 :- Match(ts[1..], TAssign);
      var (e, rest) :- ParseExpr(gsym, ts1);
      Some(Parsed(Some(Assign(id, e)), rest, gsym))
  }

  /** An `else` block without a tree is taken for none. */
  function ParseIf(gsym: seq<string>, ts: seq<Token>): (r: Option<Parsed<Option<Stmt>>>)
    ensures r.Some? ==> |r.value.rest| < |ts|
    decreases |ts|, 0
  {
    var (c, ts1) :- ParseTest(gsym, ts, TIf);
    var thn :- ParseBody(gsym, ts1);
    if thn.rest != [] && thn.rest[0] == TElse then
      var els :- ParseCompound(thn.gsym, thn.rest[1..]);
      Some(Parsed(Some(If(c, thn.tree, els.tree)), els.rest, els.gsym))
    else
      Some(Parsed(Some(If(c, thn.tree, None)), thn.rest, thn.gsym))
  }

  function ParseWhile(gsym: seq<string>, ts: seq<Token>): (r: Option<Parsed<Option<Stmt>>>)
    ensures r.Some? ==> |r.value.rest| < |ts|
    decreases |ts|, 0
  {
    var (c, ts1) :- ParseTest(gsym, ts, TWhile);
    var body :- ParseBody(gsym, ts1);
    Some(Parsed(Some(While(c, body.tree)), body.rest, body.gsym))
  }

  function ParseFor(gsym: seq<string>, ts: seq<Token>): (r: Option<Parsed<Option<Stmt>>>)
    ensures r.Some? ==> |r.value.rest| < |ts|
    decreases |ts|, 0
  {
    var ts1 :- Match(ts, TFor);
    var ts2 :- Match(ts1, TLParen);
    var pre :- ParseTree(gsym, ts2);
    var ts3 :- Match(pre.rest, TSemi);
    var (c, ts4) :- ParseCondition(pre.gsym, ts3);
    var ts5 :- Match(ts4, TSemi);
    var post :- ParseTree(pre.gsym, ts5);
    var ts6 :- Match(post.rest, TRParen);
    var body :- ParseBody(post.gsym, ts6);
    Some(Parsed(Some(Glue(pre.tree, While(c, Glue(body.tree, post.tree)))), body.rest, body.gsym))
  }

  /** `single_statement`. */
  function ParseStatement(gsym: seq<string>, ts: seq<Token>): (r: Option<Parsed<Option<Stmt>>>)
    ensures r.Some? ==> |r.value.rest| < |ts|
    decreases |ts|, 1
  {
    if ts == [] then None
    else match ts[0]
      case TPrint => ParsePrint(gsym, ts)
      case TInt => ParseDeclaration(gsym, ts)
      case TIdent(_) => ParseAssignment(gsym, ts)
      case TIf => ParseIf(gsym, ts)
      case TWhile => ParseWhile(gsym, ts)
      case TFor => ParseFor(gsym, ts)
      case _ => None
  }

  /** A statement where a tree is needed. */
  function ParseTree(gsym: seq<string>, ts: seq<Token>): (r: Option<Parsed<Stmt>>)
    ensures r.Some? ==> |r.value.rest| < |ts|
    decreases |ts|, 2
  {
    var s :- ParseStatement(gsym, ts);
    var tree :- s.tree;
    Some(Parsed(tree, s.rest, s.gsym))
  }

  /** A block where a tree is needed. */
  function ParseBody(gsym: seq<string>, ts: seq<Token>): (r: Option<Parsed<Stmt>>)
    ensures r.Some? ==> |r.value.rest| < |ts|
    decreases |ts|, 3
  {
    var b :- ParseCompound(gsym, ts);
    var tree :- b.tree;
    Some(Parsed(tree, b.rest, b.gsym))
  }

  /** `compound_statement`. */
  function ParseCompound(gsym: seq<string>, ts: seq<Token>): (r: Option<Parsed<Option<Stmt>>>)
    ensures r.Some? ==> |r.value.rest| < |ts|
    decreases |ts|, 2
  {
    var ts1 :- Match(ts, TLBrace);
    ParseItems(gsym, None, ts1)
  }

  predicate NeedsSemi(tree: Option<Stmt>) {
    tree.Some? && (tree.value.Print? || tree.value.Assign?)
  }

  function GlueTo(left: Option<Stmt>, tree: Option<Stmt>): Option<Stmt> {
    if tree.None? then left
    else if left.None? then tree
    else Some(Glue(left.value, tree.value))
  }

  /** One statement of a block, with its ';' if it needs one, glued to the tree built so far. */
  function ParseItem(gsym: seq<string>, left: Option<Stmt>, ts: seq<Token>): (r: Option<Parsed<Option<Stmt>>>)
    ensures r.Some? ==> |r.value.rest| < |ts|
    decreases |ts|, 2
  {
    var s :- ParseStatement(gsym, ts);
    var rest :- if NeedsSemi(s.tree) then Match(s.rest, TSemi) else Some(s.rest);
    Some(Parsed(GlueTo(left, s.tree), rest, s.gsym))
  }

  /** The loop of `compound_statement`. */
  function ParseItems(gsym: seq<string>, left: Option<Stmt>, ts: seq<Token>): (r: Option<Parsed<Option<Stmt>>>)
    ensures r.Some? ==> |r.value.rest| < |ts|
    decreases |ts|, 3
  {
    var i :- ParseItem(gsym, left, ts);
    var close := Match(i.rest, TRBrace);
    if close.Some? then Some(i.(rest := close.value)) else ParseItems(i.gsym, i.tree, i.rest)
  }
}
