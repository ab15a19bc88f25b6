/** Parsing the spelling of a program yields its desugared tree, and everything that the
    parser accepts is the spelling of a program. */
module StatementSpelling {
  import opened Wrappers
  import opened Ast
  import opened Tokens
  import opened SymbolTable
  import opened ExpressionGrammar
  import opened SourceLanguage
  import opened ExpressionSpelling
  import opened StatementParser

  // ---------- Desugaring ----------

  datatype Lowered<T> = Lowered(tree: T, gsym: seq<string>)

  function LowerCondition(gsym: seq<string>, c: SourceExpr): Option<Condition> {
    var e :- Resolve(gsym, c);
    if IsCondition(e) then Some(e) else None
  }

  /** The tree of a statement: none for a declaration; None if a name is not declared,
      the symbol table is full, a condition is no comparison, or a part other than an else block
      has no tree. */
  function Lower(gsym: seq<string>, s: Source): Option<Lowered<Option<Stmt>>>
    decreases s, 0
  {
    match s
    case SPrint(e) =>
      var t :- Resolve(gsym, e);
      Some(Lowered(Some(Print(t)), gsym))
    case SAssign(x, e) =>
      var id :- FindGlob(gsym, x);
      var t :- Resolve(gsym, e);
      Some(Lowered(Some(Assign(id, t)), gsym))
    case SDeclare(x) =>
      var gsym1 :- AddGlob(gsym, x);
      Some(Lowered(None, gsym1))
    case SIf(c, thn, els) =>
      var cond :- LowerCondition(gsym, c);
      var a :- LowerBody(gsym, thn);
      if els == [] then Some(Lowered(Some(If(cond, a.tree, None)), a.gsym))
      else
        var b :- LowerBlock(a.gsym, els);
        Some(Lowered(Some(If(cond, a.tree, b.tree)), b.gsym))
    case SWhile(c, body) =>
      var cond :- LowerCondition(gsym, c);
      var a :- LowerBody(gsym, body);
      Some(Lowered(Some(While(cond, a.tree)), a.gsym))
    case SFor(pre, c, post, body) =>
      var p :- LowerTree(gsym, pre);
      var cond :- LowerCondition(p.gsym, c);
      var q :- LowerTree(p.gsym, post);
      var b :- LowerBody(q.gsym, body);
      Some(Lowered(Some(Glue(p.tree, While(cond, Glue(b.tree, q.tree)))), b.gsym))
  }

  function LowerTree(gsym: seq<string>, s: Source): Option<Lowered<Stmt>>
    decreases s, 1
  {
    var r :- Lower(gsym, s);
    var tree :- r.tree;
    Some(Lowered(tree, r.gsym))
  }

  function LowerBody(gsym: seq<string>, p: seq<Source>): Option<Lowered<Stmt>>
    decreases p, 2
  {
    var r :- LowerBlock(gsym, p);
    var tree :- r.tree;
    Some(Lowered(tree, r.gsym))
  }

  /** A block: its trees glued to the left. An empty block is a syntax error. */
  function LowerBlock(gsym: seq<string>, p: seq<Source>): Option<Lowered<Option<Stmt>>>
    decreases p, 1
  {
    if p == [] then None else LowerItems(gsym, None, p)
  }

  function LowerItem(gsym: seq<string>, left: Option<Stmt>, s: Source): Option<Lowered<Option<Stmt>>>
    decreases s, 1
  {
    var r :- Lower(gsym, s);
    Some(Lowered(GlueTo(left, r.tree), r.gsym))
  }

  function LowerItems(gsym: seq<string>, left: Option<Stmt>, p: seq<Source>): Option<Lowered<Option<Stmt>>>
    requires p != []
    decreases p, 0
  {
    var r :- LowerItem(gsym, left, p[0]);
    if |p| == 1 then Some(r) else LowerItems(r.gsym, r.tree, p[1..])
  }

  // ---------- Programs that can be written ----------

  /** Without parentheses, only canonical expressions can be written. */
  ghost predicate Writable(s: Source)
    decreases s, 0
  {
    match s
    case SPrint(e) => CanonicalSource(e)
    case SAssign(_, e) => CanonicalSource(e)
    case SDeclare(_) => true
    case SIf(c, thn, els) => CanonicalSource(c) && WritableBlock(thn) && WritableBlock(els)
    case SWhile(c, body) => CanonicalSource(c) && WritableBlock(body)
    case SFor(pre, c, post, body) => Writable(pre) && CanonicalSource(c) && Writable(post) && WritableBlock(body)
  }

  ghost predicate WritableBlock(p: seq<Source>)
    decreases p, 0
  {
    p == [] || (Writable(p[0]) && WritableBlock(p[1..]))
  }

  /** What may follow a statement: the end of its expression, and no `else` that it lacks. */
  ghost predicate MayFollow(s: Source, rest: seq<Token>) {
    match s
    case SPrint(_) => EndsExpression(rest)
    case SAssign(_, _) => EndsExpression(rest)
    case SIf(_, _, els) => els == [] ==> rest == [] || rest[0] != TElse
    case _ => true
  }

  function After<T>(d: Option<Lowered<T>>, rest: seq<Token>): Option<Parsed<T>> {
    var x :- d;
    Some(Parsed(x.tree, rest, x.gsym))
  }

  // ---------- Round trip ----------

  lemma MatchFirst(t: Token, ts: seq<Token>)
    ensures Match([t] + ts, t) == Some(ts)
  {
    assert ([t] + ts)[1..] == ts;
  }

  lemma ConditionRoundTrip(gsym: seq<string>, c: SourceExpr, rest: seq<Token>)
    requires CanonicalSource(c) && EndsExpression(rest)
    ensures ParseCondition(gsym, ExprTokens(c) + rest) == WithRest(LowerCondition(gsym, c), rest)
  {
    ExpressionRoundTrip(gsym, c, rest);
  }

  lemma TestRoundTrip(gsym: seq<string>, keyword: Token, c: SourceExpr, rest: seq<Token>)
    requires CanonicalSource(c)
    ensures ParseTest(gsym, [keyword] + ([TLParen] + (ExprTokens(c) + ([TRParen] + rest))), keyword)
            == WithRest(LowerCondition(gsym, c), rest)
  {
    hide ExprTokens, ParseCondition, LowerCondition, Match;
    MatchFirst(keyword, [TLParen] + (ExprTokens(c) + ([TRParen] + rest)));
    MatchFirst(TLParen, ExprTokens(c) + ([TRParen] + rest));
    ConditionRoundTrip(gsym, c, [TRParen] + rest);
    MatchFirst(TRParen, rest);
  }

  /** Reading the spelling of a statement gives its tree, and fails exactly if there is none. */
  lemma {:induction false} StatementRoundTrip(gsym: seq<string>, s: Source, rest: seq<Token>)
    requires Writable(s) && MayFollow(s, rest)
    ensures ParseStatement(gsym, StatementTokens(s) + rest) == After(Lower(gsym, s), rest)
    decreases s, 1
  {
    hide ParsePrint, ParseAssignment, ParseDeclaration, ParseIf, ParseWhile, ParseFor, Lower, ItemsTokens, BlockTokens;
    match s
    case SPrint(e) =>
      PrintRoundTrip(gsym, e, rest);
    case SAssign(x, e) =>
      AssignmentRoundTrip(gsym, x, e, rest);
    case SDeclare(x) =>
      DeclarationRoundTrip(gsym, x, rest);
    case SIf(c, thn, els) =>
      IfRoundTrip(gsym, c, thn, els, rest);
    case SWhile(c, body) =>
      WhileRoundTrip(gsym, c, body, rest);
    case SFor(pre, c, post, body) =>
      ForRoundTrip(gsym, pre, c, post, body, rest);
  }

  lemma PrintTokens(e: SourceExpr, rest: seq<Token>)
    ensures StatementTokens(SPrint(e)) + rest == [TPrint] + (ExprTokens(e) + rest)
  {
    hide ExprTokens;
  }

  lemma PrintRoundTrip(gsym: seq<string>, e: SourceExpr, rest: seq<Token>)
    requires CanonicalSource(e) && EndsExpression(rest)
    ensures ParsePrint(gsym, StatementTokens(SPrint(e)) + rest) == After(Lower(gsym, SPrint(e)), rest)
  {
    hide ExprTokens, ParseExpr, Resolve;
    PrintTokens(e, rest);
    MatchFirst(TPrint, ExprTokens(e) + rest);
    ExpressionRoundTrip(gsym, e, rest);
  }

  lemma AssignmentTokens(x: string, e: SourceExpr, rest: seq<Token>)
    ensures StatementTokens(SAssign(x, e)) + rest == [TIdent(x)] + ([TAssign] + (ExprTokens(e) + rest))
  {
    hide ExprTokens;
  }

  lemma AssignmentRoundTrip(gsym: seq<string>, x: string, e: SourceExpr, rest: seq<Token>)
    requires CanonicalSource(e) && EndsExpression(rest)
    ensures ParseAssignment(gsym, StatementTokens(SAssign(x, e)) + rest) == After(Lower(gsym, SAssign(x, e)), rest)
  {
    hide ExprTokens, ParseExpr, Resolve, FindGlob;
    var ts := StatementTokens(SAssign(x, e)) + rest;
    AssignmentTokens(x, e, rest);
    assert ts[1..] == [TAssign] + (ExprTokens(e) + rest);
    MatchFirst(TAssign, ExprTokens(e) + rest);
    ExpressionRoundTrip(gsym, e, rest);
  }

  lemma DeclarationRoundTrip(gsym: seq<string>, x: string, rest: seq<Token>)
    ensures ParseDeclaration(gsym, StatementTokens(SDeclare(x)) + rest) == After(Lower(gsym, SDeclare(x)), rest)
  {
    var ts := [TIdent(x)] + ([TSemi] + rest);
    assert StatementTokens(SDeclare(x)) + rest == [TInt] + ts;
    MatchFirst(TInt, ts);
    MatchFirst(TSemi, rest);
    assert ts[1..] == [TSemi] + rest;
  }

  lemma IfTokens(c: SourceExpr, thn: seq<Source>, els: seq<Source>, rest: seq<Token>)
    ensures StatementTokens(SIf(c, thn, els)) + rest
            == [TIf] + ([TLParen] + (ExprTokens(c) + ([TRParen] + (BlockTokens(thn)
               + if els == [] then rest else [TElse] + (BlockTokens(els) + rest)))))
  {
    hide BlockTokens, ExprTokens;
  }

  lemma {:induction false} IfRoundTrip(gsym: seq<string>, c: SourceExpr, thn: seq<Source>, els: seq<Source>,
                                       rest: seq<Token>)
    requires Writable(SIf(c, thn, els)) && MayFollow(SIf(c, thn, els), rest)
    ensures ParseIf(gsym, StatementTokens(SIf(c, thn, els)) + rest) == After(Lower(gsym, SIf(c, thn, els)), rest)
    decreases SIf(c, thn, els), 0
  {
    hide BlockTokens, ExprTokens, ParseTest, ParseBody, ParseCompound, LowerCondition, LowerBody, LowerBlock;
    var tail := if els == [] then rest else [TElse] + (BlockTokens(els) + rest);
    IfTokens(c, thn, els, rest);
    TestRoundTrip(gsym, TIf, c, BlockTokens(thn) + tail);
    BodyRoundTrip(gsym, thn, tail);
    if els != [] && LowerBody(gsym, thn).Some? {
      assert tail[1..] == BlockTokens(els) + rest;
      BlockRoundTrip(LowerBody(gsym, thn).value.gsym, els, rest);
    }
  }

  lemma WhileTokens(c: SourceExpr, body: seq<Source>, rest: seq<Token>)
    ensures StatementTokens(SWhile(c, body)) + rest
            == [TWhile] + ([TLParen] + (ExprTokens(c) + ([TRParen] + (BlockTokens(body) + rest))))
  {
    hide BlockTokens, ExprTokens;
  }

  lemma {:induction false} WhileRoundTrip(gsym: seq<string>, c: SourceExpr, body: seq<Source>, rest: seq<Token>)
    requires Writable(SWhile(c, body))
    ensures ParseWhile(gsym, StatementTokens(SWhile(c, body)) + rest) == After(Lower(gsym, SWhile(c, body)), rest)
    decreases SWhile(c, body), 0
  {
    hide BlockTokens, ExprTokens, ParseTest, ParseBody, LowerCondition, LowerBody;
    WhileTokens(c, body, rest);
    TestRoundTrip(gsym, TWhile, c, BlockTokens(body) + rest);
    BodyRoundTrip(gsym, body, rest);
  }

  lemma {:induction false} ForRoundTrip(gsym: seq<string>, pre: Source, c: SourceExpr, post: Source,
                                        body: seq<Source>, rest: seq<Token>)
    requires Writable(SFor(pre, c, post, body))
    ensures ParseFor(gsym, StatementTokens(SFor(pre, c, post, body)) + rest)
            == After(Lower(gsym, SFor(pre, c, post, body)), rest)
    decreases SFor(pre, c, post, body), 0
  {
    hide BlockTokens, ExprTokens, ParseCondition, ParseBody, LowerCondition, LowerBody, Match,
         ParseTree, LowerTree;
    ForTokens(pre, c, post, body, rest);
    var block := BlockTokens(body) + rest;
    var ts3 := StatementTokens(post) + ([TRParen] + block);
    var ts2 := ExprTokens(c) + ([TSemi] + ts3);
    var ts1 := StatementTokens(pre) + ([TSemi] + ts2);
    MatchFirst(TFor, [TLParen] + ts1);
    MatchFirst(TLParen, ts1);
    TreeRoundTrip(gsym, pre, [TSemi] + ts2);
    if LowerTree(gsym, pre).Some? {
      var g := LowerTree(gsym, pre).value.gsym;
      MatchFirst(TSemi, ts2);
      ConditionRoundTrip(g, c, [TSemi] + ts3);
      MatchFirst(TSemi, ts3);
      TreeRoundTrip(g, post, [TRParen] + block);
      if LowerTree(g, post).Some? {
        MatchFirst(TRParen, block);
        BodyRoundTrip(LowerTree(g, post).value.gsym, body, rest);
      }
    }
  }

  lemma ForTokens(pre: Source, c: SourceExpr, post: Source, body: seq<Source>, rest: seq<Token>)
    ensures StatementTokens(SFor(pre, c, post, body)) + rest
            == [TFor] + ([TLParen] + (StatementTokens(pre) + ([TSemi] + (ExprTokens(c) + ([TSemi]
               + (StatementTokens(post) + ([TRParen] + (BlockTokens(body) + rest))))))))
  {
    hide BlockTokens, ExprTokens;
    ForShape(StatementTokens(pre), ExprTokens(c), StatementTokens(post), BlockTokens(body), rest);
  }

  lemma Shift<T>(a: seq<T>, b: seq<T>, c: seq<T>)
    ensures a + b + c == a + (b + c)
  {
  }

  lemma ForShape(pre: seq<Token>, c: seq<Token>, post: seq<Token>, body: seq<Token>, rest: seq<Token>)
    ensures [TFor, TLParen] + pre + [TSemi] + c + [TSemi] + (post + [TRParen] + body) + rest
            == [TFor] + ([TLParen] + (pre + ([TSemi] + (c + ([TSemi] + (post + ([TRParen] + (body + rest))))))))
  {
    var open := [TFor] + [TLParen];
    var last := post + ([TRParen] + (body + rest));
    Shift(open + pre + [TSemi] + c + [TSemi], post + [TRParen] + body, rest);
    Shift(post + [TRParen], body, rest);
    Shift(post, [TRParen], body + rest);
    Shift(open + pre + [TSemi] + c, [TSemi], last);
    Shift(open + pre + [TSemi], c, [TSemi] + last);
    Shift(open + pre, [TSemi], c + ([TSemi] + last));
    Shift(open, pre, [TSemi] + (c + ([TSemi] + last)));
    Shift([TFor], [TLParen], pre + ([TSemi] + (c + ([TSemi] + last))));
    assert open == [TFor, TLParen];
  }

  lemma {:induction false} TreeRoundTrip(gsym: seq<string>, s: Source, rest: seq<Token>)
    requires Writable(s) && MayFollow(s, rest)
    ensures ParseTree(gsym, StatementTokens(s) + rest) == After(LowerTree(gsym, s), rest)
    decreases s, 2
  {
    StatementRoundTrip(gsym, s, rest);
  }

  lemma {:induction false} BodyRoundTrip(gsym: seq<string>, p: seq<Source>, rest: seq<Token>)
    requires WritableBlock(p)
    ensures ParseBody(gsym, BlockTokens(p) + rest) == After(LowerBody(gsym, p), rest)
    decreases p, 2
  {
    BlockRoundTrip(gsym, p, rest);
  }

  lemma {:induction false} BlockRoundTrip(gsym: seq<string>, p: seq<Source>, rest: seq<Token>)
    requires WritableBlock(p)
    ensures ParseCompound(gsym, BlockTokens(p) + rest) == After(LowerBlock(gsym, p), rest)
    decreases p, 1
  {
    var items := ItemsTokens(p) + ([TRBrace] + rest);
    assert BlockTokens(p) + rest == [TLBrace] + items;
    MatchFirst(TLBrace, items);
    if p == [] {
      assert items[0] == TRBrace;
      assert ParseStatement(gsym, items) == None;
      assert ParseItem(gsym, None, items) == None;
    } else {
      ItemsRoundTrip(gsym, None, p, rest);
    }
  }

  lemma LowerNeedsSemi(gsym: seq<string>, s: Source)
    requires Lower(gsym, s).Some?
    ensures NeedsSemi(Lower(gsym, s).value.tree) <==> s.SPrint? || s.SAssign?
  {
  }

  lemma {:induction false} ItemRoundTrip(gsym: seq<string>, left: Option<Stmt>, s: Source, next: seq<Token>)
    requires Writable(s) && MayFollow(s, Terminator(s) + next)
    ensures ParseItem(gsym, left, StatementTokens(s) + (Terminator(s) + next)) == After(LowerItem(gsym, left, s), next)
    decreases s, 2
  {
    hide StatementTokens, ParseStatement, Lower, GlueTo, NeedsSemi, Writable, MayFollow, Match;
    StatementRoundTrip(gsym, s, Terminator(s) + next);
    if Lower(gsym, s).Some? {
      LowerNeedsSemi(gsym, s);
      MatchFirst(TSemi, next);
      assert Terminator(s) == [] ==> Terminator(s) + next == next;
    }
  }

  lemma {:induction false} ItemsRoundTrip(gsym: seq<string>, left: Option<Stmt>, p: seq<Source>, rest: seq<Token>)
    requires p != [] && WritableBlock(p)
    ensures ParseItems(gsym, left, ItemsTokens(p) + ([TRBrace] + rest)) == After(LowerItems(gsym, left, p), rest)
    decreases p, 0
  {
    hide StatementTokens, ParseItem, LowerItem, Writable, Match;
    var next := ItemsTokens(p[1..]) + ([TRBrace] + rest);
    Shift(StatementTokens(p[0]) + Terminator(p[0]), ItemsTokens(p[1..]), [TRBrace] + rest);
    Shift(StatementTokens(p[0]), Terminator(p[0]), next);
    NextIsNoElse(p[1..], rest);
    ItemRoundTrip(gsym, left, p[0], next);
    var r := LowerItem(gsym, left, p[0]);
    if r.Some? {
      MatchClose(next);
      if |p| == 1 {
        assert p[1..] == [] && ItemsTokens(p[1..]) == [];
        assert next == [TRBrace] + rest;
        MatchFirst(TRBrace, rest);
      } else {
        ItemsRoundTrip(r.value.gsym, r.value.tree, p[1..], rest);
      }
    }
  }

  lemma MatchClose(ts: seq<Token>)
    ensures Match(ts, TRBrace).Some? <==> ts != [] && ts[0] == TRBrace
  {
  }

  /** After a statement in a block comes another statement or the closing brace. */
  lemma NextIsNoElse(p: seq<Source>, rest: seq<Token>)
    ensures var ts := ItemsTokens(p) + ([TRBrace] + rest);
            ts != [] && ts[0] != TElse && (ts[0] == TRBrace <==> p == [])
  {
  }
}
