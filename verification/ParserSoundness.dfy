/** The statement parser accepts nothing but spelled programs. */
module ParserSoundness {
  import opened Wrappers
  import opened Ast
  import opened Tokens
  import opened SymbolTable
  import opened ExpressionGrammar
  import opened SourceLanguage
  import opened ExpressionSpelling
  import opened StatementParser
  import opened StatementSpelling

  /** `s` is a program text that ends where `rest` begins. */
  ghost predicate Spells(ts: seq<Token>, s: Source, rest: seq<Token>) {
    Writable(s) && MayFollow(s, rest) && ts == StatementTokens(s) + rest
  }

  ghost predicate SpellsBlock(ts: seq<Token>, p: seq<Source>, rest: seq<Token>) {
    p != [] && WritableBlock(p) && ts == BlockTokens(p) + rest
  }

  lemma {:induction false} StatementSound(gsym: seq<string>, ts: seq<Token>) returns (s: Source)
    requires ParseStatement(gsym, ts).Some?
    ensures Spells(ts, s, ParseStatement(gsym, ts).value.rest)
    decreases |ts|, 1
  {
    hide StatementTokens, Writable, MayFollow;
    match ts[0]
    case TPrint => s := PrintSound(gsym, ts);
    case TInt => s := DeclarationSound(gsym, ts);
    case TIdent(_) => s := AssignmentSound(gsym, ts);
    case TIf => s := IfSound(gsym, ts);
    case TWhile => s := WhileSound(gsym, ts);
    case TFor => s := ForSound(gsym, ts);
  }

  lemma PrintSound(gsym: seq<string>, ts: seq<Token>) returns (s: Source)
    requires ParsePrint(gsym, ts).Some?
    ensures Spells(ts, s, ParsePrint(gsym, ts).value.rest)
  {
    hide ParseExpr, ExprTokens, StatementTokens;
    var ts1 := Match(ts, TPrint).value;
    var e := ExpressionSound(gsym, ts1);
    s := SPrint(e);
    PrintTokens(e, ParsePrint(gsym, ts).value.rest);
  }

  lemma DeclarationSound(gsym: seq<string>, ts: seq<Token>) returns (s: Source)
    requires ParseDeclaration(gsym, ts).Some?
    ensures Spells(ts, s, ParseDeclaration(gsym, ts).value.rest)
  {
    s := SDeclare(ts[1].name);
  }

  lemma AssignmentSound(gsym: seq<string>, ts: seq<Token>) returns (s: Source)
    requires ParseAssignment(gsym, ts).Some?
    ensures Spells(ts, s, ParseAssignment(gsym, ts).value.rest)
  {
    hide ParseExpr, ExprTokens, FindGlob, StatementTokens;
    var ts1 := Match(ts[1..], TAssign).value;
    var e := ExpressionSound(gsym, ts1);
    s := SAssign(ts[0].name, e);
    AssignmentTokens(ts[0].name, e, ParseAssignment(gsym, ts).value.rest);
    assert ts == [ts[0]] + ts[1..];
  }

  lemma ConditionSound(gsym: seq<string>, ts: seq<Token>) returns (c: SourceExpr)
    requires ParseCondition(gsym, ts).Some?
    ensures CanonicalSource(c) && ts == ExprTokens(c) + ParseCondition(gsym, ts).value.1
  {
    hide ParseExpr;
    c := ExpressionSound(gsym, ts);
  }

  lemma TestSound(gsym: seq<string>, ts: seq<Token>, keyword: Token) returns (c: SourceExpr)
    requires ParseTest(gsym, ts, keyword).Some?
    ensures CanonicalSource(c)
    ensures ts == [keyword] + ([TLParen] + (ExprTokens(c) + ([TRParen] + ParseTest(gsym, ts, keyword).value.1)))
  {
    hide ParseCondition, ExprTokens;
    c := ConditionSound(gsym, Match(Match(ts, keyword).value, TLParen).value);
  }

  lemma {:induction false} IfSound(gsym: seq<string>, ts: seq<Token>) returns (s: Source)
    requires ParseIf(gsym, ts).Some?
    ensures Spells(ts, s, ParseIf(gsym, ts).value.rest)
    decreases |ts|, 0
  {
    hide ParseTest, ParseBody, ParseCompound, BlockTokens, ExprTokens;
    var c := TestSound(gsym, ts, TIf);
    var ts1 := ParseTest(gsym, ts, TIf).value.1;
    var thn := BodySound(gsym, ts1);
    var a := ParseBody(gsym, ts1).value;
    var els := [];
    if a.rest != [] && a.rest[0] == TElse {
      els := BlockSound(a.gsym, a.rest[1..]);
      assert a.rest == [TElse] + a.rest[1..];
    }
    s := SIf(c, thn, els);
    IfTokens(c, thn, els, ParseIf(gsym, ts).value.rest);
    assert Writable(s);
    assert MayFollow(s, ParseIf(gsym, ts).value.rest);
  }

  lemma {:induction false} WhileSound(gsym: seq<string>, ts: seq<Token>) returns (s: Source)
    requires ParseWhile(gsym, ts).Some?
    ensures Spells(ts, s, ParseWhile(gsym, ts).value.rest)
    decreases |ts|, 0
  {
    hide ParseTest, ParseBody, BlockTokens, ExprTokens;
    var c := TestSound(gsym, ts, TWhile);
    var body := BodySound(gsym, ParseTest(gsym, ts, TWhile).value.1);
    s := SWhile(c, body);
    WhileTokens(c, body, ParseWhile(gsym, ts).value.rest);
  }

  lemma {:induction false} ForSound(gsym: seq<string>, ts: seq<Token>) returns (s: Source)
    requires ParseFor(gsym, ts).Some?
    ensures Spells(ts, s, ParseFor(gsym, ts).value.rest)
    decreases |ts|, 0
  {
    hide ParseCondition, ParseBody, ParseTree, BlockTokens, ExprTokens, StatementTokens, MayFollow, Writable;
    var ts2 := ts[2..];
    var pre := TreeSound(gsym, ts2);
    var p := ParseTree(gsym, ts2).value;
    var ts3 := p.rest[1..];
    var c := ConditionSound(p.gsym, ts3);
    var ts4 := ParseCondition(p.gsym, ts3).value.1;
    var ts5 := ts4[1..];
    var post := TreeSound(p.gsym, ts5);
    var q := ParseTree(p.gsym, ts5).value;
    var body := BodySound(q.gsym, q.rest[1..]);
    var rest := ParseBody(q.gsym, q.rest[1..]).value.rest;
    s := SFor(pre, c, post, body);
    assert ts == [TFor] + ([TLParen] + ts2);
    assert p.rest == [TSemi] + ts3 && ts4 == [TSemi] + ts5 && q.rest == [TRParen] + q.rest[1..];
    ForTokens(pre, c, post, body, rest);
    WritableFor(pre, c, post, body, rest);
  }

  lemma WritableFor(pre: Source, c: SourceExpr, post: Source, body: seq<Source>, rest: seq<Token>)
    requires Writable(pre) && CanonicalSource(c) && Writable(post) && WritableBlock(body)
    ensures Writable(SFor(pre, c, post, body)) && MayFollow(SFor(pre, c, post, body), rest)
  {
  }

  lemma {:induction false} TreeSound(gsym: seq<string>, ts: seq<Token>) returns (s: Source)
    requires ParseTree(gsym, ts).Some?
    ensures Spells(ts, s, ParseTree(gsym, ts).value.rest)
    decreases |ts|, 2
  {
    s := StatementSound(gsym, ts);
  }

  lemma {:induction false} BodySound(gsym: seq<string>, ts: seq<Token>) returns (p: seq<Source>)
    requires ParseBody(gsym, ts).Some?
    ensures SpellsBlock(ts, p, ParseBody(gsym, ts).value.rest)
    decreases |ts|, 3
  {
    p := BlockSound(gsym, ts);
  }

  lemma {:induction false} BlockSound(gsym: seq<string>, ts: seq<Token>) returns (p: seq<Source>)
    requires ParseCompound(gsym, ts).Some?
    ensures SpellsBlock(ts, p, ParseCompound(gsym, ts).value.rest)
    decreases |ts|, 2
  {
    hide ParseItems, ItemsTokens;
    p := ItemsSound(gsym, None, ts[1..]);
    var rest := ParseCompound(gsym, ts).value.rest;
    assert ts == [TLBrace] + (ItemsTokens(p) + ([TRBrace] + rest));
  }

  lemma {:induction false} ItemsSound(gsym: seq<string>, left: Option<Stmt>, ts: seq<Token>) returns (p: seq<Source>)
    requires ParseItems(gsym, left, ts).Some?
    ensures p != [] && WritableBlock(p)
    ensures ts == ItemsTokens(p) + ([TRBrace] + ParseItems(gsym, left, ts).value.rest)
    decreases |ts|, 3
  {
    hide ParseItem, StatementTokens, ItemsTokens, WritableBlock, Writable, Match;
    var s := ItemSound(gsym, left, ts);
    var i := ParseItem(gsym, left, ts).value;
    if Match(i.rest, TRBrace).Some? {
      p := [s] + [];
      ItemsFirst(s, [], i.rest);
    } else {
      var q := ItemsSound(i.gsym, i.tree, i.rest);
      p := [s] + q;
      ItemsFirst(s, q, [TRBrace] + ParseItems(gsym, left, ts).value.rest);
    }
  }

  /** A statement and the ';' that ends it, if it needs one. */
  lemma {:induction false} ItemSound(gsym: seq<string>, left: Option<Stmt>, ts: seq<Token>) returns (s: Source)
    requires ParseItem(gsym, left, ts).Some?
    ensures Writable(s) && ts == StatementTokens(s) + Terminator(s) + ParseItem(gsym, left, ts).value.rest
    decreases |ts|, 2
  {
    hide ParseStatement, StatementTokens, Lower, NeedsSemi, GlueTo, Writable, MayFollow;
    s := StatementSound(gsym, ts);
    var r := ParseStatement(gsym, ts).value;
    StatementRoundTrip(gsym, s, r.rest);
    LowerNeedsSemi(gsym, s);
    var rest := ParseItem(gsym, left, ts).value.rest;
    assert r.rest == Terminator(s) + rest;
    Shift(StatementTokens(s), Terminator(s), rest);
  }

  lemma ItemsFirst(s: Source, p: seq<Source>, rest: seq<Token>)
    ensures ItemsTokens([s] + p) + rest == StatementTokens(s) + Terminator(s) + (ItemsTokens(p) + rest)
    ensures WritableBlock([s] + p) <==> Writable(s) && WritableBlock(p)
    ensures ItemsTokens([]) + rest == rest && WritableBlock([])
  {
    hide StatementTokens, Writable;
    assert ([s] + p)[1..] == p;
  }

  /** What the parser makes of a token sequence: exactly the program of which it begins with
      the spelling, desugared. */
  lemma ProgramIff(ts: seq<Token>, d: Option<Stmt>, rest: seq<Token>, gsym: seq<string>)
    ensures ParseCompound([], ts) == Some(Parsed(d, rest, gsym))
            <==> exists p :: SpellsBlock(ts, p, rest) && LowerBlock([], p) == Some(Lowered(d, gsym))
  {
    if ParseCompound([], ts) == Some(Parsed(d, rest, gsym)) {
      var p := BlockSound([], ts);
      BlockRoundTrip([], p, rest);
      assert SpellsBlock(ts, p, rest) && LowerBlock([], p) == Some(Lowered(d, gsym));
    }
    forall p | SpellsBlock(ts, p, rest) && LowerBlock([], p) == Some(Lowered(d, gsym))
      ensures ParseCompound([], ts) == Some(Parsed(d, rest, gsym))
    {
      BlockRoundTrip([], p, rest);
    }
  }
}
