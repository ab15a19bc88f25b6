/** The programs of stage 10 as their author writes and reads them: named variables,
    lists of statements, `for` loops; how they are spelled, and what they do. */
module SourceLanguage {
  import opened Wrappers
  import opened Words
  import opened PrecedenceParser
  import opened Ast
  import opened Semantics
  import opened Tokens

  datatype Term = Number(value: Int32) | Named(name: string)

  type SourceExpr = Tree<Term, BinOp>

  /** A block holds at least one statement, so an empty `els` is an if without else. */
  datatype Source =
    | SPrint(e: SourceExpr)
    | SAssign(name: string, e: SourceExpr)
    | SDeclare(name: string)
    | SIf(cond: SourceExpr, thn: seq<Source>, els: seq<Source>)
    | SWhile(cond: SourceExpr, body: seq<Source>)
    | SFor(pre: Source, cond: SourceExpr, post: Source, body: seq<Source>)

  // ---------- Spelling ----------

  function TermToken(a: Term): Token {
    match a case Number(v) => TLit(v) case Named(x) => TIdent(x)
  }

  function ExprTokens(e: SourceExpr): (ts: seq<Token>)
    ensures |ts| > 0
  {
    match e
    case Leaf(a) => [TermToken(a)]
    case Node(op, l, r) => ExprTokens(l) + [TOp(op)] + ExprTokens(r)
  }

  /** A statement without the ';' that ends it in a block. */
  function StatementTokens(s: Source): (ts: seq<Token>)
    ensures |ts| > 0 && ts[0] != TElse && ts[0] != TRBrace
    decreases s, 0
  {
    match s
    case SPrint(e) => [TPrint] + ExprTokens(e)
    case SAssign(x, e) => [TIdent(x), TAssign] + ExprTokens(e)
    case SDeclare(x) => [TInt, TIdent(x), TSemi]
    case SIf(c, thn, els) =>
      [TIf, TLParen] + ExprTokens(c) + [TRParen] + BlockTokens(thn)
      + if els == [] then [] else [TElse] + BlockTokens(els)
    case SWhile(c, body) => [TWhile, TLParen] + ExprTokens(c) + [TRParen] + BlockTokens(body)
    case SFor(pre, c, post, body) =>
      [TFor, TLParen] + StatementTokens(pre) + [TSemi] + ExprTokens(c) + [TSemi]
      + (StatementTokens(post) + [TRParen] + BlockTokens(body))
  }

  function BlockTokens(p: seq<Source>): seq<Token>
    decreases p, 1
  {
    [TLBrace] + ItemsTokens(p) + [TRBrace]
  }

  function ItemsTokens(p: seq<Source>): seq<Token>
    decreases p, 0
  {
    if p == [] then []
    else StatementTokens(p[0]) + Terminator(p[0]) + ItemsTokens(p[1..])
  }

  function Terminator(s: Source): seq<Token> {
    if s.SPrint? || s.SAssign? then [TSemi] else []
  }

  // ---------- Meaning ----------

  function EvalSource(e: SourceExpr, store: Store): Option<Int64> {
    match e
    case Leaf(Number(v)) => Some(v)
    case Leaf(Named(x)) => Some(Get(store, x))
    case Node(op, l, r) =>
      var a :- EvalSource(l, store);
      var b :- EvalSource(r, store);
      Arith(op, a, b)
  }

  function ExecSource(s: Source, w: World, k: nat): Result
    decreases k, s, 1
  {
    match s
    case SPrint(e) =>
      (match EvalSource(e, w.store)
       case None => Trap(w)
       case Some(v) => Done(w.(out := w.out + [Wrap32(v)])))
    case SAssign(x, e) =>
      (match EvalSource(e, w.store)
       case None => Trap(w)
       case Some(v) => Done(w.(store := w.store[x := v])))
    case SDeclare(_) => Done(w)
    case SIf(c, thn, els) =>
      (match EvalSource(c, w.store)
       case None => Trap(w)
       case Some(v) =>
         if v != 0 then ExecBlock(thn, w, k) else ExecBlock(els, w, k))
    case SWhile(c, body) =>
      if k == 0 then Timeout(w)
      else
        (match EvalSource(c, w.store)
         case None => Trap(w)
         case Some(v) =>
           if v == 0 then Done(w)
           else match ExecBlock(body, w, k)
             case Done(w1) => ExecSource(s, w1, k - 1)
             case r => r)
    case SFor(pre, c, post, body) =>
      (match ExecSource(pre, w, k)
       case Done(w1) => ExecFor(s, w1, k)
       case r => r)
  }

  /** A `for` loop after its pre-operation: condition, body, post-operation, again. */
  function ExecFor(s: Source, w: World, k: nat): Result
    requires s.SFor?
    decreases k, s, 0
  {
    if k == 0 then Timeout(w)
    else
      match EvalSource(s.cond, w.store)
      case None => Trap(w)
      case Some(v) =>
        if v == 0 then Done(w)
        else match ExecBlock(s.body, w, k)
          case Done(w1) =>
            (match ExecSource(s.post, w1, k)
             case Done(w2) => ExecFor(s, w2, k - 1)
             case r => r)
          case r => r
  }

  /** The statements of a block, one after the other. */
  function ExecBlock(p: seq<Source>, w: World, k: nat): Result
    decreases k, p
  {
    if p == [] then Done(w)
    else match ExecSource(p[0], w, k)
      case Done(w1) => ExecBlock(p[1..], w1, k)
      case r => r
  }
}
