/** Gluing statements to the left and turning `for` into `while` preserves the meaning. */
module Desugaring {
  import opened Wrappers
  import opened Ast
  import opened Semantics
  import opened Pools
  import opened SourceLanguage
  import opened ExpressionSpelling
  import opened StatementParser
  import opened StatementSpelling

  /** The run of a tree, or of nothing. */
  function ExecTree(gsym: seq<string>, d: Option<Stmt>, w: World, k: nat): Result {
    match d
    case None => Done(w)
    case Some(t) => Exec(gsym, t, w, k)
  }

  lemma GlueMeaning(gsym: seq<string>, left: Option<Stmt>, d: Option<Stmt>, w: World, k: nat)
    ensures ExecTree(gsym, GlueTo(left, d), w, k)
            == match ExecTree(gsym, left, w, k) case Done(w1) => ExecTree(gsym, d, w1, k) case r => r
  {
  }

  /** A block has no tree exactly if it holds nothing but declarations. */
  lemma {:induction false} NoTree(gsym: seq<string>, left: Option<Stmt>, p: seq<Source>)
    requires p != [] && LowerItems(gsym, left, p).Some?
    ensures LowerItems(gsym, left, p).value.tree.None? <==> left.None? && forall s :: s in p ==> s.SDeclare?
    decreases |p|
  {
    assert p == [p[0]] + p[1..];
    assert Lower(gsym, p[0]).value.tree.None? <==> p[0].SDeclare?;
    if |p| > 1 {
      var r := LowerItem(gsym, left, p[0]).value;
      NoTree(r.gsym, r.tree, p[1..]);
    }
  }

  /** An else block of declarations only counts as none. */
  lemma NoElse(gsym: seq<string>, c: SourceExpr, thn: seq<Source>, els: seq<Source>)
    requires Lower(gsym, SIf(c, thn, els)).Some?
    ensures Lower(gsym, SIf(c, thn, els)).value.tree.value.els.None? <==> forall s :: s in els ==> s.SDeclare?
  {
    if els != [] {
      NoTree(LowerBody(gsym, thn).value.gsym, None, els);
    }
  }

  // ---------- The symbol table only grows ----------

  lemma {:induction false} LowerGrows(gsym: seq<string>, s: Source)
    requires Lower(gsym, s).Some?
    ensures gsym <= Lower(gsym, s).value.gsym
    decreases s, 0
  {
    match s
    case SPrint(_) =>
    case SAssign(_, _) =>
    case SDeclare(_) =>
    case SIf(_, thn, els) =>
      BodyGrows(gsym, thn);
      if els != [] {
        ItemsGrow(LowerBody(gsym, thn).value.gsym, None, els);
      }
    case SWhile(_, body) =>
      BodyGrows(gsym, body);
    case SFor(pre, _, post, body) =>
      LowerGrows(gsym, pre);
      var g := LowerTree(gsym, pre).value.gsym;
      LowerGrows(g, post);
      BodyGrows(LowerTree(g, post).value.gsym, body);
  }

  lemma {:induction false} ItemsGrow(gsym: seq<string>, left: Option<Stmt>, p: seq<Source>)
    requires p != [] && LowerItems(gsym, left, p).Some?
    ensures gsym <= LowerItems(gsym, left, p).value.gsym
    decreases p, 0
  {
    LowerGrows(gsym, p[0]);
    if |p| > 1 {
      var r := Lower(gsym, p[0]).value;
      ItemsGrow(r.gsym, GlueTo(left, r.tree), p[1..]);
    }
  }

  lemma {:induction false} BodyGrows(gsym: seq<string>, p: seq<Source>)
    requires LowerBody(gsym, p).Some?
    ensures gsym <= LowerBody(gsym, p).value.gsym
    decreases p, 1
  {
    ItemsGrow(gsym, None, p);
  }

  // ---------- Meaning ----------

  /** The tree of a statement does what the statement does, under the final symbol table. */
  lemma {:induction false} LowerMeaning(gsym: seq<string>, s: Source, later: seq<string>, w: World, k: nat)
    requires Lower(gsym, s).Some? && Lower(gsym, s).value.gsym <= later
    ensures ExecSource(s, w, k) == ExecTree(later, Lower(gsym, s).value.tree, w, k)
    decreases k, s, 2
  {
    LowerGrows(gsym, s);
    match s
    case SPrint(e) =>
      ResolveMeaning(gsym, e, later, w.store);
    case SAssign(x, e) =>
      FoundLater(gsym, later, x);
      ResolveMeaning(gsym, e, later, w.store);
    case SDeclare(_) =>
    case SIf(c, thn, els) =>
      IfMeaning(gsym, s, later, w, k);
    case SWhile(c, body) =>
      WhileMeaning(gsym, s, later, w, k);
    case SFor(pre, c, post, body) =>
      ForMeaning(gsym, s, later, w, k);
  }

  lemma {:induction false} IfMeaning(gsym: seq<string>, s: Source, later: seq<string>, w: World, k: nat)
    requires s.SIf? && Lower(gsym, s).Some? && Lower(gsym, s).value.gsym <= later
    ensures ExecSource(s, w, k) == ExecTree(later, Lower(gsym, s).value.tree, w, k)
    decreases k, s, 0
  {
    var a := LowerBody(gsym, s.thn).value;
    BodyGrows(gsym, s.thn);
    if s.els != [] {
      ItemsGrow(a.gsym, None, s.els);
    }
    ResolveMeaning(gsym, s.cond, later, w.store);
    var v := EvalSource(s.cond, w.store);
    if v.Some? && v.value != 0 {
      BodyMeaning(gsym, s.thn, later, w, k);
    } else if v.Some? && s.els != [] {
      ItemsMeaning(a.gsym, None, s.els, later, w, k);
    }
  }

  lemma {:induction false} WhileMeaning(gsym: seq<string>, s: Source, later: seq<string>, w: World, k: nat)
    requires s.SWhile? && Lower(gsym, s).Some? && Lower(gsym, s).value.gsym <= later
    ensures ExecSource(s, w, k) == ExecTree(later, Lower(gsym, s).value.tree, w, k)
    decreases k, s, 0
  {
    BodyGrows(gsym, s.body);
    ResolveMeaning(gsym, s.cond, later, w.store);
    var v := EvalSource(s.cond, w.store);
    if k > 0 && v.Some? && v.value != 0 {
      BodyMeaning(gsym, s.body, later, w, k);
      match ExecBlock(s.body, w, k)
      case Done(w1) => WhileMeaning(gsym, s, later, w1, k - 1);
      case _ =>
    }
  }

  lemma {:induction false} ForMeaning(gsym: seq<string>, s: Source, later: seq<string>, w: World, k: nat)
    requires s.SFor? && Lower(gsym, s).Some? && Lower(gsym, s).value.gsym <= later
    ensures ExecSource(s, w, k) == ExecTree(later, Lower(gsym, s).value.tree, w, k)
    decreases k, s, 1
  {
    LowerGrows(gsym, s.pre);
    var p := LowerTree(gsym, s.pre).value;
    LowerGrows(p.gsym, s.post);
    var q := LowerTree(p.gsym, s.post).value;
    BodyGrows(q.gsym, s.body);
    LowerMeaning(gsym, s.pre, later, w, k);
    match ExecSource(s.pre, w, k)
    case Done(w1) =>
      ForLoopMeaning(p.gsym, s, later, w1, k);
    case _ =>
  }

  /** The loop of a `for`: `while` over the body glued to the post-operation. */
  lemma {:induction false} ForLoopMeaning(gsym: seq<string>, s: Source, later: seq<string>, w: World, k: nat)
    requires s.SFor? && LowerCondition(gsym, s.cond).Some? && LowerTree(gsym, s.post).Some?
    requires var q := LowerTree(gsym, s.post).value;
             LowerBody(q.gsym, s.body).Some? && gsym <= q.gsym && LowerBody(q.gsym, s.body).value.gsym <= later
    ensures var q := LowerTree(gsym, s.post).value;
            var loop := While(LowerCondition(gsym, s.cond).value, Glue(LowerBody(q.gsym, s.body).value.tree, q.tree));
            ExecFor(s, w, k) == Exec(later, loop, w, k)
    decreases k, s, 0
  {
    var q := LowerTree(gsym, s.post).value;
    BodyGrows(q.gsym, s.body);
    ResolveMeaning(gsym, s.cond, later, w.store);
    var v := EvalSource(s.cond, w.store);
    if k > 0 && v.Some? && v.value != 0 {
      BodyMeaning(q.gsym, s.body, later, w, k);
      match ExecBlock(s.body, w, k)
      case Done(w1) =>
        LowerMeaning(gsym, s.post, later, w1, k);
        var r := ExecSource(s.post, w1, k);
        if r.Done? {
          ForLoopMeaning(gsym, s, later, r.w, k - 1);
        }
      case _ =>
    }
  }

  lemma {:induction false} BodyMeaning(gsym: seq<string>, p: seq<Source>, later: seq<string>, w: World, k: nat)
    requires LowerBody(gsym, p).Some? && LowerBody(gsym, p).value.gsym <= later
    ensures ExecBlock(p, w, k) == Exec(later, LowerBody(gsym, p).value.tree, w, k)
    decreases k, p, 1
  {
    ItemsMeaning(gsym, None, p, later, w, k);
  }

  lemma {:induction false} ItemsMeaning(gsym: seq<string>, left: Option<Stmt>, p: seq<Source>, later: seq<string>,
                                        w: World, k: nat)
    requires p != [] && LowerItems(gsym, left, p).Some? && LowerItems(gsym, left, p).value.gsym <= later
    ensures ExecTree(later, LowerItems(gsym, left, p).value.tree, w, k)
            == match ExecTree(later, left, w, k) case Done(w1) => ExecBlock(p, w1, k) case r => r
    decreases k, p, 0
  {
    var r := Lower(gsym, p[0]).value;
    GlueMeaning(later, left, r.tree, w, k);
    if |p| > 1 {
      ItemsGrow(r.gsym, GlueTo(left, r.tree), p[1..]);
      ItemsMeaning(r.gsym, GlueTo(left, r.tree), p[1..], later, w, k);
    }
    match ExecTree(later, left, w, k)
    case Done(w1) =>
      LowerMeaning(gsym, p[0], later, w1, k);
    case _ =>
  }
}
