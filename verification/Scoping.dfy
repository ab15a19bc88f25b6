/** Which programs are in order, said of the programs alone: the parser gives these a tree,
    and no others. */
module Scoping {
  import opened Wrappers
  import opened PrecedenceParser
  import opened Ast
  import opened Pools
  import opened Registers
  import opened Tokens
  import opened ExpressionGrammar
  import opened SourceLanguage
  import opened ExpressionSpelling
  import opened StatementParser
  import opened StatementSpelling
  import opened ParserSoundness
  import opened Desugaring

  // ---------- Order ----------

  function Uses(e: SourceExpr): set<string> {
    match e
    case Leaf(Number(_)) => {}
    case Leaf(Named(x)) => {x}
    case Node(_, l, r) => Uses(l) + Uses(r)
  }

  /** The names that a statement declares, at any depth: there is one scope. */
  function DeclaredBy(s: Source): set<string>
    decreases s, 0
  {
    match s
    case SPrint(_) => {}
    case SAssign(_, _) => {}
    case SDeclare(x) => {x}
    case SIf(_, thn, els) => DeclaredIn(thn) + DeclaredIn(els)
    case SWhile(_, body) => DeclaredIn(body)
    case SFor(pre, _, post, body) => DeclaredBy(pre) + (DeclaredBy(post) + DeclaredIn(body))
  }

  function DeclaredIn(p: seq<Source>): set<string>
    decreases p, 0
  {
    if p == [] then {} else DeclaredBy(p[0]) + DeclaredIn(p[1..])
  }

  predicate IsTest(c: SourceExpr) {
    c.Node? && (c.op == Eq || c.op == Ne || c.op == Lt || c.op == Gt || c.op == Le || c.op == Ge)
  }

  /** A block with a tree. */
  predicate DoesSomething(p: seq<Source>) {
    exists s :: s in p && !s.SDeclare?
  }

  /** Names are declared before they are used, conditions are comparisons, and bodies and the
      operations of a `for` do something; but an else block may only declare. */
  predicate Scoped(s: Source, known: set<string>)
    decreases s, 0
  {
    match s
    case SPrint(e) => Uses(e) <= known
    case SAssign(x, e) => x in known && Uses(e) <= known
    case SDeclare(_) => true
    case SIf(c, thn, els) =>
      && IsTest(c) && Uses(c) <= known && DoesSomething(thn)
      && ScopedBlock(thn, known) && ScopedBlock(els, known + DeclaredIn(thn))
    case SWhile(c, body) =>
      IsTest(c) && Uses(c) <= known && DoesSomething(body) && ScopedBlock(body, known)
    case SFor(pre, c, post, body) =>
      var known1 := known + DeclaredBy(pre);
      && !pre.SDeclare? && Scoped(pre, known)
      && IsTest(c) && Uses(c) <= known1
      && !post.SDeclare? && Scoped(post, known1)
      && DoesSomething(body) && ScopedBlock(body, known1 + DeclaredBy(post))
  }

  predicate ScopedBlock(p: seq<Source>, known: set<string>)
    decreases p, 0
  {
    p == [] || (Scoped(p[0], known) && ScopedBlock(p[1..], known + DeclaredBy(p[0])))
  }

  // ---------- Register need ----------

  /** The largest need of an expression in a statement. */
  function SourceNeed(s: Source): nat
    decreases s, 0
  {
    match s
    case SPrint(e) => Need(e)
    case SAssign(_, e) => Need(e)
    case SDeclare(_) => 0
    case SIf(c, thn, els) => Max(Need(c), Max(BlockNeed(thn), BlockNeed(els)))
    case SWhile(c, body) => Max(Need(c), BlockNeed(body))
    case SFor(pre, c, post, body) => Max(Max(SourceNeed(pre), Need(c)), Max(SourceNeed(post), BlockNeed(body)))
  }

  function BlockNeed(p: seq<Source>): nat
    decreases p, 0
  {
    if p == [] then 0 else Max(SourceNeed(p[0]), BlockNeed(p[1..]))
  }

  /** Programs that compile: at most 1024 names, and 4 registers are enough. */
  predicate InOrder(p: seq<Source>) {
    ScopedBlock(p, {}) && DoesSomething(p) && |DeclaredIn(p)| <= 1024 && BlockNeed(p) <= 4
  }

  /** Nothing that can be written needs more than 5 registers. */
  lemma {:induction false} WritableNeed(p: seq<Source>)
    requires WritableBlock(p)
    ensures BlockNeed(p) <= 5
    decreases p, 0
  {
    if p != [] {
      WritableStatementNeed(p[0]);
      WritableNeed(p[1..]);
    }
  }

  lemma ExpressionNeed(e: SourceExpr)
    requires CanonicalSource(e)
    ensures Need(e) <= 5
  {
    Levels(SourceExpressions(), e);
    NeedBound(SourceExpressions(), e, 40);
  }

  lemma {:induction false} WritableStatementNeed(s: Source)
    requires Writable(s)
    ensures SourceNeed(s) <= 5
    decreases s, 0
  {
    hide CanonicalSource, Need;
    match s
    case SPrint(e) => ExpressionNeed(e);
    case SAssign(_, e) => ExpressionNeed(e);
    case SDeclare(_) =>
    case SIf(c, thn, els) =>
      ExpressionNeed(c);
      WritableNeed(thn);
      WritableNeed(els);
    case SWhile(c, body) =>
      ExpressionNeed(c);
      WritableNeed(body);
    case SFor(pre, c, post, body) =>
      WritableStatementNeed(pre);
      ExpressionNeed(c);
      WritableStatementNeed(post);
      WritableNeed(body);
  }

  // ---------- What has a tree ----------

  ghost predicate Table(gsym: seq<string>) {
    Distinct(gsym) && |gsym| <= 1024
  }

  /** The table has room for `names`. */
  ghost predicate Room(gsym: seq<string>, names: set<string>) {
    |Elements(gsym) + names| <= 1024
  }

  lemma RoomInTurn(gsym: seq<string>, a: set<string>, g: seq<string>, b: set<string>)
    ensures Room(gsym, a + b) ==> Room(gsym, a)
    ensures Elements(g) == Elements(gsym) + a ==> (Room(g, b) <==> Room(gsym, a + b))
  {
    var k := Elements(gsym);
    assert k + (a + b) == k + a + b;
    SubsetSize(k + a, k + a + b);
  }

  lemma NoNewNames(gsym: seq<string>)
    requires Table(gsym)
    ensures Room(gsym, {}) && Elements(gsym) + {} == Elements(gsym)
  {
    DistinctSize(gsym);
    assert Elements(gsym) + {} == Elements(gsym);
  }

  lemma {:induction false} ResolvedIff(gsym: seq<string>, e: SourceExpr)
    ensures Resolve(gsym, e).Some? <==> Uses(e) <= Elements(gsym)
    ensures Resolve(gsym, e).Some? ==> Need(Resolve(gsym, e).value) == Need(e)
  {
    if e.Node? {
      ResolvedIff(gsym, e.left);
      ResolvedIff(gsym, e.right);
    }
  }

  lemma ConditionIff(gsym: seq<string>, c: SourceExpr)
    ensures LowerCondition(gsym, c).Some? <==> IsTest(c) && Uses(c) <= Elements(gsym)
    ensures LowerCondition(gsym, c).Some? ==> Need(LowerCondition(gsym, c).value) == Need(c)
  {
    ResolvedIff(gsym, c);
  }

  lemma DeclarationIff(gsym: seq<string>, x: string)
    requires Table(gsym)
    ensures Lower(gsym, SDeclare(x)).Some? <==> Room(gsym, {x})
    ensures Lower(gsym, SDeclare(x)).Some? ==>
              var g := Lower(gsym, SDeclare(x)).value.gsym; Table(g) && Elements(g) == Elements(gsym) + {x}
  {
    assert AddAll(gsym, [x], 1024) == Pools.Add(gsym, x, 1024) by {
      assert [x][1..] == [];
    }
    RunOfAdds(gsym, [x], 1024);
    assert Elements([x]) == {x};
  }

  /** What a statement's tree, symbol table and register need are, if it has them. */
  ghost predicate Lowers(gsym: seq<string>, d: Lowered<Option<Stmt>>, names: set<string>, tree: bool, need: nat) {
    && Table(d.gsym) && Elements(d.gsym) == Elements(gsym) + names
    && d.tree.Some? == tree && TreeNeed(d.tree) == need
  }

  function TreeNeed(d: Option<Stmt>): nat {
    match d case None => 0 case Some(t) => StmtNeed(t)
  }

  /** The parser gives a statement a tree exactly if it is in order and the table has room. */
  lemma {:induction false} LowerIff(gsym: seq<string>, s: Source)
    requires Table(gsym)
    ensures Lower(gsym, s).Some? <==> Scoped(s, Elements(gsym)) && Room(gsym, DeclaredBy(s))
    ensures Lower(gsym, s).Some? ==>
              Lowers(gsym, Lower(gsym, s).value, DeclaredBy(s), !s.SDeclare?, SourceNeed(s))
    decreases s, 1
  {
    hide Table, Room, LowerCondition, LowerBody, LowerBlock, LowerTree, Resolve, Need, Elements;
    NoNewNames(gsym);
    match s
    case SPrint(e) =>
      ResolvedIff(gsym, e);
    case SAssign(x, e) =>
      ResolvedIff(gsym, e);
      InTable(gsym, x);
    case SDeclare(x) =>
      DeclarationIff(gsym, x);
    case SIf(c, thn, els) =>
      IfIff(gsym, c, thn, els);
    case SWhile(c, body) =>
      ConditionIff(gsym, c);
      BodyIff(gsym, body);
    case SFor(pre, c, post, body) =>
      ForIff(gsym, pre, c, post, body);
  }

  lemma InTable(gsym: seq<string>, x: string)
    ensures x in gsym <==> x in Elements(gsym)
  {
  }

  lemma {:induction false} IfIff(gsym: seq<string>, c: SourceExpr, thn: seq<Source>, els: seq<Source>)
    requires Table(gsym)
    ensures var s := SIf(c, thn, els);
            && (Lower(gsym, s).Some? <==> Scoped(s, Elements(gsym)) && Room(gsym, DeclaredBy(s)))
            && (Lower(gsym, s).Some? ==> Lowers(gsym, Lower(gsym, s).value, DeclaredBy(s), true, SourceNeed(s)))
    decreases SIf(c, thn, els), 0
  {
    hide Table, Room, LowerCondition, LowerBody, LowerBlock, Resolve, Need, Elements, DoesSomething, StmtNeed, Max,
         Lower, DeclaredIn, BlockNeed, ScopedBlock, TreeNeed, Uses, IsTest;
    LowerIf(gsym, c, thn, els);
    ConditionIff(gsym, c);
    BodyIff(gsym, thn);
    var a := LowerBody(gsym, thn);
    RoomInTurn(gsym, DeclaredIn(thn), if a.Some? then a.value.gsym else gsym, DeclaredIn(els));
    if els == [] {
      EmptyBlock(Elements(gsym) + DeclaredIn(thn));
      assert DeclaredIn(thn) + DeclaredIn(els) == DeclaredIn(thn);
      if a.Some? && LowerCondition(gsym, c).Some? {
        IfNeed(LowerCondition(gsym, c).value, a.value.tree, None);
      }
    } else if a.Some? {
      BlockIff(a.value.gsym, els);
      var b := LowerBlock(a.value.gsym, els);
      if b.Some? && LowerCondition(gsym, c).Some? {
        IfNeed(LowerCondition(gsym, c).value, a.value.tree, b.value.tree);
        Reassociate(Elements(gsym), DeclaredIn(thn), DeclaredIn(els), {});
      }
    }
  }

  lemma EmptyBlock(known: set<string>)
    ensures DeclaredIn([]) == {} && ScopedBlock([], known) && BlockNeed([]) == 0 == TreeNeed(None)
  {
  }

  lemma LowerIf(gsym: seq<string>, c: SourceExpr, thn: seq<Source>, els: seq<Source>)
    ensures var r := Lower(gsym, SIf(c, thn, els));
            var cond, a := LowerCondition(gsym, c), LowerBody(gsym, thn);
            if cond.None? || a.None? then r.None?
            else if els == [] then r == Some(Lowered(Some(If(cond.value, a.value.tree, None)), a.value.gsym))
            else
              var b := LowerBlock(a.value.gsym, els);
              if b.None? then r.None?
              else r == Some(Lowered(Some(If(cond.value, a.value.tree, b.value.tree)), b.value.gsym))
  {
  }

  lemma IfNeed(c: Condition, thn: Stmt, els: Option<Stmt>)
    ensures TreeNeed(Some(If(c, thn, els))) == Max(Need(c), Max(TreeNeed(Some(thn)), TreeNeed(els)))
  {
  }

  lemma {:induction false} ForIff(gsym: seq<string>, pre: Source, c: SourceExpr, post: Source, body: seq<Source>)
    requires Table(gsym)
    ensures var s := SFor(pre, c, post, body);
            && (Lower(gsym, s).Some? <==> Scoped(s, Elements(gsym)) && Room(gsym, DeclaredBy(s)))
            && (Lower(gsym, s).Some? ==> Lowers(gsym, Lower(gsym, s).value, DeclaredBy(s), true, SourceNeed(s)))
    decreases SFor(pre, c, post, body), 0
  {
    hide Table, Room, LowerCondition, LowerBody, LowerBlock, Resolve, Need, Elements, DoesSomething, StmtNeed, Max,
         Lower, LowerTree;
    LowerFor(gsym, pre, c, post, body);
    LowerIff(gsym, pre);
    TreeIff(gsym, pre);
    var p := LowerTree(gsym, pre);
    var rest := DeclaredBy(post) + DeclaredIn(body);
    RoomInTurn(gsym, DeclaredBy(pre), if p.Some? then p.value.gsym else gsym, rest);
    if p.Some? {
      var g := p.value.gsym;
      ConditionIff(g, c);
      LowerIff(g, post);
      TreeIff(g, post);
      var q := LowerTree(g, post);
      RoomInTurn(g, DeclaredBy(post), if q.Some? then q.value.gsym else g, DeclaredIn(body));
      if q.Some? {
        BodyIff(q.value.gsym, body);
        var b := LowerBody(q.value.gsym, body);
        if b.Some? && LowerCondition(g, c).Some? {
          ForNeed(p.value.tree, LowerCondition(g, c).value, b.value.tree, q.value.tree);
          Reassociate(Elements(gsym), DeclaredBy(pre), DeclaredBy(post), DeclaredIn(body));
        }
      }
    }
  }

  lemma LowerFor(gsym: seq<string>, pre: Source, c: SourceExpr, post: Source, body: seq<Source>)
    ensures var r := Lower(gsym, SFor(pre, c, post, body));
            var p := LowerTree(gsym, pre);
            if p.None? then r.None?
            else
              var cond, q := LowerCondition(p.value.gsym, c), LowerTree(p.value.gsym, post);
              if cond.None? || q.None? then r.None?
              else
                var b := LowerBody(q.value.gsym, body);
                if b.None? then r.None?
                else
                  var loop := While(cond.value, Glue(b.value.tree, q.value.tree));
                  r == Some(Lowered(Some(Glue(p.value.tree, loop)), b.value.gsym))
  {
  }

  lemma TreeIff(gsym: seq<string>, s: Source)
    requires Lower(gsym, s).Some? ==> (Lower(gsym, s).value.tree.None? <==> s.SDeclare?)
    ensures LowerTree(gsym, s).Some? <==> Lower(gsym, s).Some? && !s.SDeclare?
    ensures LowerTree(gsym, s).Some? ==>
              var d := LowerTree(gsym, s).value; Lower(gsym, s) == Some(Lowered(Some(d.tree), d.gsym))
  {
    hide Lower;
  }

  lemma ForNeed(pre: Stmt, c: Condition, body: Stmt, post: Stmt)
    ensures StmtNeed(Glue(pre, While(c, Glue(body, post))))
            == Max(Max(StmtNeed(pre), Need(c)), Max(StmtNeed(post), StmtNeed(body)))
  {
    var loop := While(c, Glue(body, post));
    assert StmtNeed(loop) == Max(Need(c), StmtNeed(loop.body));
  }

  lemma Reassociate<T>(k: set<T>, a: set<T>, b: set<T>, c: set<T>)
    ensures k + a + b == k + (a + b) && k + a + b + c == k + (a + (b + c))
  {
  }

  lemma {:induction false} BodyIff(gsym: seq<string>, p: seq<Source>)
    requires Table(gsym)
    ensures LowerBody(gsym, p).Some? <==>
            DoesSomething(p) && ScopedBlock(p, Elements(gsym)) && Room(gsym, DeclaredIn(p))
    ensures LowerBody(gsym, p).Some? ==>
              var d := LowerBody(gsym, p).value;
              Lowers(gsym, Lowered(Some(d.tree), d.gsym), DeclaredIn(p), true, BlockNeed(p))
    decreases p, 2
  {
    hide Table, Room, Elements;
    if p != [] {
      BlockIff(gsym, p);
    }
  }

  lemma {:induction false} BlockIff(gsym: seq<string>, p: seq<Source>)
    requires Table(gsym) && p != []
    ensures LowerBlock(gsym, p).Some? <==> ScopedBlock(p, Elements(gsym)) && Room(gsym, DeclaredIn(p))
    ensures LowerBlock(gsym, p).Some? ==>
              Lowers(gsym, LowerBlock(gsym, p).value, DeclaredIn(p), DoesSomething(p), BlockNeed(p))
    decreases p, 1
  {
    hide Table, Room, Elements;
    ItemsIff(gsym, None, p);
    if LowerItems(gsym, None, p).Some? {
      NoTree(gsym, None, p);
    }
  }

  lemma {:induction false} ItemsIff(gsym: seq<string>, left: Option<Stmt>, p: seq<Source>)
    requires Table(gsym) && p != []
    ensures LowerItems(gsym, left, p).Some? <==> ScopedBlock(p, Elements(gsym)) && Room(gsym, DeclaredIn(p))
    ensures LowerItems(gsym, left, p).Some? ==>
              var d := LowerItems(gsym, left, p).value;
              && Table(d.gsym) && Elements(d.gsym) == Elements(gsym) + DeclaredIn(p)
              && TreeNeed(d.tree) == Max(TreeNeed(left), BlockNeed(p))
    decreases p, 0
  {
    hide Table, Room, Elements, Lower, Scoped, SourceNeed, DeclaredBy;
    LowerIff(gsym, p[0]);
    var r := LowerItem(gsym, left, p[0]);
    RoomInTurn(gsym, DeclaredBy(p[0]), if r.Some? then r.value.gsym else gsym, DeclaredIn(p[1..]));
    if |p| == 1 {
      assert p[1..] == [] && DeclaredIn(p) == DeclaredBy(p[0]);
    } else if r.Some? {
      ItemsIff(r.value.gsym, r.value.tree, p[1..]);
      assert Elements(gsym) + DeclaredBy(p[0]) + DeclaredIn(p[1..]) == Elements(gsym) + DeclaredIn(p);
    }
  }

  // ---------- What the parser accepts ----------

  lemma EmptyTable()
    ensures Table([]) && Elements<string>([]) == {}
  {
  }

  /** A block of tokens is accepted exactly if it begins with the spelling of a block that is in
      order and declares at most 1024 names. */
  lemma AcceptedIff(ts: seq<Token>)
    ensures ParseCompound([], ts).Some? <==>
            exists p, rest :: SpellsBlock(ts, p, rest) && ScopedBlock(p, {}) && |DeclaredIn(p)| <= 1024
  {
    EmptyTable();
    if ParseCompound([], ts).Some? {
      var p := BlockSound([], ts);
      var rest := ParseCompound([], ts).value.rest;
      BlockRoundTrip([], p, rest);
      BlockIff([], p);
      assert {} + DeclaredIn(p) == DeclaredIn(p);
      assert SpellsBlock(ts, p, rest) && ScopedBlock(p, {}) && |DeclaredIn(p)| <= 1024;
    }
    forall p, rest | SpellsBlock(ts, p, rest) && ScopedBlock(p, {}) && |DeclaredIn(p)| <= 1024
      ensures ParseCompound([], ts).Some?
    {
      BlockRoundTrip([], p, rest);
      BlockIff([], p);
      assert {} + DeclaredIn(p) == DeclaredIn(p);
    }
  }

  /** Programs in order are those with a tree for which there are registers enough. */
  lemma InOrderIff(p: seq<Source>)
    ensures InOrder(p) <==> LowerBody([], p).Some? && StmtNeed(LowerBody([], p).value.tree) <= 4
  {
    EmptyTable();
    BodyIff([], p);
    assert {} + DeclaredIn(p) == DeclaredIn(p);
  }
}
