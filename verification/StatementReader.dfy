/** The statement parser as the compiler runs it: functions that all advance one cursor in
    the token stream and add to one symbol table, and a loop that glues a block together. */
module StatementReader {
  import opened Wrappers
  import opened PrecedenceParser
  import opened Ast
  import opened Tokens
  import opened SymbolTable
  import opened ExpressionGrammar
  import opened StatementParser
  import E = ExpressionParser

  class Reader {
    const toks: seq<Token>
    const table: Table
    var pos: nat

    constructor (toks: seq<Token>)
      ensures Valid() && fresh(table) && fresh(table.names)
      ensures Unread() == toks && Gsym() == []
    {
      this.toks := toks;
      table := new Table();
      pos := 0;
    }

    ghost predicate Valid()
      reads this, table
    {
      pos <= |toks| && table.Valid()
    }

    ghost function Unread(): seq<Token>
      requires Valid()
      reads this, table
    {
      toks[pos..]
    }

    ghost function Gsym(): seq<string>
      requires Valid()
      reads this, table, table.names
    {
      table.Contents()
    }

    /** Where a function of the parser stands when its result should be `x`. */
    ghost predicate Did<T(!new)>(x: Option<Parsed<T>>, r: Option<T>)
      reads this, table, table.names
    {
      && Valid()
      && match x
         case None => r.None?
         case Some(p) => r == Some(p.tree) && Unread() == p.rest && Gsym() == p.gsym
    }

    predicate Sees(t: Token)
      requires Valid()
      reads this, table
      ensures Sees(t) <==> Match(Unread(), t).Some?
    {
      pos < |toks| && toks[pos] == t
    }

    /** `match`. */
    method Expect(t: Token) returns (ok: bool)
      requires Valid()
      modifies this`pos
      ensures Valid() && ok == Match(old(Unread()), t).Some?
      ensures ok ==> Unread() == Match(old(Unread()), t).value && pos > old(pos)
      ensures !ok ==> pos == old(pos)
    {
      ok := Sees(t);
      if ok {
        pos := pos + 1;
      }
    }

    /** `ident`, and the name it leaves in `Text`. */
    method Ident() returns (name: Option<string>)
      requires Valid()
      modifies this`pos
      ensures Valid() && pos >= old(pos)
      ensures name.Some? <==> old(Unread()) != [] && old(Unread())[0].TIdent?
      ensures name.Some? ==> name.value == old(Unread())[0].name && Unread() == old(Unread())[1..]
    {
      if pos == |toks| || !toks[pos].TIdent? {
        return None;
      }
      name := Some(toks[pos].name);
      pos := pos + 1;
    }

    /** `binexpr(0)`. */
    method Expression() returns (r: Option<Expr>)
      requires Valid()
      modifies this`pos
      ensures Valid() && pos >= old(pos)
      ensures match ParseExpr(Gsym(), old(Unread()))
              case None => r.None?
              case Some((e, rest)) => r == Some(e) && Unread() == rest && pos > old(pos)
    {
      hide BinExpr, Syms, FindGlob, Ends, Expressions;
      ghost var ts := Unread();
      var gsym := table.names[..table.globs];
      var p := new E.Parser(Expressions(), Syms(gsym, toks[pos..]));
      assert p.Unread() == Syms(gsym, ts);
      ghost var x := BinExpr(Expressions(), Syms(gsym, ts), 0);
      r := p.BinExpr(0);
      assert p.Did(x, r);
      if r.Some? {
        assert |x.value.1| == |p.Unread()| == |ts| - p.pos;
        pos := pos + p.pos;
        assert Unread() == ts[p.pos..];
      }
    }

    method Comparison() returns (r: Option<Condition>)
      requires Valid()
      modifies this`pos
      ensures Valid() && pos >= old(pos)
      ensures match ParseCondition(Gsym(), old(Unread()))
              case None => r.None?
              case Some((c, rest)) => r == Some(c) && Unread() == rest && pos > old(pos)
    {
      var e := Expression();
      if e.Some? && IsCondition(e.value) {
        r := Some(e.value);
      } else {
        r := None;
      }
    }

    method PrintStatement() returns (r: Option<Option<Stmt>>)
      requires Valid()
      modifies this`pos
      ensures Did(ParsePrint(old(Gsym()), old(Unread())), r) && (r.Some? ==> pos > old(pos))
    {
      hide ParseExpr;
      r := None;
      var ok := Expect(TPrint);
      if ok {
        var e := Expression();
        if e.Some? {
          r := Some(Some(Print(e.value)));
        }
      }
    }

    /** `var_declaration`. */
    method VarDeclaration() returns (r: Option<Option<Stmt>>)
      requires Valid()
      modifies this`pos, table, table.names
      ensures Did(ParseDeclaration(old(Gsym()), old(Unread())), r) && (r.Some? ==> pos > old(pos))
    {
      hide AddGlob;
      r := None;
      var ok := Expect(TInt);
      if ok {
        var name := Ident();
        if name.Some? {
          var slot := table.Add(name.value);
          if slot.Some? {
            ok := Expect(TSemi);
            if ok {
              r := Some(None);
            }
          }
        }
      }
    }

    method AssignmentStatement() returns (r: Option<Option<Stmt>>)
      requires Valid()
      modifies this`pos
      ensures Did(ParseAssignment(old(Gsym()), old(Unread())), r) && (r.Some? ==> pos > old(pos))
    {
      hide ParseExpr, FindGlob;
      r := None;
      var name := Ident();
      if name.Some? {
        var id := table.Find(name.value);
        if id.Some? {
          var ok := Expect(TAssign);
          if ok {
            var e := Expression();
            if e.Some? {
              r := Some(Some(Assign(id.value, e.value)));
            }
          }
        }
      }
    }

    /** `'(' condition ')'`, after the keyword. */
    method Test(keyword: Token) returns (r: Option<Condition>)
      requires Valid()
      modifies this`pos
      ensures Valid() && pos >= old(pos)
      ensures match ParseTest(Gsym(), old(Unread()), keyword)
              case None => r.None?
              case Some((c, rest)) => r == Some(c) && Unread() == rest && pos > old(pos)
    {
      hide ParseCondition;
      r := None;
      var ok := Expect(keyword);
      if ok {
        ok := Expect(TLParen);
        if ok {
          var c := Comparison();
          if c.Some? {
            ok := Expect(TRParen);
            if ok {
              r := c;
            }
          }
        }
      }
    }

    method IfStatement() returns (r: Option<Option<Stmt>>)
      requires Valid()
      modifies this`pos, table, table.names
      ensures Did(ParseIf(old(Gsym()), old(Unread())), r) && (r.Some? ==> pos > old(pos))
      decreases |toks| - pos, 0
    {
      hide ParseTest, ParseBody, ParseCompound;
      r := None;
      var c := Test(TIf);
      if c.None? {
        return;
      }
      var thn := Body();
      if thn.None? {
        return;
      }
      if pos < |toks| && toks[pos] == TElse {
        ghost var ahead := Unread();
        pos := pos + 1;
        assert Unread() == ahead[1..];
        var els := CompoundStatement();
        if els.Some? {
          r := Some(Some(If(c.value, thn.value, els.value)));
        }
      } else {
        r := Some(Some(If(c.value, thn.value, None)));
      }
    }

    method WhileStatement() returns (r: Option<Option<Stmt>>)
      requires Valid()
      modifies this`pos, table, table.names
      ensures Did(ParseWhile(old(Gsym()), old(Unread())), r) && (r.Some? ==> pos > old(pos))
      decreases |toks| - pos, 0
    {
      hide ParseTest, ParseBody;
      r := None;
      var c := Test(TWhile);
      if c.Some? {
        var body := Body();
        if body.Some? {
          r := Some(Some(While(c.value, body.value)));
        }
      }
    }

    method ForStatement() returns (r: Option<Option<Stmt>>)
      requires Valid()
      modifies this`pos, table, table.names
      ensures Did(ParseFor(old(Gsym()), old(Unread())), r) && (r.Some? ==> pos > old(pos))
      decreases |toks| - pos, 0
    {
      hide ParseCondition, ParseBody, ParseTree, Match;
      r := None;
      var ok := Expect(TFor);
      if !ok {
        return;
      }
      ok := Expect(TLParen);
      if !ok {
        return;
      }
      var pre := Tree();
      if pre.None? {
        return;
      }
      ok := Expect(TSemi);
      if !ok {
        return;
      }
      var c := Comparison();
      if c.None? {
        return;
      }
      ok := Expect(TSemi);
      if !ok {
        return;
      }
      var post := Tree();
      if post.None? {
        return;
      }
      ok := Expect(TRParen);
      if !ok {
        return;
      }
      var body := Body();
      if body.None? {
        return;
      }
      var loop := While(c.value, Glue(body.value, post.value));
      r := Some(Some(Glue(pre.value, loop)));
    }

    method SingleStatement() returns (r: Option<Option<Stmt>>)
      requires Valid()
      modifies this`pos, table, table.names
      ensures Did(ParseStatement(old(Gsym()), old(Unread())), r) && (r.Some? ==> pos > old(pos))
      decreases |toks| - pos, 1
    {
      hide ParsePrint, ParseDeclaration, ParseAssignment, ParseIf, ParseWhile, ParseFor;
      if pos == |toks| {
        return None;
      }
      match toks[pos]
      case TPrint => r := PrintStatement();
      case TInt => r := VarDeclaration();
      case TIdent(_) => r := AssignmentStatement();
      case TIf => r := IfStatement();
      case TWhile => r := WhileStatement();
      case TFor => r := ForStatement();
      case _ => r := None;
    }

    method Tree() returns (r: Option<Stmt>)
      requires Valid()
      modifies this`pos, table, table.names
      ensures Did(ParseTree(old(Gsym()), old(Unread())), r) && (r.Some? ==> pos > old(pos))
      decreases |toks| - pos, 2
    {
      hide ParseStatement;
      var s := SingleStatement();
      r := if s.Some? then s.value else None;
    }

    method Body() returns (r: Option<Stmt>)
      requires Valid()
      modifies this`pos, table, table.names
      ensures Did(ParseBody(old(Gsym()), old(Unread())), r) && (r.Some? ==> pos > old(pos))
      decreases |toks| - pos, 3
    {
      hide ParseCompound;
      var b := CompoundStatement();
      r := if b.Some? then b.value else None;
    }

    /** One iteration of the loop of `compound_statement`. */
    method Item(left: Option<Stmt>) returns (r: Option<Option<Stmt>>)
      requires Valid()
      modifies this`pos, table, table.names
      ensures Did(ParseItem(old(Gsym()), left, old(Unread())), r) && (r.Some? ==> pos > old(pos))
      decreases |toks| - pos, 2
    {
      hide ParseStatement, NeedsSemi, GlueTo;
      r := None;
      var tree := SingleStatement();
      if tree.Some? {
        var ok := true;
        if NeedsSemi(tree.value) {
          ok := Expect(TSemi);
        }
        if ok {
          r := Some(GlueTo(left, tree.value));
        }
      }
    }

    method CompoundStatement() returns (r: Option<Option<Stmt>>)
      requires Valid()
      modifies this`pos, table, table.names
      ensures Did(ParseCompound(old(Gsym()), old(Unread())), r) && (r.Some? ==> pos > old(pos))
      decreases |toks| - pos, 2
    {
      hide ParseItem;
      ghost var start, ts := Gsym(), Unread();
      var left: Option<Stmt> := None;
      var ok := Expect(TLBrace);
      if !ok {
        return None;
      }
      while true
        invariant Valid() && pos > old(pos)
        invariant ParseCompound(start, ts) == ParseItems(Gsym(), left, Unread())
        decreases |toks| - pos
      {
        var glued := Item(left);
        if glued.None? {
          return None;
        }
        left := glued.value;
        ok := Expect(TRBrace);
        if ok {
          return Some(left);
        }
      }
    }
  }
}
