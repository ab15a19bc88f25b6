/** Stage 3 has two expression parsers, one driven by a precedence table and one with a
    function for each precedence level. They build the same tree, or both report an error. */
module RecursiveDescent {
  import opened Wrappers
  import opened Words
  import opened PrecedenceParser

  datatype ArithOp = Plus | Minus | Times | Over

  type ArithExpr = Tree<Int32, ArithOp>

  /** The tokens before T_EOF: integer literals and the four operators. */
  type Lexeme = s: Sym<Int32, ArithOp> | s.Operand? || s.Operator? witness Operator(Plus)

  function OpPrec(op: ArithOp): nat {
    match op
    case Plus | Minus => 10
    case Times | Over => 20
  }

  /** The grammar of the table-driven parser. Only here does T_EOF end an expression. */
  function Arithmetic(): Grammar<Int32, ArithOp, ArithExpr> {
    Plain((op: ArithOp) => OpPrec(op), (op: ArithOp) => false, true)
  }

  type Outcome = Option<(ArithExpr, seq<Lexeme>)>

  function Primary(ts: seq<Lexeme>): (r: Outcome)
    ensures r.Some? ==> |r.value.1| < |ts|
  {
    if ts == [] || !ts[0].Operand? then None else Some((Leaf(ts[0].leaf), ts[1..]))
  }

  predicate IsFactor(ts: seq<Lexeme>) {
    ts != [] && ts[0].Operator? && (ts[0].op == Times || ts[0].op == Over)
  }

  /** `multiplicative_expr`. */
  function Multiplicative(ts: seq<Lexeme>): (r: Outcome)
    ensures r.Some? ==> |r.value.1| < |ts| && !IsFactor(r.value.1)
  {
    var (left, rest) :- Primary(ts);
    Factors(left, rest)
  }

  function Factors(left: ArithExpr, ts: seq<Lexeme>): (r: Outcome)
    ensures r.Some? ==> |r.value.1| <= |ts| && !IsFactor(r.value.1)
    decreases |ts|
  {
    if !IsFactor(ts) then Some((left, ts))
    else
      var (right, rest) :- Primary(ts[1..]);
      Factors(Node(ts[0].op, left, right), rest)
  }

  /** `additive_expr`. */
  function Additive(ts: seq<Lexeme>): Outcome {
    var (left, rest) :- Multiplicative(ts);
    Terms(left, rest)
  }

  /** Its loop goes on until T_EOF, whatever the next token is; the token's turn comes when
      it is made an operator. */
  function Terms(left: ArithExpr, ts: seq<Lexeme>): (r: Outcome)
    ensures r.Some? ==> r.value.1 == []
    decreases |ts|
  {
    if ts == [] then Some((left, ts))
    else
      var (right, rest) :- Multiplicative(ts[1..]);
      if !ts[0].Operator? then None else Terms(Node(ts[0].op, left, right), rest)
  }

  // ---------- Equivalence ----------

  /** The table-driven parser looks at the token after an operand, where the other one does not. */
  function ThenOperator(r: Outcome): Outcome {
    var (t, rest) :- r;
    if rest != [] && rest[0].Operand? then None else Some((t, rest))
  }

  lemma PrimaryLevel(ts: seq<Lexeme>)
    ensures BinExpr(Arithmetic(), ts, 20) == ThenOperator(Primary(ts))
  {
  }

  lemma {:induction false} FactorLevel(left: ArithExpr, ts: seq<Lexeme>)
    ensures Climb(Arithmetic(), left, ts, 10) == ThenOperator(Factors(left, ts))
    decreases |ts|
  {
    if IsFactor(ts) {
      PrimaryLevel(ts[1..]);
      var r := Primary(ts[1..]);
      if r.Some? {
        FactorLevel(Node(ts[0].op, left, r.value.0), r.value.1);
      }
    }
  }

  /** An operator and its right operand are joined the same way at both levels. If an operand
      follows, the table-driven parser fails at once, and would fail anyway. */
  lemma OperatorStep(left: ArithExpr, ts: seq<Lexeme>, r: Outcome)
    requires ts != [] && ts[0].Operator? && r.Some?
    requires BinExpr(Arithmetic(), ts[1..], OpPrec(ts[0].op)) == ThenOperator(r)
    ensures Climb(Arithmetic(), left, ts, 0)
            == Climb(Arithmetic(), Node(ts[0].op, left, r.value.0), r.value.1, 0)
  {
    var g := Arithmetic();
    LoopBody(g, left, ts, 0);
    LoopTest(g, Node(ts[0].op, left, r.value.0), r.value.1, 0);
  }

  lemma {:induction false} TermLevel(left: ArithExpr, ts: seq<Lexeme>)
    ensures Climb(Arithmetic(), left, ts, 0) == ThenTerms(Factors(left, ts))
    decreases |ts|
  {
    hide Climb, BinExpr, Multiplicative;
    var g := Arithmetic();
    LoopTest(g, left, ts, 0);
    if ts != [] && ts[0].Operator? {
      LoopBody(g, left, ts, 0);
      if IsFactor(ts) {
        PrimaryLevel(ts[1..]);
        var r := Primary(ts[1..]);
        if r.Some? {
          OperatorStep(left, ts, r);
          TermLevel(Node(ts[0].op, left, r.value.0), r.value.1);
        }
      } else {
        MultiplicativeLevel(ts[1..]);
        var r := Multiplicative(ts[1..]);
        if r.Some? {
          OperatorStep(left, ts, r);
          TermLevel(Node(ts[0].op, left, r.value.0), r.value.1);
        }
      }
    }
  }

  function ThenTerms(r: Outcome): Outcome {
    var (left, rest) :- r;
    Terms(left, rest)
  }

  lemma MultiplicativeLevel(ts: seq<Lexeme>)
    ensures BinExpr(Arithmetic(), ts, 10) == ThenOperator(Multiplicative(ts))
  {
    var r := Primary(ts);
    if r.Some? {
      FactorLevel(r.value.0, r.value.1);
    }
  }

  /** On every token sequence the two parsers agree, and neither leaves a token unread. */
  lemma SameParse(ts: seq<Lexeme>)
    ensures Additive(ts) == BinExpr(Arithmetic(), ts, 0)
    ensures Additive(ts).Some? ==> Additive(ts).value.1 == []
  {
    var r := Primary(ts);
    if r.Some? {
      TermLevel(r.value.0, r.value.1);
    }
  }

  // ---------- The parser as it runs ----------

  class Descent {
    const input: seq<Lexeme>
    var pos: nat

    constructor (input: seq<Lexeme>)
      ensures Valid() && Unread() == input
    {
      this.input := input;
      pos := 0;
    }

    ghost predicate Valid()
      reads this
    {
      pos <= |input|
    }

    ghost function Unread(): seq<Lexeme>
      requires Valid()
      reads this
    {
      input[pos..]
    }

    ghost predicate Did(x: Outcome, r: Option<ArithExpr>)
      reads this
    {
      Valid() && match x case None => r.None? case Some((t, rest)) => r == Some(t) && Unread() == rest
    }

    method PrimaryFactor() returns (r: Option<ArithExpr>)
      requires Valid()
      modifies this
      ensures Did(Primary(old(Unread())), r)
    {
      if pos == |input| || !input[pos].Operand? {
        return None;
      }
      r := Some(Leaf(input[pos].leaf));
      pos := pos + 1;
    }

    method MultiplicativeExpr() returns (r: Option<ArithExpr>)
      requires Valid()
      modifies this
      ensures Did(Multiplicative(old(Unread())), r)
    {
      ghost var start := Unread();
      var first := PrimaryFactor();
      if first.None? {
        return None;
      }
      var left := first.value;
      while pos < |input| && input[pos].Operator? && (input[pos].op == Times || input[pos].op == Over)
        invariant Valid() && Multiplicative(start) == Factors(left, Unread())
        decreases |Unread()|
      {
        ghost var ahead := Unread();
        var op := input[pos].op;
        pos := pos + 1;
        assert Unread() == ahead[1..];
        var right := PrimaryFactor();
        if right.None? {
          return None;
        }
        left := Node(op, left, right.value);
      }
      return Some(left);
    }

    method AdditiveExpr() returns (r: Option<ArithExpr>)
      requires Valid()
      modifies this
      ensures Did(Additive(old(Unread())), r)
    {
      ghost var start := Unread();
      var first := MultiplicativeExpr();
      if first.None? {
        return None;
      }
      var left := first.value;
      while pos < |input|
        invariant Valid() && Additive(start) == Terms(left, Unread())
        decreases |Unread()|
      {
        ghost var ahead := Unread();
        var token := input[pos];
        pos := pos + 1;
        assert Unread() == ahead[1..];
        var right := MultiplicativeExpr();
        if right.None? || !token.Operator? {
          return None;
        }
        left := Node(token.op, left, right.value);
      }
      return Some(left);
    }
  }
}
