/** `binexpr` as the compiler runs it: a cursor into the token stream that `primary`
    and the loop move forward, and a local tree `left` that grows. */
module ExpressionParser {
  import opened Wrappers
  import opened PrecedenceParser

  class Parser<A, O, N> {
    const g: Grammar<A, O, N>
    const input: seq<Sym<A, O>>
    var pos: nat

    constructor (g: Grammar<A, O, N>, input: seq<Sym<A, O>>)
      ensures this.g == g && this.input == input && pos == 0
    {
      this.g := g;
      this.input := input;
      pos := 0;
    }

    ghost predicate Valid()
      reads this
    {
      pos <= |input|
    }

    ghost function Unread(): seq<Sym<A, O>>
      reads this
      requires Valid()
    {
      input[pos..]
    }

    /** Has the token that ends an expression been reached? */
    predicate AtEnd()
      reads this
      requires Valid()
      ensures AtEnd() == Ends(g, Unread())
    {
      if pos == |input| then g.eofStops else input[pos].Stop?
    }

    method Primary() returns (r: Option<N>)
      requires Valid()
      modifies this`pos
      ensures Valid() && pos >= old(pos)
      ensures r.Some? <==> old(Unread()) != [] && old(Unread())[0].Operand?
      ensures r.Some? ==> r.value == g.leaf(old(Unread())[0].leaf) && Unread() == old(Unread())[1..]
    {
      if pos == |input| || !input[pos].Operand? {
        return None;
      }
      r := Some(g.leaf(input[pos].leaf));
      pos := pos + 1;
    }

    /** Where the parser stands when its result should be `x`. */
    ghost predicate Did(x: Option<(N, seq<Sym<A, O>>)>, r: Option<N>)
      reads this
    {
      Valid() && if x.None? then r.None? else r == Some(x.value.0) && Unread() == x.value.1
    }

    method BinExpr(ptp: nat) returns (r: Option<N>)
      requires Valid()
      modifies this`pos
      ensures Did(PrecedenceParser.BinExpr(g, old(Unread()), ptp), r) && pos >= old(pos)
      decreases |input| - pos
    {
      hide Climb, Climbs, Ends, PrecedenceParser.BinExpr;
      ghost var start := Unread();
      FirstOperand(g, start, ptp);
      var first := Primary();
      if first.None? {
        return None;
      }
      var left := first.value;
      while !AtEnd()
        invariant Valid() && pos > old(pos)
        invariant PrecedenceParser.BinExpr(g, start, ptp) == Climb(g, left, Unread(), ptp)
        decreases |input| - pos
      {
        ghost var ahead := Unread();
        LoopTest(g, left, ahead, ptp);
        if pos == |input| || !input[pos].Operator? {
          return None;
        }
        var op := input[pos].op;
        if !Climbs(g, op, ptp) {
          return Some(left);
        }
        LoopBody(g, left, ahead, ptp);
        pos := pos + 1;
        assert Unread() == ahead[1..];
        var right := BinExpr(g.prec(op));
        if right.None? {
          return None;
        }
        var joined := g.join(op, left, right.value);
        if joined.None? {
          return None;
        }
        left := joined.value;
      }
      LoopTest(g, left, Unread(), ptp);
      return Some(left);
    }
  }
}
