/** Stage 12 gives every tree a type while it parses, and widens chars to ints where the
    operands of an operator differ. */
module TypedExpressions {
  import opened Wrappers
  import opened Words
  import opened PrecedenceParser
  import opened Ast
  import G = ExpressionGrammar

  datatype PType = NoType | Void | Char | Int

  /** No symbol is declared with P_NONE. */
  type SymbolType = t: PType | t != NoType witness Void

  datatype TypedAtom = TNum(value: Int32) | TSlot(id: nat, t: SymbolType)
  {
    /** A literal from 0 to 255 is a char. */
    function Type(): SymbolType {
      match this
      case TNum(v) => if 0 <= v < 256 then Char else Int
      case TSlot(_, t) => t
    }
  }

  datatype Typed =
    | TLeaf(atom: TypedAtom)
    | Widen(t: PType, e: Typed)
    | TNode(op: BinOp, t: PType, left: Typed, right: Typed)
  {
    function Type(): PType {
      match this
      case TLeaf(a) => a.Type()
      case Widen(t, _) => t
      case TNode(_, t, _, _) => t
    }
  }

  /** Which sides `type_compatible` tells its caller to widen. */
  datatype Widening = Widening(left: bool, right: bool)

  function TypeCompatible(left: PType, right: PType, onlyRight: bool): Option<Widening> {
    if left == Void || right == Void then None
    else if left == right then Some(Widening(false, false))
    else if left == Char && right == Int then Some(Widening(true, false))
    else if left == Int && right == Char then if onlyRight then None else Some(Widening(false, true))
    else Some(Widening(false, false))
  }

  /** What `binexpr` does with an operator and its two sub-trees. */
  function Join(op: BinOp, l: Typed, r: Typed): Option<Typed> {
    var w :- TypeCompatible(l.Type(), r.Type(), false);
    var left := if w.left then Widen(r.Type(), l) else l;
    var right := if w.right then Widen(left.Type(), r) else r;
    Some(TNode(op, left.Type(), left, right))
  }

  function TypedGrammar(): Grammar<TypedAtom, BinOp, Typed> {
    Grammar((op: BinOp) => G.OpPrec(op), (op: BinOp) => false, false, (a: TypedAtom) => TLeaf(a),
            (op: BinOp, l: Typed, r: Typed) => Join(op, l, r))
  }

  // ---------- What the types say ----------

  predicate Scalar(t: PType) {
    t == Char || t == Int
  }

  /** Both operands of every operator have its type, which is char or int; only chars are
      widened, to int, and never on both sides. */
  predicate WellTyped(n: Typed) {
    match n
    case TLeaf(_) => true
    case Widen(t, e) => t == Int && e.Type() == Char && !e.Widen? && WellTyped(e)
    case TNode(_, t, l, r) =>
      Scalar(t) && l.Type() == t && r.Type() == t && !(l.Widen? && r.Widen?) && WellTyped(l) && WellTyped(r)
  }

  /** The types of variables and literals: chars are the literals from 0 to 255. */
  function Leaves(t: Tree<TypedAtom, BinOp>): set<PType> {
    match t
    case Leaf(TNum(v)) => if v < 0 || v > 255 then {Int} else {Char}
    case Leaf(TSlot(_, ty)) => {ty}
    case Node(_, l, r) => Leaves(l) + Leaves(r)
  }

  /** The tree without its widenings and types. */
  function Erase(n: Typed): Tree<TypedAtom, BinOp> {
    match n
    case TLeaf(a) => Leaf(a)
    case Widen(_, e) => Erase(e)
    case TNode(op, _, l, r) => Node(op, Erase(l), Erase(r))
  }

  /** Typing succeeds unless an operator has a void operand; it adds types and widenings and
      nothing else; and the result is int exactly if something in it is. */
  lemma {:induction false} BuildTyped(t: Tree<TypedAtom, BinOp>)
    ensures Build(TypedGrammar(), t).Some? <==> t.Leaf? || Void !in Leaves(t)
    ensures Build(TypedGrammar(), t).Some? ==>
              var n := Build(TypedGrammar(), t).value;
              && WellTyped(n) && !n.Widen? && Erase(n) == t
              && (t.Node? ==> Scalar(n.Type()))
              && (n.Type() == Int <==> Int in Leaves(t))
              && (n.Type() == Void <==> Void in Leaves(t))
  {
    match t
    case Leaf(_) =>
    case Node(op, l, r) =>
      BuildTyped(l);
      BuildTyped(r);
      LeafTypes(l);
      LeafTypes(r);
      var a, b := Build(TypedGrammar(), l), Build(TypedGrammar(), r);
      if a.Some? && b.Some? {
        JoinTyped(op, a.value, b.value);
      }
  }

  lemma {:induction false} LeafTypes(t: Tree<TypedAtom, BinOp>)
    ensures NoType !in Leaves(t) && Leaves(t) != {}
  {
    if t.Node? {
      LeafTypes(t.left);
      LeafTypes(t.right);
    }
  }

  lemma JoinTyped(op: BinOp, l: Typed, r: Typed)
    requires WellTyped(l) && WellTyped(r) && !l.Widen? && !r.Widen?
    requires l.Type() != NoType && r.Type() != NoType
    ensures Join(op, l, r).Some? <==> l.Type() != Void && r.Type() != Void
    ensures Join(op, l, r).Some? ==>
              var n := Join(op, l, r).value;
              && WellTyped(n) && n.TNode? && Erase(n) == Node(op, Erase(l), Erase(r))
              && (n.Type() == Int <==> l.Type() == Int || r.Type() == Int)
  {
  }

  function Narrow(n: Typed): Typed {
    if n.Widen? then n.e else n
  }

  /** There is no other way to type a tree. */
  lemma {:induction false} OneTyping(n: Typed)
    requires WellTyped(n)
    ensures Build(TypedGrammar(), Erase(n)) == Some(Narrow(n))
  {
    match n
    case TLeaf(_) =>
    case Widen(_, e) =>
      OneTyping(e);
    case TNode(op, t, l, r) =>
      OneTyping(l);
      OneTyping(r);
      assert Join(op, Narrow(l), Narrow(r)) == Some(n);
  }

  /** What the typed parser returns is well typed and is, without its widenings, what the
      untyped parser of the same grammar returns; and there is no other such tree. */
  lemma TypesAfterParse(ss: seq<Sym<TypedAtom, BinOp>>, n: Typed, rest: seq<Sym<TypedAtom, BinOp>>)
    ensures BinExpr(TypedGrammar(), ss, 0) == Some((n, rest))
            <==> BinExpr(Syntax(TypedGrammar()), ss, 0) == Some((Erase(n), rest)) && WellTyped(n) && !n.Widen?
  {
    var g := TypedGrammar();
    ParseThenBuild(g, ss, 0);
    match BinExpr(Syntax(g), ss, 0)
    case None =>
    case Some((t, _)) =>
      BuildTyped(t);
      if WellTyped(n) {
        OneTyping(n);
      }
  }

  /** Elaboration of whole expressions: a tree is returned exactly if it is well typed and is,
      without its widenings, a sum as in stage 10 that spells what was read up to a ';' or ')'. */
  lemma Elaboration(ss: seq<Sym<TypedAtom, BinOp>>, n: Typed, rest: seq<Sym<TypedAtom, BinOp>>)
    ensures BinExpr(TypedGrammar(), ss, 0) == Some((n, rest))
            <==> && WellTyped(n) && !n.Widen? && G.IsSum(Erase(n))
                 && ss == Flatten(Erase(n)) + rest && rest != [] && rest[0] == Stop
  {
    hide BinExpr, Flatten, Canonical, WellTyped, Erase;
    var g := TypedGrammar();
    TypesAfterParse(ss, n, rest);
    ParseIff(g, ss, Erase(n), rest);
    G.Levels(g, Erase(n));
  }

  /** An expression of stage 10 is rejected exactly if an operator in it has a void operand;
      otherwise its type is int exactly if something in it is. */
  lemma RejectsVoid(t: Tree<TypedAtom, BinOp>, rest: seq<Sym<TypedAtom, BinOp>>)
    requires G.IsSum(t) && rest != [] && rest[0] == Stop
    ensures var r := BinExpr(TypedGrammar(), Flatten(t) + rest, 0);
            && (r.Some? <==> t.Leaf? || Void !in Leaves(t))
            && (r.Some? ==> Erase(r.value.0) == t && (r.value.0.Type() == Int <==> Int in Leaves(t)))
  {
    hide BinExpr, Flatten, Canonical;
    var g := TypedGrammar();
    var ss := Flatten(t) + rest;
    G.Levels(g, t);
    ParseIff(g, ss, t, rest);
    ParseThenBuild(g, ss, 0);
    BuildTyped(t);
  }

  // ---------- Statements ----------

  /** The operand of `print` is made an int. */
  function PrintOperand(n: Typed): Option<Typed> {
    var w :- TypeCompatible(Int, n.Type(), false);
    Some(if w.right then Widen(Int, n) else n)
  }

  /** The source of an assignment is made the type of the variable, but only by widening. */
  function AssignOperand(n: Typed, variable: PType): Option<Typed> {
    var w :- TypeCompatible(n.Type(), variable, true);
    Some(if w.left then Widen(variable, n) else n)
  }

  lemma OperandTypes(n: Typed, variable: PType)
    requires WellTyped(n) && !n.Widen? && n.Type() != NoType && Scalar(variable)
    ensures PrintOperand(n).Some? <==> n.Type() != Void
    ensures PrintOperand(n).Some? ==>
              var p := PrintOperand(n).value; WellTyped(p) && p.Type() == Int && Erase(p) == Erase(n)
    ensures AssignOperand(n, variable).Some? <==> n.Type() == Char || (n.Type() == Int && variable == Int)
    ensures AssignOperand(n, variable).Some? ==>
              var a := AssignOperand(n, variable).value; WellTyped(a) && a.Type() == variable && Erase(a) == Erase(n)
  {
  }

  // ---------- type_compatible as it runs ----------

  class Cell {
    var v: TypeOrWiden
    constructor (v: TypeOrWiden)
      ensures this.v == v
    {
      this.v := v;
    }
  }

  /** What the two variables hold: a type before the call, zero or A_WIDEN after it. */
  datatype TypeOrWiden = AType(t: PType) | Zero | AWiden

  method TypeCompatibleInPlace(left: Cell, right: Cell, onlyRight: bool) returns (ok: bool)
    requires left != right && left.v.AType? && right.v.AType?
    modifies left, right
    ensures var w := TypeCompatible(old(left.v.t), old(right.v.t), onlyRight);
            && ok == w.Some?
            && (ok ==> left.v == (if w.value.left then AWiden else Zero)
                       && right.v == (if w.value.right then AWiden else Zero))
            && (!ok ==> left.v == old(left.v) && right.v == old(right.v))
  {
    if left.v.t == Void || right.v.t == Void {
      return false;
    }
    if left.v.t == right.v.t {
      left.v, right.v := Zero, Zero;
      return true;
    }
    if left.v.t == Char && right.v.t == Int {
      left.v := AWiden;
      right.v := Zero;
      return true;
    }
    if left.v.t == Int && right.v.t == Char {
      if onlyRight {
        return false;
      }
      left.v := Zero;
      right.v := AWiden;
      return true;
    }
    left.v, right.v := Zero, Zero;
    return true;
  }
}
