/** On ARM, variables and large literals are reached through two tables of words that are
    written after all code. Offsets into the tables are emitted before the tables are complete. */
module ArmTables {
  import opened Wrappers
  import opened Words
  import opened Pools

  const MAXINTS: nat := 1024
  const NSYMBOLS: nat := 1024

  datatype Symbol = Symbol(name: string, isVariable: bool)

  /** An emitted `ldr r3, .L3+offset` or `ldr r3, .L2+offset`, and what it is meant to reach. */
  datatype Ref = LiteralRef(offset: nat, value: Int32) | VariableRef(offset: nat, id: nat)

  /** Gsym, Intlist, and the references emitted so far. */
  datatype State = State(gsym: seq<Symbol>, ints: seq<Int32>, refs: seq<Ref>)

  /** What the rest of the compiler asks for while it generates code. */
  datatype Request = AddSymbol(name: string, isVariable: bool) | LoadInt(value: Int32) | UseVariable(id: nat)

  // ---------- Tables ----------

  /** The names of the variables, in slot order: the words of table .L2. */
  function Variables(gsym: seq<Symbol>): seq<string> {
    if gsym == [] then []
    else Variables(gsym[..|gsym| - 1])
         + if gsym[|gsym| - 1].isVariable then [gsym[|gsym| - 1].name] else []
  }

  /** `set_int_offset`: the offset, and the literals after it. */
  function SetIntOffset(ints: seq<Int32>, v: Int32): Option<(nat, seq<Int32>)> {
    var after :- Add(ints, v, MAXINTS);
    Some((4 * IndexOf(after, v).value, after))
  }

  function SetVarOffset(gsym: seq<Symbol>, id: nat): nat
    requires id <= |gsym|
  {
    4 * |Variables(gsym[..id])|
  }

  predicate Declared(gsym: seq<Symbol>, name: string) {
    exists i :: 0 <= i < |gsym| && gsym[i].name == name
  }

  function Serve(st: State, q: Request): Option<State> {
    match q
    case AddSymbol(x, isVar) =>
      if Declared(st.gsym, x) then Some(st)
      else if |st.gsym| >= NSYMBOLS then None
      else Some(st.(gsym := st.gsym + [Symbol(x, isVar)]))
    case LoadInt(v) =>
      if v <= 1000 then Some(st)  // a move with an immediate operand
      else
        var (offset, ints) :- SetIntOffset(st.ints, v);
        Some(st.(ints := ints, refs := st.refs + [LiteralRef(offset, v)]))
    case UseVariable(id) =>
      if id >= |st.gsym| then None
      else Some(st.(refs := st.refs + [VariableRef(SetVarOffset(st.gsym, id), id)]))
  }

  function Run(st: State, qs: seq<Request>): Option<State>
    decreases |qs|
  {
    if qs == [] then Some(st)
    else
      var st1 :- Serve(st, qs[0]);
      Run(st1, qs[1..])
  }

  // ---------- Every reference reaches its word ----------

  /** In the tables of `st`, the word at the offset is the one that was meant. */
  ghost predicate Reaches(st: State, ref: Ref) {
    match ref
    case LiteralRef(o, v) => o % 4 == 0 && o / 4 < |st.ints| && st.ints[o / 4] == v
    case VariableRef(o, id) =>
      id < |st.gsym| && (st.gsym[id].isVariable ==>
        var words := Variables(st.gsym); o % 4 == 0 && o / 4 < |words| && words[o / 4] == st.gsym[id].name)
  }

  ghost predicate Good(st: State) {
    && (forall ref :: ref in st.refs ==> Reaches(st, ref))
    && Distinct(st.ints) && |st.ints| <= MAXINTS
  }

  lemma {:induction false} VariablesGrow(gsym: seq<Symbol>, n: nat)
    requires n <= |gsym|
    ensures Variables(gsym[..n]) <= Variables(gsym)
    decreases |gsym|
  {
    if n < |gsym| {
      VariablesGrow(gsym[..|gsym| - 1], n);
      assert gsym[..|gsym| - 1][..n] == gsym[..n];
    } else {
      assert gsym[..n] == gsym;
    }
  }

  /** The word of a variable comes after those of the variables in earlier slots. */
  lemma VariableWord(gsym: seq<Symbol>, id: nat)
    requires id < |gsym| && gsym[id].isVariable
    ensures var words := Variables(gsym); var n := |Variables(gsym[..id])|;
            n < |words| && words[n] == gsym[id].name
  {
    VariablesGrow(gsym, id + 1);
    assert gsym[..id + 1][..id] == gsym[..id];
  }

  /** References stay right when the tables grow. */
  lemma StillReaches(st: State, later: State, ref: Ref)
    requires Reaches(st, ref) && st.gsym <= later.gsym && st.ints <= later.ints
    ensures Reaches(later, ref)
  {
    VariablesGrow(later.gsym, |st.gsym|);
    assert later.gsym[..|st.gsym|] == st.gsym;
  }

  lemma ServeKeepsGood(st: State, q: Request)
    requires Good(st) && Serve(st, q).Some?
    ensures var st1 := Serve(st, q).value;
            Good(st1) && st.gsym <= st1.gsym && st.ints <= st1.ints && st.refs <= st1.refs
  {
    hide IndexOf, Add, Distinct, Variables;
    var st1 := Serve(st, q).value;
    if q.LoadInt? {
      AddDistinct(st.ints, q.value, MAXINTS);
    }
    forall ref | ref in st1.refs
      ensures Reaches(st1, ref)
    {
      if ref in st.refs {
        StillReaches(st, st1, ref);
      } else if q.UseVariable? {
        if st.gsym[q.id].isVariable {
          VariableWord(st.gsym, q.id);
        }
      } else {
        WordOffset(IndexOf(st1.ints, q.value).value);
      }
    }
  }

  lemma WordOffset(i: nat)
    ensures 4 * i % 4 == 0 && 4 * i / 4 == i
  {
  }

  /** Over a whole run, from any good state: every reference emitted on the way reaches its word
      in the final tables, and the pool of literals has no duplicates and never overflows. */
  lemma {:induction false} ReferencesStayRight(st: State, qs: seq<Request>)
    requires Good(st) && Run(st, qs).Some?
    ensures var st1 := Run(st, qs).value; Good(st1) && st.refs <= st1.refs && st.gsym <= st1.gsym && st.ints <= st1.ints
    decreases |qs|
  {
    if qs != [] {
      ServeKeepsGood(st, qs[0]);
      ReferencesStayRight(Serve(st, qs[0]).value, qs[1..]);
    }
  }

  function LargeLiterals(qs: seq<Request>): seq<Int32> {
    if qs == [] then []
    else (if qs[0].LoadInt? && qs[0].value > 1000 then [qs[0].value] else []) + LargeLiterals(qs[1..])
  }

  /** Literals are pooled as they come: loading some fails exactly if they bring more than 1024
      different large ones into the pool. */
  lemma LiteralsFit(st: State, qs: seq<Request>)
    requires Good(st) && forall q :: q in qs ==> q.LoadInt?
    ensures Run(st, qs).Some? <==> |Elements(st.ints) + Elements(LargeLiterals(qs))| <= 1024
  {
    PooledAsTheyCome(st, qs);
    RunOfAdds(st.ints, LargeLiterals(qs), MAXINTS);
  }

  lemma {:induction false} PooledAsTheyCome(st: State, qs: seq<Request>)
    requires forall q :: q in qs ==> q.LoadInt?
    ensures Run(st, qs).Some? <==> AddAll(st.ints, LargeLiterals(qs), MAXINTS).Some?
    ensures Run(st, qs).Some? ==> Some(Run(st, qs).value.ints) == AddAll(st.ints, LargeLiterals(qs), MAXINTS)
    decreases |qs|
  {
    if qs != [] {
      var v := qs[0].value;
      var st1 := Serve(st, qs[0]);
      if v > 1000 {
        assert LargeLiterals(qs)[1..] == LargeLiterals(qs[1..]);
      } else {
        assert LargeLiterals(qs) == LargeLiterals(qs[1..]);
      }
      if st1.Some? {
        PooledAsTheyCome(st1.value, qs[1..]);
      }
    }
  }

  // ---------- Symbols ----------

  function Names(gsym: seq<Symbol>): seq<string> {
    seq(|gsym|, i requires 0 <= i < |gsym| => gsym[i].name)
  }

  /** The first request that adds the name of `sym` makes it what it is. */
  ghost predicate FirstAdded(qs: seq<Request>, sym: Symbol) {
    exists j :: 0 <= j < |qs| && qs[j] == AddSymbol(sym.name, sym.isVariable) && NotAdded(qs[..j], sym.name)
  }

  ghost predicate NotAdded(qs: seq<Request>, name: string) {
    forall q :: q in qs && q.AddSymbol? ==> q.name != name
  }

  lemma NamesAdd(st: State, x: string, isVar: bool)
    ensures var r := Serve(st, AddSymbol(x, isVar));
            && (r.None? <==> Add(Names(st.gsym), x, 1024).None?)
            && (r.Some? ==> Some(Names(r.value.gsym)) == Add(Names(st.gsym), x, 1024))
  {
    assert Declared(st.gsym, x) <==> x in Names(st.gsym) by {
      if Declared(st.gsym, x) {
        var i :| 0 <= i < |st.gsym| && st.gsym[i].name == x;
        assert Names(st.gsym)[i] == x;
      }
    }
    assert Names(st.gsym + [Symbol(x, isVar)]) == Names(st.gsym) + [x];
  }

  /** Over any run, symbols keep their slots; the new ones have different names, and each is a
      variable or not as the first request for its name says; and every name asked for is there. */
  lemma {:induction false} SymbolsAsAdded(st: State, qs: seq<Request>)
    requires Distinct(Names(st.gsym)) && |st.gsym| <= 1024 && Run(st, qs).Some?
    ensures var g := Run(st, qs).value.gsym;
            && st.gsym <= g && Distinct(Names(g)) && |g| <= 1024
            && (forall i :: |st.gsym| <= i < |g| ==> FirstAdded(qs, g[i]))
            && (forall q :: q in qs && q.AddSymbol? ==> q.name in Names(g))
    decreases |qs|
  {
    hide Variables, SetIntOffset, Declared;
    if qs != [] {
      var q := qs[0];
      var st1 := Serve(st, q).value;
      if q.AddSymbol? {
        NamesAdd(st, q.name, q.isVariable);
        AddDistinct(Names(st.gsym), q.name, 1024);
      }
      SymbolsAsAdded(st1, qs[1..]);
      var g := Run(st, qs).value.gsym;
      assert qs == [q] + qs[1..];
      assert Names(st1.gsym) == Names(g)[..|st1.gsym|];
      forall i | |st.gsym| <= i < |g|
        ensures FirstAdded(qs, g[i])
      {
        if i < |st1.gsym| {
          assert qs[0] == AddSymbol(g[i].name, g[i].isVariable) && NotAdded(qs[..0], g[i].name);
        } else {
          AddedLater(st1.gsym, g, q, qs[1..], i);
        }
      }
    }
  }

  lemma AddedLater(gsym: seq<Symbol>, g: seq<Symbol>, q: Request, qs: seq<Request>, i: nat)
    requires gsym <= g && |gsym| <= i < |g| && Distinct(Names(g)) && FirstAdded(qs, g[i])
    requires q.AddSymbol? ==> q.name in Names(gsym)
    ensures FirstAdded([q] + qs, g[i])
  {
    var sym := g[i];
    var j :| 0 <= j < |qs| && qs[j] == AddSymbol(sym.name, sym.isVariable) && NotAdded(qs[..j], sym.name);
    assert ([q] + qs)[..j + 1] == [q] + qs[..j];
    if q.AddSymbol? {
      var k :| 0 <= k < |gsym| && Names(gsym)[k] == q.name;
      assert Names(g)[k] == q.name && Names(g)[i] == sym.name;
    }
    assert ([q] + qs)[j + 1] == qs[j];
  }

  function AddedNames(qs: seq<Request>): seq<string> {
    if qs == [] then []
    else (if qs[0].AddSymbol? then [qs[0].name] else []) + AddedNames(qs[1..])
  }

  /** Adding symbols fails exactly if more than 1024 names are different. */
  lemma SymbolsFit(st: State, qs: seq<Request>)
    requires Distinct(Names(st.gsym)) && |st.gsym| <= 1024 && forall q :: q in qs ==> q.AddSymbol?
    ensures Run(st, qs).Some? <==> |Elements(Names(st.gsym)) + Elements(AddedNames(qs))| <= 1024
  {
    NamesAsTheyCome(st, qs);
    RunOfAdds(Names(st.gsym), AddedNames(qs), 1024);
  }

  lemma {:induction false} NamesAsTheyCome(st: State, qs: seq<Request>)
    requires forall q :: q in qs ==> q.AddSymbol?
    ensures Run(st, qs).Some? <==> AddAll(Names(st.gsym), AddedNames(qs), 1024).Some?
    decreases |qs|
  {
    hide Serve;
    if qs != [] {
      NamesAdd(st, qs[0].name, qs[0].isVariable);
      assert AddedNames(qs)[0] == qs[0].name && AddedNames(qs)[1..] == AddedNames(qs[1..]);
      var st1 := Serve(st, qs[0]);
      if st1.Some? {
        NamesAsTheyCome(st1.value, qs[1..]);
      }
    }
  }

  // ---------- Literals in the pool ----------

  lemma KnownLiteral(ints: seq<Int32>, v: Int32, i: nat)
    requires i < |ints| && ints[i] == v && v !in ints[..i]
    ensures SetIntOffset(ints, v) == Some((4 * i, ints))
  {
    FirstIndex(ints, v, i);
  }

  lemma NewLiteral(ints: seq<Int32>, v: Int32)
    requires v !in ints
    ensures SetIntOffset(ints, v) == if |ints| >= MAXINTS then None else Some((4 * |ints|, ints + [v]))
  {
    FirstIndex(ints + [v], v, |ints|);
  }

  // ---------- The tables as they are kept and written ----------

  class Generator {
    const intlist: array<Int32>
    var intslot: nat
    var gsym: seq<Symbol>
    var refs: seq<Ref>

    constructor ()
      ensures Valid() && fresh(intlist) && View() == State([], [], [])
    {
      intlist := new Int32[MAXINTS](i => 0);
      intslot, gsym, refs := 0, [], [];
    }

    ghost predicate Valid()
      reads this
    {
      intlist.Length == MAXINTS && intslot <= MAXINTS
    }

    ghost function View(): State
      requires Valid()
      reads this, intlist
    {
      State(gsym, intlist[..intslot], refs)
    }

    /** `addglob`: the slot of the symbol, which is the next one if its name is new. */
    method AddGlob(name: string, isVariable: bool) returns (slot: Option<nat>)
      requires Valid()
      modifies this`gsym
      ensures Valid() && slot.Some? == Serve(old(View()), AddSymbol(name, isVariable)).Some?
      ensures slot.Some? ==>
                && View() == Serve(old(View()), AddSymbol(name, isVariable)).value
                && slot.value < |gsym| && gsym[slot.value].name == name
    {
      var i := 0;
      while i < |gsym|
        invariant 0 <= i <= |gsym| && gsym == old(gsym)
        invariant forall j :: 0 <= j < i ==> gsym[j].name != name
      {
        if gsym[i].name == name {
          return Some(i);
        }
        i := i + 1;
      }
      if |gsym| >= NSYMBOLS {
        return None;
      }
      slot := Some(|gsym|);
      gsym := gsym + [Symbol(name, isVariable)];
    }

    /** `set_int_offset`. */
    method LoadOffset(val: Int32) returns (ok: bool)
      requires Valid() && val > 1000
      modifies this`intslot, this`refs, intlist
      ensures Valid() && ok == Serve(old(View()), LoadInt(val)).Some?
      ensures ok ==> View() == Serve(old(View()), LoadInt(val)).value
    {
      hide SetIntOffset;
      ghost var ints := intlist[..intslot];
      var offset: int := -1;
      var i := 0;
      while i < intslot
        invariant 0 <= i <= intslot && offset == -1 && val !in intlist[..i]
        invariant View() == old(View())
      {
        if intlist[i] == val {
          KnownLiteral(ints, val, i);
          offset := 4 * i;
          break;
        }
        i := i + 1;
      }
      if offset == -1 {
        NewLiteral(ints, val);
        offset := 4 * intslot;
        if intslot == MAXINTS {
          return false;
        }
        intlist[intslot] := val;
        intslot := intslot + 1;
        assert intlist[..intslot] == ints + [val];
      }
      refs := refs + [LiteralRef(offset, val)];
      return true;
    }

    /** `set_var_offset`. */
    method VariableOffset(id: nat) returns (offset: nat)
      requires Valid() && id < |gsym|
      modifies this`refs
      ensures Valid() && Serve(old(View()), UseVariable(id)) == Some(View())
      ensures offset == SetVarOffset(gsym, id)
    {
      offset := 0;
      var i := 0;
      while i < id
        invariant 0 <= i <= id && offset == SetVarOffset(gsym, i)
      {
        assert gsym[..i + 1][..i] == gsym[..i];
        if gsym[i].isVariable {
          offset := offset + 4;
        }
        i := i + 1;
      }
      refs := refs + [VariableRef(offset, id)];
    }

    /** `cgpostamble`: the two tables, word by word. */
    method Postamble() returns (variables: seq<string>, literals: seq<Int32>)
      requires Valid()
      ensures variables == Variables(View().gsym) && literals == View().ints
    {
      variables, literals := [], [];
      var i := 0;
      while i < |gsym|
        invariant 0 <= i <= |gsym| && variables == Variables(gsym[..i])
      {
        assert gsym[..i + 1][..i] == gsym[..i];
        if gsym[i].isVariable {
          variables := variables + [gsym[i].name];
        }
        i := i + 1;
      }
      assert gsym[..i] == gsym;
      i := 0;
      while i < intslot
        invariant 0 <= i <= intslot && literals == intlist[..i]
      {
        literals := literals + [intlist[i]];
        i := i + 1;
      }
    }
  }
}
