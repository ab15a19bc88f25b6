/** The compiler from tokens to machine code, as one theorem about programs. */
module Compiler {
  import opened Wrappers
  import opened Ast
  import opened Semantics
  import opened Machine
  import opened CodeGen
  import opened Registers
  import opened Behaviour
  import opened Tokens
  import opened SourceLanguage
  import opened StatementParser
  import opened StatementSpelling
  import opened ParserSoundness
  import opened Desugaring
  import opened Scoping
  import Lexis
  import Scanner
  import CodeGenerator
  import StatementReader

  /** `main`: parse one block, with no names declared yet, and generate code for its tree. */
  function Compile(ts: seq<Token>): Option<seq<Instr>> {
    var b :- ParseBody([], ts);
    GenProgram(b.gsym, b.tree)
  }

  ghost predicate SourceReaches(p: seq<Source>, w: World, r: Result) {
    exists k: nat :: ExecBlock(p, w, k) == r
  }

  ghost predicate SourceRunsForever(p: seq<Source>, w: World) {
    forall k: nat :: ExecBlock(p, w, k).Timeout?
  }

  /** From `w`, program and code end alike, trap alike and run on alike; at every moment the code
      is not stuck and has printed a prefix of what the program prints, and what the program
      prints and stores is at some moment what the code has printed and stored. */
  ghost predicate BehaveAlike(p: seq<Source>, code: seq<Instr>, w: World) {
    && (forall w' :: SourceReaches(p, w, Done(w')) <==> MachineStops(code, w, Halted, w'))
    && (forall w' :: SourceReaches(p, w, Trap(w')) <==> MachineStops(code, w, Fault, w'))
    && (SourceRunsForever(p, w) <==> MachineRunsForever(code, w))
    && (forall n: nat, m :: At(code, w, n, m) ==>
                              !Step(code, m).Stuck? && m.w.out <= ExecBlock(p, w, n + 1).w.out)
    && (forall k: nat :: MachinePasses(code, w, ExecBlock(p, w, k).w))
  }

  ghost predicate MachinePasses(code: seq<Instr>, w: World, w': World) {
    exists n: nat, m :: At(code, w, n, m) && m.w == w'
  }

  /** Whatever compiles is the text of a program in order, and the code does what that program does. */
  lemma CompilerCorrect(ts: seq<Token>, w: World) returns (p: seq<Source>, rest: seq<Token>)
    requires Compile(ts).Some?
    ensures SpellsBlock(ts, p, rest) && InOrder(p) && BehaveAlike(p, Compile(ts).value, w)
  {
    hide LowerBody, ParseBody, BehaveAlike, InOrder, GenStmt;
    var b := ParseBody([], ts).value;
    p := BodySound([], ts);
    rest := b.rest;
    BodyRoundTrip([], p, rest);
    forall k: nat
      ensures ExecBlock(p, w, k) == Exec(b.gsym, b.tree, w, k)
    {
      BodyMeaning([], p, b.gsym, w, k);
    }
    AlikeThroughTree(p, b.gsym, b.tree, w);
    StatementRegisters(b.gsym, b.tree, FIRST_LABEL);
    InOrderIff(p);
  }

  lemma AlikeThroughTree(p: seq<Source>, gsym: seq<string>, d: Stmt, w: World)
    requires GenProgram(gsym, d).Some?
    requires forall k: nat :: ExecBlock(p, w, k) == Exec(gsym, d, w, k)
    ensures BehaveAlike(p, GenProgram(gsym, d).value, w)
  {
    var code := GenProgram(gsym, d).value;
    forall w'
      ensures SourceReaches(p, w, Done(w')) <==> MachineStops(code, w, Halted, w')
    {
      SameResults(p, gsym, d, w, Done(w'));
      TerminatesAlike(gsym, d, w, w');
    }
    forall w'
      ensures SourceReaches(p, w, Trap(w')) <==> MachineStops(code, w, Fault, w')
    {
      SameResults(p, gsym, d, w, Trap(w'));
      TrapsAlike(gsym, d, w, w');
    }
    forall n: nat, m | At(code, w, n, m)
      ensures !Step(code, m).Stuck? && m.w.out <= ExecBlock(p, w, n + 1).w.out
    {
      EveryStep(gsym, d, w, n, m);
    }
    forall k: nat
      ensures MachinePasses(code, w, ExecBlock(p, w, k).w)
    {
      var n, m := Simulation(gsym, d, w, k);
      assert At(code, w, n, m) && m.w == ExecBlock(p, w, k).w;
    }
    DivergesAlike(gsym, d, w);
    assert SourceRunsForever(p, w) <==> TreeRunsForever(gsym, d, w);
  }

  lemma SameResults(p: seq<Source>, gsym: seq<string>, d: Stmt, w: World, r: Result)
    requires forall k: nat :: ExecBlock(p, w, k) == Exec(gsym, d, w, k)
    ensures SourceReaches(p, w, r) <==> TreeReaches(gsym, d, w, r)
  {
    if SourceReaches(p, w, r) {
      var k: nat :| ExecBlock(p, w, k) == r;
      assert Exec(gsym, d, w, k) == r;
    }
    if TreeReaches(gsym, d, w, r) {
      var k: nat :| Exec(gsym, d, w, k) == r;
      assert ExecBlock(p, w, k) == r;
    }
  }

  // ---------- What compiles ----------

  /** Tokens that begin with the spelling of a program in order compile, to code that does what
      the program does, whatever follows. */
  lemma TokensCompile(p: seq<Source>, rest: seq<Token>, w: World)
    requires WritableBlock(p) && InOrder(p)
    ensures var ts := BlockTokens(p) + rest;
            Compile(ts).Some? && BehaveAlike(p, Compile(ts).value, w)
  {
    hide BlockTokens, LowerBody, ParseBody, BehaveAlike, InOrder, GenStmt;
    var ts := BlockTokens(p) + rest;
    InOrderIff(p);
    BodyRoundTrip([], p, rest);
    var b := ParseBody([], ts).value;
    StatementRegisters(b.gsym, b.tree, FIRST_LABEL);
    forall k: nat
      ensures ExecBlock(p, w, k) == Exec(b.gsym, b.tree, w, k)
    {
      BodyMeaning([], p, b.gsym, w, k);
    }
    AlikeThroughTree(p, b.gsym, b.tree, w);
  }

  /** What compiles, said of the program alone. */
  lemma CompilesIff(ts: seq<Token>)
    ensures Compile(ts).Some? <==> exists p, rest :: SpellsBlock(ts, p, rest) && InOrder(p)
  {
    hide Compile, BehaveAlike, InOrder, SpellsBlock;
    var w := World(map[], []);
    if Compile(ts).Some? {
      var p, rest := CompilerCorrect(ts, w);
      assert SpellsBlock(ts, p, rest) && InOrder(p);
    }
    forall p, rest | SpellsBlock(ts, p, rest) && InOrder(p)
      ensures Compile(ts).Some?
    {
      SpelledCompiles(ts, p, rest, w);
    }
  }

  lemma SpelledCompiles(ts: seq<Token>, p: seq<Source>, rest: seq<Token>, w: World)
    requires SpellsBlock(ts, p, rest) && InOrder(p)
    ensures Compile(ts).Some? && BehaveAlike(p, Compile(ts).value, w)
  {
    hide Compile, BehaveAlike, InOrder;
    TokensCompile(p, rest, w);
  }

  // ---------- From characters to behaviour ----------

  function CompileText(text: string): Option<seq<Instr>> {
    var ts :- Lexis.ScanAll(text);
    Compile(ts)
  }

  /** `text` begins with a legible spelling of `p`, and goes on with the spelling of any tokens. */
  ghost predicate TextOf(text: string, p: seq<Source>) {
    exists ps, tail, rest :: Lexis.LegibleText(text, ps, tail) && SpellsBlock(Lexis.TokensOf(ps), p, rest)
  }

  /** A program in order, spelled with any legible spacing, is scanned, parsed and compiled to
      code that does what it says. */
  lemma TextCompiles(text: string, p: seq<Source>, w: World)
    requires TextOf(text, p) && InOrder(p)
    ensures CompileText(text).Some? && BehaveAlike(p, CompileText(text).value, w)
  {
    hide Compile, BehaveAlike, InOrder, SpellsBlock;
    var ps, tail, rest :| Lexis.LegibleText(text, ps, tail) && SpellsBlock(Lexis.TokensOf(ps), p, rest);
    Lexis.TextRoundTrip(ps, tail);
    SpelledCompiles(Lexis.TokensOf(ps), p, rest, w);
  }

  /** Conversely whatever characters compile are the text of a program in order, and the code
      does what that program does. */
  lemma TextCorrect(text: string, w: World) returns (p: seq<Source>)
    requires '\0' !in text && CompileText(text).Some?
    ensures TextOf(text, p) && InOrder(p) && BehaveAlike(p, CompileText(text).value, w)
  {
    hide Compile, BehaveAlike, InOrder, SpellsBlock;
    var ps, tail := Lexis.TextReads(text);
    var rest;
    p, rest := CompilerCorrect(Lexis.TokensOf(ps), w);
    assert Lexis.LegibleText(text, ps, tail) && SpellsBlock(Lexis.TokensOf(ps), p, rest);
  }

  /** The compiler as it runs: the statement parser on the tokens, then the generator on its tree. */
  method CompileTokens(ts: seq<Token>) returns (code: Option<seq<Instr>>)
    ensures code == Compile(ts)
  {
    var reader := new StatementReader.Reader(ts);
    assert reader.Unread() == ts;
    var tree := reader.Body();
    if tree.None? {
      return None;
    }
    code := CodeGenerator.Compile(reader.table.names[..reader.table.globs], tree.value);
  }

  /** All of it: the scanner on a file, then the parser and the generator. */
  method CompileFile(infile: string) returns (code: Option<seq<Instr>>)
    ensures code == CompileText(infile)
  {
    var ts, line := Scanner.ScanFile(infile);
    code := None;
    if ts.Some? {
      code := CompileTokens(ts.value);
    }
  }
}
