/** The compiled program and the tree behave alike: they end, trap or run forever together,
    with the same variables and the same output, and the machine never gets stuck. */
module Behaviour {
  import opened Wrappers
  import opened Ast
  import opened Semantics
  import opened Machine
  import opened CodeGen
  import opened Labels
  import opened ExpressionCode
  import opened StatementCode

  /** After `n` steps from the start the machine is in state `m`. */
  ghost predicate At(code: seq<Instr>, w: World, n: nat, m: Mach) {
    Steps(code, Start(w), n) == Some(m)
  }

  /** After `n` steps the machine can make no further step, for the reason `why`. */
  ghost predicate StopsAt(code: seq<Instr>, w: World, n: nat, m: Mach, why: Outcome) {
    At(code, w, n, m) && Step(code, m) == why && !why.Next?
  }

  lemma StopsOnce(code: seq<Instr>, w: World, n1: nat, m1: Mach, n2: nat)
    requires At(code, w, n1, m1) && !Step(code, m1).Next?
    ensures n2 > n1 ==> Steps(code, Start(w), n2) == None
  {
    if n2 > n1 {
      StepsAdd(code, Start(w), n1, n2 - n1);
    }
  }

  lemma Earlier(code: seq<Instr>, w: World, n1: nat, n2: nat)
    requires n1 <= n2 && Steps(code, Start(w), n2).Some?
    ensures Steps(code, Start(w), n1).Some?
    ensures n1 < n2 ==> Step(code, Steps(code, Start(w), n1).value).Next?
  {
    StepsAdd(code, Start(w), n1, n2 - n1);
  }

  lemma {:induction false} OutputGrows(code: seq<Instr>, m: Mach, n: nat)
    requires Steps(code, m, n).Some?
    ensures m.w.out <= Steps(code, m, n).value.w.out
    decreases n
  {
    if n > 0 {
      OutputGrows(code, Step(code, m).m, n - 1);
    }
  }

  /** Every run of the tree, however far it gets, is matched by the machine. */
  lemma Simulation(gsym: seq<string>, s: Stmt, w: World, k: nat) returns (n: nat, m: Mach)
    requires GenProgram(gsym, s).Some?
    ensures At(GenProgram(gsym, s).value, w, n, m)
    ensures m.w == Exec(gsym, s, w, k).w
    ensures match Exec(gsym, s, w, k)
            case Done(_) => Step(GenProgram(gsym, s).value, m) == Halted
            case Trap(_) => Step(GenProgram(gsym, s).value, m) == Fault
            case Timeout(_) => n >= k
  {
    var code := GenProgram(gsym, s).value;
    var _ := ProgramLabels(gsym, s);
    assert CodeAt(code, 0, code);
    n, m := StatementRuns(gsym, s, ALL_FREE, FIRST_LABEL, code, Start(w), k);
  }

  /** Conversely, where the machine is after `n` steps is settled by running the tree with
      loop bound `n + 1`: it is not stuck, its output so far is a prefix of the tree's, and
      if it stopped, so did the tree. */
  lemma EveryStep(gsym: seq<string>, s: Stmt, w: World, n: nat, m: Mach)
    requires GenProgram(gsym, s).Some? && At(GenProgram(gsym, s).value, w, n, m)
    ensures var r := Exec(gsym, s, w, n + 1);
            && m.w.out <= r.w.out
            && match Step(GenProgram(gsym, s).value, m)
               case Next(_) => true
               case Halted => r == Done(m.w)
               case Fault => r == Trap(m.w)
               case Stuck => false
  {
    hide Exec, Step, Steps, GenProgram;
    var code := GenProgram(gsym, s).value;
    var n1, m1 := Simulation(gsym, s, w, n + 1);
    if n1 < n {
      StopsOnce(code, w, n1, m1, n);
      assert false;
    }
    Earlier(code, w, n, n1);
    StepsAdd(code, Start(w), n, n1 - n);
    OutputGrows(code, m, n1 - n);
  }

  /** Given enough iterations, the tree's run from `w` has result `r`. */
  ghost predicate TreeReaches(gsym: seq<string>, s: Stmt, w: World, r: Result) {
    exists k: nat :: Exec(gsym, s, w, k) == r
  }

  /** At some point the machine stops, for the reason `why`, with variables and output `w'`. */
  ghost predicate MachineStops(code: seq<Instr>, w: World, why: Outcome, w': World) {
    exists n: nat, m :: StopsAt(code, w, n, m, why) && m.w == w'
  }

  /** The program ends with the variables and output of `w'` exactly if the tree does. */
  lemma TerminatesAlike(gsym: seq<string>, s: Stmt, w: World, w': World)
    requires GenProgram(gsym, s).Some?
    ensures TreeReaches(gsym, s, w, Done(w')) <==> MachineStops(GenProgram(gsym, s).value, w, Halted, w')
  {
    hide Step, Steps, GenProgram;
    var code := GenProgram(gsym, s).value;
    if TreeReaches(gsym, s, w, Done(w')) {
      var k: nat :| Exec(gsym, s, w, k) == Done(w');
      var n, m := Simulation(gsym, s, w, k);
      assert StopsAt(code, w, n, m, Halted);
    }
    if MachineStops(code, w, Halted, w') {
      var n: nat, m :| StopsAt(code, w, n, m, Halted) && m.w == w';
      EveryStep(gsym, s, w, n, m);
      assert Exec(gsym, s, w, n + 1) == Done(w');
    }
  }

  /** The program traps exactly if the tree does, with the same variables and output so far. */
  lemma TrapsAlike(gsym: seq<string>, s: Stmt, w: World, w': World)
    requires GenProgram(gsym, s).Some?
    ensures TreeReaches(gsym, s, w, Trap(w')) <==> MachineStops(GenProgram(gsym, s).value, w, Fault, w')
  {
    hide Step, Steps, GenProgram;
    var code := GenProgram(gsym, s).value;
    if TreeReaches(gsym, s, w, Trap(w')) {
      var k: nat :| Exec(gsym, s, w, k) == Trap(w');
      var n, m := Simulation(gsym, s, w, k);
      assert StopsAt(code, w, n, m, Fault);
    }
    if MachineStops(code, w, Fault, w') {
      var n: nat, m :| StopsAt(code, w, n, m, Fault) && m.w == w';
      EveryStep(gsym, s, w, n, m);
      assert Exec(gsym, s, w, n + 1) == Trap(w');
    }
  }

  ghost predicate TreeRunsForever(gsym: seq<string>, s: Stmt, w: World) {
    forall k: nat :: Exec(gsym, s, w, k).Timeout?
  }

  ghost predicate MachineRunsForever(code: seq<Instr>, w: World) {
    forall n: nat :: Steps(code, Start(w), n).Some?
  }

  /** The program runs forever exactly if the tree does. */
  lemma DivergesAlike(gsym: seq<string>, s: Stmt, w: World)
    requires GenProgram(gsym, s).Some?
    ensures TreeRunsForever(gsym, s, w) <==> MachineRunsForever(GenProgram(gsym, s).value, w)
  {
    var code := GenProgram(gsym, s).value;
    if TreeRunsForever(gsym, s, w) {
      forall n: nat
        ensures Steps(code, Start(w), n).Some?
      {
        var n1, _ := Simulation(gsym, s, w, n);
        Earlier(code, w, n, n1);
      }
    }
    if MachineRunsForever(code, w) {
      forall k: nat
        ensures Exec(gsym, s, w, k).Timeout?
      {
        var n1, m1 := Simulation(gsym, s, w, k);
        assert Steps(code, Start(w), n1 + 1).Some?;
        Earlier(code, w, n1, n1 + 1);
      }
    }
  }
}
