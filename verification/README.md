# A verified model of the acwj compiler

`acwj` builds a compiler for a small C-like language in numbered stages. This project models
stage 10 (`acwj/10_For_Loops`) from the characters of a source file to the x86-64 instructions
that it emits, and the parts of stages 3, 4, 12, 14 and 18 that add an idea of their own, and
proves what they promise. `dafny verify dfyconfig.toml` checks everything.

## What is proved

**Compiler correctness (stage 10).** The emitted code is run by a small-step machine: program
counter, registers that hold a value only once written and not across a call, the zero, sign and
overflow flags of the last `cmpq`, 128-bit dividends, named 64-bit variables, and `printint`,
which prints the low 32 bits. For every program that compiles, code and program end alike, trap
alike and run forever alike, with the same variables and output; at every step the code has
printed a prefix of what the program prints, and it never executes an instruction whose operands
are undefined (`Compiler.CompilerCorrect`, `Behaviour`). `Compiler.TextCorrect` and `TextCompiles`
start from characters: the texts that compile are those that begin with a legible spelling of a
program in order, which `Scoping.InOrder` defines on the source program alone: names declared before
they are used, comparisons as conditions, bodies that do something, at most 1024 names, and at most
4 registers needed. Programs are run with a bound on the
iterations of each loop; the statements quantify over all bounds, and `Semantics.MoreIterations`
shows that results do not depend on them.

**Registers.** Generating an expression with `h` registers held succeeds if and only if
`h + Need(e) <= 4`; the operator table bounds `Need` by 5 in stage 10 and by 3 in stage 4. So
stage 4 never runs out of registers, and stage 10 does so exactly on the expressions that need
five, such as `a + b * c == d < e`.

**Parsing.** The precedence loop `binexpr`, which the stages repeat with their own tables, is
modelled once, over a table, with an arbitrary action for each operator. It accepts exactly the
flattenings of the trees in which each operator's children bind as its table says, and returns
that tree; building while parsing equals building after parsing. Stage 3's table-driven and
recursive-descent parsers agree on every token sequence. The statement parser accepts exactly the
spellings of source programs and returns their desugared trees, which mean the same.

**Companions.** Stage 4's interpreter and generated code print the same number, and agree modulo
2^32 beyond the range of int as long as no division sees a value out of that range; stage 12's
widening is the only well-typed elaboration of the untyped parse; stage 18's assignments group to
the right; the ARM table offsets stay right as the tables grow; the scanner accepts exactly the
legible spellings and counts lines once; the symbol table is an injection that fails only when full.

## How it is laid out

Functions state what each part computes (`PrecedenceParser`, `StatementParser`, `CodeGen`,
`Lexis`, and `Pools`, which the symbol table and the ARM literal pool share); lemmas prove the
properties of these functions; and the classes `ExpressionParser.Parser`,
`RecursiveDescent.Descent`, `StatementReader.Reader`, `CodeGenerator.Generator`,
`Scanner.Scanner`, `SymbolTable.Table` and `ArmTables.Generator` run them as the C code does
(cursor, free list, label counter, output, put-back, loops), each method proved against its
function. `fatal` is the result `None`.

Where code and comments disagree the code is followed: the grammar comment
(`acwj/10_For_Loops/stmt.c:11-14`) allows an empty compound statement, but the parser rejects one;
comparisons bind more tightly than arithmetic (`acwj/10_For_Loops/expr.c:50-55`), unlike in C.

## Model

| member | source | states |
|---|---|---|
| Compiler.CompilerCorrect | acwj/10_For_Loops/main.c:45-48 | Every token sequence that compiles begins with the spelling of a source program in order, and from every store the code ends, traps, runs on, prints and stores as that program does, and never gets stuck |
| Compiler.TokensCompile | acwj/10_For_Loops/main.c:45-48 | Conversely the spelling of any program in order compiles, whatever follows it, to code that behaves like it |
| Compiler.TextCorrect | acwj/10_For_Loops/main.c:45-48 | From characters to behaviour: whatever text without NUL compiles begins with a legible spelling of a program in order, and the code behaves like that program |
| Compiler.TextCompiles | acwj/10_For_Loops/main.c:45-48 | Conversely any legible spelling of a program in order compiles, to code that behaves like it |
| Compiler.CompilesIff | acwj/10_For_Loops/main.c:45-48 | Tokens compile if and only if they begin with the spelling of a program in order, a notion defined on the source program alone |
| Scoping.AcceptedIff | acwj/10_For_Loops/stmt.c:23-237 | The parser accepts a block exactly if it is spelled with every name declared before it is used, comparisons (any of the six) as conditions, bodies and for operations that do something, and at most 1024 names |
| Scoping.LowerIff | acwj/10_For_Loops/stmt.c:23-202 | A statement has a tree exactly if it is so ordered and the symbol table has room; its names are added and its register need is that of the source |
| Scoping.InOrderIff | acwj/10_For_Loops/main.c:45-48 | Programs in order are those with a tree none of whose expressions needs more than 4 registers |
| Scoping.WritableNeed | acwj/10_For_Loops/expr.c:48-105 | Nothing that can be written needs more than 5 registers |
| Compiler.CompileTokens | acwj/10_For_Loops/main.c:45-48 | Running the statement parser and then the generator yields the compiled code, or none |
| Compiler.CompileFile | acwj/10_For_Loops/main.c:45-48 | Running the scanner, the statement parser and the generator on a file yields the compiled code, or none |
| Behaviour.Simulation | acwj/10_For_Loops/gen.c:90-157 | Every run of a tree, however far its loops get, is matched by the machine: same variables and output, halting at its end, faulting at its trap, and at least as many steps as iterations |
| Behaviour.EveryStep | acwj/10_For_Loops/gen.c:60-84 | Conversely after n steps the machine is not stuck, its output is a prefix of the tree's, and if it halted or faulted so did the tree, in the same state |
| Behaviour.TerminatesAlike | acwj/10_For_Loops/gen.c:16-157 | The code halts with given variables and output if and only if the tree's run ends with them |
| Behaviour.TrapsAlike | acwj/10_For_Loops/cg.c:116-125 | The code faults if and only if the tree divides by zero or overflows a quotient, in the same state |
| Behaviour.DivergesAlike | acwj/10_For_Loops/gen.c:60-84 | The code runs forever if and only if the tree does |
| Semantics.MoreIterations | acwj/10_For_Loops/gen.c:60-84 | A run that ended or trapped is the same with any larger bound on loop iterations |
| StatementCode.StatementRuns | acwj/10_For_Loops/gen.c:16-157 | Wherever a statement's code stands in a program with unique labels, running it does what the statement does and leaves at its end, by simulation over iterations |
| StatementCode.ConditionRuns | acwj/10_For_Loops/cg.c:174-189 | A condition under if or while falls through exactly when the comparison holds and goes to the parent's label otherwise |
| StatementCode.InverseJumps | acwj/10_For_Loops/cg.c:174-176 | The inverted jump table jumps exactly when the comparison is false |
| ExpressionCode.ExpressionCorrect | acwj/10_For_Loops/gen.c:112-144 | From any held registers the value lands in the returned register, held registers, variables and output are kept, and the code faults exactly when there is no value |
| ExpressionCode.OperatorRuns | acwj/10_For_Loops/cg.c:92-162 | Combining two registers computes the operation and changes no third register |
| Semantics.ArithMeaning | acwj/10_For_Loops/cg.c:92-162 | Every operation in terms of integers: sums, differences and products modulo 2^64, the truncated quotient or the trap, exactly by zero and for -2^63 / -1, and 1 or 0 for the comparisons |
| Semantics.GetMeaning | acwj/10_For_Loops/cg.c:80-88 | A variable has the value last stored in it, and zero before |
| ExpressionCode.DivideRuns | acwj/10_For_Loops/cg.c:116-125 | movq, cqo, idivq, movq fault exactly by zero and for -2^63 / -1, and otherwise leave the quotient whose remainder is smaller than the divisor and has the sign of the dividend |
| Words.TruncDivMeaning | acwj/10_For_Loops/cg.c:116-125 | The quotient of idivq is the only one whose remainder is smaller than the divisor and has the sign of the dividend |
| Words.WrapMeaning | acwj/10_For_Loops/cg.c:92-113 | Wrapping finds the one 64-bit (32-bit) number congruent modulo 2^64 (2^32) |
| ExpressionCode.CompareRuns | acwj/10_For_Loops/cg.c:145-162 | cmpq, setcc, movzbq leave 1 or 0 as the signed comparison says |
| Machine.FlagsMeaning | acwj/10_For_Loops/cg.c:145-148 | The condition codes read from zero, sign and overflow flags are the six signed comparisons, overflow or not |
| Registers.HoldsOneMore | acwj/10_For_Loops/gen.c:112-144 | Generating an expression holds exactly one more register, the returned one, which was free |
| Registers.RegistersSuffice | acwj/10_For_Loops/cg.c:20-38 | Generation succeeds if and only if held registers plus need is at most 4; no register is freed twice |
| Registers.StatementRegisters | acwj/10_For_Loops/gen.c:90-157 | A statement's code is generated if and only if none of its expressions needs more than 4 registers |
| Labels.LabelDiscipline | acwj/10_For_Loops/gen.c:7-84 | A fragment generated with the counter from i to j defines each label in [i, j) once and no other, and jumps only to these |
| Labels.ConditionLabels | acwj/10_For_Loops/gen.c:27-31 | A condition defines no label and jumps only to the label passed in by its parent, at its end |
| Labels.ProgramLabels | acwj/10_For_Loops/gen.c:7-12 | Over a whole program the labels are numbered from 1, each is defined exactly once, and every jump target is defined |
| CodeGenerator.Compile | acwj/10_For_Loops/gen.c:90-157 | Running the generator on a tree emits the specified code, and succeeds if and only if every expression needs at most 4 registers |
| CodeGenerator.Generator.GenStatement | acwj/10_For_Loops/gen.c:90-157 | The walk appends the specified code, leaves the specified free list and label counter, or dies |
| CodeGenerator.Generator.GenIf | acwj/10_For_Loops/gen.c:16-56 | genIF draws one label or two and emits condition, branches, jump and labels in order |
| CodeGenerator.Generator.GenWhile | acwj/10_For_Loops/gen.c:60-84 | genWHILE emits start label, condition, body, jump back and end label |
| CodeGenerator.Generator.GenExpression | acwj/10_For_Loops/gen.c:112-144 | The walk over an expression emits the specified code and returns its register |
| CodeGenerator.Generator.AllocRegister | acwj/10_For_Loops/cg.c:22-30 | Takes the lowest free register, or dies if none is free |
| CodeGenerator.Generator.FreeRegister | acwj/10_For_Loops/cg.c:34-38 | Gives a held register back, and dies on one that is free |
| PrecedenceParser.ParseIff | acwj/10_For_Loops/expr.c:66-105 | binexpr(0) returns t and the rest if and only if t is canonical for the table, the input is t flattened followed by the rest, and an end of expression follows |
| PrecedenceParser.CanonicalUnique | acwj/10_For_Loops/expr.c:66-105 | Canonical trees with the same flattening are equal |
| PrecedenceParser.BinExprSound | acwj/10_For_Loops/expr.c:66-105 | For every starting precedence, the tree returned is canonical, fits that precedence and flattens to what was read |
| PrecedenceParser.BinExprComplete | acwj/10_For_Loops/expr.c:66-105 | Reading a canonical tree's flattening brings the loop to that tree as its left operand |
| PrecedenceParser.ParseThenBuild | acwj/12_Types_pt1/expr.c:86-117 | Building a node of any kind at each join gives what building after a plain parse gives |
| PrecedenceParser.ParseBuildIff | acwj/18_Lvalues_Revisited/expr.c:165-244 | Any stage's binexpr(0), described as canonical tree, flattening and build |
| ExpressionParser.Parser.BinExpr | acwj/10_For_Loops/expr.c:68-105 | The loop over a token cursor returns the specified tree and leaves the cursor at the rest, for every table |
| ExpressionGrammar.ParsesGrammar | acwj/10_For_Loops/expr.c:48-55 | The operator table stands for the grammar of left-grouped sums of products of equalities of relations |
| ExpressionGrammar.ParsedNeed | acwj/10_For_Loops/expr.c:48-105 | A parsed expression needs at most 5 registers, and generation fails exactly on those that need 5 |
| ExpressionGrammar.NeedBound | acwj/10_For_Loops/expr.c:48-55 | The number of precedence levels bounds the registers of any canonical tree |
| ExpressionGrammar.FiveNeeded | acwj/10_For_Loops/expr.c:48-105 | v + v * v == v < v parses and has no register for its last operand |
| ExpressionSpelling.ExpressionRoundTrip | acwj/10_For_Loops/expr.c:10-37 | Parsing a spelled expression resolves its names to slots, and fails exactly if one is undeclared |
| ExpressionSpelling.ExpressionSound | acwj/10_For_Loops/expr.c:10-105 | Every parsed expression was the spelling of a canonical source expression that resolves to it |
| ExpressionSpelling.ResolveMeaning | acwj/10_For_Loops/expr.c:21-30 | Under any later symbol table, the resolved tree has the value of the named expression |
| StatementSpelling.StatementRoundTrip | acwj/10_For_Loops/stmt.c:23-202 | Parsing a spelled statement gives its desugared tree, the rest and the symbol table, and fails if it has no tree (Scoping.LowerIff says when) |
| StatementSpelling.BlockRoundTrip | acwj/10_For_Loops/stmt.c:204-237 | The same for blocks, whose trees are glued to the left |
| ParserSoundness.ProgramIff | acwj/10_For_Loops/stmt.c:206-237 | compound_statement returns a tree, rest and symbol table if and only if the input begins with a spelled program that desugars to them |
| ParserSoundness.StatementSound | acwj/10_For_Loops/stmt.c:184-202 | Every accepted statement is the spelling of a source statement |
| Desugaring.LowerMeaning | acwj/10_For_Loops/stmt.c:134-180 | The desugared tree of any statement has its meaning, loop for loop |
| Desugaring.ForLoopMeaning | acwj/10_For_Loops/stmt.c:172-179 | A for loop is while over its body glued to the post-operation |
| Desugaring.NoTree | acwj/10_For_Loops/stmt.c:206-237 | A block yields no tree exactly if it holds only declarations |
| Desugaring.NoElse | acwj/10_For_Loops/stmt.c:97-104 | An if statement has no else tree exactly if its else block is missing or holds only declarations |
| StatementReader.Reader.SingleStatement | acwj/10_For_Loops/stmt.c:184-202 | Reading a statement through the cursor and symbol table does what the specified parser does |
| StatementReader.Reader.CompoundStatement | acwj/10_For_Loops/stmt.c:206-237 | The block loop does what the specified parser does |
| StatementReader.Reader.ForStatement | acwj/10_For_Loops/stmt.c:143-180 | Reading a for statement does what the specified parser does |
| RecursiveDescent.SameParse | acwj/03_Precedence/expr2.c:48-119 | On every token sequence additive_expr and binexpr(0) build the same tree with nothing left, or both report an error |
| RecursiveDescent.FactorLevel | acwj/03_Precedence/expr2.c:48-79 | The product loop is the table-driven loop at precedence 10, but for an operand that follows |
| RecursiveDescent.Descent.MultiplicativeExpr | acwj/03_Precedence/expr2.c:48-79 | The loop over '*' and '/' returns the specified tree and rest |
| RecursiveDescent.Descent.AdditiveExpr | acwj/03_Precedence/expr2.c:82-115 | The loop over '+' and '-' returns the specified tree at the end of the input |
| Calculator.InterpreterAndCodeAgree | acwj/04_Assembly/main.c:46-49 | For all input that parses, code is generated; if the operands of every division are ints and no divisor is zero, it prints the wrapped 32-bit value whatever overflows; this covers every input without division, and every input on which interpretAST is defined, where it is its value: exactly those where every part is an int and no divisor is zero |
| Calculator.AlwaysCompiles | acwj/04_Assembly/cg.c:22-32 | Parsed trees need at most 3 registers, so stage 4 never runs out |
| Calculator.InterpretEval | acwj/04_Assembly/interp.c:14-44 | interpretAST is defined if and only if no part overflows an int and no divisor is zero, and then it is the 64-bit value |
| Calculator.EvalLow32 | acwj/04_Assembly/gen.c:10-34 | With divisions in that range, the low 32 bits of the 64-bit value are the wrapped int value |
| Calculator.DivisionShowsOverflow | acwj/04_Assembly/cg.c:123-130 | Out of that range they may differ: 65536 * 65536 / 65536 |
| TypedExpressions.Elaboration | acwj/12_Types_pt1/expr.c:72-122 | The typed parser returns a tree if and only if it is well typed and, without its widenings, a sum of the grammar of stage 10 that spells what was read |
| TypedExpressions.RejectsVoid | acwj/12_Types_pt1/types.c:14-42 | Of the expressions of that grammar it rejects exactly those with an operator over a void operand; the type is int exactly if some variable is, or some literal is not from 0 to 255 |
| TypedExpressions.BuildTyped | acwj/12_Types_pt1/expr.c:96-110 | Joining adds widenings of chars only and keeps both operand types equal |
| TypedExpressions.OneTyping | acwj/12_Types_pt1/expr.c:96-110 | There is no other well-typed tree over the same expression |
| TypedExpressions.OperandTypes | acwj/12_Types_pt1/stmt.c:36-81 | print makes its operand an int; assignment widens, never narrows |
| TypedExpressions.TypeCompatibleInPlace | acwj/12_Types_pt1/types.c:14-42 | The two types are overwritten by the widening decisions, or left alone on failure |
| AssignmentExpressions.AssignmentRoundTrip | acwj/18_Lvalues_Revisited/expr.c:165-244 | A tree is returned if and only if its written form, targets on the left, is grouped (assignment to the right, the rest to the left) and spells the input |
| AssignmentExpressions.AssignmentsChain | acwj/18_Lvalues_Revisited/expr.c:196-209 | x = y = z assigns z to y and that to x, each node with its source first |
| AssignmentExpressions.GroupedAsBefore | acwj/18_Lvalues_Revisited/expr.c:99-107 | Expressions without assignment group as in stage 10 |
| ArmTables.ReferencesStayRight | acwj/14_ARM_Platform/cg_arm.c:45-91 | Over any run every emitted offset reaches its word in the final tables; the pool has no duplicates and at most 1024 entries |
| ArmTables.VariableWord | acwj/14_ARM_Platform/cg_arm.c:127-141 | Four times the number of earlier variables is the offset of a variable's word |
| ArmTables.LiteralsFit | acwj/14_ARM_Platform/cg_arm.c:59-64 | Loading literals fails exactly if they bring more than 1024 different large ones into the pool |
| ArmTables.SymbolsAsAdded | acwj/14_ARM_Platform/sym.c:33-48 | Over any run symbols keep their slots, names stay distinct, and each new one is a variable or not as the first request for its name says |
| ArmTables.SymbolsFit | acwj/14_ARM_Platform/sym.c:22-48 | Adding symbols fails exactly if more than 1024 names are different |
| ArmTables.Generator.AddGlob | acwj/14_ARM_Platform/sym.c:33-48 | The search loop finds the symbol of that name or appends a new one |
| ArmTables.Generator.LoadOffset | acwj/14_ARM_Platform/cg_arm.c:48-68 | The search loop reuses the slot of a known literal or appends a new one |
| ArmTables.Generator.VariableOffset | acwj/14_ARM_Platform/cg_arm.c:129-141 | The loop over the symbol table emits the offset of the variable |
| ArmTables.Generator.Postamble | acwj/14_ARM_Platform/cg_arm.c:77-91 | The loops write the variables' names and the literals, in slot order |
| Lexis.ScanIff | acwj/10_For_Loops/scan.c:125-222 | A text without NUL scans to some tokens if and only if it is a legible spelling of them: any spacing that separates them, leading zeros or not, names of 1 to 511 of the letters, digits and underscore, listed one by one, that are none of the six keywords |
| Lexis.TextReads | acwj/10_For_Loops/scan.c:125-222 | Whatever text without NUL is scanned splits into white space and spellings of the tokens returned |
| Lexis.TextRoundTrip | acwj/10_For_Loops/scan.c:125-222 | Scanning tokens spelled with any spacing that separates them gives the tokens and then the end |
| Lexis.SpacedRoundTrip | acwj/10_For_Loops/scan.c:125-222 | In particular with any non-empty white space between tokens |
| Lexis.TokenRoundTrip | acwj/10_For_Loops/scan.c:130-222 | One token is read back and scanning stops where it ends |
| Lexis.LongWord | acwj/10_For_Loops/scan.c:74-80 | A word of 512 or more characters is an error, whatever follows |
| Lexis.CharacterClasses | acwj/10_For_Loops/scan.c:199-203 | The tests for letters and digits hold of the 53 and 10 characters listed, and no others |
| Lexis.NulAfterDigits | acwj/10_For_Loops/scan.c:8-15 | A NUL after digits is taken for a digit of value ten |
| Lexis.NulAfterWord | acwj/10_For_Loops/scan.c:18-37 | A NUL after a word is lost, since putting it back stores nothing |
| Scanner.ScanFile | acwj/10_For_Loops/scan.c:18-31 | A file yields its tokens, and Line ends at one plus its newlines, each counted once |
| Scanner.Scanner.ScanToken | acwj/10_For_Loops/scan.c:125-222 | scan returns the specified token and leaves the specified characters to be read |
| Scanner.Scanner.Next | acwj/10_For_Loops/scan.c:18-31 | Takes the put-back character or the next one of the file, counting lines |
| Scanner.Scanner.ScanNumber | acwj/10_For_Loops/scan.c:54-66 | Accumulates digits and puts the next character back |
| Scanner.Scanner.ScanName | acwj/10_For_Loops/scan.c:70-89 | Collects a word of at most 511 characters and puts the next character back |
| Pools.RunOfAdds | acwj/10_For_Loops/sym.c:34-46 | Over any sequence of additions names stay distinct, slots keep their names, exactly the added names are there, and it fails exactly if they are more than the limit |
| SymbolTable.SlotsAreNames | acwj/10_For_Loops/sym.c:12-46 | Adding names to an empty table fails exactly if more than 1024 are different; otherwise findglob finds exactly the names added, and slots and names are in bijection |
| SymbolTable.Table.Find | acwj/10_For_Loops/sym.c:12-20 | The search loop returns the slot of the name, or none |
| SymbolTable.Table.Add | acwj/10_For_Loops/sym.c:24-46 | addglob returns the old slot, or appends, or dies when full |

## Left out

- Assembly text, preambles and postambles, opening of files, malloc failure, error messages: instructions are data, `fatal` is a failing result.
- Undefined accesses of the C code give a failing result: reading `OpPrec` past its end (an expression followed by a token that is no operator, ';' or ')'), and the generator on a NULL tree.
- ParserSoundness.ProgramIff: where the generator would meet a NULL tree (a then, while or for body, or the head of a for, that only declares), the parser already fails here; an else block that only declares is accepted, as in C.
- Literals beyond the range of int: the scanner's overflow is undefined in C and fails here.
- AST nodes are split into expressions and statements, as the parser sorts them; a node of the wrong sort (a statement as operand) cannot be built.
- Variables whose names clash with registers or labels of the assembler are not told apart from other names.
- Flags after arithmetic instructions and registers after a call are undefined here instead of modelled; no emitted code depends on them.
- Lexis.ScanIff: whole texts that hold a NUL character are scanned as in C but not characterised.
- ExpressionParser.Parser.BinExpr: reads tokens that were already classified as operands, operators and ends, with names resolved, where the C code classifies each token as it is scanned.
- Scanner.ScanFile: scans the whole file first, where the compiler scans on demand and never sees an unknown character well after the last brace of the program.
- Calculator: instructions are those of stage 10's generator, which stage 4's emits for the same trees; a separate copy of it is not modelled.
- AssignmentExpressions: calls, '&' and '*', and operands of different types of stage 18 are not modelled.
- Execution of ARM instructions and the range of ARM immediate operands.
- Functions, pointers, arrays and everything else that stages 11 to 20 add, and the other back ends.
- The other programs of the repository (virtual machine, shells, disk file system).
