# L1VM toolchain: verified model

A Dafny model of the tools around the L1VM virtual machine, from source text to the bytes that run: the
expression compiler and the lowering of control flow (`comp/`), the assembler (`assemb/`), the object
loader (`disasm/load-object.c`), the run-time stack and bounds check (`include/stack.h`,
`lib-func/memory_bounds.c`, `vm/debugger.c`) and the interval analysis of the linter (`linter/`).
`dafny verify dfyconfig.toml` checks everything.

## How it fits together

- *The language.* `Int64` is the arithmetic of its numbers. `Language` says for every operator as it is written
  what it means and how tightly it binds, `Writing` what an assignment line with such operators says.
- *Expressions.* `Symbols` recodes two-character operators, `Convert` and `Shunt` turn infix into postfix
  on characters and on tokens, `Statement` reads a line, `Codegen` turns postfix into three-address code
  with the register table as a cache, `Registers` is that table, `Budget` counts the registers needed, and
  `NoPull` is the mode that leaves results in registers. `Infix` holds expressions and their trees, for the
  compiler and for the linter.
- *Control flow.* `Lowering` has the slot tables, one function per kind of source line, and the same code
  generated by structure. `LoweringCorrect` shows the two agree, `Labels` that no label is defined twice,
  `Simulation` that labels and jumps behave as the structure says. `Program` states the result for whole
  programs on the labelled machine of `Machine`. `Planning` says from the source which programs compile,
  `SlotLimits` and `Unguarded` what full slot tables do. `Compiler` is the compiler as the source has it, a
  state changed line by line, tied to those functions.
- *Bytes.* `Bytes` and `Opcodes` are shared. `Assembler` says which bytes a list of lines stands for and
  keeps the label table; `CodeSection` is the code buffer with its first pass and the patching pass;
  `DataSection` the data buffer. `ObjectFile` is the file and what loading it gives, `Loader` the loops of
  `dump_object` and `load_object`. `Assembly`, `Execution` and `Resolution` bring the compiler's output to
  bytes and run those bytes, with the meaning that the virtual machine gives each opcode number; `LabelCount` counts a program's labels; `Toolchain` joins the results, and
  `Build` the procedures: it compiles, assembles, writes and loads.
- *Run time.* `TypedStack`, `CallSave`, `MemoryBounds`.
- *Linter.* `Intervals` is the arithmetic, `Brackets` the search for brackets, `RangeEval` the two
  evaluators, `RangeSound`, `RangeExact`, `ConstFolds`, `ConstRange` and `TwoTables` what holds of them, `LinterFlow` branches and
  joins, `Linter` the procedures on the global table of variables.

The results up to `Program` hold for any meaning of the operators and take it as a parameter. From `Resolution`
on it is the one of `Language.Meaning` in the source and of `Execution.Alu64` in the bytes;
`Resolution.OpcodeMeans` connects the two. `Writing.WrittenWellFormed` says that a program whose lines are
written as in `Writing` is one that all results about well-formed programs speak of.

## Main results

- `Build.BuildAndLoad` calls the procedures of compiler, assembler and loader one after the other. For a
  program whose blocks fit the slot tables it succeeds exactly when the source says so: names declared,
  registers enough along the way, at least one instruction, labels and variables within the tables and the
  data within the data memory. Then the loaded bytes end with certain values of the variables exactly when
  the source program does, and are stopped exactly when some operator of the run has no value; so one runs
  forever exactly when the other does. The data in memory is the declared data exactly when the assembler's
  guard had room for every value (`DataSection.LandedExact`). `Toolchain.ToolchainCorrect` is the statement
  about code behind it, and `Toolchain.InitialValues` and `Toolchain.InitialLanded` say with which values the
  run starts. The loader is the one in `disasm/`; the virtual machine has its own, `vm/load-object.c`, for the
  same format, which is not part of this model.
- `Planning.PlanExact` says which programs compile without generating their code: of the register table only
  the cached variables and the number of results left in it matter.
- `Program.CompilerCorrect` is the same for labelled code, and `Program.InfixAssignment` for one line
  `{t = e}`: `t` gets the value of the tree that the precedence table gives the text of `e`, equal operators
  from the left. `Writing.WrittenAssignment` says it of the line as it is written: operators spelled `==`,
  `<=`, `&&`, binding by `Language.Level` and meaning what `Language.Meaning` says.
- `CodeSection.Section.WriteCodeLabels` and `ObjectFile.RoundTrip`: patched code is the code of the lines with
  every label replaced by its address, and reading back an object file gives what was written.
- `RangeSound.InfixSound`, `ConstRange.ConstInRange`, `LinterFlow.RefineSound`: intervals hold the values they
  are said to hold, constants lie in their intervals, and a branch called impossible is not taken.
  `LinterFlow.IfSound` carries this through a whole `if`, also for which variables have been written.
- `RangeExact.InfixExact` and `ConstFolds.ConstFold` say the other half: exactly which expressions have an
  interval or a constant, infix or in reverse Polish notation, and exactly when overflow is reported.
  `LinterFlow.RefineExact` says it of branches and `LinterFlow.MergeStatesMark` of marks at joins.

## What the model shows about the code

- `convert` leaves its `#` on the operator stack and `parse_rpolish` leaves the operand names there, so the
  stack grows with every statement (`ConvertCorrect.ConvertText`, `Lowering.DoText`).
- The assembler's table holds 4096 labels, and a program that the compiler takes can have more
  (`LabelCount.TooManyLabels`). The assembler takes the code exactly when the labels counted in the source fit
  (`Toolchain.Accepted`).
- A block that finds its slot table full has no jumps, and the line still counts as compiled. All blocks find
  slots exactly when the program has at most 1024 of each kind (`SlotLimits.SlotsExact`). Too many `do`,
  `for-loop`, `switch`, `if` or `if+` blocks are noticed at their end; only `?` blocks get through
  (`SlotLimits.TooManyBlocks`), and the 1025th runs its body whatever it compares (`Unguarded.OneBlockTooMany`).
- The assembler's guards on writing data ask for too much room and a failed write is no error: a single value
  is only written when eight times its variable fits behind its place (`DataSection.SingleLands`), so
  `Q, 1, x` and `@, 0, 5` in a data memory of 16 to 72 bytes leave x at 0 (`DataSection.SingleValueLost`). The
  code buffer needs one byte more than the code (`CodeSection.Section.ParseLines`).
- The assembler's guard on its table of variables lets one more entry through than the table has room for
  (`DataSection.Section.Declare`); the compiler stops before that.
- The compiler and the linter order comparisons and logic in opposite ways, also against arithmetic: the
  compiler reads `1 + 2 < 3` as `1 + (2 < 3)`. On `+ - * / %`, the comparisons and the logical operators they
  give an expression one tree exactly when in each bracket group all operators are arithmetic or all have
  the same precedence (`TwoTables.SameTree`).
- With `no_var_pull`, a statement without an operator takes over its operand's register, and the operand is
  lost exactly when it is another variable that memory does not hold (`NoPull.KeepExact`,
  `NoPull.CopyLosesVariable`).
- The disassembler's loader converts a double only for printing and stores the bytes of the file: the value
  in memory is right exactly when its eight bytes read the same backwards (`ObjectFile.LoadedElement`).
- An object file without instructions does not load: the `i` of `info` is taken for an opcode
  (`ObjectFile.RoundTrip`).
- The guard of `stpushb` lets through every push from inside the stack; the element stays inside exactly when
  two bytes were free (`TypedStack.Stack.StPushB`).
- `memory_bounds` tests the alignment of the offset and not of the address: from an unaligned address an
  allowed access can reach over the end of the variable, exactly in its last element
  (`MemoryBounds.AllowedStaysInside`). `memory_size` answers with 16 bits and is right exactly below 32 KiB
  (`MemoryBounds.SameVariable`).
- A number written with a sign is taken for an operator by the scan of `range_eval`: where one stands beside a
  tighter operator or right of a sum, the expression has no interval. `RangeExact.Clear` says exactly where
  not.
- The new bounds of a branch wrap round at the ends of int64: `x < MIN` is not called impossible
  (`LinterFlow.RefineWraps`). `LinterFlow.RefineExact` covers all other cases.
- The corners of `%` do not bound remainders (`Intervals.RemainderEscapes`); `Intervals.RemainderExact` says
  exactly when they do for a constant divisor, `Intervals.RemainderRange` for a range of divisors.
- The states at the breaks of a switch are gathered into the first of them, which keeps its known values.
  In a switch that can be reached that is the state before the first case, so a variable known there is still said to have that value
  behind a switch that changes it (`LinterFlow.SwitchEndForgets`). `LinterFlow.SwitchEndNew`,
  `LinterFlow.SwitchEndLate` and `LinterFlow.SwitchEndOld` say exactly when the facts are right there.
- A `?` line of a switch narrows the range of a variable and not its known value: x known to be 5 has the
  constant 5 and the interval [3, 3] in the case for 3 (`LinterFlow.CaseLineSplits`).

## Model

| member | source | states |
|---|---|---|
| Symbols.SearchStr | lib-func/string.c:40-73 | the first place at which the two characters stand, or -1 when they stand nowhere |
| Symbols.ReplaceSymbols | comp/parse-rpolish.c:461-491 | in place, the line becomes its recoding, in which none of the eight two-character symbols is left; which letter each becomes is in the next rows |
| Symbols.RecodePlain | comp/parse-rpolish.c:461-491 | a character that is part of no symbol stays |
| Symbols.RecodePair | comp/parse-rpolish.c:461-491 | a symbol that overlaps no other becomes its letter and a blank |
| Symbols.RecodeAllProps | comp/parse-rpolish.c:461-491 | recoding keeps the length, leaves no symbol, and is the identity on text that has none |
| Symbols.ConvertedIsFree | comp/parse-rpolish.c:763-779 | convert's output holds no two-character symbol, so the second recoding in parse_rpolish changes nothing |
| Infix.TreeFlattens | comp/parse-rpolish.c:402-459 | the tree of an expression keeps every operand and operator once and in order |
| Infix.TreeShaped | comp/parse-rpolish.c:402-459 | every operator binds at least as tightly as the one above it on its left and more tightly on its right |
| Shunt.StepsTree | comp/parse-rpolish.c:651-804 | reading a tree pushes its right spine, writes the rest and leaves the stack below as it was |
| Shunt.ShuntCorrect | comp/parse-rpolish.c:651-804 | shunting any infix expression writes the postfix form of the tree that the table prescribes |
| ConvertCorrect.ConvertText | comp/parse-rpolish.c:651-804 | on characters: the output reads as the shunted tokens, and the shared stack gains exactly one marker |
| Statement.InfixLineParses | comp/parse-rpolish.c:651-945 | from a source line, whatever is on the shared stack, come its target and the postfix form of the precedence tree of its expression |
| Statement.SpelledShunts | comp/parse-rpolish.c:651-804 | text that spells an infix expression is shunted to the postfix form of its tree |
| Writing.RecodesText | comp/parse-rpolish.c:461-491 | in text with operators between blanks, every operator as written becomes its own letter and all else stays |
| Writing.SameTree | comp/parse-rpolish.c:402-459 | the tree by the letters of the operators is the tree by the levels of the operators as written |
| Writing.WrittenIsInfix | comp/parse-rpolish.c:461-945 | a line as written, with any blanks, is read as its target and the tree of its operators as written |
| Writing.PolishParses | comp/parse-rpolish.c:869-945 | the same for a line in reverse Polish notation |
| Writing.WrittenWellFormed | comp/parse-rpolish.c:461-945 | so every program of such lines is read as it is meant |
| Writing.EqualsLine | comp/parse-rpolish.c:467-468 | {t = a == b} asks whether the two are equal |
| Registers.RegisterTable.SetRegi | comp/register.c:27-30 | one entry changes |
| Registers.RegisterTable.GetRegi | comp/register.c:37-49 | the first register of that name, or -1 when no register has it |
| Registers.RegisterTable.GetFreeRegi | comp/register.c:80-92 | the first free register above 0, or -1 |
| Registers.RegisterTable.InitRegisters | comp/register.c:65-78 | every entry becomes empty |
| Registers.RegisterTable.ForgetRegi | comp/parse-rpolish.c:1565-1582 | every entry of a variable is cleared and no other |
| Registers.SpareExists | comp/register.c:80-92 | a register is found exactly when one is free |
| Codegen.GenShape | comp/parse-rpolish.c:943-1320 | an expression leaves one register on the register stack, and no occupied register is handed out again |
| Codegen.GenComputes | comp/parse-rpolish.c:943-1320 | its code computes its value into that register, keeps memory and the occupied registers and the cache coherent, and stops exactly when an operator does |
| Codegen.AssignCorrect | comp/parse-rpolish.c:869-1630 | an assignment stores the value in its target, changes no other variable and leaves the cache coherent |
| Budget.ExprBudget | comp/parse-rpolish.c:943-1320 | code exists exactly when the names are declared and a register is free for each uncached name and each operator, and it uses exactly those |
| Budget.StatementBudget | comp/parse-rpolish.c:869-1630 | an assignment compiles exactly when these are free and one more for the target's address |
| Planning.AssignPlan | comp/parse-rpolish.c:869-1630 | an assignment compiles exactly when one register is there for each variable, operator and the address; which variables are cached afterwards and how many results are left |
| Planning.PlanExact | comp/main.c:4055-5293 | code for a program is generated exactly when the plan made from the source goes through, and the register table is then as planned |
| Planning.CompilesExactly | comp/main.c:4055-5293 | the compiler accepts the lines of a program with slots for its blocks exactly when its plan goes through |
| Planning.ProgActive | comp/main.c:4055-5293 | the code has an instruction other than a label exactly when the program is more than empty switches |
| NoPull.KeepExact | comp/parse-rpolish.c:1348-1393 | keeping a result in its register preserves all variables exactly when no other variable's only copy is taken over |
| NoPull.SeqCorrect | comp/parse-rpolish.c:1348-1393 | with no_var_pull a sequence of assignments with operators gives every variable its value, read through the cache |
| NoPull.NoPullRefines | comp/parse-rpolish.c:1348-1393 | such a sequence and its store-to-memory version agree on every variable |
| NoPull.CopyLosesVariable | comp/parse-rpolish.c:1348-1393 | a plain copy loses the variable copied from |
| LoweringCorrect.LinesAgree | comp/main.c:4055-4499 | on well-nested programs with slots for their blocks the slot tables act as a stack: line by line comes the code that the structure calls for, and one succeeds exactly when the other does |
| LoweringCorrect.InnermostIf | comp/if.c:107-137 | the highest open slot is the innermost open block |
| SlotLimits.FindsExact | comp/if.c:69-105 | in any accepted text no line finds its slot table full exactly when each table has a slot for each line that takes one |
| SlotLimits.SlotsExact | comp/main.c:4098-4102 | in an accepted program every block finds a slot exactly when there are at most 1024 of each kind |
| SlotLimits.TooManyBlocks | comp/main.c:4055-5293 | an accepted program has slots for all its blocks, or too many ? blocks and nothing else too many |
| Unguarded.OneBlockTooMany | comp/main.c:4538-4855 | 1025 ? blocks are accepted, and from the start of the last one the code gives the target its value whatever is compared |
| Labels.ProgLabels | comp/if.c:69-105 | labels get numbers handed out once, and no label is defined twice |
| Labels.DistinctUnambiguous | comp/if.c:161-200 | so each label has one possible target |
| Simulation.SimulateIf | comp/main.c:4055-4231 | running the labels of an if block ends as its body does, or skips it |
| Simulation.SimulateIfElse | comp/main.c:4232-4499 | the same for if+, else and endif |
| Simulation.SimulateCase | comp/main.c:4538-4855 | the same for ? and break |
| Simulation.SimulateWhile | comp/main.c:4993-5106 | the same for do and while, for any number of rounds |
| Simulation.SimulateFor | comp/main.c:5108-5293 | the same for for-loop, for and next |
| Program.CompilerCorrect | comp/main.c:4055-5293 | for programs with slots for their blocks, labelled code ends with certain values exactly when the source does, each expression read by the precedence table, and is stopped exactly when an operator has no value |
| Program.InfixAssignment | comp/parse-rpolish.c:869-1630 | the code of a line {t = e} stores in t the value of the precedence tree of e and changes no other variable |
| Writing.WrittenAssignment | comp/parse-rpolish.c:869-1630 | the code of a line as written stores the value that its operators as written mean, changes no other variable, and stops exactly when there is none |
| Compiler.Compiler.LoadVariableInt | comp/parse-rpolish.c:100-213 | the state after it is that of the specification: a cached register, or a load into a new one |
| Compiler.Compiler.ParseTokens | comp/parse-rpolish.c:943-1320 | the token loop generates what the specification generates for the tokens of the text, and fails when it does |
| Compiler.Compiler.ParseRpolish | comp/parse-rpolish.c:869-1630 | a postfix line changes code, tables and stack as specified, or is refused when it is |
| Compiler.Compiler.Convert | comp/parse-rpolish.c:651-804 | conversion leaves the stack and the text of the specification, which for a line as written is that of its operators (Writing.WrittenIsInfix) |
| Compiler.Compiler.GetIfPos | comp/if.c:69-105 | takes the first unused slot |
| Compiler.Compiler.GetActIf | comp/if.c:107-137 | the highest open slot, of if+ when asked, or -1 |
| Compiler.Compiler.GetLoopPos | comp/if.c:309-325 | takes the first unused slot of a loop table |
| Compiler.Compiler.GetActLoop | comp/if.c:327-339 | the highest open slot of a loop table, or -1 |
| Compiler.Compiler.ParseLine | comp/main.c:4055-5293 | one line changes the whole state as specified, or is refused exactly when it is |
| Compiler.Compiler.ParseLines | comp/main.c:4055-5293 | all lines one after the other |
| Bytes.SignedWord | assemb/main.c:491-581 | a number that fits comes back from its big-endian bytes |
| Bytes.WordSigned | assemb/main.c:541-581 | bytes come back from the number they stand for |
| Assembler.TableGrows | assemb/main.c:1115-1149 | the label table keeps the numbers it gave and holds for each label the position of its last definition |
| Assembler.LabelPlace | assemb/main.c:611-672 | the hand-written offsets of the patching pass are where the opcode table puts the label, and patching changes nothing else of the instruction |
| CodeSection.Section.ParseArg | assemb/main.c:1184-1290 | an operand is accepted exactly when it has the right kind and a new label fits; its bytes are written when the guard finds room, and the place moves on in any case |
| CodeSection.Section.ParseLine | assemb/main.c:1111-1300 | the line is refused exactly when it is malformed, the label table is full or the buffer has ended; with a byte left behind it its code is all there, with label numbers |
| CodeSection.Section.ParseLines | assemb/main.c:1377-1434 | reading ends without an error one byte before the end of the buffer; up to there it succeeds exactly when the lines are well formed and their different labels fit; with a byte to spare all lines and all code are there |
| CodeSection.Section.PatchInst | assemb/main.c:611-672 | one instruction gets its address; missing exactly when no line defines the label |
| CodeSection.Section.WriteCodeLabels | assemb/main.c:599-698 | every label operand becomes the position of the label's last definition, no other byte changes, and an error is reported exactly when a used label is never defined |
| DataSection.Section.Declare | assemb/main.c:1034-1104 | a definition enters the table when the guard and the data memory allow it |
| DataSection.Section.Place | assemb/main.c:810-967 | the values are written in order at the given place, each one exactly when its guard finds room, and the end of data moves to the variable's end |
| DataSection.Section.Define | assemb/main.c:810-1101 | after the compiler's two lines for a variable the buffer is the image of all variables, with 0 for the values that were not written |
| DataSection.Section.DefineAll | assemb/main.c:810-1104 | all variables are placed one behind the other exactly when the table's guard and the data memory allow it; values without room are 0 |
| DataSection.LandedExact | assemb/main.c:265-460 | the image is that of the declared variables exactly when each value other than 0 finds the room that its guard asks for |
| DataSection.SingleLands | assemb/main.c:368-410 | a single int64 value is written exactly when eight times the bytes of its variable fit behind its place |
| DataSection.SingleValueLost | assemb/main.c:873-967 | one int64 variable with the value 5 is accepted from 16 bytes of data memory on and holds 0 up to 72 |
| DataSection.PutOnZeros | assemb/main.c:265-460 | in a buffer of zeros the guarded writes leave the big-endian words of the values with room and zeros for the others |
| DataSection.LayoutAgrees | comp/main.c:1559-1664 | the compiler's offset is the assembler's operand, and variables follow one another without overlap |
| ObjectFile.CodeReadBack | disasm/load-object.c:411-564 | the code loop reads back exactly the instructions, operands turned to host order, and stops behind the last |
| ObjectFile.InfoReadBack | disasm/load-object.c:660-701 | the list of types and sizes is read back and its end found |
| ObjectFile.DataReadBack | disasm/load-object.c:818-1026 | every entry gets its offset and end, and its bytes |
| ObjectFile.RoundTrip | disasm/load-object.c:182-1033 | loading what dump_object writes gives the code, the table and the data, exactly when there is an instruction |
| ObjectFile.OneLayout | disasm/load-object.c:818-1026 | compiler, assembler and loader agree on where a variable is |
| ObjectFile.LoadedElement | disasm/load-object.c:959-1016 | an element has its value in memory, for doubles exactly when its bytes read the same backwards |
| Loader.Loader.ReadCode | disasm/load-object.c:411-564 | the loop over the code does what the specification does |
| Loader.Loader.ReadInfo | disasm/load-object.c:660-701 | the same for the table, with the sum of the sizes |
| Loader.Loader.ReadData | disasm/load-object.c:818-1026 | the same for the data |
| Loader.Loader.LoadObject | disasm/load-object.c:182-1033 | accepts exactly the files that the specification accepts, and memory then holds what it says |
| Loader.DumpObject | assemb/main.c:1482-1633 | the file is header, code, table and data in this order |
| Assembly.LabelsDiffer | comp/if.c:161-200 | different labels have different texts |
| Assembly.ProgFine | comp/main.c:4055-5293 | registers are in range, names are declared and every jump's label is defined in the code |
| LabelCount.ProgAdds | comp/main.c:4055-5293 | code has exactly the labels counted in the source |
| LabelCount.NamedCount | assemb/main.c:1115-1149 | which are the different labels that its lines name |
| LabelCount.TooManyLabels | assemb/main.c:1123-1131 | a program that compiles and has more labels than the table holds |
| Execution.OperandsBack | include/opcodes.h:22-101 | operands decoded from memory are those that were encoded |
| Execution.DecodeLine | vm/main.c:1828-1850 | at the address of a line its opcode and operands are decoded |
| Resolution.OpcodeMeans | comp/parse-rpolish.c:1104-1280 | the opcode number chosen for an operator computes in the virtual machine what the operator as written means |
| Int64.BitwiseBits | vm/main.c:1470-1508 | each bit of a bitwise result is that of the operands |
| Int64.DivisionRounds | vm/main.c:1509-1521 | quotient and remainder: the remainder is smaller than the divisor and has the sign of the dividend |
| Resolution.LabelAddress | assemb/main.c:1115-1149 | a label's position is the address of the instruction that the labelled machine jumps to |
| Resolution.StepAgrees | vm/main.c:1681-1710 | one instruction on bytes does what it does on labels |
| Resolution.Forward | vm/main.c:1681-1710 | every run on labels is a run on bytes |
| Resolution.Backward | vm/main.c:1681-1710 | every run on bytes is a run on labels |
| Toolchain.Accepted | assemb/main.c:1115-1290 | the assembler reads and patches compiled code without an error exactly when the source's labels fit its table |
| Toolchain.AllDefined | assemb/main.c:599-698 | compiled code never refers to a label it does not define |
| Toolchain.InitialValues | comp/main.c:1559-1664 | a machine started on the loaded data starts with the declared values |
| Toolchain.LoadedDeclared | assemb/main.c:873-967 | what is loaded is the declared data exactly when all values other than 0 were written |
| Toolchain.InitialLanded | assemb/main.c:873-967 | a run starts with the declared values exactly when the first value of each variable was written |
| Toolchain.ToolchainCorrect | comp/main.c:4055-5293 | compiled, assembled and loaded, a program behaves as its source, where the source's operators mean what they say and opcodes do what the virtual machine does for their numbers |
| Build.BuildAndLoad | comp/main.c:4055-5293 | for programs with slots for their blocks the procedures in sequence succeed exactly when the source fits registers, tables and data memory; what is loaded then behaves as the source with the meaning of its operators as written, with the declared data exactly when it was all written; of other programs only those with too many ? blocks get through |
| Build.Assemble | assemb/main.c:1733-1760 | assembling gives the object file of the code and the data written exactly when the lines are well formed, all labels are defined and labels and data fit |
| Build.CodeFromSource | comp/main.c:4055-5293 | a program compiles to at least one instruction exactly when its plan goes through and it is not empty |
| TypedStack.FramesPush | include/stack.h:24-342 | the bytes of an element on top of a stack are that stack with the element on top |
| TypedStack.FramesUnique | include/stack.h:24-342 | the bytes and the abstract stack determine each other |
| TypedStack.Stack.StPushB | include/stack.h:24-56 | a byte is on top, nothing else changes, and it is inside the stack exactly when two bytes were free |
| TypedStack.Stack.StPushI | include/stack.h:96-164 | succeeds exactly when nine bytes are free, and then the number is on top |
| TypedStack.Stack.StPushD | include/stack.h:214-282 | the same for a double |
| TypedStack.Stack.StPopB | include/stack.h:58-91 | succeeds exactly when a byte is on top, and removes it only |
| TypedStack.Stack.StPopI | include/stack.h:166-212 | succeeds exactly when an int64 is on top, and removes it only |
| TypedStack.Stack.StPopD | include/stack.h:284-329 | succeeds exactly when a double is on top, and removes it only |
| TypedStack.Stack.Walk | vm/debugger.c:173-229 | the walk ends, sees every element with the last pushed first and stops at the top |
| CallSave.CallRestores | comp/main.c:5820-5871 | saving needs nine bytes for every cached register and fails exactly without them; around a callee that takes its arguments and leaves the stack otherwise as it was, every cached register and the stack come back |
| CallSave.AfterCall | comp/main.c:646-696 | with the emptied tables registers and memory agree after a call; with the old ones exactly when the callee left every cached variable |
| CallSave.Processor.Execute | include/stack.h:96-329 | on the stack of bytes the pushes and pops do what they do on typed values, and fail when they do |
| CallSave.Caller.SaveRegisters | comp/main.c:5820-5871 | the loops emit the pushes and remember which registers they saved |
| CallSave.Caller.LoadRegisters | comp/main.c:646-696 | the loops emit the pops in reverse and empty both tables |
| MemoryBounds.BoundsFromExact | lib-func/memory_bounds.c:28-104 | exactly which accesses are allowed |
| MemoryBounds.AllowedStaysInside | lib-func/memory_bounds.c:28-104 | an allowed access touches only its variable exactly when the address is aligned or the element is not the last |
| MemoryBounds.FromBase | lib-func/memory_bounds.c:28-104 | from a variable's own address an allowed access always stays inside |
| MemoryBounds.SameVariable | lib-func/memory_bounds.c:107-171 | the type, the type test and the size are those of the same variable, the size exactly below 32 KiB |
| MemoryBounds.LoadedLaid | disasm/load-object.c:818-1026 | the loader's table is laid out as these results need |
| MemoryBounds.ImmutableKeeps | lib-func/memory_bounds.c:174-208 | a string made constant can only be used at offset 0, other variables as before, and doing it twice changes nothing |
| MemoryBounds.Checker.CheckBounds | lib-func/memory_bounds.c:28-104 | the loop answers as specified |
| MemoryBounds.Checker.SetImmutableString | lib-func/memory_bounds.c:174-208 | the table changes as specified |
| Intervals.BoundsHold | linter/linter-main.c:2262-2449 | every concrete sum, difference, product and quotient lies within the bounds |
| Intervals.BoundsReached | linter/linter-main.c:2317-2358 | both bounds are reached by operands of the ranges |
| Intervals.RangeApplySound | linter/linter-main.c:2262-2449 | after clamping the range holds every result that fits int64, and all fit when no overflow is flagged |
| Intervals.RangeApplyExact | linter/linter-main.c:2262-2449 | of + - * / on known ranges: a range comes out exactly when no divisor is 0, from the clamped least to the clamped greatest result, and overflow is flagged exactly when some result leaves int64 |
| Intervals.CompareExact | linter/linter-main.c:2262-2315 | a comparison is decided exactly on single values, and never overflows |
| Intervals.RemainderExact | linter/linter-main.c:2335-2358 | exactly when the corners of a remainder bound it, for every constant divisor and every range of dividends |
| Intervals.RemainderRange | linter/linter-main.c:2335-2358 | for ranges of dividends and divisors the corners bound every remainder exactly when they bound the least and greatest remainder of each divisor |
| Intervals.GreatestIs | linter/linter-main.c:2335-2358 | the greatest remainder of a range of dividends, which some dividend reaches |
| Brackets.OpenUndoesClose | linter/linter-main.c:1180-1227 | the two bracket searches are inverse |
| RangeSound.PassRoot | linter/linter-main.c:2513-2550 | the scan ends on the root of the tree, or on a number written with a sign |
| RangeSound.InfixSound | linter/linter-main.c:2452-2569 | for every infix expression a known interval holds the value when all intermediate values fit, and they fit when the flag is clear |
| RangeExact.EvalExact | linter/linter-main.c:2452-2569 | an infix expression has an interval exactly when literals fit, variables are known, no divisor range has 0 and no signed number is taken for an operator; the flag is set exactly when some operator has a result outside int64 on the intervals of its sides |
| RangeExact.InfixExact | linter/linter-main.c:2452-2569 | the same for every list of tokens, with the tree of the precedence table |
| ConstRange.ConstExact | linter/linter-main.c:1305-1431 | a constant operation has a result exactly when it exists, fits and is not the one overflowing division |
| ConstFolds.ConstFold | linter/linter-main.c:1435-1584 | an expression in infix, reverse Polish or mixed notation is a constant exactly when its leaves are known and every value on the way exists and fits; the constant is its value; overflow is reported exactly when some known step overflows |
| ConstFolds.PolishOrder | linter/linter-main.c:1552-1561 | 5 3 - is 2 |
| ConstRange.ConstInRange | linter/linter-main.c:1435-1584 | on any tokens, a constant lies in the known interval of the same span |
| ConstRange.DescribedConsistent | linter/linter-main.c:1435-1584 | a state that the variables can be in has each known value inside its known range, as the agreement of the two evaluators needs |
| TwoTables.SameTree | linter/linter-main.c:2217-2246 | both tables give an expression one tree exactly when each bracket group has only arithmetic operators or operators of one precedence |
| TwoTables.LinterMeans | linter/linter-main.c:2262-2449 | the linter's exact arithmetic is that of the language wherever the result fits |
| TwoTables.SoundForCompiler | linter/linter-main.c:2452-2569 | so for all those expressions the intervals are sound for the int64 value that the compiled code computes, and it computes one when the flag is clear |
| TwoTables.TablesDisagree | comp/parse-rpolish.c:402-459 | the least other case: the linter is certain of 0 where the compiled code computes 2 |
| LinterFlow.RefineSound | linter/linter-main.c:2583-2809 | a value stays allowed on the branch it takes, written or not as before, and an impossible branch is never taken |
| LinterFlow.RefineExact | linter/linter-main.c:2583-2809 | the narrowed range holds exactly the values that can take the branch, and the branch is called impossible exactly when none can, except where a bound wraps |
| LinterFlow.RefineWraps | linter/linter-main.c:2625-2646 | x < MIN cannot be true and is not called impossible |
| LinterFlow.MergeSound | linter/linter-main.c:1973-2116 | a join allows what either branch allows; a variable that one branch leaves unwritten may be unwritten |
| LinterFlow.MergeMarks | linter/linter-main.c:2007-2008 | a variable is marked initialized exactly when neither branch can leave it unwritten |
| LinterFlow.MergeLeast | linter/linter-main.c:1973-2116 | its range is the least one, or the one value agreed on |
| LinterFlow.TakeOverExact | linter/linter-main.c:1984-2009 | a variable that only one of two joined states has: what is then known of value and writing is right exactly when no exact value was stored or the state allows no other |
| LinterFlow.TakeOverMarks | linter/linter-main.c:1984-2005 | and it is marked initialized exactly when that state never has it unwritten |
| LinterFlow.GatheredAllows | linter/linter-main.c:2119-2176 | gathered over any number of breaks and fall-throughs, ranges and flags allow what each of them allows, and the known value is that of the first |
| LinterFlow.GatheredLeast | linter/linter-main.c:2119-2176 | and no more than needed: marked initialized exactly when all are, in a range exactly when all are, with ends that some state has |
| LinterFlow.SwitchEndNew | linter/linter-main.c:3707-3815 | at switchend, for a variable declared inside before the first state was captured: right for all gathered states exactly when no exact value is known at the end or none of the others allows another |
| LinterFlow.SwitchEndLate | linter/linter-main.c:2119-2135 | the same for a variable that the first captured state did not have |
| LinterFlow.SwitchEndOld | linter/linter-main.c:3707-3815 | for a variable from before: right exactly when the values known before and in the first captured state are not one value, or no other state allows another value |
| LinterFlow.SwitchEndStale | linter/linter-main.c:3790-3815 | declared with 2 inside the switch and given 1 by the last case: the value is said to be 1 |
| LinterFlow.SwitchEndForgets | linter/linter-main.c:3707-3815 | x = 1 before the switch and one case that sets x to 2: behind the switch x is said to be 1 and nothing else |
| LinterFlow.RefineConsistent | linter/linter-main.c:2583-2809 | narrowing keeps a known value inside its range, for a constant exactly when the value is in the new range, as on every branch that it can take |
| LinterFlow.MergeConsistent | linter/linter-main.c:1973-2176 | joins keep a known value inside its range |
| LinterFlow.CaseLineConsistent | linter/linter-main.c:3733-3746 | a ? line of a switch is right for the values that take the case, and keeps a known value inside its range exactly when it is not another one |
| LinterFlow.CaseLineSplits | linter/linter-main.c:3733-3746 | x known to be 5 has the constant 5 and the interval [3, 3] in the case for 3 |
| LinterFlow.MergeStatesSound | linter/linter-main.c:1973-2116 | what either of two whole states describes, values and variables written, their join describes |
| LinterFlow.MergeStatesMark | linter/linter-main.c:1973-2116 | of states that can occur, the join marks exactly the variables that all of them have written |
| LinterFlow.IfSound | linter/linter-main.c:3855-3948 | from any state described before an if, through either branch with any body that the analysis follows, comes a state described behind the endif, with the variables it has written |
| Linter.FindCloseParen | linter/linter-main.c:1180-1202 | the loop finds the partner of the specification |
| Linter.FindOpenParen | linter/linter-main.c:1204-1227 | the same backwards |
| Linter.Linter.EvalConst | linter/linter-main.c:1435-1584 | the procedure computes the specified constant, which is that of ConstFolds.ConstFold |
| Linter.Linter.RangeEval | linter/linter-main.c:2452-2569 | the procedure computes the specified interval and flag, which are those of RangeSound.InfixSound and RangeExact.InfixExact |
| Linter.Linter.RefineCompare | linter/linter-main.c:2583-2809 | every state described before whose comparison has the given truth is described after, and then the answer is not 2; only the named variable changes, as the branches say |
| Linter.Linter.Narrowing | linter/linter-main.c:2616-2809 | the branches for one variable compute the specified fact and answer |
| Linter.Linter.Restore | linter/linter-main.c:1939-1970 | captured variables come back, later ones stay |
| Linter.Linter.Merge | linter/linter-main.c:1973-2116 | the table becomes the specified join, which has the properties of LinterFlow.MergeStatesSound and LinterFlow.MergeStatesMark |

## Left out

- Files, printing, packing, the sandbox, command lines, and the text of `code[]` and `data[]`: emitted code is a list of instructions, a file a list of bytes.
- The spelling of mnemonics and of labels other than those of the lowering, and the lexing of source lines into their parts.
- Capacity limits: line length and the 4096-slot stacks. The limits on slots, registers, labels, code and data memory are modelled. Where the source would index beyond a table without a free register, pop an empty operator stack or read past the end of a line, the model reports an error; a `break` without an open block also marks the entry before the table, which the model leaves out.
- Bytes, int16, int32 and doubles in the expression compiler, range checks (`intr0`), constants, prefixes and arrays as operands, `optimize-if`, the `*` form of a call, pointers, objects, contracts.
- Machines that start with garbage in memory: every variable has its cell, as after loading.
- Division and remainder by 0 and of the least int64 by -1, and shifts by less than 0 or more than 63: the machine stops where C leaves the result open or the processor traps. Sums and products wrap round, the message about it is left out. Opcodes that int64 code of this subset does not use stop the model's machine.
- Writing.WrittenIsInfix: names hold no character that the compiler takes for an operator, letters such as `E` and `N` among them; targets hold no character of a two-character symbol; operators stand between blanks.
- ConstFolds.ConstFold: `& | ^` and shifts are not part of the linter's model.
- Build.BuildAndLoad: room for the code in the code buffer, with a byte to spare, and the size limits of the loader are assumed. Of a program with too many `?` blocks it says only that it has them.
- Program.CompilerCorrect: holds with nested_code on, as it is by default (switched off, the cache is not emptied at joins), and for programs with slots for their blocks (`Unguarded.OneBlockTooMany` shows why).
- ConstRange.ConstInRange: not for a state whose known value lies outside its known range; no values of the variables are described by one, but a case line can make one (`LinterFlow.CaseLineSplits`).
- NoPull.SeqCorrect: straight-line int64 assignments with an operator only.
- CodeSection.Section.ParseLine: data definitions come before the code, as the compiler writes them.
- DataSection.Section.Place: does not cover strings, external files and values of another type than the variable's; unknown type letters.
- Loader.Loader.ReadCode: opcodes beyond the table and code that runs over its announced size are refused, where the source reads on outside its arrays.
- Loader.Loader.LoadObject: the same, and entries of negative size.
- ObjectFile.RoundTrip: does not cover files with entries of negative size or code that runs over its announced size, which the model refuses and the source does not detect.
- TypedStack.Stack.Walk: a byte that is no tag, on which the walk of the debugger would not end, does not occur on a stack built by pushes. The variant without tags is not part of this model.
- MemoryBounds.BoundsFromExact: the sum of address and offset is taken not to wrap around.
- TwoTables.SameTree: for `+ - * / %`, comparisons and logic; `& | ^` and shifts are not part of the linter's model.
- RangeSound.InfixSound: not for `%`, where it is false (`Intervals.RemainderEscapes`), nor for `& | ^` and shifts, which are not part of this model; array elements are not modelled.
- LinterFlow.RefineSound: the choice of operands in `refine_condition` and the single pass over loop bodies are not part of this model.
- Pointer, heap, string and stack-depth facts of the linter, its states at jump labels, and its warnings.
- The formatter, the language server, the preprocessor, the scheduler and the JIT compiler.
