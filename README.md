# bf-jit front ends and interpreters, modelled in Dafny

bf-jit runs Brainfuck programs in several ways. Each way is a parser that
turns the source text into instructions plus a virtual machine that executes
them on a tape of 30000 byte cells. This project models the parsers and the
interpreters:

- **simpleinterp** keeps one instruction per command character. At each
  bracket it scans the program for the matching bracket.
- **opinterp** uses the same instructions but builds a jump table once, so a
  bracket looks up its partner.
- **opinterp2** merges runs of equal commands into one counted instruction
  and stores each bracket's destination in the instruction itself.
- **opinterp3** executes an optimized instruction set. Counted data changes
  are applied in one step with `unbalanced_wrapping_add`/`_sub` from
  `util/src/math.rs`. Three loop idioms have instructions of their own:
  clearing a cell, moving the pointer until a zero cell, and moving a cell's
  value onto another cell.
- **opjit**'s parser runs in three stages. `create_ast` builds a tree of
  loops, `optimize_loops` rewrites the idiom loops, and `compile` flattens the
  tree while merging equal neighbours.

The source text is a sequence of bytes. The command characters are ASCII,
and every byte of a multi-byte UTF-8 character is at least 0x80. So
filtering bytes keeps the same commands as filtering characters, and opjit's
`char_indices` offsets are byte positions.

The machine (module `Tape`) has:

- the 30000 cells;
- a program counter and a data pointer;
- stdin as a sequence of bytes that is consumed;
- stdout as a sequence of bytes that is appended to.

A run ends in one of five ways:

- it finishes;
- it fails with the error a `?` would return;
- it panics, when the pointer is decremented below 0 or a cell past the tape
  is indexed;
- it runs out of its step budget;
- it spins, in a pointer-move loop that can never end.

Every interpreter's `run` is a method over an `array<u8>` of 30000 cells. It
is proved equal to `Exec`, a function that iterates that interpreter's
`Step` for at most `fuel` instructions. The lemmas beside each `Step` state
what every instruction does.

The bracket theory is shared by all front ends and lives in module
`Brackets`. Each `[` counts +1 and each `]` counts -1. The `]` closing a `[`
at `p` is the first position where the running balance from `p` reaches 0.

## Model

| member | source | states |
|---|---|---|
| Math.UnbalancedWrappingAdd | util/src/math.rs:1-6 | the result is `(n1 + n2) mod 256` for any `n2`, which is what adding `n2 mod 256` with wrap-around gives |
| Math.UnbalancedWrappingSub | util/src/math.rs:8-13 | the result is `(n1 - n2) mod 256` for any `n2` |
| Math.Periodic | util/src/math.rs:1-13 | adding or subtracting 256 more leaves either result unchanged |
| Math.SubUndoesAdd | util/src/math.rs:1-13 | subtracting `n` undoes adding `n` |
| Math.AddUndoesSub | util/src/math.rs:1-13 | adding `n` undoes subtracting `n` |
| Math.AddIsRepeatedIncrement | util/src/math.rs:1-6 | adding `count` at once equals `count` wrapping increments by one, which is what opinterp2 executes |
| Math.SubIsRepeatedDecrement | util/src/math.rs:8-13 | subtracting `count` at once equals `count` wrapping decrements by one |
| Math.IncrementTimes | vms/opinterp2/src/vm.rs:19-23 | definition: `count` rounds of `wrapping_add(1)` on a cell value |
| Math.DecrementTimes | vms/opinterp2/src/vm.rs:26-30 | definition: `count` rounds of `wrapping_sub(1)` on a cell value |
| Math.Examples | util/src/math.rs:19-82 | every expected value in the module's tests table |
| Util.NatToString | vms/opjit/src/parser.rs:110 | decimal rendering as `format!` writes an index: digits only, no leading zero, `"0"` for zero |
| Util.NatToStringRoundTrip | vms/opjit/src/parser.rs:110 | the decimal rendering of an index in an error message reads back as the same number; every character is a digit and there is no leading zero |
| Tape.Initial | vms/simpleinterp/src/vm.rs:10-12 | definition: 30000 zero cells, pc 0, data pointer 0, all of stdin ahead, nothing written |
| Tape.ReadCell | vms/simpleinterp/src/vm.rs:44-49 | reading succeeds iff input is left and the pointer is on the tape; the cell then holds the first input byte; at the end of input it fails with `UnexpectedEof` and past the tape it panics |
| Tape.WriteCell | vms/simpleinterp/src/vm.rs:51-56 | writing appends exactly the current cell to the output; past the tape it panics |
| SimpleParser.Decode | vms/simpleinterp/src/parser.rs:22-31 | a byte decodes to an instruction iff it is that instruction's character, in both directions |
| SimpleParser.Commands | vms/simpleinterp/src/parser.rs:21-33 | definition: the decoded command bytes in order, every other byte dropped |
| SimpleParser.Parse | vms/simpleinterp/src/parser.rs:18-36 | the loop over the text yields exactly `Commands(src)`, the decoded command characters in order |
| SimpleParser.CommandsConcat | vms/simpleinterp/src/parser.rs:21-33 | the commands of a concatenation are the concatenation of the commands |
| SimpleParser.CommandsDropsOthers | vms/simpleinterp/src/parser.rs:31 | a text without command characters yields no instruction |
| SimpleParser.CommandsOfRender | vms/simpleinterp/src/parser.rs:21-33 | parsing the rendering of any program gives the program back |
| SimpleParser.CommandsLength | vms/simpleinterp/src/parser.rs:21-33 | there are never more instructions than bytes, and exactly as many iff every byte is a command |
| SimpleVm.Jump | vms/simpleinterp/src/vm.rs:58-113 | the bracket scan, with its nesting counter, returns the scan position the bracket theory defines: the matching bracket when the jump is taken, or the "unmatched" error naming pc |
| SimpleVm.JumpTarget | vms/simpleinterp/src/vm.rs:58-113 | definition: an untaken jump keeps pc; a taken one is the forward or backward nesting scan, or the unmatched error naming the saved pc |
| SimpleVm.JumpStep | vms/simpleinterp/src/vm.rs:22-35 | definition: the cell is read first (panicking past the tape), then `jump`, then the increment of pc |
| SimpleVm.BasicStep | vms/simpleinterp/src/vm.rs:16-21 | definition: the six arms that do not jump, each followed by the increment of pc; `<` at cell 0 and a cell past the tape panic |
| SimpleVm.Step | vms/simpleinterp/src/vm.rs:15-38 | definition: the `match` on the instruction at pc |
| SimpleVm.Exec | vms/simpleinterp/src/vm.rs:14-41 | definition: the `while pc < len` loop for at most `fuel` rounds; the first stopping step ends it |
| SimpleVm.Run | vms/simpleinterp/src/vm.rs:9-42 | the array interpreter computes `Exec` from the initial machine, outcome and output included |
| SimpleVm.StepFrame | vms/simpleinterp/src/vm.rs:14-39 | a step changes at most the current cell, consumes at most one input byte, and appends at most the current cell to the output |
| SimpleVm.ExecExtendsOutput | vms/simpleinterp/src/vm.rs:14-39 | output is only ever appended to, whatever the run does later |
| SimpleVm.StepData | vms/simpleinterp/src/vm.rs:18-19 | `+` and `-` change the current cell by one modulo 256 and nothing else |
| SimpleVm.StepPointer | vms/simpleinterp/src/vm.rs:16-17 | `>` moves the data pointer up by exactly one; `<` moves it down by one, and panics with `PointerUnderflow` at cell 0 |
| SimpleVm.StepReadWrite | vms/simpleinterp/src/vm.rs:20-21 | `,` stores the next input byte and fails at end of input; `.` appends the cell |
| SimpleVm.StepJumpIfZero | vms/simpleinterp/src/vm.rs:22-28 | `[` on a nonzero cell moves on; on a zero cell it continues after the `]` that closes it, or fails with the unmatched error if none does |
| SimpleVm.StepJumpIfNotZero | vms/simpleinterp/src/vm.rs:29-35 | `]` on a zero cell moves on; on a nonzero cell it continues after the `[` that opens it, or fails if none does |
| SimpleVm.JumpsPairUp | vms/simpleinterp/src/vm.rs:58-113 | when `[` at p jumps to q, q holds a `]`, and that `]` on a nonzero cell jumps back to p |
| OpParser.CreateJumpTable | vms/opinterp/src/parser.rs:46-76 | the table is built iff every `[` is closed; entries of `[` and matched `]` point at their partners and all other entries are 0; otherwise the error names the first unclosed `[` |
| OpParser.Parse | vms/opinterp/src/parser.rs:21-44 | the commands of the text with their jump table, or the first unclosed `[` |
| OpParser.JumpTableInvolution | vms/opinterp/src/parser.rs:46-76 | following an entry twice from a paired bracket returns to it, and lands on a bracket of the other kind |
| OpParser.JumpTableUnique | vms/opinterp/src/parser.rs:46-76 | a program has only one correct jump table |
| OpVm.Run | vms/opinterp/src/vm.rs:9-34 | the array interpreter computes `Exec` from the initial machine |
| OpVm.JumpStep | vms/opinterp/src/vm.rs:50-68 | definition: the cell is read first (panicking past the tape); a taken jump reads `jump_table[pc]` (panicking past the table); the increment of pc follows |
| OpVm.Step | vms/opinterp/src/vm.rs:15-30 | definition: the `match` on the instruction at pc, with simpleinterp's arms for everything but the jumps |
| OpVm.Exec | vms/opinterp/src/vm.rs:14-31 | definition: the `while pc < len` loop for at most `fuel` rounds |
| OpVm.StepPointer | vms/opinterp/src/vm.rs:16-17 | `>` and `<` move the data pointer by exactly one; `<` at cell 0 panics with `PointerUnderflow` |
| OpVm.TableMatchesScan | vms/opinterp/src/vm.rs:50-68 | a correct table entry is what simpleinterp's scan finds |
| OpVm.StepAgrees | vms/opinterp/src/vm.rs:14-31 | with a correct table, a step equals simpleinterp's step unless it is a `]` with no partner |
| OpVm.ExecAgrees | vms/opinterp/src/vm.rs:9-34 | when every `]` has a partner, opinterp and simpleinterp compute the same outcome from any state |
| OpVm.StrayCloseRestarts | vms/opinterp/src/vm.rs:63-64 | a taken `]` with no partner continues at instruction 1 (its table entry is 0), where simpleinterp reports the unmatched bracket |
| Op2Parser.Counted | vms/opinterp2/src/parser.rs:76-85 | the counted instruction for a run has the run's opcode and count |
| Op2Parser.SetDestination | vms/opinterp2/src/parser.rs:28-34 | only the destination of a jump changes |
| Op2Parser.Parse | vms/opinterp2/src/parser.rs:42-97 | the method's single pass (the stack of open brackets and the inner run loop) computes `ParseLoop` of the opcodes |
| Op2Parser.ParseLoop | vms/opinterp2/src/parser.rs:47-96 | definition: the `while pc < len` loop with the instructions and the open-bracket stack as parameters: a `[` is pushed, a `]` pops and back-patches or fails naming pc, a run becomes one counted instruction; a non-empty stack at the end fails |
| Op2Parser.RunEnd | vms/opinterp2/src/parser.rs:72-74 | the inner `while` ends within the opcodes, at or after where it starts |
| Op2Parser.ParseCorrect | vms/opinterp2/src/parser.rs:42-97 | a `]` closing nothing is reported at the first place the nesting drops below zero; otherwise an open `[` gives "unmatched '['"; otherwise the result expands back to the opcodes, every count is positive, runs are maximal, and every jump points at its partner and back |
| Op2Parser.RunEndCorrect | vms/opinterp2/src/parser.rs:70-76 | the inner loop stops at the end of the run of equal opcodes: all before are equal, the next one differs |
| Op2Vm.Run | vms/opinterp2/src/vm.rs:9-66 | the array interpreter computes `Exec` from the initial machine |
| Op2Vm.ReadTimes | vms/opinterp2/src/vm.rs:32-36 | definition: `count` reads into the current cell, the first failing one ending the run |
| Op2Vm.WriteTimes | vms/opinterp2/src/vm.rs:37-41 | definition: `count` writes of the current cell |
| Op2Vm.JumpStep | vms/opinterp2/src/vm.rs:82-100 | definition: the cell is read first (panicking past the tape); a taken jump goes to its stored destination, then pc is incremented |
| Op2Vm.Step | vms/opinterp2/src/vm.rs:15-62 | definition: the `match` on the counted instruction at pc |
| Op2Vm.Exec | vms/opinterp2/src/vm.rs:14-63 | definition: the `while pc < len` loop for at most `fuel` rounds |
| Op2Vm.IncrementLoop | vms/opinterp2/src/vm.rs:18-24 | `count` rounds of `wrapping_add(1)` |
| Op2Vm.DecrementLoop | vms/opinterp2/src/vm.rs:25-31 | `count` rounds of `wrapping_sub(1)` |
| Op2Vm.ReadLoop | vms/opinterp2/src/vm.rs:32-36 | the array and input left by `count` reads, or the outcome of the read that stopped |
| Op2Vm.WriteLoop | vms/opinterp2/src/vm.rs:37-41 | the output left by `count` writes, or the outcome of the write that stopped |
| Op2Vm.StepData | vms/opinterp2/src/vm.rs:18-31 | a counted `+`/`-` leaves `(v ± count) mod 256` in the current cell and changes nothing else |
| Op2Vm.StepPointer | vms/opinterp2/src/vm.rs:16-17 | a counted pointer move moves by exactly `count`, and panics below cell 0 |
| Op2Vm.ReadTimesSpec | vms/opinterp2/src/vm.rs:32-36 | n reads with n bytes left consume them and leave the last one in the cell; with fewer it fails at end of input |
| Op2Vm.WriteTimesSpec | vms/opinterp2/src/vm.rs:37-41 | n writes append the current cell n times |
| Op2Vm.StepJump | vms/opinterp2/src/vm.rs:42-59 | a jump whose condition holds continues after its stored destination |
| Op2Vm.JumpToPartner | vms/opinterp2/src/vm.rs:82-100 | on a parsed program a taken jump continues right after its partner bracket |
| Op3Vm.Run | vms/opinterp3/src/vm.rs:12-96 | the array interpreter computes `Exec` from the initial machine |
| Op3Vm.MoveUntilZero | vms/opinterp3/src/vm.rs:62-68 | definition: one `while memory[data_pointer] != 0` pointer loop; each test reads the cell, a backward step below cell 0 panics, and a zero amount on a nonzero cell spins |
| Op3Vm.MovePtrTimes | vms/opinterp3/src/vm.rs:61-69 | definition: `count` rounds of that loop |
| Op3Vm.MoveDataOnce | vms/opinterp3/src/vm.rs:77-87 | definition: on a nonzero cell, compute the target (backward below 0 panics), add the cell onto it with wrap-around (past the tape panics) and clear the cell |
| Op3Vm.MoveDataTimes | vms/opinterp3/src/vm.rs:76-88 | definition: `count` rounds of that body |
| Op3Vm.Step | vms/opinterp3/src/vm.rs:18-92 | definition: the `match` on the instruction at pc, then the increment of pc |
| Op3Vm.Exec | vms/opinterp3/src/vm.rs:17-93 | definition: the `while pc < len` loop for at most `fuel` rounds |
| Op3Vm.Execute | vms/opinterp3/src/vm.rs:18-92 | one round of the loop on the array is one `Step`: the state it leaves, or the outcome that stopped the run |
| Op3Vm.MovePtrLoop | vms/opinterp3/src/vm.rs:56-70 | the pointer left by the loops of `MovePtrUntilZero`, or the outcome that stopped them |
| Op3Vm.MoveDataLoop | vms/opinterp3/src/vm.rs:71-89 | the memory left by the loop of `MoveData`, or the outcome that stopped it |
| Op3Vm.StepData | vms/opinterp3/src/vm.rs:21-26 | counted `+`/`-` leave `(v ± count) mod 256` in the current cell, and no other cell changes |
| Op3Vm.StepSetDataToZero | vms/opinterp3/src/vm.rs:55 | clears the current cell and nothing else, and panics past the tape |
| Op3Vm.MoveUntilZeroSpec | vms/opinterp3/src/vm.rs:62-68 | a finished pointer move stops on a zero cell a whole number of steps away in its direction, and touches nothing else |
| Op3Vm.MoveUntilZeroStops | vms/opinterp3/src/vm.rs:62-68 | a pointer move that stops the run panics at an end of the tape, or spins exactly when the amount is 0 on a nonzero cell |
| Op3Vm.MovePtrTimesOnce | vms/opinterp3/src/vm.rs:61-69 | repeating the pointer move `count` times is the same as doing it once |
| Op3Vm.MoveDataOnceSpec | vms/opinterp3/src/vm.rs:77-87 | on a nonzero cell, the value is added modulo 256 onto the cell `amount` away and the cell is cleared; nothing else changes; a zero cell is left alone |
| Op3Vm.MoveDataTimesOnce | vms/opinterp3/src/vm.rs:76-88 | repeating the data move `count` times is the same as doing it once |
| Op3Vm.StepJump | vms/opinterp3/src/vm.rs:37-54 | a jump whose condition holds continues after its stored destination |
| JitAst.PeekMeaningfulChar | vms/opjit/src/parser.rs:75-84 | stops at the first command character at or after pos, skipping only non-commands |
| JitAst.SkipNoise | vms/opjit/src/parser.rs:75-84 | the first command byte at or after pos, or the end, with only non-commands skipped |
| JitAst.NodeOf | vms/opjit/src/parser.rs:98-103 | the node pushed for a non-bracket command; its flat view is that one command |
| JitAst.ParseSeq | vms/opjit/src/parser.rs:86-121 | the loop computes `ParseFrom`, the recursive descent over the text |
| JitAst.ParseFrom | vms/opjit/src/parser.rs:86-121 | the `while let` loop of `parse_seq` from pos with the children so far; a success ends within the text, at or after pos |
| JitAst.ParseAt | vms/opjit/src/parser.rs:89-117 | one round at the command at p: a `]` inside a loop ends the sequence unconsumed, a `]` outside fails naming p, a `[` recurses, passes on the inner error, and otherwise fails naming p unless a `]` is next; any other command is pushed |
| JitAst.CreateAst | vms/opjit/src/parser.rs:123-126 | definition: the top-level sequence from index 0, outside any loop |
| JitAst.CreateAstCorrect | vms/opjit/src/parser.rs:74-127 | the first `]` that closes nothing gives "Unmatched ']' at index q."; otherwise the innermost `[` left open gives "Unmatched '[' at index p."; otherwise the tree's flat view is exactly the commands of the text |
| JitOptimize.MovePtrPattern | vms/opjit/src/parser.rs:142-152 | matches iff the body is non-empty and all `>` or all `<`; direction and length are returned |
| JitOptimize.SetDataToZeroPattern | vms/opjit/src/parser.rs:154-158 | definition: a non-empty body all `+` or all `-` |
| JitOptimize.RunEnd | vms/opjit/src/parser.rs:172-176 | the end of the run of n from i: everything before is n and the next node is not |
| JitOptimize.CountRun | vms/opjit/src/parser.rs:187-192 | the counting loop consumes exactly that run and counts its nodes |
| JitOptimize.CheckMoveDataPattern | vms/opjit/src/parser.rs:160-200 | the iterator-based check computes `MoveDataPattern` |
| JitOptimize.MoveDataPattern | vms/opjit/src/parser.rs:160-200 | definition over positions: `-`, a first run of one direction, `+`, one node consumed unchecked, a second run of the other direction, then nothing; equal run lengths |
| JitOptimize.MoveDataPatternShape | vms/opjit/src/parser.rs:160-200 | the check accepts exactly `-`, n moves, `+`, an optional node the check skips over, then n-1 opposite moves, in both directions |
| JitOptimize.MoveDataIdiom | vms/opjit/src/parser.rs:160-200 | `-`, n moves, `+`, n opposite moves is accepted as a move by n in that direction |
| JitOptimize.MoveDataExamples | vms/opjit/src/parser.rs:435-455 | `[->+<]` and `[-<+>]` are moves by 1; because of the skipped node, so are `[->+]` and `[->+.]` |
| JitOptimize.RejectedExamples | vms/opjit/src/parser.rs:552-604 | `[->>+<]`, `[->+<<]` and `[->+<.]` are not moves |
| JitOptimize.OptimizeLoop | vms/opjit/src/parser.rs:202-218 | a loop becomes the first idiom its body matches, in the source's order; otherwise it stays a loop with its body optimized |
| JitOptimize.OptimizeNode | vms/opjit/src/parser.rs:202-218 | definition: a loop is tried against the three idioms in order and otherwise keeps its optimized body; other nodes are kept |
| JitOptimize.OptimizeSeq | vms/opjit/src/parser.rs:220-224 | every child optimized in place; the length is kept |
| JitOptimize.OptimizeKeepsOthers | vms/opjit/src/parser.rs:220-224 | the optimizer keeps the length and every node that is not a loop |
| JitOptimize.OptimizeSeqIdempotent | vms/opjit/src/parser.rs:129-227 | optimizing twice is optimizing once |
| JitCompile.CompileNode | vms/opjit/src/parser.rs:243-264 | the instruction carries its node and the count, except that `SetDataToZero` has no count |
| JitCompile.CompileSeq | vms/opjit/src/parser.rs:266-289 | the loop with its inner counting loop computes `CompiledFrom` |
| JitCompile.CompiledFrom | vms/opjit/src/parser.rs:266-289 | definition: from the child at i on, a loop is compiled on its own and a run of equal other nodes becomes one instruction counting the run |
| JitCompile.CompileLoop | vms/opjit/src/parser.rs:230-241 | `JumpBegin`, the compiled body, `JumpEnd` |
| JitCompile.CompiledLoop | vms/opjit/src/parser.rs:230-241 | definition: `JumpBegin`, the compiled body, `JumpEnd` |
| JitCompile.Compile | vms/opjit/src/parser.rs:291 | definition: the top-level sequence compiled |
| JitCompile.Parse | vms/opjit/src/parser.rs:65-72 | the three stages chained, with the error of `create_ast` passed on |
| JitCompile.ParseProgram | vms/opjit/src/parser.rs:65-72 | definition: `create_ast`, its error passed on, then `optimize_loops` and `compile` |
| JitCompile.CompileExpands | vms/opjit/src/parser.rs:229-292 | expanding every instruction back into count copies of its node gives the tree's flat view with each run of `SetDataToZero` cut to one |
| JitCompile.CompileMerged | vms/opjit/src/parser.rs:266-289 | every count is at least one and no two adjacent instructions stand for the same node |
| JitCompile.CompileBalanced | vms/opjit/src/parser.rs:229-292 | the jumps of the output are balanced |
| JitCompile.ParseCorrect | vms/opjit/src/parser.rs:65-72 | `parse` fails exactly as `create_ast` does, and otherwise returns a balanced program with merged runs |
| JitCompile.ParseExample | vms/opjit/src/parser.rs:435-444 | `[->+<]` parses to one `MoveData` by 1 to the right |
| JitCompile.CompileExamples | vms/opjit/src/parser.rs:496-530 | equal neighbours merge, two `SetDataToZero` become one, and loops are kept between jumps |
| JitCompile.UnmatchedCloseExample | vms/opjit/src/parser.rs:630-631 | `...]...` fails with "Unmatched ']' at index 3." |
| JitCompile.UnmatchedOpenExample | vms/opjit/src/parser.rs:627-628 | `..[...` fails with "Unmatched '[' at index 2." |

## Left out

- I/O errors other than an early end of stdin. A failing `write_all` or
  `flush` on stdout is not modelled, and stdout never fails.
- Flushing and buffering are not modelled. Output is the sequence of bytes
  written.
- Integer widths. `usize`, and opjit's `u32` counts and amounts, are
  unbounded `nat`. An overflow upward (the data pointer far past the tape,
  or `try_into().unwrap()` on a body longer than `u32::MAX`) is not modelled.
  A subtraction below zero is modelled as the debug-build panic.
- Termination. Every `run` takes a step budget (`fuel`) and reports
  `OutOfFuel` when it is used up. A program that loops forever is only
  modelled up to that budget.
- Op3Vm.MoveUntilZero: with amount 0 on a nonzero cell, the source loops
  forever. The model reports `Spins` instead.
- The opinterp3 parser is not part of this model. Op3Vm runs any program of
  its instruction set, and jump destinations are taken as given.
- Machine-code generation is out of scope: opjit's `compiler.rs`, simplejit,
  and the `asm.rs`/`jit.rs` helpers. So are the benchmark and `run.rs`
  drivers that read files and command lines.
- JitCompile.CompileExpands: what the optimized program computes is not
  compared with the original program. The model relates the stages through
  the flat view of the tree; it does not prove the optimizer preserves
  behaviour.
- JitOptimize.MoveDataPattern keeps the behaviour of
  `vms/opjit/src/parser.rs:185`. The result of that `check_next_node` call
  is discarded, so the node after `+` is consumed without being checked.
  MoveDataPatternShape states exactly which bodies are accepted as a result.
- JitCompile.CompileSeq: the `position` argument of `compile_seq` and
  `compile_loop` is never used by the source, so it is not modelled.
- JitCompile.CompileNode: `SetDataToZero` drops its count. That is why
  `CompileExpands` compares expansions with runs of `SetDataToZero` cut to
  one.
- Text is bytes. Each parser filters bytes instead of Unicode scalar
  values, which keeps the same commands and the same offsets because every
  command is ASCII.
- Errors are values: `BfError` has a `Bf(message)` case and an
  `Io(UnexpectedEof)` case. The message text of `std::io::Error` is not
  modelled.
