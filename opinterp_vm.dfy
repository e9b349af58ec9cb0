/** vms/opinterp/src/vm.rs: simpleinterp's interpreter with the bracket scan
    replaced by a lookup in the precomputed jump table. */
module OpVm {
  import opened Util
  import opened Tape
  import opened SimpleParser
  import opened OpParser
  import Brackets
  import SimpleVm

  /** `jump`: the cell is compared first (panicking past the tape), then a
      taken jump reads the table entry of pc (panicking past the table). */
  function JumpStep(eqZero: bool, program: OpParser.Program, m: Machine): StepResult
  {
    if !InBounds(m) then Panic(m, IndexOutOfBounds)
    else if (if eqZero then Cell(m) == 0 else Cell(m) != 0) then
      if m.pc < |program.jumpTable| then Next(m.(pc := program.jumpTable[m.pc] + 1))
      else Panic(m, IndexOutOfBounds)
    else Next(m.(pc := m.pc + 1))
  }

  /** One iteration of the loop in `run`. */
  function Step(program: OpParser.Program, m: Machine): StepResult
    requires m.pc < |program.instructions|
  {
    match program.instructions[m.pc]
    case JumpIfZero => JumpStep(true, program, m)
    case JumpIfNotZero => JumpStep(false, program, m)
    case _ => SimpleVm.BasicStep(program.instructions[m.pc], m)
  }

  /** The `while pc < len` loop, run for at most `fuel` iterations. */
  function Exec(program: OpParser.Program, m: Machine, fuel: nat): Outcome
    decreases fuel
  {
    if m.pc >= |program.instructions| then Outcome(Finished, m.output)
    else if fuel == 0 then Outcome(OutOfFuel, m.output)
    else
      var r := Step(program, m);
      if r.Next? then Exec(program, r.next, fuel - 1) else r.outcome
  }

  /** `run` over a 30000-cell array, for at most `fuel` instructions. */
  method Run(program: OpParser.Program, input: seq<u8>, fuel: nat) returns (outcome: Outcome)
    ensures outcome == Exec(program, Initial(input), fuel)
  {
    var prog := program.instructions;
    var memory := new u8[MemorySize](_ => 0);
    var pc: nat, dataPointer: nat, pos: nat, output: seq<u8>, steps: nat := 0, 0, 0, [], fuel;
    assert memory[..] == Initial(input).memory;
    assert input[0..] == input;
    while pc < |prog|
      invariant memory.Length == MemorySize && pos <= |input|
      invariant Exec(program, Machine(memory[..], pc, dataPointer, input[pos..], output), steps)
             == Exec(program, Initial(input), fuel)
      decreases steps
    {
      if steps == 0 {
        return Outcome(OutOfFuel, output);
      }
      ghost var m := Machine(memory[..], pc, dataPointer, input[pos..], output);
      match prog[pc] {
        case IncPtr =>
          dataPointer := dataPointer + 1;
        case DecPtr =>
          if dataPointer == 0 {
            return Outcome(Panicked(PointerUnderflow), output);
          }
          dataPointer := dataPointer - 1;
        case IncData =>
          if dataPointer >= MemorySize {
            return Outcome(Panicked(IndexOutOfBounds), output);
          }
          memory[dataPointer] := WrappingAdd(memory[dataPointer], 1);
        case DecData =>
          if dataPointer >= MemorySize {
            return Outcome(Panicked(IndexOutOfBounds), output);
          }
          memory[dataPointer] := WrappingSub(memory[dataPointer], 1);
        case Read =>
          if pos == |input| {
            return Outcome(Failed(Io(UnexpectedEof)), output);
          }
          var c := input[pos];
          pos := pos + 1;
          assert input[pos..] == m.input[1..];
          if dataPointer >= MemorySize {
            return Outcome(Panicked(IndexOutOfBounds), output);
          }
          memory[dataPointer] := c;
        case Write =>
          if dataPointer >= MemorySize {
            return Outcome(Panicked(IndexOutOfBounds), output);
          }
          output := output + [memory[dataPointer]];
        case JumpIfZero =>
          if dataPointer >= MemorySize {
            return Outcome(Panicked(IndexOutOfBounds), output);
          }
          if memory[dataPointer] == 0 {
            if pc >= |program.jumpTable| {
              return Outcome(Panicked(IndexOutOfBounds), output);
            }
            pc := program.jumpTable[pc];
          }
        case JumpIfNotZero =>
          if dataPointer >= MemorySize {
            return Outcome(Panicked(IndexOutOfBounds), output);
          }
          if memory[dataPointer] != 0 {
            if pc >= |program.jumpTable| {
              return Outcome(Panicked(IndexOutOfBounds), output);
            }
            pc := program.jumpTable[pc];
          }
      }
      pc := pc + 1;
      assert Step(program, m) == Next(Machine(memory[..], pc, dataPointer, input[pos..], output));
      steps := steps - 1;
    }
    return Outcome(Finished, output);
  }

  /** `>` and `<` move the data pointer by exactly one, as in simpleinterp;
      `<` at cell 0 panics. */
  lemma StepPointer(program: OpParser.Program, m: Machine)
    requires m.pc < |program.instructions| && program.instructions[m.pc] in {IncPtr, DecPtr}
    ensures program.instructions[m.pc] == IncPtr ==> Step(program, m) == Next(m.(dp := m.dp + 1, pc := m.pc + 1))
    ensures program.instructions[m.pc] == DecPtr && m.dp > 0 ==> Step(program, m) == Next(m.(dp := m.dp - 1, pc := m.pc + 1))
    ensures program.instructions[m.pc] == DecPtr && m.dp == 0 ==> Step(program, m) == Panic(m, PointerUnderflow)
  {
  }

  /** Every `]` of the program has an opening partner. */
  ghost predicate ClosesAllOpen(instrs: seq<Instruction>)
  {
    forall q :: 0 <= q < |instrs| && instrs[q] == JumpIfNotZero ==> !Brackets.NeverOpens(Depths(instrs), q)
  }

  /** An entry of a correct jump table is what simpleinterp's scan finds. */
  lemma TableMatchesScan(instrs: seq<Instruction>, t: seq<nat>, k: nat)
    requires IsJumpTable(instrs, t) && k < |instrs|
    ensures instrs[k] == JumpIfZero ==> Brackets.ScanForward(Depths(instrs), k, 1) == Some(t[k])
    ensures instrs[k] == JumpIfNotZero && !Brackets.NeverOpens(Depths(instrs), k) ==>
      Brackets.ScanBackward(Depths(instrs), k, 1) == Some(t[k])
  {
    var d := Depths(instrs);
    Brackets.ScanForwardFindsClose(d, k);
    Brackets.ScanBackwardFindsOpen(d, k);
    if instrs[k] == JumpIfZero {
      assert Brackets.ClosesAt(d, k, t[k]);
      Brackets.CloseUnique(d, k, t[k], 0);
      var f := Brackets.ScanForward(d, k, 1);
      Brackets.CloseUnique(d, k, t[k], f.value);
    } else if instrs[k] == JumpIfNotZero && !Brackets.NeverOpens(d, k) {
      assert Brackets.OpensAt(d, t[k], k);
      var b := Brackets.ScanBackward(d, k, 1);
      if b.Some? {
        Brackets.OpenUnique(d, t[k], b.value, k);
      }
    }
  }

  /** With a correct jump table, a table jump goes where simpleinterp's scan
      goes, unless the bracket is a `]` that nothing opens. */
  lemma StepAgrees(program: OpParser.Program, m: Machine)
    requires IsJumpTable(program.instructions, program.jumpTable)
    requires m.pc < |program.instructions|
    requires program.instructions[m.pc] == JumpIfNotZero ==> !Brackets.NeverOpens(Depths(program.instructions), m.pc)
    ensures Step(program, m) == SimpleVm.Step(program.instructions, m)
  {
    TableMatchesScan(program.instructions, program.jumpTable, m.pc);
  }

  /** On a program whose brackets all pair up, opinterp and simpleinterp
      compute the same outcome from the same state. */
  lemma {:induction false} ExecAgrees(program: OpParser.Program, m: Machine, fuel: nat)
    requires IsJumpTable(program.instructions, program.jumpTable)
    requires ClosesAllOpen(program.instructions)
    ensures Exec(program, m, fuel) == SimpleVm.Exec(program.instructions, m, fuel)
    decreases fuel
  {
    if m.pc < |program.instructions| && fuel > 0 {
      assert program.instructions[m.pc] == JumpIfNotZero ==> !Brackets.NeverOpens(Depths(program.instructions), m.pc);
      StepAgrees(program, m);
      var r := Step(program, m);
      if r.Next? {
        ExecAgrees(program, r.next, fuel - 1);
      }
    }
  }

  /** The case where they part: a taken `]` that nothing opens has entry 0,
      so opinterp carries on at instruction 1 where simpleinterp reports the
      unmatched bracket. */
  lemma StrayCloseRestarts(program: OpParser.Program, m: Machine)
    requires IsJumpTable(program.instructions, program.jumpTable)
    requires m.pc < |program.instructions| && program.instructions[m.pc] == JumpIfNotZero
    requires Brackets.NeverOpens(Depths(program.instructions), m.pc)
    requires InBounds(m) && Cell(m) != 0
    ensures Step(program, m) == Next(m.(pc := 1))
    ensures SimpleVm.Step(program.instructions, m) == Fail(m, Bf(SimpleVm.UnmatchedMessage(false, m.pc)))
  {
    var d := Depths(program.instructions);
    Brackets.ScanBackwardFindsOpen(d, m.pc);
    var b := Brackets.ScanBackward(d, m.pc, 1);
    if b.Some? {
      Brackets.OpenUnique(d, b.value, b.value, m.pc);
    }
  }
}
