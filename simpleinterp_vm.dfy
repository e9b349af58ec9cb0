/** vms/simpleinterp/src/vm.rs: the plain interpreter. Brackets are resolved
    at run time: a jump that is taken scans for its partner by counting
    nesting, forwards for `[` and backwards for `]`. */
module SimpleVm {
  import opened Util
  import opened Tape
  import opened SimpleParser
  import Brackets

  /** The message of a failed scan, as the source formats it (the closing
      quote after the bracket is missing there too). */
  function UnmatchedMessage(eqZero: bool, pc: nat): string
  {
    "unmatched '" + (if eqZero then "[" else "]") + " at pc=" + NatToString(pc)
  }

  /** `jump`: where pc stands after the instruction (before the increment
      `run` adds). An untaken jump leaves pc alone; a taken one scans with a
      nesting counter and fails when it hits the edge of the program. */
  function JumpTarget(eqZero: bool, prog: seq<Instruction>, cell: u8, pc: nat): Result<nat>
    requires pc < |prog|
  {
    var taken := if eqZero then cell == 0 else cell != 0;
    if !taken then Ok(pc)
    else
      var d := Depths(prog);
      var scan := if eqZero then Brackets.ScanForward(d, pc, 1) else Brackets.ScanBackward(d, pc, 1);
      if scan.Some? then Ok(scan.value) else Err(Bf(UnmatchedMessage(eqZero, pc)))
  }

  /** A bracket instruction: the cell is read (panicking past the tape), then
      `jump`, then the increment. */
  function JumpStep(eqZero: bool, prog: seq<Instruction>, m: Machine): StepResult
    requires m.pc < |prog|
  {
    if !InBounds(m) then Panic(m, IndexOutOfBounds)
    else
      var r := JumpTarget(eqZero, prog, Cell(m), m.pc);
      if r.Ok? then Next(m.(pc := r.value + 1)) else Fail(m, r.error)
  }

  /** The arms of `run` that do not jump; opinterp's `run` has the same ones. */
  function BasicStep(i: Instruction, m: Machine): StepResult
    requires i != JumpIfZero && i != JumpIfNotZero
  {
    match i
    case IncPtr => Next(m.(dp := m.dp + 1, pc := m.pc + 1))
    case DecPtr =>
      if m.dp == 0 then Panic(m, PointerUnderflow) else Next(m.(dp := m.dp - 1, pc := m.pc + 1))
    case IncData =>
      if InBounds(m) then Next(SetCell(m, WrappingAdd(Cell(m), 1)).(pc := m.pc + 1))
      else Panic(m, IndexOutOfBounds)
    case DecData =>
      if InBounds(m) then Next(SetCell(m, WrappingSub(Cell(m), 1)).(pc := m.pc + 1))
      else Panic(m, IndexOutOfBounds)
    case Read => Advance(ReadCell(m))
    case Write => Advance(WriteCell(m))
  }

  /** One iteration of the loop in `run`. */
  function Step(prog: seq<Instruction>, m: Machine): StepResult
    requires m.pc < |prog|
  {
    match prog[m.pc]
    case JumpIfZero => JumpStep(true, prog, m)
    case JumpIfNotZero => JumpStep(false, prog, m)
    case _ => BasicStep(prog[m.pc], m)
  }

  /** The `while pc < len` loop, run for at most `fuel` iterations. */
  function Exec(prog: seq<Instruction>, m: Machine, fuel: nat): Outcome
    decreases fuel
  {
    if m.pc >= |prog| then Outcome(Finished, m.output)
    else if fuel == 0 then Outcome(OutOfFuel, m.output)
    else
      var r := Step(prog, m);
      if r.Next? then Exec(prog, r.next, fuel - 1) else r.outcome
  }

  /** `jump`: the nesting-counter loop moving pc forwards or backwards. */
  method Jump(eqZero: bool, prog: seq<Instruction>, cell: u8, pc: nat) returns (r: Result<nat>)
    requires pc < |prog|
    ensures r == JumpTarget(eqZero, prog, cell, pc)
  {
    var cond1 := if eqZero then cell == 0 else cell != 0;
    if !cond1 {
      return Ok(pc);
    }
    ghost var d := Depths(prog);
    var thisInstruction := if eqZero then JumpIfZero else JumpIfNotZero;
    var otherInstruction := if eqZero then JumpIfNotZero else JumpIfZero;
    var bracketNesting := 1;
    var savedPc := pc;
    var p: nat := pc;
    while bracketNesting != 0 && (if eqZero then p + 1 < |prog| else p > 0)
      invariant p < |prog|
      invariant eqZero ==> Brackets.ScanForward(d, p, bracketNesting) == Brackets.ScanForward(d, pc, 1)
      invariant !eqZero ==> Brackets.ScanBackward(d, p, bracketNesting) == Brackets.ScanBackward(d, pc, 1)
      decreases if eqZero then |prog| - p else p
    {
      p := if eqZero then p + 1 else p - 1;
      if prog[p] == otherInstruction {
        bracketNesting := bracketNesting - 1;
      } else if prog[p] == thisInstruction {
        bracketNesting := bracketNesting + 1;
      }
    }
    if bracketNesting != 0 {
      return Err(Bf(UnmatchedMessage(eqZero, savedPc)));
    }
    return Ok(p);
  }

  /** `run`: the interpreter loop over a 30000-cell array, for at most `fuel`
      instructions. */
  method Run(program: Program, input: seq<u8>, fuel: nat) returns (outcome: Outcome)
    ensures outcome == Exec(program.instructions, Initial(input), fuel)
  {
    var prog := program.instructions;
    var memory := new u8[MemorySize](_ => 0);
    var pc: nat, dataPointer: nat, pos: nat, output: seq<u8>, steps: nat := 0, 0, 0, [], fuel;
    assert memory[..] == Initial(input).memory;
    assert input[0..] == input;
    while pc < |prog|
      invariant memory.Length == MemorySize && pos <= |input|
      invariant Exec(prog, Machine(memory[..], pc, dataPointer, input[pos..], output), steps)
             == Exec(prog, Initial(input), fuel)
      decreases steps
    {
      if steps == 0 {
        return Outcome(OutOfFuel, output);
      }
      ghost var m := Machine(memory[..], pc, dataPointer, input[pos..], output);
      match prog[pc] {
        case IncPtr =>
          dataPointer := dataPointer + 1;
        case DecPtr =>
          if dataPointer == 0 {
            return Outcome(Panicked(PointerUnderflow), output);
          }
          dataPointer := dataPointer - 1;
        case IncData =>
          if dataPointer >= MemorySize {
            return Outcome(Panicked(IndexOutOfBounds), output);
          }
          memory[dataPointer] := WrappingAdd(memory[dataPointer], 1);
        case DecData =>
          if dataPointer >= MemorySize {
            return Outcome(Panicked(IndexOutOfBounds), output);
          }
          memory[dataPointer] := WrappingSub(memory[dataPointer], 1);
        case Read =>
          if pos == |input| {
            return Outcome(Failed(Io(UnexpectedEof)), output);
          }
          var c := input[pos];
          pos := pos + 1;
          assert input[pos..] == m.input[1..];
          if dataPointer >= MemorySize {
            return Outcome(Panicked(IndexOutOfBounds), output);
          }
          memory[dataPointer] := c;
        case Write =>
          if dataPointer >= MemorySize {
            return Outcome(Panicked(IndexOutOfBounds), output);
          }
          output := output + [memory[dataPointer]];
        case JumpIfZero =>
          if dataPointer >= MemorySize {
            return Outcome(Panicked(IndexOutOfBounds), output);
          }
          var r := Jump(true, prog, memory[dataPointer], pc);
          if r.Err? {
            return Outcome(Failed(r.error), output);
          }
          pc := r.value;
        case JumpIfNotZero =>
          if dataPointer >= MemorySize {
            return Outcome(Panicked(IndexOutOfBounds), output);
          }
          var r := Jump(false, prog, memory[dataPointer], pc);
          if r.Err? {
            return Outcome(Failed(r.error), output);
          }
          pc := r.value;
      }
      pc := pc + 1;
      assert Step(prog, m) == Next(Machine(memory[..], pc, dataPointer, input[pos..], output));
      steps := steps - 1;
    }
    return Outcome(Finished, output);
  }

  /** A step keeps the tape size, changes at most the current cell, and
      either leaves stdin and stdout alone, consumes one input byte, or
      appends the current cell to the output. */
  lemma StepFrame(prog: seq<Instruction>, m: Machine)
    requires m.pc < |prog| && Step(prog, m).Next?
    ensures var m' := Step(prog, m).next;
      && |m'.memory| == |m.memory|
      && (forall i :: 0 <= i < |m.memory| && i != m.dp ==> m'.memory[i] == m.memory[i])
      && (m'.input == m.input || (m.input != [] && m'.input == m.input[1..]))
      && (m'.output == m.output || (InBounds(m) && m'.output == m.output + [Cell(m)]))
  {
  }

  /** Output is only ever appended to: whatever the run does later, what was
      written stays written. */
  lemma {:induction false} ExecExtendsOutput(prog: seq<Instruction>, m: Machine, fuel: nat)
    ensures m.output <= Exec(prog, m, fuel).output
    decreases fuel
  {
    if m.pc < |prog| && fuel > 0 && Step(prog, m).Next? {
      StepFrame(prog, m);
      ExecExtendsOutput(prog, Step(prog, m).next, fuel - 1);
    }
  }

  /** `+` and `-` change only the current cell, by one modulo 256. */
  lemma StepData(prog: seq<Instruction>, m: Machine)
    requires m.pc < |prog| && prog[m.pc] in {IncData, DecData} && InBounds(m)
    ensures Step(prog, m).Next?
    ensures var m' := Step(prog, m).next;
      && m'.memory[m.dp] as int == (Cell(m) as int + if prog[m.pc] == IncData then 1 else -1) % 256
      && (forall i :: 0 <= i < |m.memory| && i != m.dp ==> m'.memory[i] == m.memory[i])
      && m' == m.(memory := m'.memory, pc := m.pc + 1)
  {
  }

  /** `>` moves the data pointer up by exactly one; `<` moves it down by
      one, and panics at cell 0. Nothing else changes but pc. */
  lemma StepPointer(prog: seq<Instruction>, m: Machine)
    requires m.pc < |prog| && prog[m.pc] in {IncPtr, DecPtr}
    ensures prog[m.pc] == IncPtr ==> Step(prog, m) == Next(m.(dp := m.dp + 1, pc := m.pc + 1))
    ensures prog[m.pc] == DecPtr && m.dp > 0 ==> Step(prog, m) == Next(m.(dp := m.dp - 1, pc := m.pc + 1))
    ensures prog[m.pc] == DecPtr && m.dp == 0 ==> Step(prog, m) == Panic(m, PointerUnderflow)
  {
  }

  /** `,` stores the next input byte in the current cell and fails at the
      end of input; `.` appends the current cell and leaves memory alone. */
  lemma StepReadWrite(prog: seq<Instruction>, m: Machine)
    requires m.pc < |prog| && prog[m.pc] in {Read, Write}
    ensures prog[m.pc] == Read && m.input == [] ==> Step(prog, m) == Stop(Outcome(Failed(Io(UnexpectedEof)), m.output))
    ensures prog[m.pc] == Read && m.input != [] && InBounds(m) ==>
      Step(prog, m) == Next(m.(memory := m.memory[m.dp := m.input[0]], input := m.input[1..], pc := m.pc + 1))
    ensures prog[m.pc] == Write && InBounds(m) ==>
      Step(prog, m) == Next(m.(output := m.output + [Cell(m)], pc := m.pc + 1))
  {
  }

  /** `[` on a zero cell continues after the `]` that closes it, and fails
      with the saved pc when nothing closes it; on a nonzero cell it just
      moves on. */
  lemma StepJumpIfZero(prog: seq<Instruction>, m: Machine)
    requires m.pc < |prog| && prog[m.pc] == JumpIfZero && InBounds(m)
    ensures Cell(m) != 0 ==> Step(prog, m) == Next(m.(pc := m.pc + 1))
    ensures Cell(m) == 0 && Step(prog, m).Next? ==>
      var q := Step(prog, m).next.pc - 1;
      && Brackets.ClosesAt(Depths(prog), m.pc, q)
      && prog[q] == JumpIfNotZero
      && Step(prog, m).next == m.(pc := q + 1)
    ensures Cell(m) == 0 && Step(prog, m).Stop? ==>
      && Brackets.NeverCloses(Depths(prog), m.pc)
      && Step(prog, m) == Fail(m, Bf(UnmatchedMessage(true, m.pc)))
  {
    var d := Depths(prog);
    Brackets.ScanForwardFindsClose(d, m.pc);
    var scan := Brackets.ScanForward(d, m.pc, 1);
    if Cell(m) == 0 && scan.Some? {
      Brackets.CloseKind(d, m.pc, scan.value);
    }
  }

  /** `]` on a nonzero cell continues after the `[` that opens it, and fails
      with the saved pc when nothing opens it; on a zero cell it just moves on. */
  lemma StepJumpIfNotZero(prog: seq<Instruction>, m: Machine)
    requires m.pc < |prog| && prog[m.pc] == JumpIfNotZero && InBounds(m)
    ensures Cell(m) == 0 ==> Step(prog, m) == Next(m.(pc := m.pc + 1))
    ensures Cell(m) != 0 && Step(prog, m).Next? ==>
      var q := Step(prog, m).next.pc - 1;
      && Brackets.OpensAt(Depths(prog), q, m.pc)
      && prog[q] == JumpIfZero
      && Step(prog, m).next == m.(pc := q + 1)
    ensures Cell(m) != 0 && Step(prog, m).Stop? ==>
      && Brackets.NeverOpens(Depths(prog), m.pc)
      && Step(prog, m) == Fail(m, Bf(UnmatchedMessage(false, m.pc)))
  {
    var d := Depths(prog);
    Brackets.ScanBackwardFindsOpen(d, m.pc);
    var scan := Brackets.ScanBackward(d, m.pc, 1);
    if Cell(m) != 0 && scan.Some? {
      Brackets.OpenKind(d, scan.value, m.pc);
    }
  }

  /** The two scans pair the same brackets: when `[` at p jumps to q, the
      `]` at q jumps back to p. */
  lemma JumpsPairUp(prog: seq<Instruction>, p: nat, cell: u8)
    requires p < |prog| && prog[p] == JumpIfZero && cell != 0
    requires JumpTarget(true, prog, 0, p).Ok?
    ensures var q := JumpTarget(true, prog, 0, p).value;
      q < |prog| && prog[q] == JumpIfNotZero && JumpTarget(false, prog, cell, q) == Ok(p)
  {
    var d := Depths(prog);
    Brackets.ScanForwardFindsClose(d, p);
    Brackets.ScansAgree(d, p, JumpTarget(true, prog, 0, p).value);
  }
}
