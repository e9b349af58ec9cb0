/** vms/opinterp2/src/vm.rs: the interpreter for run-length encoded
    instructions. A counted instruction does its unit operation count times;
    a bracket jumps straight to the destination stored in it. */
module Op2Vm {
  import opened Util
  import opened Tape
  import Math
  import opened Op2Parser
  import SimpleParser
  import Brackets

  /** `for _ in 0..count { memory[data_pointer] = read(stdin)? }`: each
      round reads a byte and stores it; the first round that fails stops. */
  function ReadTimes(m: Machine, n: nat): StepResult
    decreases n
  {
    if n == 0 then Next(m)
    else
      var r := ReadCell(m);
      if r.Next? then ReadTimes(r.next, n - 1) else r
  }

  /** `for _ in 0..count { write(stdout, memory[data_pointer])? }`. */
  function WriteTimes(m: Machine, n: nat): StepResult
    decreases n
  {
    if n == 0 then Next(m)
    else
      var r := WriteCell(m);
      if r.Next? then WriteTimes(r.next, n - 1) else r
  }

  /** `jump`: the cell is compared first (panicking past the tape); a jump
      whose condition holds puts pc on its destination. The increment of
      `run` follows either way. */
  function JumpStep(eqZero: bool, destination: nat, m: Machine): StepResult
  {
    if !InBounds(m) then Panic(m, IndexOutOfBounds)
    else if (if eqZero then Cell(m) == 0 else Cell(m) != 0) then Next(m.(pc := destination + 1))
    else Next(m.(pc := m.pc + 1))
  }

  /** One iteration of the loop in `run`. IncData and DecData read the cell
      before their loop, so they panic past the tape whatever the count. */
  function Step(prog: seq<Instruction>, m: Machine): StepResult
    requires m.pc < |prog|
  {
    match prog[m.pc]
    case IncPtr(count) => Next(m.(dp := m.dp + count, pc := m.pc + 1))
    case DecPtr(count) =>
      if count > m.dp then Panic(m, PointerUnderflow) else Next(m.(dp := m.dp - count, pc := m.pc + 1))
    case IncData(count) =>
      if InBounds(m) then Next(SetCell(m, Math.IncrementTimes(Cell(m), count)).(pc := m.pc + 1))
      else Panic(m, IndexOutOfBounds)
    case DecData(count) =>
      if InBounds(m) then Next(SetCell(m, Math.DecrementTimes(Cell(m), count)).(pc := m.pc + 1))
      else Panic(m, IndexOutOfBounds)
    case Read(count) => Advance(ReadTimes(m, count))
    case Write(count) => Advance(WriteTimes(m, count))
    case JumpIfZero(destination) => JumpStep(true, destination, m)
    case JumpIfNotZero(destination) => JumpStep(false, destination, m)
  }

  /** The `while pc < len` loop, run for at most `fuel` iterations. */
  function Exec(prog: seq<Instruction>, m: Machine, fuel: nat): Outcome
    decreases fuel
  {
    if m.pc >= |prog| then Outcome(Finished, m.output)
    else if fuel == 0 then Outcome(OutOfFuel, m.output)
    else
      var r := Step(prog, m);
      if r.Next? then Exec(prog, r.next, fuel - 1) else r.outcome
  }

  /** `run` over a 30000-cell array, for at most `fuel` instructions, with
      the inner `for` loops of the counted instructions. */
  method Run(program: Program, input: seq<u8>, fuel: nat) returns (outcome: Outcome)
    ensures outcome == Exec(program.instructions, Initial(input), fuel)
  {
    var prog := program.instructions;
    var memory := new u8[MemorySize](_ => 0);
    var pc: nat, dataPointer: nat, pos: nat, output: seq<u8>, steps: nat := 0, 0, 0, [], fuel;
    assert memory[..] == Initial(input).memory;
    assert input[0..] == input;
    while pc < |prog|
      invariant memory.Length == MemorySize && pos <= |input|
      invariant Exec(prog, Machine(memory[..], pc, dataPointer, input[pos..], output), steps)
             == Exec(prog, Initial(input), fuel)
      decreases steps
    {
      if steps == 0 {
        return Outcome(OutOfFuel, output);
      }
      ghost var m := Machine(memory[..], pc, dataPointer, input[pos..], output);
      match prog[pc] {
        case IncPtr(count) =>
          dataPointer := dataPointer + count;
        case DecPtr(count) =>
          if count > dataPointer {
            return Outcome(Panicked(PointerUnderflow), output);
          }
          dataPointer := dataPointer - count;
        case IncData(count) =>
          if dataPointer >= MemorySize {
            return Outcome(Panicked(IndexOutOfBounds), output);
          }
          var val := IncrementLoop(memory[dataPointer], count);
          memory[dataPointer] := val;
        case DecData(count) =>
          if dataPointer >= MemorySize {
            return Outcome(Panicked(IndexOutOfBounds), output);
          }
          var val := DecrementLoop(memory[dataPointer], count);
          memory[dataPointer] := val;
        case Read(count) =>
          var stop;
          stop, pos := ReadLoop(memory, pc, dataPointer, input, pos, output, count);
          if stop.Some? {
            return stop.value;
          }
        case Write(count) =>
          var stop;
          stop, output := WriteLoop(memory, pc, dataPointer, input[pos..], output, count);
          if stop.Some? {
            return stop.value;
          }
        case JumpIfZero(destination) =>
          if dataPointer >= MemorySize {
            return Outcome(Panicked(IndexOutOfBounds), output);
          }
          if memory[dataPointer] == 0 {
            pc := destination;
          }
        case JumpIfNotZero(destination) =>
          if dataPointer >= MemorySize {
            return Outcome(Panicked(IndexOutOfBounds), output);
          }
          if memory[dataPointer] != 0 {
            pc := destination;
          }
      }
      pc := pc + 1;
      assert Step(prog, m) == Next(Machine(memory[..], pc, dataPointer, input[pos..], output));
      steps := steps - 1;
    }
    return Outcome(Finished, output);
  }

  /** The loop of IncData: `count` rounds of wrapping_add(1) on `val`. */
  method IncrementLoop(v: u8, count: nat) returns (val: u8)
    ensures val == Math.IncrementTimes(v, count)
  {
    val := v;
    for i := 0 to count
      invariant val == Math.IncrementTimes(v, i)
    {
      val := WrappingAdd(val, 1);
    }
  }

  /** The loop of DecData: `count` rounds of wrapping_sub(1) on `val`. */
  method DecrementLoop(v: u8, count: nat) returns (val: u8)
    ensures val == Math.DecrementTimes(v, count)
  {
    val := v;
    for i := 0 to count
      invariant val == Math.DecrementTimes(v, i)
    {
      val := WrappingSub(val, 1);
    }
  }

  /** The loop of Read: the array and the input position it leaves, or the
      outcome of the round that stopped. */
  method ReadLoop(memory: array<u8>, pc: nat, dataPointer: nat, input: seq<u8>, pos: nat, output: seq<u8>, count: nat)
    returns (stop: Option<Outcome>, pos': nat)
    requires pos <= |input|
    modifies memory
    ensures pos' <= |input|
    ensures ReadTimes(Machine(old(memory[..]), pc, dataPointer, input[pos..], output), count)
         == if stop.Some? then Stop(stop.value) else Next(Machine(memory[..], pc, dataPointer, input[pos'..], output))
  {
    ghost var m := Machine(memory[..], pc, dataPointer, input[pos..], output);
    pos' := pos;
    for i := 0 to count
      invariant pos' <= |input|
      invariant ReadTimes(Machine(memory[..], pc, dataPointer, input[pos'..], output), count - i)
             == ReadTimes(m, count)
    {
      if pos' == |input| {
        return Some(Outcome(Failed(Io(UnexpectedEof)), output)), pos';
      }
      var c := input[pos'];
      pos' := pos' + 1;
      assert input[pos'..] == input[pos' - 1..][1..];
      if dataPointer >= memory.Length {
        return Some(Outcome(Panicked(IndexOutOfBounds), output)), pos';
      }
      memory[dataPointer] := c;
    }
    stop := None;
  }

  /** The loop of Write: the output it leaves, or the outcome of the round
      that stopped. */
  method WriteLoop(memory: array<u8>, pc: nat, dataPointer: nat, input: seq<u8>, output: seq<u8>, count: nat)
    returns (stop: Option<Outcome>, output': seq<u8>)
    ensures WriteTimes(Machine(memory[..], pc, dataPointer, input, output), count)
         == if stop.Some? then Stop(stop.value) else Next(Machine(memory[..], pc, dataPointer, input, output'))
  {
    output' := output;
    for i := 0 to count
      invariant WriteTimes(Machine(memory[..], pc, dataPointer, input, output'), count - i)
             == WriteTimes(Machine(memory[..], pc, dataPointer, input, output), count)
    {
      if dataPointer >= memory.Length {
        return Some(Outcome(Panicked(IndexOutOfBounds), output')), output';
      }
      output' := output' + [memory[dataPointer]];
    }
    stop := None;
  }

  /** `IncData{count}` and `DecData{count}` leave (v + count) mod 256 and
      (v - count) mod 256 in the current cell, which is what opinterp3 gets
      from `unbalanced_wrapping_add`/`_sub`; no other cell changes. */
  lemma StepData(prog: seq<Instruction>, m: Machine)
    requires m.pc < |prog| && (prog[m.pc].IncData? || prog[m.pc].DecData?) && InBounds(m)
    ensures Step(prog, m).Next?
    ensures var m' := Step(prog, m).next;
      && m'.memory[m.dp] == (if prog[m.pc].IncData? then Math.UnbalancedWrappingAdd(Cell(m), prog[m.pc].count)
                             else Math.UnbalancedWrappingSub(Cell(m), prog[m.pc].count))
      && m'.memory[m.dp] as int == (Cell(m) as int + if prog[m.pc].IncData? then prog[m.pc].count as int else -(prog[m.pc].count as int)) % 256
      && (forall i :: 0 <= i < |m.memory| && i != m.dp ==> m'.memory[i] == m.memory[i])
      && m' == m.(memory := m'.memory, pc := m.pc + 1)
  {
    Math.AddIsRepeatedIncrement(Cell(m), prog[m.pc].count);
    Math.SubIsRepeatedDecrement(Cell(m), prog[m.pc].count);
  }

  /** `IncPtr{count}` and `DecPtr{count}` move the pointer by exactly count;
      a `DecPtr` past cell 0 panics. */
  lemma StepPointer(prog: seq<Instruction>, m: Machine)
    requires m.pc < |prog| && (prog[m.pc].IncPtr? || prog[m.pc].DecPtr?)
    ensures prog[m.pc].IncPtr? ==> Step(prog, m) == Next(m.(dp := m.dp + prog[m.pc].count, pc := m.pc + 1))
    ensures prog[m.pc].DecPtr? && prog[m.pc].count <= m.dp ==>
      Step(prog, m) == Next(m.(dp := m.dp - prog[m.pc].count, pc := m.pc + 1))
    ensures prog[m.pc].DecPtr? && prog[m.pc].count > m.dp ==> Step(prog, m) == Panic(m, PointerUnderflow)
  {
  }

  /** Reading n bytes: with n bytes available the cell holds the last of
      them and exactly n are consumed; with fewer the run fails at the end
      of input; past the tape the first byte read panics. */
  lemma {:induction false} ReadTimesSpec(m: Machine, n: nat)
    ensures n == 0 ==> ReadTimes(m, n) == Next(m)
    ensures n > 0 && m.input == [] ==> ReadTimes(m, n) == Fail(m, Io(UnexpectedEof))
    ensures n > 0 && m.input != [] && !InBounds(m) ==> ReadTimes(m, n) == Panic(m, IndexOutOfBounds)
    ensures n > 0 && InBounds(m) && n <= |m.input| ==>
      ReadTimes(m, n) == Next(SetCell(m, m.input[n - 1]).(input := m.input[n..]))
    ensures n > 0 && InBounds(m) && |m.input| < n ==> ReadTimes(m, n) == Fail(m, Io(UnexpectedEof))
    decreases n
  {
    if n > 0 && m.input != [] && InBounds(m) {
      var m1 := SetCell(m, m.input[0]).(input := m.input[1..]);
      ReadTimesSpec(m1, n - 1);
      if n > 1 && n <= |m.input| {
        assert m1.input[n - 2] == m.input[n - 1];
        assert m1.input[n - 2..] == m.input[n - 1..];
        assert SetCell(m1, m1.input[n - 2]).memory == SetCell(m, m.input[n - 1]).memory;
      }
    }
  }

  /** Writing n times appends the current cell n times and changes nothing
      else; past the tape the first write panics. */
  lemma {:induction false} WriteTimesSpec(m: Machine, n: nat)
    ensures n == 0 ==> WriteTimes(m, n) == Next(m)
    ensures n > 0 && !InBounds(m) ==> WriteTimes(m, n) == Panic(m, IndexOutOfBounds)
    ensures InBounds(m) ==> WriteTimes(m, n) == Next(m.(output := m.output + seq(n, _ => Cell(m))))
    decreases n
  {
    if n > 0 && InBounds(m) {
      var m1 := m.(output := m.output + [Cell(m)]);
      WriteTimesSpec(m1, n - 1);
      assert m1.output + seq(n - 1, _ => Cell(m)) == m.output + seq(n, _ => Cell(m));
    }
  }

  /** A jump whose condition holds continues after its stored destination;
      otherwise it moves on. */
  lemma StepJump(prog: seq<Instruction>, m: Machine)
    requires m.pc < |prog| && IsJump(prog[m.pc]) && InBounds(m)
    ensures var taken := if prog[m.pc].JumpIfZero? then Cell(m) == 0 else Cell(m) != 0;
      Step(prog, m) == Next(m.(pc := if taken then prog[m.pc].destination + 1 else m.pc + 1))
  {
  }

  /** On a program `parse` produced, a `[` on a zero cell continues after the
      `]` that closes it, and a `]` on a nonzero cell continues after the
      `[` that it closes. */
  lemma JumpToPartner(opcodes: seq<SimpleParser.Instruction>, prog: seq<Instruction>, m: Machine)
    requires IsCompression(opcodes, prog)
    requires m.pc < |prog| && IsJump(prog[m.pc]) && InBounds(m)
    ensures prog[m.pc].JumpIfZero? && Cell(m) == 0 ==>
      exists q: nat :: Brackets.ClosesAt(Depths(prog), m.pc, q) && prog[q] == JumpIfNotZero(m.pc)
               && Step(prog, m) == Next(m.(pc := q + 1))
    ensures prog[m.pc].JumpIfNotZero? && Cell(m) != 0 ==>
      exists q: nat :: Brackets.ClosesAt(Depths(prog), q, m.pc) && prog[q] == JumpIfZero(m.pc)
               && Step(prog, m) == Next(m.(pc := q + 1))
  {
    if prog[m.pc].JumpIfZero? {
      assert PairedOpen(prog, m.pc);
    } else {
      assert PairedClose(prog, m.pc);
    }
  }
}
