/** vms/opinterp3/src/vm.rs: the interpreter for the optimized instruction
    set. Counted data instructions use `unbalanced_wrapping_add`/`_sub` in
    one step, and three loop idioms have instructions of their own: clearing
    a cell, moving the pointer until a zero cell, and moving a cell's value
    onto another cell. */
module Op3Vm {
  import opened Util
  import opened Tape
  import Math
  import Op2Vm

  /** The instruction set `run` matches on; the parser producing it is not
      part of this model. */
  datatype Instruction =
    | IncPtr(count: nat)
    | DecPtr(count: nat)
    | IncData(count: nat)
    | DecData(count: nat)
    | Read(count: nat)
    | Write(count: nat)
    | JumpBegin(destination: nat)
    | JumpEnd(destination: nat)
    | SetDataToZero
    | MovePtrUntilZero(count: nat, forward: bool, amount: nat)
    | MoveData(count: nat, forward: bool, amount: nat)

  datatype Program = Program(instructions: seq<Instruction>)

  /** One round of `while memory[data_pointer] != 0 { data_pointer ±= amount }`:
      every test reads the cell (panicking past the tape), a backward move
      below cell 0 panics, and a zero amount on a nonzero cell never ends. */
  function MoveUntilZero(m: Machine, forward: bool, amount: nat): (r: StepResult)
    decreases if forward then |m.memory| - m.dp else m.dp
  {
    if !InBounds(m) then Panic(m, IndexOutOfBounds)
    else if Cell(m) == 0 then Next(m)
    else if amount == 0 then Stop(Outcome(Spins, m.output))
    else if forward then MoveUntilZero(m.(dp := m.dp + amount), forward, amount)
    else if amount > m.dp then Panic(m, PointerUnderflow)
    else MoveUntilZero(m.(dp := m.dp - amount), forward, amount)
  }

  /** The body of the MoveData loop: on a nonzero cell, add it onto the cell
      `amount` away and clear it. The target is computed first (a backward
      one below cell 0 panics), then read (panicking past the tape). */
  function MoveDataOnce(m: Machine, forward: bool, amount: nat): (r: StepResult)
  {
    if !InBounds(m) then Panic(m, IndexOutOfBounds)
    else if Cell(m) == 0 then Next(m)
    else if !forward && amount > m.dp then Panic(m, PointerUnderflow)
    else
      var to := if forward then m.dp + amount else m.dp - amount;
      if to >= |m.memory| then Panic(m, IndexOutOfBounds)
      else
        var moved := m.memory[to := WrappingAdd(m.memory[to], Cell(m))];
        Next(m.(memory := moved[m.dp := 0]))
  }

  /** `for _ in 0..count { body }` over a body that may stop the run. */
  function MovePtrTimes(m: Machine, count: nat, forward: bool, amount: nat): StepResult
    decreases count
  {
    if count == 0 then Next(m)
    else
      var r := MoveUntilZero(m, forward, amount);
      if r.Next? then MovePtrTimes(r.next, count - 1, forward, amount) else r
  }

  function MoveDataTimes(m: Machine, count: nat, forward: bool, amount: nat): StepResult
    decreases count
  {
    if count == 0 then Next(m)
    else
      var r := MoveDataOnce(m, forward, amount);
      if r.Next? then MoveDataTimes(r.next, count - 1, forward, amount) else r
  }

  /** One iteration of the loop in `run`. */
  function Step(prog: seq<Instruction>, m: Machine): StepResult
    requires m.pc < |prog|
  {
    match prog[m.pc]
    case IncPtr(count) => Next(m.(dp := m.dp + count, pc := m.pc + 1))
    case DecPtr(count) =>
      if count > m.dp then Panic(m, PointerUnderflow) else Next(m.(dp := m.dp - count, pc := m.pc + 1))
    case IncData(count) =>
      if InBounds(m) then Next(SetCell(m, Math.UnbalancedWrappingAdd(Cell(m), count)).(pc := m.pc + 1))
      else Panic(m, IndexOutOfBounds)
    case DecData(count) =>
      if InBounds(m) then Next(SetCell(m, Math.UnbalancedWrappingSub(Cell(m), count)).(pc := m.pc + 1))
      else Panic(m, IndexOutOfBounds)
    case Read(count) => Advance(Op2Vm.ReadTimes(m, count))
    case Write(count) => Advance(Op2Vm.WriteTimes(m, count))
    case JumpBegin(destination) => Op2Vm.JumpStep(true, destination, m)
    case JumpEnd(destination) => Op2Vm.JumpStep(false, destination, m)
    case SetDataToZero =>
      if InBounds(m) then Next(SetCell(m, 0).(pc := m.pc + 1)) else Panic(m, IndexOutOfBounds)
    case MovePtrUntilZero(count, forward, amount) => Advance(MovePtrTimes(m, count, forward, amount))
    case MoveData(count, forward, amount) => Advance(MoveDataTimes(m, count, forward, amount))
  }

  /** The `while pc < len` loop, run for at most `fuel` iterations. */
  function Exec(prog: seq<Instruction>, m: Machine, fuel: nat): Outcome
    decreases fuel
  {
    if m.pc >= |prog| then Outcome(Finished, m.output)
    else if fuel == 0 then Outcome(OutOfFuel, m.output)
    else
      var r := Step(prog, m);
      if r.Next? then Exec(prog, r.next, fuel - 1) else r.outcome
  }

  /** `run` over a 30000-cell array, for at most `fuel` instructions. */
  method Run(program: Program, input: seq<u8>, fuel: nat) returns (outcome: Outcome)
    ensures outcome == Exec(program.instructions, Initial(input), fuel)
  {
    var prog := program.instructions;
    var memory := new u8[MemorySize](_ => 0);
    var pc: nat, dataPointer: nat, pos: nat, output: seq<u8>, steps: nat := 0, 0, 0, [], fuel;
    assert memory[..] == Initial(input).memory;
    assert input[0..] == input;
    while pc < |prog|
      invariant memory.Length == MemorySize && pos <= |input|
      invariant Exec(prog, Machine(memory[..], pc, dataPointer, input[pos..], output), steps)
             == Exec(prog, Initial(input), fuel)
      decreases steps
    {
      if steps == 0 {
        return Outcome(OutOfFuel, output);
      }
      ghost var m := Machine(memory[..], pc, dataPointer, input[pos..], output);
      var stop;
      stop, pc, dataPointer, pos, output := Execute(prog, memory, pc, dataPointer, input, pos, output);
      if stop.Some? {
        return stop.value;
      }
      ExecNext(prog, m, Machine(memory[..], pc, dataPointer, input[pos..], output), steps);
      steps := steps - 1;
    }
    return Outcome(Finished, output);
  }

  /** One round of the loop of `run`: the instruction at pc, on the array.
      It reports the outcome of a round that stops, or else the registers
      the next round starts from. */
  method Execute(prog: seq<Instruction>, memory: array<u8>, pc: nat, dataPointer: nat,
                 input: seq<u8>, pos: nat, output: seq<u8>)
    returns (stop: Option<Outcome>, pc': nat, dp: nat, pos': nat, output': seq<u8>)
    requires pc < |prog| && memory.Length == MemorySize && pos <= |input|
    modifies memory
    ensures pos' <= |input|
    ensures var r := Step(prog, Machine(old(memory[..]), pc, dataPointer, input[pos..], output));
      if stop.Some? then r == Stop(stop.value) else r == Next(Machine(memory[..], pc', dp, input[pos'..], output'))
  {
    pc', dp, pos', output' := pc + 1, dataPointer, pos, output;
    match prog[pc] {
      case IncPtr(count) =>
        dp := dataPointer + count;
      case DecPtr(count) =>
        if count > dataPointer {
          stop := Some(Outcome(Panicked(PointerUnderflow), output));
          return;
        }
        dp := dataPointer - count;
      case IncData(count) =>
        if dataPointer >= MemorySize {
          stop := Some(Outcome(Panicked(IndexOutOfBounds), output));
          return;
        }
        memory[dataPointer] := Math.UnbalancedWrappingAdd(memory[dataPointer], count);
      case DecData(count) =>
        if dataPointer >= MemorySize {
          stop := Some(Outcome(Panicked(IndexOutOfBounds), output));
          return;
        }
        memory[dataPointer] := Math.UnbalancedWrappingSub(memory[dataPointer], count);
      case Read(count) =>
        stop, pos' := Op2Vm.ReadLoop(memory, pc, dataPointer, input, pos, output, count);
        if stop.Some? {
          return;
        }
      case Write(count) =>
        stop, output' := Op2Vm.WriteLoop(memory, pc, dataPointer, input[pos..], output, count);
        if stop.Some? {
          return;
        }
      case JumpBegin(destination) =>
        if dataPointer >= MemorySize {
          stop := Some(Outcome(Panicked(IndexOutOfBounds), output));
          return;
        }
        if memory[dataPointer] == 0 {
          pc' := destination + 1;
        }
      case JumpEnd(destination) =>
        if dataPointer >= MemorySize {
          stop := Some(Outcome(Panicked(IndexOutOfBounds), output));
          return;
        }
        if memory[dataPointer] != 0 {
          pc' := destination + 1;
        }
      case SetDataToZero =>
        if dataPointer >= MemorySize {
          stop := Some(Outcome(Panicked(IndexOutOfBounds), output));
          return;
        }
        memory[dataPointer] := 0;
      case MovePtrUntilZero(count, forward, amount) =>
        stop, dp := MovePtrLoop(memory, pc, dataPointer, input[pos..], output, count, forward, amount);
        if stop.Some? {
          return;
        }
      case MoveData(count, forward, amount) =>
        stop := MoveDataLoop(memory, pc, dataPointer, input[pos..], output, count, forward, amount);
        if stop.Some? {
          return;
        }
    }
    stop := None;
  }

  /** A round that goes on leaves the rest of the run to the next state. */
  lemma ExecNext(prog: seq<Instruction>, m: Machine, m': Machine, fuel: nat)
    requires m.pc < |prog| && fuel > 0 && Step(prog, m) == Next(m')
    ensures Exec(prog, m, fuel) == Exec(prog, m', fuel - 1)
  {
  }

  /** The loops of MovePtrUntilZero: the data pointer they leave, or the
      outcome of the round that stopped. A zero amount on a nonzero cell is
      reported as spinning instead of being run forever. */
  method MovePtrLoop(memory: array<u8>, pc: nat, dataPointer: nat, input: seq<u8>, output: seq<u8>,
                     count: nat, forward: bool, amount: nat)
    returns (stop: Option<Outcome>, dp: nat)
    ensures MovePtrTimes(Machine(memory[..], pc, dataPointer, input, output), count, forward, amount)
         == if stop.Some? then Stop(stop.value) else Next(Machine(memory[..], pc, dp, input, output))
  {
    ghost var m := Machine(memory[..], pc, dataPointer, input, output);
    dp := dataPointer;
    for i := 0 to count
      invariant MovePtrTimes(Machine(memory[..], pc, dp, input, output), count - i, forward, amount)
             == MovePtrTimes(m, count, forward, amount)
    {
      ghost var start := Machine(memory[..], pc, dp, input, output);
      while true
        invariant MoveUntilZero(Machine(memory[..], pc, dp, input, output), forward, amount)
               == MoveUntilZero(start, forward, amount)
        decreases if forward then memory.Length - dp else dp
      {
        if dp >= memory.Length {
          return Some(Outcome(Panicked(IndexOutOfBounds), output)), dp;
        }
        if memory[dp] == 0 {
          break;
        }
        if amount == 0 {
          return Some(Outcome(Spins, output)), dp;
        }
        if forward {
          dp := dp + amount;
        } else {
          if amount > dp {
            return Some(Outcome(Panicked(PointerUnderflow), output)), dp;
          }
          dp := dp - amount;
        }
      }
    }
    stop := None;
  }

  /** The loop of MoveData: the array it leaves, or the outcome of the round
      that stopped. */
  method MoveDataLoop(memory: array<u8>, pc: nat, dataPointer: nat, input: seq<u8>, output: seq<u8>,
                      count: nat, forward: bool, amount: nat)
    returns (stop: Option<Outcome>)
    modifies memory
    ensures MoveDataTimes(Machine(old(memory[..]), pc, dataPointer, input, output), count, forward, amount)
         == if stop.Some? then Stop(stop.value) else Next(Machine(memory[..], pc, dataPointer, input, output))
  {
    ghost var m := Machine(memory[..], pc, dataPointer, input, output);
    for i := 0 to count
      invariant MoveDataTimes(Machine(memory[..], pc, dataPointer, input, output), count - i, forward, amount)
             == MoveDataTimes(m, count, forward, amount)
    {
      if dataPointer >= memory.Length {
        return Some(Outcome(Panicked(IndexOutOfBounds), output));
      }
      if memory[dataPointer] != 0 {
        if !forward && amount > dataPointer {
          return Some(Outcome(Panicked(PointerUnderflow), output));
        }
        var moveTo := if forward then dataPointer + amount else dataPointer - amount;
        if moveTo >= memory.Length {
          return Some(Outcome(Panicked(IndexOutOfBounds), output));
        }
        memory[moveTo] := WrappingAdd(memory[moveTo], memory[dataPointer]);
        memory[dataPointer] := 0;
      }
    }
    stop := None;
  }

  /** `IncData`/`DecData` leave (v ± count) mod 256 in the current cell and
      change no other cell. */
  lemma StepData(prog: seq<Instruction>, m: Machine)
    requires m.pc < |prog| && (prog[m.pc].IncData? || prog[m.pc].DecData?) && InBounds(m)
    ensures Step(prog, m).Next?
    ensures var m' := Step(prog, m).next;
      && m'.memory[m.dp] as int == (Cell(m) as int + if prog[m.pc].IncData? then prog[m.pc].count as int else -(prog[m.pc].count as int)) % 256
      && (forall i :: 0 <= i < |m.memory| && i != m.dp ==> m'.memory[i] == m.memory[i])
      && m' == m.(memory := m'.memory, pc := m.pc + 1)
  {
  }

  /** `SetDataToZero` clears the current cell and changes nothing else. */
  lemma StepSetDataToZero(prog: seq<Instruction>, m: Machine)
    requires m.pc < |prog| && prog[m.pc] == SetDataToZero
    ensures InBounds(m) ==> Step(prog, m) == Next(m.(memory := m.memory[m.dp := 0], pc := m.pc + 1))
    ensures !InBounds(m) ==> Step(prog, m) == Panic(m, IndexOutOfBounds)
  {
  }

  /** A finished pointer move stops on a zero cell, a whole number of
      `amount` steps from where it began in the chosen direction, with
      memory, input and output untouched. */
  lemma {:induction false} MoveUntilZeroSpec(m: Machine, forward: bool, amount: nat)
    requires MoveUntilZero(m, forward, amount).Next?
    ensures var m' := MoveUntilZero(m, forward, amount).next;
      && InBounds(m') && Cell(m') == 0
      && m' == m.(dp := m'.dp)
      && exists k: nat :: m'.dp == if forward then m.dp + k * amount else m.dp - k * amount
    decreases if forward then |m.memory| - m.dp else m.dp
  {
    var m' := MoveUntilZero(m, forward, amount).next;
    if Cell(m) == 0 {
      assert m'.dp == m.dp + 0 * amount;
    } else {
      var m1 := if forward then m.(dp := m.dp + amount) else m.(dp := m.dp - amount);
      MoveUntilZeroSpec(m1, forward, amount);
      var k: nat :| m'.dp == if forward then m1.dp + k * amount else m1.dp - k * amount;
      assert m'.dp == if forward then m.dp + (k + 1) * amount else m.dp - (k + 1) * amount;
    }
  }

  /** A pointer move ends either on a zero cell or by stopping the run: on
      a nonzero cell with a zero amount it spins, and otherwise it can only
      stop by running off either end of the tape. */
  lemma {:induction false} MoveUntilZeroStops(m: Machine, forward: bool, amount: nat)
    requires MoveUntilZero(m, forward, amount).Stop?
    ensures MoveUntilZero(m, forward, amount).outcome.output == m.output
    ensures MoveUntilZero(m, forward, amount).outcome.status in
      {Panicked(IndexOutOfBounds), Panicked(PointerUnderflow), Spins}
    ensures MoveUntilZero(m, forward, amount).outcome.status == Spins <==> amount == 0 && InBounds(m) && Cell(m) != 0
    decreases if forward then |m.memory| - m.dp else m.dp
  {
    if InBounds(m) && Cell(m) != 0 && amount > 0 {
      if forward {
        MoveUntilZeroStops(m.(dp := m.dp + amount), forward, amount);
      } else if amount <= m.dp {
        MoveUntilZeroStops(m.(dp := m.dp - amount), forward, amount);
      }
    }
  }

  /** Repeating a pointer move is the same as doing it once: every later
      round starts on the zero cell the first one found. */
  lemma {:induction false} MovePtrTimesOnce(m: Machine, count: nat, forward: bool, amount: nat)
    requires count >= 1
    ensures MovePtrTimes(m, count, forward, amount) == MoveUntilZero(m, forward, amount)
    decreases count
  {
    var r := MoveUntilZero(m, forward, amount);
    if r.Next? && count > 1 {
      MoveUntilZeroSpec(m, forward, amount);
      assert MoveUntilZero(r.next, forward, amount) == Next(r.next);
      MovePtrTimesOnce(r.next, count - 1, forward, amount);
    }
  }

  /** On a nonzero cell a data move adds the cell onto the cell `amount`
      away, modulo 256, and clears it; no other cell changes. On a zero cell
      nothing changes. */
  lemma MoveDataOnceSpec(m: Machine, forward: bool, amount: nat)
    requires InBounds(m)
    ensures Cell(m) == 0 ==> MoveDataOnce(m, forward, amount) == Next(m)
    ensures Cell(m) != 0 && (forward || amount <= m.dp) ==>
      var to := if forward then m.dp + amount else m.dp - amount;
      && (to >= |m.memory| ==> MoveDataOnce(m, forward, amount) == Panic(m, IndexOutOfBounds))
      && (to < |m.memory| ==>
            && MoveDataOnce(m, forward, amount).Next?
            && var m' := MoveDataOnce(m, forward, amount).next;
            && m' == m.(memory := m'.memory)
            && |m'.memory| == |m.memory|
            && m'.memory[m.dp] == 0
            && (to != m.dp ==> m'.memory[to] as int == (m.memory[to] as int + Cell(m) as int) % 256)
            && (forall i :: 0 <= i < |m.memory| && i != m.dp && i != to ==> m'.memory[i] == m.memory[i]))
    ensures Cell(m) != 0 && !forward && amount > m.dp ==> MoveDataOnce(m, forward, amount) == Panic(m, PointerUnderflow)
  {
  }

  /** Repeating a data move is the same as doing it once: every later round
      starts on the cleared cell. */
  lemma {:induction false} MoveDataTimesOnce(m: Machine, count: nat, forward: bool, amount: nat)
    requires count >= 1
    ensures MoveDataTimes(m, count, forward, amount) == MoveDataOnce(m, forward, amount)
    decreases count
  {
    var r := MoveDataOnce(m, forward, amount);
    if r.Next? && count > 1 {
      assert InBounds(r.next) && Cell(r.next) == 0;
      assert MoveDataOnce(r.next, forward, amount) == Next(r.next);
      MoveDataTimesOnce(r.next, count - 1, forward, amount);
    }
  }

  /** A jump whose condition holds continues after its stored destination;
      otherwise it moves on. */
  lemma StepJump(prog: seq<Instruction>, m: Machine)
    requires m.pc < |prog| && (prog[m.pc].JumpBegin? || prog[m.pc].JumpEnd?) && InBounds(m)
    ensures var taken := if prog[m.pc].JumpBegin? then Cell(m) == 0 else Cell(m) != 0;
      Step(prog, m) == Next(m.(pc := if taken then prog[m.pc].destination + 1 else m.pc + 1))
  {
  }
}
