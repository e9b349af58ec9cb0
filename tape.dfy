/** The machine every interpreter (the four `vm.rs` files) runs: 30000 byte
    cells, a program counter, a data pointer, and stdin/stdout modelled as an
    input sequence that is consumed and an output sequence that is appended
    to. A Rust panic (pointer subtraction below zero, indexing past the tape)
    is an explicit outcome. The `read` and `write` helpers, identical in all
    four files, are defined here once. */
module Tape {
  import opened Util

  /** MEMORY_SIZE. */
  const MemorySize: nat := 30000

  datatype Machine = Machine(memory: seq<u8>, pc: nat, dp: nat, input: seq<u8>, output: seq<u8>)

  /** The state `run` starts from. */
  function Initial(input: seq<u8>): (m: Machine)
  {
    Machine(seq(MemorySize, _ => 0), 0, 0, input, [])
  }

  datatype PanicReason =
    | PointerUnderflow   // usize subtraction below zero
    | IndexOutOfBounds   // memory[data_pointer] with data_pointer >= MEMORY_SIZE

  datatype Status =
    | Finished           // the loop left because pc reached the program length
    | Failed(error: BfError)
    | Panicked(reason: PanicReason)
    | OutOfFuel          // the step budget of the model ran out
    | Spins              // an inner loop that can never end was entered

  /** How a run ends, with everything written to stdout up to then. */
  datatype Outcome = Outcome(status: Status, output: seq<u8>)

  datatype StepResult = Next(next: Machine) | Stop(outcome: Outcome)

  predicate InBounds(m: Machine)
  {
    m.dp < |m.memory|
  }

  /** memory[data_pointer]. */
  function Cell(m: Machine): u8
    requires InBounds(m)
  {
    m.memory[m.dp]
  }

  function SetCell(m: Machine, v: u8): (m': Machine)
    requires InBounds(m)
    ensures |m'.memory| == |m.memory| && m'.memory[m.dp] == v
    ensures forall i :: 0 <= i < |m.memory| && i != m.dp ==> m'.memory[i] == m.memory[i]
    ensures m' == m.(memory := m'.memory)
  {
    m.(memory := m.memory[m.dp := v])
  }

  function Panic(m: Machine, reason: PanicReason): StepResult
  {
    Stop(Outcome(Panicked(reason), m.output))
  }

  function Fail(m: Machine, e: BfError): StepResult
  {
    Stop(Outcome(Failed(e), m.output))
  }

  /** The successor instruction, for a step that did not stop. */
  function Advance(r: StepResult): StepResult
  {
    if r.Next? then Next(r.next.(pc := r.next.pc + 1)) else r
  }

  /** `memory[data_pointer] = read(stdin)?`: the byte is read first, and
      `read_exact` at the end of input is an I/O error; a byte that was read
      then goes to the current cell, which panics past the tape. */
  function ReadCell(m: Machine): (r: StepResult)
    ensures r.Next? <==> m.input != [] && InBounds(m)
    ensures r.Next? ==> r.next == SetCell(m, m.input[0]).(input := m.input[1..])
    ensures r.Stop? && m.input == [] ==> r == Fail(m, Io(UnexpectedEof))
    ensures r.Stop? && m.input != [] ==> r == Panic(m, IndexOutOfBounds)
  {
    if m.input == [] then Fail(m, Io(UnexpectedEof))
    else if !InBounds(m) then Panic(m, IndexOutOfBounds)
    else Next(SetCell(m, m.input[0]).(input := m.input[1..]))
  }

  /** `write(stdout, memory[data_pointer])?`: the cell is read (panicking past
      the tape) and appended to the output; memory is untouched. */
  function WriteCell(m: Machine): (r: StepResult)
    ensures r.Next? <==> InBounds(m)
    ensures r.Next? ==> r.next == m.(output := m.output + [Cell(m)])
    ensures r.Stop? ==> r == Panic(m, IndexOutOfBounds)
  {
    if InBounds(m) then Next(m.(output := m.output + [Cell(m)])) else Panic(m, IndexOutOfBounds)
  }
}
