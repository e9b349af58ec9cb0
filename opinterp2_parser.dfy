/** vms/opinterp2/src/parser.rs: the command characters are filtered into
    opcodes (the same eight as simpleinterp's instructions), then each run
    of one repeated non-bracket opcode becomes a single instruction with a
    count, and each bracket gets the index of its partner, found with a stack
    of open brackets as the program is read once. */
module Op2Parser {
  import opened Util
  import S = SimpleParser
  import Brackets

  datatype Instruction =
    | IncPtr(count: nat)
    | DecPtr(count: nat)
    | IncData(count: nat)
    | DecData(count: nat)
    | Read(count: nat)
    | Write(count: nat)
    | JumpIfZero(destination: nat)
    | JumpIfNotZero(destination: nat)

  datatype Program = Program(instructions: seq<Instruction>)

  predicate IsJump(i: Instruction)
  {
    i.JumpIfZero? || i.JumpIfNotZero?
  }

  /** The opcode an instruction was made from. */
  function OpCode(i: Instruction): (op: S.Instruction)
    ensures IsJump(i) <==> op == S.JumpIfZero || op == S.JumpIfNotZero
  {
    match i
    case IncPtr(_) => S.IncPtr
    case DecPtr(_) => S.DecPtr
    case IncData(_) => S.IncData
    case DecData(_) => S.DecData
    case Read(_) => S.Read
    case Write(_) => S.Write
    case JumpIfZero(_) => S.JumpIfZero
    case JumpIfNotZero(_) => S.JumpIfNotZero
  }

  /** How many opcodes an instruction stands for. */
  function Count(i: Instruction): nat
  {
    if IsJump(i) then 1 else i.count
  }

  /** The inner `match opcode`: a counted instruction for a non-bracket opcode. */
  function Counted(op: S.Instruction, count: nat): (i: Instruction)
    requires op != S.JumpIfZero && op != S.JumpIfNotZero
    ensures !IsJump(i) && OpCode(i) == op && Count(i) == count
  {
    match op
    case IncPtr => IncPtr(count)
    case DecPtr => DecPtr(count)
    case IncData => IncData(count)
    case DecData => DecData(count)
    case Read => Read(count)
    case Write => Write(count)
  }

  /** `set_destination`, defined on the two jumps. */
  function SetDestination(i: Instruction, value: nat): (r: Instruction)
    requires IsJump(i)
    ensures IsJump(r) && OpCode(r) == OpCode(i) && r.destination == value
  {
    match i
    case JumpIfZero(_) => JumpIfZero(value)
    case JumpIfNotZero(_) => JumpIfNotZero(value)
  }

  function Repeat(op: S.Instruction, n: nat): (s: seq<S.Instruction>)
    ensures |s| == n && forall k :: 0 <= k < n ==> s[k] == op
  {
    seq(n, _ => op)
  }

  /** The opcodes a program stands for: each instruction repeated count times. */
  function Expand(instrs: seq<Instruction>): seq<S.Instruction>
  {
    if instrs == [] then []
    else
      var last := instrs[|instrs| - 1];
      Expand(instrs[..|instrs| - 1]) + Repeat(OpCode(last), Count(last))
  }

  /** The depth changes of a program. */
  function Depths(instrs: seq<Instruction>): (d: seq<int>)
    ensures |d| == |instrs| && Brackets.UnitSteps(d)
    ensures forall k :: 0 <= k < |instrs| ==> d[k] == S.Delta(OpCode(instrs[k]))
  {
    seq(|instrs|, k requires 0 <= k < |instrs| => S.Delta(OpCode(instrs[k])))
  }

  /** The `[` at a jumps to the `]` that closes it, which jumps back. */
  ghost predicate PairedOpen(instrs: seq<Instruction>, a: nat)
    requires a < |instrs| && instrs[a].JumpIfZero?
  {
    && instrs[a].destination < |instrs|
    && Brackets.ClosesAt(Depths(instrs), a, instrs[a].destination)
    && instrs[instrs[a].destination] == JumpIfNotZero(a)
  }

  /** The `]` at b jumps to the `[` it closes, which jumps forward to it. */
  ghost predicate PairedClose(instrs: seq<Instruction>, b: nat)
    requires b < |instrs| && instrs[b].JumpIfNotZero?
  {
    && instrs[b].destination < b
    && Brackets.ClosesAt(Depths(instrs), instrs[b].destination, b)
    && instrs[instrs[b].destination] == JumpIfZero(b)
  }

  ghost predicate CountsPositive(instrs: seq<Instruction>)
  {
    forall k :: 0 <= k < |instrs| ==> Count(instrs[k]) >= 1
  }

  /** Runs are maximal: a counted instruction is never followed by one of
      the same opcode. */
  ghost predicate RunsMaximal(instrs: seq<Instruction>)
  {
    forall k :: 0 <= k < |instrs| - 1 && !IsJump(instrs[k]) ==> OpCode(instrs[k]) != OpCode(instrs[k + 1])
  }

  /** What a successful parse produces from the opcodes. */
  ghost predicate IsCompression(opcodes: seq<S.Instruction>, instrs: seq<Instruction>)
  {
    && Expand(instrs) == opcodes
    && CountsPositive(instrs)
    && RunsMaximal(instrs)
    && OpensPaired(instrs, [])
    && ClosesPaired(instrs)
  }

  /** p is where the opcodes first hold more `]` than `[`. */
  ghost predicate FirstUnderflow(d: seq<int>, p: nat)
  {
    p < |d| && Brackets.NonNegativeFrom(d, 0, p) && Brackets.Balance(d, 0, p + 1) == -1
  }

  function UnmatchedCloseMessage(pc: nat): string
  {
    "unmatched ']' at pc=" + NatToString(pc)
  }

  const UnmatchedOpenMessage: string := "unmatched '['"

  /** The open-bracket stack while the program is read: the positions of the
      `[`s still open, innermost last, each still awaiting its destination. */
  ghost predicate OpenStack(instrs: seq<Instruction>, stack: seq<nat>)
  {
    forall i :: 0 <= i < |stack| ==>
      && stack[i] < |instrs| && instrs[stack[i]] == JumpIfZero(0)
      && Brackets.NonNegativeFrom(Depths(instrs), stack[i] + 1, |instrs|)
      && Brackets.Balance(Depths(instrs), stack[i] + 1, |instrs|) == |stack| - 1 - i
  }

  /** Every `[` not on the stack is already paired. */
  ghost predicate OpensPaired(instrs: seq<Instruction>, stack: seq<nat>)
  {
    forall a :: 0 <= a < |instrs| && instrs[a].JumpIfZero? && a !in stack ==> PairedOpen(instrs, a)
  }

  /** Every `]` is paired as soon as it is read. */
  ghost predicate ClosesPaired(instrs: seq<Instruction>)
  {
    forall b :: 0 <= b < |instrs| && instrs[b].JumpIfNotZero? ==> PairedClose(instrs, b)
  }

  ghost predicate StackInv(instrs: seq<Instruction>, stack: seq<nat>)
  {
    OpenStack(instrs, stack) && OpensPaired(instrs, stack) && ClosesPaired(instrs)
  }

  /** The nesting so far: the balance of the opcodes read never dropped
      below zero, and n brackets are open. */
  ghost predicate Nesting(d: seq<int>, pc: nat, n: nat)
  {
    pc <= |d| && Brackets.NonNegativeFrom(d, 0, pc) && n == Brackets.Balance(d, 0, pc)
  }

  ghost predicate Shaped(instrs: seq<Instruction>)
  {
    CountsPositive(instrs) && RunsMaximal(instrs)
  }

  /** The last counted instruction ends its run: the next opcode differs. */
  ghost predicate Boundary(opcodes: seq<S.Instruction>, pc: nat, instrs: seq<Instruction>)
  {
    pc < |opcodes| && instrs != [] && !IsJump(instrs[|instrs| - 1]) ==>
      OpCode(instrs[|instrs| - 1]) != opcodes[pc]
  }

  /** What holds each time the loop of `parse` comes round: the
      instructions made so far expand to the opcodes read so far, the stack
      holds as many entries as brackets are open, and the last counted
      instruction ends its run. */
  ghost predicate ParseInv(opcodes: seq<S.Instruction>, pc: nat, instrs: seq<Instruction>, stack: seq<nat>)
  {
    && pc <= |opcodes|
    && Expand(instrs) == opcodes[..pc]
    && Nesting(S.Depths(opcodes), pc, |stack|)
    && StackInv(instrs, stack)
    && Shaped(instrs)
    && Boundary(opcodes, pc, instrs)
  }

  /** Every stack entry points at a `[` of the program so far. */
  ghost predicate Pending(instrs: seq<Instruction>, stack: seq<nat>)
  {
    forall i :: 0 <= i < |stack| ==> stack[i] < |instrs| && instrs[stack[i]].JumpIfZero?
  }

  /** The inner `while`: where the run of op starting before pc ends. */
  function RunEnd(opcodes: seq<S.Instruction>, pc: nat, op: S.Instruction): (e: nat)
    requires pc <= |opcodes|
    ensures pc <= e <= |opcodes|
    decreases |opcodes| - pc
  {
    if pc < |opcodes| && opcodes[pc] == op then RunEnd(opcodes, pc + 1, op) else pc
  }

  /** The loop of `parse` from pc on, with the instructions and the stack
      built so far. */
  function ParseLoop(opcodes: seq<S.Instruction>, pc: nat, instrs: seq<Instruction>, stack: seq<nat>): Result<Program>
    requires pc <= |opcodes| && Pending(instrs, stack)
    decreases |opcodes| - pc
  {
    if pc == |opcodes| then
      if stack != [] then Err(Bf(UnmatchedOpenMessage)) else Ok(Program(instrs))
    else if opcodes[pc] == S.JumpIfZero then
      ParseLoop(opcodes, pc + 1, instrs + [JumpIfZero(0)], stack + [|instrs|])
    else if opcodes[pc] == S.JumpIfNotZero then
      if stack == [] then Err(Bf(UnmatchedCloseMessage(pc)))
      else
        var s := stack[|stack| - 1];
        ParseLoop(opcodes, pc + 1, instrs[s := SetDestination(instrs[s], |instrs|)] + [JumpIfNotZero(s)], stack[..|stack| - 1])
    else
      var end := RunEnd(opcodes, pc + 1, opcodes[pc]);
      ParseLoop(opcodes, end, instrs + [Counted(opcodes[pc], end - pc)], stack)
  }

  /** What `parse` promises of its result, given the opcodes. */
  ghost predicate ParsePost(opcodes: seq<S.Instruction>, r: Result<Program>)
  {
    var d := S.Depths(opcodes);
    && (!Brackets.NonNegativeFrom(d, 0, |d|) ==>
          exists p :: FirstUnderflow(d, p) && r == Err(Bf(UnmatchedCloseMessage(p))))
    && (Brackets.NonNegativeFrom(d, 0, |d|) && Brackets.Balance(d, 0, |d|) != 0 ==>
          r == Err(Bf(UnmatchedOpenMessage)))
    && (Brackets.NonNegativeFrom(d, 0, |d|) && Brackets.Balance(d, 0, |d|) == 0 ==>
          r.Ok? && IsCompression(opcodes, r.value.instructions))
  }

  /** `parse`: translate to opcodes, then the single pass with the stack. */
  method Parse(src: seq<u8>) returns (r: Result<Program>)
    ensures r == ParseLoop(S.Commands(src), 0, [], [])
  {
    var translated := S.Parse(src);
    var opcodes := translated.instructions;
    var instructions: seq<Instruction> := [];
    var pc: nat := 0;
    var openBracketStack: seq<nat> := [];
    while pc < |opcodes|
      invariant pc <= |opcodes| && Pending(instructions, openBracketStack)
      invariant ParseLoop(opcodes, pc, instructions, openBracketStack) == ParseLoop(opcodes, 0, [], [])
      decreases |opcodes| - pc
    {
      var opcode := opcodes[pc];
      if opcode == S.JumpIfZero {
        LoopOpen(opcodes, pc, instructions, openBracketStack);
        openBracketStack := openBracketStack + [|instructions|];
        instructions := instructions + [JumpIfZero(0)];
        pc := pc + 1;
      } else if opcode == S.JumpIfNotZero {
        if |openBracketStack| > 0 {
          LoopClose(opcodes, pc, instructions, openBracketStack);
          var openBracketOffset := openBracketStack[|openBracketStack| - 1];
          openBracketStack := openBracketStack[..|openBracketStack| - 1];
          var len := |instructions|;
          instructions := instructions[openBracketOffset := SetDestination(instructions[openBracketOffset], len)];
          instructions := instructions + [JumpIfNotZero(openBracketOffset)];
          pc := pc + 1;
        } else {
          return Err(Bf(UnmatchedCloseMessage(pc)));
        }
      } else {
        LoopRun(opcodes, pc, instructions, openBracketStack);
        var start := pc;
        pc := pc + 1;
        while pc < |opcodes| && opcodes[pc] == opcode
          invariant start < pc <= |opcodes|
          invariant RunEnd(opcodes, pc, opcode) == RunEnd(opcodes, start + 1, opcode)
        {
          pc := pc + 1;
        }
        var count := pc - start;
        var instruction := Counted(opcode, count);
        instructions := instructions + [instruction];
      }
    }
    if |openBracketStack| != 0 {
      return Err(Bf(UnmatchedOpenMessage));
    }
    return Ok(Program(instructions));
  }

  /** The promise of `parse`: a `]` that closes nothing is reported at
      the first place the nesting drops below zero; otherwise a `[` left open
      is reported; otherwise the program is the compression of the opcodes. */
  lemma ParseCorrect(opcodes: seq<S.Instruction>)
    ensures var d := S.Depths(opcodes);
      !Brackets.NonNegativeFrom(d, 0, |d|) ==>
        exists p :: FirstUnderflow(d, p) && ParseLoop(opcodes, 0, [], []) == Err(Bf(UnmatchedCloseMessage(p)))
    ensures var d := S.Depths(opcodes);
      Brackets.NonNegativeFrom(d, 0, |d|) && Brackets.Balance(d, 0, |d|) != 0 ==>
        ParseLoop(opcodes, 0, [], []) == Err(Bf(UnmatchedOpenMessage))
    ensures var d := S.Depths(opcodes);
      Brackets.NonNegativeFrom(d, 0, |d|) && Brackets.Balance(d, 0, |d|) == 0 ==>
        && ParseLoop(opcodes, 0, [], []).Ok?
        && IsCompression(opcodes, ParseLoop(opcodes, 0, [], []).value.instructions)
  {
    assert opcodes[..0] == [];
    ParseLoopCorrect(opcodes, 0, [], [], ParseLoop(opcodes, 0, [], []));
  }

  /** From any state the invariant describes, the rest of the loop meets
      the promise of `parse`. */
  lemma {:induction false} ParseLoopCorrect(opcodes: seq<S.Instruction>, pc: nat, instrs: seq<Instruction>, stack: seq<nat>, r: Result<Program>)
    requires ParseInv(opcodes, pc, instrs, stack) && Pending(instrs, stack)
    requires r == ParseLoop(opcodes, pc, instrs, stack)
    ensures ParsePost(opcodes, r)
    decreases |opcodes| - pc, 1
  {
    if pc == |opcodes| {
      ParseEnd(opcodes, instrs, stack);
    } else if opcodes[pc] == S.JumpIfZero {
      OpenCorrect(opcodes, pc, instrs, stack, r);
    } else if opcodes[pc] == S.JumpIfNotZero {
      if stack == [] {
        ParseUnderflow(opcodes, pc, instrs, stack);
      } else {
        CloseCorrect(opcodes, pc, instrs, stack, r);
      }
    } else {
      RunCorrect(opcodes, pc, instrs, stack, r);
    }
  }

  lemma {:induction false} OpenCorrect(opcodes: seq<S.Instruction>, pc: nat, instrs: seq<Instruction>, stack: seq<nat>, r: Result<Program>)
    requires ParseInv(opcodes, pc, instrs, stack) && Pending(instrs, stack) && pc < |opcodes| && opcodes[pc] == S.JumpIfZero
    requires r == ParseLoop(opcodes, pc, instrs, stack)
    ensures ParsePost(opcodes, r)
    decreases |opcodes| - pc, 0
  {
    ParseOpen(opcodes, pc, instrs, stack);
    LoopOpen(opcodes, pc, instrs, stack);
    ParseLoopCorrect(opcodes, pc + 1, instrs + [JumpIfZero(0)], stack + [|instrs|], r);
  }

  lemma {:induction false} CloseCorrect(opcodes: seq<S.Instruction>, pc: nat, instrs: seq<Instruction>, stack: seq<nat>, r: Result<Program>)
    requires ParseInv(opcodes, pc, instrs, stack) && Pending(instrs, stack) && pc < |opcodes| && opcodes[pc] == S.JumpIfNotZero
    requires stack != []
    requires r == ParseLoop(opcodes, pc, instrs, stack)
    ensures ParsePost(opcodes, r)
    decreases |opcodes| - pc, 0
  {
    var s := stack[|stack| - 1];
    var next := instrs[s := SetDestination(instrs[s], |instrs|)] + [JumpIfNotZero(s)];
    ParseClose(opcodes, pc, instrs, stack);
    LoopClose(opcodes, pc, instrs, stack);
    ParseLoopCorrect(opcodes, pc + 1, next, stack[..|stack| - 1], r);
  }

  lemma {:induction false} RunCorrect(opcodes: seq<S.Instruction>, pc: nat, instrs: seq<Instruction>, stack: seq<nat>, r: Result<Program>)
    requires ParseInv(opcodes, pc, instrs, stack) && Pending(instrs, stack) && pc < |opcodes|
    requires opcodes[pc] != S.JumpIfZero && opcodes[pc] != S.JumpIfNotZero
    requires r == ParseLoop(opcodes, pc, instrs, stack)
    ensures ParsePost(opcodes, r)
    decreases |opcodes| - pc, 0
  {
    var end := RunEnd(opcodes, pc + 1, opcodes[pc]);
    RunFacts(opcodes, pc);
    RunStep(opcodes, pc, end, instrs, stack);
    LoopRun(opcodes, pc, instrs, stack);
    ParseLoopCorrect(opcodes, end, instrs + [Counted(opcodes[pc], end - pc)], stack, r);
  }

  /** The loop function's step on a `[`. */
  lemma LoopOpen(opcodes: seq<S.Instruction>, pc: nat, instrs: seq<Instruction>, stack: seq<nat>)
    requires pc < |opcodes| && opcodes[pc] == S.JumpIfZero && Pending(instrs, stack)
    ensures Pending(instrs + [JumpIfZero(0)], stack + [|instrs|])
    ensures ParseLoop(opcodes, pc, instrs, stack) == ParseLoop(opcodes, pc + 1, instrs + [JumpIfZero(0)], stack + [|instrs|])
  {
  }

  /** The loop function's step on a `]` with an open `[`. */
  lemma LoopClose(opcodes: seq<S.Instruction>, pc: nat, instrs: seq<Instruction>, stack: seq<nat>)
    requires pc < |opcodes| && opcodes[pc] == S.JumpIfNotZero && stack != [] && Pending(instrs, stack)
    ensures var s := stack[|stack| - 1];
      var next := instrs[s := SetDestination(instrs[s], |instrs|)] + [JumpIfNotZero(s)];
      && Pending(next, stack[..|stack| - 1])
      && ParseLoop(opcodes, pc, instrs, stack) == ParseLoop(opcodes, pc + 1, next, stack[..|stack| - 1])
  {
  }

  /** The loop function's step on a run. */
  lemma LoopRun(opcodes: seq<S.Instruction>, pc: nat, instrs: seq<Instruction>, stack: seq<nat>)
    requires pc < |opcodes| && opcodes[pc] != S.JumpIfZero && opcodes[pc] != S.JumpIfNotZero && Pending(instrs, stack)
    ensures var end := RunEnd(opcodes, pc + 1, opcodes[pc]);
      var next := instrs + [Counted(opcodes[pc], end - pc)];
      && Pending(next, stack)
      && ParseLoop(opcodes, pc, instrs, stack) == ParseLoop(opcodes, end, next, stack)
  {
  }

  /** The run really is a run, and it is maximal. */
  lemma {:induction false} RunEndCorrect(opcodes: seq<S.Instruction>, pc: nat, op: S.Instruction)
    requires pc <= |opcodes|
    ensures var e := RunEnd(opcodes, pc, op);
      (forall k :: pc <= k < e ==> opcodes[k] == op) && (e < |opcodes| ==> opcodes[e] != op)
    decreases |opcodes| - pc
  {
    if pc < |opcodes| && opcodes[pc] == op {
      RunEndCorrect(opcodes, pc + 1, op);
    }
  }

  lemma ParseOpen(opcodes: seq<S.Instruction>, pc: nat, instrs: seq<Instruction>, stack: seq<nat>)
    requires ParseInv(opcodes, pc, instrs, stack) && pc < |opcodes| && opcodes[pc] == S.JumpIfZero
    ensures ParseInv(opcodes, pc + 1, instrs + [JumpIfZero(0)], stack + [|instrs|])
  {
    var x := JumpIfZero(0);
    ExpandExtends(opcodes, pc, pc + 1, instrs, x);
    NestingStep(S.Depths(opcodes), pc, |stack|);
    PushOpen(instrs, stack);
    ShapeAppend(instrs, x);
  }

  lemma ParseClose(opcodes: seq<S.Instruction>, pc: nat, instrs: seq<Instruction>, stack: seq<nat>)
    requires ParseInv(opcodes, pc, instrs, stack) && pc < |opcodes| && opcodes[pc] == S.JumpIfNotZero
    requires |stack| > 0
    ensures var s := stack[|stack| - 1];
      ParseInv(opcodes, pc + 1, instrs[s := SetDestination(instrs[s], |instrs|)] + [JumpIfNotZero(s)], stack[..|stack| - 1])
  {
    var s := stack[|stack| - 1];
    var mid := instrs[s := SetDestination(instrs[s], |instrs|)];
    var x := JumpIfNotZero(s);
    PushClose(instrs, stack);
    SetKeeps(instrs, s, |instrs|);
    SetShape(instrs, s, |instrs|);
    ExpandExtends(opcodes, pc, pc + 1, mid, x);
    NestingStep(S.Depths(opcodes), pc, |stack|);
    ShapeAppend(mid, x);
  }

  lemma ParseUnderflow(opcodes: seq<S.Instruction>, pc: nat, instrs: seq<Instruction>, stack: seq<nat>)
    requires ParseInv(opcodes, pc, instrs, stack) && pc < |opcodes| && opcodes[pc] == S.JumpIfNotZero
    requires |stack| == 0
    ensures FirstUnderflow(S.Depths(opcodes), pc) && !Brackets.NonNegativeFrom(S.Depths(opcodes), 0, |opcodes|)
  {
  }

  /** The run from pc is a maximal stretch of one non-bracket opcode. */
  lemma RunFacts(opcodes: seq<S.Instruction>, pc: nat)
    requires pc < |opcodes| && opcodes[pc] != S.JumpIfZero && opcodes[pc] != S.JumpIfNotZero
    ensures var end := RunEnd(opcodes, pc + 1, opcodes[pc]);
      && (forall k :: pc <= k < end ==> opcodes[k] == opcodes[pc] && S.Depths(opcodes)[k] == 0)
      && (end < |opcodes| ==> opcodes[end] != opcodes[pc])
  {
    RunEndCorrect(opcodes, pc + 1, opcodes[pc]);
  }

  /** The counted instruction for a run keeps the invariant. */
  lemma RunStep(opcodes: seq<S.Instruction>, start: nat, end: nat, instrs: seq<Instruction>, stack: seq<nat>)
    requires ParseInv(opcodes, start, instrs, stack) && start < end <= |opcodes|
    requires opcodes[start] != S.JumpIfZero && opcodes[start] != S.JumpIfNotZero
    requires forall k :: start <= k < end ==> opcodes[k] == opcodes[start] && S.Depths(opcodes)[k] == 0
    requires end < |opcodes| ==> opcodes[end] != opcodes[start]
    ensures ParseInv(opcodes, end, instrs + [Counted(opcodes[start], end - start)], stack)
  {
    var x := Counted(opcodes[start], end - start);
    ExpandExtends(opcodes, start, end, instrs, x);
    RunNesting(S.Depths(opcodes), start, end, |stack|);
    PushCounted(instrs, stack, x);
    ShapeAppend(instrs, x);
  }

  /** Reading the opcodes of one more instruction extends the expansion. */
  lemma ExpandExtends(opcodes: seq<S.Instruction>, pc: nat, end: nat, instrs: seq<Instruction>, x: Instruction)
    requires pc + Count(x) == end <= |opcodes| && Expand(instrs) == opcodes[..pc]
    requires forall k :: pc <= k < end ==> opcodes[k] == OpCode(x)
    ensures Expand(instrs + [x]) == opcodes[..end]
  {
    PushExpand(instrs, x);
    assert opcodes[..end] == opcodes[..pc] + opcodes[pc..end];
    assert opcodes[pc..end] == Repeat(OpCode(x), Count(x));
  }

  /** One more bracket read: the nesting follows its depth change. */
  lemma NestingStep(d: seq<int>, pc: nat, n: nat)
    requires Nesting(d, pc, n) && pc < |d| && n + d[pc] >= 0
    ensures Nesting(d, pc + 1, n + d[pc])
  {
  }

  /** A run without brackets leaves the nesting as it was. */
  lemma RunNesting(d: seq<int>, start: nat, pc: nat, n: nat)
    requires Nesting(d, start, n) && start <= pc <= |d|
    requires forall k :: start <= k < pc ==> d[k] == 0
    ensures Nesting(d, pc, n)
  {
    forall k | start <= k <= pc
      ensures Brackets.Balance(d, 0, k) == Brackets.Balance(d, 0, start)
    {
      Brackets.BalanceSplit(d, 0, start, k);
      Brackets.BalanceFlat(d, start, k);
    }
  }

  /** Setting a destination keeps the shape. */
  lemma SetShape(instrs: seq<Instruction>, s: nat, v: nat)
    requires Shaped(instrs) && s < |instrs| && IsJump(instrs[s])
    ensures Shaped(instrs[s := SetDestination(instrs[s], v)])
  {
    var mid := instrs[s := SetDestination(instrs[s], v)];
    assert forall k :: 0 <= k < |instrs| ==> OpCode(mid[k]) == OpCode(instrs[k]) && Count(mid[k]) == Count(instrs[k]);
  }

  /** Appending an instruction of a positive count keeps the shape, unless it
      continues the run of the last one. */
  lemma ShapeAppend(instrs: seq<Instruction>, x: Instruction)
    requires Shaped(instrs) && Count(x) >= 1
    requires instrs != [] && !IsJump(instrs[|instrs| - 1]) ==> OpCode(instrs[|instrs| - 1]) != OpCode(x)
    ensures Shaped(instrs + [x])
  {
    var instrs' := instrs + [x];
    assert forall k :: 0 <= k < |instrs| ==> instrs'[k] == instrs[k];
  }

  lemma ParseEnd(opcodes: seq<S.Instruction>, instrs: seq<Instruction>, stack: seq<nat>)
    requires ParseInv(opcodes, |opcodes|, instrs, stack)
    ensures var d := S.Depths(opcodes);
      Brackets.NonNegativeFrom(d, 0, |d|) && Brackets.Balance(d, 0, |d|) == |stack|
    ensures |stack| == 0 ==> IsCompression(opcodes, instrs)
  {
    assert opcodes[..|opcodes|] == opcodes;
  }

  lemma PushExpand(instrs: seq<Instruction>, x: Instruction)
    ensures Expand(instrs + [x]) == Expand(instrs) + Repeat(OpCode(x), Count(x))
  {
    assert (instrs + [x])[..|instrs|] == instrs;
  }

  /** Instructions with the same opcodes and counts expand alike. */
  lemma {:induction false} SameShape(a: seq<Instruction>, b: seq<Instruction>)
    requires |a| == |b| && forall k :: 0 <= k < |a| ==> OpCode(a[k]) == OpCode(b[k]) && Count(a[k]) == Count(b[k])
    ensures Expand(a) == Expand(b) && Depths(a) == Depths(b)
  {
    if a != [] {
      SameShape(a[..|a| - 1], b[..|b| - 1]);
    }
  }

  /** Appending one instruction extends the depth changes by its own. */
  lemma DepthsAppend(instrs: seq<Instruction>, x: Instruction)
    ensures Depths(instrs + [x]) == Depths(instrs) + [S.Delta(OpCode(x))]
  {
  }

  /** Appending leaves every existing pairing in place. */
  lemma PairedAppend(instrs: seq<Instruction>, stack: seq<nat>, x: Instruction)
    requires OpensPaired(instrs, stack) && ClosesPaired(instrs)
    ensures forall a :: 0 <= a < |instrs| && instrs[a].JumpIfZero? && a !in stack ==> PairedOpen(instrs + [x], a)
    ensures forall b :: 0 <= b < |instrs| && instrs[b].JumpIfNotZero? ==> PairedClose(instrs + [x], b)
  {
    var d := Depths(instrs);
    var e := [S.Delta(OpCode(x))];
    DepthsAppend(instrs, x);
    forall a | 0 <= a < |instrs| && instrs[a].JumpIfZero? && a !in stack
      ensures PairedOpen(instrs + [x], a)
    {
      assert PairedOpen(instrs, a);
      Brackets.ClosesAtPrefix(d, e, a, instrs[a].destination);
    }
    forall b | 0 <= b < |instrs| && instrs[b].JumpIfNotZero?
      ensures PairedClose(instrs + [x], b)
    {
      assert PairedClose(instrs, b);
      Brackets.ClosesAtPrefix(d, e, instrs[b].destination, b);
    }
  }

  /** Appending an instruction shifts the balance up to the end by its
      depth change. */
  lemma BalanceAppend(instrs: seq<Instruction>, x: Instruction, p: nat)
    requires p <= |instrs|
    ensures var d := Depths(instrs); var d' := Depths(instrs + [x]);
      && Brackets.Balance(d', p, |d'|) == Brackets.Balance(d, p, |d|) + S.Delta(OpCode(x))
      && (Brackets.NonNegativeFrom(d, p, |d|) && Brackets.Balance(d', p, |d'|) >= 0 ==>
            Brackets.NonNegativeFrom(d', p, |d'|))
  {
    var d := Depths(instrs);
    var e := [S.Delta(OpCode(x))];
    DepthsAppend(instrs, x);
    Brackets.NonNegativePrefix(d, e, p, |d|);
    Brackets.BalancePrefix(d, e, p, |d|);
  }

  /** Appending keeps every open entry's balance facts, shifted by the new
      depth change, as long as they stay non-negative. */
  lemma StackAppend(instrs: seq<Instruction>, stack: seq<nat>, x: Instruction, extra: seq<nat>)
    requires OpenStack(instrs, stack) && (x.JumpIfZero? || !IsJump(x))
    requires extra == (if x.JumpIfZero? then [|instrs|] else [])
    requires x.JumpIfZero? ==> x == JumpIfZero(0)
    ensures OpenStack(instrs + [x], stack + extra)
  {
    var instrs' := instrs + [x];
    var stack' := stack + extra;
    forall i | 0 <= i < |stack'|
      ensures stack'[i] < |instrs'| && instrs'[stack'[i]] == JumpIfZero(0)
      ensures Brackets.NonNegativeFrom(Depths(instrs'), stack'[i] + 1, |instrs'|)
      ensures Brackets.Balance(Depths(instrs'), stack'[i] + 1, |instrs'|) == |stack'| - 1 - i
    {
      if i < |stack| {
        assert stack'[i] == stack[i];
        BalanceAppend(instrs, x, stack[i] + 1);
      }
    }
  }

  lemma PushOpen(instrs: seq<Instruction>, stack: seq<nat>)
    requires StackInv(instrs, stack)
    ensures StackInv(instrs + [JumpIfZero(0)], stack + [|instrs|])
  {
    var x := JumpIfZero(0);
    StackAppend(instrs, stack, x, [|instrs|]);
    PairedAppend(instrs, stack, x);
    var instrs' := instrs + [x];
    var stack' := stack + [|instrs|];
    forall a | 0 <= a < |instrs'| && instrs'[a].JumpIfZero? && a !in stack'
      ensures PairedOpen(instrs', a)
    {
      assert a < |instrs| && a !in stack;
    }
  }

  lemma PushCounted(instrs: seq<Instruction>, stack: seq<nat>, x: Instruction)
    requires StackInv(instrs, stack) && !IsJump(x)
    ensures StackInv(instrs + [x], stack)
  {
    StackAppend(instrs, stack, x, []);
    assert stack + [] == stack;
    PairedAppend(instrs, stack, x);
  }

  /** Setting the destination of the innermost open entry breaks no
      pairing. */
  lemma SetPaired(instrs: seq<Instruction>, stack: seq<nat>, v: nat)
    requires StackInv(instrs, stack) && |stack| > 0
    ensures var s := stack[|stack| - 1];
      var mid := instrs[s := SetDestination(instrs[s], v)];
      OpensPaired(mid, stack) && ClosesPaired(mid)
  {
    var s := stack[|stack| - 1];
    var mid := instrs[s := SetDestination(instrs[s], v)];
    SetKeeps(instrs, s, v);
    forall a | 0 <= a < |mid| && mid[a].JumpIfZero? && a !in stack
      ensures PairedOpen(mid, a)
    {
      assert PairedOpen(instrs, a);
    }
    forall b | 0 <= b < |mid| && mid[b].JumpIfNotZero?
      ensures PairedClose(mid, b)
    {
      assert PairedClose(instrs, b);
      assert instrs[b].destination != s;
    }
  }

  /** After the pop, the remaining entries are one level shallower. */
  lemma PopStack(instrs: seq<Instruction>, stack: seq<nat>)
    requires OpenStack(instrs, stack) && |stack| > 0
    ensures var s := stack[|stack| - 1];
      OpenStack(instrs[s := SetDestination(instrs[s], |instrs|)] + [JumpIfNotZero(s)], stack[..|stack| - 1])
  {
    var s := stack[|stack| - 1];
    var instrs' := instrs[s := SetDestination(instrs[s], |instrs|)] + [JumpIfNotZero(s)];
    var stack' := stack[..|stack| - 1];
    forall i | 0 <= i < |stack'|
      ensures stack'[i] < |instrs'| && instrs'[stack'[i]] == JumpIfZero(0)
      ensures Brackets.NonNegativeFrom(Depths(instrs'), stack'[i] + 1, |instrs'|)
      ensures Brackets.Balance(Depths(instrs'), stack'[i] + 1, |instrs'|) == |stack'| - 1 - i
    {
      assert stack'[i] == stack[i];
      PopEntry(instrs, stack, i);
    }
  }

  /** One entry below the popped one, after the pop. */
  lemma PopEntry(instrs: seq<Instruction>, stack: seq<nat>, i: nat)
    requires OpenStack(instrs, stack) && i < |stack| - 1
    ensures var s := stack[|stack| - 1];
      var instrs' := instrs[s := SetDestination(instrs[s], |instrs|)] + [JumpIfNotZero(s)];
      && stack[i] < |instrs'| && instrs'[stack[i]] == JumpIfZero(0)
      && Brackets.NonNegativeFrom(Depths(instrs'), stack[i] + 1, |instrs'|)
      && Brackets.Balance(Depths(instrs'), stack[i] + 1, |instrs'|) == |stack| - 2 - i
  {
    var s, o := stack[|stack| - 1], stack[i];
    var d := Depths(instrs);
    assert s < |instrs| && instrs[s] == JumpIfZero(0) && Brackets.Balance(d, s + 1, |d|) == 0;
    assert o < |instrs| && instrs[o] == JumpIfZero(0);
    assert Brackets.NonNegativeFrom(d, o + 1, |d|) && Brackets.Balance(d, o + 1, |d|) == |stack| - 1 - i;
    PopOuter(instrs, s, o, |stack| - 2 - i);
  }

  /** An open `[` at o, outside the innermost one at s, is one level
      shallower once s is closed. */
  lemma PopOuter(instrs: seq<Instruction>, s: nat, o: nat, k: nat)
    requires s < |instrs| && instrs[s] == JumpIfZero(0) && o < |instrs| && instrs[o] == JumpIfZero(0)
    requires Brackets.Balance(Depths(instrs), s + 1, |instrs|) == 0
    requires Brackets.NonNegativeFrom(Depths(instrs), o + 1, |instrs|)
    requires Brackets.Balance(Depths(instrs), o + 1, |instrs|) == k + 1
    ensures var instrs' := instrs[s := SetDestination(instrs[s], |instrs|)] + [JumpIfNotZero(s)];
      && o < |instrs'| && instrs'[o] == JumpIfZero(0)
      && Brackets.NonNegativeFrom(Depths(instrs'), o + 1, |instrs'|)
      && Brackets.Balance(Depths(instrs'), o + 1, |instrs'|) == k
  {
    var mid := instrs[s := SetDestination(instrs[s], |instrs|)];
    SetKeeps(instrs, s, |instrs|);
    BalanceAppend(mid, JumpIfNotZero(s), o + 1);
  }

  /** The popped `[` and the new `]` point at each other and match. */
  lemma PairNew(instrs: seq<Instruction>, stack: seq<nat>)
    requires OpenStack(instrs, stack) && |stack| > 0
    ensures var s := stack[|stack| - 1];
      var instrs' := instrs[s := SetDestination(instrs[s], |instrs|)] + [JumpIfNotZero(s)];
      PairedOpen(instrs', s) && PairedClose(instrs', |instrs|)
  {
    var s := stack[|stack| - 1];
    var b := |instrs|;
    var mid := instrs[s := SetDestination(instrs[s], b)];
    var x := JumpIfNotZero(s);
    var d := Depths(instrs);
    assert Brackets.NonNegativeFrom(d, s + 1, b) && Brackets.Balance(d, s + 1, b) == 0;
    SetKeeps(instrs, s, b);
    DepthsAppend(mid, x);
    Brackets.NonNegativePrefix(d, [-1], s + 1, b);
    Brackets.BalancePrefix(d, [-1], s + 1, b);
    assert Brackets.ClosesAt(Depths(mid + [x]), s, b);
  }

  /** Setting a destination changes no depth and no expansion. */
  lemma SetKeeps(instrs: seq<Instruction>, s: nat, v: nat)
    requires s < |instrs| && IsJump(instrs[s])
    ensures var mid := instrs[s := SetDestination(instrs[s], v)];
      Depths(mid) == Depths(instrs) && Expand(mid) == Expand(instrs)
  {
    SameShape(instrs, instrs[s := SetDestination(instrs[s], v)]);
  }

  lemma PushClose(instrs: seq<Instruction>, stack: seq<nat>)
    requires StackInv(instrs, stack) && |stack| > 0
    ensures var s := stack[|stack| - 1];
      StackInv(instrs[s := SetDestination(instrs[s], |instrs|)] + [JumpIfNotZero(s)], stack[..|stack| - 1])
  {
    var s := stack[|stack| - 1];
    var b := |instrs|;
    var mid := instrs[s := SetDestination(instrs[s], b)];
    var x := JumpIfNotZero(s);
    var instrs' := mid + [x];
    var stack' := stack[..|stack| - 1];
    SetPaired(instrs, stack, b);
    PopStack(instrs, stack);
    PairNew(instrs, stack);
    PairedAppend(mid, stack, x);
    forall a | 0 <= a < |instrs'| && instrs'[a].JumpIfZero? && a !in stack'
      ensures PairedOpen(instrs', a)
    {
      if a != s {
        assert a < |mid| && a !in stack;
      }
    }
    forall c | 0 <= c < |instrs'| && instrs'[c].JumpIfNotZero?
      ensures PairedClose(instrs', c)
    {
    }
  }
}
