/** vms/opinterp/src/parser.rs: the same eight instructions as simpleinterp,
    plus a jump table computed once before the program runs. Each `[` is
    matched by a forward nesting scan; its entry and the entry of the `]`
    it finds point at each other. A `[` without partner is an error; a `]`
    without partner keeps the entry 0. */
module OpParser {
  import opened Util
  import opened SimpleParser
  import Brackets

  datatype Program = Program(instructions: seq<Instruction>, jumpTable: seq<nat>)

  function UnmatchedOpenMessage(pc: nat): string
  {
    "unmatched '[' at pc=" + NatToString(pc)
  }

  /** Every `[` of the program has a closing partner. */
  ghost predicate OpensAllClose(instrs: seq<Instruction>)
  {
    forall p :: 0 <= p < |instrs| && instrs[p] == JumpIfZero ==> !Brackets.NeverCloses(Depths(instrs), p)
  }

  /** p is the first `[` without a closing partner. */
  ghost predicate FirstUnclosed(instrs: seq<Instruction>, p: nat)
  {
    && p < |instrs| && instrs[p] == JumpIfZero && Brackets.NeverCloses(Depths(instrs), p)
    && forall p' :: 0 <= p' < p && instrs[p'] == JumpIfZero ==> !Brackets.NeverCloses(Depths(instrs), p')
  }

  /** What a correct jump table holds: a `[` points at the `]` that closes
      it, a `]` at the `[` that opens it (or 0 when nothing does), and every
      other instruction has 0. */
  ghost predicate IsJumpTable(instrs: seq<Instruction>, t: seq<nat>)
  {
    var d := Depths(instrs);
    && |t| == |instrs|
    && (forall k :: 0 <= k < |t| && instrs[k] == JumpIfZero ==> Brackets.ClosesAt(d, k, t[k]))
    && (forall k :: 0 <= k < |t| && instrs[k] == JumpIfNotZero ==>
          if Brackets.NeverOpens(d, k) then t[k] == 0 else Brackets.OpensAt(d, t[k], k))
    && (forall k :: 0 <= k < |t| && Delta(instrs[k]) == 0 ==> t[k] == 0)
  }

  /** The entry of position k once the outer loop has handled every `[`
      before pc. */
  ghost function EntryBefore(d: seq<int>, pc: nat, k: nat): nat
    requires Brackets.UnitSteps(d) && k < |d|
  {
    if d[k] == 1 && k < pc then
      var f := Brackets.ScanForward(d, k, 1);
      if f.Some? then f.value else 0
    else if d[k] == -1 then
      var b := Brackets.ScanBackward(d, k, 1);
      if b.Some? && b.value < pc then b.value else 0
    else 0
  }

  /** `create_jump_table`. */
  method CreateJumpTable(instructions: seq<Instruction>) returns (r: Result<seq<nat>>)
    ensures r.Ok? <==> OpensAllClose(instructions)
    ensures r.Ok? ==> IsJumpTable(instructions, r.value)
    ensures r.Err? ==> exists p :: FirstUnclosed(instructions, p) && r.error == Bf(UnmatchedOpenMessage(p))
  {
    ghost var d := Depths(instructions);
    var n := |instructions|;
    var pc: nat := 0;
    var jumpTable := new nat[n](_ => 0);
    while pc < n
      invariant pc <= n && jumpTable.Length == n
      invariant forall p :: 0 <= p < pc && instructions[p] == JumpIfZero ==> Brackets.ScanForward(d, p, 1).Some?
      invariant forall k :: 0 <= k < n ==> jumpTable[k] == EntryBefore(d, pc, k)
    {
      if instructions[pc] == JumpIfZero {
        var bracketNesting := 1;
        var seek: nat := pc;
        while bracketNesting != 0 && seek + 1 < n
          invariant pc <= seek < n
          invariant Brackets.ScanForward(d, seek, bracketNesting) == Brackets.ScanForward(d, pc, 1)
          decreases n - seek
        {
          seek := seek + 1;
          if instructions[seek] == JumpIfNotZero {
            bracketNesting := bracketNesting - 1;
          } else if instructions[seek] == JumpIfZero {
            bracketNesting := bracketNesting + 1;
          }
        }
        if bracketNesting == 0 {
          Brackets.ScanForwardFindsClose(d, pc);
          TableStep(d, pc, seek);
          jumpTable[pc] := seek;
          jumpTable[seek] := pc;
        } else {
          Brackets.ScanForwardFindsClose(d, pc);
          NoEarlierUnclosed(instructions, pc);
          return Err(Bf(UnmatchedOpenMessage(pc)));
        }
      } else {
        TableSkip(d, pc);
      }
      pc := pc + 1;
    }
    FinalTable(instructions, jumpTable[..]);
    return Ok(jumpTable[..]);
  }

  /** Handling the `[` at pc, matched at seek, settles exactly the entries
      pc and seek. */
  lemma TableStep(d: seq<int>, pc: nat, seek: nat)
    requires Brackets.UnitSteps(d) && pc < seek < |d| && d[pc] == 1
    requires Brackets.ScanForward(d, pc, 1) == Some(seek)
    ensures EntryBefore(d, pc + 1, pc) == seek && EntryBefore(d, pc + 1, seek) == pc
    ensures forall k :: 0 <= k < |d| && k != pc && k != seek ==> EntryBefore(d, pc + 1, k) == EntryBefore(d, pc, k)
  {
    Brackets.ScansAgree(d, pc, seek);
    forall k | 0 <= k < |d| && k != pc && k != seek
      ensures EntryBefore(d, pc + 1, k) == EntryBefore(d, pc, k)
    {
      if d[k] == -1 && Brackets.ScanBackward(d, k, 1) == Some(pc) {
        Brackets.ScanBackwardFindsOpen(d, k);
        Brackets.ScansAgree(d, pc, k);
      }
    }
  }

  /** A position that is not `[` settles nothing. */
  lemma TableSkip(d: seq<int>, pc: nat)
    requires Brackets.UnitSteps(d) && pc < |d| && d[pc] != 1
    ensures forall k :: 0 <= k < |d| ==> EntryBefore(d, pc + 1, k) == EntryBefore(d, pc, k)
  {
    forall k | 0 <= k < |d|
      ensures EntryBefore(d, pc + 1, k) == EntryBefore(d, pc, k)
    {
      var b := Brackets.ScanBackward(d, k, 1);
      if d[k] == -1 && b == Some(pc) {
        Brackets.ScanBackwardFindsOpen(d, k);
        Brackets.OpenKind(d, pc, k);
      }
    }
  }

  lemma NoEarlierUnclosed(instrs: seq<Instruction>, pc: nat)
    requires pc < |instrs| && instrs[pc] == JumpIfZero && Brackets.NeverCloses(Depths(instrs), pc)
    requires forall p :: 0 <= p < pc && instrs[p] == JumpIfZero ==> Brackets.ScanForward(Depths(instrs), p, 1).Some?
    ensures FirstUnclosed(instrs, pc) && !OpensAllClose(instrs)
  {
    var d := Depths(instrs);
    forall p | 0 <= p < pc && instrs[p] == JumpIfZero
      ensures !Brackets.NeverCloses(d, p)
    {
      Brackets.ScanForwardFindsClose(d, p);
      Brackets.CloseUnique(d, p, Brackets.ScanForward(d, p, 1).value, 0);
    }
  }

  /** Once every `[` is handled, the entries are those of a jump table. */
  lemma FinalTable(instrs: seq<Instruction>, t: seq<nat>)
    requires |t| == |instrs|
    requires forall p :: 0 <= p < |instrs| && instrs[p] == JumpIfZero ==> Brackets.ScanForward(Depths(instrs), p, 1).Some?
    requires forall k :: 0 <= k < |t| ==> t[k] == EntryBefore(Depths(instrs), |instrs|, k)
    ensures IsJumpTable(instrs, t) && OpensAllClose(instrs)
  {
    var d := Depths(instrs);
    forall k | 0 <= k < |t|
      ensures instrs[k] == JumpIfZero ==> Brackets.ClosesAt(d, k, t[k]) && !Brackets.NeverCloses(d, k)
      ensures instrs[k] == JumpIfNotZero ==>
          if Brackets.NeverOpens(d, k) then t[k] == 0 else Brackets.OpensAt(d, t[k], k)
    {
      Brackets.ScanForwardFindsClose(d, k);
      Brackets.ScanBackwardFindsOpen(d, k);
      if instrs[k] == JumpIfZero {
        Brackets.CloseUnique(d, k, t[k], 0);
      }
      var b := Brackets.ScanBackward(d, k, 1);
      if instrs[k] == JumpIfNotZero && b.Some? {
        Brackets.OpenUnique(d, b.value, 0, k);
      }
    }
  }

  /** `parse`: filter the commands, then build the jump table. */
  method Parse(src: seq<u8>) returns (r: Result<Program>)
    ensures r.Ok? <==> OpensAllClose(Commands(src))
    ensures r.Ok? ==> r.value.instructions == Commands(src) && IsJumpTable(r.value.instructions, r.value.jumpTable)
    ensures r.Err? ==> exists p :: FirstUnclosed(Commands(src), p) && r.error == Bf(UnmatchedOpenMessage(p))
  {
    var program := SimpleParser.Parse(src);
    var instructions := program.instructions;
    var table := CreateJumpTable(instructions);
    if table.Err? {
      return Err(table.error);
    }
    return Ok(Program.Program(instructions, table.value));
  }

  /** The table pairs brackets both ways: following an entry from a bracket
      that has a partner reaches a bracket of the other kind whose entry
      leads back. */
  lemma JumpTableInvolution(instrs: seq<Instruction>, t: seq<nat>, k: nat)
    requires IsJumpTable(instrs, t) && k < |instrs|
    requires instrs[k] == JumpIfZero || (instrs[k] == JumpIfNotZero && !Brackets.NeverOpens(Depths(instrs), k))
    ensures t[k] < |instrs| && t[t[k]] == k
    ensures instrs[t[k]] == if instrs[k] == JumpIfZero then JumpIfNotZero else JumpIfZero
  {
    var d := Depths(instrs);
    if instrs[k] == JumpIfZero {
      var q := t[k];
      Brackets.CloseKind(d, k, q);
      Brackets.CloseIffOpen(d, k, q);
      Brackets.OpenUnique(d, k, t[q], q);
    } else {
      var p := t[k];
      Brackets.OpenKind(d, p, k);
      Brackets.CloseIffOpen(d, p, k);
      Brackets.CloseUnique(d, p, k, t[p]);
    }
  }

  /** The jump table of a program is determined by its instructions. */
  lemma JumpTableUnique(instrs: seq<Instruction>, t1: seq<nat>, t2: seq<nat>)
    requires IsJumpTable(instrs, t1) && IsJumpTable(instrs, t2)
    ensures t1 == t2
  {
    var d := Depths(instrs);
    forall k | 0 <= k < |t1|
      ensures t1[k] == t2[k]
    {
      if instrs[k] == JumpIfZero {
        Brackets.CloseUnique(d, k, t1[k], t2[k]);
      } else if instrs[k] == JumpIfNotZero && !Brackets.NeverOpens(d, k) {
        Brackets.OpenUnique(d, t1[k], t2[k], k);
      }
    }
  }
}
