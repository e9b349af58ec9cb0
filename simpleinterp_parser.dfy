/** vms/simpleinterp/src/parser.rs: the eight command characters become one
    instruction each; every other character is dropped. The same filter (and
    an enum with the same eight variants) appears in opinterp's parser and, as
    `OpCode`, in opinterp2's `translate_to_opcodes`; those modules reuse this
    one. Source text is its UTF-8 bytes: every byte of a multi-byte character
    is at least 0x80, so filtering bytes drops exactly what filtering
    characters drops. */
module SimpleParser {
  import opened Util
  import Brackets

  datatype Instruction =
    | IncPtr | DecPtr | IncData | DecData | Write | Read | JumpIfZero | JumpIfNotZero

  datatype Program = Program(instructions: seq<Instruction>)

  /** The command character (as its byte) of each instruction. */
  function Symbol(i: Instruction): u8
  {
    match i
    case IncPtr => 62        // '>'
    case DecPtr => 60        // '<'
    case IncData => 43       // '+'
    case DecData => 45       // '-'
    case Write => 46         // '.'
    case Read => 44          // ','
    case JumpIfZero => 91    // '['
    case JumpIfNotZero => 93 // ']'
  }

  /** The match of `parse`: which instruction a byte stands for, if any. */
  function Decode(b: u8): (r: Option<Instruction>)
    ensures r.Some? ==> Symbol(r.value) == b
    ensures forall i :: Symbol(i) == b ==> r == Some(i)
  {
    if b == 62 then Some(IncPtr)
    else if b == 60 then Some(DecPtr)
    else if b == 43 then Some(IncData)
    else if b == 45 then Some(DecData)
    else if b == 46 then Some(Write)
    else if b == 44 then Some(Read)
    else if b == 91 then Some(JumpIfZero)
    else if b == 93 then Some(JumpIfNotZero)
    else None
  }

  predicate IsCommand(b: u8)
  {
    Decode(b).Some?
  }

  /** The instructions of a source text, in order. */
  function Commands(src: seq<u8>): seq<Instruction>
  {
    if src == [] then []
    else
      var last := Decode(src[|src| - 1]);
      Commands(src[..|src| - 1]) + if last.Some? then [last.value] else []
  }

  /** The command characters of a program. */
  function Render(p: seq<Instruction>): (s: seq<u8>)
    ensures |s| == |p|
  {
    seq(|p|, k requires 0 <= k < |p| => Symbol(p[k]))
  }

  /** `parse`: the `for` loop over the characters, pushing one instruction per
      command character. */
  method Parse(src: seq<u8>) returns (program: Program)
    ensures program.instructions == Commands(src)
  {
    var instructions := [];
    for i := 0 to |src|
      invariant instructions == Commands(src[..i])
    {
      assert src[..i + 1][..i] == src[..i];
      var d := Decode(src[i]);
      if d.Some? {
        instructions := instructions + [d.value];
      }
    }
    assert src[..|src|] == src;
    program := Program(instructions);
  }

  /** Parsing distributes over concatenation: the instructions of a text are
      those of its parts, in order. */
  lemma {:induction false} CommandsConcat(a: seq<u8>, b: seq<u8>)
    ensures Commands(a + b) == Commands(a) + Commands(b)
    decreases |b|
  {
    if b == [] {
      assert a + b == a;
    } else {
      var b' := b[..|b| - 1];
      assert (a + b)[..|a + b| - 1] == a + b';
      assert (a + b)[|a + b| - 1] == b[|b| - 1];
      CommandsConcat(a, b');
    }
  }

  /** A single character yields its instruction, or nothing when it is not a command. */
  lemma CommandsOfByte(b: u8)
    ensures Commands([b]) == if IsCommand(b) then [Decode(b).value] else []
  {
    assert [b][..0] == [];
  }

  /** Text without command characters yields no instructions, so such
      characters can be inserted anywhere without changing the program. */
  lemma {:induction false} CommandsDropsOthers(s: seq<u8>)
    requires forall k :: 0 <= k < |s| ==> !IsCommand(s[k])
    ensures Commands(s) == []
  {
    if s != [] {
      CommandsDropsOthers(s[..|s| - 1]);
    }
  }

  /** Parsing the command characters of a program gives back the program. */
  lemma {:induction false} CommandsOfRender(p: seq<Instruction>)
    ensures Commands(Render(p)) == p
  {
    if p != [] {
      var p' := p[..|p| - 1];
      assert Render(p)[..|p| - 1] == Render(p');
      CommandsOfRender(p');
    }
  }

  /** The program is no longer than the text, and exactly as long when every
      character is a command. */
  lemma {:induction false} CommandsLength(s: seq<u8>)
    ensures |Commands(s)| <= |s|
    ensures |Commands(s)| == |s| <==> forall k :: 0 <= k < |s| ==> IsCommand(s[k])
  {
    if s != [] {
      var s' := s[..|s| - 1];
      CommandsLength(s');
      if |Commands(s)| == |s| {
        assert |Commands(s')| == |s'| && IsCommand(s[|s| - 1]);
        assert forall k :: 0 <= k < |s| - 1 ==> s[k] == s'[k];
      }
    }
  }

  /** Nesting change of one instruction. */
  function Delta(i: Instruction): int
  {
    match i
    case JumpIfZero => 1
    case JumpIfNotZero => -1
    case _ => 0
  }

  /** The depth changes of a program, the view the nesting scans work on. */
  function Depths(p: seq<Instruction>): (d: seq<int>)
    ensures |d| == |p| && Brackets.UnitSteps(d)
    ensures forall k :: 0 <= k < |p| ==> d[k] == Delta(p[k])
  {
    seq(|p|, k requires 0 <= k < |p| => Delta(p[k]))
  }
}
