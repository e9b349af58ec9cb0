/** vms/opjit/src/parser.rs, first stage: `create_ast`, a recursive-descent
    parser from source text to a tree, where each bracket pair becomes a
    `Loop` node holding the nodes between the brackets. The text is its
    UTF-8 bytes, so the positions in the error messages, which `char_indices`
    gives as byte offsets, are indices into it. The peekable iterator over
    the characters is a position in the text. */
module JitAst {
  import opened Util
  import S = SimpleParser
  import Brackets

  datatype AstNode =
    | IncPtr | DecPtr | IncData | DecData | Read | Write
    | Loop(body: seq<AstNode>)
    | SetDataToZero
    | MovePtrUntilZero(forward: bool, amount: nat)
    | MoveData(forward: bool, amount: nat)

  /** The flat view of a tree: a command, or one of the nodes the optimizer
      introduces. */
  datatype Token = Cmd(op: S.Instruction) | Opt(node: AstNode)

  /** The node of a non-bracket command. */
  function NodeOf(op: S.Instruction): (n: AstNode)
    requires op != S.JumpIfZero && op != S.JumpIfNotZero
    ensures NodeTokens(n) == [Cmd(op)]
  {
    match op
    case IncPtr => IncPtr
    case DecPtr => DecPtr
    case IncData => IncData
    case DecData => DecData
    case Read => Read
    case Write => Write
  }

  /** The flat view of a node: a loop between its brackets, anything else
      as one token. */
  function NodeTokens(n: AstNode): seq<Token>
    decreases n, 1
  {
    match n
    case IncPtr => [Cmd(S.IncPtr)]
    case DecPtr => [Cmd(S.DecPtr)]
    case IncData => [Cmd(S.IncData)]
    case DecData => [Cmd(S.DecData)]
    case Read => [Cmd(S.Read)]
    case Write => [Cmd(S.Write)]
    case Loop(body) => [Cmd(S.JumpIfZero)] + Tokens(body) + [Cmd(S.JumpIfNotZero)]
    case _ => [Opt(n)]
  }

  function Tokens(nodes: seq<AstNode>): seq<Token>
    decreases nodes, 0
  {
    if nodes == [] then []
    else Tokens(nodes[..|nodes| - 1]) + NodeTokens(nodes[|nodes| - 1])
  }

  /** The flat view of consecutive children is the concatenation of their
      flat views. */
  lemma {:induction false} TokensConcat(a: seq<AstNode>, b: seq<AstNode>)
    ensures Tokens(a + b) == Tokens(a) + Tokens(b)
    decreases |b|
  {
    if b == [] {
      assert a + b == a;
    } else {
      var b' := b[..|b| - 1];
      assert (a + b)[..|a + b| - 1] == a + b';
      TokensConcat(a, b');
    }
  }

  /** The commands of a text as tokens. */
  function Cmds(ops: seq<S.Instruction>): (t: seq<Token>)
    ensures |t| == |ops| && forall k :: 0 <= k < |ops| ==> t[k] == Cmd(ops[k])
  {
    seq(|ops|, k requires 0 <= k < |ops| => Cmd(ops[k]))
  }

  /** The depth change of every byte of the text. */
  function ByteDepths(s: seq<u8>): (d: seq<int>)
    ensures |d| == |s| && Brackets.UnitSteps(d)
    ensures forall k :: 0 <= k < |s| ==> d[k] == if S.IsCommand(s[k]) then S.Delta(S.Decode(s[k]).value) else 0
  {
    seq(|s|, k requires 0 <= k < |s| => if S.IsCommand(s[k]) then S.Delta(S.Decode(s[k]).value) else 0)
  }

  function UnmatchedOpenMessage(i: nat): string
  {
    "Unmatched '[' at index " + NatToString(i) + "."
  }

  function UnmatchedCloseMessage(i: nat): string
  {
    "Unmatched ']' at index " + NatToString(i) + "."
  }

  /** `peek_meaningful_char`: the first command character at or after pos,
      or the end of the text. */
  function SkipNoise(s: seq<u8>, pos: nat): (p: nat)
    requires pos <= |s|
    ensures pos <= p <= |s| && (p < |s| ==> S.IsCommand(s[p]))
    ensures forall k :: pos <= k < p ==> !S.IsCommand(s[k])
    decreases |s| - pos
  {
    if pos == |s| || S.IsCommand(s[pos]) then pos else SkipNoise(s, pos + 1)
  }

  /** What `parse_seq` returns: the nodes of a sequence and the position of
      the iterator after it. */
  datatype Parsed = Parsed(nodes: seq<AstNode>, next: nat)

  /** The `while let` loop of `parse_seq` from pos on, with the children
      pushed so far: skip to the next command, then handle it. */
  function ParseFrom(s: seq<u8>, pos: nat, inLoop: bool, children: seq<AstNode>): (r: Result<Parsed>)
    requires pos <= |s|
    ensures r.Ok? ==> pos <= r.value.next <= |s|
    decreases |s| - pos, 1
  {
    ParseAt(s, SkipNoise(s, pos), inLoop, children)
  }

  /** One round of the loop, at the command found at p. Inside a loop a `]`
      ends the sequence without being consumed; at the top level it is an
      error. A `[` parses a nested sequence and then needs a `]` to be next. */
  function ParseAt(s: seq<u8>, p: nat, inLoop: bool, children: seq<AstNode>): (r: Result<Parsed>)
    requires p <= |s| && (p < |s| ==> S.IsCommand(s[p]))
    ensures r.Ok? ==> p <= r.value.next <= |s|
    decreases |s| - p, 0
  {
    if p == |s| then Ok(Parsed(children, p))
    else
      var op := S.Decode(s[p]).value;
      if op == S.JumpIfNotZero then
        if inLoop then Ok(Parsed(children, p)) else Err(Bf(UnmatchedCloseMessage(p)))
      else if op == S.JumpIfZero then
        var inner := ParseFrom(s, p + 1, true, []);
        if inner.Err? then inner
        else if inner.value.next < |s| && s[inner.value.next] == S.Symbol(S.JumpIfNotZero) then
          ParseFrom(s, inner.value.next + 1, inLoop, children + [Loop(inner.value.nodes)])
        else Err(Bf(UnmatchedOpenMessage(p)))
      else ParseFrom(s, p + 1, inLoop, children + [NodeOf(op)])
  }

  /** `create_ast`: the top-level sequence. */
  function CreateAst(s: seq<u8>): Result<seq<AstNode>>
  {
    var r := ParseFrom(s, 0, false, []);
    if r.Ok? then Ok(r.value.nodes) else Err(r.error)
  }

  /** `peek_meaningful_char`: skip characters until a command or the end. */
  method PeekMeaningfulChar(s: seq<u8>, pos: nat) returns (p: nat)
    requires pos <= |s|
    ensures pos <= p <= |s| && (p < |s| ==> S.IsCommand(s[p]))
    ensures forall k :: pos <= k < p ==> !S.IsCommand(s[k])
  {
    p := pos;
    while p < |s| && !S.IsCommand(s[p])
      invariant pos <= p <= |s|
      invariant forall k :: pos <= k < p ==> !S.IsCommand(s[k])
    {
      p := p + 1;
    }
  }

  /** `parse_seq`: the loop pushing children, one meaningful character per
      round, until the text ends or, inside a loop, a `]` is next. */
  method ParseSeq(s: seq<u8>, start: nat, inLoop: bool) returns (r: Result<Parsed>)
    requires start <= |s|
    ensures r == ParseFrom(s, start, inLoop, [])
    decreases |s| - start, 1
  {
    var children: seq<AstNode> := [];
    var pos := start;
    while true
      invariant start <= pos <= |s|
      invariant ParseFrom(s, pos, inLoop, children) == ParseFrom(s, start, inLoop, [])
      decreases |s| - pos
    {
      var i := PeekMeaningfulChar(s, pos);
      SkipNoiseUnique(s, pos, i);
      assert ParseFrom(s, pos, inLoop, children) == ParseAt(s, i, inLoop, children);
      if i == |s| {
        return Ok(Parsed(children, i));
      }
      var stop, next, children' := ParseElement(s, i, inLoop, children);
      if stop.Some? {
        return stop.value;
      }
      pos, children := next, children';
    }
  }

  /** One round of `parse_seq` at the command at i: either the sequence stops
      there with a result, or it goes on at next with the new children. */
  method ParseElement(s: seq<u8>, i: nat, inLoop: bool, children: seq<AstNode>)
    returns (stop: Option<Result<Parsed>>, next: nat, children': seq<AstNode>)
    requires i < |s| && S.IsCommand(s[i])
    ensures stop.Some? ==> stop.value == ParseAt(s, i, inLoop, children)
    ensures stop.None? ==> i < next <= |s| && ParseAt(s, i, inLoop, children) == ParseFrom(s, next, inLoop, children')
    decreases |s| - i, 0
  {
    var c := S.Decode(s[i]).value;
    if c == S.JumpIfNotZero && inLoop {
      return Some(Ok(Parsed(children, i))), i, children;
    }
    if c == S.JumpIfZero {
      var inner := ParseSeq(s, i + 1, true);
      if inner.Err? {
        return Some(inner), i, children;
      }
      if inner.value.next < |s| && s[inner.value.next] == S.Symbol(S.JumpIfNotZero) {
        OpenStep(s, i, inLoop, children, inner, inner.value.next);
        return None, inner.value.next + 1, children + [Loop(inner.value.nodes)];
      }
      return Some(Err(Bf(UnmatchedOpenMessage(i)))), i, children;
    } else if c == S.JumpIfNotZero {
      return Some(Err(Bf(UnmatchedCloseMessage(i)))), i, children;
    }
    CommandStep(s, i, inLoop, children);
    return None, i + 1, children + [NodeOf(c)];
  }

  /** The first command at or after pos is unique. */
  lemma {:induction false} SkipNoiseUnique(s: seq<u8>, pos: nat, p: nat)
    requires pos <= p <= |s| && (p < |s| ==> S.IsCommand(s[p]))
    requires forall k :: pos <= k < p ==> !S.IsCommand(s[k])
    ensures SkipNoise(s, pos) == p
    decreases p - pos
  {
    if pos < p {
      SkipNoiseUnique(s, pos + 1, p);
    }
  }

  /** The sequence starting at pos is closed at q: there the text first holds
      one more `]` than `[` since pos. */
  ghost predicate FirstBelow(d: seq<int>, pos: nat, q: nat)
  {
    pos <= q < |d| && Brackets.NonNegativeFrom(d, pos, q) && Brackets.Balance(d, pos, q + 1) == -1
  }

  /** The `[` at p is the innermost one left open at the end: the rest of the
      text after it is balanced. */
  ghost predicate LastUnclosed(d: seq<int>, pos: nat, p: nat)
  {
    pos <= p < |d| && d[p] == 1
    && Brackets.NonNegativeFrom(d, p + 1, |d|) && Brackets.Balance(d, p + 1, |d|) == 0
  }

  /** What a sequence closed at q yields: inside a loop it ends there, having
      read the commands before q; at the top level that `]` is an error. */
  ghost predicate ClosedAt(s: seq<u8>, pos: nat, inLoop: bool, children: seq<AstNode>, r: Result<Parsed>, q: nat)
    requires pos <= q <= |s|
  {
    if inLoop then
      r.Ok? && r.value.next == q && Tokens(r.value.nodes) == Tokens(children) + Cmds(S.Commands(s[pos..q]))
    else r == Err(Bf(UnmatchedCloseMessage(q)))
  }

  /** A sequence that gets closed ends where it is closed. */
  ghost predicate SpecClosed(s: seq<u8>, pos: nat, inLoop: bool, children: seq<AstNode>, r: Result<Parsed>)
    requires pos <= |s|
  {
    !Brackets.NonNegativeFrom(ByteDepths(s), pos, |s|) ==>
      exists q: nat :: FirstBelow(ByteDepths(s), pos, q) && ClosedAt(s, pos, inLoop, children, r, q)
  }

  /** A sequence that leaves a `[` open fails at the innermost one. */
  ghost predicate SpecOpen(s: seq<u8>, pos: nat, r: Result<Parsed>)
    requires pos <= |s|
  {
    Brackets.NonNegativeFrom(ByteDepths(s), pos, |s|) && Brackets.Balance(ByteDepths(s), pos, |s|) != 0 ==>
      exists p: nat :: LastUnclosed(ByteDepths(s), pos, p) && r == Err(Bf(UnmatchedOpenMessage(p)))
  }

  /** A balanced rest of the text is read to its end. */
  ghost predicate SpecBalanced(s: seq<u8>, pos: nat, children: seq<AstNode>, r: Result<Parsed>)
    requires pos <= |s|
  {
    Brackets.NonNegativeFrom(ByteDepths(s), pos, |s|) && Brackets.Balance(ByteDepths(s), pos, |s|) == 0 ==>
      r.Ok? && r.value.next == |s| && Tokens(r.value.nodes) == Tokens(children) + Cmds(S.Commands(s[pos..]))
  }

  /** What the loop of `parse_seq` from pos yields, by the nesting of the
      rest of the text. */
  ghost predicate ParseSpec(s: seq<u8>, pos: nat, inLoop: bool, children: seq<AstNode>, r: Result<Parsed>)
    requires pos <= |s|
  {
    SpecClosed(s, pos, inLoop, children, r) && SpecOpen(s, pos, r) && SpecBalanced(s, pos, children, r)
  }

  /** `create_ast` fails at the first `]` that closes nothing, else at the
      innermost `[` left open, and otherwise returns a tree whose flat view
      is exactly the commands of the text: any other character is skipped. */
  lemma CreateAstCorrect(s: seq<u8>)
    ensures var d := ByteDepths(s);
      && (!Brackets.NonNegativeFrom(d, 0, |d|) ==>
            exists q: nat :: FirstBelow(d, 0, q) && CreateAst(s) == Err(Bf(UnmatchedCloseMessage(q))))
      && (Brackets.NonNegativeFrom(d, 0, |d|) && Brackets.Balance(d, 0, |d|) != 0 ==>
            exists p: nat :: LastUnclosed(d, 0, p) && CreateAst(s) == Err(Bf(UnmatchedOpenMessage(p))))
      && (Brackets.NonNegativeFrom(d, 0, |d|) && Brackets.Balance(d, 0, |d|) == 0 ==>
            CreateAst(s).Ok? && Tokens(CreateAst(s).value) == Cmds(S.Commands(s)))
  {
    var r := ParseFrom(s, 0, false, []);
    FromCorrect(s, 0, false, [], r);
    assert s[0..] == s;
    assert Tokens([]) == [];
  }

  lemma {:induction false} FromCorrect(s: seq<u8>, pos: nat, inLoop: bool, children: seq<AstNode>, r: Result<Parsed>)
    requires pos <= |s| && r == ParseFrom(s, pos, inLoop, children)
    ensures ParseSpec(s, pos, inLoop, children, r)
    decreases |s| - pos, 3
  {
    var p := SkipNoise(s, pos);
    AtCorrect(s, p, inLoop, children, r);
    NoiseBlock(s, pos, p);
    Transfer(s, pos, p, inLoop, children, children, r);
  }

  lemma {:induction false} AtCorrect(s: seq<u8>, p: nat, inLoop: bool, children: seq<AstNode>, r: Result<Parsed>)
    requires p <= |s| && (p < |s| ==> S.IsCommand(s[p])) && r == ParseAt(s, p, inLoop, children)
    ensures ParseSpec(s, p, inLoop, children, r)
    decreases |s| - p, 2
  {
    if p == |s| {
      AtEnd(s, children);
    } else {
      var op := S.Decode(s[p]).value;
      if op == S.JumpIfNotZero {
        AtClose(s, p, inLoop, children, r);
      } else if op == S.JumpIfZero {
        OpenCorrect(s, p, inLoop, children, r);
      } else {
        var next := children + [NodeOf(op)];
        FromCorrect(s, p + 1, inLoop, next, r);
        CommandBlock(s, p, children, next);
        Transfer(s, p, p + 1, inLoop, children, next, r);
      }
    }
  }

  lemma {:induction false} OpenCorrect(s: seq<u8>, p: nat, inLoop: bool, children: seq<AstNode>, r: Result<Parsed>)
    requires p < |s| && S.Decode(s[p]) == Some(S.JumpIfZero) && r == ParseAt(s, p, inLoop, children)
    ensures ParseSpec(s, p, inLoop, children, r)
    decreases |s| - p, 1
  {
    var d := ByteDepths(s);
    var inner := ParseFrom(s, p + 1, true, []);
    FromCorrect(s, p + 1, true, [], inner);
    if !Brackets.NonNegativeFrom(d, p + 1, |d|) {
      var q: nat :| FirstBelow(d, p + 1, q) && ClosedAt(s, p + 1, true, [], inner, q);
      LoopBlock(s, p, q, children, inner.value.nodes);
      OpenStep(s, p, inLoop, children, inner, q);
      OpenClosed(s, p, inLoop, children, inner.value.nodes, q, r);
    } else {
      OpenUnclosed(s, p, inLoop, children, r, inner);
    }
  }

  /** A `[` whose sequence gets closed at q continues after q with the loop
      added to the children. */
  lemma {:induction false} OpenClosed(s: seq<u8>, p: nat, inLoop: bool, children: seq<AstNode>, body: seq<AstNode>, q: nat, r: Result<Parsed>)
    requires p <= q < |s| && Block(s, p, q + 1)
    requires Tokens(children + [Loop(body)]) == Tokens(children) + Cmds(S.Commands(s[p..q + 1]))
    requires r == ParseFrom(s, q + 1, inLoop, children + [Loop(body)])
    ensures ParseSpec(s, p, inLoop, children, r)
    decreases |s| - p, 0
  {
    FromCorrect(s, q + 1, inLoop, children + [Loop(body)], r);
    Transfer(s, p, q + 1, inLoop, children, children + [Loop(body)], r);
  }

  /** A command other than a bracket becomes one more child. */
  lemma CommandStep(s: seq<u8>, p: nat, inLoop: bool, children: seq<AstNode>)
    requires p < |s| && S.IsCommand(s[p])
    requires S.Decode(s[p]).value != S.JumpIfZero && S.Decode(s[p]).value != S.JumpIfNotZero
    ensures ParseAt(s, p, inLoop, children) == ParseFrom(s, p + 1, inLoop, children + [NodeOf(S.Decode(s[p]).value)])
  {
  }

  /** After a `[` whose sequence ends at a `]`, parsing goes on past it. */
  lemma OpenStep(s: seq<u8>, p: nat, inLoop: bool, children: seq<AstNode>, inner: Result<Parsed>, q: nat)
    requires p < |s| && S.Decode(s[p]) == Some(S.JumpIfZero) && inner == ParseFrom(s, p + 1, true, [])
    requires inner.Ok? && inner.value.next == q && q < |s| && s[q] == S.Symbol(S.JumpIfNotZero)
    ensures ParseAt(s, p, inLoop, children) == ParseFrom(s, q + 1, inLoop, children + [Loop(inner.value.nodes)])
  {
  }

  /** A `[` whose sequence is never closed is itself left open, unless a
      deeper one is. */
  lemma OpenUnclosed(s: seq<u8>, p: nat, inLoop: bool, children: seq<AstNode>, r: Result<Parsed>, inner: Result<Parsed>)
    requires p < |s| && S.Decode(s[p]) == Some(S.JumpIfZero) && r == ParseAt(s, p, inLoop, children)
    requires inner == ParseFrom(s, p + 1, true, [])
    requires Brackets.NonNegativeFrom(ByteDepths(s), p + 1, |s|)
    requires SpecOpen(s, p + 1, inner) && SpecBalanced(s, p + 1, [], inner)
    ensures ParseSpec(s, p, inLoop, children, r)
  {
    var d := ByteDepths(s);
    OpenShift(d, p);
    if Brackets.Balance(d, p + 1, |d|) == 0 {
      assert LastUnclosed(d, p, p);
    } else {
      var x: nat :| LastUnclosed(d, p + 1, x) && inner == Err(Bf(UnmatchedOpenMessage(x)));
      assert LastUnclosed(d, p, x);
    }
  }

  lemma AtEnd(s: seq<u8>, children: seq<AstNode>)
    ensures ParseSpec(s, |s|, true, children, ParseAt(s, |s|, true, children))
    ensures ParseSpec(s, |s|, false, children, ParseAt(s, |s|, false, children))
  {
    assert s[|s|..] == [];
  }

  lemma AtClose(s: seq<u8>, p: nat, inLoop: bool, children: seq<AstNode>, r: Result<Parsed>)
    requires p < |s| && S.Decode(s[p]) == Some(S.JumpIfNotZero) && r == ParseAt(s, p, inLoop, children)
    ensures ParseSpec(s, p, inLoop, children, r)
  {
    var d := ByteDepths(s);
    assert Brackets.Balance(d, p, p + 1) == -1;
    assert FirstBelow(d, p, p);
    assert s[p..p] == [];
  }

  /** Noise before the next command is a balanced block without commands. */
  lemma NoiseBlock(s: seq<u8>, pos: nat, p: nat)
    requires pos <= p <= |s| && forall k :: pos <= k < p ==> !S.IsCommand(s[k])
    ensures Block(s, pos, p) && S.Commands(s[pos..p]) == []
  {
    var d := ByteDepths(s);
    forall k | pos <= k <= p
      ensures Brackets.Balance(d, pos, k) == 0
    {
      Brackets.BalanceFlat(d, pos, k);
    }
    S.CommandsDropsOthers(s[pos..p]);
  }

  /** A non-bracket command is a balanced block of one command. */
  lemma CommandBlock(s: seq<u8>, p: nat, children: seq<AstNode>, next: seq<AstNode>)
    requires p < |s| && S.IsCommand(s[p])
    requires S.Decode(s[p]).value != S.JumpIfZero && S.Decode(s[p]).value != S.JumpIfNotZero
    requires next == children + [NodeOf(S.Decode(s[p]).value)]
    ensures Block(s, p, p + 1)
    ensures Tokens(next) == Tokens(children) + Cmds(S.Commands(s[p..p + 1]))
  {
    var d := ByteDepths(s);
    assert Brackets.Balance(d, p, p + 1) == d[p];
    assert s[p..p + 1] == [s[p]];
    S.CommandsOfByte(s[p]);
    assert next[..|next| - 1] == children;
  }

  /** A bracket pair around a closed sequence is a balanced block whose
      commands are the loop's flat view. */
  lemma LoopBlock(s: seq<u8>, p: nat, q: nat, children: seq<AstNode>, body: seq<AstNode>)
    requires p < |s| && S.Decode(s[p]) == Some(S.JumpIfZero)
    requires FirstBelow(ByteDepths(s), p + 1, q)
    requires Tokens(body) == Tokens([]) + Cmds(S.Commands(s[p + 1..q]))
    ensures q < |s| && s[q] == S.Symbol(S.JumpIfNotZero)
    ensures Block(s, p, q + 1)
    ensures Tokens(children + [Loop(body)]) == Tokens(children) + Cmds(S.Commands(s[p..q + 1]))
  {
    LoopBalance(ByteDepths(s), p, q);
    var d := ByteDepths(s);
    assert S.IsCommand(s[q]) && S.Decode(s[q]).value == S.JumpIfNotZero;
    LoopTokens(s, p, q, children, body);
  }

  lemma LoopBalance(d: seq<int>, p: nat, q: nat)
    requires Brackets.UnitSteps(d) && p < |d| && d[p] == 1 && FirstBelow(d, p + 1, q)
    ensures d[q] == -1
    ensures Brackets.NonNegativeFrom(d, p, q + 1) && Brackets.Balance(d, p, q + 1) == 0
  {
    Brackets.BalanceSplit(d, p + 1, q, q + 1);
    assert Brackets.Balance(d, q, q + 1) == d[q];
    assert Brackets.Balance(d, p, p + 1) == d[p];
    forall k | p <= k <= q + 1
      ensures Brackets.Balance(d, p, k) >= 0
    {
      if k > p {
        Brackets.BalanceSplit(d, p, p + 1, k);
      }
    }
    Brackets.BalanceSplit(d, p, p + 1, q + 1);
  }

  lemma LoopTokens(s: seq<u8>, p: nat, q: nat, children: seq<AstNode>, body: seq<AstNode>)
    requires p < q < |s| && S.Decode(s[p]) == Some(S.JumpIfZero) && S.Decode(s[q]) == Some(S.JumpIfNotZero)
    requires Tokens(body) == Tokens([]) + Cmds(S.Commands(s[p + 1..q]))
    ensures Tokens(children + [Loop(body)]) == Tokens(children) + Cmds(S.Commands(s[p..q + 1]))
  {
    var mid := S.Commands(s[p + 1..q]);
    LoopCommands(s, p, q);
    LoopCmds(mid);
    LoopNodeTokens(body);
    PushTokens(children, Loop(body));
    assert Tokens([]) == [];
    GlueLoop(Tokens(children + [Loop(body)]), Tokens(children), NodeTokens(Loop(body)), Tokens(body),
      Cmds(mid), Cmds(S.Commands(s[p..q + 1])));
  }

  lemma LoopCmds(mid: seq<S.Instruction>)
    ensures Cmds([S.JumpIfZero] + mid + [S.JumpIfNotZero]) == [Cmd(S.JumpIfZero)] + Cmds(mid) + [Cmd(S.JumpIfNotZero)]
  {
  }

  lemma LoopNodeTokens(body: seq<AstNode>)
    ensures NodeTokens(Loop(body)) == [Cmd(S.JumpIfZero)] + Tokens(body) + [Cmd(S.JumpIfNotZero)]
  {
  }

  lemma GlueLoop(x: seq<Token>, t: seq<Token>, n: seq<Token>, b: seq<Token>, m: seq<Token>, y: seq<Token>)
    requires x == t + n && n == [Cmd(S.JumpIfZero)] + b + [Cmd(S.JumpIfNotZero)] && b == [] + m
    requires y == [Cmd(S.JumpIfZero)] + m + [Cmd(S.JumpIfNotZero)]
    ensures x == t + y
  {
  }

  lemma LoopCommands(s: seq<u8>, p: nat, q: nat)
    requires p < q < |s| && S.Decode(s[p]) == Some(S.JumpIfZero) && S.Decode(s[q]) == Some(S.JumpIfNotZero)
    ensures S.Commands(s[p..q + 1]) == [S.JumpIfZero] + S.Commands(s[p + 1..q]) + [S.JumpIfNotZero]
  {
    assert s[p..q + 1] == [s[p]] + s[p + 1..q] + [s[q]];
    S.CommandsConcat([s[p]] + s[p + 1..q], [s[q]]);
    S.CommandsConcat([s[p]], s[p + 1..q]);
    S.CommandsOfByte(s[p]);
    S.CommandsOfByte(s[q]);
  }

  lemma PushTokens(nodes: seq<AstNode>, n: AstNode)
    ensures Tokens(nodes + [n]) == Tokens(nodes) + NodeTokens(n)
  {
    assert (nodes + [n])[..|nodes|] == nodes;
  }

  /** Seen from the `[` at p, the nesting is one more than seen from p + 1. */
  lemma OpenShift(d: seq<int>, p: nat)
    requires p < |d| && d[p] == 1
    ensures Brackets.NonNegativeFrom(d, p + 1, |d|) ==> Brackets.NonNegativeFrom(d, p, |d|)
    ensures Brackets.Balance(d, p, |d|) == 1 + Brackets.Balance(d, p + 1, |d|)
  {
    Brackets.BalanceSplit(d, p, p + 1, |d|);
    assert Brackets.Balance(d, p, p + 1) == d[p];
    if Brackets.NonNegativeFrom(d, p + 1, |d|) {
      forall k | p <= k <= |d|
        ensures Brackets.Balance(d, p, k) >= 0
      {
        if k > p {
          Brackets.BalanceSplit(d, p, p + 1, k);
        }
      }
    }
  }

  /** The text from pos to e never dips below its start and ends level. */
  ghost predicate Block(s: seq<u8>, pos: nat, e: nat)
  {
    pos <= e <= |s|
    && Brackets.NonNegativeFrom(ByteDepths(s), pos, e) && Brackets.Balance(ByteDepths(s), pos, e) == 0
  }

  /** What holds after a balanced block holds before it, with the block's
      commands added to the children. */
  lemma Transfer(s: seq<u8>, pos: nat, e: nat, inLoop: bool, children: seq<AstNode>, children': seq<AstNode>, r: Result<Parsed>)
    requires Block(s, pos, e)
    requires Tokens(children') == Tokens(children) + Cmds(S.Commands(s[pos..e]))
    requires ParseSpec(s, e, inLoop, children', r)
    ensures ParseSpec(s, pos, inLoop, children, r)
  {
    BlockShift(ByteDepths(s), pos, e);
    TransferClosed(s, pos, e, inLoop, children, children', r);
    TransferOpen(s, pos, e, r);
    TransferBalanced(s, pos, e, children, children', r);
  }

  lemma TransferClosed(s: seq<u8>, pos: nat, e: nat, inLoop: bool, children: seq<AstNode>, children': seq<AstNode>, r: Result<Parsed>)
    requires Block(s, pos, e)
    requires forall k :: e <= k <= |s| ==> Brackets.Balance(ByteDepths(s), pos, k) == Brackets.Balance(ByteDepths(s), e, k)
    requires Brackets.NonNegativeFrom(ByteDepths(s), pos, |s|) <==> Brackets.NonNegativeFrom(ByteDepths(s), e, |s|)
    requires Tokens(children') == Tokens(children) + Cmds(S.Commands(s[pos..e]))
    requires SpecClosed(s, e, inLoop, children', r)
    ensures SpecClosed(s, pos, inLoop, children, r)
  {
    var d := ByteDepths(s);
    if !Brackets.NonNegativeFrom(d, e, |d|) {
      var q: nat :| FirstBelow(d, e, q) && ClosedAt(s, e, inLoop, children', r, q);
      BlockBelow(d, pos, e, q);
      if inLoop {
        CommandsSplit(s, pos, e, q);
        TokensShift(Tokens(r.value.nodes), Tokens(children), Tokens(children'),
          Cmds(S.Commands(s[pos..e])), Cmds(S.Commands(s[e..q])), Cmds(S.Commands(s[pos..q])));
      }
      assert ClosedAt(s, pos, inLoop, children, r, q);
    }
  }

  lemma TransferOpen(s: seq<u8>, pos: nat, e: nat, r: Result<Parsed>)
    requires Block(s, pos, e)
    requires Brackets.Balance(ByteDepths(s), pos, |s|) == Brackets.Balance(ByteDepths(s), e, |s|)
    requires Brackets.NonNegativeFrom(ByteDepths(s), pos, |s|) <==> Brackets.NonNegativeFrom(ByteDepths(s), e, |s|)
    requires SpecOpen(s, e, r)
    ensures SpecOpen(s, pos, r)
  {
    var d := ByteDepths(s);
    if Brackets.NonNegativeFrom(d, e, |d|) && Brackets.Balance(d, e, |d|) != 0 {
      var x: nat :| LastUnclosed(d, e, x) && r == Err(Bf(UnmatchedOpenMessage(x)));
      assert LastUnclosed(d, pos, x);
    }
  }

  lemma TransferBalanced(s: seq<u8>, pos: nat, e: nat, children: seq<AstNode>, children': seq<AstNode>, r: Result<Parsed>)
    requires Block(s, pos, e)
    requires Brackets.Balance(ByteDepths(s), pos, |s|) == Brackets.Balance(ByteDepths(s), e, |s|)
    requires Brackets.NonNegativeFrom(ByteDepths(s), pos, |s|) <==> Brackets.NonNegativeFrom(ByteDepths(s), e, |s|)
    requires Tokens(children') == Tokens(children) + Cmds(S.Commands(s[pos..e]))
    requires SpecBalanced(s, e, children', r)
    ensures SpecBalanced(s, pos, children, r)
  {
    var d := ByteDepths(s);
    if Brackets.NonNegativeFrom(d, e, |d|) && Brackets.Balance(d, e, |d|) == 0 {
      CommandsSplit(s, pos, e, |s|);
      assert s[e..|s|] == s[e..] && s[pos..|s|] == s[pos..];
      TokensShift(Tokens(r.value.nodes), Tokens(children), Tokens(children'),
        Cmds(S.Commands(s[pos..e])), Cmds(S.Commands(s[e..])), Cmds(S.Commands(s[pos..])));
    }
  }

  lemma TokensShift(t: seq<Token>, a: seq<Token>, b: seq<Token>, x: seq<Token>, y: seq<Token>, z: seq<Token>)
    requires b == a + x && t == b + y && z == x + y
    ensures t == a + z
  {
  }

  /** After a level block the balance counts as if from its end. */
  lemma BlockShift(d: seq<int>, pos: nat, e: nat)
    requires pos <= e <= |d| && Brackets.NonNegativeFrom(d, pos, e) && Brackets.Balance(d, pos, e) == 0
    ensures forall k :: e <= k <= |d| ==> Brackets.Balance(d, pos, k) == Brackets.Balance(d, e, k)
    ensures Brackets.NonNegativeFrom(d, pos, |d|) <==> Brackets.NonNegativeFrom(d, e, |d|)
  {
    forall k | e <= k <= |d|
      ensures Brackets.Balance(d, pos, k) == Brackets.Balance(d, e, k)
    {
      Brackets.BalanceSplit(d, pos, e, k);
    }
  }

  lemma BlockBelow(d: seq<int>, pos: nat, e: nat, q: nat)
    requires pos <= e <= |d| && Brackets.NonNegativeFrom(d, pos, e)
    requires forall k :: e <= k <= |d| ==> Brackets.Balance(d, pos, k) == Brackets.Balance(d, e, k)
    requires FirstBelow(d, e, q)
    ensures FirstBelow(d, pos, q)
  {
  }

  lemma CommandsSplit(s: seq<u8>, i: nat, j: nat, k: nat)
    requires i <= j <= k <= |s|
    ensures Cmds(S.Commands(s[i..k])) == Cmds(S.Commands(s[i..j])) + Cmds(S.Commands(s[j..k]))
  {
    assert s[i..k] == s[i..j] + s[j..k];
    S.CommandsConcat(s[i..j], s[j..k]);
  }
}
