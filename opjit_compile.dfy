/** vms/opjit/src/parser.rs, last stage and pipeline: `compile`, which turns
    the optimized tree back into a flat instruction list, merging each run of
    equal adjacent nodes other than loops into one instruction with the run's
    length as its count, and `parse`, which chains the three stages. */
module JitCompile {
  import opened Util
  import S = SimpleParser
  import A = JitAst
  import O = JitOptimize
  import Brackets

  datatype Instruction =
    | IncPtr(count: nat)
    | DecPtr(count: nat)
    | IncData(count: nat)
    | DecData(count: nat)
    | Read(count: nat)
    | Write(count: nat)
    | JumpBegin
    | JumpEnd
    | SetDataToZero
    | MovePtrUntilZero(count: nat, forward: bool, amount: nat)
    | MoveData(count: nat, forward: bool, amount: nat)

  datatype Program = Program(instructions: seq<Instruction>)

  /** The node an instruction stands for; the jumps stand for none. */
  function Origin(i: Instruction): Option<A.AstNode>
  {
    match i
    case IncPtr(_) => Some(A.IncPtr)
    case DecPtr(_) => Some(A.DecPtr)
    case IncData(_) => Some(A.IncData)
    case DecData(_) => Some(A.DecData)
    case Read(_) => Some(A.Read)
    case Write(_) => Some(A.Write)
    case JumpBegin => None
    case JumpEnd => None
    case SetDataToZero => Some(A.SetDataToZero)
    case MovePtrUntilZero(_, forward, amount) => Some(A.MovePtrUntilZero(forward, amount))
    case MoveData(_, forward, amount) => Some(A.MoveData(forward, amount))
  }

  /** `compile_node`: a run of count equal nodes as one instruction;
      `SetDataToZero` drops the count. */
  function CompileNode(node: A.AstNode, count: nat): (i: Instruction)
    requires !node.Loop?
    ensures Origin(i) == Some(node)
    ensures !i.SetDataToZero? ==> i.count == count
  {
    match node
    case IncPtr => IncPtr(count)
    case DecPtr => DecPtr(count)
    case IncData => IncData(count)
    case DecData => DecData(count)
    case Read => Read(count)
    case Write => Write(count)
    case SetDataToZero => SetDataToZero
    case MovePtrUntilZero(forward, amount) => MovePtrUntilZero(count, forward, amount)
    case MoveData(forward, amount) => MoveData(count, forward, amount)
  }

  /** `compile_seq` from the child at i on: a loop is compiled on its own,
      any other node together with the run of equal nodes after it. */
  function CompiledFrom(nodes: seq<A.AstNode>, i: nat): seq<Instruction>
    requires i <= |nodes|
    decreases nodes, |nodes| - i
  {
    if i == |nodes| then []
    else if nodes[i].Loop? then CompiledLoop(nodes[i].body) + CompiledFrom(nodes, i + 1)
    else
      var e := O.RunEnd(nodes, i + 1, nodes[i]);
      [CompileNode(nodes[i], e - i)] + CompiledFrom(nodes, e)
  }

  /** `compile_loop`: the body between one `JumpBegin` and one `JumpEnd`. */
  function CompiledLoop(body: seq<A.AstNode>): seq<Instruction>
    decreases body, |body| + 1
  {
    [JumpBegin] + CompiledFrom(body, 0) + [JumpEnd]
  }

  /** `compile_seq`: the while loop over the children; the inner loop
      that counts the run of nodes equal to the one just taken is
      `CountRun`. */
  method CompileSeq(nodes: seq<A.AstNode>) returns (instructions: seq<Instruction>)
    ensures instructions == CompiledFrom(nodes, 0)
    decreases nodes, 0
  {
    instructions := [];
    var i := 0;
    while i < |nodes|
      invariant i <= |nodes| && instructions + CompiledFrom(nodes, i) == CompiledFrom(nodes, 0)
    {
      var node := nodes[i];
      ghost var start, mid := i, CompiledFrom(nodes, i);
      i := i + 1;
      if node.Loop? {
        var inner := CompileLoop(node.body);
        LoopStep(nodes, start, inner, CompiledFrom(nodes, i), mid);
        Advance(instructions, inner, CompiledFrom(nodes, i), mid, CompiledFrom(nodes, 0));
        instructions := instructions + inner;
      } else {
        var next, run := O.CountRun(nodes, i, node);
        var count := run + 1;
        i := next;
        RunStep(nodes, start, next, count, CompiledFrom(nodes, i), mid);
        Advance(instructions, [CompileNode(node, count)], CompiledFrom(nodes, i), mid, CompiledFrom(nodes, 0));
        instructions := instructions + [CompileNode(node, count)];
      }
    }
  }

  /** One round of `compile_seq` at a loop: the loop, then the rest. */
  lemma LoopStep(nodes: seq<A.AstNode>, i: nat, inner: seq<Instruction>, rest: seq<Instruction>, mid: seq<Instruction>)
    requires i < |nodes| && nodes[i].Loop? && inner == CompiledLoop(nodes[i].body)
    requires rest == CompiledFrom(nodes, i + 1) && mid == CompiledFrom(nodes, i)
    ensures mid == inner + rest
  {
  }

  /** One round of `compile_seq` at a run of k copies ending at e: one
      counted instruction, then the rest. */
  lemma RunStep(nodes: seq<A.AstNode>, i: nat, e: nat, k: nat, rest: seq<Instruction>, mid: seq<Instruction>)
    requires i < |nodes| && !nodes[i].Loop? && e == O.RunEnd(nodes, i + 1, nodes[i]) && k == e - i
    requires rest == CompiledFrom(nodes, e) && mid == CompiledFrom(nodes, i)
    ensures mid == [CompileNode(nodes[i], k)] + rest
  {
  }

  lemma Advance<T>(a: seq<T>, x: seq<T>, y: seq<T>, mid: seq<T>, total: seq<T>)
    requires a + mid == total && mid == x + y
    ensures (a + x) + y == total
  {
  }

  /** `compile_loop`: `JumpBegin`, the compiled body, `JumpEnd`. */
  method CompileLoop(body: seq<A.AstNode>) returns (instructions: seq<Instruction>)
    ensures instructions == CompiledLoop(body)
    decreases body, 1
  {
    var children := CompileSeq(body);
    instructions := [JumpBegin] + children;
    instructions := instructions + [JumpEnd];
  }

  /** `compile`. */
  function Compile(nodes: seq<A.AstNode>): seq<Instruction>
  {
    CompiledFrom(nodes, 0)
  }

  /** `parse`: the tree of the text, optimized and compiled. */
  function ParseProgram(s: seq<u8>): Result<Program>
  {
    var ast := A.CreateAst(s);
    if ast.Err? then Err(ast.error) else Ok(Program(Compile(O.OptimizeSeq(ast.value))))
  }

  method Parse(s: seq<u8>) returns (r: Result<Program>)
    ensures r == ParseProgram(s)
  {
    var ast := A.ParseSeq(s, 0, false);
    if ast.Err? {
      return Err(ast.error);
    }
    var optimized := O.OptimizeSeq(ast.value.nodes);
    var instructions := CompileSeq(optimized);
    return Ok(Program(instructions));
  }

  // ---------------------------------------------------------------------
  // The flat view of the instructions.

  const Zero: A.Token := A.Opt(A.SetDataToZero)

  function Copies(t: A.Token, k: nat): (r: seq<A.Token>)
    ensures |r| == k && forall j :: 0 <= j < k ==> r[j] == t
  {
    seq(k, _ => t)
  }

  /** The tokens an instruction stands for: count copies of its node's
      token, one bracket for a jump, one token for `SetDataToZero`, whose
      count is not kept. */
  function ExpandOne(i: Instruction): (t: seq<A.Token>)
  {
    match i
    case JumpBegin => [A.Cmd(S.JumpIfZero)]
    case JumpEnd => [A.Cmd(S.JumpIfNotZero)]
    case SetDataToZero => [Zero]
    case _ => Copies(A.NodeTokens(Origin(i).value)[0], i.count)
  }

  function Expand(c: seq<Instruction>): seq<A.Token>
  {
    if c == [] then [] else ExpandOne(c[0]) + Expand(c[1..])
  }

  /** The tokens with each run of `SetDataToZero` cut to one. */
  function Squeeze(t: seq<A.Token>): seq<A.Token>
  {
    if |t| == 0 then []
    else if |t| >= 2 && t[0] == Zero && t[1] == Zero then Squeeze(t[1..])
    else [t[0]] + Squeeze(t[1..])
  }

  lemma {:induction false} ExpandConcat(a: seq<Instruction>, b: seq<Instruction>)
    ensures Expand(a + b) == Expand(a) + Expand(b)
  {
    if a != [] {
      assert (a + b)[1..] == a[1..] + b;
      ExpandConcat(a[1..], b);
    } else {
      assert a + b == b;
    }
  }

  lemma {:induction false} SqueezeConcat(a: seq<A.Token>, b: seq<A.Token>)
    requires a == [] || b == [] || a[|a| - 1] != Zero || b[0] != Zero
    ensures Squeeze(a + b) == Squeeze(a) + Squeeze(b)
    decreases |a|
  {
    var c := a + b;
    if a == [] {
      assert c == b;
    } else if b == [] {
      assert c == a;
    } else if |a| == 1 {
      assert c[0] == a[0] && c[1] == b[0] && c[1..] == b;
      SqueezeStep(c);
      assert Squeeze(a) == [a[0]];
    } else {
      assert c[0] == a[0] && c[1] == a[1] && c[1..] == a[1..] + b;
      SqueezeConcat(a[1..], b);
      SqueezeStep(c);
      SqueezeStep(a);
    }
  }

  /** What `Squeeze` keeps of the first of two tokens. */
  function Lead(x: A.Token, y: A.Token): seq<A.Token>
  {
    if x == Zero && y == Zero then [] else [x]
  }

  lemma SqueezeStep(t: seq<A.Token>)
    requires |t| >= 2
    ensures Squeeze(t) == Lead(t[0], t[1]) + Squeeze(t[1..])
  {
  }

  lemma {:induction false} SqueezeRun(t: A.Token, k: nat)
    ensures Squeeze(Copies(t, k)) == if t == Zero && k >= 1 then [Zero] else Copies(t, k)
  {
    if k >= 1 {
      var run := Copies(t, k);
      assert run[1..] == Copies(t, k - 1);
      SqueezeRun(t, k - 1);
    }
  }

  /** Every node but a loop has a single token, and only `SetDataToZero`'s
      is Zero; a loop's tokens start and end with brackets. */
  lemma NodeTokensShape(n: A.AstNode)
    ensures !n.Loop? ==> A.NodeTokens(n) == [A.NodeTokens(n)[0]]
    ensures A.NodeTokens(n) != [] && (A.NodeTokens(n)[0] == Zero <==> n == A.SetDataToZero)
    ensures A.NodeTokens(n)[|A.NodeTokens(n)| - 1] == Zero <==> n == A.SetDataToZero
  {
  }

  lemma {:induction false} RunTokens(run: seq<A.AstNode>, n: A.AstNode)
    requires !n.Loop? && O.AllAre(run, n)
    ensures A.Tokens(run) == Copies(A.NodeTokens(n)[0], |run|)
    decreases |run|
  {
    NodeTokensShape(n);
    if run != [] {
      RunTokens(run[..|run| - 1], n);
    }
  }

  lemma ExpandNode(n: A.AstNode, k: nat)
    requires !n.Loop? && k >= 1
    ensures ExpandOne(CompileNode(n, k)) == Squeeze(Copies(A.NodeTokens(n)[0], k))
  {
    NodeTokensShape(n);
    SqueezeRun(A.NodeTokens(n)[0], k);
  }

  /** The first child's tokens begin the sequence's tokens. */
  lemma TokensCons(nodes: seq<A.AstNode>, i: nat)
    requires i < |nodes|
    ensures A.Tokens(nodes[i..]) == A.NodeTokens(nodes[i]) + A.Tokens(nodes[i + 1..])
  {
    assert nodes[i..] == [nodes[i]] + nodes[i + 1..];
    A.TokensConcat([nodes[i]], nodes[i + 1..]);
    assert [nodes[i]][..0] == [];
  }

  /** Compiling keeps the flat view: each instruction expands to the run of
      tokens it replaced, except that a run of `SetDataToZero` leaves one. */
  lemma CompileExpands(nodes: seq<A.AstNode>)
    ensures Expand(Compile(nodes)) == Squeeze(A.Tokens(nodes))
  {
    ExpandFrom(nodes, 0);
    assert nodes[0..] == nodes;
  }

  lemma {:induction false} ExpandFrom(nodes: seq<A.AstNode>, i: nat)
    requires i <= |nodes|
    ensures Expand(CompiledFrom(nodes, i)) == Squeeze(A.Tokens(nodes[i..]))
    decreases nodes, |nodes| - i, 1
  {
    if i == |nodes| {
      assert nodes[i..] == [];
    } else if nodes[i].Loop? {
      ExpandFromLoop(nodes, i);
    } else {
      ExpandFromRun(nodes, i);
    }
  }

  lemma {:induction false} ExpandFromLoop(nodes: seq<A.AstNode>, i: nat)
    requires i < |nodes| && nodes[i].Loop?
    ensures Expand(CompiledFrom(nodes, i)) == Squeeze(A.Tokens(nodes[i..]))
    decreases nodes, |nodes| - i, 0
  {
    var x, y := CompiledLoop(nodes[i].body), CompiledFrom(nodes, i + 1);
    var tx, ty := A.NodeTokens(nodes[i]), A.Tokens(nodes[i + 1..]);
    ExpandLoop(nodes[i].body);
    ExpandFrom(nodes, i + 1);
    ExpandConcat(x, y);
    TokensCons(nodes, i);
    SqueezeConcat(tx, ty);
    assert CompiledFrom(nodes, i) == x + y;
  }

  lemma {:induction false} ExpandFromRun(nodes: seq<A.AstNode>, i: nat)
    requires i < |nodes| && !nodes[i].Loop?
    ensures Expand(CompiledFrom(nodes, i)) == Squeeze(A.Tokens(nodes[i..]))
    decreases nodes, |nodes| - i, 0
  {
    var e := O.RunEnd(nodes, i + 1, nodes[i]);
    RunExpands(nodes, i, e);
    ExpandFrom(nodes, e);
    RunSplit(nodes, i, e);
  }

  /** A run compiles to one instruction that expands to the run's tokens,
      squeezed. */
  lemma RunExpands(nodes: seq<A.AstNode>, i: nat, e: nat)
    requires i < |nodes| && !nodes[i].Loop? && e == O.RunEnd(nodes, i + 1, nodes[i])
    ensures Expand(CompiledFrom(nodes, i))
      == Squeeze(Copies(A.NodeTokens(nodes[i])[0], e - i)) + Expand(CompiledFrom(nodes, e))
  {
    var x, y := [CompileNode(nodes[i], e - i)], CompiledFrom(nodes, e);
    RunStep(nodes, i, e, e - i, y, CompiledFrom(nodes, i));
    ExpandConcat(x, y);
    ExpandNode(nodes[i], e - i);
    ExpandSingle(x[0]);
  }

  lemma ExpandSingle(i: Instruction)
    ensures Expand([i]) == ExpandOne(i)
  {
    assert [i][1..] == [];
  }

  /** The tokens of a run and of what follows it squeeze apart. */
  lemma RunSplit(nodes: seq<A.AstNode>, i: nat, e: nat)
    requires i < |nodes| && !nodes[i].Loop? && e == O.RunEnd(nodes, i + 1, nodes[i])
    ensures Squeeze(A.Tokens(nodes[i..]))
      == Squeeze(Copies(A.NodeTokens(nodes[i])[0], e - i)) + Squeeze(A.Tokens(nodes[e..]))
  {
    RunSlice(nodes, i, e);
    RunBoundary(nodes, i, e);
    SqueezeConcat(Copies(A.NodeTokens(nodes[i])[0], e - i), A.Tokens(nodes[e..]));
  }

  lemma RunSlice(nodes: seq<A.AstNode>, i: nat, e: nat)
    requires i < |nodes| && !nodes[i].Loop? && e == O.RunEnd(nodes, i + 1, nodes[i])
    ensures A.Tokens(nodes[i..]) == Copies(A.NodeTokens(nodes[i])[0], e - i) + A.Tokens(nodes[e..])
  {
    var run, rest := nodes[i..e], nodes[e..];
    assert nodes[i..] == run + rest;
    A.TokensConcat(run, rest);
    RunIsRun(nodes, i, e);
    RunTokens(run, nodes[i]);
  }

  lemma RunIsRun(nodes: seq<A.AstNode>, i: nat, e: nat)
    requires i < |nodes| && e == O.RunEnd(nodes, i + 1, nodes[i])
    ensures O.AllAre(nodes[i..e], nodes[i]) && |nodes[i..e]| == e - i
  {
    var run, tail := nodes[i..e], nodes[i + 1..e];
    assert O.AllAre(tail, nodes[i]);
    forall k | 0 <= k < |run|
      ensures run[k] == nodes[i]
    {
      if k > 0 {
        assert run[k] == tail[k - 1];
      }
    }
  }

  /** A run of n ends before a child other than n, so a Zero cannot meet
      a Zero across it. */
  lemma RunBoundary(nodes: seq<A.AstNode>, i: nat, e: nat)
    requires i < |nodes| && !nodes[i].Loop? && e == O.RunEnd(nodes, i + 1, nodes[i])
    ensures e < |nodes| ==>
      A.Tokens(nodes[e..]) != [] && (A.NodeTokens(nodes[i])[0] != Zero || A.Tokens(nodes[e..])[0] != Zero)
  {
    NodeTokensShape(nodes[i]);
    if e < |nodes| {
      TokensCons(nodes, e);
      NodeTokensShape(nodes[e]);
    }
  }

  lemma {:induction false} ExpandLoop(body: seq<A.AstNode>)
    ensures Expand(CompiledLoop(body)) == Squeeze(A.NodeTokens(A.Loop(body)))
    decreases body, |body| + 1, 0
  {
    var inner, t := CompiledFrom(body, 0), A.Tokens(body);
    ExpandFrom(body, 0);
    assert body[0..] == body;
    ExpandWrap(inner);
    SqueezeBrackets(t);
    assert A.NodeTokens(A.Loop(body)) == [A.Cmd(S.JumpIfZero)] + t + [A.Cmd(S.JumpIfNotZero)];
    assert CompiledLoop(body) == [JumpBegin] + inner + [JumpEnd];
  }

  /** The jumps around a body expand to its brackets. */
  lemma ExpandWrap(inner: seq<Instruction>)
    ensures Expand([JumpBegin] + inner + [JumpEnd]) == [A.Cmd(S.JumpIfZero)] + Expand(inner) + [A.Cmd(S.JumpIfNotZero)]
  {
    var open, close := [JumpBegin], [JumpEnd];
    ExpandConcat(open + inner, close);
    ExpandConcat(open, inner);
    assert Expand(open) == [A.Cmd(S.JumpIfZero)] by {
      assert open[1..] == [];
    }
    assert Expand(close) == [A.Cmd(S.JumpIfNotZero)] by {
      assert close[1..] == [];
    }
  }

  /** Brackets around the tokens of a body squeeze apart from it. */
  lemma SqueezeBrackets(t: seq<A.Token>)
    ensures Squeeze([A.Cmd(S.JumpIfZero)] + t + [A.Cmd(S.JumpIfNotZero)])
      == [A.Cmd(S.JumpIfZero)] + Squeeze(t) + [A.Cmd(S.JumpIfNotZero)]
  {
    var open := [A.Cmd(S.JumpIfZero)];
    var close := [A.Cmd(S.JumpIfNotZero)];
    SqueezeConcat(open + t, close);
    SqueezeConcat(open, t);
    assert Squeeze(open) == open && Squeeze(close) == close;
  }

  // ---------------------------------------------------------------------
  // Runs are maximal, counts positive, brackets balanced.

  /** Every count is at least one, and no two adjacent instructions stand
      for the same node: each run was merged whole. */
  ghost predicate Merged(c: seq<Instruction>)
  {
    && (forall k :: 0 <= k < |c| && !(c[k].JumpBegin? || c[k].JumpEnd? || c[k].SetDataToZero?) ==> c[k].count >= 1)
    && (forall k :: 0 <= k < |c| - 1 && Origin(c[k]).Some? ==> Origin(c[k + 1]) != Origin(c[k]))
  }

  lemma MergedConcat(a: seq<Instruction>, b: seq<Instruction>)
    requires Merged(a) && Merged(b)
    requires a != [] && b != [] && Origin(a[|a| - 1]).Some? ==> Origin(b[0]) != Origin(a[|a| - 1])
    ensures Merged(a + b)
  {
    forall k | 0 <= k < |a + b| - 1 && Origin((a + b)[k]).Some?
      ensures Origin((a + b)[k + 1]) != Origin((a + b)[k])
    {
      if k < |a| - 1 {
        assert (a + b)[k] == a[k] && (a + b)[k + 1] == a[k + 1];
      } else if k >= |a| {
        assert (a + b)[k] == b[k - |a|] && (a + b)[k + 1] == b[k - |a| + 1];
      }
    }
  }

  /** The first instruction from the child at i on is that child's, or a
      `JumpBegin` for a loop. */
  lemma FirstFrom(nodes: seq<A.AstNode>, i: nat)
    requires i < |nodes|
    ensures CompiledFrom(nodes, i) != []
    ensures Origin(CompiledFrom(nodes, i)[0]) == if nodes[i].Loop? then None else Some(nodes[i])
  {
  }

  lemma {:induction false} MergedFrom(nodes: seq<A.AstNode>, i: nat)
    requires i <= |nodes|
    ensures Merged(CompiledFrom(nodes, i))
    decreases nodes, |nodes| - i
  {
    if i < |nodes| {
      if nodes[i].Loop? {
        MergedLoop(nodes[i].body);
        MergedFrom(nodes, i + 1);
        MergedConcat(CompiledLoop(nodes[i].body), CompiledFrom(nodes, i + 1));
      } else {
        var e := O.RunEnd(nodes, i + 1, nodes[i]);
        MergedFrom(nodes, e);
        if e < |nodes| {
          FirstFrom(nodes, e);
        }
        MergedConcat([CompileNode(nodes[i], e - i)], CompiledFrom(nodes, e));
      }
    }
  }

  lemma {:induction false} MergedLoop(body: seq<A.AstNode>)
    ensures Merged(CompiledLoop(body))
    decreases body, |body| + 1
  {
    MergedFrom(body, 0);
    MergedConcat([JumpBegin], CompiledFrom(body, 0));
    MergedConcat([JumpBegin] + CompiledFrom(body, 0), [JumpEnd]);
  }

  /** The compiled output has its runs merged whole. */
  lemma CompileMerged(nodes: seq<A.AstNode>)
    ensures Merged(Compile(nodes))
  {
    MergedFrom(nodes, 0);
  }

  function Delta(i: Instruction): int
  {
    match i
    case JumpBegin => 1
    case JumpEnd => -1
    case _ => 0
  }

  function Depths(c: seq<Instruction>): (d: seq<int>)
    ensures |d| == |c| && forall k :: 0 <= k < |c| ==> d[k] == Delta(c[k])
  {
    seq(|c|, k requires 0 <= k < |c| => Delta(c[k]))
  }

  lemma DepthsConcat(a: seq<Instruction>, b: seq<Instruction>)
    ensures Depths(a + b) == Depths(a) + Depths(b)
  {
  }

  lemma {:induction false} LevelFrom(nodes: seq<A.AstNode>, i: nat)
    requires i <= |nodes|
    ensures Brackets.Level(Depths(CompiledFrom(nodes, i)))
    decreases nodes, |nodes| - i
  {
    if i == |nodes| {
      Brackets.LevelFlat([]);
    } else if nodes[i].Loop? {
      var x, y := CompiledLoop(nodes[i].body), CompiledFrom(nodes, i + 1);
      LevelLoop(nodes[i].body);
      LevelFrom(nodes, i + 1);
      LevelJoin(x, y);
      assert CompiledFrom(nodes, i) == x + y;
    } else {
      var e := O.RunEnd(nodes, i + 1, nodes[i]);
      var x, y := [CompileNode(nodes[i], e - i)], CompiledFrom(nodes, e);
      LevelFrom(nodes, e);
      Brackets.LevelFlat(Depths(x));
      LevelJoin(x, y);
      assert CompiledFrom(nodes, i) == x + y;
    }
  }

  lemma LevelJoin(x: seq<Instruction>, y: seq<Instruction>)
    requires Brackets.Level(Depths(x)) && Brackets.Level(Depths(y))
    ensures Brackets.Level(Depths(x + y))
  {
    DepthsConcat(x, y);
    Brackets.LevelConcat(Depths(x), Depths(y));
  }

  lemma {:induction false} LevelLoop(body: seq<A.AstNode>)
    ensures Brackets.Level(Depths(CompiledLoop(body)))
    decreases body, |body| + 1
  {
    LevelFrom(body, 0);
    var inner := CompiledFrom(body, 0);
    DepthsConcat([JumpBegin] + inner, [JumpEnd]);
    DepthsConcat([JumpBegin], inner);
    assert Depths([JumpBegin]) == [1] && Depths([JumpEnd]) == [-1];
    Brackets.LevelWrap(Depths(inner));
  }

  /** Each loop left in the tree gives one `JumpBegin` and one `JumpEnd`
      around its body, so the output is bracket-balanced. */
  lemma CompileBalanced(nodes: seq<A.AstNode>)
    ensures Brackets.Level(Depths(Compile(nodes)))
  {
    LevelFrom(nodes, 0);
  }

  // ---------------------------------------------------------------------
  // The pipeline.

  /** `parse` fails exactly as `create_ast` does, and otherwise returns a
      balanced program whose runs are merged. */
  lemma ParseCorrect(s: seq<u8>)
    ensures var d := A.ByteDepths(s);
      && (!Brackets.NonNegativeFrom(d, 0, |d|) ==>
            exists q: nat :: A.FirstBelow(d, 0, q) && ParseProgram(s) == Err(Bf(A.UnmatchedCloseMessage(q))))
      && (Brackets.NonNegativeFrom(d, 0, |d|) && Brackets.Balance(d, 0, |d|) != 0 ==>
            exists p: nat :: A.LastUnclosed(d, 0, p) && ParseProgram(s) == Err(Bf(A.UnmatchedOpenMessage(p))))
      && (Brackets.NonNegativeFrom(d, 0, |d|) && Brackets.Balance(d, 0, |d|) == 0 ==>
            ParseProgram(s).Ok?)
    ensures ParseProgram(s).Ok? ==>
      Merged(ParseProgram(s).value.instructions) && Brackets.Level(Depths(ParseProgram(s).value.instructions))
  {
    A.CreateAstCorrect(s);
    if A.CreateAst(s).Ok? {
      CompileMerged(O.OptimizeSeq(A.CreateAst(s).value));
      CompileBalanced(O.OptimizeSeq(A.CreateAst(s).value));
    }
  }

  /** The body of `[->+<]`, one command of the parser at a time. */
  lemma BodyExample(s: seq<u8>)
    requires s == [91, 45, 62, 43, 60, 93]
    ensures A.ParseFrom(s, 1, true, []) == Ok(A.Parsed([A.DecData, A.IncPtr, A.IncData, A.DecPtr], 5))
  {
    var a, b, c, d := A.DecData, A.IncPtr, A.IncData, A.DecPtr;
    assert A.ParseFrom(s, 5, true, [a, b, c, d]) == Ok(A.Parsed([a, b, c, d], 5));
    A.CommandStep(s, 4, true, [a, b, c]);
    assert [a, b, c] + [A.NodeOf(S.Decode(s[4]).value)] == [a, b, c, d];
    A.CommandStep(s, 3, true, [a, b]);
    assert [a, b] + [A.NodeOf(S.Decode(s[3]).value)] == [a, b, c];
    A.CommandStep(s, 2, true, [a]);
    assert [a] + [A.NodeOf(S.Decode(s[2]).value)] == [a, b];
    A.CommandStep(s, 1, true, []);
    assert [] + [A.NodeOf(S.Decode(s[1]).value)] == [a];
  }

  /** The AST of `[->+<]`: one loop around the four commands. */
  lemma AstExample()
    ensures A.CreateAst([91, 45, 62, 43, 60, 93]) ==
      Ok([A.Loop([A.DecData, A.IncPtr, A.IncData, A.DecPtr])])
  {
    var s: seq<u8> := [91, 45, 62, 43, 60, 93];
    var body := [A.DecData, A.IncPtr, A.IncData, A.DecPtr];
    BodyExample(s);
    A.OpenStep(s, 0, false, [], Ok(A.Parsed(body, 5)), 5);
    assert [] + [A.Loop(body)] == [A.Loop(body)];
    assert A.ParseFrom(s, 6, false, [A.Loop(body)]) == Ok(A.Parsed([A.Loop(body)], 6));
    assert A.SkipNoise(s, 0) == 0;
    assert A.ParseFrom(s, 0, false, []) == A.ParseAt(s, 0, false, []);
  }

  /** The optimizer turns the loop `[->+<]` into a move of the cell. */
  lemma OptimizeExample()
    ensures O.OptimizeSeq([A.Loop([A.DecData, A.IncPtr, A.IncData, A.DecPtr])]) == [A.MoveData(true, 1)]
  {
    O.MoveDataExamples();
    assert O.OptimizeNode(A.Loop([A.DecData, A.IncPtr, A.IncData, A.DecPtr])) == A.MoveData(true, 1);
  }

  /** `[->+<]` becomes a single move of the cell one step to the right. */
  lemma ParseExample(s: seq<u8>)
    requires s == [91, 45, 62, 43, 60, 93]
    ensures ParseProgram(s) == Ok(Program([MoveData(1, true, 1)]))
  {
    AstExample();
    OptimizeExample();
    CompileExamples();
  }

  /** Equal neighbours merge into one counted instruction, except that
      cleared cells carry no count. */
  lemma CompileExamples()
    ensures Compile([A.MoveData(true, 1)]) == [MoveData(1, true, 1)]
    ensures Compile([A.MoveData(true, 1), A.MoveData(true, 1)]) == [MoveData(2, true, 1)]
    ensures Compile([A.SetDataToZero, A.SetDataToZero]) == [SetDataToZero]
    ensures Compile([A.Write, A.Loop([A.Write, A.SetDataToZero]), A.Write, A.Write]) ==
      [Write(1), JumpBegin, Write(1), SetDataToZero, JumpEnd, Write(2)]
  {
  }

  /** `...]...`: the `]` at index 3 closes nothing. */
  lemma UnmatchedCloseExample(s: seq<u8>)
    requires s == [46, 46, 46, 93, 46, 46, 46]
    ensures ParseProgram(s) == Err(Bf("Unmatched ']' at index 3."))
  {
    var w := A.Write;
    assert A.ParseFrom(s, 3, false, [w, w, w]) == Err(Bf(A.UnmatchedCloseMessage(3)));
    A.CommandStep(s, 2, false, [w, w]);
    assert [w, w] + [A.NodeOf(S.Decode(s[2]).value)] == [w, w, w];
    A.CommandStep(s, 1, false, [w]);
    assert [w] + [A.NodeOf(S.Decode(s[1]).value)] == [w, w];
    A.CommandStep(s, 0, false, []);
    assert [] + [A.NodeOf(S.Decode(s[0]).value)] == [w];
    assert A.SkipNoise(s, 0) == 0;
    assert A.UnmatchedCloseMessage(3) == "Unmatched ']' at index 3.";
  }

  /** `..[...`: the `[` at index 2 is never closed. */
  lemma UnmatchedOpenExample(s: seq<u8>)
    requires s == [46, 46, 91, 46, 46, 46]
    ensures ParseProgram(s) == Err(Bf("Unmatched '[' at index 2."))
  {
    var w := A.Write;
    assert A.ParseFrom(s, 6, true, [w, w, w]) == Ok(A.Parsed([w, w, w], 6));
    A.CommandStep(s, 5, true, [w, w]);
    assert [w, w] + [A.NodeOf(S.Decode(s[5]).value)] == [w, w, w];
    A.CommandStep(s, 4, true, [w]);
    assert [w] + [A.NodeOf(S.Decode(s[4]).value)] == [w, w];
    A.CommandStep(s, 3, true, []);
    assert [] + [A.NodeOf(S.Decode(s[3]).value)] == [w];
    assert A.ParseFrom(s, 3, true, []) == Ok(A.Parsed([w, w, w], 6));
    assert A.ParseAt(s, 2, false, [w, w]) == Err(Bf(A.UnmatchedOpenMessage(2)));
    A.CommandStep(s, 1, false, [w]);
    assert [w] + [A.NodeOf(S.Decode(s[1]).value)] == [w, w];
    A.CommandStep(s, 0, false, []);
    assert [] + [A.NodeOf(S.Decode(s[0]).value)] == [w];
    assert A.SkipNoise(s, 0) == 0;
    assert A.UnmatchedOpenMessage(2) == "Unmatched '[' at index 2.";
  }
}
