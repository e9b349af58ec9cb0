/** vms/opjit/src/parser.rs, second stage: `optimize_loops`, which rewrites
    three loop idioms into single nodes and leaves every other loop in place
    with its body optimized. */
module JitOptimize {
  import opened Util
  import opened JitAst

  /** `nodes.iter().all(|node| node == n)`. */
  predicate AllAre(nodes: seq<AstNode>, n: AstNode)
  {
    forall k :: 0 <= k < |nodes| ==> nodes[k] == n
  }

  function Repeat(n: AstNode, count: nat): (r: seq<AstNode>)
    ensures |r| == count && AllAre(r, n)
  {
    seq(count, _ => n)
  }

  /** The nodes of the eight commands other than brackets. */
  predicate Basic(n: AstNode)
  {
    n.IncPtr? || n.DecPtr? || n.IncData? || n.DecData? || n.Read? || n.Write?
  }

  /** `check_move_ptr_until_zero_pattern`: a non-empty body of pointer moves
      all in one direction. */
  function MovePtrPattern(nodes: seq<AstNode>): (r: Option<(bool, nat)>)
    ensures r.Some? <==> nodes != [] && (AllAre(nodes, IncPtr) || AllAre(nodes, DecPtr))
    ensures r.Some? ==> r.value == (nodes[0] == IncPtr, |nodes|)
  {
    if nodes == [] then None
    else if AllAre(nodes, IncPtr) then Some((true, |nodes|))
    else if AllAre(nodes, DecPtr) then Some((false, |nodes|))
    else None
  }

  /** `check_set_data_to_zero_pattern`: a non-empty body of data changes all
      in one direction. */
  predicate SetDataToZeroPattern(nodes: seq<AstNode>)
  {
    nodes != [] && (AllAre(nodes, IncData) || AllAre(nodes, DecData))
  }

  /** The end of the run of n starting at i: the iterator after a loop
      that consumes n while it is next. */
  function RunEnd(nodes: seq<AstNode>, i: nat, n: AstNode): (j: nat)
    requires i <= |nodes|
    ensures i <= j <= |nodes| && AllAre(nodes[i..j], n) && (j < |nodes| ==> nodes[j] != n)
    decreases |nodes| - i
  {
    if i == |nodes| || nodes[i] != n then i else RunEnd(nodes, i + 1, n)
  }

  function Opposite(d: AstNode): AstNode
  {
    if d == IncPtr then DecPtr else IncPtr
  }

  /** `check_move_data_pattern` over positions in the body. The iterator
      must yield `-`, then a pointer move d and more of it, where reaching
      the end while looking at d's run fails (`iter.peek()?`), then `+`.
      Next, `check_next_node` consumes one node, if there is one, whatever
      it is, since its result is not checked. A run of the opposite move
      follows, counted from 1, and it must be as long as d's run and end
      the body. */
  function MoveDataPattern(nodes: seq<AstNode>): Option<(bool, nat)>
  {
    if |nodes| < 2 || nodes[0] != DecData || (nodes[1] != IncPtr && nodes[1] != DecPtr) then None
    else
      var d := nodes[1];
      var j := RunEnd(nodes, 2, d);
      if j == |nodes| || nodes[j] != IncData then None
      else
        var k := if j + 1 < |nodes| then j + 2 else j + 1;
        var e := RunEnd(nodes, k, Opposite(d));
        if 1 + (e - k) != j - 1 || e < |nodes| then None
        else Some((d == IncPtr, j - 1))
  }

  /** `check_move_data_pattern` with the iterator as an index. */
  method CheckMoveDataPattern(nodes: seq<AstNode>) returns (r: Option<(bool, nat)>)
    ensures r == MoveDataPattern(nodes)
  {
    if |nodes| == 0 || nodes[0] != DecData {
      return None;
    }
    if |nodes| == 1 {
      return None;
    }
    var first := nodes[1];
    if first != IncPtr && first != DecPtr {
      return None;
    }
    var i, more := CountRun(nodes, 2, first);
    var firstCount := 1 + more;
    if i == |nodes| || nodes[i] != IncData {
      return None;
    }
    i := i + 1;
    var second := if first == IncPtr then DecPtr else IncPtr;
    if i < |nodes| {
      i := i + 1;
    }
    var k := i;
    i, more := CountRun(nodes, k, second);
    var secondCount := 1 + more;
    if secondCount != firstCount || i < |nodes| {
      return None;
    }
    return Some((first == IncPtr, firstCount));
  }

  /** The counting loops of `check_move_data_pattern`: consume n while it
      is next, from i on. */
  method CountRun(nodes: seq<AstNode>, i: nat, n: AstNode) returns (j: nat, count: nat)
    requires i <= |nodes|
    ensures j == RunEnd(nodes, i, n) && count == j - i
  {
    j, count := i, 0;
    while j < |nodes| && nodes[j] == n
      invariant i <= j <= |nodes| && count == j - i
      invariant RunEnd(nodes, j, n) == RunEnd(nodes, i, n)
    {
      count := count + 1;
      j := j + 1;
    }
  }

  /** `optimize_node`: the three idioms, tried in this order, replace a
      loop; any other loop keeps its place with its body optimized. */
  function OptimizeNode(n: AstNode): AstNode
    decreases n, 1
  {
    match n
    case Loop(body) =>
      var p := MovePtrPattern(body);
      if p.Some? then MovePtrUntilZero(p.value.0, p.value.1)
      else if SetDataToZeroPattern(body) then SetDataToZero
      else
        var q := MoveDataPattern(body);
        if q.Some? then MoveData(q.value.0, q.value.1)
        else Loop(OptimizeSeq(body))
    case _ => n
  }

  /** `optimize_seq`: every child optimized, in place. */
  function OptimizeSeq(nodes: seq<AstNode>): (r: seq<AstNode>)
    ensures |r| == |nodes|
    decreases nodes, 0
  {
    seq(|nodes|, k requires 0 <= k < |nodes| => OptimizeNode(nodes[k]))
  }

  /** The bodies `check_move_data_pattern` accepts: `-`, the move d
      `amount` times, `+`, and then either nothing, if `amount` is 1, or
      one node of any kind followed by the opposite move `amount - 1`
      times. */
  ghost predicate MoveDataShape(nodes: seq<AstNode>, forward: bool, amount: nat)
  {
    var d := if forward then IncPtr else DecPtr;
    amount >= 1 && |nodes| >= amount + 2
    && nodes[..amount + 2] == [DecData] + Repeat(d, amount) + [IncData]
    && (|nodes| == amount + 2 ==> amount == 1)
    && (|nodes| > amount + 2 ==>
          |nodes| == 2 * amount + 2 && nodes[amount + 3..] == Repeat(Opposite(d), amount - 1))
  }

  /** A run ends where n stops. */
  lemma {:induction false} RunEndUnique(nodes: seq<AstNode>, i: nat, j: nat, n: AstNode)
    requires i <= j <= |nodes| && (forall k :: i <= k < j ==> nodes[k] == n)
    requires j < |nodes| ==> nodes[j] != n
    ensures RunEnd(nodes, i, n) == j
    decreases j - i
  {
    if i < j {
      RunEndUnique(nodes, i + 1, j, n);
    }
  }

  /** Exactly the bodies of MoveDataShape become `MoveData`. */
  lemma MoveDataPatternShape(nodes: seq<AstNode>, forward: bool, amount: nat)
    ensures MoveDataPattern(nodes) == Some((forward, amount)) <==> MoveDataShape(nodes, forward, amount)
  {
    var d := if forward then IncPtr else DecPtr;
    if MoveDataPattern(nodes) == Some((forward, amount)) {
      ShapeOfPattern(nodes, forward, amount);
    }
    if MoveDataShape(nodes, forward, amount) {
      PatternOfShape(nodes, forward, amount);
    }
  }

  lemma ShapeOfPattern(nodes: seq<AstNode>, forward: bool, amount: nat)
    requires MoveDataPattern(nodes) == Some((forward, amount))
    ensures MoveDataShape(nodes, forward, amount)
  {
    var d := nodes[1];
    assert d == if forward then IncPtr else DecPtr;
    var j := RunEnd(nodes, 2, d);
    assert j == amount + 1;
    forall k | 0 <= k < amount + 2
      ensures nodes[k] == ([DecData] + Repeat(d, amount) + [IncData])[k]
    {
      if 2 <= k < j {
        assert nodes[2..j][k - 2] == nodes[k];
      }
    }
    var k := if j + 1 < |nodes| then j + 2 else j + 1;
    var e := RunEnd(nodes, k, Opposite(d));
    if |nodes| > amount + 2 {
      assert nodes[amount + 3..] == nodes[k..e];
    }
  }

  lemma PatternOfShape(nodes: seq<AstNode>, forward: bool, amount: nat)
    requires MoveDataShape(nodes, forward, amount)
    ensures MoveDataPattern(nodes) == Some((forward, amount))
  {
    var d := if forward then IncPtr else DecPtr;
    var prefix := [DecData] + Repeat(d, amount) + [IncData];
    assert forall k :: 0 <= k < amount + 2 ==> nodes[k] == prefix[k];
    assert nodes[0] == DecData && nodes[1] == d && nodes[amount + 1] == IncData;
    RunEndUnique(nodes, 2, amount + 1, d);
    if |nodes| > amount + 2 {
      var rest := Repeat(Opposite(d), amount - 1);
      assert forall k :: amount + 3 <= k < |nodes| ==> nodes[k] == rest[k - amount - 3];
      RunEndUnique(nodes, amount + 3, |nodes|, Opposite(d));
    } else {
      RunEndUnique(nodes, amount + 2, |nodes|, Opposite(d));
    }
  }

  /** The idiom the check is written for, `-`, d n times, `+`, the
      opposite of d n times, is accepted. */
  lemma MoveDataIdiom(forward: bool, amount: nat)
    requires amount >= 1
    ensures var d := if forward then IncPtr else DecPtr;
      MoveDataPattern([DecData] + Repeat(d, amount) + [IncData] + Repeat(Opposite(d), amount))
        == Some((forward, amount))
  {
    var d := if forward then IncPtr else DecPtr;
    var nodes := [DecData] + Repeat(d, amount) + [IncData] + Repeat(Opposite(d), amount);
    assert nodes[..amount + 2] == [DecData] + Repeat(d, amount) + [IncData];
    assert nodes[amount + 3..] == Repeat(Opposite(d), amount - 1);
    PatternOfShape(nodes, forward, amount);
  }

  /** `[->+<]` and `[-<+>]` are moves of the cell; since the node after `+`
      is not checked, so are `[->+]` and `[->+.]`. */
  lemma MoveDataExamples()
    ensures MoveDataPattern([DecData, IncPtr, IncData, DecPtr]) == Some((true, 1))
    ensures MoveDataPattern([DecData, DecPtr, IncData, IncPtr]) == Some((false, 1))
    ensures MoveDataPattern([DecData, IncPtr, IncData]) == Some((true, 1))
    ensures MoveDataPattern([DecData, IncPtr, IncData, Write]) == Some((true, 1))
  {
    PatternOfShape([DecData, IncPtr, IncData, DecPtr], true, 1);
    PatternOfShape([DecData, DecPtr, IncData, IncPtr], false, 1);
    PatternOfShape([DecData, IncPtr, IncData], true, 1);
    PatternOfShape([DecData, IncPtr, IncData, Write], true, 1);
  }

  /** A node left over after the second run, and runs of unequal length,
      are not a move: `[->+<.]`, `[->>+<]`, `[->+<<]`. */
  lemma RejectedExamples()
    ensures MoveDataPattern([DecData, IncPtr, IncData, DecPtr, Write]) == None
    ensures MoveDataPattern([DecData, IncPtr, IncPtr, IncData, DecPtr]) == None
    ensures MoveDataPattern([DecData, IncPtr, IncData, DecPtr, DecPtr]) == None
  {
    var a := [DecData, IncPtr, IncData, DecPtr, Write];
    RunEndUnique(a, 2, 2, IncPtr);
    RunEndUnique(a, 4, 4, DecPtr);
    var b := [DecData, IncPtr, IncPtr, IncData, DecPtr];
    RunEndUnique(b, 2, 3, IncPtr);
    RunEndUnique(b, 5, 5, DecPtr);
    var c := [DecData, IncPtr, IncData, DecPtr, DecPtr];
    RunEndUnique(c, 2, 2, IncPtr);
    RunEndUnique(c, 4, 5, DecPtr);
  }

  /** A loop body is rewritten by the first idiom it matches; an empty body
      or one matching none stays a loop, its body optimized. */
  lemma OptimizeLoop(body: seq<AstNode>)
    ensures body != [] && AllAre(body, IncPtr) ==> OptimizeNode(Loop(body)) == MovePtrUntilZero(true, |body|)
    ensures body != [] && AllAre(body, DecPtr) ==> OptimizeNode(Loop(body)) == MovePtrUntilZero(false, |body|)
    ensures body != [] && (AllAre(body, IncData) || AllAre(body, DecData)) ==> OptimizeNode(Loop(body)) == SetDataToZero
    ensures forall f: bool, a: nat :: MoveDataShape(body, f, a) ==> OptimizeNode(Loop(body)) == MoveData(f, a)
    ensures OptimizeNode(Loop(body)).Loop? <==>
      (body == [] || (!AllAre(body, IncPtr) && !AllAre(body, DecPtr) && !AllAre(body, IncData) && !AllAre(body, DecData)
                      && forall f: bool, a: nat :: !MoveDataShape(body, f, a)))
    ensures OptimizeNode(Loop(body)).Loop? ==> OptimizeNode(Loop(body)) == Loop(OptimizeSeq(body))
  {
    forall f: bool, a: nat
      ensures MoveDataShape(body, f, a) <==> MoveDataPattern(body) == Some((f, a))
    {
      MoveDataPatternShape(body, f, a);
    }
    if body != [] && AllAre(body, IncData) {
      assert !AllAre(body, IncPtr) && !AllAre(body, DecPtr) by { assert body[0] == IncData; }
    }
    if body != [] && AllAre(body, DecData) {
      assert !AllAre(body, IncPtr) && !AllAre(body, DecPtr) by { assert body[0] == DecData; }
    }
    if MoveDataPattern(body).Some? {
      assert body[0] == DecData && body[1] != DecData;
    }
  }

  /** Two bodies agree when they have the same basic nodes at the same
      places; the checks look at nothing else. */
  ghost predicate Agree(a: seq<AstNode>, b: seq<AstNode>)
  {
    |a| == |b| && forall k :: 0 <= k < |a| ==> a[k] == b[k] || (!Basic(a[k]) && !Basic(b[k]))
  }

  lemma {:induction false} RunEndAgree(a: seq<AstNode>, b: seq<AstNode>, i: nat, n: AstNode)
    requires Agree(a, b) && Basic(n) && i <= |a|
    ensures RunEnd(a, i, n) == RunEnd(b, i, n)
    decreases |a| - i
  {
    if i < |a| && a[i] == n {
      RunEndAgree(a, b, i + 1, n);
    }
  }

  lemma PatternsAgree(a: seq<AstNode>, b: seq<AstNode>)
    requires Agree(a, b)
    ensures MovePtrPattern(a) == MovePtrPattern(b)
    ensures SetDataToZeroPattern(a) == SetDataToZeroPattern(b)
    ensures MoveDataPattern(a) == MoveDataPattern(b)
  {
    AllAreAgree(a, b, IncPtr);
    AllAreAgree(a, b, DecPtr);
    AllAreAgree(a, b, IncData);
    AllAreAgree(a, b, DecData);
    MoveDataAgree(a, b);
  }

  lemma AllAreAgree(a: seq<AstNode>, b: seq<AstNode>, n: AstNode)
    requires Agree(a, b) && Basic(n)
    ensures AllAre(a, n) <==> AllAre(b, n)
  {
  }

  lemma MoveDataAgree(a: seq<AstNode>, b: seq<AstNode>)
    requires Agree(a, b)
    ensures MoveDataPattern(a) == MoveDataPattern(b)
  {
    if |a| >= 2 && a[0] == DecData && (a[1] == IncPtr || a[1] == DecPtr) {
      var d := a[1];
      RunEndAgree(a, b, 2, d);
      var j := RunEnd(a, 2, d);
      if j < |a| && a[j] == IncData {
        var k := if j + 1 < |a| then j + 2 else j + 1;
        RunEndAgree(a, b, k, Opposite(d));
      }
    }
  }

  /** The optimizer leaves every node that is not a loop as it is, and a
      loop becomes a loop or one of the three new nodes. */
  lemma OptimizeKeepsOthers(nodes: seq<AstNode>)
    ensures |OptimizeSeq(nodes)| == |nodes|
    ensures forall k :: 0 <= k < |nodes| && !nodes[k].Loop? ==> OptimizeSeq(nodes)[k] == nodes[k]
    ensures forall k :: 0 <= k < |nodes| && nodes[k].Loop? ==> !Basic(OptimizeSeq(nodes)[k])
    ensures Agree(nodes, OptimizeSeq(nodes))
  {
  }

  /** Optimizing twice is optimizing once: what is left of a loop matches
      no idiom the second time either. */
  lemma {:induction false} OptimizeNodeIdempotent(n: AstNode)
    ensures OptimizeNode(OptimizeNode(n)) == OptimizeNode(n)
    decreases n, 1
  {
    match n
    case Loop(body) =>
      var o := OptimizeNode(n);
      if o.Loop? {
        OptimizeKeepsOthers(body);
        PatternsAgree(body, OptimizeSeq(body));
        OptimizeSeqIdempotent(body);
      }
    case _ =>
  }

  lemma {:induction false} OptimizeSeqIdempotent(nodes: seq<AstNode>)
    ensures OptimizeSeq(OptimizeSeq(nodes)) == OptimizeSeq(nodes)
    decreases nodes, 0
  {
    forall k | 0 <= k < |nodes|
      ensures OptimizeSeq(OptimizeSeq(nodes))[k] == OptimizeSeq(nodes)[k]
    {
      OptimizeNodeIdempotent(nodes[k]);
    }
  }
}
