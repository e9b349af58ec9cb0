/** Bracket nesting, shared by every front end and interpreter. A program is
    seen through its sequence of depth changes: +1 for an opening bracket, -1
    for a closing one, 0 for anything else. The nesting scans of the source
    (simpleinterp's `jump`, opinterp's `create_jump_table`) are functions here,
    and their results are characterised by the running balance. */
module Brackets {
  import opened Util

  /** Every entry is a depth change of at most one. */
  ghost predicate UnitSteps(d: seq<int>)
  {
    forall i :: 0 <= i < |d| ==> -1 <= d[i] <= 1
  }

  /** Openings minus closings in d[i..j]. */
  function Balance(d: seq<int>, i: nat, j: nat): int
    requires i <= j <= |d|
    decreases j - i
  {
    if i == j then 0 else Balance(d, i, j - 1) + d[j - 1]
  }

  lemma {:induction false} BalanceSplit(d: seq<int>, i: nat, j: nat, k: nat)
    requires i <= j <= k <= |d|
    ensures Balance(d, i, k) == Balance(d, i, j) + Balance(d, j, k)
    decreases k - j
  {
    if k > j {
      BalanceSplit(d, i, j, k - 1);
    }
  }

  /** The balance of d[i..k] is non-negative for every k from i to j. */
  ghost predicate NonNegativeFrom(d: seq<int>, i: nat, j: nat)
  {
    forall k :: i <= k <= j <= |d| ==> Balance(d, i, k) >= 0
  }

  /** The bracket at p closes at q: counted from just after p, the balance
      first drops below zero at q. */
  ghost predicate ClosesAt(d: seq<int>, p: nat, q: nat)
  {
    && p < q < |d|
    && Balance(d, p + 1, q + 1) == -1
    && NonNegativeFrom(d, p + 1, q)
  }

  /** No position after p closes the bracket at p. */
  ghost predicate NeverCloses(d: seq<int>, p: nat)
    requires p < |d|
  {
    NonNegativeFrom(d, p + 1, |d|)
  }

  /** The bracket at p was opened at q: counted backwards from just before p,
      the balance first reaches one at q. */
  ghost predicate OpensAt(d: seq<int>, q: nat, p: nat)
  {
    && q < p < |d|
    && Balance(d, q, p) == 1
    && forall k :: q < k <= p ==> Balance(d, k, p) <= 0
  }

  /** No position before p opens the bracket at p. */
  ghost predicate NeverOpens(d: seq<int>, p: nat)
    requires p < |d|
  {
    forall k :: 0 <= k <= p ==> Balance(d, k, p) <= 0
  }

  /** The forward nesting scan: `while nesting != 0 && seek + 1 < len`, step
      right and add the depth change; Some(seek) if the nesting reached zero. */
  function ScanForward(d: seq<int>, seek: nat, nesting: int): Option<nat>
    decreases |d| - seek
  {
    if nesting != 0 && seek + 1 < |d| then ScanForward(d, seek + 1, nesting + d[seek + 1])
    else if nesting == 0 then Some(seek)
    else None
  }

  /** The backward nesting scan: `while nesting != 0 && seek > 0`, step left
      and subtract the depth change; Some(seek) if the nesting reached zero. */
  function ScanBackward(d: seq<int>, seek: nat, nesting: int): Option<nat>
    requires seek < |d|
    decreases seek
  {
    if nesting != 0 && seek > 0 then ScanBackward(d, seek - 1, nesting - d[seek - 1])
    else if nesting == 0 then Some(seek)
    else None
  }

  lemma {:induction false} ScanForwardFrom(d: seq<int>, p: nat, s: nat, n: int)
    requires UnitSteps(d) && p <= s < |d|
    requires n == 1 + Balance(d, p + 1, s + 1)
    requires NonNegativeFrom(d, p + 1, s)
    ensures ScanForward(d, s, n).Some? ==> ClosesAt(d, p, ScanForward(d, s, n).value)
    ensures ScanForward(d, s, n).None? ==> NeverCloses(d, p)
    decreases |d| - s
  {
    if n != 0 {
      if s > p {
        assert Balance(d, p + 1, s + 1) == Balance(d, p + 1, s) + d[s];
      }
      assert Balance(d, p + 1, s + 1) >= 0;
      if s + 1 < |d| {
        assert Balance(d, p + 1, s + 2) == Balance(d, p + 1, s + 1) + d[s + 1];
        ScanForwardFrom(d, p, s + 1, n + d[s + 1]);
      }
    }
  }

  /** Starting at p with nesting one, the forward scan stops exactly where the
      bracket at p closes, and fails exactly when it never closes. */
  lemma ScanForwardFindsClose(d: seq<int>, p: nat)
    requires UnitSteps(d) && p < |d|
    ensures ScanForward(d, p, 1).Some? ==> ClosesAt(d, p, ScanForward(d, p, 1).value)
    ensures ScanForward(d, p, 1).None? ==> NeverCloses(d, p)
  {
    ScanForwardFrom(d, p, p, 1);
  }

  lemma {:induction false} ScanBackwardFrom(d: seq<int>, p: nat, s: nat, n: int)
    requires UnitSteps(d) && s <= p < |d|
    requires n == 1 - Balance(d, s, p)
    requires forall k :: s < k <= p ==> Balance(d, k, p) <= 0
    ensures ScanBackward(d, s, n).Some? ==> OpensAt(d, ScanBackward(d, s, n).value, p)
    ensures ScanBackward(d, s, n).None? ==> NeverOpens(d, p)
    decreases s
  {
    if n != 0 {
      if s < p {
        BalanceSplit(d, s, s + 1, p);
      }
      assert Balance(d, s, p) <= 0;
      if s > 0 {
        BalanceSplit(d, s - 1, s, p);
        ScanBackwardFrom(d, p, s - 1, n - d[s - 1]);
      }
    }
  }

  /** Starting at p with nesting one, the backward scan stops exactly where the
      bracket at p was opened, and fails exactly when nothing opens it. */
  lemma ScanBackwardFindsOpen(d: seq<int>, p: nat)
    requires UnitSteps(d) && p < |d|
    ensures ScanBackward(d, p, 1).Some? ==> OpensAt(d, ScanBackward(d, p, 1).value, p)
    ensures ScanBackward(d, p, 1).None? ==> NeverOpens(d, p)
  {
    ScanBackwardFrom(d, p, p, 1);
  }

  /** A position has at most one closing partner, and one that never closes has none. */
  lemma CloseUnique(d: seq<int>, p: nat, q: nat, q': nat)
    requires ClosesAt(d, p, q)
    ensures ClosesAt(d, p, q') ==> q' == q
    ensures !NeverCloses(d, p)
  {
  }

  /** A position has at most one opening partner, and one that is never opened has none. */
  lemma OpenUnique(d: seq<int>, q: nat, q': nat, p: nat)
    requires OpensAt(d, q, p)
    ensures OpensAt(d, q', p) ==> q' == q
    ensures !NeverOpens(d, p)
  {
  }

  /** An opening bracket closes at q exactly when the closing bracket at q was
      opened by it: the forward and the backward scan pair the same brackets. */
  lemma CloseIffOpen(d: seq<int>, p: nat, q: nat)
    requires UnitSteps(d) && p < q < |d| && d[p] == 1 && d[q] == -1
    ensures ClosesAt(d, p, q) <==> OpensAt(d, p, q)
  {
    BalanceSplit(d, p, p + 1, q);
    assert Balance(d, q, q + 1) == d[q];
    BalanceSplit(d, p + 1, q, q + 1);
    if ClosesAt(d, p, q) {
      forall k | p < k <= q
        ensures Balance(d, k, q) <= 0
      {
        BalanceSplit(d, p + 1, k, q);
      }
    }
    if OpensAt(d, p, q) {
      if q > p + 1 {
        assert Balance(d, p + 1, q) <= 0;
      }
      var i := p + 1;
      forall k | i <= k <= q
        ensures Balance(d, i, k) >= 0
      {
        BalanceSplit(d, i, k, q);
      }
    }
  }

  /** A closing position can be the partner of only one opening bracket. */
  lemma CloseInjective(d: seq<int>, p1: nat, p2: nat, q: nat)
    requires UnitSteps(d) && ClosesAt(d, p1, q) && ClosesAt(d, p2, q)
    requires d[p1] == 1 && d[p2] == 1
    ensures p1 == p2
  {
    CloseKind(d, p1, q);
    CloseIffOpen(d, p1, q);
    CloseIffOpen(d, p2, q);
    OpenUnique(d, p1, p2, q);
  }

  /** What closes an opening bracket is a closing bracket. */
  lemma CloseKind(d: seq<int>, p: nat, q: nat)
    requires UnitSteps(d) && ClosesAt(d, p, q)
    ensures d[q] == -1
  {
    BalanceSplit(d, p + 1, q, q + 1);
    assert Balance(d, q, q + 1) == d[q];
  }

  /** What opens a closing bracket is an opening bracket. */
  lemma OpenKind(d: seq<int>, q: nat, p: nat)
    requires UnitSteps(d) && OpensAt(d, q, p)
    ensures d[q] == 1
  {
    BalanceSplit(d, q, q + 1, p);
    assert Balance(d, q, q + 1) == d[q];
  }

  /** The two scans agree: the forward scan from an opening bracket stops at a
      closing bracket whose backward scan stops at the opening one, and
      conversely. */
  lemma ScansAgree(d: seq<int>, p: nat, q: nat)
    requires UnitSteps(d) && p < q < |d|
    ensures d[p] == 1 && ScanForward(d, p, 1) == Some(q) ==> d[q] == -1 && ScanBackward(d, q, 1) == Some(p)
    ensures d[q] == -1 && ScanBackward(d, q, 1) == Some(p) ==> d[p] == 1 && ScanForward(d, p, 1) == Some(q)
  {
    ScanForwardFindsClose(d, p);
    ScanBackwardFindsOpen(d, q);
    var fwd := ScanForward(d, p, 1);
    var back := ScanBackward(d, q, 1);
    if d[p] == 1 && fwd == Some(q) {
      CloseKind(d, p, q);
      CloseIffOpen(d, p, q);
      OpenUnique(d, p, p, q);
      if back.Some? {
        OpenUnique(d, p, back.value, q);
      }
    }
    if d[q] == -1 && back == Some(p) {
      OpenKind(d, p, q);
      CloseIffOpen(d, p, q);
      CloseUnique(d, p, q, q);
      if fwd.Some? {
        CloseUnique(d, p, q, fwd.value);
      }
    }
  }

  /** Balances inside a prefix do not see what follows it. */
  lemma {:induction false} BalancePrefix(d: seq<int>, e: seq<int>, i: nat, j: nat)
    requires i <= j <= |d|
    ensures Balance(d + e, i, j) == Balance(d, i, j)
    decreases j - i
  {
    if i < j {
      BalancePrefix(d, e, i, j - 1);
    }
  }

  lemma NonNegativePrefix(d: seq<int>, e: seq<int>, i: nat, j: nat)
    requires i <= j <= |d|
    ensures NonNegativeFrom(d + e, i, j) <==> NonNegativeFrom(d, i, j)
  {
    forall k | i <= k <= j
      ensures Balance(d + e, i, k) == Balance(d, i, k)
    {
      BalancePrefix(d, e, i, k);
    }
  }

  /** Whether a bracket closes at q depends only on what comes up to q. */
  lemma ClosesAtPrefix(d: seq<int>, e: seq<int>, p: nat, q: nat)
    requires q < |d|
    ensures ClosesAt(d + e, p, q) <==> ClosesAt(d, p, q)
  {
    if p < q {
      BalancePrefix(d, e, p + 1, q + 1);
      NonNegativePrefix(d, e, p + 1, q);
    }
  }

  /** A stretch without brackets does not change the balance. */
  lemma {:induction false} BalanceFlat(d: seq<int>, i: nat, j: nat)
    requires i <= j <= |d| && forall k :: i <= k < j ==> d[k] == 0
    ensures Balance(d, i, j) == 0
    decreases j - i
  {
    if i < j {
      BalanceFlat(d, i, j - 1);
    }
  }
  /** Balances inside a suffix do not see what precedes it. */
  lemma {:induction false} BalanceSuffix(d: seq<int>, e: seq<int>, i: nat, j: nat)
    requires i <= j <= |e|
    ensures Balance(d + e, |d| + i, |d| + j) == Balance(e, i, j)
    decreases j - i
  {
    if i < j {
      BalanceSuffix(d, e, i, j - 1);
    }
  }

  /** A level stretch: it never goes below its start and ends at it. */
  ghost predicate Level(d: seq<int>)
  {
    NonNegativeFrom(d, 0, |d|) && Balance(d, 0, |d|) == 0
  }

  lemma LevelConcat(d: seq<int>, e: seq<int>)
    requires Level(d) && Level(e)
    ensures Level(d + e)
  {
    forall k | 0 <= k <= |d + e|
      ensures Balance(d + e, 0, k) >= 0
    {
      if k <= |d| {
        BalancePrefix(d, e, 0, k);
      } else {
        BalanceSplit(d + e, 0, |d|, k);
        BalancePrefix(d, e, 0, |d|);
        BalanceSuffix(d, e, 0, k - |d|);
      }
    }
    BalanceSplit(d + e, 0, |d|, |d + e|);
    BalancePrefix(d, e, 0, |d|);
    BalanceSuffix(d, e, 0, |e|);
  }

  /** One opening before and one closing after a level stretch keep it
      level. */
  lemma LevelWrap(d: seq<int>)
    requires Level(d)
    ensures Level([1] + d + [-1])
  {
    var w := [1] + (d + [-1]);
    assert [1] + d + [-1] == w;
    assert Balance(w, 0, 1) == 1;
    BalanceSplit(d + [-1], 0, |d|, |d| + 1);
    BalancePrefix(d, [-1], 0, |d|);
    assert Balance(d + [-1], |d|, |d| + 1) == -1;
    forall k | 1 <= k <= |w|
      ensures Balance(w, 0, k) == 1 + Balance(d + [-1], 0, k - 1)
    {
      BalanceSplit(w, 0, 1, k);
      BalanceSuffix([1], d + [-1], 0, k - 1);
    }
    forall k | 0 <= k <= |d|
      ensures Balance(d + [-1], 0, k) >= 0
    {
      BalancePrefix(d, [-1], 0, k);
    }
  }

  /** A stretch without brackets is level. */
  lemma LevelFlat(d: seq<int>)
    requires forall k :: 0 <= k < |d| ==> d[k] == 0
    ensures Level(d)
  {
    forall k | 0 <= k <= |d|
      ensures Balance(d, 0, k) == 0
    {
      BalanceFlat(d, 0, k);
    }
  }
}
