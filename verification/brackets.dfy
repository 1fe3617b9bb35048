/**
  Bracket matching as the dispatch loop performs it: a forward scan from an
  lbracket with the depth counter seeded at 1, and a backward scan from an
  rbracket with the counter seeded at -1. Both count lbracket as +1 and
  (otherwise) rbracket as -1 and stop at the first position where the
  counter reaches 0.
 */
module Brackets {
  import opened Wrappers
  import opened Glyphs

  /** Net nesting of a stretch of program text. */
  function Balance(t: Table, s: seq<char>): int
  {
    if |s| == 0 then 0 else Weight(t, s[0]) + Balance(t, s[1..])
  }

  lemma {:induction false} BalanceConcat(t: Table, a: seq<char>, b: seq<char>)
    ensures Balance(t, a + b) == Balance(t, a) + Balance(t, b)
  {
    if |a| == 0 {
      assert a + b == b;
    } else {
      assert (a + b)[1..] == a[1..] + b;
      BalanceConcat(t, a[1..], b);
    }
  }

  /** Net nesting of `code[a..b]`. */
  function Span(t: Table, code: seq<char>, a: nat, b: nat): int
    requires a <= b <= |code|
  {
    Balance(t, code[a..b])
  }

  lemma SpanSplit(t: Table, code: seq<char>, a: nat, m: nat, b: nat)
    requires a <= m <= b <= |code|
    ensures Span(t, code, a, b) == Span(t, code, a, m) + Span(t, code, m, b)
  {
    assert code[a..b] == code[a..m] + code[m..b];
    BalanceConcat(t, code[a..m], code[m..b]);
  }

  lemma SpanOne(t: Table, code: seq<char>, a: nat)
    requires a < |code|
    ensures Span(t, code, a, a + 1) == Weight(t, code[a])
  {
    var s := code[a..a + 1];
    assert s[0] == code[a];
    assert s[1..] == [];
    assert Balance(t, s[1..]) == 0;
  }

  /** The forward scan of the `[` branch, started at position `i` with counter `depth`. */
  function ScanForward(t: Table, code: seq<char>, i: nat, depth: int): (r: Option<nat>)
    requires i < |code|
    ensures r.Some? ==> i < r.value < |code|
    decreases |code| - i
  {
    var j := i + 1;
    if j == |code| then None
    else
      var d := depth + Weight(t, code[j]);
      if d == 0 then Some(j) else ScanForward(t, code, j, d)
  }

  /** The forward scan's counter once it has read `code[i+1..e]`. */
  function ForwardDepth(t: Table, code: seq<char>, i: nat, depth: int, e: nat): int
    requires i < e <= |code|
  {
    depth + Span(t, code, i + 1, e)
  }

  /** `q` is the first position after `i` at which the counter, having read `code[i+1..q+1]`, is 0. */
  predicate ForwardStop(t: Table, code: seq<char>, i: nat, depth: int, q: nat)
  {
    && i < q < |code|
    && ForwardDepth(t, code, i, depth, q + 1) == 0
    && forall e :: i + 1 < e <= q ==> ForwardDepth(t, code, i, depth, e) != 0
  }

  /** The counter never reaches 0 before the end of the program. */
  predicate NoForwardStop(t: Table, code: seq<char>, i: nat, depth: int)
    requires i < |code|
  {
    forall e :: i + 1 < e <= |code| ==> ForwardDepth(t, code, i, depth, e) != 0
  }

  /** The forward scan finds exactly the first balancing position, and fails exactly when there is none. */
  lemma {:induction false} ScanForwardSpec(t: Table, code: seq<char>, i: nat, depth: int)
    requires i < |code|
    ensures forall q: nat :: ScanForward(t, code, i, depth) == Some(q) <==> ForwardStop(t, code, i, depth, q)
    ensures ScanForward(t, code, i, depth) == None <==> NoForwardStop(t, code, i, depth)
    decreases |code| - i
  {
    var j := i + 1;
    if j < |code| {
      var d := depth + Weight(t, code[j]);
      forall e | j + 1 <= e <= |code|
        ensures ForwardDepth(t, code, i, depth, e) == ForwardDepth(t, code, j, d, e)
      {
        SpanSplit(t, code, j, j + 1, e);
        SpanOne(t, code, j);
      }
      if d == 0 {
        assert ForwardDepth(t, code, i, depth, j + 1) == 0;
        forall q: nat | ForwardStop(t, code, i, depth, q)
          ensures q == j
        {
        }
      } else {
        ScanForwardSpec(t, code, j, d);
        forall q: nat
          ensures ForwardStop(t, code, i, depth, q) <==> ForwardStop(t, code, j, d, q)
        {
          if ForwardStop(t, code, j, d, q) {
            forall e | i + 1 < e <= q
              ensures ForwardDepth(t, code, i, depth, e) != 0
            {
              if e > j + 1 {
                assert ForwardDepth(t, code, i, depth, e) == ForwardDepth(t, code, j, d, e);
              }
            }
          }
          if ForwardStop(t, code, i, depth, q) {
            assert q != j;
            forall e | j + 1 < e <= q
              ensures ForwardDepth(t, code, j, d, e) != 0
            {
              assert ForwardDepth(t, code, i, depth, e) != 0;
            }
          }
        }
        if NoForwardStop(t, code, j, d) {
          forall e | i + 1 < e <= |code|
            ensures ForwardDepth(t, code, i, depth, e) != 0
          {
            if e > j + 1 {
              assert ForwardDepth(t, code, j, d, e) != 0;
            }
          }
        }
        if NoForwardStop(t, code, i, depth) {
          forall e | j + 1 < e <= |code|
            ensures ForwardDepth(t, code, j, d, e) != 0
          {
            assert ForwardDepth(t, code, i, depth, e) != 0;
          }
        }
      }
    }
  }

  /** The backward scan of the `]` branch, started at position `i` with counter `depth`. */
  function ScanBackward(t: Table, code: seq<char>, i: nat, depth: int): (r: Option<nat>)
    requires i < |code|
    ensures r.Some? ==> r.value < i
    decreases i
  {
    if i == 0 then None
    else
      var j := i - 1;
      var d := depth + Weight(t, code[j]);
      if d == 0 then Some(j) else ScanBackward(t, code, j, d)
  }

  /** `p` is the nearest position before `i` at which the counter, having read `code[p..i]`, is 0. */
  predicate BackwardStop(t: Table, code: seq<char>, i: nat, depth: int, p: nat)
    requires i < |code|
  {
    && p < i
    && depth + Span(t, code, p, i) == 0
    && forall k :: p < k < i ==> depth + Span(t, code, k, i) != 0
  }

  /** The counter never reaches 0 before running past the start of the program. */
  predicate NoBackwardStop(t: Table, code: seq<char>, i: nat, depth: int)
    requires i < |code|
  {
    forall k :: 0 <= k < i ==> depth + Span(t, code, k, i) != 0
  }

  /** The backward scan finds exactly the nearest balancing position, and fails exactly when there is none. */
  lemma {:induction false} ScanBackwardSpec(t: Table, code: seq<char>, i: nat, depth: int)
    requires i < |code|
    ensures forall p: nat :: ScanBackward(t, code, i, depth) == Some(p) <==> BackwardStop(t, code, i, depth, p)
    ensures ScanBackward(t, code, i, depth) == None <==> NoBackwardStop(t, code, i, depth)
    decreases i
  {
    if i > 0 {
      var j := i - 1;
      var d := depth + Weight(t, code[j]);
      forall k | 0 <= k <= j
        ensures depth + Span(t, code, k, i) == d + Span(t, code, k, j)
      {
        SpanSplit(t, code, k, j, i);
        SpanOne(t, code, j);
      }
      if d == 0 {
        assert depth + Span(t, code, j, i) == 0;
        forall p: nat | BackwardStop(t, code, i, depth, p)
          ensures p == j
        {
        }
      } else {
        ScanBackwardSpec(t, code, j, d);
        forall p: nat
          ensures BackwardStop(t, code, i, depth, p) <==> BackwardStop(t, code, j, d, p)
        {
          if BackwardStop(t, code, j, d, p) {
            forall k | p < k < i
              ensures depth + Span(t, code, k, i) != 0
            {
              if k < j {
                assert d + Span(t, code, k, j) != 0;
              }
            }
          }
          if BackwardStop(t, code, i, depth, p) {
            assert p != j;
            forall k | p < k < j
              ensures d + Span(t, code, k, j) != 0
            {
              assert depth + Span(t, code, k, i) != 0;
            }
          }
        }
        if NoBackwardStop(t, code, j, d) {
          forall k | 0 <= k < i
            ensures depth + Span(t, code, k, i) != 0
          {
            if k < j {
              assert d + Span(t, code, k, j) != 0;
            }
          }
        }
        if NoBackwardStop(t, code, i, depth) {
          forall k | 0 <= k < j
            ensures d + Span(t, code, k, j) != 0
          {
            assert depth + Span(t, code, k, i) != 0;
          }
        }
      }
    }
  }

  /** Between an lbracket and its forward partner the nesting never drops below the opening level. */
  lemma {:induction false} ForwardNesting(t: Table, code: seq<char>, p: nat, q: nat, e: nat)
    requires ForwardStop(t, code, p, 1, q)
    requires p + 1 <= e <= q
    ensures Span(t, code, p + 1, e) >= 0
    decreases e
  {
    if e == p + 1 {
      assert code[p + 1..e] == [];
    } else {
      assert ForwardDepth(t, code, p, 1, e) != 0;
      ForwardNesting(t, code, p, q, e - 1);
      SpanSplit(t, code, p + 1, e - 1, e);
      SpanOne(t, code, e - 1);
    }
  }

  /** Between an rbracket and its backward partner the nesting never rises above the closing level. */
  lemma {:induction false} BackwardNesting(t: Table, code: seq<char>, q: nat, p: nat, k: nat)
    requires q < |code|
    requires BackwardStop(t, code, q, -1, p)
    requires p < k <= q
    ensures Span(t, code, k, q) <= 0
    decreases q - k
  {
    if k == q {
      assert code[k..q] == [];
    } else {
      assert -1 + Span(t, code, k, q) != 0;
      BackwardNesting(t, code, q, p, k + 1);
      SpanSplit(t, code, k, k + 1, q);
      SpanOne(t, code, k);
    }
  }

  /** The rbracket a forward scan stops at leads a backward scan back to the same lbracket. */
  lemma MatchForwardBackward(t: Table, code: seq<char>, p: nat, q: nat)
    requires p < |code| && code[p] == t.lbracket
    requires ScanForward(t, code, p, 1) == Some(q)
    ensures code[q] == t.rbracket && code[q] != t.lbracket
    ensures ScanBackward(t, code, q, -1) == Some(p)
  {
    ScanForwardSpec(t, code, p, 1);
    assert ForwardStop(t, code, p, 1, q);
    ForwardNesting(t, code, p, q, q);
    SpanSplit(t, code, p + 1, q, q + 1);
    SpanOne(t, code, q);
    SpanSplit(t, code, p, p + 1, q);
    SpanOne(t, code, p);
    forall k | p < k < q
      ensures -1 + Span(t, code, k, q) != 0
    {
      SpanSplit(t, code, p + 1, k, q);
      ForwardNesting(t, code, p, q, k);
    }
    assert BackwardStop(t, code, q, -1, p);
    ScanBackwardSpec(t, code, q, -1);
  }

  /** The lbracket a backward scan stops at leads a forward scan back to the same rbracket. */
  lemma MatchBackwardForward(t: Table, code: seq<char>, q: nat, p: nat)
    requires q < |code| && code[q] == t.rbracket && code[q] != t.lbracket
    requires ScanBackward(t, code, q, -1) == Some(p)
    ensures code[p] == t.lbracket
    ensures ScanForward(t, code, p, 1) == Some(q)
  {
    ScanBackwardSpec(t, code, q, -1);
    assert BackwardStop(t, code, q, -1, p);
    assert Span(t, code, p, q) == 1;
    BackwardNesting(t, code, q, p, p + 1);
    SpanSplit(t, code, p, p + 1, q);
    SpanOne(t, code, p);
    assert Weight(t, code[p]) == 1;
    var inner := Span(t, code, p + 1, q);
    assert inner == 0;
    SpanSplit(t, code, p + 1, q, q + 1);
    SpanOne(t, code, q);
    assert ForwardDepth(t, code, p, 1, q + 1) == 0;
    forall e | p + 1 < e <= q
      ensures ForwardDepth(t, code, p, 1, e) != 0
    {
      SpanSplit(t, code, p + 1, e, q);
      BackwardNesting(t, code, q, p, e);
    }
    assert ForwardStop(t, code, p, 1, q);
    ScanForwardSpec(t, code, p, 1);
  }

  /**
    Every prefix of the program holds at least as many lbrackets as it
    holds rbrackets that are not also lbrackets, and the whole program
    holds exactly as many.
   */
  predicate Balanced(t: Table, code: seq<char>)
  {
    && (forall k :: 0 <= k <= |code| ==> Span(t, code, 0, k) >= 0)
    && Span(t, code, 0, |code|) == 0
  }

  /** A forward scan from depth 1 that never reaches 0 stays at 1 or above. */
  lemma {:induction false} ForwardStaysPositive(t: Table, code: seq<char>, i: nat, e: nat)
    requires i < e <= |code|
    requires NoForwardStop(t, code, i, 1)
    ensures ForwardDepth(t, code, i, 1, e) >= 1
    decreases e
  {
    if e == i + 1 {
      assert code[i + 1..e] == [];
    } else {
      ForwardStaysPositive(t, code, i, e - 1);
      SpanSplit(t, code, i + 1, e - 1, e);
      SpanOne(t, code, e - 1);
    }
  }

  /** A backward scan from depth -1 that never reaches 0 stays at -1 or below. */
  lemma {:induction false} BackwardStaysNegative(t: Table, code: seq<char>, i: nat, k: nat)
    requires k <= i < |code|
    requires NoBackwardStop(t, code, i, -1)
    ensures -1 + Span(t, code, k, i) <= -1
    decreases i - k
  {
    if k == i {
      assert code[k..i] == [];
    } else {
      BackwardStaysNegative(t, code, i, k + 1);
      SpanSplit(t, code, k, k + 1, i);
      SpanOne(t, code, k);
    }
  }

  /** In a balanced program the forward scan from any lbracket finds its partner. */
  lemma BalancedOpenMatches(t: Table, code: seq<char>, p: nat)
    requires Balanced(t, code)
    requires p < |code| && code[p] == t.lbracket
    ensures ScanForward(t, code, p, 1).Some?
  {
    ScanForwardSpec(t, code, p, 1);
    if ScanForward(t, code, p, 1).None? {
      SpanSplit(t, code, p, p + 1, |code|);
      SpanOne(t, code, p);
      SpanSplit(t, code, 0, p, |code|);
      ForwardStaysPositive(t, code, p, |code|);
      assert false;
    }
  }

  /** In a balanced program the backward scan from any rbracket (that is not also an lbracket) finds its partner. */
  lemma BalancedCloseMatches(t: Table, code: seq<char>, q: nat)
    requires Balanced(t, code)
    requires q < |code| && code[q] == t.rbracket && code[q] != t.lbracket
    ensures ScanBackward(t, code, q, -1).Some?
  {
    ScanBackwardSpec(t, code, q, -1);
    if ScanBackward(t, code, q, -1).None? {
      SpanOne(t, code, q);
      SpanSplit(t, code, 0, q, q + 1);
      BackwardStaysNegative(t, code, q, 0);
      assert false;
    }
  }
}
