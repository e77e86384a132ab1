/**
  The bisection search helper `binary_search(y, search_list)` of the Monte Carlo
  utilities. The list is an immutable `seq<real>`; the query `y` is a `real`.

  The loop keeps a bracket [left, right] that starts as [0, |a| - 1]. Each pass
  moves one end onto the midpoint (the left end when `y > a[mid]`, the right end
  otherwise), raises a stop flag once the ends are adjacent, recomputes the
  midpoint and counts the pass. The result is the left end.

  The module has three parts:
  - `Step` and `Passes`: one pass of the loop, and the loop state after k passes;
  - `Rank`: an independent reference for the result on a non-decreasing list;
  - `BinarySearch`: the loop itself, proved against both.
 */
module Bisection {

  // ---------------------------------------------------------------------------
  // Ceiling of the base-2 logarithm, for the bound on the number of passes
  // ---------------------------------------------------------------------------

  function Pow2(k: nat): (p: nat)
    ensures p >= 1
  {
    if k == 0 then 1 else 2 * Pow2(k - 1)
  }

  /** Number of halvings (rounding up) that take a width w down to 1. */
  function CeilLog2(w: nat): (c: nat)
  {
    if w <= 1 then 0 else 1 + CeilLog2((w + 1) / 2)
  }

  /** CeilLog2(w) is the least c with w <= 2^c. */
  lemma {:induction false} CeilLog2IsCeiling(w: nat)
    requires w >= 1
    ensures w <= Pow2(CeilLog2(w))
    ensures w >= 2 ==> Pow2(CeilLog2(w) - 1) < w
  {
    if w >= 2 {
      var h := (w + 1) / 2;
      CeilLog2IsCeiling(h);
      assert Pow2(CeilLog2(w)) == 2 * Pow2(CeilLog2(h));
    }
  }

  lemma {:induction false} CeilLog2Monotone(u: nat, w: nat)
    requires u <= w
    ensures CeilLog2(u) <= CeilLog2(w)
  {
    if u >= 2 {
      CeilLog2Monotone((u + 1) / 2, (w + 1) / 2);
    }
  }

  /** Halving a width w >= 2, rounding up, takes one step off its CeilLog2. */
  lemma CeilLog2Halves(w: nat, w': nat)
    requires w >= 2 && w' <= (w + 1) / 2
    ensures CeilLog2(w') + 1 <= CeilLog2(w)
  {
    CeilLog2Monotone(w', (w + 1) / 2);
  }

  /** The most passes the loop makes on a list of length n (n >= 2). For n == 2
      the single pass runs on a bracket that is already adjacent. */
  function MaxPasses(n: nat): (m: nat)
    requires n >= 2
    ensures 1 <= m <= CeilLog2(n)
  {
    CeilLog2Monotone(n - 1, n);
    if n == 2 then 1 else CeilLog2(n - 1)
  }

  // ---------------------------------------------------------------------------
  // The loop state and one pass of the loop
  // ---------------------------------------------------------------------------

  /** The loop's locals `index_left`, `index_right`, `index_mid` and `stop_condition`. */
  datatype SearchState = SearchState(left: int, right: int, mid: int, stop: bool)

  /** The ends are ordered, lie in the list, and `mid` is their rounded-down midpoint. */
  ghost predicate InRange(s: SearchState, n: nat)
  {
    0 <= s.left <= s.right < n && s.mid == (s.left + s.right) / 2
  }

  /** The state before the first pass; `len(search_list) - 1` needs a non-empty list
      for `mid` to index it. */
  function Init(a: seq<real>): (s: SearchState)
    requires |a| >= 1
    ensures InRange(s, |a|) && s.left == 0 && s.right == |a| - 1 && !s.stop
  {
    SearchState(0, |a| - 1, (|a| - 1) / 2, false)
  }

  /** One pass of the loop body. */
  function Step(a: seq<real>, y: real, s: SearchState): (t: SearchState)
    requires InRange(s, |a|)
    ensures InRange(t, |a|)
    // an end either stays or moves to a midpoint that witnesses its side of y
    ensures t.left == s.left || y > a[t.left]
    ensures t.right == s.right || y <= a[t.right]
    // the bracket at least halves (rounding up) and never shrinks below 1 when it was 2 or more
    ensures t.right - t.left <= (s.right - s.left + 1) / 2
    ensures s.right - s.left >= 2 ==> t.right - t.left >= 1
    ensures t.stop <==> t.right - t.left == 1
  {
    var left := if y > a[s.mid] then s.mid else s.left;
    var right := if y > a[s.mid] then s.right else s.mid;
    SearchState(left, right, (right + left) / 2, left == right - 1)
  }

  /** The loop state after k passes of the while loop; once the stop flag is set
      the loop has exited and the state no longer changes. */
  function Passes(a: seq<real>, y: real, k: nat): (s: SearchState)
    requires |a| >= 1
    ensures InRange(s, |a|)
  {
    if k == 0 then Init(a)
    else
      var prev := Passes(a, y, k - 1);
      if prev.stop then prev else Step(a, y, prev)
  }

  /** The inputs on which the loop terminates. */
  predicate InDomain(a: seq<real>, y: real)
  {
    |a| >= 3 || (|a| == 2 && y > a[0])
  }

  /** What holds of the loop state after k passes, for an input in the domain:
      - the ends stay ordered, and each end is 0 or |a| - 1 or witnesses its
        side of y (left: y > a[left]; right: y <= a[right]);
      - the stop flag means the ends are adjacent and at least one pass was made;
      - before the loop stops, the bracket is at least 2 wide (except before the
        first pass on a list of two), and the passes made so far plus the
        halvings still needed to bring it down to width 1 fit in MaxPasses(|a|). */
  ghost predicate Bracketed(a: seq<real>, y: real, s: SearchState, k: nat)
  {
    && |a| >= 2
    && InRange(s, |a|)
    && s.left < s.right
    && (s.left == 0 || y > a[s.left])
    && (s.right == |a| - 1 || y <= a[s.right])
    && (s.stop ==> s.right == s.left + 1 && 1 <= k)
    && (!s.stop ==> s.right - s.left >= 2 || (k == 0 && y > a[s.left]))
    && (!s.stop ==> k + CeilLog2(s.right - s.left) <= MaxPasses(|a|))
  }

  lemma InitBracketed(a: seq<real>, y: real)
    requires InDomain(a, y)
    ensures Bracketed(a, y, Init(a), 0)
  {
    assert |a| == 2 ==> CeilLog2(|a| - 1) == 0;
  }

  /** A pass from a bracket that has not stopped keeps it bracketed, happens
      within the bound, and narrows the bracket unless it stops the loop. */
  lemma StepBracketed(a: seq<real>, y: real, s: SearchState, k: nat)
    requires InDomain(a, y) && Bracketed(a, y, s, k) && !s.stop
    ensures Bracketed(a, y, Step(a, y, s), k + 1)
    ensures k < MaxPasses(|a|)
    ensures Step(a, y, s).stop || Step(a, y, s).right - Step(a, y, s).left < s.right - s.left
  {
    var t := Step(a, y, s);
    var w, w' := s.right - s.left, t.right - t.left;
    if w >= 2 {
      CeilLog2Halves(w, w');
      if !t.stop {
        assert w' >= 2;
      }
    } else {
      assert t.left == s.left && t.right == s.right;
    }
  }

  /** Every state the loop reaches on an input in the domain is bracketed. */
  lemma {:induction false} PassesBracketed(a: seq<real>, y: real, k: nat)
    requires InDomain(a, y)
    ensures Bracketed(a, y, Passes(a, y, k), k)
  {
    if k == 0 {
      InitBracketed(a, y);
    } else {
      var j: nat := k - 1;
      PassesBracketed(a, y, j);
      var prev := Passes(a, y, j);
      if prev.stop {
        assert Passes(a, y, k) == prev;
      } else {
        StepBracketed(a, y, prev, j);
      }
    }
  }

  /** On the domain the loop has stopped after MaxPasses(|a|) passes. */
  lemma StopsWithin(a: seq<real>, y: real)
    requires InDomain(a, y)
    ensures Passes(a, y, MaxPasses(|a|)).stop
  {
    PassesBracketed(a, y, MaxPasses(|a|));
  }

  /** Outside the domain the ends are equal from the first pass on: a list of
      one element starts with both ends at 0, and a list of two with y <= a[0]
      takes the else-branch, which moves the right end onto 0. The stop test
      can then never succeed, and the loop runs forever. */
  lemma {:induction false} DivergesOutsideDomain(a: seq<real>, y: real, k: nat)
    requires |a| == 1 || (|a| == 2 && y <= a[0])
    ensures !Passes(a, y, k).stop
    ensures k >= 1 ==> Passes(a, y, k) == SearchState(0, 0, 0, false)
  {
    if k >= 1 {
      DivergesOutsideDomain(a, y, k - 1);
    }
  }

  /** The precondition of BinarySearch is exactly the set of non-empty inputs on
      which the loop stops. */
  lemma DomainIsExact(a: seq<real>, y: real)
    requires |a| >= 1
    ensures InDomain(a, y) <==> exists k: nat :: Passes(a, y, k).stop
  {
    if InDomain(a, y) {
      StopsWithin(a, y);
    } else {
      forall k: nat ensures !Passes(a, y, k).stop {
        DivergesOutsideDomain(a, y, k);
      }
    }
  }

  // ---------------------------------------------------------------------------
  // Reference result on a non-decreasing list
  // ---------------------------------------------------------------------------

  ghost predicate Sorted(a: seq<real>)
  {
    forall i, j :: 0 <= i <= j < |a| ==> a[i] <= a[j]
  }

  /** Number of elements of s strictly below y. */
  function CountBelow(s: seq<real>, y: real): (c: nat)
    ensures c <= |s|
  {
    if s == [] then 0 else (if s[0] < y then 1 else 0) + CountBelow(s[1..], y)
  }

  /** The bisection result on a non-decreasing list: how many interior elements
      a[1], ..., a[|a| - 2] lie strictly below y. */
  function Rank(a: seq<real>, y: real): (r: nat)
    requires |a| >= 2
    ensures r <= |a| - 2
  {
    CountBelow(a[1..|a| - 1], y)
  }

  /** If exactly the first k elements are below y, the count is k. */
  lemma {:induction false} CountBelowExact(s: seq<real>, y: real, k: nat)
    requires k <= |s|
    requires forall j :: 0 <= j < k ==> s[j] < y
    requires forall j :: k <= j < |s| ==> y <= s[j]
    ensures CountBelow(s, y) == k
  {
    if s != [] {
      if k == 0 {
        assert y <= s[0];
        CountBelowExact(s[1..], y, 0);
      } else {
        assert s[0] < y;
        CountBelowExact(s[1..], y, k - 1);
      }
    }
  }

  /** On a non-decreasing sequence the elements below y are exactly a prefix. */
  lemma {:induction false} CountBelowSorted(s: seq<real>, y: real)
    requires Sorted(s)
    ensures forall j :: 0 <= j < CountBelow(s, y) ==> s[j] < y
    ensures forall j :: CountBelow(s, y) <= j < |s| ==> y <= s[j]
  {
    if s != [] {
      var t := s[1..];
      assert Sorted(t) by {
        forall i, j | 0 <= i <= j < |t| ensures t[i] <= t[j] {
          assert t[i] == s[i + 1] && t[j] == s[j + 1];
        }
      }
      if s[0] < y {
        CountBelowSorted(t, y);
        forall j | 1 <= j < |s| ensures s[j] == t[j - 1] { }
      } else {
        assert forall j :: 0 <= j < |s| ==> s[0] <= s[j];
        CountBelowExact(t, y, 0);
      }
    }
  }

  lemma {:induction false} CountBelowMonotone(s: seq<real>, y1: real, y2: real)
    requires y1 <= y2
    ensures CountBelow(s, y1) <= CountBelow(s, y2)
  {
    if s != [] {
      CountBelowMonotone(s[1..], y1, y2);
    }
  }

  /** On a non-decreasing list, i is the result exactly when a[i] < y <= a[i + 1],
      with the comparison on the left dropped at i == 0 and the one on the right
      dropped at i == |a| - 2 (clamping at both ends). */
  lemma RankBracket(a: seq<real>, y: real, i: nat)
    requires |a| >= 2 && Sorted(a) && i <= |a| - 2
    ensures Rank(a, y) == i <==> (i == 0 || a[i] < y) && (i == |a| - 2 || y <= a[i + 1])
  {
    var s := a[1..|a| - 1];
    assert Sorted(s) by {
      forall p, q | 0 <= p <= q < |s| ensures s[p] <= s[q] {
        assert s[p] == a[p + 1] && s[q] == a[q + 1];
      }
    }
    if (i == 0 || a[i] < y) && (i == |a| - 2 || y <= a[i + 1]) {
      forall j | 0 <= j < i ensures s[j] < y {
        assert s[j] == a[j + 1] <= a[i];
      }
      forall j | i <= j < |s| ensures y <= s[j] {
        assert s[j] == a[j + 1] >= a[i + 1];
      }
      CountBelowExact(s, y, i);
    }
    if Rank(a, y) == i {
      CountBelowSorted(s, y);
      if i > 0 {
        assert s[i - 1] == a[i];
      }
      if i < |a| - 2 {
        assert s[i] == a[i + 1];
      }
    }
  }

  /** Every query at or below a[1] gives 0 (the low end clamps). */
  lemma RankClampLow(a: seq<real>, y: real)
    requires |a| >= 2 && Sorted(a) && y <= a[1]
    ensures Rank(a, y) == 0
  {
    RankBracket(a, y, 0);
  }

  /** Every query above a[|a| - 2] gives |a| - 2, never |a| - 1 (the high end clamps). */
  lemma RankClampHigh(a: seq<real>, y: real)
    requires |a| >= 2 && Sorted(a) && y > a[|a| - 2]
    ensures Rank(a, y) == |a| - 2
  {
    RankBracket(a, y, |a| - 2);
  }

  /** An exact hit on a[i], i > 0, that is strictly above its left neighbour gives
      i - 1: ties go left because the comparison is strict. */
  lemma RankExactHit(a: seq<real>, i: nat)
    requires |a| >= 2 && Sorted(a) && 0 < i < |a| && a[i - 1] < a[i]
    ensures Rank(a, a[i]) == i - 1
  {
    RankBracket(a, a[i], i - 1);
  }

  /** A larger query never gives a smaller result. */
  lemma RankMonotone(a: seq<real>, y1: real, y2: real)
    requires |a| >= 2 && y1 <= y2
    ensures Rank(a, y1) <= Rank(a, y2)
  {
    CountBelowMonotone(a[1..|a| - 1], y1, y2);
  }

  // ---------------------------------------------------------------------------
  // The result of the loop model
  // ---------------------------------------------------------------------------

  /** Once the loop has stopped, its left end is a valid left bracket index,
      witnessed on both sides, and on a non-decreasing list it is the reference
      result. */
  lemma StoppedResult(a: seq<real>, y: real, k: nat)
    requires InDomain(a, y) && Passes(a, y, k).stop
    ensures Passes(a, y, k).left <= |a| - 2
    ensures Passes(a, y, k).right == Passes(a, y, k).left + 1
    ensures Passes(a, y, k).left == 0 || y > a[Passes(a, y, k).left]
    ensures Passes(a, y, k).left + 1 == |a| - 1 || y <= a[Passes(a, y, k).left + 1]
    ensures Sorted(a) ==> Passes(a, y, k).left == Rank(a, y)
  {
    PassesBracketed(a, y, k);
    if Sorted(a) {
      RankBracket(a, y, Passes(a, y, k).left);
    }
  }

  /** On a non-decreasing list a larger query never gives a smaller result. */
  lemma SearchMonotone(a: seq<real>, y1: real, y2: real, k1: nat, k2: nat)
    requires Sorted(a) && y1 <= y2
    requires InDomain(a, y1) && Passes(a, y1, k1).stop
    requires InDomain(a, y2) && Passes(a, y2, k2).stop
    ensures Passes(a, y1, k1).left <= Passes(a, y2, k2).left
  {
    StoppedResult(a, y1, k1);
    StoppedResult(a, y2, k2);
    RankMonotone(a, y1, y2);
  }

  // ---------------------------------------------------------------------------
  // The search
  // ---------------------------------------------------------------------------

  /** binary_search(y, search_list): the left end of the final adjacent bracket.
      `iterations` is the source's `iter` counter. The locals start as `Init(a)`
      and each pass is checked to equal `Step` of the previous state, which is
      how `Passes` is built. */
  method BinarySearch(y: real, a: seq<real>) returns (r: nat, ghost iterations: nat)
    requires InDomain(a, y)
    ensures r <= |a| - 2
    // the result is bracketed on both sides, whether or not the list is sorted
    ensures r == 0 || y > a[r]
    ensures r + 1 == |a| - 1 || y <= a[r + 1]
    ensures Sorted(a) ==> r == Rank(a, y)
    ensures 1 <= iterations <= MaxPasses(|a|)
  {
    ghost var iter: nat := 0;
    InitBracketed(a, y);

    var indexLeft := 0;
    var indexRight := |a| - 1;
    var indexMid := (indexRight + indexLeft) / 2;

    var stopCondition := false;
    assert SearchState(indexLeft, indexRight, indexMid, stopCondition) == Init(a);

    while !stopCondition
      invariant Bracketed(a, y, SearchState(indexLeft, indexRight, indexMid, stopCondition), iter)
      invariant iter <= MaxPasses(|a|)
      decreases if stopCondition then 0 else indexRight - indexLeft
    {
      ghost var current := SearchState(indexLeft, indexRight, indexMid, stopCondition);
      StepBracketed(a, y, current, iter);
      ghost var next := Step(a, y, current);

      if y > a[indexMid] {
        indexLeft := indexMid;
      } else {
        indexRight := indexMid;
      }

      if indexLeft == indexRight - 1 {
        stopCondition := true;
      }

      indexMid := (indexRight + indexLeft) / 2;
      assert SearchState(indexLeft, indexRight, indexMid, stopCondition) == next;
      iter := iter + 1;
    }

    r, iterations := indexLeft, iter;
    if Sorted(a) {
      RankBracket(a, y, r);
    }
  }

  // ---------------------------------------------------------------------------
  // Concrete runs of the loop
  // ---------------------------------------------------------------------------

  /** [0, 1, 2, 3, 4, 5] with y = 2.5 stops after two passes with result 2. */
  lemma ScenarioInterior()
    ensures !Passes([0.0, 1.0, 2.0, 3.0, 4.0, 5.0], 2.5, 1).stop
    ensures Passes([0.0, 1.0, 2.0, 3.0, 4.0, 5.0], 2.5, 2) == SearchState(2, 3, 2, true)
  {
  }

  /** [0, 1, 2] with y = -5 gives 0 after one pass. */
  lemma ScenarioBelowAll()
    ensures Passes([0.0, 1.0, 2.0], -5.0, 1) == SearchState(0, 1, 0, true)
  {
  }

  /** [0, 1, 2] with y = 100 gives 1, i.e. |a| - 2, after one pass. */
  lemma ScenarioAboveAll()
    ensures Passes([0.0, 1.0, 2.0], 100.0, 1) == SearchState(1, 2, 1, true)
  {
  }

  /** [0, 10] with y = 5 gives 0 after its single pass. */
  lemma ScenarioTwoElements()
    ensures Passes([0.0, 10.0], 5.0, 1) == SearchState(0, 1, 0, true)
  {
  }

  /** [0, 1, 2, 3] with y = 2 gives 1, not 2: the tie goes left. */
  lemma ScenarioTieGoesLeft()
    ensures !Passes([0.0, 1.0, 2.0, 3.0], 2.0, 1).stop
    ensures Passes([0.0, 1.0, 2.0, 3.0], 2.0, 2) == SearchState(1, 2, 1, true)
  {
  }

  /** The same runs through the method itself: its contract alone fixes each result. */
  method ScenarioSearches()
  {
    var r;
    ghost var n;
    r, n := BinarySearch(2.5, [0.0, 1.0, 2.0, 3.0, 4.0, 5.0]);
    assert Rank([0.0, 1.0, 2.0, 3.0, 4.0, 5.0], 2.5) == 2;
    assert r == 2;
    r, n := BinarySearch(-5.0, [0.0, 1.0, 2.0]);
    assert r == 0;
    r, n := BinarySearch(100.0, [0.0, 1.0, 2.0]);
    assert r == 1;
    r, n := BinarySearch(5.0, [0.0, 10.0]);
    assert r == 0;
    r, n := BinarySearch(2.0, [0.0, 1.0, 2.0, 3.0]);
    assert Rank([0.0, 1.0, 2.0, 3.0], 2.0) == 1;
    assert r == 1;
  }
}
