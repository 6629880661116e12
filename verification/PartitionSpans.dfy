/**
 The check that a span covers consecutive parts, at the end of resolve in
 nrf/scripts/partition_manager.py: its highest index minus its lowest plus one is its length.
 */
module PartitionSpans {
  import opened NameLists

  function Lowest(solution: seq<string>, span: seq<string>): (m: nat)
    requires span != [] && forall p :: p in span ==> p in solution
    ensures forall p :: p in span ==> m <= IndexOf(solution, p)
    ensures exists p :: p in span && IndexOf(solution, p) == m
  {
    var i := IndexOf(solution, span[0]);
    if |span| == 1 then i
    else var m := Lowest(solution, span[1..]); if i < m then i else m
  }

  function Highest(solution: seq<string>, span: seq<string>): (m: nat)
    requires span != [] && forall p :: p in span ==> p in solution
    ensures forall p :: p in span ==> IndexOf(solution, p) <= m
    ensures exists p :: p in span && IndexOf(solution, p) == m
  {
    var i := IndexOf(solution, span[0]);
    if |span| == 1 then i
    else var m := Highest(solution, span[1..]); if i > m then i else m
  }

  predicate Consecutive(solution: seq<string>, span: seq<string>)
    requires forall p :: p in span ==> p in solution
  {
    span == [] || Highest(solution, span) - Lowest(solution, span) + 1 == |span|
  }

  /** The parts of the span, and nothing else, lie from position lo on. */
  predicate LiesFrom(solution: seq<string>, span: seq<string>, lo: nat) {
    && lo + |span| <= |solution|
    && forall i :: 0 <= i < |solution| ==> (solution[i] in span <==> lo <= i < lo + |span|)
  }

  function Positions(solution: seq<string>, span: seq<string>): set<nat> {
    set i: nat | i < |solution| && solution[i] in span
  }

  lemma PositionsStep(solution: seq<string>, span: seq<string>)
    requires Distinct(solution) && Distinct(span) && span != [] && span[0] in solution
    ensures var k := IndexOf(solution, span[0]);
      && k !in Positions(solution, span[1..])
      && Positions(solution, span) == {k} + Positions(solution, span[1..])
  {
  }

  lemma {:induction false} PositionsCount(solution: seq<string>, span: seq<string>)
    requires Distinct(solution) && Distinct(span) && forall p :: p in span ==> p in solution
    ensures |Positions(solution, span)| == |span|
    decreases span
  {
    if span == [] {
      assert Positions(solution, span) == {};
    } else {
      hide Positions, IndexOf;
      PositionsStep(solution, span);
      PositionsCount(solution, span[1..]);
    }
  }

  function Interval(lo: nat, n: nat): (s: set<nat>)
    ensures |s| == n && forall i :: i in s <==> lo <= i < lo + n
  {
    if n == 0 then {} else Interval(lo, n - 1) + {lo + n - 1}
  }

  // As many positions as fit between the lowest and the highest fill what is between them.
  lemma FullSet(a: set<nat>, b: set<nat>)
    requires a <= b && |a| == |b|
    ensures a == b
  {
    assert b == a + (b - a);
    assert |b| == |a| + |b - a|;
  }

  lemma PositionsBounded(solution: seq<string>, span: seq<string>, i: nat)
    requires Distinct(solution) && span != [] && forall p :: p in span ==> p in solution
    requires i in Positions(solution, span)
    ensures Lowest(solution, span) <= i <= Highest(solution, span)
  {
  }

  /** The test on indices holds just when the span is an unbroken piece of the solution. */
  lemma ConsecutiveIff(solution: seq<string>, span: seq<string>)
    requires Distinct(solution) && Distinct(span) && forall p :: p in span ==> p in solution
    ensures Consecutive(solution, span) <==> exists lo: nat :: LiesFrom(solution, span, lo)
  {
    hide Lowest, Highest, IndexOf, Distinct;
    if span == [] {
      assert LiesFrom(solution, span, 0);
    } else {
      var l, h, n := Lowest(solution, span), Highest(solution, span), |span|;
      if h - l + 1 == n {
        PositionsCount(solution, span);
        forall i | i in Positions(solution, span) ensures i in Interval(l, n) {
          PositionsBounded(solution, span, i);
        }
        FullSet(Positions(solution, span), Interval(l, n));
        FilledFrom(solution, span, l);
      }
      if lo: nat :| LiesFrom(solution, span, lo) {
        EdgesOfPiece(solution, span, lo);
      }
    }
  }

  lemma FilledFrom(solution: seq<string>, span: seq<string>, l: nat)
    requires Positions(solution, span) == Interval(l, |span|) && span != []
    ensures LiesFrom(solution, span, l)
  {
    hide Interval;
    assert l + |span| - 1 in Interval(l, |span|);
    forall i | 0 <= i < |solution| ensures solution[i] in span <==> l <= i < l + |span| {
      assert solution[i] in span <==> i in Positions(solution, span);
    }
  }

  lemma EdgesOfPiece(solution: seq<string>, span: seq<string>, lo: nat)
    requires Distinct(solution) && span != [] && forall p :: p in span ==> p in solution
    requires LiesFrom(solution, span, lo)
    ensures Lowest(solution, span) == lo && Highest(solution, span) == lo + |span| - 1
  {
    hide Lowest, Highest, IndexOf, Distinct;
    var hi := lo + |span| - 1;
    assert solution[lo] in span && solution[hi] in span;
    IndexIsOnly(solution, lo);
    IndexIsOnly(solution, hi);
  }
}
