/**
 When the span check at the end of resolve in nrf/scripts/partition_manager.py passes: exactly if no
 partition was put where it breaks the span, and always if the requests around the span are tidy.
 */
module PartitionTidy {
  import opened NameLists
  import opened PartitionOrder
  import opened PartitionRounds
  import opened PartitionSpans
  import opened Wrappers

  // ----- One insertion ------------------------------------------------------------------------

  /** Nothing else lies between two parts of the span. */
  ghost predicate Unbroken(solution: seq<string>, span: seq<string>) {
    forall i, j, k :: 0 <= i < j < k < |solution| && solution[i] in span && solution[k] in span ==> solution[j] in span
  }

  /** Putting x at this index: a part goes next to another part unless it is the first, and what is not a part does
      not go between two of them. */
  predicate Fits(solution: seq<string>, at: nat, x: string, span: seq<string>)
    requires at <= |solution|
  {
    var left, right := at > 0 && solution[at - 1] in span, at < |solution| && solution[at] in span;
    if x in span then left || right || forall y :: y in solution ==> y !in span else !(left && right)
  }

  lemma InsertedAt(solution: seq<string>, at: nat, x: string, i: nat)
    requires at <= |solution| && i <= |solution|
    ensures |InsertAt(solution, at, x)| == |solution| + 1
    ensures InsertAt(solution, at, x)[i] == if i < at then solution[i] else if i == at then x else solution[i - 1]
  {
  }

  lemma FittingKeeps(solution: seq<string>, at: nat, x: string, span: seq<string>)
    requires at <= |solution| && Unbroken(solution, span) && Fits(solution, at, x, span)
    ensures Unbroken(InsertAt(solution, at, x), span)
  {
    var t := InsertAt(solution, at, x);
    forall i, j, k | 0 <= i < j < k < |t| && t[i] in span && t[k] in span
      ensures t[j] in span
    {
      InsertedAt(solution, at, x, i);
      InsertedAt(solution, at, x, j);
      InsertedAt(solution, at, x, k);
      var i', j', k' := if i < at then i else i - 1, if j < at then j else j - 1, if k < at then k else k - 1;
      if i == at {
        assert solution[k'] in solution;
        assert at < |solution| ==> solution[at] in span || solution[at - 1] in span;
      }
      if k == at {
        assert solution[i'] in solution;
      }
    }
  }

  lemma OldIsKept(solution: seq<string>, at: nat, x: string, i: nat)
    requires at <= |solution| && i < |solution|
    ensures InsertAt(solution, at, x)[if i < at then i else i + 1] == solution[i]
  {
  }

  lemma BrokenStaysBroken(solution: seq<string>, at: nat, x: string, span: seq<string>)
    requires at <= |solution| && Unbroken(InsertAt(solution, at, x), span)
    ensures Unbroken(solution, span) && Fits(solution, at, x, span)
  {
    var t := InsertAt(solution, at, x);
    InsertedAt(solution, at, x, at);
    forall i, j, k | 0 <= i < j < k < |solution| && solution[i] in span && solution[k] in span
      ensures solution[j] in span
    {
      OldIsKept(solution, at, x, i);
      OldIsKept(solution, at, x, j);
      OldIsKept(solution, at, x, k);
    }
    if x in span {
      forall y | y in solution && y in span ensures Fits(solution, at, x, span) {
        var i :| 0 <= i < |solution| && solution[i] == y;
        OldIsKept(solution, at, x, i);
        if i < at {
          InsertedAt(solution, at, x, at - 1);
        } else {
          InsertedAt(solution, at, x, at + 1);
        }
      }
    } else if 0 < at < |solution| {
      InsertedAt(solution, at, x, at - 1);
      InsertedAt(solution, at, x, at + 1);
    }
  }

  // ----- Whole runs -----------------------------------------------------------------------------

  /** Where an entry of the log is put. */
  function Index(before: seq<string>, e: Placement): (at: nat)
    requires e.anchor in before
    ensures at <= |before|
  {
    IndexOf(before, e.anchor) + if e.dir == Before then 0 else 1
  }

  ghost predicate AllCertified(p: Problem, log: seq<Placement>) {
    forall k :: 0 <= k < |log| ==> Certified(p, log, k)
  }

  ghost predicate AllFit(p: Problem, log: seq<Placement>, span: seq<string>)
    requires AllCertified(p, log)
  {
    forall k :: 0 <= k < |log| ==>
      var before := Replay(p.dp, log[..k]);
      Certified(p, log, k) && Fits(before, Index(before, log[k]), log[k].name, span)
  }

  lemma DropLast(p: Problem, log: seq<Placement>)
    requires AllCertified(p, log) && log != []
    ensures AllCertified(p, log[..|log| - 1])
    ensures forall k :: 0 <= k < |log| - 1 ==> log[..|log| - 1][..k] == log[..k]
    ensures var n, before := |log| - 1, Replay(p.dp, log[..|log| - 1]);
            && Certified(p, log, n) && Replay(p.dp, log) == InsertAt(before, Index(before, log[n]), log[n].name)
  {
    hide Inserted, Outermost;
    var n, shorter := |log| - 1, log[..|log| - 1];
    assert Certified(p, log, n);
    forall k | 0 <= k < n ensures shorter[..k] == log[..k] && Certified(p, shorter, k) {
      CertifiedBefore(p, log, k);
    }
    assert Replay(p.dp, log) == Inserted(Replay(p.dp, shorter), log[n].anchor, log[n].name, log[n].dir);
    InsertedIs(Replay(p.dp, shorter), log[n]);
  }

  lemma CertifiedBefore(p: Problem, log: seq<Placement>, k: nat)
    requires k < |log| - 1 && Certified(p, log, k)
    ensures log[..|log| - 1][..k] == log[..k] && Certified(p, log[..|log| - 1], k)
  {
    hide Replay, Outermost;
    assert log[..|log| - 1][..k] == log[..k];
  }

  lemma InsertedIs(before: seq<string>, e: Placement)
    requires e.anchor in before
    ensures Inserted(before, e.anchor, e.name, e.dir) == InsertAt(before, Index(before, e), e.name)
  {
  }

  /** A span ends unbroken exactly if every partition was put where it fits: what is broken once stays broken. */
  lemma {:induction false} UnbrokenIffAllFit(p: Problem, log: seq<Placement>, span: seq<string>)
    requires AllCertified(p, log) && "start" !in span && "end" !in span
    ensures Unbroken(Replay(p.dp, log), span) <==> AllFit(p, log, span)
    decreases |log|
  {
    hide Certified, Fits, Index;
    if log != [] {
      var n, shorter := |log| - 1, log[..|log| - 1];
      var before := Replay(p.dp, shorter);
      DropLast(p, log);
      UnbrokenIffAllFit(p, shorter, span);
      var at := Index(before, log[n]);
      if Unbroken(Replay(p.dp, log), span) {
        BrokenStaysBroken(before, at, log[n].name, span);
      } else if Unbroken(before, span) && Fits(before, at, log[n].name, span) {
        FittingKeeps(before, at, log[n].name, span);
      }
      assert AllFit(p, log, span) <==> AllFit(p, shorter, span) && Fits(before, at, log[n].name, span) by {
        AllFitStep(p, log, span);
      }
    }
  }

  lemma AllFitStep(p: Problem, log: seq<Placement>, span: seq<string>)
    requires AllCertified(p, log) && log != [] && AllCertified(p, log[..|log| - 1]) && Certified(p, log, |log| - 1)
    requires forall k :: 0 <= k < |log| - 1 ==> log[..|log| - 1][..k] == log[..k]
    ensures var before := Replay(p.dp, log[..|log| - 1]);
            AllFit(p, log, span) <==>
              AllFit(p, log[..|log| - 1], span) && Fits(before, Index(before, log[|log| - 1]), log[|log| - 1].name, span)
  {
    hide Fits, Index, Replay;
    var shorter := log[..|log| - 1];
    forall k | 0 <= k < |shorter| ensures shorter[k] == log[k] && shorter[..k] == log[..k] && Certified(p, shorter, k) && Certified(p, log, k) {
    }
  }

  // ----- Tidy spans -----------------------------------------------------------------------------

  /** No part but the root asks to lie on this side of anything. */
  predicate Edge(p: Problem, span: seq<string>, root: string, dir: Direction) {
    forall q :: q in span && q != root && q in p.reqs ==> Asked(p.reqs[q], dir).None?
  }

  /** Something inside the span. */
  predicate Inner(p: Problem, span: seq<string>, a: string) {
    a in span || (a in p.spans && forall q :: q in p.spans[a] ==> q in span)
  }

  /** Something outside of the span or around it, or its root on a side where the root stays outermost. */
  predicate Outer(p: Problem, span: seq<string>, root: string, a: string, dir: Direction) {
    && (a in span ==> a == root && Edge(p, span, root, dir))
    && (a in p.spans ==>
          || (forall q :: q in span ==> q in p.spans[a])
          || (forall q :: q in span && q in p.spans[a] ==> q == root && Edge(p, span, root, dir)))
  }

  predicate AsksInner(p: Problem, span: seq<string>, x: string) {
    x in p.reqs ==> forall dir | dir in {Before, After} :: Asked(p.reqs[x], dir).Some? ==> Inner(p, span, Asked(p.reqs[x], dir).value)
  }

  predicate AsksOuter(p: Problem, span: seq<string>, root: string, x: string) {
    x in p.reqs ==> forall dir | dir in {Before, After} :: Asked(p.reqs[x], dir).Some? ==> Outer(p, span, root, Asked(p.reqs[x], dir).value, dir)
  }

  /** All parts but one ask for parts, and nobody else asks for the inside of the span. */
  predicate TidyFrom(p: Problem, span: seq<string>, root: string) {
    && root in span && (p.dp in span ==> root == p.dp)
    && (forall q :: q in span ==> q !in p.spans && q != "start" && q != "end")
    && (forall n :: n in p.spans ==> n !in ["start", p.dp, "end"] && n !in p.reqs)
    && (forall q :: q in span && q != root ==> AsksInner(p, span, q))
    && (forall x :: x in p.all && x !in span ==> AsksOuter(p, span, root, x))
  }

  predicate Tidy(p: Problem, n: string)
    requires n in p.spans
  {
    exists root :: root in p.spans[n] && TidyFrom(p, p.spans[n], root)
  }

  /** No part is placed before the root, the parts are not broken, and the root is outermost where it should be. */
  ghost predicate Kempt(p: Problem, span: seq<string>, root: string, solution: seq<string>) {
    && Distinct(solution) && Unbroken(solution, span)
    && (root !in solution ==> forall y :: y in solution ==> y !in span)
    && (forall dir :: root in solution && Edge(p, span, root, dir) ==> Outermost(solution, span, root, dir))
  }

  lemma {:induction false} ReplayNames(p: Problem, log: seq<Placement>)
    requires AllCertified(p, log)
    ensures forall y :: y in Replay(p.dp, log) <==> y in ["start", p.dp, "end"] || y in Names(log)
    ensures forall y :: y in Names(log) ==> y in p.reqs && y in p.all
    decreases |log|
  {
    hide Certified;
    if log != [] {
      var n, shorter := |log| - 1, log[..|log| - 1];
      DropLast(p, log);
      ReplayNames(p, shorter);
      assert Names(log) == Names(shorter) + {log[n].name} by { NamesStep(log); }
      assert log[n].name in p.reqs && log[n].name in p.all by { LastIsNamed(p, log); }
      InsertMembers(Replay(p.dp, shorter), Index(Replay(p.dp, shorter), log[n]), log[n].name);
    }
  }

  lemma NamesStep(log: seq<Placement>)
    requires log != []
    ensures Names(log) == Names(log[..|log| - 1]) + {log[|log| - 1].name}
  {
    assert log == log[..|log| - 1] + [log[|log| - 1]];
  }

  lemma LastIsNamed(p: Problem, log: seq<Placement>)
    requires log != [] && Certified(p, log, |log| - 1)
    ensures log[|log| - 1].name in p.reqs && log[|log| - 1].name in p.all
  {
  }

  lemma InsertMembers(solution: seq<string>, at: nat, x: string)
    requires at <= |solution|
    ensures forall y :: y in InsertAt(solution, at, x) <==> y == x || y in solution
  {
    assert solution == solution[..at] + solution[at..];
  }

  // A part that is not the root is put next to a part.
  lemma PartJoinsPart(p: Problem, span: seq<string>, root: string, log: seq<Placement>)
    requires TidyFrom(p, span, root) && AllCertified(p, log) && log != []
    requires var e := log[|log| - 1]; e.name in span && e.name != root
    ensures log[|log| - 1].anchor in span
  {
    hide Replay, Outermost;
    var n, shorter := |log| - 1, log[..|log| - 1];
    var e := log[n];
    DropLast(p, log);
    ReplayNames(p, shorter);
    assert Certified(p, log, n) && AsksInner(p, span, e.name) && Inner(p, span, e.asked);
  }

  // What is not a part is put next to one only at the edge.
  lemma OtherStaysOutside(p: Problem, span: seq<string>, root: string, log: seq<Placement>)
    requires TidyFrom(p, span, root) && AllCertified(p, log) && log != []
    requires Kempt(p, span, root, Replay(p.dp, log[..|log| - 1]))
    requires var e := log[|log| - 1]; e.name !in span && e.anchor in span
    ensures var e := log[|log| - 1]; Outermost(Replay(p.dp, log[..|log| - 1]), span, e.anchor, e.dir)
  {
    hide Replay, Unbroken;
    var n, shorter := |log| - 1, log[..|log| - 1];
    var e, before := log[n], Replay(p.dp, shorter);
    DropLast(p, log);
    ReplayNames(p, shorter);
    assert Certified(p, log, n) && AsksOuter(p, span, root, e.name) && Outer(p, span, root, e.asked, e.dir);
    if e.asked !in before && forall q :: q in span ==> q in p.spans[e.asked] {
      var i :| 0 <= i < |before| && before[i] == e.anchor && NoneBeyond(before, p.spans[e.asked], i, e.dir);
      assert NoneBeyond(before, span, i, e.dir);
    }
  }

  lemma OutermostFits(before: seq<string>, span: seq<string>, e: Placement)
    requires Distinct(before) && e.anchor in before && e.name !in span
    requires e.anchor in span ==> Outermost(before, span, e.anchor, e.dir)
    ensures Fits(before, Index(before, e), e.name, span)
  {
    if e.anchor in span {
      var i :| 0 <= i < |before| && before[i] == e.anchor && NoneBeyond(before, span, i, e.dir);
      assert i == IndexOf(before, e.anchor);
    }
  }

  lemma StaysOutermost(before: seq<string>, span: seq<string>, root: string, d: Direction, e: Placement)
    requires Distinct(before) && e.anchor in before && root in before && Outermost(before, span, root, d)
    requires e.name in span ==> e.dir != d && e.anchor in span
    ensures Outermost(InsertAt(before, Index(before, e), e.name), span, root, d)
  {
    var at := Index(before, e);
    var t := InsertAt(before, at, e.name);
    var i :| 0 <= i < |before| && before[i] == root && NoneBeyond(before, span, i, d);
    var i' := if i < at then i else i + 1;
    OldIsKept(before, at, e.name, i);
    forall j | 0 <= j < |t| && (if d == Before then j < i' else i' < j) ensures t[j] !in span {
      InsertedAt(before, at, e.name, j);
    }
    assert NoneBeyond(t, span, i', d);
  }

  lemma RootIsOutermost(before: seq<string>, span: seq<string>, root: string, d: Direction, at: nat)
    requires at <= |before| && forall y :: y in before ==> y !in span
    ensures Outermost(InsertAt(before, at, root), span, root, d)
  {
    var t := InsertAt(before, at, root);
    forall j | 0 <= j < |t| && j != at ensures t[j] !in span {
      InsertedAt(before, at, root, j);
    }
    assert t[at] == root && NoneBeyond(t, span, at, d);
  }

  lemma KemptStep(p: Problem, span: seq<string>, root: string, log: seq<Placement>)
    requires TidyFrom(p, span, root) && AllCertified(p, log) && log != []
    requires Kempt(p, span, root, Replay(p.dp, log[..|log| - 1]))
    ensures Kempt(p, span, root, Replay(p.dp, log))
  {
    hide Replay, Unbroken, Fits, Outermost, Index, InsertAt, Distinct, TidyFrom, Edge;
    var n, before := |log| - 1, Replay(p.dp, log[..|log| - 1]);
    var e := log[n];
    DropLast(p, log);
    var x, at := e.name, Index(before, e);
    var t := InsertAt(before, at, x);
    assert e.name !in before && IsPlaced(p.reqs[x], e.asked, e.dir);
    InsertAdds(before, at, x);
    if x in span && x != root {
      PartJoinsPart(p, span, root, log);
    }
    assert Fits(before, at, x, span) by { EntryFits(p, span, root, log); }
    FittingKeeps(before, at, x, span);
    forall d | root in t && Edge(p, span, root, d) ensures Outermost(t, span, root, d) {
      if x == root {
        RootIsOutermost(before, span, root, d, at);
      } else {
        assert x in span ==> Asked(p.reqs[x], d).None? by { EdgeAsksNothing(p, span, root, d); }
        StaysOutermost(before, span, root, d, e);
      }
    }
  }

  lemma EdgeAsksNothing(p: Problem, span: seq<string>, root: string, d: Direction)
    requires Edge(p, span, root, d)
    ensures forall q :: q in span && q != root && q in p.reqs ==> Asked(p.reqs[q], d).None?
  {
  }

  lemma EntryFits(p: Problem, span: seq<string>, root: string, log: seq<Placement>)
    requires TidyFrom(p, span, root) && AllCertified(p, log) && log != []
    requires Kempt(p, span, root, Replay(p.dp, log[..|log| - 1]))
    ensures var before, e := Replay(p.dp, log[..|log| - 1]), log[|log| - 1];
            e.anchor in before && Fits(before, Index(before, e), e.name, span)
  {
    hide Replay, Unbroken, Outermost, TidyFrom, Edge;
    var n, before := |log| - 1, Replay(p.dp, log[..|log| - 1]);
    var e := log[n];
    DropLast(p, log);
    assert e.name !in before;
    if e.name in span {
      if e.name != root {
        PartJoinsPart(p, span, root, log);
      }
    } else {
      if e.anchor in span {
        OtherStaysOutside(p, span, root, log);
      }
      OutermostFits(before, span, e);
    }
  }

  /** A tidy span is never broken. */
  lemma {:induction false} TidyStaysUnbroken(p: Problem, span: seq<string>, root: string, log: seq<Placement>)
    requires TidyFrom(p, span, root) && AllCertified(p, log) && p.dp != "start" && p.dp != "end"
    ensures Kempt(p, span, root, Replay(p.dp, log))
    decreases |log|
  {
    hide TidyFrom, AllCertified, Kempt;
    if log == [] {
      TidyAtFirst(p, span, root);
    } else {
      DropLast(p, log);
      TidyStaysUnbroken(p, span, root, log[..|log| - 1]);
      KemptStep(p, span, root, log);
    }
  }

  lemma TidyAtFirst(p: Problem, span: seq<string>, root: string)
    requires TidyFrom(p, span, root) && p.dp != "start" && p.dp != "end"
    ensures Kempt(p, span, root, ["start", p.dp, "end"])
  {
    var first := ["start", p.dp, "end"];
    forall dir | root in first ensures Outermost(first, span, root, dir) {
      assert NoneBeyond(first, span, 1, dir);
    }
  }

  // ----- The check ------------------------------------------------------------------------------

  /** With all its parts placed, a span that is not broken is a piece of the order. */
  lemma UnbrokenIffWhole(order: seq<string>, span: seq<string>)
    requires Distinct(order) && Distinct(span) && forall q :: q in span ==> q in order
    ensures Unbroken(order, span) <==> exists lo: nat :: LiesFrom(order, span, lo)
  {
    hide Distinct, Lowest, Highest, IndexOf, LiesFrom, Positions, Interval;
    if Unbroken(order, span) && span != [] {
      var l, h := Lowest(order, span), Highest(order, span);
      PositionsFill(order, span);
      PositionsCount(order, span);
      assert |Interval(l, h - l + 1)| == |span|;
      assert Consecutive(order, span);
    }
    ConsecutiveIff(order, span);
    if lo: nat :| LiesFrom(order, span, lo) {
      PieceIsUnbroken(order, span, lo);
    }
  }

  lemma PieceIsUnbroken(order: seq<string>, span: seq<string>, lo: nat)
    requires LiesFrom(order, span, lo)
    ensures Unbroken(order, span)
  {
  }

  lemma PositionsFill(order: seq<string>, span: seq<string>)
    requires Distinct(order) && span != [] && Unbroken(order, span) && forall q :: q in span ==> q in order
    ensures var l, h := Lowest(order, span), Highest(order, span); l <= h && Positions(order, span) == Interval(l, h - l + 1)
  {
    hide Lowest, Highest, IndexOf, Distinct;
    var l, h := Lowest(order, span), Highest(order, span);
    var a :| a in span && IndexOf(order, a) == l;
    var b :| b in span && IndexOf(order, b) == h;
    assert order[l] == a && order[h] == b;
    forall i: nat ensures i in Positions(order, span) <==> l <= i < h + 1 {
      if i in Positions(order, span) {
        PositionsBounded(order, span, i);
      }
    }
  }

  lemma InnerIsUnbroken(order: seq<string>, span: seq<string>)
    requires "start" !in span && "end" !in span
    ensures Unbroken(["start"] + order + ["end"], span) <==> Unbroken(order, span)
  {
    var t := ["start"] + order + ["end"];
    assert forall i :: 0 <= i < |order| ==> t[i + 1] == order[i];
    if Unbroken(t, span) {
      forall i, j, k | 0 <= i < j < k < |order| && order[i] in span && order[k] in span ensures order[j] in span {
        assert t[i + 1] in span && t[k + 1] in span && t[j + 1] in span;
      }
    }
    if Unbroken(order, span) {
      forall i, j, k | 0 <= i < j < k < |t| && t[i] in span && t[k] in span ensures t[j] in span {
        assert order[i - 1] == t[i] && order[j - 1] == t[j] && order[k - 1] == t[k];
      }
    }
  }

  /** A finished order passes the check of a span exactly if every partition was put where it fits, and so if the span
      is tidy. */
  lemma PassesCheckIff(p: Problem, log: seq<Placement>, order: seq<string>, n: string)
    requires p.Proper() && AllCertified(p, log) && Replay(p.dp, log) == ["start"] + order + ["end"]
    requires n in p.spans && Distinct(order) && forall q :: q in p.spans[n] ==> q in order
    ensures (exists lo: nat :: LiesFrom(order, p.spans[n], lo)) <==> AllFit(p, log, p.spans[n])
    ensures Tidy(p, n) ==> exists lo: nat :: LiesFrom(order, p.spans[n], lo)
  {
    hide Unbroken, AllFit, LiesFrom, Replay, TidyFrom;
    var span := p.spans[n];
    InnerIsUnbroken(order, span);
    UnbrokenIffAllFit(p, log, span);
    UnbrokenIffWhole(order, span);
    if Tidy(p, n) {
      var root :| root in span && TidyFrom(p, span, root);
      TidyStaysUnbroken(p, span, root, log);
    }
  }
}
