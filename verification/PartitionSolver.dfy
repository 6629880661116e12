/**
 resolve of nrf/scripts/partition_manager.py from the point where the requirements have been cleaned
 up: the list of unsolved partitions and the list of solved ones are changed in place, round by
 round, until nothing is unsolved or a round changes nothing.
 */
module PartitionSolver {
  import opened NameLists
  import opened PartitionOrder
  import opened PartitionRounds
  import opened PartitionSpans
  import opened PartitionTidy
  import opened Wrappers

  lemma {:induction false} GroundedIsKnown(p: Problem, s: State, x: string, n: nat)
    requires p.Proper() && p.Keeps(s)
    requires forall y :: y in s.unsolved ==> y in p.reqs
    requires p.Stuck(s, Before) && p.Stuck(s, After)
    requires GroundedIn(p.reqs, Base(p.dp, p.spans), x, n)
    ensures p.Known(s, x)
    decreases n
  {
    if x in Base(p.dp, p.spans) {
      assert x in p.spans || x in ["start", p.dp, "end"];
    } else {
      var dir :| dir in {Before, After} && Asked(p.reqs[x], dir).Some? &&
        GroundedIn(p.reqs, Base(p.dp, p.spans), Asked(p.reqs[x], dir).value, n - 1);
      GroundedIsKnown(p, s, Asked(p.reqs[x], dir).value, n - 1);
    }
  }

  /** A round that places nothing shows that nothing left is grounded. */
  lemma StuckIsUngrounded(p: Problem, s: State, x: string)
    requires p.Proper() && p.Keeps(s)
    requires forall y :: y in s.unsolved ==> y in p.reqs
    requires p.Stuck(s, Before) && p.Stuck(s, After)
    requires x in s.unsolved
    ensures !Grounded(p.reqs, Base(p.dp, p.spans), x)
  {
    if n: nat :| GroundedIn(p.reqs, Base(p.dp, p.spans), x, n) {
      GroundedIsKnown(p, s, x, n);
    }
  }

  lemma PoolIsKnown(p: Problem, s: State)
    requires p.Proper() && p.Keeps(s)
    ensures s.solution != []
    ensures forall c :: c in s.solution + p.order <==> p.Known(s, c)
    ensures forall n :: n in p.order ==> n in p.spans
    ensures !p.Known(s, "")
  {
  }

  lemma NothingMoved(p: Problem, s: State, dir: Direction)
    requires p.Proper() && p.Keeps(s) && Ready(p, s)
    ensures Pass(p, s, dir).Moved? && |Pass(p, s, dir).s.unsolved| == |s.unsolved| ==> Pass(p, s, dir).s == s && p.Stuck(s, dir)
  {
    PoolIsKnown(p, s);
    if Pass(p, s, dir).Moved? && |Pass(p, s, dir).s.unsolved| == |s.unsolved| {
      IdlePass(p, s, s.solution + p.order, dir);
    }
  }

  // ----- The finished order -------------------------------------------------------------------

  datatype Outcome =
    | Solved(order: seq<string>)
    | Misplaced
    | Unsolvable
    | NoAnchor(span: string)    // StopIteration from next()
    | NotPlaced(span: string)   // ValueError from index(), before the message meant for this case
    | NotConsecutive(span: string, order: seq<string>)

  function Bracketed(order: seq<string>): seq<string> {
    ["start"] + order + ["end"]
  }

  /** x lies on the asked side of what it asks for; or of a part of the span that it asks for, and of
      all of it unless it is a part itself. */
  ghost predicate Meets(p: Problem, solution: seq<string>, x: string, asked: string, dir: Direction) {
    || Lies(solution, x, asked, dir)
    || (&& asked in p.spans
        && (exists q :: q in p.spans[asked] && Lies(solution, x, q, dir))
        && (x !in p.spans[asked] ==> forall q :: q in p.spans[asked] ==> Lies(solution, x, q, dir)))
  }

  /** One of the things x asks for, and it may ask for only one, is met. */
  ghost predicate Content(p: Problem, solution: seq<string>, x: string) {
    x in p.reqs && exists dir, asked :: IsPlaced(p.reqs[x], asked, dir) && Meets(p, solution, x, asked, dir)
  }

  ghost predicate Complete(p: Problem, order: seq<string>) {
    Distinct(order) && forall x :: x in order <==> x == p.dp || x in p.all
  }

  ghost predicate Whole(p: Problem, order: seq<string>, n: string)
    requires n in p.spans
  {
    exists lo: nat :: LiesFrom(order, p.spans[n], lo)
  }

  lemma OutsideOfPiece(solution: seq<string>, span: seq<string>, lo: nat, x: string, a: string, q: string, dir: Direction)
    requires Distinct(solution) && LiesFrom(solution, span, lo)
    requires x !in span && a in span && q in span && q in solution && Lies(solution, x, a, dir)
    ensures Lies(solution, x, q, dir)
  {
  }

  lemma PieceOfBracketed(order: seq<string>, span: seq<string>, lo: nat)
    requires LiesFrom(order, span, lo) && "start" !in span && "end" !in span
    ensures LiesFrom(Bracketed(order), span, lo + 1)
  {
  }

  // Taking "start" and "end" away.
  lemma InnerOrder(p: Problem, s: State)
    requires p.Proper() && p.Keeps(s) && s.unsolved == []
    ensures "start" in s.solution && "end" in Remove(s.solution, "start")
    ensures var order := Remove(Remove(s.solution, "start"), "end");
      Complete(p, order) && s.solution == Bracketed(order)
  {
    hide Distinct, Remove, ProperSpans, Grounded, Kept, IndexOf;
    RemoveEnds(s.solution, "start", "end");
  }

  lemma AllContent(p: Problem, s: State, order: seq<string>, x: string)
    requires p.Proper() && p.Keeps(s) && s.unsolved == [] && Complete(p, order) && s.solution == Bracketed(order)
    requires forall n :: n in p.spans ==> (forall q :: q in p.spans[n] ==> q in order) && Whole(p, order, n)
    requires x in p.all
    ensures Content(p, Bracketed(order), x)
  {
    var e :| e in s.log && e.name == x;
    assert Kept(p.reqs, p.spans, s.solution, e);
    if e.anchor != e.asked {
      var span := p.spans[e.asked];
      var lo: nat :| LiesFrom(order, span, lo);
      PieceOfBracketed(order, span, lo);
      if x !in span {
        forall q | q in span ensures Lies(s.solution, x, q, e.dir) {
          OutsideOfPiece(s.solution, span, lo + 1, x, e.anchor, q, e.dir);
        }
      }
    }
    assert Meets(p, s.solution, x, e.asked, e.dir);
  }

  lemma PlacedIsKept(p: Problem, s: State, x: string, current: string, dir: Direction)
    requires p.Proper() && Inside(p.reqs) && p.Keeps(s) && p.Known(s, current)
    requires x in s.unsolved && x in p.reqs && IsPlaced(p.reqs[x], current, dir)
    requires Anchor(s.solution, p.spans, current, dir).Some?
    ensures var t := Place(s, x, current, Anchor(s.solution, p.spans, current, dir).value, dir);
      && p.Keeps(t)
      && |t.unsolved| < |s.unsolved| && (forall y :: y in t.unsolved ==> y in s.unsolved)
      && x in t.solution && (forall y :: y in s.solution ==> y in t.solution)
  {
    hide Valid, Place, Anchor;
    PlaceKeepsValid(p.reqs, p.spans, p.dp, p.all, s, x, current, dir);
  }

  class Solver {
    const p: Problem
    var unsolved: seq<string>
    var solution: seq<string>
    ghost var log: seq<Placement>

    constructor (p: Problem)
      ensures this.p == p && unsolved == p.all && solution == ["start", p.dp, "end"] && log == []
    {
      this.p := p;
      unsolved, solution, log := p.all, ["start", p.dp, "end"], [];
    }

    ghost function Now(): State
      reads this
    {
      State(unsolved, solution, log)
    }

    ghost predicate Ok()
      reads this
    {
      p.Proper() && Inside(p.reqs) && p.Keeps(Now()) && forall x :: x in unsolved ==> x in p.reqs
    }

    /** The body of the branch that found a dependent partition. */
    method PlaceNext(x: string, current: string, dir: Direction) returns (ok: bool)
      requires Ok() && p.Known(Now(), current)
      requires x in unsolved && IsPlaced(p.reqs[x], current, dir)
      modifies this
      ensures Ok()
      ensures ok <==> Anchor(old(solution), p.spans, current, dir).Some?
      ensures !ok ==> Now() == old(Now())
      ensures ok ==> Now() == Place(old(Now()), x, current, Anchor(old(solution), p.spans, current, dir).value, dir)
      ensures ok ==> |unsolved| < |old(unsolved)| && x in solution && forall y :: y in old(solution) ==> y in solution
    {
      hide Valid, Problem.Proper, Problem.Keeps, Inside, Anchor, IndexOf, InsertAt, Remove;
      var anchor := Anchor(solution, p.spans, current, dir);
      if anchor.None? {
        return false;
      }
      PlacedIsKept(p, Now(), x, current, dir);
      var k := IndexOf(solution, anchor.value);
      solution := InsertAt(solution, if dir == Before then k else k + 1, x);
      unsolved := Remove(unsolved, x);
      log := log + [Placement(x, current, anchor.value, dir)];
      ok := true;
    }

    /** solve_direction; None on return, or the span that next() found no placed part of. */
    method SolveDirection(dir: Direction) returns (missing: Option<string>)
      requires Ok()
      modifies this
      ensures Ok()
      ensures |unsolved| <= |old(unsolved)|
      ensures missing.None? && |unsolved| == |old(unsolved)| ==> Now() == old(Now()) && p.Stuck(Now(), dir)
      ensures missing.Some? ==> missing.value in p.spans && forall x :: x in solution ==> x !in p.spans[missing.value]
      ensures missing.Some? ==> exists x :: x in unsolved && IsPlaced(p.reqs[x], missing.value, dir)
      ensures Pass(p, old(Now()), dir) == if missing.Some? then Lost(Now(), missing.value) else Moved(Now())
    {
      hide Valid, Problem.Proper, Problem.Keeps, Anchor, Place, Inside, Going, Pass;
      ghost var start := Now();
      PoolIsKnown(p, start);
      PassBegins(p, start, dir);
      var index := 0;
      var pool := solution + p.order;
      var current := pool[index];
      while current != ""
        invariant Ok() && 0 <= index < |pool| && p.Known(Now(), current)
        invariant forall c :: c in pool ==> p.Known(Now(), c)
        invariant Going(p, start, Now(), current, pool[index + 1..], dir)
        decreases |unsolved|, |pool| - index
      {
        var depends := FirstDependent(p.reqs, unsolved, current, dir);
        PassTurns(p, start, Now(), current, pool[index + 1..], dir);
        if depends.Some? {
          ghost var before := Now();
          var ok := PlaceNext(depends.value, current, dir);
          if !ok {
            return Some(current);
          }
          PassPlacesNext(p, start, before, current, pool[index + 1..], dir, depends.value, Anchor(before.solution, p.spans, current, dir).value);
          current := depends.value;
        } else {
          index := index + 1;
          if index >= |pool| {
            break;
          }
          current := pool[index];
        }
      }
      PoolIsKnown(p, Now());
      NothingMoved(p, start, dir);
      missing := None;
    }

    /** The rounds of resolve: None when all is placed, or how it raises. */
    method SolveAll() returns (failure: Option<Outcome>)
      requires Ok()
      modifies this
      ensures Ok()
      ensures failure.None? ==> unsolved == []
      ensures failure.Some? ==> Fails(p, Now(), failure.value)
      ensures Ready(p, old(Now())) && (forall n :: n in p.order ==> n in p.spans)
      ensures Rounds(p, old(Now())).s == Now()
    {
      hide Valid, Problem.Proper, Problem.Keeps, Inside, Pass;
      PoolIsKnown(p, Now());
      while unsolved != []
        invariant Ok()
        invariant Rounds(p, old(Now())) == Rounds(p, Now())
        decreases |unsolved|
      {
        label round:
        var before := |unsolved|;
        var missing := SolveDirection(Before);
        if missing.Some? {
          assert Fails(p, Now(), NoAnchor(missing.value));
          return Some(NoAnchor(missing.value));
        }
        missing := SolveDirection(After);
        if missing.Some? {
          assert Fails(p, Now(), NoAnchor(missing.value));
          return Some(NoAnchor(missing.value));
        }
        if before == |unsolved| {
          UngroundedAreLeft(p, Now());
          return Some(Unsolvable);
        }
      }
      failure := None;
    }

    /** resolve, once the requirements are cleaned up. */
    method Resolve() returns (r: Outcome)
      requires p.Proper() && unsolved == p.all && solution == ["start", p.dp, "end"] && log == []
      modifies this
      ensures r == Misplaced <==> !Inside(p.reqs)
      ensures r == Unsolvable || r.NoAnchor? ==> Fails(p, Now(), r)
      ensures r.NotPlaced? || r.NotConsecutive? || r.Solved? ==>
        forall x :: x in p.all ==> Grounded(p.reqs, Base(p.dp, p.spans), x)
      ensures r.NotPlaced? ==> r.span in p.spans && exists q :: q in p.spans[r.span] && q != p.dp && q !in p.all
      ensures r.NotConsecutive? ==> Complete(p, r.order) && r.span in p.spans && !Whole(p, r.order, r.span)
      ensures r.Solved? ==> Complete(p, r.order)
      ensures r.Solved? ==> forall x :: x in p.all ==> Content(p, Bracketed(r.order), x)
      ensures r.Solved? ==> forall n :: n in p.spans ==> Whole(p, r.order, n)
      ensures r != Misplaced ==> Ready(p, Begin(p)) && log == Rounds(p, Begin(p)).s.log && OrderlyLog(p, log)
      ensures r.Solved? || r.NotConsecutive? ==> Explained(p, log, r.order)
      ensures r.NotConsecutive? ==> !Tidy(p, r.span)
      ensures Promising(p) ==> r.Solved?
    {
      hide Tidy, AllFit, OrderlyLog, Content, Whole, Promising, Rounds, Replay, Explained, Grounded, Valid, Remove;
      if !Inside(p.reqs) {
        NotPromising(p, Now(), Misplaced);
        return Misplaced;
      }
      InitiallyKept(p);
      RunIsOrderly(p);
      var failure := SolveAll();
      if failure.Some? {
        NotPromising(p, Now(), failure.value);
        return failure.value;
      }
      InnerOrder(p, Now());
      assert solution[0] == "start" && solution[|solution| - 1] == "end";
      ghost var full := Now();
      solution := Remove(solution, "start");
      solution := Remove(solution, "end");
      r := CheckSpans(p, solution);
      CheckIsExplained(p, full.log, solution, r);
      FinishedIsContent(p, full, solution, r);
    }
  }

  lemma FinishedIsContent(p: Problem, s: State, order: seq<string>, r: Outcome)
    requires p.Proper() && p.Keeps(s) && s.unsolved == [] && Complete(p, order) && s.solution == Bracketed(order)
    requires r.Solved? ==> forall n :: n in p.spans ==> (forall q :: q in p.spans[n] ==> q in order) && Whole(p, order, n)
    ensures forall x :: x in p.all ==> Grounded(p.reqs, Base(p.dp, p.spans), x)
    ensures r.Solved? ==> forall x :: x in p.all ==> Content(p, Bracketed(order), x)
  {
    AllGrounded(p, s);
    if r.Solved? {
      forall x | x in p.all ensures Content(p, Bracketed(order), x) {
        AllContent(p, s, order, x);
      }
    }
  }

  /** The order is what the log leads to, and has a span whole exactly if every partition was put where it fits. */
  ghost predicate Explained(p: Problem, log: seq<Placement>, order: seq<string>) {
    && AllCertified(p, log) && Bracketed(order) == Replay(p.dp, log)
    && forall n :: n in p.spans && (forall q :: q in p.spans[n] ==> q in order) ==>
         (Whole(p, order, n) <==> AllFit(p, log, p.spans[n]))
  }

  /** Requests that are sure to be met: everything is grounded, all parts are partitions, spans are tidy and those
      that are asked for have the dynamic partition in them. */
  ghost predicate Promising(p: Problem) {
    && Inside(p.reqs) && (forall x :: x in p.all ==> Grounded(p.reqs, Base(p.dp, p.spans), x))
    && (forall n :: n in p.spans ==> Tidy(p, n) && forall q :: q in p.spans[n] ==> q == p.dp || q in p.all)
    && (forall x, dir, n :: x in p.all && x in p.reqs && n in p.spans && IsPlaced(p.reqs[x], n, dir) ==> p.dp in p.spans[n])
  }

  lemma NotPromising(p: Problem, s: State, r: Outcome)
    requires p.Proper() && (forall x :: x in p.all ==> x in p.reqs)
    requires (r.Misplaced? && !Inside(p.reqs)) || (p.Keeps(s) && Fails(p, s, r))
    ensures !Promising(p)
  {
    hide Tidy, Grounded;
    assert p.Keeps(s) ==> p.dp in s.solution && (s.unsolved != [] ==> s.unsolved[0] in p.all);
  }

  lemma CheckIsExplained(p: Problem, log: seq<Placement>, order: seq<string>, r: Outcome)
    requires p.Proper() && Complete(p, order) && OrderlyLog(p, log) && Bracketed(order) == Replay(p.dp, log)
    requires r.Solved? || r.NotPlaced? || r.NotConsecutive?
    requires r.NotPlaced? ==> r.span in p.spans && exists q :: q in p.spans[r.span] && q !in order
    requires r.NotConsecutive? ==> r.span in p.spans && (forall q :: q in p.spans[r.span] ==> q in order) && !Whole(p, order, r.span)
    ensures Explained(p, log, order)
    ensures r.NotConsecutive? ==> !Tidy(p, r.span)
    ensures Promising(p) ==> r.Solved?
  {
    hide Tidy, AllFit, Replay, LiesFrom;
    assert AllCertified(p, log);
    forall n | n in p.spans && (forall q :: q in p.spans[n] ==> q in order)
      ensures (Whole(p, order, n) <==> AllFit(p, log, p.spans[n])) && (Tidy(p, n) ==> Whole(p, order, n))
    {
      PassesCheckIff(p, log, order, n);
    }
  }

  /** Failures before all is placed: what is left is exactly what is not grounded; or something
      that is left asks for a span of which no part is placed. */
  ghost predicate Fails(p: Problem, s: State, r: Outcome) {
    || (&& r.Unsolvable? && s.unsolved != []
        && forall x :: x in p.all ==> (x in s.unsolved <==> !Grounded(p.reqs, Base(p.dp, p.spans), x)))
    || (&& r.NoAnchor? && r.span in p.spans && (forall q :: q in p.spans[r.span] ==> q !in s.solution)
        && exists x, dir :: x in s.unsolved && x in p.reqs && IsPlaced(p.reqs[x], r.span, dir))
  }

  lemma UngroundedAreLeft(p: Problem, s: State)
    requires p.Proper() && p.Keeps(s) && s.unsolved != []
    requires forall y :: y in s.unsolved ==> y in p.reqs
    requires p.Stuck(s, Before) && p.Stuck(s, After)
    ensures Fails(p, s, Unsolvable)
  {
    forall x | x in p.all ensures x in s.unsolved <==> !Grounded(p.reqs, Base(p.dp, p.spans), x) {
      if x in s.unsolved {
        StuckIsUngrounded(p, s, x);
      }
    }
  }

  lemma InitiallyKept(p: Problem)
    requires p.Proper()
    ensures p.Keeps(State(p.all, ["start", p.dp, "end"], []))
    ensures forall x :: x in p.all ==> x in p.reqs
  {
    forall x | x in ["start", p.dp, "end"] ensures Grounded(p.reqs, Base(p.dp, p.spans), x) {
      assert GroundedIn(p.reqs, Base(p.dp, p.spans), x, 0);
    }
  }

  lemma AllGrounded(p: Problem, s: State)
    requires p.Proper() && p.Keeps(s) && s.unsolved == []
    ensures forall x :: x in p.all ==> Grounded(p.reqs, Base(p.dp, p.spans), x)
  {
  }

  /** The checks on spans at the end of resolve. */
  method CheckSpans(p: Problem, order: seq<string>) returns (r: Outcome)
    requires p.Proper() && Complete(p, order)
    ensures r.Solved? || r.NotPlaced? || r.NotConsecutive?
    ensures r.Solved? ==> r.order == order
    ensures r.Solved? <==> forall n :: n in p.spans ==> (forall q :: q in p.spans[n] ==> q in order) && Whole(p, order, n)
    ensures r.NotPlaced? ==> r.span in p.spans && exists q :: q in p.spans[r.span] && q !in order
    ensures r.NotConsecutive? ==> r.order == order && r.span in p.spans && !Whole(p, order, r.span)
    ensures r.NotConsecutive? ==> forall q :: q in p.spans[r.span] ==> q in order
  {
    hide Lowest, Highest, IndexOf, Distinct, LiesFrom, Consecutive, ProperSpans;
    for i := 0 to |p.order|
      invariant forall j :: 0 <= j < i ==>
        (forall q :: q in p.spans[p.order[j]] ==> q in order) && Whole(p, order, p.order[j])
    {
      var n := p.order[i];
      var span := p.spans[n];
      if exists q :: q in span && q !in order {
        return NotPlaced(n);
      }
      ConsecutiveIff(order, span);
      if !Consecutive(order, span) {
        return NotConsecutive(n, order);
      }
    }
    r := Solved(order);
  }
}
