/**
 The order of the partitions of a region: solve_direction and the solving part of resolve in
 nrf/scripts/partition_manager.py. Partitions that ask to lie before or after something are put, one
 by one, next to what they ask for, or next to the outermost placed part of the span they ask for.
 */
module PartitionOrder {
  import opened NameLists
  import opened Wrappers

  datatype Direction = Before | After

  /** What a partition asks for: the first name of its 'before' and of its 'after' list. */
  datatype Req = Req(before: Option<string>, after: Option<string>)

  type Reqs = map<string, Req>

  /** Spans by name. */
  type Spans = map<string, seq<string>>

  function Asked(req: Req, dir: Direction): Option<string> {
    if dir == Before then req.before else req.after
  }

  /** item_is_placed. */
  predicate IsPlaced(req: Req, item: string, dir: Direction) {
    Asked(req, dir) == Some(item)
  }

  // ----- What needs a place -----------------------------------------------------------------

  /** [part for part in span if part in unsorted and part not in result] */
  function Chosen(span: seq<string>, unsorted: seq<string>, result: seq<string>): (c: seq<string>)
    ensures forall x :: x in c <==> x in span && x in unsorted && x !in result
    ensures Distinct(span) ==> Distinct(c)
  {
    if span == [] then []
    else if span[0] in unsorted && span[0] !in result then [span[0]] + Chosen(span[1..], unsorted, result)
    else Chosen(span[1..], unsorted, result)
  }

  lemma PrecedesAreThere(s: seq<string>, x: string, y: string)
    ensures Precedes(s, x, y) ==> x in s && y in s
  {
  }

  /** They keep the order that they have in the span. */
  lemma {:induction false} ChosenKeepOrder(span: seq<string>, unsorted: seq<string>, result: seq<string>, x: string, y: string)
    requires Distinct(span) && Precedes(Chosen(span, unsorted, result), x, y)
    ensures Precedes(span, x, y)
    decreases span
  {
    hide Precedes;
    PrecedesAreThere(Chosen(span, unsorted, result), x, y);
    if span != [] {
      var h, t := span[0], span[1..];
      var tail := Chosen(t, unsorted, result);
      assert h !in t && Distinct(t) && [h] + t == span;
      PrecedesBehind(h, t, x, y);
      PrecedesBehind(h, tail, x, y);
      if x != h || Chosen(span, unsorted, result) == tail {
        ChosenKeepOrder(t, unsorted, result, x, y);
        PrecedesAreThere(t, x, y);
      }
    }
  }

  /** sorted(), by length. */
  function ByLength(spans: seq<seq<string>>): (r: seq<seq<string>>)
    ensures forall x :: x in r <==> x in spans
    ensures forall i, j :: 0 <= i < j < |r| ==> |r[i]| <= |r[j]|
  {
    if spans == [] then [] else InsertByLength(spans[|spans| - 1], ByLength(spans[..|spans| - 1]))
  }

  function InsertByLength(span: seq<string>, sorted: seq<seq<string>>): (r: seq<seq<string>>)
    requires forall i, j :: 0 <= i < j < |sorted| ==> |sorted[i]| <= |sorted[j]|
    ensures forall x :: x in r <==> x == span || x in sorted
    ensures forall i, j :: 0 <= i < j < |r| ==> |r[i]| <= |r[j]|
  {
    if sorted == [] || |span| < |sorted[0]| then [span] + sorted
    else
      var rest := InsertByLength(span, sorted[1..]);
      assert forall x :: x in sorted ==> |sorted[0]| <= |x|;
      assert forall x :: x in rest ==> x == span || x in sorted;
      assert forall i :: 0 <= i < |rest| ==> rest[i] in rest;
      [sorted[0]] + rest
  }

  /** The spans of n parts. */
  function OfLength(spans: seq<seq<string>>, n: nat): seq<seq<string>> {
    if spans == [] then [] else (if |spans[0]| == n then [spans[0]] else []) + OfLength(spans[1..], n)
  }

  /** Sorting keeps every span, and those of the same length in their order. */
  lemma {:induction false} ByLengthIsStable(spans: seq<seq<string>>, n: nat)
    ensures OfLength(ByLength(spans), n) == OfLength(spans, n)
    decreases |spans|
  {
    if spans != [] {
      var k := |spans| - 1;
      ByLengthIsStable(spans[..k], n);
      InsertIsStable(spans[k], ByLength(spans[..k]), n);
      OfLengthJoin(spans[..k], [spans[k]], n);
      assert spans == spans[..k] + [spans[k]];
    }
  }

  lemma {:induction false} InsertIsStable(span: seq<string>, sorted: seq<seq<string>>, n: nat)
    requires forall i, j :: 0 <= i < j < |sorted| ==> |sorted[i]| <= |sorted[j]|
    ensures OfLength(InsertByLength(span, sorted), n) == OfLength(sorted, n) + OfLength([span], n)
    decreases |sorted|
  {
    var r := InsertByLength(span, sorted);
    if sorted == [] {
      assert r == [span] && OfLength(sorted, n) + OfLength([span], n) == OfLength([span], n);
    } else if |span| < |sorted[0]| {
      OfLengthJoin([span], sorted, n);
      if |span| == n {
        NoneOfLength(sorted, n);
      }
    } else {
      InsertIsStable(span, sorted[1..], n);
      assert r[1..] == InsertByLength(span, sorted[1..]);
      Assoc(if |sorted[0]| == n then [sorted[0]] else [], OfLength(sorted[1..], n), OfLength([span], n));
    }
  }

  lemma {:induction false} OfLengthJoin(a: seq<seq<string>>, b: seq<seq<string>>, n: nat)
    ensures OfLength(a + b, n) == OfLength(a, n) + OfLength(b, n)
    decreases |a|
  {
    if a == [] {
      assert a + b == b;
    } else {
      var t := a + b;
      assert t[0] == a[0] && t[1..] == a[1..] + b;
      OfLengthJoin(a[1..], b, n);
      Assoc(if |a[0]| == n then [a[0]] else [], OfLength(a[1..], n), OfLength(b, n));
    }
  }

  lemma {:induction false} NoneOfLength(spans: seq<seq<string>>, n: nat)
    requires forall i :: 0 <= i < |spans| ==> |spans[i]| > n
    ensures OfLength(spans, n) == []
    decreases |spans|
  {
    if spans != [] {
      NoneOfLength(spans[1..], n);
    }
  }

  /** x is part of a span of at most n parts. */
  predicate Within(spans: seq<seq<string>>, x: string, n: nat) {
    exists span :: span in spans && x in span && |span| <= n
  }

  /** Of two names the second is part of spans at least as short as those of the first. */
  ghost predicate InnerLast(spans: seq<seq<string>>, s: seq<string>) {
    forall i, j, n: nat :: 0 <= i < j < |s| && Within(spans, s[i], n) ==> Within(spans, s[j], n)
  }

  lemma JoinInnerLast(spans: seq<seq<string>>, s: seq<string>, t: seq<string>)
    requires InnerLast(spans, s) && InnerLast(spans, t)
    requires forall x, y, n: nat :: x in s && y in t && Within(spans, x, n) ==> Within(spans, y, n)
    ensures InnerLast(spans, s + t)
  {
    hide Within;
    forall i, j, n: nat | 0 <= i < j < |s + t| && Within(spans, (s + t)[i], n)
      ensures Within(spans, (s + t)[j], n)
    {
      if i < |s| <= j {
        assert (s + t)[i] in s && (s + t)[j] in t;
      }
    }
  }

  /** The first of these spans that x is part of, or their number. */
  function Home(sorted: seq<seq<string>>, x: string): (h: nat)
    ensures h <= |sorted| && (h < |sorted| ==> x in sorted[h]) && forall k :: 0 <= k < h ==> x !in sorted[k]
  {
    if sorted == [] || x in sorted[0] then 0
    else
      var h := 1 + Home(sorted[1..], x);
      assert forall k :: 0 < k < h ==> sorted[k] == sorted[1..][k - 1];
      h
  }

  /** a comes before b: its span comes later, or it comes first in the same span or, without one, in the list. */
  predicate GoesFirst(sorted: seq<seq<string>>, unsorted: seq<string>, a: string, b: string) {
    var h := Home(sorted, a);
    h > Home(sorted, b) || (h == Home(sorted, b) && Precedes(if h < |sorted| then sorted[h] else unsorted, a, b))
  }

  ghost predicate Arranged(sorted: seq<seq<string>>, unsorted: seq<string>, s: seq<string>) {
    forall i, j :: 0 <= i < j < |s| ==> GoesFirst(sorted, unsorted, s[i], s[j])
  }

  lemma JoinArranged(sorted: seq<seq<string>>, unsorted: seq<string>, s: seq<string>, t: seq<string>)
    requires Arranged(sorted, unsorted, s) && Arranged(sorted, unsorted, t)
    requires forall x, y :: x in s && y in t ==> Home(sorted, x) > Home(sorted, y)
    ensures Arranged(sorted, unsorted, s + t)
  {
    hide GoesFirst, Home;
    forall i, j | 0 <= i < j < |s + t| ensures GoesFirst(sorted, unsorted, (s + t)[i], (s + t)[j]) {
      if i < |s| <= j {
        assert (s + t)[i] in s && (s + t)[j] in t;
        LaterHomeGoesFirst(sorted, unsorted, (s + t)[i], (s + t)[j]);
      } else if j < |s| {
        assert GoesFirst(sorted, unsorted, s[i], s[j]);
      } else {
        assert GoesFirst(sorted, unsorted, t[i - |s|], t[j - |s|]);
      }
    }
  }

  lemma LaterHomeGoesFirst(sorted: seq<seq<string>>, unsorted: seq<string>, a: string, b: string)
    requires Home(sorted, a) > Home(sorted, b)
    ensures GoesFirst(sorted, unsorted, a, b)
  {
  }

  // What is chosen from one span, or from the list, is arranged.
  lemma ChosenAreArranged(sorted: seq<seq<string>>, unsorted: seq<string>, span: seq<string>, h: nat, result: seq<string>)
    requires Distinct(span) && h <= |sorted| && span == (if h < |sorted| then sorted[h] else unsorted)
    requires forall x :: x in Chosen(span, unsorted, result) ==> Home(sorted, x) == h
    ensures Arranged(sorted, unsorted, Chosen(span, unsorted, result))
  {
    hide Precedes, Home, Chosen;
    var c := Chosen(span, unsorted, result);
    forall i, j | 0 <= i < j < |c| ensures GoesFirst(sorted, unsorted, c[i], c[j]) {
      assert c[i] in c && c[j] in c;
      EarlierPrecedes(c, i, j);
      ChosenKeepOrder(span, unsorted, result, c[i], c[j]);
    }
  }

  /** get_images_which_need_resolving: each candidate comes out once, parts of spans last and those
      of the shortest spans at the very end, in the order of their span. */
  method ImagesToResolve(unsorted: seq<string>, spans: seq<seq<string>>) returns (result: seq<string>)
    requires Distinct(unsorted) && forall span :: span in spans ==> Distinct(span)
    ensures Distinct(result) && forall x :: x in result <==> x in unsorted
    ensures InnerLast(spans, result) && Arranged(ByLength(spans), unsorted, result)
  {
    hide Distinct, InnerLast, Arranged, Home;
    var sorted := ByLength(spans);
    result := [];
    NothingIsInnerLast(spans);
    NothingIsArranged(sorted, unsorted);
    for i := 0 to |sorted|
      invariant Distinct(result) && InnerLast(spans, result) && Arranged(sorted, unsorted, result)
      invariant forall x :: x in result <==> x in unsorted && exists k :: 0 <= k < i && x in sorted[k]
    {
      var chosen := Chosen(sorted[i], unsorted, result);
      ChosenGoFirst(spans, sorted, i, chosen, result);
      HomesOf(sorted, i, chosen, result);
      ChosenAreArranged(sorted, unsorted, sorted[i], i, result);
      JoinArranged(sorted, unsorted, chosen, result);
      DistinctJoin(chosen, result);
      JoinInnerLast(spans, chosen, result);
      result := chosen + result;
    }
    var loose := Chosen(unsorted, unsorted, result);
    LooseGoFirst(spans, sorted, loose);
    HomesOf(sorted, |sorted|, loose, result);
    ChosenAreArranged(sorted, unsorted, unsorted, |sorted|, result);
    JoinArranged(sorted, unsorted, loose, result);
    DistinctJoin(loose, result);
    JoinInnerLast(spans, loose, result);
    result := loose + result;
  }

  lemma NothingIsArranged(sorted: seq<seq<string>>, unsorted: seq<string>)
    ensures Arranged(sorted, unsorted, [])
  {
  }

  lemma HomesOf(sorted: seq<seq<string>>, i: nat, chosen: seq<string>, result: seq<string>)
    requires i <= |sorted| && forall x :: x in chosen ==> (i < |sorted| ==> x in sorted[i]) && forall k :: 0 <= k < i ==> x !in sorted[k]
    requires forall x :: x in result ==> exists k :: 0 <= k < i && x in sorted[k]
    ensures forall x :: x in chosen ==> Home(sorted, x) == i
    ensures forall x :: x in result ==> Home(sorted, x) < i
  {
  }

  lemma NothingIsInnerLast(spans: seq<seq<string>>)
    ensures InnerLast(spans, []) && Distinct([])
  {
  }

  lemma ChosenGoFirst(spans: seq<seq<string>>, sorted: seq<seq<string>>, i: nat, chosen: seq<string>, result: seq<string>)
    requires (forall x :: x in sorted <==> x in spans) && i < |sorted|
    requires forall j, k :: 0 <= j < k < |sorted| ==> |sorted[j]| <= |sorted[k]|
    requires forall x :: x in chosen ==> x in sorted[i] && forall k :: 0 <= k < i ==> x !in sorted[k]
    requires forall x :: x in result ==> exists k :: 0 <= k < i && x in sorted[k]
    ensures InnerLast(spans, chosen)
    ensures forall x, y, n: nat :: x in chosen && y in result && Within(spans, x, n) ==> Within(spans, y, n)
  {
    forall x, n: nat | x in chosen && Within(spans, x, n) ensures |sorted[i]| <= n {
      var span :| span in spans && x in span && |span| <= n;
      var k :| 0 <= k < |sorted| && sorted[k] == span;
      assert i <= k;
    }
    assert forall j :: 0 <= j < |chosen| ==> chosen[j] in chosen;
  }

  lemma LooseGoFirst(spans: seq<seq<string>>, sorted: seq<seq<string>>, loose: seq<string>)
    requires forall x :: x in sorted <==> x in spans
    requires forall x, k :: x in loose && 0 <= k < |sorted| ==> x !in sorted[k]
    ensures InnerLast(spans, loose)
    ensures forall x, n: nat :: x in loose ==> !Within(spans, x, n)
  {
    assert forall span :: span in spans ==> exists k :: 0 <= k < |sorted| && sorted[k] == span;
    assert forall j :: 0 <= j < |loose| ==> loose[j] in loose;
  }

  // ----- One insertion --------------------------------------------------------------------

  /** depends[0]: the first unsolved partition asking for `current`. */
  function FirstDependent(reqs: Reqs, unsolved: seq<string>, current: string, dir: Direction): (d: Option<string>)
    requires forall x :: x in unsolved ==> x in reqs
    ensures d.Some? ==> d.value in unsolved && IsPlaced(reqs[d.value], current, dir)
    ensures d.Some? ==> forall j :: 0 <= j < IndexOf(unsolved, d.value) ==> !IsPlaced(reqs[unsolved[j]], current, dir)
    ensures d.None? ==> forall x :: x in unsolved ==> !IsPlaced(reqs[x], current, dir)
  {
    if unsolved == [] then None
    else if IsPlaced(reqs[unsolved[0]], current, dir) then Some(unsolved[0])
    else FirstDependent(reqs, unsolved[1..], current, dir)
  }

  /** The name stands in the list, and no part of the span beyond it on this side. */
  ghost predicate Outermost(solution: seq<string>, span: seq<string>, a: string, dir: Direction) {
    exists i :: 0 <= i < |solution| && solution[i] == a && NoneBeyond(solution, span, i, dir)
  }

  predicate NoneBeyond(solution: seq<string>, span: seq<string>, i: int, dir: Direction) {
    forall j :: 0 <= j < |solution| && (if dir == Before then j < i else i < j) ==> solution[j] !in span
  }

  /** The first placed part of a span. */
  function FirstOf(solution: seq<string>, span: seq<string>): (a: Option<string>)
    ensures a.Some? ==> a.value in solution && a.value in span && Outermost(solution, span, a.value, Before)
    ensures a.None? ==> forall x :: x in solution ==> x !in span
  {
    if solution == [] then None
    else if solution[0] in span then
      assert NoneBeyond(solution, span, 0, Before);
      Some(solution[0])
    else
      var a := FirstOf(solution[1..], span);
      assert a.Some? ==> forall i :: 0 <= i && NoneBeyond(solution[1..], span, i, Before) ==> NoneBeyond(solution, span, i + 1, Before);
      a
  }

  /** The last placed part of a span. */
  function LastOf(solution: seq<string>, span: seq<string>): (a: Option<string>)
    ensures a.Some? ==> a.value in solution && a.value in span && Outermost(solution, span, a.value, After)
    ensures a.None? ==> forall x :: x in solution ==> x !in span
  {
    if solution == [] then None
    else if solution[|solution| - 1] in span then
      assert NoneBeyond(solution, span, |solution| - 1, After);
      Some(solution[|solution| - 1])
    else
      var a := LastOf(solution[..|solution| - 1], span);
      assert a.Some? ==> forall i :: NoneBeyond(solution[..|solution| - 1], span, i, After) ==> NoneBeyond(solution, span, i, After);
      a
  }

  /** Where to insert for `current`; None where next() raises StopIteration. */
  function Anchor(solution: seq<string>, spans: Spans, current: string, dir: Direction): (a: Option<string>)
    requires current in solution || current in spans
    ensures a.Some? ==> a.value in solution && (a.value == current || (current in spans && a.value in spans[current]))
    ensures a.Some? && current in solution ==> a.value == current
    ensures a.Some? && current !in solution ==> Outermost(solution, spans[current], a.value, dir)
    ensures a.None? ==> current !in solution && current in spans && forall x :: x in solution ==> x !in spans[current]
  {
    if current in solution then Some(current)
    else if dir == Before then FirstOf(solution, spans[current])
    else LastOf(solution, spans[current])
  }

  function Inserted(solution: seq<string>, anchor: string, x: string, dir: Direction): seq<string>
    requires anchor in solution
  {
    InsertAt(solution, IndexOf(solution, anchor) + if dir == Before then 0 else 1, x)
  }

  // ----- What is kept ---------------------------------------------------------------------

  /** A partition that has been inserted, what it asked for, and what it was put next to. */
  datatype Placement = Placement(name: string, asked: string, anchor: string, dir: Direction)

  predicate Lies(solution: seq<string>, x: string, anchor: string, dir: Direction) {
    if dir == Before then Precedes(solution, x, anchor) else Precedes(solution, anchor, x)
  }

  predicate NextTo(solution: seq<string>, x: string, anchor: string, dir: Direction) {
    && x in solution && anchor in solution
    && IndexOf(solution, anchor) == IndexOf(solution, x) + if dir == Before then 1 else -1
  }

  predicate Kept(reqs: Reqs, spans: Spans, solution: seq<string>, e: Placement) {
    && e.name in reqs && IsPlaced(reqs[e.name], e.asked, e.dir)
    && (e.anchor == e.asked || (e.asked in spans && e.anchor in spans[e.asked]))
    && Lies(solution, e.name, e.anchor, e.dir)
  }

  /** What there is to begin with: fixed places and spans. */
  function Base(dp: string, spans: Spans): set<string> {
    {"start", dp, "end"} + spans.Keys
  }

  /** x asks, in at most n steps, for something there is to begin with. */
  predicate GroundedIn(reqs: Reqs, base: set<string>, x: string, n: nat)
    decreases n
  {
    || x in base
    || (&& n > 0 && x in reqs
        && exists dir | dir in {Before, After} ::
             Asked(reqs[x], dir).Some? && GroundedIn(reqs, base, Asked(reqs[x], dir).value, n - 1))
  }

  ghost predicate Grounded(reqs: Reqs, base: set<string>, x: string) {
    exists n: nat :: GroundedIn(reqs, base, x, n)
  }

  datatype State = State(unsolved: seq<string>, solution: seq<string>, log: seq<Placement>)

  predicate Shaped(s: State) {
    && |s.solution| >= 3 && s.solution[0] == "start" && s.solution[|s.solution| - 1] == "end"
    && Distinct(s.solution) && Distinct(s.unsolved)
    && (forall x :: x in s.unsolved ==> x !in s.solution)
  }

  ghost predicate Accounted(dp: string, all: seq<string>, s: State) {
    && (forall x :: x in s.solution || x in s.unsolved <==> x in ["start", dp, "end"] || x in all)
    && (forall x :: x in s.unsolved ==> x in all)
    && (forall x :: x in s.solution ==> x in ["start", dp, "end"] || exists e :: e in s.log && e.name == x)
  }

  ghost predicate Valid(reqs: Reqs, spans: Spans, dp: string, all: seq<string>, s: State) {
    && Shaped(s)
    && Accounted(dp, all, s)
    && (forall e :: e in s.log ==> Kept(reqs, spans, s.solution, e))
    && (forall x :: x in s.solution ==> Grounded(reqs, Base(dp, spans), x))
  }

  function Place(s: State, x: string, current: string, anchor: string, dir: Direction): State
    requires x in s.unsolved && anchor in s.solution
  {
    State(Remove(s.unsolved, x), Inserted(s.solution, anchor, x, dir), s.log + [Placement(x, current, anchor, dir)])
  }

  /** Nothing is asked to lie outside "start" and "end". */
  predicate Inside(reqs: Reqs) {
    forall x :: x in reqs ==> !IsPlaced(reqs[x], "start", Before) && !IsPlaced(reqs[x], "end", After)
  }

  predicate ProperSpans(spans: Spans) {
    forall n :: n in spans ==> "start" !in spans[n] && "end" !in spans[n]
  }

  // An insertion adds x right where it belongs; the ends stay where they are.
  lemma InsertedLies(solution: seq<string>, anchor: string, x: string, dir: Direction)
    requires Distinct(solution) && anchor in solution && x !in solution
    ensures var t := Inserted(solution, anchor, x, dir);
      && Distinct(t) && |t| == |solution| + 1
      && (forall y :: y in t <==> y == x || y in solution)
      && Lies(t, x, anchor, dir)
      && (dir == After || anchor != solution[0] ==> t[0] == solution[0])
      && (dir == Before || anchor != solution[|solution| - 1] ==> t[|solution|] == solution[|solution| - 1])
  {
    var k := IndexOf(solution, anchor) + if dir == Before then 0 else 1;
    InsertAdds(solution, k, x);
    InsertShifts(solution, k, x, x);
    InsertShifts(solution, k, x, anchor);
  }

  /** It is the only change, and nothing comes between the two. */
  lemma InsertedIsNext(solution: seq<string>, anchor: string, x: string, dir: Direction)
    requires Distinct(solution) && anchor in solution && x !in solution
    ensures var t := Inserted(solution, anchor, x, dir); NextTo(t, x, anchor, dir) && Remove(t, x) == solution
  {
    hide Distinct, IndexOf;
    var k := IndexOf(solution, anchor) + if dir == Before then 0 else 1;
    InsertAdds(solution, k, x);
    InsertShifts(solution, k, x, x);
    InsertShifts(solution, k, x, anchor);
  }

  lemma InsertedKeeps(solution: seq<string>, anchor: string, x: string, dir: Direction, y: string, z: string, d: Direction)
    requires Distinct(solution) && anchor in solution && x !in solution && Lies(solution, y, z, d)
    ensures Lies(Inserted(solution, anchor, x, dir), y, z, d)
  {
    hide Distinct, IndexOf, InsertAt, Precedes;
    var k := IndexOf(solution, anchor) + if dir == Before then 0 else 1;
    var (a, b) := if d == Before then (y, z) else (z, y);
    InsertKeepsOrder(solution, k, x, a, b);
  }

  lemma AskingIsGrounded(reqs: Reqs, base: set<string>, x: string, current: string, dir: Direction)
    requires x in reqs && IsPlaced(reqs[x], current, dir) && Grounded(reqs, base, current)
    ensures Grounded(reqs, base, x)
  {
    var n: nat :| GroundedIn(reqs, base, current, n);
    assert Asked(reqs[x], dir).value == current;
    assert GroundedIn(reqs, base, x, n + 1);
  }

  /** One insertion keeps everything. */
  lemma PlaceKeepsValid(reqs: Reqs, spans: Spans, dp: string, all: seq<string>, s: State,
                        x: string, current: string, dir: Direction)
    requires Valid(reqs, spans, dp, all, s) && Inside(reqs) && ProperSpans(spans)
    requires x in s.unsolved && x in reqs && IsPlaced(reqs[x], current, dir)
    requires current in s.solution || current in spans
    requires Anchor(s.solution, spans, current, dir).Some?
    ensures var t := Place(s, x, current, Anchor(s.solution, spans, current, dir).value, dir);
      && Valid(reqs, spans, dp, all, t)
      && |t.unsolved| < |s.unsolved| && (forall y :: y in t.unsolved ==> y in s.unsolved)
      && x in t.solution && (forall y :: y in s.solution ==> y in t.solution)
  {
    hide Distinct, IndexOf, Inserted, Remove, Lies, Anchor;
    var anchor := Anchor(s.solution, spans, current, dir).value;
    var t := Place(s, x, current, anchor, dir);
    InsertedLies(s.solution, anchor, x, dir);
    RemoveTakesOne(s.unsolved, x);
    assert Grounded(reqs, Base(dp, spans), current) by {
      assert current in spans ==> GroundedIn(reqs, Base(dp, spans), current, 0);
    }
    AskingIsGrounded(reqs, Base(dp, spans), x, current, dir);
    var last := Placement(x, current, anchor, dir);
    forall e | e in t.log ensures Kept(reqs, spans, t.solution, e) {
      if e != last {
        assert e in s.log;
        InsertedKeeps(s.solution, anchor, x, dir, e.name, e.anchor, e.dir);
      }
    }
    assert last in t.log && last.name == x;
    assert forall e :: e in s.log ==> e in t.log;
  }
}
