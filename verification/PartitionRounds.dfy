/**
 The rounds of resolve in nrf/scripts/partition_manager.py, as a fold: a pass goes over all that is placed
 and then over the spans, and follows from each of them the chain of partitions that ask for
 it, the first of those that do each time.
 */
module PartitionRounds {
  import opened NameLists
  import opened PartitionOrder
  import opened Wrappers

  /** The cleaned-up requirements of a region, with the partitions that have to be placed. */
  datatype Problem = Problem(reqs: Reqs, spans: Spans, order: seq<string>, dp: string, all: seq<string>)
  {
    /** Names are not empty and not used twice, and exactly the partitions that ask are listed. */
    ghost predicate Proper() {
      && (forall n :: n in order <==> n in spans)
      && ProperSpans(spans) && (forall n :: n in spans ==> n !in reqs && Distinct(spans[n]))
      && dp != "start" && dp != "end" && Distinct(all)
      && (forall x :: x in all ==> x !in ["start", dp, "end"])
      && (forall x :: x in all <==> x in reqs && (reqs[x].before.Some? || reqs[x].after.Some?))
      && dp != "" && "" !in all && "" !in order
    }

    ghost predicate Keeps(s: State) {
      Valid(reqs, spans, dp, all, s)
    }

    /** Something that can be asked for. */
    predicate Known(s: State, c: string) {
      c in s.solution || c in spans
    }

    /** No unsolved partition asks, in this direction, for anything known. */
    ghost predicate Stuck(s: State, dir: Direction)
      requires forall x :: x in s.unsolved ==> x in reqs
    {
      forall x, c :: x in s.unsolved && Known(s, c) ==> !IsPlaced(reqs[x], c, dir)
    }
  }

  // ----- Passes and rounds --------------------------------------------------------------------

  datatype Progress = Moved(s: State) | Lost(s: State, span: string)

  predicate Ready(p: Problem, s: State) {
    forall x :: x in s.unsolved ==> x in p.reqs
  }

  /** Places what asks for c, then what asks for that, and so on. */
  function Follow(p: Problem, s: State, c: string, dir: Direction): (r: Progress)
    requires Ready(p, s) && p.Known(s, c)
    ensures Ready(p, r.s) && |r.s.unsolved| <= |s.unsolved| && forall y :: y in s.solution ==> y in r.s.solution
    decreases |s.unsolved|
  {
    var d := FirstDependent(p.reqs, s.unsolved, c, dir);
    if d.None? then Moved(s)
    else
      var a := Anchor(s.solution, p.spans, c, dir);
      if a.None? then Lost(s, c) else Follow(p, Place(s, d.value, c, a.value, dir), d.value, dir)
  }

  lemma StillKnown(p: Problem, s: State, t: State, pool: seq<string>)
    requires pool != [] && (forall c :: c in pool ==> p.Known(s, c)) && forall y :: y in s.solution ==> y in t.solution
    ensures forall c :: c in pool[1..] ==> p.Known(t, c)
  {
    forall c | c in pool[1..] ensures p.Known(t, c) {
      assert c in pool;
    }
  }

  function PassOver(p: Problem, s: State, pool: seq<string>, dir: Direction): (r: Progress)
    requires Ready(p, s) && forall c :: c in pool ==> p.Known(s, c)
    ensures Ready(p, r.s) && |r.s.unsolved| <= |s.unsolved|
    decreases pool
  {
    if pool == [] then Moved(s)
    else
      var r := Follow(p, s, pool[0], dir);
      StillKnown(p, s, r.s, pool);
      if r.Lost? then r else PassOver(p, r.s, pool[1..], dir)
  }

  /** solve_direction. */
  function Pass(p: Problem, s: State, dir: Direction): (r: Progress)
    requires Ready(p, s) && forall n :: n in p.order ==> n in p.spans
    ensures Ready(p, r.s) && |r.s.unsolved| <= |s.unsolved|
  {
    PassOver(p, s, s.solution + p.order, dir)
  }

  /** Rounds until everything is placed, a span has no placed part, or nothing changes. */
  function Rounds(p: Problem, s: State): Progress
    requires Ready(p, s) && forall n :: n in p.order ==> n in p.spans
    decreases |s.unsolved|
  {
    if s.unsolved == [] then Moved(s)
    else
      var r := Pass(p, s, Before);
      if r.Lost? then r
      else
        var t := Pass(p, r.s, After);
        if t.Lost? || |t.s.unsolved| == |s.unsolved| then t else Rounds(p, t.s)
  }

  /** A pass from one state that has come to c in another, with these still to be followed. */
  ghost predicate Going(p: Problem, start: State, s: State, c: string, rest: seq<string>, dir: Direction) {
    && Ready(p, start) && (forall n :: n in p.order ==> n in p.spans)
    && Ready(p, s) && p.Known(s, c) && (forall b :: b in [c] + rest ==> p.Known(s, b))
    && Pass(p, start, dir) == PassOver(p, s, [c] + rest, dir)
  }

  lemma PassBegins(p: Problem, s: State, dir: Direction)
    requires Ready(p, s) && s.solution != [] && forall n :: n in p.order ==> n in p.spans
    ensures var pool := s.solution + p.order; Going(p, s, s, pool[0], pool[1..], dir)
  {
    var pool := s.solution + p.order;
    assert [pool[0]] + pool[1..] == pool;
  }

  // One turn of the loop.
  lemma PassTurns(p: Problem, start: State, s: State, c: string, rest: seq<string>, dir: Direction)
    requires Going(p, start, s, c, rest, dir)
    ensures FirstDependent(p.reqs, s.unsolved, c, dir).None? && rest == [] ==> Pass(p, start, dir) == Moved(s)
    ensures FirstDependent(p.reqs, s.unsolved, c, dir).None? && rest != [] ==> Going(p, start, s, rest[0], rest[1..], dir)
    ensures FirstDependent(p.reqs, s.unsolved, c, dir).Some? && Anchor(s.solution, p.spans, c, dir).None? ==>
              Pass(p, start, dir) == Lost(s, c)
  {
    hide FirstDependent, Anchor;
    assert ([c] + rest)[1..] == rest;
    assert forall b :: b in rest ==> b in [c] + rest;
    assert PassOver(p, s, [c] + rest, dir) == (var r := Follow(p, s, c, dir); if r.Lost? then r else PassOver(p, r.s, rest, dir));
    if rest != [] {
      assert [rest[0]] + rest[1..] == rest && p.Known(s, rest[0]);
    }
  }

  lemma PassPlacesNext(p: Problem, start: State, s: State, c: string, rest: seq<string>, dir: Direction, x: string, a: string)
    requires Going(p, start, s, c, rest, dir)
    requires FirstDependent(p.reqs, s.unsolved, c, dir) == Some(x) && Anchor(s.solution, p.spans, c, dir) == Some(a)
    ensures Going(p, start, Place(s, x, c, a, dir), x, rest, dir)
  {
    hide FirstDependent, Anchor, Place;
    assert ([c] + rest)[1..] == rest && ([x] + rest)[1..] == rest;
    PlaceChanges(p, s, c, dir, x, a);
    var t := Place(s, x, c, a, dir);
    assert Follow(p, s, c, dir) == Follow(p, t, x, dir);
    forall b | b in [x] + rest ensures p.Known(t, b) {
      assert b != x ==> b in [c] + rest && p.Known(s, b);
    }
  }

  /** A pass that places nothing has looked at everything. */
  lemma {:induction false} IdlePass(p: Problem, s: State, pool: seq<string>, dir: Direction)
    requires Ready(p, s) && forall c :: c in pool ==> p.Known(s, c)
    requires PassOver(p, s, pool, dir).Moved? && |PassOver(p, s, pool, dir).s.unsolved| == |s.unsolved|
    ensures PassOver(p, s, pool, dir).s == s
    ensures forall x, c :: x in s.unsolved && c in pool ==> !IsPlaced(p.reqs[x], c, dir)
    decreases pool
  {
    hide FirstDependent, Anchor, Place;
    if pool != [] {
      assert p.Known(s, pool[0]);
      var d, a := FirstDependent(p.reqs, s.unsolved, pool[0], dir), Anchor(s.solution, p.spans, pool[0], dir);
      if d.Some? && a.Some? {
        PlaceChanges(p, s, pool[0], dir, d.value, a.value);
      }
      StillKnown(p, s, Follow(p, s, pool[0], dir).s, pool);
      assert Follow(p, s, pool[0], dir) == Moved(s);
      IdlePass(p, s, pool[1..], dir);
      assert forall c :: c in pool ==> c == pool[0] || c in pool[1..];
    }
  }

  // ----- The order of placements --------------------------------------------------------------

  function Names(log: seq<Placement>): set<string> {
    set e | e in log :: e.name
  }

  /** The partitions that are not placed, in their order. */
  function Rest(all: seq<string>, placed: set<string>): (r: seq<string>)
    ensures forall x :: x in r <==> x in all && x !in placed
  {
    if all == [] then []
    else if all[0] in placed then Rest(all[1..], placed)
    else [all[0]] + Rest(all[1..], placed)
  }

  /** The partition is the first of these that asks for c. */
  ghost predicate FirstToAsk(reqs: Reqs, list: seq<string>, c: string, dir: Direction, x: string)
    requires forall y :: y in list ==> y in reqs
  {
    x in list && IsPlaced(reqs[x], c, dir) && forall j :: 0 <= j < IndexOf(list, x) ==> !IsPlaced(reqs[list[j]], c, dir)
  }

  ghost predicate AllAsk(p: Problem) {
    forall x :: x in p.all ==> x in p.reqs
  }

  lemma {:induction false} RestShrinks(all: seq<string>, placed: set<string>, x: string)
    requires Distinct(all) && x in all && x !in placed
    ensures Rest(all, placed + {x}) == Remove(Rest(all, placed), x)
  {
    hide Remove, IndexOf;
    var r := Rest(all[1..], placed);
    if all[0] == x {
      RestIsSame(all[1..], placed, x);
      RemoveBehind(x, r, x);
    } else {
      RestShrinks(all[1..], placed, x);
      RemoveBehind(all[0], r, x);
    }
  }

  lemma {:induction false} RestIsSame(all: seq<string>, placed: set<string>, x: string)
    requires x !in all
    ensures Rest(all, placed + {x}) == Rest(all, placed)
  {
    if all != [] {
      RestIsSame(all[1..], placed, x);
    }
  }

  /** What the log says of the order of placements: each partition was the first, of those then left, to ask
      for what it asked for, and whatever asks for it on the same side comes right after it. */
  ghost predicate Fair(p: Problem, log: seq<Placement>, k: nat)
    requires AllAsk(p) && k < |log|
  {
    FirstToAsk(p.reqs, Rest(p.all, Names(log[..k])), log[k].asked, log[k].dir, log[k].name)
  }

  ghost predicate Prompt(p: Problem, log: seq<Placement>, k: nat)
    requires AllAsk(p) && k < |log|
  {
    var e := log[k];
    (exists y :: y in Rest(p.all, Names(log[..k + 1])) && IsPlaced(p.reqs[y], e.name, e.dir)) ==>
      k + 1 < |log| && log[k + 1].asked == e.name && log[k + 1].dir == e.dir
  }

  /** The order that the log leads to. */
  function Replay(dp: string, log: seq<Placement>): seq<string> {
    if log == [] then ["start", dp, "end"]
    else
      var before, e := Replay(dp, log[..|log| - 1]), log[|log| - 1];
      if e.anchor in before then Inserted(before, e.anchor, e.name, e.dir) else before
  }

  /** A new partition is put next to what it asks for, or next to the outermost placed part of that span. */
  ghost predicate Certified(p: Problem, log: seq<Placement>, k: nat)
    requires k < |log|
  {
    var before, e := Replay(p.dp, log[..k]), log[k];
    && e.name in p.all && e.name in p.reqs && e.name !in before && IsPlaced(p.reqs[e.name], e.asked, e.dir) && e.anchor in before
    && if e.asked in before then e.anchor == e.asked
       else e.asked in p.spans && e.anchor in p.spans[e.asked] && Outermost(before, p.spans[e.asked], e.anchor, e.dir)
  }

  /** The log up to now, all but the last entry of which is settled if c is still to be followed. */
  ghost predicate Orderly(p: Problem, s: State, following: bool) {
    && AllAsk(p) && Distinct(p.all) && s.unsolved == Rest(p.all, Names(s.log))
    && s.solution == Replay(p.dp, s.log) && (forall x :: x in s.unsolved ==> x !in s.solution)
    && (forall k :: 0 <= k < |s.log| ==> Fair(p, s.log, k) && Certified(p, s.log, k))
    && (forall k :: 0 <= k < |s.log| - (if following then 1 else 0) ==> Prompt(p, s.log, k))
  }

  ghost predicate OrderlyLog(p: Problem, log: seq<Placement>) {
    AllAsk(p) && forall k :: 0 <= k < |log| ==> Fair(p, log, k) && Certified(p, log, k) && Prompt(p, log, k)
  }

  lemma PlaceIsOrderly(p: Problem, s: State, c: string, dir: Direction, x: string, a: string, following: bool)
    requires Orderly(p, s, following) && Ready(p, s) && p.Known(s, c)
    requires FirstDependent(p.reqs, s.unsolved, c, dir) == Some(x) && Anchor(s.solution, p.spans, c, dir) == Some(a)
    requires following ==> s.log != [] && s.log[|s.log| - 1].name == c && s.log[|s.log| - 1].dir == dir
    ensures Orderly(p, Place(s, x, c, a, dir), true)
  {
    hide FirstDependent, Inserted, Anchor, Certified, Rest, Fair, Prompt, Replay, Remove;
    var log, n := s.log, |s.log|;
    var t := Place(s, x, c, a, dir);
    assert Names(t.log) == Names(log) + {x};
    RestShrinks(p.all, Names(log), x);
    forall k | 0 <= k < n ensures Fair(p, t.log, k) && Prompt(p, t.log, k) && Certified(p, t.log, k) {
      EarlierKept(p, log, t.log[n], k);
    }
    LastCertified(p, s, c, dir, x, a);
    PlacedIsThere(s, c, dir, x, a);
  }

  lemma EarlierKept(p: Problem, log: seq<Placement>, e: Placement, k: nat)
    requires AllAsk(p) && k < |log| && Fair(p, log, k) && Certified(p, log, k)
    ensures Fair(p, log + [e], k) && Certified(p, log + [e], k)
    ensures Prompt(p, log, k) || (k == |log| - 1 && e.asked == log[k].name && e.dir == log[k].dir) ==> Prompt(p, log + [e], k)
  {
    var t := log + [e];
    assert t[..k] == log[..k] && t[..k + 1] == log[..k + 1] && t[k] == log[k];
  }

  lemma LastCertified(p: Problem, s: State, c: string, dir: Direction, x: string, a: string)
    requires Orderly(p, s, true) && Ready(p, s) && p.Known(s, c)
    requires FirstDependent(p.reqs, s.unsolved, c, dir) == Some(x) && Anchor(s.solution, p.spans, c, dir) == Some(a)
    ensures var log := s.log + [Placement(x, c, a, dir)];
            && Certified(p, log, |s.log|) && Fair(p, log, |s.log|)
            && Replay(p.dp, log) == Inserted(s.solution, a, x, dir)
  {
    hide FirstDependent, Rest, Inserted;
    var log := s.log + [Placement(x, c, a, dir)];
    assert log[..|s.log|] == s.log;
  }

  lemma PlacedIsThere(s: State, c: string, dir: Direction, x: string, a: string)
    requires a in s.solution && x in s.unsolved
    ensures forall y :: y in Place(s, x, c, a, dir).solution <==> y == x || y in s.solution
  {
  }

  lemma PlaceIsReady(p: Problem, s: State, c: string, dir: Direction, x: string, a: string)
    requires Ready(p, s) && x in s.unsolved && a in s.solution
    ensures var t := Place(s, x, c, a, dir); Ready(p, t) && x in t.solution && |t.unsolved| < |s.unsolved|
  {
  }

  lemma {:induction false} FollowIsOrderly(p: Problem, s: State, c: string, dir: Direction, following: bool)
    requires Orderly(p, s, following) && Ready(p, s) && p.Known(s, c)
    requires following ==> s.log != [] && s.log[|s.log| - 1].name == c && s.log[|s.log| - 1].dir == dir && c in s.solution
    ensures var r := Follow(p, s, c, dir); Orderly(p, r.s, false)
    decreases |s.unsolved|
  {
    hide FirstDependent, Anchor, Inserted, Fair, Certified, Replay, Rest, Remove;
    var d := FirstDependent(p.reqs, s.unsolved, c, dir);
    if d.Some? {
      var a := Anchor(s.solution, p.spans, c, dir);
      if a.Some? {
        PlaceIsOrderly(p, s, c, dir, d.value, a.value, following);
        var t := Place(s, d.value, c, a.value, dir);
        PlaceIsReady(p, s, c, dir, d.value, a.value);
        FollowIsOrderly(p, t, d.value, dir, true);
      }
    } else if following {
      var n := |s.log|;
      assert s.log[..n - 1 + 1] == s.log;
      assert Prompt(p, s.log, n - 1);
    }
  }

  lemma {:induction false} PassIsOrderly(p: Problem, s: State, pool: seq<string>, dir: Direction)
    requires Orderly(p, s, false) && Ready(p, s) && forall c :: c in pool ==> p.Known(s, c)
    ensures Orderly(p, PassOver(p, s, pool, dir).s, false)
    decreases pool
  {
    hide Orderly, Follow;
    if pool != [] {
      FollowIsOrderly(p, s, pool[0], dir, false);
      var r := Follow(p, s, pool[0], dir);
      StillKnown(p, s, r.s, pool);
      if r.Moved? {
        PassIsOrderly(p, r.s, pool[1..], dir);
      }
    }
  }

  /** So is the log of any number of rounds. */
  lemma {:induction false} RoundsAreOrderly(p: Problem, s: State)
    requires Orderly(p, s, false) && Ready(p, s) && forall n :: n in p.order ==> n in p.spans
    ensures Orderly(p, Rounds(p, s).s, false)
    decreases |s.unsolved|
  {
    hide Orderly, PassOver;
    if s.unsolved != [] {
      PassIsOrderly(p, s, s.solution + p.order, Before);
      var r := Pass(p, s, Before);
      if r.Moved? {
        PassIsOrderly(p, r.s, r.s.solution + p.order, After);
        var t := Pass(p, r.s, After);
        if t.Moved? && |t.s.unsolved| < |s.unsolved| {
          RoundsAreOrderly(p, t.s);
        }
      }
    }
  }

  // ----- Which request is met -----------------------------------------------------------------

  function Begin(p: Problem): State {
    State(p.all, ["start", p.dp, "end"], [])
  }

  /** Following c changes nothing before it in the log, does not fail where c is placed, and leaves alone a partition
      whose request on this side is for something else that is there already. */
  lemma {:induction false} FollowKeeps(p: Problem, s: State, c: string, dir: Direction)
    requires Ready(p, s) && p.Known(s, c)
    ensures var r := Follow(p, s, c, dir);
            && s.log <= r.s.log && (c in s.solution ==> r.Moved?)
            && (forall x, b :: x in s.unsolved && IsPlaced(p.reqs[x], b, dir) && b != c && b !in s.unsolved ==> x in r.s.unsolved)
            && (forall b :: b !in s.unsolved ==> b !in r.s.unsolved)
    decreases |s.unsolved|
  {
    hide FirstDependent, Anchor, Place;
    var d := FirstDependent(p.reqs, s.unsolved, c, dir);
    var a := Anchor(s.solution, p.spans, c, dir);
    if d.Some? && a.Some? {
      PlaceChanges(p, s, c, dir, d.value, a.value);
      FollowKeeps(p, Place(s, d.value, c, a.value, dir), d.value, dir);
    }
  }

  lemma PlaceChanges(p: Problem, s: State, c: string, dir: Direction, x: string, a: string)
    requires Ready(p, s) && x in s.unsolved && a in s.solution
    ensures var t := Place(s, x, c, a, dir);
            && Ready(p, t) && x in t.solution && |t.unsolved| < |s.unsolved| && (forall y :: y in s.solution ==> y in t.solution)
            && s.log <= t.log && Placement(x, c, a, dir) in t.log
            && (forall y :: y in t.unsolved ==> y in s.unsolved) && (forall y :: y in s.unsolved && y != x ==> y in t.unsolved)
  {
  }

  lemma {:induction false} PassKeepsLog(p: Problem, s: State, pool: seq<string>, dir: Direction)
    requires Ready(p, s) && forall c :: c in pool ==> p.Known(s, c)
    ensures s.log <= PassOver(p, s, pool, dir).s.log
    decreases pool
  {
    hide Follow;
    if pool != [] {
      FollowKeeps(p, s, pool[0], dir);
      var r := Follow(p, s, pool[0], dir);
      StillKnown(p, s, r.s, pool);
      if r.Moved? {
        PassKeepsLog(p, r.s, pool[1..], dir);
      }
    }
  }

  lemma {:induction false} RoundsKeepLog(p: Problem, s: State)
    requires Ready(p, s) && forall n :: n in p.order ==> n in p.spans
    ensures s.log <= Rounds(p, s).s.log
    decreases |s.unsolved|
  {
    hide PassOver;
    if s.unsolved != [] {
      PassKeepsLog(p, s, s.solution + p.order, Before);
      var r := Pass(p, s, Before);
      if r.Moved? {
        PassKeepsLog(p, r.s, r.s.solution + p.order, After);
        var t := Pass(p, r.s, After);
        if t.Moved? && |t.s.unsolved| < |s.unsolved| {
          RoundsKeepLog(p, t.s);
        }
      }
    }
  }

  /** x alone asks to lie on this side of c. */
  ghost predicate AsksAlone(p: Problem, s: State, x: string, c: string, dir: Direction)
    requires Ready(p, s)
  {
    x in s.unsolved && IsPlaced(p.reqs[x], c, dir) && forall y :: y in s.unsolved && IsPlaced(p.reqs[y], c, dir) ==> y == x
  }

  // A pass that comes to c before any span places it there.
  lemma {:induction false} PassPlaces(p: Problem, s: State, first: seq<string>, pool: seq<string>, x: string, c: string, dir: Direction)
    requires Ready(p, s) && (forall b :: b in first + pool ==> p.Known(s, b)) && (forall b :: b in first ==> b in s.solution)
    requires AsksAlone(p, s, x, c, dir) && c in first && c !in s.unsolved
    ensures Placement(x, c, c, dir) in PassOver(p, s, first + pool, dir).s.log
    decreases first
  {
    hide Follow, FirstDependent, Place;
    var all, r := first + pool, Follow(p, s, first[0], dir);
    assert all[0] == first[0] && all[1..] == first[1..] + pool;
    FollowKeeps(p, s, first[0], dir);
    StillKnown(p, s, r.s, all);
    if first[0] == c {
      FollowPlaces(p, s, x, c, dir);
      PassKeepsLog(p, r.s, all[1..], dir);
    } else {
      FollowOnlyTakes(p, s, first[0], dir);
      assert forall b :: b in first[1..] ==> b in first;
      PassPlaces(p, r.s, first[1..], pool, x, c, dir);
    }
  }

  lemma {:induction false} FollowOnlyTakes(p: Problem, s: State, c: string, dir: Direction)
    requires Ready(p, s) && p.Known(s, c)
    ensures forall y :: y in Follow(p, s, c, dir).s.unsolved ==> y in s.unsolved
    decreases |s.unsolved|
  {
    hide FirstDependent, Anchor, Place;
    var d := FirstDependent(p.reqs, s.unsolved, c, dir);
    var a := Anchor(s.solution, p.spans, c, dir);
    if d.Some? && a.Some? {
      PlaceChanges(p, s, c, dir, d.value, a.value);
      FollowOnlyTakes(p, Place(s, d.value, c, a.value, dir), d.value, dir);
    }
  }

  lemma FollowPlaces(p: Problem, s: State, x: string, c: string, dir: Direction)
    requires Ready(p, s) && c in s.solution && AsksAlone(p, s, x, c, dir)
    ensures Placement(x, c, c, dir) in Follow(p, s, c, dir).s.log
  {
    hide Place;
    var t := Place(s, x, c, c, dir);
    PlaceChanges(p, s, c, dir, x, c);
    FollowKeeps(p, t, x, dir);
  }

  /** Of two requests the one to lie before something goes first: a partition that alone asks to lie before a fixed
      place is put right there, whatever else it asks for. */
  lemma BeforeGoesFirst(p: Problem, x: string, c: string)
    requires p.Proper() && c in ["start", p.dp, "end"] && x in p.all && IsPlaced(p.reqs[x], c, Before)
    requires forall y :: y in p.all && IsPlaced(p.reqs[y], c, Before) ==> y == x
    ensures Ready(p, Begin(p)) && Placement(x, c, c, Before) in Rounds(p, Begin(p)).s.log
  {
    hide PassOver, ProperSpans, Distinct;
    var s := Begin(p);
    PassPlaces(p, s, s.solution, p.order, x, c, Before);
    var r := Pass(p, s, Before);
    if r.Moved? {
      PassKeepsLog(p, r.s, r.s.solution + p.order, After);
      var t := Pass(p, r.s, After);
      if t.Moved? && |t.s.unsolved| < |s.unsolved| {
        RoundsKeepLog(p, t.s);
      }
    }
  }

  lemma BeginIsOrderly(p: Problem)
    requires p.Proper()
    ensures Ready(p, Begin(p)) && Orderly(p, Begin(p), false)
  {
    RestOfAll(p.all);
  }

  lemma {:induction false} RestOfAll(all: seq<string>)
    ensures Rest(all, Names([])) == all
  {
    if all != [] {
      RestOfAll(all[1..]);
    }
  }

  /** Every run keeps a log that explains the order it has come to. */
  lemma RunIsOrderly(p: Problem)
    requires p.Proper()
    ensures Ready(p, Begin(p))
    ensures var s := Rounds(p, Begin(p)).s; OrderlyLog(p, s.log) && s.solution == Replay(p.dp, s.log)
  {
    hide Fair, Certified, Prompt, Rounds, ProperSpans;
    BeginIsOrderly(p);
    RoundsAreOrderly(p, Begin(p));
  }
}
