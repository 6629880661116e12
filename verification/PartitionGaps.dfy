/**
 The free space between statically placed partitions: get_dynamic_area_start_and_size and
 verify_static_conf_simple of nrf/scripts/partition_manager.py find it as the differences between
 the set of addresses where something starts and the set where something ends. This is exactly the
 free space for partitions that have room and are apart; for others the condition is given.
 */
module PartitionGaps {
  import opened SortedSets
  import opened Wrappers

  /** One entry of the static configuration; a span has no place of its own, some entries no size. */
  datatype Entry = Entry(name: string, isSpan: bool, address: int, size: Option<int>)

  /** The part of a region that an entry takes. */
  datatype Part = Part(address: int, size: int)
  {
    function End(): int { address + size }
  }

  type Gap = (int, int)

  // ----- What the code computes ---------------------------------------------------------

  /** zip(), which stops at the end of the shorter list. */
  function Zip(a: seq<int>, b: seq<int>): seq<Gap> {
    if a == [] || b == [] then [] else [(a[0], b[0])] + Zip(a[1..], b[1..])
  }

  function Starts(parts: seq<Part>, last: int): set<int> {
    {last} + set p | p in parts :: p.address
  }

  function Ends(parts: seq<Part>, first: int): set<int> {
    {first} + set p | p in parts :: p.End()
  }

  function Gaps(parts: seq<Part>, first: int, last: int): seq<Gap> {
    var starts, ends := Starts(parts, last), Ends(parts, first);
    Zip(Sorted(ends - starts), Sorted(starts - ends))
  }

  /** The parts that the entries with a size take. */
  function Sized(config: seq<Entry>): (parts: seq<Part>)
    ensures forall p :: p in parts <==> exists e :: e in config && e.size == Some(p.size) && e.address == p.address
  {
    if config == [] then []
    else (if config[0].size.Some? then [Part(config[0].address, config[0].size.value)] else []) + Sized(config[1..])
  }

  /** proper_partitions: neither spans nor the dynamic partition. */
  function Proper(config: seq<Entry>, dynamic: string): (proper: seq<Entry>)
    ensures forall e :: e in proper <==> e in config && !e.isSpan && e.name != dynamic
  {
    if config == [] then []
    else (if !config[0].isSpan && config[0].name != dynamic then [config[0]] else []) + Proper(config[1..], dynamic)
  }

  /** get_dynamic_area_start_and_size: None where it raises. */
  function DynamicArea(config: seq<Entry>, base: int, size: int, dynamic: string): Option<(int, int)> {
    var proper := Proper(config, dynamic);
    var gaps := Gaps(Sized(proper), base, base + size);
    if (exists e :: e in proper && e.size.None?) || |gaps| != 1 then None
    else Some((gaps[0].0, gaps[0].1 - gaps[0].0))
  }

  /** verify_static_conf_simple: whether it returns rather than raises. */
  predicate PackedConfig(config: seq<Entry>, base: int, size: int, startToEnd: bool) {
    var gaps := Gaps(Sized(config), base, base + size);
    || |gaps| == 0
    || (|gaps| == 1 && if startToEnd then gaps[0].1 == base + size else gaps[0].0 == base)
  }

  // ----- What it is meant to compute -----------------------------------------------------

  predicate Covered(parts: seq<Part>, x: int) {
    exists p :: p in parts && p.address <= x < p.End()
  }

  predicate InGap(gaps: seq<Gap>, x: int) {
    exists k :: 0 <= k < |gaps| && gaps[k].0 <= x < gaps[k].1
  }

  /** Non-empty, in order, and never touching: no two could be joined. */
  predicate Separate(gaps: seq<Gap>) {
    && (forall k :: 0 <= k < |gaps| ==> gaps[k].0 < gaps[k].1)
    && (forall k, l :: 0 <= k < l < |gaps| ==> gaps[k].1 < gaps[l].0)
  }

  /** The gaps are exactly the free space of the region: every free byte is in one, no taken byte is. */
  ghost predicate Right(parts: seq<Part>, first: int, last: int, gaps: seq<Gap>) {
    && Separate(gaps)
    && (forall k :: 0 <= k < |gaps| ==> first <= gaps[k].0 && gaps[k].1 <= last)
    && (forall x :: first <= x < last ==> (InGap(gaps, x) <==> !Covered(parts, x)))
  }

  /** Partitions inside the region; they may be empty, and they may overlap. */
  predicate Inside(parts: seq<Part>, first: int, last: int) {
    first <= last && forall p :: p in parts ==> first <= p.address <= p.End() <= last
  }

  // ----- When it does ---------------------------------------------------------------------------

  predicate IsStart(parts: seq<Part>, x: int) {
    exists p :: p in parts && p.address == x
  }

  predicate IsEnd(parts: seq<Part>, x: int) {
    exists p :: p in parts && p.End() == x
  }

  /** Strictly inside a partition. */
  predicate Interior(parts: seq<Part>, x: int) {
    exists p :: p in parts && p.address < x < p.End()
  }

  /** An end inside another partition, where no partition starts to hide it. */
  predicate StrayEnd(parts: seq<Part>, x: int) {
    IsEnd(parts, x) && Interior(parts, x) && !IsStart(parts, x)
  }

  predicate StrayStart(parts: seq<Part>, x: int) {
    IsStart(parts, x) && Interior(parts, x) && !IsEnd(parts, x)
  }

  predicate LeftEdge(parts: seq<Part>, first: int, last: int, x: int) {
    first <= x < last && !Covered(parts, x) && (x == first || Covered(parts, x - 1))
  }

  predicate RightEdge(parts: seq<Part>, first: int, last: int, x: int) {
    first < x <= last && !Covered(parts, x - 1) && (x == last || Covered(parts, x))
  }

  predicate EmptyAt(parts: seq<Part>, x: int) {
    exists p :: p in parts && p.size == 0 && p.address == x
  }

  /** No empty partition sits at an edge of the free space. */
  ghost predicate NoEmptyEdge(parts: seq<Part>, first: int, last: int) {
    forall x :: EmptyAt(parts, x) ==> !LeftEdge(parts, first, last, x) && !RightEdge(parts, first, last, x)
  }

  /** There are stray ends or stray starts but not both, and only above the edges they could be taken for. */
  ghost predicate StraysAbove(parts: seq<Part>, first: int, last: int) {
    && ((forall e :: !StrayEnd(parts, e)) || (forall s :: !StrayStart(parts, s)))
    && (forall e, x :: StrayEnd(parts, e) && LeftEdge(parts, first, last, x) ==> x < e)
    && (forall s, x :: StrayStart(parts, s) && RightEdge(parts, first, last, x) ==> x < s)
  }

  // What the two differences hold: edges, unless an empty partition hides them, and strays.
  lemma EndsWithoutStart(parts: seq<Part>, first: int, last: int, x: int)
    requires Inside(parts, first, last)
    ensures x in Ends(parts, first) - Starts(parts, last) <==>
      (LeftEdge(parts, first, last, x) && !EmptyAt(parts, x)) || StrayEnd(parts, x)
    ensures !(LeftEdge(parts, first, last, x) && StrayEnd(parts, x))
  {
  }

  lemma StartsWithoutEnd(parts: seq<Part>, first: int, last: int, x: int)
    requires Inside(parts, first, last)
    ensures x in Starts(parts, last) - Ends(parts, first) <==>
      (RightEdge(parts, first, last, x) && !EmptyAt(parts, x)) || StrayStart(parts, x)
    ensures !(RightEdge(parts, first, last, x) && StrayStart(parts, x))
  {
  }

  // ----- The free runs of a region ----------------------------------------------------------------

  /** Where a free run ends. */
  function RunEnd(parts: seq<Part>, lo: int, hi: int): (e: int)
    requires lo <= hi
    ensures lo <= e <= hi && (e == hi || Covered(parts, e)) && forall x :: lo <= x < e ==> !Covered(parts, x)
    decreases hi - lo
  {
    if lo == hi || Covered(parts, lo) then lo else RunEnd(parts, lo + 1, hi)
  }

  /** The free runs from an address on, found by looking at every byte. */
  function FreeRuns(parts: seq<Part>, lo: int, hi: int): seq<Gap>
    requires lo <= hi
    decreases hi - lo
  {
    if lo == hi then []
    else if Covered(parts, lo) then FreeRuns(parts, lo + 1, hi)
    else [(lo, RunEnd(parts, lo, hi))] + FreeRuns(parts, RunEnd(parts, lo, hi), hi)
  }

  lemma {:induction false} RunsAreSeparate(parts: seq<Part>, lo: int, hi: int)
    requires lo <= hi
    ensures var runs := FreeRuns(parts, lo, hi);
      && Separate(runs)
      && (forall k :: 0 <= k < |runs| ==> lo <= runs[k].0 && runs[k].1 <= hi && !Covered(parts, runs[k].0))
    decreases hi - lo
  {
    if lo < hi {
      if Covered(parts, lo) {
        RunsAreSeparate(parts, lo + 1, hi);
      } else {
        hide Covered;
        RunsAreSeparate(parts, RunEnd(parts, lo, hi), hi);
      }
    }
  }

  lemma {:induction false} RunsAreFree(parts: seq<Part>, lo: int, hi: int, x: int)
    requires lo <= x < hi
    ensures InGap(FreeRuns(parts, lo, hi), x) <==> !Covered(parts, x)
    decreases hi - lo
  {
    var runs := FreeRuns(parts, lo, hi);
    if Covered(parts, lo) {
      if x > lo {
        RunsAreFree(parts, lo + 1, hi, x);
      } else {
        RunsAreSeparate(parts, lo + 1, hi);
      }
    } else {
      var e := RunEnd(parts, lo, hi);
      var more := FreeRuns(parts, e, hi);
      assert runs[0] == (lo, e);
      RunsAreSeparate(parts, e, hi);
      if x >= e {
        RunsAreFree(parts, e, hi, x);
        LaterGap(runs, more, x);
      }
    }
  }

  lemma LaterGap(gaps: seq<Gap>, more: seq<Gap>, x: int)
    requires gaps != [] && more == gaps[1..] && gaps[0].1 <= x
    ensures InGap(gaps, x) <==> InGap(more, x)
  {
    if k :| 0 <= k < |gaps| && gaps[k].0 <= x < gaps[k].1 {
      assert more[k - 1] == gaps[k];
    }
    if k :| 0 <= k < |more| && more[k].0 <= x < more[k].1 {
      assert gaps[k + 1] == more[k];
    }
  }

  function Firsts(gaps: seq<Gap>): seq<int> {
    if gaps == [] then [] else [gaps[0].0] + Firsts(gaps[1..])
  }

  function Seconds(gaps: seq<Gap>): seq<int> {
    if gaps == [] then [] else [gaps[0].1] + Seconds(gaps[1..])
  }

  // The ends of the runs are the edges of the free space.
  lemma {:induction false} RunsHaveEdges(parts: seq<Part>, first: int, lo: int, hi: int, x: int)
    requires first <= lo <= hi && (lo == hi || lo == first || Covered(parts, lo) || Covered(parts, lo - 1))
    ensures x in Firsts(FreeRuns(parts, lo, hi)) <==> lo <= x && LeftEdge(parts, first, hi, x)
    ensures x in Seconds(FreeRuns(parts, lo, hi)) <==> lo < x && RightEdge(parts, first, hi, x)
    decreases hi - lo
  {
    if lo < hi {
      if Covered(parts, lo) {
        RunsHaveEdges(parts, first, lo + 1, hi, x);
      } else {
        var e := RunEnd(parts, lo, hi);
        RunsHaveEdges(parts, first, e, hi, x);
        var runs := FreeRuns(parts, lo, hi);
        assert runs[1..] == FreeRuns(parts, e, hi);
      }
    }
  }

  // ----- The exact condition ------------------------------------------------------------------------

  lemma {:induction false} ZipIff(a: seq<int>, b: seq<int>, gaps: seq<Gap>)
    ensures Zip(a, b) == gaps <==> Firsts(gaps) <= a && Seconds(gaps) <= b && (|a| == |gaps| || |b| == |gaps|)
    ensures |Firsts(gaps)| == |Seconds(gaps)| == |gaps|
    decreases gaps
  {
    if gaps != [] {
      if a == [] || b == [] {
        ZipIff([], [], gaps[1..]);
      } else {
        ZipIff(a[1..], b[1..], gaps[1..]);
        assert Zip(a, b)[1..] == Zip(a[1..], b[1..]);
        assert gaps == [gaps[0]] + gaps[1..];
        PrefixParts(Firsts(gaps), a);
        PrefixParts(Seconds(gaps), b);
      }
    }
  }

  lemma PrefixParts(l: seq<int>, a: seq<int>)
    requires l != [] && a != []
    ensures l <= a <==> l[0] == a[0] && l[1..] <= a[1..]
  {
    if l[0] == a[0] && l[1..] <= a[1..] {
      assert l == [l[0]] + l[1..] && a == [a[0]] + a[1..];
    }
  }

  lemma {:induction false} EdgesIncrease(gaps: seq<Gap>)
    requires Separate(gaps)
    ensures Increasing(Firsts(gaps)) && Increasing(Seconds(gaps))
    decreases gaps
  {
    if gaps != [] {
      var more := gaps[1..];
      assert forall k :: 0 <= k < |more| ==> more[k] == gaps[k + 1];
      EdgesIncrease(more);
      EdgesAbove(more, gaps[0].0, gaps[0].1);
      JoinIncreasing([gaps[0].0], Firsts(more));
      JoinIncreasing([gaps[0].1], Seconds(more));
    }
  }

  lemma {:induction false} EdgesAbove(gaps: seq<Gap>, l: int, r: int)
    requires l < r && forall k :: 0 <= k < |gaps| ==> r < gaps[k].0 < gaps[k].1
    ensures forall x :: x in Firsts(gaps) ==> l < x
    ensures forall x :: x in Seconds(gaps) ==> r < x
    decreases gaps
  {
    if gaps != [] {
      EdgesAbove(gaps[1..], l, r);
    }
  }

  // Two lists of separate gaps that hold the same bytes are the same list.
  lemma {:induction false} SameGaps(g: seq<Gap>, h: seq<Gap>)
    requires Separate(g) && Separate(h) && forall x :: InGap(g, x) <==> InGap(h, x)
    ensures g == h
    decreases |g|
  {
    if g == [] || h == [] {
      assert g != [] ==> InGap(g, g[0].0);
      assert h != [] ==> InGap(h, h[0].0);
    } else {
      FirstGap(g);
      FirstGap(h);
      assert InGap(g, g[0].0) && InGap(h, h[0].0);
      assert g[0].0 == h[0].0;
      assert !InGap(g, g[0].1) && !InGap(h, h[0].1);
      assert g[0].1 == h[0].1;
      forall x ensures InGap(g[1..], x) <==> InGap(h[1..], x) {
        if x >= g[0].1 {
          LaterGap(g, g[1..], x);
          LaterGap(h, h[1..], x);
        }
      }
      SameGaps(g[1..], h[1..]);
      assert g == [g[0]] + g[1..] && h == [h[0]] + h[1..];
    }
  }

  lemma FirstGap(g: seq<Gap>)
    requires Separate(g) && g != []
    ensures !InGap(g, g[0].1) && (forall x :: InGap(g, x) ==> g[0].0 <= x)
    ensures forall x :: g[0].0 <= x < g[0].1 ==> InGap(g, x)
    ensures forall x :: InGap(g[1..], x) ==> g[0].1 < x
    ensures Separate(g[1..])
  {
  }

  lemma RunsAreRight(parts: seq<Part>, first: int, last: int, gaps: seq<Gap>)
    requires first <= last
    ensures Right(parts, first, last, gaps) <==> gaps == FreeRuns(parts, first, last)
  {
    var runs := FreeRuns(parts, first, last);
    RunsAreSeparate(parts, first, last);
    forall x | first <= x < last ensures InGap(runs, x) <==> !Covered(parts, x) {
      RunsAreFree(parts, first, last, x);
    }
    if Right(parts, first, last, gaps) {
      SameGaps(gaps, runs);
    }
  }

  // The left edges come first among the ends without a start, or all of those are left edges.
  lemma LeftEdgesFirst(parts: seq<Part>, first: int, last: int, l: seq<int>, ends: set<int>)
    requires Inside(parts, first, last) && l == Firsts(FreeRuns(parts, first, last))
    requires ends == Ends(parts, first) - Starts(parts, last)
    ensures l <= Sorted(ends) <==>
      && (forall x :: EmptyAt(parts, x) ==> !LeftEdge(parts, first, last, x))
      && (forall e, x :: StrayEnd(parts, e) && LeftEdge(parts, first, last, x) ==> x < e)
    ensures l <= Sorted(ends) ==> (|Sorted(ends)| == |l| <==> forall e :: !StrayEnd(parts, e))
  {
    hide Starts, Ends, LeftEdge, StrayEnd, EmptyAt, FreeRuns, Firsts, Sorted;
    forall x ensures x in l <==> LeftEdge(parts, first, last, x) {
      RunsHaveEdges(parts, first, first, last, x);
      EdgesAreInside(parts, first, last, x);
    }
    forall x
      ensures x in ends <==> (x in l && !EmptyAt(parts, x)) || StrayEnd(parts, x)
      ensures !(x in l && StrayEnd(parts, x))
    {
      EndsWithoutStart(parts, first, last, x);
    }
    RunsAreSeparate(parts, first, last);
    EdgesIncrease(FreeRuns(parts, first, last));
    PrefixOfSortedIff(l, ends);
    if l <= Sorted(ends) {
      CountIff(l, ends);
    }
  }

  lemma EdgesAreInside(parts: seq<Part>, first: int, last: int, x: int)
    ensures LeftEdge(parts, first, last, x) ==> first <= x
    ensures RightEdge(parts, first, last, x) ==> first < x
  {
  }

  lemma RightEdgesFirst(parts: seq<Part>, first: int, last: int, r: seq<int>, starts: set<int>)
    requires Inside(parts, first, last) && r == Seconds(FreeRuns(parts, first, last))
    requires starts == Starts(parts, last) - Ends(parts, first)
    ensures r <= Sorted(starts) <==>
      && (forall x :: EmptyAt(parts, x) ==> !RightEdge(parts, first, last, x))
      && (forall s, x :: StrayStart(parts, s) && RightEdge(parts, first, last, x) ==> x < s)
    ensures r <= Sorted(starts) ==> (|Sorted(starts)| == |r| <==> forall s :: !StrayStart(parts, s))
  {
    hide Starts, Ends, RightEdge, StrayStart, EmptyAt, FreeRuns, Seconds, Sorted;
    forall x ensures x in r <==> RightEdge(parts, first, last, x) {
      RunsHaveEdges(parts, first, first, last, x);
      EdgesAreInside(parts, first, last, x);
    }
    forall x
      ensures x in starts <==> (x in r && !EmptyAt(parts, x)) || StrayStart(parts, x)
      ensures !(x in r && StrayStart(parts, x))
    {
      StartsWithoutEnd(parts, first, last, x);
    }
    RunsAreSeparate(parts, first, last);
    EdgesIncrease(FreeRuns(parts, first, last));
    PrefixOfSortedIff(r, starts);
    if r <= Sorted(starts) {
      CountIff(r, starts);
    }
  }

  /**
   The gaps that the set differences give are the free space if and only if no empty partition
   sits at an edge of it and the strays that overlaps leave are out of the way.
   */
  lemma GapsAreRightIff(parts: seq<Part>, first: int, last: int)
    requires Inside(parts, first, last)
    ensures Right(parts, first, last, Gaps(parts, first, last)) <==>
      NoEmptyEdge(parts, first, last) && StraysAbove(parts, first, last)
  {
    hide Starts, Ends, LeftEdge, RightEdge, StrayEnd, StrayStart, EmptyAt, FreeRuns, Firsts, Seconds, Sorted, Zip, Right;
    var runs := FreeRuns(parts, first, last);
    var starts, ends := Starts(parts, last), Ends(parts, first);
    RunsAreRight(parts, first, last, Gaps(parts, first, last));
    ZipIff(Sorted(ends - starts), Sorted(starts - ends), runs);
    LeftEdgesFirst(parts, first, last, Firsts(runs), ends - starts);
    RightEdgesFirst(parts, first, last, Seconds(runs), starts - ends);
  }

  // ----- Special cases --------------------------------------------------------------------------------

  /** Apart from each other; an empty partition may touch others but not lie inside one. */
  predicate Apart(parts: seq<Part>) {
    forall i, j :: 0 <= i < j < |parts| ==> parts[i].End() <= parts[j].address || parts[j].End() <= parts[i].address
  }

  lemma ApartHasNoStrays(parts: seq<Part>, first: int, last: int, x: int)
    requires Inside(parts, first, last) && Apart(parts)
    ensures !StrayEnd(parts, x) && !StrayStart(parts, x)
  {
    if q :| q in parts && q.address < x < q.End() {
      var j :| 0 <= j < |parts| && parts[j] == q;
      forall p | p in parts ensures p.End() != x && p.address != x {
        var i :| 0 <= i < |parts| && parts[i] == p;
        assert i < j || i == j || j < i;
      }
    }
  }

  /** Of partitions that are not empty, overlapping or not, the gaps are right just when strays are out of the way. */
  lemma OverlapsAreReadIff(parts: seq<Part>, first: int, last: int)
    requires Inside(parts, first, last) && forall p :: p in parts ==> p.size > 0
    ensures Right(parts, first, last, Gaps(parts, first, last)) <==> StraysAbove(parts, first, last)
  {
    hide Right, StraysAbove, Gaps;
    GapsAreRightIff(parts, first, last);
  }

  /** Of partitions that are apart, empty or not, they are right just when no empty one is at an edge. */
  lemma EmptiesAreReadIff(parts: seq<Part>, first: int, last: int)
    requires Inside(parts, first, last) && Apart(parts)
    ensures Right(parts, first, last, Gaps(parts, first, last)) <==> NoEmptyEdge(parts, first, last)
  {
    hide Right, NoEmptyEdge, Gaps, StrayEnd, StrayStart;
    GapsAreRightIff(parts, first, last);
    forall x ensures !StrayEnd(parts, x) && !StrayStart(parts, x) {
      ApartHasNoStrays(parts, first, last, x);
    }
  }

  /** The layouts whose gaps are right. */
  ghost predicate Clear(parts: seq<Part>, first: int, last: int) {
    Inside(parts, first, last) && NoEmptyEdge(parts, first, last) && StraysAbove(parts, first, last)
  }

  /** Among them are all layouts of non-empty partitions that are apart. */
  lemma GapsAreFree(parts: seq<Part>, first: int, last: int)
    requires first <= last && Apart(parts) && forall p :: p in parts ==> first <= p.address < p.End() <= last
    ensures Clear(parts, first, last) && Right(parts, first, last, Gaps(parts, first, last))
  {
    hide Right, Gaps, StrayEnd, StrayStart;
    GapsAreRightIff(parts, first, last);
    forall x ensures !StrayEnd(parts, x) && !StrayStart(parts, x) {
      ApartHasNoStrays(parts, first, last, x);
    }
  }

  // A list of gaps is the one found just when it is right.
  lemma ClearGapsIff(parts: seq<Part>, first: int, last: int, gaps: seq<Gap>)
    requires Clear(parts, first, last)
    ensures Gaps(parts, first, last) == gaps <==> Right(parts, first, last, gaps)
  {
    hide Right, Gaps, NoEmptyEdge, StraysAbove;
    GapsAreRightIff(parts, first, last);
    RunsAreRight(parts, first, last, Gaps(parts, first, last));
    RunsAreRight(parts, first, last, gaps);
  }

  /** [a, b) is all that is free, and it is not empty. */
  ghost predicate OneGap(parts: seq<Part>, first: int, last: int, a: int, b: int) {
    && first <= a < b <= last
    && (forall x :: first <= x < last ==> (!Covered(parts, x) <==> a <= x < b))
  }

  // A single gap is recognised from the free bytes alone.
  lemma OneGapIff(parts: seq<Part>, first: int, last: int, a: int, b: int)
    requires Clear(parts, first, last)
    ensures OneGap(parts, first, last, a, b) <==> Gaps(parts, first, last) == [(a, b)]
  {
    hide Gaps, Clear;
    var gaps := [(a, b)];
    ClearGapsIff(parts, first, last, gaps);
    assert gaps[0] == (a, b);
    assert forall x :: InGap(gaps, x) <==> a <= x < b;
  }

  /**
   The dynamic partitions are given [a, a + n) just when that is all the space the static ones
   leave free; the configuration is refused just when the free space is not one interval, or a
   static partition has no size.
   */
  lemma DynamicAreaIsTheFreeSpace(config: seq<Entry>, base: int, size: int, dynamic: string, a: int, n: int)
    requires Clear(Sized(Proper(config, dynamic)), base, base + size)
    ensures DynamicArea(config, base, size, dynamic) == Some((a, n)) <==>
      && (forall e :: e in Proper(config, dynamic) ==> e.size.Some?)
      && OneGap(Sized(Proper(config, dynamic)), base, base + size, a, a + n)
  {
    hide Gaps, Sized, Proper, OneGap, Clear;
    OneGapIff(Sized(Proper(config, dynamic)), base, base + size, a, a + n);
  }

  /** Everything before t and nothing after it is taken, or the other way round. */
  ghost predicate PackedAt(parts: seq<Part>, first: int, last: int, atStart: bool, t: int) {
    && first <= t <= last
    && forall x :: first <= x < last ==> (Covered(parts, x) <==> (x < t) == atStart)
  }

  ghost predicate Packed(parts: seq<Part>, first: int, last: int, atStart: bool) {
    exists t :: PackedAt(parts, first, last, atStart, t)
  }

  // Packed at t means that the other side of t is the one gap, if there is any gap.
  lemma PackedAtIff(parts: seq<Part>, first: int, last: int, atStart: bool, t: int)
    requires Clear(parts, first, last) && first <= t <= last
    ensures PackedAt(parts, first, last, atStart, t) <==>
      var (a, b) := if atStart then (t, last) else (first, t);
      Gaps(parts, first, last) == if a < b then [(a, b)] else []
  {
    hide Gaps, Clear;
    var (a, b) := if atStart then (t, last) else (first, t);
    var gaps := if a < b then [(a, b)] else [];
    ClearGapsIff(parts, first, last, gaps);
    assert a < b ==> gaps[0] == (a, b);
    assert forall x :: InGap(gaps, x) <==> a <= x < b;
  }

  /** Static partitions of a simple region are accepted just when they are packed at its fixed side. */
  lemma PackedConfigIff(config: seq<Entry>, base: int, size: int, startToEnd: bool)
    requires Clear(Sized(config), base, base + size)
    ensures PackedConfig(config, base, size, startToEnd) <==> Packed(Sized(config), base, base + size, startToEnd)
  {
    hide Gaps, Covered, Sized, NoEmptyEdge, StraysAbove;
    var parts, last := Sized(config), base + size;
    var gaps := Gaps(parts, base, last);
    ClearGapsIff(parts, base, last, gaps);
    if PackedConfig(config, base, size, startToEnd) {
      var t := if gaps == [] then if startToEnd then last else base
               else if startToEnd then gaps[0].0 else gaps[0].1;
      PackedAtIff(parts, base, last, startToEnd, t);
    }
    if t :| PackedAt(parts, base, last, startToEnd, t) {
      PackedAtIff(parts, base, last, startToEnd, t);
    }
  }

  /** Two partitions that overlap, with nothing taken above them, are misread: a stray end and a
      stray start lie below the edges of the gap. */
  lemma OverlapIsMisread(p: Part, q: Part, last: int)
    requires p.address < q.address < p.End() < q.End() < last
    ensures !Right([p, q], p.address, last, Gaps([p, q], p.address, last))
  {
    hide Right, Gaps;
    var parts := [p, q];
    assert parts[0] in parts && parts[1] in parts;
    assert StrayEnd(parts, p.End()) && StrayStart(parts, q.address);
    OverlapsAreReadIff(parts, p.address, last);
  }

  /** A partition and an empty one right behind it, with a gap above them, are misread: the gap is hidden. */
  lemma EmptyPartIsMisread(p: Part, q: Part, last: int)
    requires p.size > 0 && q == Part(p.End(), 0) && p.End() < last
    ensures !Right([p, q], p.address, last, Gaps([p, q], p.address, last))
  {
    hide Right, Gaps;
    var parts := [p, q];
    assert parts[0] in parts && parts[1] in parts;
    assert Covered(parts, q.address - 1) && !Covered(parts, q.address);
    assert EmptyAt(parts, q.address) && LeftEdge(parts, p.address, last, q.address);
    GapsAreRightIff(parts, p.address, last);
  }
}
