/**
 The order in which memory regions are solved: region_sort_key and sort_regions of
 nrf/scripts/partition_manager.py. A region depends on another when one of its partitions may take
 its size from a partition there.
 */
module PartitionRegions {
  import opened Wrappers

  type Name = string

  /** A partition: its region and the partitions it may share the size of. */
  datatype Partition = Partition(name: Name, region: Name, shareSize: seq<Name>)

  /** The configuration, in the order of the dictionary. */
  type Config = seq<Partition>

  /** The region of the partition of that name, if there is one. */
  function RegionOf(pm: Config, name: Name): (r: Option<Name>)
    ensures r.Some? ==> r.value in Regions(pm)
    ensures r.Some? ==> exists p :: p in pm && p.name == name && p.region == r.value
    ensures r.None? ==> forall p :: p in pm ==> p.name != name
  {
    if pm == [] then None else if pm[0].name == name then Some(pm[0].region) else RegionOf(pm[1..], name)
  }

  function Regions(pm: Config): set<Name> {
    set p | p in pm :: p.region
  }

  /** The other regions that the given candidates are in. */
  function Elsewhere(pm: Config, region: Name, candidates: seq<Name>): (r: seq<Name>)
    ensures forall x :: x in r ==> x in Regions(pm)
  {
    if candidates == [] then []
    else
      var at := RegionOf(pm, candidates[0]);
      (if at.Some? && at.value != region then [at.value] else []) + Elsewhere(pm, region, candidates[1..])
  }

  /** The regions that partitions of `region` depend on, as the loops come to them. */
  function Dependencies(pm: Config, region: Name, parts: Config): (r: seq<Name>)
    ensures forall x :: x in r ==> x in Regions(pm)
  {
    if parts == [] then []
    else
      (if parts[0].region == region then Elsewhere(pm, region, parts[0].shareSize) else []) + Dependencies(pm, region, parts[1..])
  }

  /** A dependency is a candidate of some partition of the region that lives in another region. */
  lemma {:induction false} DependencyMeans(pm: Config, region: Name, parts: Config, other: Name)
    ensures other in Dependencies(pm, region, parts) <==>
            other != region && exists p, c :: p in parts && p.region == region && c in p.shareSize && RegionOf(pm, c) == Some(other)
    decreases parts
  {
    if parts != [] {
      DependencyMeans(pm, region, parts[1..], other);
      ElsewhereMeans(pm, region, parts[0].shareSize, other);
      assert parts == [parts[0]] + parts[1..];
    }
  }

  lemma {:induction false} ElsewhereMeans(pm: Config, region: Name, candidates: seq<Name>, other: Name)
    ensures other in Elsewhere(pm, region, candidates) <==> other != region && exists c :: c in candidates && RegionOf(pm, c) == Some(other)
    decreases candidates
  {
    if candidates != [] {
      ElsewhereMeans(pm, region, candidates[1..], other);
      assert candidates == [candidates[0]] + candidates[1..];
    }
  }

  // ----- region_sort_key ------------------------------------------------------------------

  ghost function Left(pm: Config, used: seq<Name>): set<Name> {
    Regions(pm) - set x | x in used
  }

  /** region_sort_key: None where it raises. `used` is the path that led to the region. */
  function SortKey(pm: Config, region: Name, used: seq<Name>): Option<nat>
    decreases Left(pm, used) + ({region} - set x | x in used), 0, 0
  {
    if region in used then None
    else
      assert (set x | x in used + [region]) == (set x | x in used) + {region};
      KeyOver(pm, used + [region], Dependencies(pm, region, pm))
  }

  /** The loop over the dependencies: the largest of 1 and one more than each of their keys. */
  function KeyOver(pm: Config, used: seq<Name>, deps: seq<Name>): Option<nat>
    requires forall x :: x in deps ==> x in Regions(pm)
    decreases Left(pm, used), 1, |deps|
  {
    if deps == [] then Some(1)
    else
      assert {deps[0]} - (set x | x in used) <= Left(pm, used);
      var k := SortKey(pm, deps[0], used);
      var rest := KeyOver(pm, used, deps[1..]);
      if k.None? || rest.None? then None else Some(Max(1 + k.value, rest.value))
  }

  // ----- Walks ------------------------------------------------------------------------------

  predicate Edge(pm: Config, a: Name, b: Name) {
    b in Dependencies(pm, a, pm)
  }

  /** A walk along dependencies. */
  predicate Walk(pm: Config, w: seq<Name>) {
    w != [] && forall i :: 0 <= i < |w| - 1 ==> Edge(pm, w[i], w[i + 1])
  }

  predicate Repeats(w: seq<Name>) {
    exists i, j :: 0 <= i < j < |w| && w[i] == w[j]
  }

  predicate Meets(w: seq<Name>, used: seq<Name>) {
    exists i :: 0 <= i < |w| && w[i] in used
  }

  /** A walk from the region comes back to itself or to the path that led there. */
  ghost predicate Looping(pm: Config, region: Name, used: seq<Name>) {
    exists w :: Walk(pm, w) && w[0] == region && (Repeats(w) || Meets(w, used))
  }

  /** The longest walk from the region has k regions. */
  ghost predicate LongestWalk(pm: Config, region: Name, k: nat) {
    && (exists w :: Walk(pm, w) && w[0] == region && |w| == k)
    && (forall w :: Walk(pm, w) && w[0] == region ==> |w| <= k)
  }

  lemma WalkTail(pm: Config, w: seq<Name>)
    requires Walk(pm, w) && |w| > 1
    ensures Walk(pm, w[1..]) && Edge(pm, w[0], w[1])
  {
  }

  lemma WalkFrom(pm: Config, a: Name, w: seq<Name>)
    requires Walk(pm, w) && Edge(pm, a, w[0])
    ensures Walk(pm, [a] + w)
  {
  }

  // What the loop over dependencies computes.
  lemma {:induction false} KeyOverIsMax(pm: Config, used: seq<Name>, deps: seq<Name>)
    requires forall x :: x in deps ==> x in Regions(pm)
    ensures KeyOver(pm, used, deps).None? <==> exists d :: d in deps && SortKey(pm, d, used).None?
    ensures KeyOver(pm, used, deps).Some? ==>
              var k := KeyOver(pm, used, deps).value;
              && (forall d :: d in deps ==> SortKey(pm, d, used).Some? && 1 + SortKey(pm, d, used).value <= k)
              && (if deps == [] then k == 1 else exists d :: d in deps && SortKey(pm, d, used).Some? && k == 1 + SortKey(pm, d, used).value)
              && k >= 1
    decreases deps
  {
    if deps != [] {
      KeyOverIsMax(pm, used, deps[1..]);
      assert deps[0] in deps && forall d :: d in deps[1..] ==> d in deps;
    }
  }

  /** region_sort_key raises exactly when a dependency loop can be reached, and otherwise gives the
      length of the longest chain of dependencies, whatever path led to the region. */
  lemma {:induction false} SortKeyIsLongestWalk(pm: Config, region: Name, used: seq<Name>)
    ensures SortKey(pm, region, used).None? <==> Looping(pm, region, used)
    ensures SortKey(pm, region, used).Some? ==> LongestWalk(pm, region, SortKey(pm, region, used).value)
    decreases Left(pm, used) + ({region} - set x | x in used)
  {
    if region in used {
      assert [region][0] in used;
      assert Walk(pm, [region]) && Meets([region], used);
    } else {
      var deps, used' := Dependencies(pm, region, pm), used + [region];
      assert (set x | x in used') == (set x | x in used) + {region};
      KeyOverIsMax(pm, used', deps);
      forall d | d in deps
        ensures SortKey(pm, d, used').None? <==> Looping(pm, d, used')
        ensures SortKey(pm, d, used').Some? ==> LongestWalk(pm, d, SortKey(pm, d, used').value)
      {
        var here, there := Left(pm, used) + ({region} - set x | x in used), Left(pm, used') + ({d} - set x | x in used');
        assert there <= here && region in here && region !in there;
        SortKeyIsLongestWalk(pm, d, used');
      }
      LoopingStep(pm, region, used);
      if SortKey(pm, region, used).Some? {
        LongestStep(pm, region, used);
      }
    }
  }

  lemma LoopingStep(pm: Config, region: Name, used: seq<Name>)
    requires region !in used
    ensures Looping(pm, region, used) <==> exists d :: Edge(pm, region, d) && Looping(pm, d, used + [region])
  {
    if Looping(pm, region, used) {
      var w :| Walk(pm, w) && w[0] == region && (Repeats(w) || Meets(w, used));
      if |w| > 1 {
        WalkTail(pm, w);
        TailLoops(w, used);
        assert w[1..][0] == w[1] && Looping(pm, w[1], used + [region]);
      }
    }
    if d :| Edge(pm, region, d) && Looping(pm, d, used + [region]) {
      var w :| Walk(pm, w) && w[0] == d && (Repeats(w) || Meets(w, used + [region]));
      WalkFrom(pm, region, w);
      HeadLoops(region, w, used);
    }
  }

  lemma TailLoops(w: seq<Name>, used: seq<Name>)
    requires |w| > 1 && w[0] !in used && (Repeats(w) || Meets(w, used))
    ensures Repeats(w[1..]) || Meets(w[1..], used + [w[0]])
  {
  }

  lemma HeadLoops(region: Name, w: seq<Name>, used: seq<Name>)
    requires Repeats(w) || Meets(w, used + [region])
    ensures Repeats([region] + w) || Meets([region] + w, used)
  {
    var v := [region] + w;
    if Repeats(w) {
      var i, j :| 0 <= i < j < |w| && w[i] == w[j];
      assert v[i + 1] == v[j + 1];
    } else {
      var i :| 0 <= i < |w| && w[i] in used + [region];
      assert v[i + 1] == w[i] && v[0] == region;
      if w[i] in used {
        assert v[i + 1] in used;
      } else {
        assert v[0] == v[i + 1];
      }
    }
  }

  // The key of a region, in terms of the keys of its dependencies.
  lemma KeyStep(pm: Config, region: Name, used: seq<Name>) returns (k: nat)
    requires region !in used && SortKey(pm, region, used).Some?
    ensures k == SortKey(pm, region, used).value
    ensures forall d :: Edge(pm, region, d) ==> SortKey(pm, d, used + [region]).Some? && 1 + SortKey(pm, d, used + [region]).value <= k
    ensures k == 1 || exists d :: Edge(pm, region, d) && SortKey(pm, d, used + [region]).Some? && k == 1 + SortKey(pm, d, used + [region]).value
    ensures k >= 1
  {
    KeyOverIsMax(pm, used + [region], Dependencies(pm, region, pm));
    k := SortKey(pm, region, used).value;
  }

  lemma LongestStep(pm: Config, region: Name, used: seq<Name>)
    requires region !in used && SortKey(pm, region, used).Some?
    requires forall d :: Edge(pm, region, d) && SortKey(pm, d, used + [region]).Some? ==> LongestWalk(pm, d, SortKey(pm, d, used + [region]).value)
    ensures LongestWalk(pm, region, SortKey(pm, region, used).value)
  {
    hide SortKey, Edge;
    var used' := used + [region];
    var k := KeyStep(pm, region, used);
    if k == 1 {
      assert Walk(pm, [region]);
    } else {
      var d :| Edge(pm, region, d) && SortKey(pm, d, used').Some? && k == 1 + SortKey(pm, d, used').value;
      var w :| Walk(pm, w) && w[0] == d && |w| == k - 1;
      WalkFrom(pm, region, w);
      assert ([region] + w)[0] == region;
    }
    forall w | Walk(pm, w) && w[0] == region
      ensures |w| <= k
    {
      if |w| > 1 {
        WalkTail(pm, w);
        assert LongestWalk(pm, w[1], SortKey(pm, w[1], used').value);
        assert w[1..][0] == w[1];
      }
    }
  }

  /** The key does not depend on the path that led to the region. */
  lemma SortKeyIgnoresPath(pm: Config, region: Name, used: seq<Name>, used': seq<Name>)
    requires SortKey(pm, region, used).Some? && SortKey(pm, region, used').Some?
    ensures SortKey(pm, region, used) == SortKey(pm, region, used')
  {
    SortKeyIsLongestWalk(pm, region, used);
    SortKeyIsLongestWalk(pm, region, used');
  }

  // ----- sort_regions -------------------------------------------------------------------------

  function Key(pm: Config, region: Name): Option<nat> {
    SortKey(pm, region, [])
  }

  /** Puts a region behind all those with a key no larger, as a stable sort does. */
  function InsertByKey(pm: Config, region: Name, sorted: seq<Name>): (r: seq<Name>)
    requires Key(pm, region).Some? && forall x :: x in sorted ==> Key(pm, x).Some?
    ensures multiset(r) == multiset(sorted) + multiset{region}
    ensures forall x :: x in r ==> x == region || x in sorted
  {
    if sorted == [] then [region]
    else
      assert sorted == [sorted[0]] + sorted[1..];
      if Key(pm, region).value < Key(pm, sorted[0]).value then [region] + sorted
      else [sorted[0]] + InsertByKey(pm, region, sorted[1..])
  }

  /** sort_regions: None where a key raises. */
  function SortRegions(pm: Config, regions: seq<Name>): (r: Option<seq<Name>>)
    ensures r.Some? <==> forall x :: x in regions ==> Key(pm, x).Some?
    ensures r.Some? ==> multiset(r.value) == multiset(regions) && forall x :: x in r.value ==> x in regions
  {
    if regions == [] then Some([])
    else
      var n := |regions| - 1;
      assert regions == regions[..n] + [regions[n]];
      var r := SortRegions(pm, regions[..n]);
      if r.None? || Key(pm, regions[n]).None? then None else Some(InsertByKey(pm, regions[n], r.value))
  }

  ghost predicate SortedByKey(pm: Config, s: seq<Name>) {
    && (forall x :: x in s ==> Key(pm, x).Some?)
    && forall i, j :: 0 <= i < j < |s| ==> Key(pm, s[i]).value <= Key(pm, s[j]).value
  }

  lemma PrependKeepsSorted(pm: Config, region: Name, sorted: seq<Name>)
    requires Key(pm, region).Some? && SortedByKey(pm, sorted) && forall x :: x in sorted ==> Key(pm, region).value <= Key(pm, x).value
    ensures SortedByKey(pm, [region] + sorted)
  {
  }

  lemma {:induction false} InsertKeepsSorted(pm: Config, region: Name, sorted: seq<Name>)
    requires Key(pm, region).Some? && SortedByKey(pm, sorted)
    ensures SortedByKey(pm, InsertByKey(pm, region, sorted))
  {
    hide Key;
    if sorted != [] {
      var first, rest := sorted[0], sorted[1..];
      assert forall k :: 0 <= k < |rest| ==> rest[k] == sorted[k + 1];
      assert forall x :: x in rest ==> Key(pm, first).value <= Key(pm, x).value;
      if Key(pm, region).value >= Key(pm, first).value {
        InsertKeepsSorted(pm, region, rest);
        PrependKeepsSorted(pm, first, InsertByKey(pm, region, rest));
      } else {
        PrependKeepsSorted(pm, region, sorted);
      }
    }
  }

  lemma {:induction false} SortRegionsSorts(pm: Config, regions: seq<Name>)
    requires SortRegions(pm, regions).Some?
    ensures SortedByKey(pm, SortRegions(pm, regions).value)
  {
    hide Key;
    if regions != [] {
      var n := |regions| - 1;
      SortRegionsSorts(pm, regions[..n]);
      InsertKeepsSorted(pm, regions[n], SortRegions(pm, regions[..n]).value);
    }
  }

  /** The regions with a given key, in their order. */
  function WithKey(pm: Config, s: seq<Name>, k: nat): seq<Name> {
    if s == [] then [] else (if Key(pm, s[0]) == Some(k) then [s[0]] else []) + WithKey(pm, s[1..], k)
  }

  lemma {:induction false} WithKeyJoin(pm: Config, s: seq<Name>, t: seq<Name>, k: nat)
    ensures WithKey(pm, s + t, k) == WithKey(pm, s, k) + WithKey(pm, t, k)
    decreases s
  {
    hide Key;
    if s == [] {
      assert s + t == t;
    } else {
      assert (s + t)[1..] == s[1..] + t;
      WithKeyJoin(pm, s[1..], t, k);
    }
  }

  lemma {:induction false} NoneWithKey(pm: Config, s: seq<Name>, k: nat)
    requires forall x :: x in s ==> Key(pm, x) != Some(k)
    ensures WithKey(pm, s, k) == []
  {
    if s != [] {
      NoneWithKey(pm, s[1..], k);
    }
  }

  lemma SortedParts(pm: Config, sorted: seq<Name>)
    requires SortedByKey(pm, sorted) && sorted != []
    ensures SortedByKey(pm, sorted[1..]) && sorted == [sorted[0]] + sorted[1..]
    ensures forall x :: x in sorted ==> Key(pm, x).Some? && Key(pm, sorted[0]).value <= Key(pm, x).value
  {
    hide Key;
    assert forall i :: 0 <= i < |sorted[1..]| ==> sorted[1..][i] == sorted[i + 1];
  }

  lemma InsertParts(pm: Config, region: Name, sorted: seq<Name>)
    requires Key(pm, region).Some? && sorted != [] && forall x :: x in sorted ==> Key(pm, x).Some?
    ensures InsertByKey(pm, region, sorted) ==
      if Key(pm, region).value < Key(pm, sorted[0]).value then [region] + sorted
      else [sorted[0]] + InsertByKey(pm, region, sorted[1..])
  {
    hide Key;
  }

  // A region goes behind the others with its key.
  lemma {:induction false} InsertIsStable(pm: Config, region: Name, sorted: seq<Name>, k: nat)
    requires Key(pm, region).Some? && SortedByKey(pm, sorted) && forall x :: x in sorted ==> Key(pm, x).Some?
    ensures WithKey(pm, InsertByKey(pm, region, sorted), k) == WithKey(pm, sorted, k) + WithKey(pm, [region], k)
    decreases sorted
  {
    if sorted == [] {
      assert [] + WithKey(pm, [region], k) == WithKey(pm, [region], k);
    } else {
      hide Key, WithKey, SortedByKey, InsertByKey;
      var first, rest := [sorted[0]], sorted[1..];
      SortedParts(pm, sorted);
      InsertParts(pm, region, sorted);
      if Key(pm, region).value < Key(pm, sorted[0]).value {
        WithKeyJoin(pm, [region], sorted, k);
        NoneWithKey(pm, if Key(pm, region) == Some(k) then sorted else [region], k);
      } else {
        InsertIsStable(pm, region, rest, k);
        WithKeyJoin(pm, first, InsertByKey(pm, region, rest), k);
        WithKeyJoin(pm, first, rest, k);
        Assoc(WithKey(pm, first, k), WithKey(pm, rest, k), WithKey(pm, [region], k));
      }
    }
  }

  /** Regions with the same key stay in their order, as sorted() promises. */
  lemma {:induction false} SortRegionsIsStable(pm: Config, regions: seq<Name>, k: nat)
    requires SortRegions(pm, regions).Some?
    ensures WithKey(pm, SortRegions(pm, regions).value, k) == WithKey(pm, regions, k)
    decreases |regions|
  {
    hide Key, InsertByKey;
    if regions != [] {
      var n := |regions| - 1;
      assert regions == regions[..n] + [regions[n]];
      SortRegionsSorts(pm, regions[..n]);
      SortRegionsIsStable(pm, regions[..n], k);
      InsertIsStable(pm, regions[n], SortRegions(pm, regions[..n]).value, k);
      WithKeyJoin(pm, regions[..n], [regions[n]], k);
    }
  }

  lemma EdgeRaisesKey(pm: Config, a: Name, b: Name)
    requires Edge(pm, a, b) && Key(pm, a).Some? && Key(pm, b).Some?
    ensures Key(pm, b).value < Key(pm, a).value
  {
    hide SortKey, Edge;
    SortKeyIsLongestWalk(pm, a, []);
    SortKeyIsLongestWalk(pm, b, []);
    var w :| Walk(pm, w) && w[0] == b && |w| == Key(pm, b).value;
    WalkFrom(pm, a, w);
    assert ([a] + w)[0] == a;
  }

  /** Every region is solved after the regions it takes sizes from. */
  lemma DependenciesComeFirst(pm: Config, regions: seq<Name>, i: nat, j: nat)
    requires SortRegions(pm, regions).Some?
    requires var s := SortRegions(pm, regions).value; i < |s| && j < |s| && Edge(pm, s[i], s[j])
    ensures j < i
  {
    hide Key, SortRegions, Edge;
    var s := SortRegions(pm, regions).value;
    SortRegionsSorts(pm, regions);
    EdgeRaisesKey(pm, s[i], s[j]);
  }
}
