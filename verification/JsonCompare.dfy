/**
 cJSON_Compare and cJSON_Duplicate of nrf/ext/iperf3/cjson.c. Comparing two trees looks members up by
 name, in both directions; on trees with distinct names this is equality up to the order of
 members. On all trees it is symmetric and transitive, and it is reflexive exactly where members
 of the same name agree. Numbers are compared exactly.
 */
module JsonCompare {
  import opened Bytes
  import opened JsonText

  // ----- Names ------------------------------------------------------------------------------

  function Lower(b: byte): byte {
    if 65 <= b <= 90 then b + 32 else b
  }

  /** strcmp, or case_insensitive_strcmp, finds no difference. */
  predicate SameName(caseSensitive: bool, a: bytes, b: bytes) {
    |a| == |b| && forall i :: 0 <= i < |a| ==> if caseSensitive then a[i] == b[i] else Lower(a[i]) == Lower(b[i])
  }

  /** The same letter, once as a capital and once not. */
  predicate OnlyCaseDiffers(x: byte, y: byte) {
    || ('A' as int <= x as int <= 'Z' as int && y as int - x as int == 'a' as int - 'A' as int)
    || ('A' as int <= y as int <= 'Z' as int && x as int - y as int == 'a' as int - 'A' as int)
  }

  /** Names are the same if they are equal or, where case does not count, differ only in the case of letters. */
  lemma SameNameIff(a: bytes, b: bytes)
    ensures SameName(true, a, b) <==> a == b
    ensures SameName(false, a, b) <==>
      |a| == |b| && forall i :: 0 <= i < |a| ==> a[i] == b[i] || OnlyCaseDiffers(a[i], b[i])
  {
    assert forall x, y :: Lower(x) == Lower(y) <==> x == y || OnlyCaseDiffers(x, y);
  }

  /** get_object_item: the first member of that name, or the number of members. */
  function Find(cs: bool, members: seq<Member>, name: bytes): (i: nat)
    ensures i <= |members| && (i < |members| ==> SameName(cs, name, members[i].key))
    ensures forall k :: 0 <= k < i ==> !SameName(cs, name, members[k].key)
  {
    if members == [] || SameName(cs, name, members[0].key) then 0
    else
      var i := 1 + Find(cs, members[1..], name);
      assert forall k :: 0 < k < i ==> members[k] == members[1..][k - 1];
      i
  }

  // ----- Comparing ----------------------------------------------------------------------------

  lemma {:induction false} PartsAreShallower(items: seq<Json>, members: seq<Member>)
    ensures forall i :: 0 <= i < |items| ==> Nesting(items[i]) <= ItemsNesting(items)
    ensures forall i :: 0 <= i < |members| ==> Nesting(members[i].value) <= MembersNesting(members)
    decreases |items| + |members|
  {
    if items != [] {
      PartsAreShallower(items[1..], []);
      assert forall i :: 0 < i < |items| ==> items[i] == items[1..][i - 1];
    }
    if members != [] {
      PartsAreShallower([], members[1..]);
      assert forall i :: 0 < i < |members| ==> members[i] == members[1..][i - 1];
    }
  }

  /** cJSON_Compare on two separate trees. */
  predicate Compare(cs: bool, a: Json, b: Json)
    decreases Nesting(a) + Nesting(b), 1
  {
    match (a, b)
    case (Null, Null) => true
    case (False, False) => true
    case (True, True) => true
    case (Number(m), Number(n)) => m == n
    case (String(s), String(t)) => s == t
    case (Raw(s), Raw(t)) => s == t
    case (Array(xs), Array(ys)) =>
      PartsAreShallower(xs, []);
      PartsAreShallower(ys, []);
      |xs| == |ys| && forall i :: 0 <= i < |xs| ==> Compare(cs, xs[i], ys[i])
    case (Object(xs), Object(ys)) => Covers(cs, xs, ys) && Covers(cs, ys, xs)
    case _ => false
  }

  /** One of the two loops over members: each is found by name and compares equal. */
  predicate Covers(cs: bool, xs: seq<Member>, ys: seq<Member>)
    decreases 2 + MembersNesting(xs) + MembersNesting(ys), 0
  {
    PartsAreShallower([], xs);
    PartsAreShallower([], ys);
    forall i :: 0 <= i < |xs| ==>
      var j := Find(cs, ys, xs[i].key);
      j < |ys| && Compare(cs, xs[i].value, ys[j].value)
  }

  // ----- Equality up to the order of members ---------------------------------------------------

  /** p rearranges the numbers below n. */
  predicate IsPermutation(p: seq<nat>, n: nat) {
    && |p| == n
    && (forall i :: 0 <= i < n ==> p[i] < n)
    && (forall i, j :: 0 <= i < j < n ==> p[i] != p[j])
  }

  /** Equal up to the order of members and, if so wanted, the case of their names. */
  ghost predicate Same(cs: bool, a: Json, b: Json)
    decreases Nesting(a), 1
  {
    match (a, b)
    case (Array(xs), Array(ys)) =>
      PartsAreShallower(xs, []);
      |xs| == |ys| && forall i :: 0 <= i < |xs| ==> Same(cs, xs[i], ys[i])
    case (Object(xs), Object(ys)) => exists p: seq<nat> :: Matches(cs, xs, ys, p)
    case _ => a == b
  }

  /** Under p each member has a partner of the same name and the same value. */
  ghost predicate Matches(cs: bool, xs: seq<Member>, ys: seq<Member>, p: seq<nat>)
    decreases 1 + MembersNesting(xs), 0
  {
    PartsAreShallower([], xs);
    && |xs| == |ys| && IsPermutation(p, |xs|)
    && forall i :: 0 <= i < |xs| ==> SameName(cs, xs[i].key, ys[p[i]].key) && Same(cs, xs[i].value, ys[p[i]].value)
  }

  /** In every object of the tree no two members have the same name. */
  predicate DistinctNames(cs: bool, v: Json)
    decreases Nesting(v)
  {
    match v
    case Array(xs) =>
      PartsAreShallower(xs, []);
      forall i :: 0 <= i < |xs| ==> DistinctNames(cs, xs[i])
    case Object(xs) =>
      PartsAreShallower([], xs);
      && (forall i, j :: 0 <= i < j < |xs| ==> !SameName(cs, xs[i].key, xs[j].key))
      && (forall i :: 0 <= i < |xs| ==> DistinctNames(cs, xs[i].value))
    case _ => true
  }

  // ----- Permutations -----------------------------------------------------------------------------

  function Below(n: nat): (s: set<nat>)
    ensures |s| == n && forall k: nat :: k in s <==> k < n
  {
    if n == 0 then {} else Below(n - 1) + {n - 1}
  }

  lemma {:induction false} DistinctCount(p: seq<nat>) returns (s: set<nat>)
    requires forall i, j :: 0 <= i < j < |p| ==> p[i] != p[j]
    ensures |s| == |p| && forall k :: k in s <==> k in p
  {
    if p == [] {
      s := {};
    } else {
      var q := p[1..];
      s := DistinctCount(q);
      assert p[0] !in q && forall k :: k in p <==> k == p[0] || k in q;
      s := s + {p[0]};
    }
  }

  lemma Pigeonhole(p: seq<nat>, n: nat)
    requires (forall i :: 0 <= i < |p| ==> p[i] < n) && forall i, j :: 0 <= i < j < |p| ==> p[i] != p[j]
    ensures |p| <= n
    ensures |p| == n ==> forall k :: 0 <= k < n ==> k in p
  {
    var s := DistinctCount(p);
    var t := Below(n);
    assert t == s + (t - s);
    assert |t| == |s| + |t - s|;
  }

  lemma {:induction false} InversePermutation(p: seq<nat>, n: nat) returns (q: seq<nat>)
    requires IsPermutation(p, n)
    ensures IsPermutation(q, n) && forall j :: 0 <= j < n ==> p[q[j]] == j
  {
    Pigeonhole(p, n);
    q := seq(n, j requires 0 <= j < n => IndexIn(p, j));
  }

  function IndexIn(p: seq<nat>, k: nat): (i: nat)
    requires k in p
    ensures i < |p| && p[i] == k
  {
    if p[0] == k then 0 else 1 + IndexIn(p[1..], k)
  }

  lemma {:induction false} SameIsSymmetric(cs: bool, a: Json, b: Json)
    requires Same(cs, a, b)
    ensures Same(cs, b, a)
    decreases Nesting(a)
  {
    match a
    case Array(xs) =>
      PartsAreShallower(xs, []);
      forall i | 0 <= i < |xs| {
        SameIsSymmetric(cs, xs[i], b.items[i]);
      }
    case Object(xs) =>
      PartsAreShallower([], xs);
      var ys := b.members;
      var p :| Matches(cs, xs, ys, p);
      var q := InversePermutation(p, |xs|);
      forall j | 0 <= j < |ys|
        ensures SameName(cs, ys[j].key, xs[q[j]].key) && Same(cs, ys[j].value, xs[q[j]].value)
      {
        SameIsSymmetric(cs, xs[q[j]].value, ys[j].value);
      }
      assert Matches(cs, ys, xs, q);
    case _ =>
  }

  // ----- Compare decides it ---------------------------------------------------------------------------

  // With distinct names there is only one member of a name.
  lemma FindIsUnique(cs: bool, ys: seq<Member>, name: bytes, j: nat)
    requires forall i, k :: 0 <= i < k < |ys| ==> !SameName(cs, ys[i].key, ys[k].key)
    requires j < |ys| && SameName(cs, name, ys[j].key)
    ensures Find(cs, ys, name) == j
  {
  }

  /** On trees with distinct names, cJSON_Compare holds exactly when the trees are equal up to the
      order of members. */
  lemma {:induction false} CompareIffSame(cs: bool, a: Json, b: Json)
    requires DistinctNames(cs, a) && DistinctNames(cs, b)
    ensures Compare(cs, a, b) <==> Same(cs, a, b)
    decreases Nesting(a) + Nesting(b)
  {
    if a.Array? && b.Array? {
      PartsAreShallower(a.items, []);
      PartsAreShallower(b.items, []);
      if |a.items| == |b.items| {
        forall i | 0 <= i < |a.items| {
          CompareIffSame(cs, a.items[i], b.items[i]);
        }
      }
    } else if a.Object? && b.Object? {
      if Compare(cs, a, b) {
        ComparedObjectsMatch(cs, a.members, b.members);
      }
      if Same(cs, a, b) {
        MatchedObjectsCompare(cs, a.members, b.members);
      }
    }
  }

  // The lookups of one loop are an injection.
  lemma CoversInjects(cs: bool, xs: seq<Member>, ys: seq<Member>) returns (p: seq<nat>)
    requires (forall i, j :: 0 <= i < j < |xs| ==> !SameName(cs, xs[i].key, xs[j].key)) && Covers(cs, xs, ys)
    ensures |xs| == |p| <= |ys|
    ensures forall i :: 0 <= i < |xs| ==> p[i] < |ys| && SameName(cs, xs[i].key, ys[p[i]].key) && Compare(cs, xs[i].value, ys[p[i]].value)
    ensures forall i, j :: 0 <= i < j < |xs| ==> p[i] != p[j]
  {
    hide Compare;
    p := seq(|xs|, i requires 0 <= i < |xs| => Find(cs, ys, xs[i].key));
    FindsAreDistinct(cs, xs, ys, p);
    Pigeonhole(p, |ys|);
  }

  lemma FindsAreDistinct(cs: bool, xs: seq<Member>, ys: seq<Member>, p: seq<nat>)
    requires forall i, j :: 0 <= i < j < |xs| ==> !SameName(cs, xs[i].key, xs[j].key)
    requires |p| == |xs| && forall i :: 0 <= i < |xs| ==> p[i] == Find(cs, ys, xs[i].key) < |ys|
    ensures forall i, j :: 0 <= i < j < |p| ==> p[i] != p[j]
  {
  }

  lemma {:induction false} ComparedObjectsMatch(cs: bool, xs: seq<Member>, ys: seq<Member>)
    requires DistinctNames(cs, Object(xs)) && DistinctNames(cs, Object(ys)) && Covers(cs, xs, ys) && Covers(cs, ys, xs)
    ensures Same(cs, Object(xs), Object(ys))
    decreases Nesting(Object(xs)) + Nesting(Object(ys)), 0
  {
    hide Compare, Same, Covers, SameName;
    PartsAreShallower([], xs);
    PartsAreShallower([], ys);
    var p := CoversInjects(cs, xs, ys);
    var q := CoversInjects(cs, ys, xs);
    forall i | 0 <= i < |xs|
      ensures Same(cs, xs[i].value, ys[p[i]].value)
    {
      CompareIffSame(cs, xs[i].value, ys[p[i]].value);
    }
    assert Matches(cs, xs, ys, p);
    MatchedIsSame(cs, xs, ys, p);
  }

  lemma MatchedIsSame(cs: bool, xs: seq<Member>, ys: seq<Member>, p: seq<nat>)
    requires Matches(cs, xs, ys, p)
    ensures Same(cs, Object(xs), Object(ys))
  {
  }

  lemma {:induction false} MatchedObjectsCompare(cs: bool, xs: seq<Member>, ys: seq<Member>)
    requires DistinctNames(cs, Object(xs)) && DistinctNames(cs, Object(ys)) && Same(cs, Object(xs), Object(ys))
    ensures Covers(cs, xs, ys) && Covers(cs, ys, xs)
    decreases Nesting(Object(xs)) + Nesting(Object(ys)), 1
  {
    hide Matches, Covers, DistinctNames;
    SameIsSymmetric(cs, Object(xs), Object(ys));
    var p :| Matches(cs, xs, ys, p);
    var q :| Matches(cs, ys, xs, q);
    MatchedCovers(cs, xs, ys, p);
    MatchedCovers(cs, ys, xs, q);
  }

  lemma {:induction false} MatchedCovers(cs: bool, xs: seq<Member>, ys: seq<Member>, p: seq<nat>)
    requires DistinctNames(cs, Object(xs)) && DistinctNames(cs, Object(ys)) && Matches(cs, xs, ys, p)
    ensures Covers(cs, xs, ys)
    decreases Nesting(Object(xs)) + Nesting(Object(ys)), 0
  {
    hide Compare, Same, SameName;
    PartsAreShallower([], xs);
    PartsAreShallower([], ys);
    forall i | 0 <= i < |xs|
      ensures var j := Find(cs, ys, xs[i].key); j < |ys| && Compare(cs, xs[i].value, ys[j].value)
    {
      FindIsUnique(cs, ys, xs[i].key, p[i]);
      CompareIffSame(cs, xs[i].value, ys[p[i]].value);
    }
  }

  // ----- Compare is nearly an equivalence -------------------------------------------------------

  /** cJSON_Compare is symmetric, on all trees. */
  lemma {:induction false} CompareIsSymmetric(cs: bool, a: Json, b: Json)
    ensures Compare(cs, a, b) <==> Compare(cs, b, a)
    decreases Nesting(a) + Nesting(b)
  {
    if a.Array? && b.Array? {
      PartsAreShallower(a.items, []);
      PartsAreShallower(b.items, []);
      if |a.items| == |b.items| {
        forall i | 0 <= i < |a.items| {
          CompareIsSymmetric(cs, a.items[i], b.items[i]);
        }
      }
    }
  }

  // Names that are the same find the same member.
  lemma FindSame(cs: bool, members: seq<Member>, a: bytes, b: bytes)
    requires SameName(cs, a, b)
    ensures Find(cs, members, a) == Find(cs, members, b)
  {
  }

  /** It is transitive, on all trees. */
  lemma {:induction false} CompareIsTransitive(cs: bool, a: Json, b: Json, c: Json)
    requires Compare(cs, a, b) && Compare(cs, b, c)
    ensures Compare(cs, a, c)
    decreases Nesting(a) + Nesting(b) + Nesting(c), 1
  {
    if a.Array? {
      PartsAreShallower(a.items, []);
      PartsAreShallower(b.items, []);
      PartsAreShallower(c.items, []);
      forall i | 0 <= i < |a.items| {
        CompareIsTransitive(cs, a.items[i], b.items[i], c.items[i]);
      }
    } else if a.Object? {
      CoversIsTransitive(cs, a.members, b.members, c.members);
      CoversIsTransitive(cs, c.members, b.members, a.members);
    }
  }

  lemma {:induction false} CoversIsTransitive(cs: bool, xs: seq<Member>, ys: seq<Member>, zs: seq<Member>)
    requires Covers(cs, xs, ys) && Covers(cs, ys, zs)
    ensures Covers(cs, xs, zs)
    decreases 3 + MembersNesting(xs) + MembersNesting(ys) + MembersNesting(zs), 0
  {
    hide Compare, SameName;
    PartsAreShallower([], xs);
    PartsAreShallower([], ys);
    PartsAreShallower([], zs);
    forall i | 0 <= i < |xs|
      ensures var k := Find(cs, zs, xs[i].key); k < |zs| && Compare(cs, xs[i].value, zs[k].value)
    {
      var j := Find(cs, ys, xs[i].key);
      var k := Find(cs, zs, ys[j].key);
      FindSame(cs, zs, xs[i].key, ys[j].key);
      CompareIsTransitive(cs, xs[i].value, ys[j].value, zs[k].value);
    }
  }

  predicate AgreeHere(cs: bool, xs: seq<Member>) {
    forall i, j :: 0 <= i < j < |xs| && SameName(cs, xs[i].key, xs[j].key) ==> Compare(cs, xs[i].value, xs[j].value)
  }

  /** In every object of the tree, members of the same name have values that compare equal. */
  predicate NamesakesAgree(cs: bool, v: Json)
    decreases Nesting(v)
  {
    match v
    case Array(xs) =>
      PartsAreShallower(xs, []);
      forall i :: 0 <= i < |xs| ==> NamesakesAgree(cs, xs[i])
    case Object(xs) =>
      PartsAreShallower([], xs);
      AgreeHere(cs, xs) && forall i :: 0 <= i < |xs| ==> NamesakesAgree(cs, xs[i].value)
    case _ => true
  }

  /** It is reflexive, on a tree and a copy of it, exactly where namesakes agree. */
  lemma {:induction false} CompareIsReflexiveIff(cs: bool, v: Json)
    ensures Compare(cs, v, v) <==> NamesakesAgree(cs, v)
    decreases Nesting(v)
  {
    match v
    case Array(xs) =>
      PartsAreShallower(xs, []);
      forall i | 0 <= i < |xs| {
        CompareIsReflexiveIff(cs, xs[i]);
      }
    case Object(xs) =>
      PartsAreShallower([], xs);
      forall i | 0 <= i < |xs| {
        CompareIsReflexiveIff(cs, xs[i].value);
      }
      CoversSelfIff(cs, xs);
      hide Covers, AgreeHere, Find;
      assert Compare(cs, v, v) <==> Covers(cs, xs, xs);
    case _ =>
  }

  lemma CoversSelfIff(cs: bool, xs: seq<Member>)
    ensures Covers(cs, xs, xs) <==> AgreeHere(cs, xs) && forall i :: 0 <= i < |xs| ==> Compare(cs, xs[i].value, xs[i].value)
  {
    hide Compare, SameName, AgreeHere, Covers;
    if Covers(cs, xs, xs) {
      CoveredNamesakesAgree(cs, xs);
    }
    if AgreeHere(cs, xs) && forall i :: 0 <= i < |xs| ==> Compare(cs, xs[i].value, xs[i].value) {
      AgreeingNamesakesCover(cs, xs);
    }
  }

  lemma NameIsReflexive(cs: bool, a: bytes)
    ensures SameName(cs, a, a)
  {
  }

  lemma NameIsSymmetric(cs: bool, a: bytes, b: bytes)
    requires SameName(cs, a, b)
    ensures SameName(cs, b, a)
  {
  }

  lemma CoveredNamesakesAgree(cs: bool, xs: seq<Member>)
    requires Covers(cs, xs, xs)
    ensures AgreeHere(cs, xs) && forall i :: 0 <= i < |xs| ==> Compare(cs, xs[i].value, xs[i].value)
  {
    hide Compare, SameName;
    forall i, j | 0 <= i <= j < |xs| && SameName(cs, xs[i].key, xs[j].key)
      ensures Compare(cs, xs[i].value, xs[j].value)
    {
      var f := Find(cs, xs, xs[i].key);
      FindSame(cs, xs, xs[i].key, xs[j].key);
      CompareIsSymmetric(cs, xs[j].value, xs[f].value);
      CompareIsTransitive(cs, xs[i].value, xs[f].value, xs[j].value);
    }
    forall i | 0 <= i < |xs| {
      NameIsReflexive(cs, xs[i].key);
    }
  }

  lemma AgreeingNamesakesCover(cs: bool, xs: seq<Member>)
    requires AgreeHere(cs, xs) && forall i :: 0 <= i < |xs| ==> Compare(cs, xs[i].value, xs[i].value)
    ensures Covers(cs, xs, xs)
  {
    hide Compare, SameName;
    forall i | 0 <= i < |xs|
      ensures var j := Find(cs, xs, xs[i].key); j < |xs| && Compare(cs, xs[i].value, xs[j].value)
    {
      var j := Find(cs, xs, xs[i].key);
      NameIsReflexive(cs, xs[i].key);
      if j < i {
        NameIsSymmetric(cs, xs[i].key, xs[j].key);
        CompareIsSymmetric(cs, xs[j].value, xs[i].value);
      }
    }
  }

  // ----- Duplicating ------------------------------------------------------------------------------------

  /** cJSON_Duplicate with recursion, when no allocation fails: a new node for every old one. */
  function Duplicate(v: Json): Json
    decreases v, 1
  {
    match v
    case Null => Null
    case False => False
    case True => True
    case Number(n) => Number(n)
    case String(s) => String(CString(s))
    case Raw(t) => Raw(CString(t))
    case Array(items) => Array(DuplicateItems(items))
    case Object(members) => Object(DuplicateMembers(members))
  }

  function DuplicateItems(items: seq<Json>): seq<Json>
    decreases items, 0
  {
    if items == [] then [] else [Duplicate(items[0])] + DuplicateItems(items[1..])
  }

  function DuplicateMembers(members: seq<Member>): seq<Member>
    decreases members, 0
  {
    if members == [] then []
    else [Member(CString(members[0].key), Duplicate(members[0].value))] + DuplicateMembers(members[1..])
  }

  /** A tree that C can hold: no string, name or raw text has a NUL inside. */
  predicate NulFree(v: Json)
    decreases v, 1
  {
    match v
    case String(s) => NoNul(s)
    case Raw(t) => NoNul(t)
    case Array(items) => AllNulFree(items)
    case Object(members) => MembersNulFree(members)
    case _ => true
  }

  predicate AllNulFree(items: seq<Json>)
    decreases items, 0
  {
    items == [] || (NulFree(items[0]) && AllNulFree(items[1..]))
  }

  predicate MembersNulFree(members: seq<Member>)
    decreases members, 0
  {
    members == [] || (NoNul(members[0].key) && NulFree(members[0].value) && MembersNulFree(members[1..]))
  }

  lemma {:induction false} DuplicateIsEqual(v: Json)
    requires NulFree(v)
    ensures Duplicate(v) == v
    decreases v, 1
  {
    match v
    case String(s) =>
      CStringIsWhole(s);
    case Raw(t) =>
      CStringIsWhole(t);
    case Array(items) =>
      DuplicateItemsAreEqual(items);
    case Object(members) =>
      DuplicateMembersAreEqual(members);
    case _ =>
  }

  lemma {:induction false} DuplicateItemsAreEqual(items: seq<Json>)
    requires AllNulFree(items)
    ensures DuplicateItems(items) == items
    decreases items, 0
  {
    if items != [] {
      DuplicateIsEqual(items[0]);
      DuplicateItemsAreEqual(items[1..]);
    }
  }

  lemma {:induction false} DuplicateMembersAreEqual(members: seq<Member>)
    requires MembersNulFree(members)
    ensures DuplicateMembers(members) == members
    decreases members, 0
  {
    if members != [] {
      CStringIsWhole(members[0].key);
      DuplicateIsEqual(members[0].value);
      DuplicateMembersAreEqual(members[1..]);
    }
  }

  /** A duplicate compares equal to its original, in either case mode, exactly where namesakes agree. */
  lemma DuplicateComparesEqualIff(cs: bool, v: Json)
    requires NulFree(v)
    ensures Compare(cs, v, Duplicate(v)) <==> NamesakesAgree(cs, v)
  {
    DuplicateIsEqual(v);
    CompareIsReflexiveIff(cs, v);
  }

  /** They always agree where names are distinct, but need not where one is repeated. */
  lemma {:induction false} DistinctNamesAgree(cs: bool, v: Json)
    requires DistinctNames(cs, v)
    ensures NamesakesAgree(cs, v)
    decreases Nesting(v)
  {
    match v
    case Array(xs) =>
      PartsAreShallower(xs, []);
      forall i | 0 <= i < |xs| {
        DistinctNamesAgree(cs, xs[i]);
      }
    case Object(xs) =>
      PartsAreShallower([], xs);
      forall i | 0 <= i < |xs| {
        DistinctNamesAgree(cs, xs[i].value);
      }
    case _ =>
  }

  lemma NamesakesCompareUnequal(cs: bool, name: bytes)
    requires NoNul(name)
    ensures var v := Object([Member(name, True), Member(name, False)]); !Compare(cs, v, Duplicate(v))
  {
    var ms := [Member(name, True), Member(name, False)];
    var last := [Member(name, False)];
    assert ms[1..] == last && MembersNulFree(last[1..]) && MembersNulFree(last);
    assert SameName(cs, ms[0].key, ms[1].key) && !Compare(cs, ms[0].value, ms[1].value);
    DuplicateComparesEqualIff(cs, Object(ms));
  }
}
