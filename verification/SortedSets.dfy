/**
 Python's sorted() of a set of integers.
 */
module SortedSets {

  function Least(s: set<int>): (m: int)
    requires s != {}
    ensures m in s && forall x :: x in s ==> m <= x
  {
    LeastExists(s);
    var m :| m in s && forall x :: x in s ==> m <= x;
    m
  }

  lemma LeastExists(s: set<int>)
    requires s != {}
    ensures exists m :: m in s && forall x :: x in s ==> m <= x
  {
    var m := FindLeast(s);
  }

  lemma Inhabited(s: set<int>)
    ensures s == {} || exists x :: x in s
  {
    if forall x :: x !in s {
      assert s == {};
    }
  }

  lemma {:induction false} FindLeast(s: set<int>) returns (m: int)
    requires s != {}
    ensures m in s && forall x :: x in s ==> m <= x
    decreases |s|
  {
    Inhabited(s);
    m :| m in s;
    var rest := s - {m};
    assert s == rest + {m};
    if rest == {} {
      assert s == {m};
    } else {
      var other := FindLeast(rest);
      if other < m { m := other; }
    }
  }

  /** sorted() of a set. */
  function Sorted(s: set<int>): seq<int>
    decreases |s|
  {
    if s == {} then [] else [Least(s)] + Sorted(s - {Least(s)})
  }

  predicate Increasing(s: seq<int>) {
    forall i, j :: 0 <= i < j < |s| ==> s[i] < s[j]
  }

  // A strictly increasing sequence is the sorted list of its elements.
  lemma {:induction false} IncreasingIsSorted(s: seq<int>, elements: set<int>)
    requires Increasing(s) && forall x :: x in elements <==> x in s
    ensures Sorted(elements) == s
    decreases s
  {
    if s == [] {
      assert forall x :: x !in elements;
      assert elements == {};
    } else {
      assert s[0] in elements && Least(elements) == s[0];
      IncreasingIsSorted(s[1..], elements - {s[0]});
    }
  }

  lemma {:induction false} SortedIsIncreasing(s: set<int>)
    ensures Increasing(Sorted(s)) && |Sorted(s)| == |s|
    ensures forall x :: x in Sorted(s) <==> x in s
    decreases |s|
  {
    if s != {} {
      var m := Least(s);
      SortedIsIncreasing(s - {m});
      var rest := Sorted(s - {m});
      forall i | 0 <= i < |rest| ensures rest[i] > m {
        assert rest[i] in rest;
        assert rest[i] in s && rest[i] != m;
      }
      assert forall x :: x in s <==> x == m || x in s - {m};
    }
  }

  lemma JoinIncreasing(a: seq<int>, b: seq<int>)
    requires Increasing(a) && Increasing(b) && forall x, y :: x in a && y in b ==> x < y
    ensures Increasing(a + b)
  {
    forall i, j | 0 <= i < j < |a + b| ensures (a + b)[i] < (a + b)[j] {
      if i < |a| <= j {
        assert (a + b)[i] in a && (a + b)[j] in b;
      }
    }
  }

  /** Some elements come first in sorted order just when all others are greater. */
  lemma PrefixOfSortedIff(l: seq<int>, s: set<int>)
    requires Increasing(l)
    ensures l <= Sorted(s) <==>
      (forall x :: x in l ==> x in s) && forall x, e :: x in l && e in s && e !in l ==> x < e
  {
    SortedIsIncreasing(s);
    var a := Sorted(s);
    if l <= a {
      PrefixIsLeast(l, a);
    }
    if (forall x :: x in l ==> x in s) && forall x, e :: x in l && e in s && e !in l ==> x < e {
      var others := set e | e in s && e !in l;
      SortedIsIncreasing(others);
      JoinIncreasing(l, Sorted(others));
      IncreasingIsSorted(l + Sorted(others), s);
    }
  }

  lemma PrefixIsLeast(l: seq<int>, a: seq<int>)
    requires Increasing(a) && l <= a
    ensures forall x :: x in l ==> x in a
    ensures forall x, e :: x in l && e in a && e !in l ==> x < e
  {
    forall x, e | x in l && e in a && e !in l ensures x < e {
      var i :| 0 <= i < |l| && l[i] == x;
      var j :| 0 <= j < |a| && a[j] == e;
    }
  }

  /** And there are no others just when the numbers are the same. */
  lemma {:induction false} CountIff(l: seq<int>, s: set<int>)
    requires l <= Sorted(s)
    ensures |Sorted(s)| == |l| <==> forall e :: e in s ==> e in l
  {
    SortedIsIncreasing(s);
    var a := Sorted(s);
    if |a| == |l| {
      assert a == l;
    } else {
      var e := a[|l|];
      assert e in a;
      assert forall i :: 0 <= i < |l| ==> l[i] == a[i] < e;
    }
  }
}
