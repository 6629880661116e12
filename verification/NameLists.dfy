/**
 Lists of names without repetitions, and what Python's index, insert and remove do to them.
 */
module NameLists {

  predicate Distinct(s: seq<string>) {
    forall i, j :: 0 <= i < j < |s| ==> s[i] != s[j]
  }

  /** list.index. */
  function IndexOf(s: seq<string>, x: string): (i: nat)
    requires x in s
    ensures i < |s| && s[i] == x && forall j :: 0 <= j < i ==> s[j] != x
  {
    if s[0] == x then 0 else IndexOf(s[1..], x) + 1
  }

  /** list.insert. */
  function InsertAt(s: seq<string>, k: nat, x: string): seq<string>
    requires k <= |s|
  {
    s[..k] + [x] + s[k..]
  }

  /** list.remove, of a name that is there. */
  function Remove(s: seq<string>, x: string): seq<string>
    requires x in s
  {
    s[..IndexOf(s, x)] + s[IndexOf(s, x) + 1..]
  }

  predicate Precedes(s: seq<string>, a: string, b: string) {
    a in s && b in s && IndexOf(s, a) < IndexOf(s, b)
  }

  lemma IndexIsOnly(s: seq<string>, i: nat)
    requires Distinct(s) && i < |s|
    ensures IndexOf(s, s[i]) == i
  {
  }

  lemma EarlierPrecedes(s: seq<string>, i: nat, j: nat)
    requires Distinct(s) && i < j < |s|
    ensures Precedes(s, s[i], s[j])
  {
    IndexIsOnly(s, i);
    IndexIsOnly(s, j);
  }

  lemma DistinctJoin(s: seq<string>, t: seq<string>)
    requires Distinct(s) && Distinct(t) && forall x :: x in s ==> x !in t
    ensures Distinct(s + t)
  {
    forall i, j | 0 <= i < j < |s + t| ensures (s + t)[i] != (s + t)[j] {
      if i < |s| <= j {
        assert (s + t)[i] in s && (s + t)[j] in t;
      }
    }
  }

  lemma InsertAdds(s: seq<string>, k: nat, x: string)
    requires Distinct(s) && k <= |s| && x !in s
    ensures Distinct(InsertAt(s, k, x))
    ensures forall y :: y in InsertAt(s, k, x) <==> y == x || y in s
  {
  }

  lemma InsertShifts(s: seq<string>, k: nat, x: string, y: string)
    requires Distinct(s) && k <= |s| && x !in s && (y == x || y in s)
    ensures y in InsertAt(s, k, x)
    ensures IndexOf(InsertAt(s, k, x), y) ==
      if y == x then k else if IndexOf(s, y) < k then IndexOf(s, y) else IndexOf(s, y) + 1
  {
  }

  // Two names keep their order when another one is put in.
  lemma InsertKeepsOrder(s: seq<string>, k: nat, x: string, a: string, b: string)
    requires Distinct(s) && k <= |s| && x !in s && Precedes(s, a, b)
    ensures Precedes(InsertAt(s, k, x), a, b)
  {
    InsertShifts(s, k, x, a);
    InsertShifts(s, k, x, b);
  }

  lemma RemoveTakesOne(s: seq<string>, x: string)
    requires Distinct(s) && x in s
    ensures Distinct(Remove(s, x)) && |Remove(s, x)| == |s| - 1
    ensures forall y :: y in Remove(s, x) <==> y in s && y != x
  {
  }

  lemma RemoveBehind(y: string, s: seq<string>, x: string)
    requires y == x || x in s
    ensures Remove([y] + s, x) == if y == x then s else [y] + Remove(s, x)
  {
    hide IndexOf;
    var t := [y] + s;
    IndexBehind(y, s, x);
    if y == x {
      assert t[..0] + t[1..] == s;
    } else {
      var k := IndexOf(s, x);
      assert t[..k + 1] == [y] + s[..k] && t[k + 2..] == s[k + 1..];
    }
  }

  lemma IndexBehind(y: string, s: seq<string>, x: string)
    requires y == x || x in s
    ensures IndexOf([y] + s, x) == if y == x then 0 else 1 + IndexOf(s, x)
  {
    assert ([y] + s)[1..] == s;
  }

  lemma PrecedesBehind(h: string, t: seq<string>, x: string, y: string)
    requires h !in t
    ensures Precedes([h] + t, x, y) <==> if x == h then y in t else Precedes(t, x, y)
  {
    hide IndexOf;
    if x == h || x in t {
      IndexBehind(h, t, x);
    }
    if y == h || y in t {
      IndexBehind(h, t, y);
    }
  }

  lemma RemoveEnds(s: seq<string>, a: string, b: string)
    requires Distinct(s) && |s| >= 2 && s[0] == a && s[|s| - 1] == b
    ensures a in s && b in Remove(s, a)
    ensures var t := Remove(Remove(s, a), b);
      && Distinct(t) && s == [a] + t + [b]
      && forall y :: y in t <==> y in s && y != a && y != b
  {
  }
}
