/**
 The block exchange behind argument permutation: `permute_args` of
 nrf/ext/freebsd-getopt/getopt_long.c, which walks gcd-many cycles of a rotation
 in place, and the Euclid loop that counts the cycles.
 */
module Permute {

  // ----- Divisibility -----------------------------------------------------------

  predicate Divides(d: int, n: int)
    requires d > 0
  {
    n % d == 0
  }

  // The quotient and remainder of a division are the only ones there are.
  lemma DivisionIsUnique(n: int, d: int, q: int, r: int)
    requires d > 0 && n == d * q + r && 0 <= r < d
    ensures n / d == q && n % d == r
  {
    assert d * (q - n / d) == n % d - r;
    OnlyZeroScalesSmall(d, q - n / d);
  }

  lemma OnlyZeroScalesSmall(d: int, k: int)
    requires d > 0
    ensures -d < d * k < d ==> k == 0
  {
  }

  lemma MultipleIsDivisible(d: int, q: int)
    requires d > 0
    ensures Divides(d, d * q) && (d * q) / d == q
  {
  }

  lemma CombinationIsDivisible(d: int, a: int, x: int, b: int, y: int)
    requires d > 0 && Divides(d, a) && Divides(d, b)
    ensures Divides(d, a * x + b * y)
  {
    var p, q := a / d, b / d;
    assert a * x + b * y == d * (p * x + q * y) by {
      assert a * x == d * (p * x);
      assert b * y == d * (q * y);
    }
    MultipleIsDivisible(d, p * x + q * y);
  }

  /** g is the greatest common divisor of a and b. */
  ghost predicate IsGcd(g: int, a: int, b: int)
  {
    && g > 0 && Divides(g, a) && Divides(g, b)
    && forall d :: d > 0 && Divides(d, a) && Divides(d, b) ==> d <= g
  }

  /** Euclid's loop, with the coefficients that write the result as a*x + b*y. */
  method Gcd(a0: int, b0: int) returns (g: int, ghost x: int, ghost y: int)
    requires a0 > 0 && b0 > 0
    ensures IsGcd(g, a0, b0)
    ensures a0 * x + b0 * y == g
  {
    hide Divides, IsGcd;
    var a, b := a0, b0;
    var c := a % b;
    ghost var u, v := 1, 0;
    x, y := 0, 1;
    while c != 0
      invariant 0 < b && c == a % b
      invariant a == a0 * u + b0 * v && b == a0 * x + b0 * y
      invariant forall d :: d > 0 && Divides(d, a) && Divides(d, b) ==> Divides(d, a0) && Divides(d, b0)
      decreases b
    {
      ghost var q := a / b;
      EuclidStep(a, b);
      BezoutStep(a0, b0, u, v, x, y, q);
      u, v, x, y := x, y, u - q * x, v - q * y;
      a := b;
      b := c;
      c := a % b;
    }
    g := b;
    LastDivisor(a, g);
    BezoutIsGreatest(a0, b0, g, x, y);
  }

  lemma LastDivisor(a: int, g: int)
    requires g > 0 && a % g == 0
    ensures Divides(g, a) && Divides(g, g)
  {
  }

  lemma BezoutIsGreatest(a0: int, b0: int, g: int, x: int, y: int)
    requires g > 0 && Divides(g, a0) && Divides(g, b0) && a0 * x + b0 * y == g
    ensures IsGcd(g, a0, b0)
  {
    forall d | d > 0 && Divides(d, a0) && Divides(d, b0)
      ensures d <= g
    {
      CombinationIsDivisible(d, a0, x, b0, y);
    }
  }

  // Every common divisor of b and a % b divides a.
  lemma EuclidStep(a: int, b: int)
    requires b > 0
    ensures forall d :: d > 0 && Divides(d, b) && Divides(d, a % b) ==> Divides(d, a)
  {
    hide Divides;
    forall d | d > 0 && Divides(d, b) && Divides(d, a % b)
      ensures Divides(d, a)
    {
      CombinationIsDivisible(d, b, a / b, a % b, 1);
    }
  }

  lemma BezoutStep(a0: int, b0: int, u: int, v: int, x: int, y: int, q: int)
    ensures a0 * u + b0 * v - q * (a0 * x + b0 * y) == a0 * (u - q * x) + b0 * (v - q * y)
  {
  }

  // ----- The rotation and its cycles --------------------------------------------

  /** Where the cell at offset q goes when n cells are rotated so that the last `shift`
      of them come first. */
  function Rotate(q: int, shift: int, n: int): (r: int)
    requires 0 <= q < n && 0 <= shift <= n
    ensures 0 <= r < n
  {
    if q + shift < n then q + shift else q + shift - n
  }

  /** The k-th cell visited by the cycle that starts at offset c. */
  ghost function Orbit(c: int, k: nat, shift: int, n: int): (r: int)
    requires 0 <= c < n && 0 <= shift <= n
    ensures 0 <= r < n
  {
    if k == 0 then c else Rotate(Orbit(c, k - 1, shift, n), shift, n)
  }

  /** After k steps the cycle is k shifts on, less w whole turns. */
  lemma {:induction false} OrbitClosedForm(c: int, k: nat, shift: int, n: int) returns (w: int)
    requires 0 <= c < n && 0 <= shift <= n
    ensures c + k * shift == n * w + Orbit(c, k, shift, n)
  {
    if k == 0 {
      w := 0;
    } else {
      w := OrbitClosedForm(c, k - 1, shift, n);
      assert c + k * shift == c + (k - 1) * shift + shift;
      if Orbit(c, k - 1, shift, n) + shift >= n {
        w := w + 1;
      }
    }
  }

  /** The arithmetic of one exchange: n cells in g cycles of len cells each, where
      shift * x + n * z == g. */
  ghost predicate Cycles(n: int, shift: int, g: int, len: int, x: int, z: int)
  {
    && 0 < g <= shift < n && n == g * len && Divides(g, shift)
    && shift * x + n * z == g
  }

  lemma RotateKeepsResidue(q: int, shift: int, n: int, g: int, len: int)
    requires 0 <= q < n && 0 <= shift <= n && g > 0 && n == g * len && Divides(g, shift)
    ensures Rotate(q, shift, n) % g == q % g
  {
    var w := if q + shift < n then 0 else 1;
    assert Rotate(q, shift, n) == g * (q / g + shift / g - len * w) + q % g;
    DivisionIsUnique(Rotate(q, shift, n), g, q / g + shift / g - len * w, q % g);
  }

  lemma {:induction false} OrbitKeepsResidue(c: int, k: nat, shift: int, n: int, g: int, len: int)
    requires 0 <= c < n && 0 <= shift <= n && g > 0 && n == g * len && Divides(g, shift)
    ensures Orbit(c, k, shift, n) % g == c % g
  {
    if k > 0 {
      OrbitKeepsResidue(c, k - 1, shift, n, g, len);
      RotateKeepsResidue(Orbit(c, k - 1, shift, n), shift, n, g, len);
    }
  }

  /** A cycle meets no cell twice before step len. */
  lemma OrbitIsInjective(c: int, j: nat, k: nat, shift: int, n: int, g: int, len: int, x: int, z: int)
    requires Cycles(n, shift, g, len, x, z) && 0 <= c < n
    requires j <= k < j + len && Orbit(c, j, shift, n) == Orbit(c, k, shift, n)
    ensures j == k
  {
    var v := OrbitClosedForm(c, j, shift, n);
    var w := OrbitClosedForm(c, k, shift, n);
    Distribute(shift, k, j);
    Distribute(n, w, v);
    TurnsAreWhole(k - j, w - v, n, shift, g, len, x, z);
    OnlyZeroScalesSmall(len, (w - v) * x + z * (k - j));
  }

  lemma Distribute(a: int, b: int, c: int)
    ensures a * (b - c) == a * b - a * c == b * a - c * a == (b - c) * a
  {
  }

  // If d shifts make w whole turns then d is a multiple of len.
  lemma TurnsAreWhole(d: int, w: int, n: int, shift: int, g: int, len: int, x: int, z: int)
    requires Cycles(n, shift, g, len, x, z) && d * shift == n * w
    ensures d == len * (w * x + z * d)
  {
  }

  // One cycle goes round the n cells shift/g times.
  lemma CycleSpan(n: int, shift: int, g: int, len: int, x: int, z: int)
    requires Cycles(n, shift, g, len, x, z)
    ensures len * shift == n * (shift / g)
  {
    var s := shift / g;
    assert len * (g * s) == (g * len) * s;
  }

  /** A cycle is back at its start after len steps. */
  lemma OrbitCloses(c: int, shift: int, n: int, g: int, len: int, x: int, z: int)
    requires Cycles(n, shift, g, len, x, z) && 0 <= c < n
    ensures len > 0 && Orbit(c, len, shift, n) == c
  {
    var w := OrbitClosedForm(c, len, shift, n);
    CycleSpan(n, shift, g, len, x, z);
    assert n * (shift / g - w) == Orbit(c, len, shift, n) - c;
    OnlyZeroScalesSmall(n, shift / g - w);
  }

  /** Every cell with the residue of c is on the cycle of c. */
  lemma OrbitCovers(c: int, q: int, shift: int, n: int, g: int, len: int, x: int, z: int) returns (k: nat)
    requires Cycles(n, shift, g, len, x, z)
    requires 0 <= c < n && 0 <= q < n && q % g == c % g
    ensures k < len && Orbit(c, k, shift, n) == q
  {
    var t := q / g - c / g;
    var h, s := (t * x) / len, shift / g;
    k := (t * x) % len;
    CycleSpan(n, shift, g, len, x, z);
    assert k == t * x - len * h;
    CoverArithmetic(c, t, x, z, len, h, shift, n, g, s);
    assert c + k * shift == n * (-(z * t) - h * s) + q;
    var w := OrbitClosedForm(c, k, shift, n);
    assert n * (w - (-(z * t) - h * s)) == q - Orbit(c, k, shift, n);
    OnlyZeroScalesSmall(n, w - (-(z * t) - h * s));
  }

  lemma CoverArithmetic(c: int, t: int, x: int, z: int, len: int, h: int, shift: int, n: int, g: int, s: int)
    requires len * shift == n * s && shift * x + n * z == g
    ensures c + (t * x - len * h) * shift == n * (-(z * t) - h * s) + (c + g * t)
  {
  }

  // ----- permute_args -----------------------------------------------------------

  /** The sequence with the adjacent blocks [s, m) and [m, e) exchanged. */
  function Exchanged<T>(a: seq<T>, s: int, m: int, e: int): seq<T>
    requires 0 <= s <= m <= e <= |a|
  {
    a[..s] + a[m..e] + a[s..m] + a[e..]
  }
  /** Every cell of `from` whose offset has a residue below i has moved to its place in `to`;
      the other cells are where they were. */
  ghost predicate Moved<T>(from: seq<T>, to: seq<T>, shift: int, g: int, i: int)
    requires g > 0 && 0 <= shift <= |from|
  {
    && |from| == |to|
    && (forall q :: 0 <= q < |from| && q % g < i ==> to[Rotate(q, shift, |from|)] == from[q])
    && (forall q :: 0 <= q < |from| && q % g >= i ==> to[q] == from[q])
  }

  lemma NothingMoved<T>(from: seq<T>, shift: int, g: int)
    requires g > 0 && 0 <= shift <= |from|
    ensures Moved(from, from, shift, g, 0)
  {
  }

  // Moving every cell exchanges the two blocks.
  lemma MovedIsExchanged<T>(a: seq<T>, s: int, m: int, e: int, to: seq<T>, g: int)
    requires 0 <= s < m < e <= |a| && g > 0 && Moved(a[s..e], to, e - m, g, g)
    ensures a[..s] + to + a[e..] == Exchanged(a, s, m, e)
  {
    var n, shift, from := e - s, e - m, a[s..e];
    forall k | 0 <= k < n
      ensures to[k] == (a[m..e] + a[s..m])[k]
    {
      var q := if k < shift then k + (m - s) else k - shift;
      assert q % g < g && to[Rotate(q, shift, n)] == from[q];
    }
    assert to == a[m..e] + a[s..m];
  }

  // ----- One cycle --------------------------------------------------------------

  /** The block after j swaps of the cycle from offset c: each swap exchanges the cell
      reached with the cycle's first cell. */
  ghost function AfterSwaps<T>(b: seq<T>, c: int, j: nat, shift: int): (r: seq<T>)
    requires 0 <= c < |b| && 0 <= shift <= |b|
    ensures |r| == |b|
  {
    if j == 0 then b
    else
      var r, p := AfterSwaps(b, c, j - 1, shift), Orbit(c, j, shift, |b|);
      r[p := r[c]][c := r[p]]
  }

  // A cell the cycle has not reached is untouched.
  lemma {:induction false} UnvisitedCellStays<T>(b: seq<T>, c: int, j: nat, shift: int, q: int)
    requires 0 <= c < |b| && 0 <= shift <= |b| && 0 <= q < |b|
    requires forall k: nat :: k <= j ==> Orbit(c, k, shift, |b|) != q
    ensures AfterSwaps(b, c, j, shift)[q] == b[q]
  {
    if j > 0 {
      UnvisitedCellStays(b, c, j - 1, shift, q);
      assert Orbit(c, 0, shift, |b|) != q;
    }
  }

  /** The orbit of c is a cycle of len distinct cells. */
  ghost predicate SimpleCycle(c: int, len: int, shift: int, n: int)
    requires 0 <= c < n && 0 <= shift <= n
  {
    && len > 0 && Orbit(c, len, shift, n) == c
    && forall j: nat, k: nat :: j < k < len ==> Orbit(c, j, shift, n) != Orbit(c, k, shift, n)
  }

  lemma OrbitIsSimpleCycle(c: int, shift: int, n: int, g: int, len: int, x: int, z: int)
    requires Cycles(n, shift, g, len, x, z) && 0 <= c < n
    ensures SimpleCycle(c, len, shift, n)
  {
    OrbitCloses(c, shift, n, g, len, x, z);
    forall j: nat, k: nat | j < k < len
      ensures Orbit(c, j, shift, n) != Orbit(c, k, shift, n)
    {
      if Orbit(c, j, shift, n) == Orbit(c, k, shift, n) {
        OrbitIsInjective(c, j, k, shift, n, g, len, x, z);
      }
    }
  }

  // Swapping along the cycle shifts its contents by one step.
  lemma {:induction false} SwapsShiftTheCycle<T>(b: seq<T>, c: int, j: nat, shift: int, len: int)
    requires 0 <= c < |b| && 0 <= shift <= |b| && SimpleCycle(c, len, shift, |b|) && j <= len
    ensures var r := AfterSwaps(b, c, j, shift);
            && r[c] == b[Orbit(c, if j == len then j - 1 else j, shift, |b|)]
            && forall k: nat :: k < j && k + 1 < len ==> r[Orbit(c, k + 1, shift, |b|)] == b[Orbit(c, k, shift, |b|)]
  {
    if j > 0 {
      SwapsShiftTheCycle(b, c, j - 1, shift, len);
      var n, p := |b|, Orbit(c, j, shift, |b|);
      assert Orbit(c, 0, shift, n) == c;
      if j < len {
        UnvisitedCellStays(b, c, j - 1, shift, p);
      }
    }
  }

  // A whole cycle moves the cells of its own residue and no other.
  lemma CycleMovesItsResidue<T>(from: seq<T>, b: seq<T>, c: int, i: int, shift: int, g: int, len: int, x: int, z: int)
    requires 0 <= c < |b| == |from| && Cycles(|b|, shift, g, len, x, z) && c % g == i
    requires Moved(from, b, shift, g, i)
    ensures Moved(from, AfterSwaps(b, c, len, shift), shift, g, i + 1)
  {
    var n, r := |b|, AfterSwaps(b, c, len, shift);
    OrbitIsSimpleCycle(c, shift, n, g, len, x, z);
    SwapsShiftTheCycle(b, c, len, shift, len);
    forall q | 0 <= q < n && q % g != i
      ensures r[q] == b[q]
    {
      forall k: nat
        ensures Orbit(c, k, shift, n) != q
      {
        OrbitKeepsResidue(c, k, shift, n, g, len);
      }
      UnvisitedCellStays(b, c, len, shift, q);
    }
    forall q | 0 <= q < n && q % g == i
      ensures r[Rotate(q, shift, n)] == b[q]
    {
      var k := OrbitCovers(c, q, shift, n, g, len, x, z);
      assert Orbit(c, k + 1, shift, n) == Rotate(q, shift, n);
    }
    forall q | 0 <= q < n
      ensures Rotate(q, shift, n) % g == q % g
    {
      RotateKeepsResidue(q, shift, n, g, len);
    }
  }

  lemma NextCycle<T>(from: seq<T>, b: seq<T>, c: int, i: int, nnonopts: int, nopts: int, g: int, len: int, x: int, z: int)
    requires |b| == |from| == nnonopts + nopts && Cycles(|b|, nopts, g, len, x, z) && Divides(g, nnonopts) && nnonopts > 0
    requires 0 <= i < g && c == nnonopts + i && Moved(from, b, nopts, g, i)
    ensures Moved(from, AfterSwaps(b, c, len, nopts), nopts, g, i + 1)
  {
    DivisionIsUnique(c, g, nnonopts / g, i);
    CycleMovesItsResidue(from, b, c, i, nopts, g, len, x, z);
  }

  lemma CyclesOfGcd(nnonopts: int, nopts: int, g: int, x: int, y: int)
    requires nnonopts > 0 && nopts > 0 && IsGcd(g, nnonopts, nopts) && nnonopts * x + nopts * y == g
    ensures g > 0 && Divides(g, nnonopts) && (nnonopts + nopts) / g >= 0
    ensures Cycles(nnonopts + nopts, nopts, g, (nnonopts + nopts) / g, y - x, x)
  {
    var p, q := nnonopts / g, nopts / g;
    assert nnonopts + nopts == g * (p + q);
    MultipleIsDivisible(g, p + q);
    assert q >= 1 && nopts == g * q;
    assert nopts * (y - x) + (nnonopts + nopts) * x == nnonopts * x + nopts * y;
  }

  lemma SplitBlock<T>(a: seq<T>, s: int, e: int)
    requires 0 <= s <= e <= |a|
    ensures a == a[..s] + a[s..e] + a[e..]
  {
  }

  lemma UpdateMiddle<T>(pre: seq<T>, b: seq<T>, post: seq<T>, p: int, x: T)
    requires 0 <= p < |b|
    ensures (pre + b + post)[|pre| + p := x] == pre + b[p := x] + post
  {
  }

  /** AfterSwaps on a block that starts at offset s of a longer sequence w. */
  ghost function SwapsAt<T>(w: seq<T>, s: nat, c: int, j: nat, shift: int, n: int): (r: seq<T>)
    requires 0 <= c < n && 0 <= shift <= n && s + n <= |w|
    ensures |r| == |w|
  {
    if j == 0 then w
    else
      var r, p := SwapsAt(w, s, c, j - 1, shift, n), Orbit(c, j, shift, n);
      r[s + p := r[s + c]][s + c := r[s + p]]
  }

  lemma {:induction false} SwapsStayInBlock<T>(pre: seq<T>, b: seq<T>, post: seq<T>, c: int, j: nat, shift: int)
    requires 0 <= c < |b| && 0 <= shift <= |b|
    ensures SwapsAt(pre + b + post, |pre|, c, j, shift, |b|) == pre + AfterSwaps(b, c, j, shift) + post
  {
    if j > 0 {
      SwapsStayInBlock(pre, b, post, c, j - 1, shift);
      var r, p := AfterSwaps(b, c, j - 1, shift), Orbit(c, j, shift, |b|);
      UpdateMiddle(pre, r, post, p, r[c]);
      UpdateMiddle(pre, r[p := r[c]], post, c, r[p]);
    }
  }

  /** The inner loop of permute_args: walks one cycle from its first cell. */
  method RunCycle<T>(s: int, m: int, e: int, cstart: int, cyclelen: nat, a: array<T>)
    requires 0 <= s < m < e <= a.Length && m <= cstart < e
    modifies a
    ensures a[..] == SwapsAt(old(a[..]), s, cstart - s, cyclelen, e - m, e - s)
  {
    var nnonopts, nopts := m - s, e - m;
    var pos := cstart;
    ghost var c, n := cstart - s, e - s;
    ghost var r := a[..];
    for j := 0 to cyclelen
      invariant r == SwapsAt(old(a[..]), s, c, j, nopts, n) && a[..] == r
      invariant pos == s + Orbit(c, j, nopts, n)
    {
      if pos >= m {
        pos := pos - nnonopts;
      } else {
        pos := pos + nopts;
      }
      var swap := a[pos];
      a[pos] := a[cstart];
      a[cstart] := swap;
      r := r[s + (pos - s) := r[s + c]][s + c := r[s + (pos - s)]];
    }
  }

  /** permute_args: both blocks must be non-empty, since the second length divides. */
  method PermuteArgs<T>(s: int, m: int, e: int, a: array<T>)
    requires 0 <= s < m < e <= a.Length
    modifies a
    ensures a[..] == Exchanged(old(a[..]), s, m, e)
  {
    hide Moved, Cycles, IsGcd, Divides, Exchanged, Orbit, AfterSwaps, SwapsAt;
    ghost var pre, from, post := a[..s], a[s..e], a[e..];
    SplitBlock(a[..], s, e);
    var nnonopts, nopts := m - s, e - m;
    var ncycle, x, y := Gcd(nnonopts, nopts);
    CyclesOfGcd(nnonopts, nopts, ncycle, x, y);
    var cyclelen := (e - s) / ncycle;
    ghost var b := from;
    NothingMoved(from, nopts, ncycle);
    for i := 0 to ncycle
      invariant |b| == e - s && a[..] == pre + b + post
      invariant Moved(from, b, nopts, ncycle, i)
    {
      var cstart := m + i;
      SwapsStayInBlock(pre, b, post, cstart - s, cyclelen, e - m);
      RunCycle(s, m, e, cstart, cyclelen, a);
      NextCycle(from, b, cstart - s, i, nnonopts, nopts, ncycle, cyclelen, y - x, x);
      b := AfterSwaps(b, cstart - s, cyclelen, e - m);
    }
    MovedIsExchanged(old(a[..]), s, m, e, b, ncycle);
  }
}
