/**
 What a string literal means, after section 7 of RFC 8259, and that parse_string of
 nrf/ext/iperf3/cjson.c finds that meaning, for well-formed literals and, with four bytes that are not
 hexadecimal digits read as code point 0, for all texts that it takes.
 */
module JsonLiteral {
  import opened Bytes
  import opened JsonString
  import opened Wrappers

  // ----- UTF-8 and surrogates are invertible ------------------------------------------

  /** Reads one code point, after the table in section 3 of RFC 3629. */
  function DecodeUtf8(u: seq<byte>): Option<(nat, nat)> {
    if u == [] then None
    else if u[0] < 0x80 then Some((u[0] as nat, 1))
    else if 0xC0 <= u[0] < 0xE0 && |u| >= 2 && IsTrail(u[1]) then
      Some(((u[0] as nat - 0xC0) * 0x40 + Low(u[1]), 2))
    else if 0xE0 <= u[0] < 0xF0 && |u| >= 3 && IsTrail(u[1]) && IsTrail(u[2]) then
      Some((((u[0] as nat - 0xE0) * 0x40 + Low(u[1])) * 0x40 + Low(u[2]), 3))
    else if 0xF0 <= u[0] < 0xF8 && |u| >= 4 && IsTrail(u[1]) && IsTrail(u[2]) && IsTrail(u[3]) then
      Some(((((u[0] as nat - 0xF0) * 0x40 + Low(u[1])) * 0x40 + Low(u[2])) * 0x40 + Low(u[3]), 4))
    else None
  }

  predicate IsTrail(b: byte) {
    0x80 <= b < 0xC0
  }

  function Low(b: byte): nat {
    b as nat % 0x40
  }

  lemma Utf8RoundTrip(cp: nat, rest: seq<byte>)
    requires cp < 0x110000
    ensures DecodeUtf8(Utf8(cp) + rest) == Some((cp, |Utf8(cp)|))
  {
    LowTrail(cp);
    LowTrail(cp / 0x40);
    LowTrail(cp / 0x1000);
    assert cp / 0x1000 == cp / 0x40 / 0x40 && cp / 0x40000 == cp / 0x1000 / 0x40;
  }

  lemma LowTrail(cp: nat)
    ensures IsTrail(Trail(cp)) && Low(Trail(cp)) == cp % 0x40 && cp == (cp / 0x40) * 0x40 + Low(Trail(cp))
  {
  }

  /** Every code point above the basic plane is the value of exactly the pair made from it. */
  lemma SurrogatesRoundTrip(cp: nat)
    requires 0x10000 <= cp < 0x110000
    ensures var high, low := 0xD800 + (cp - 0x10000) / 0x400, 0xDC00 + (cp - 0x10000) % 0x400;
            IsHighSurrogate(high) && IsLowSurrogate(low) && FromSurrogates(high, low) == cp
  {
  }

  // ----- Literals ------------------------------------------------------------------------

  /** A piece of a literal: a byte that stands for itself, a one-letter escape, a code point of
      the basic plane in four digits, or a surrogate pair in twice four. */
  datatype Piece =
    | Plain(b: byte)
    | Letter(c: byte)
    | Code(d: seq<byte>)
    | Pair(high: seq<byte>, low: seq<byte>)

  /** The value of a hexadecimal digit, if it is one. */
  function Digit(b: byte): Option<nat> {
    var c := b as int;
    if '0' as int <= c <= '9' as int then Some(c - '0' as int)
    else if 'a' as int <= c <= 'f' as int then Some(c - 'a' as int + 10)
    else if 'A' as int <= c <= 'F' as int then Some(c - 'A' as int + 10)
    else None
  }

  predicate FourHex(d: seq<byte>) {
    |d| == 4 && Digit(d[0]).Some? && Digit(d[1]).Some? && Digit(d[2]).Some? && Digit(d[3]).Some?
  }

  /** Four digits in base 16; bytes that are not four digits count as 0. */
  function Value(d: seq<byte>): nat
    requires |d| == 4
  {
    if FourHex(d) then
      Digit(d[0]).value * 0x1000 + Digit(d[1]).value * 0x100 + Digit(d[2]).value * 0x10 + Digit(d[3]).value
    else 0
  }

  /** What parse_string takes for a piece. */
  predicate Readable(p: Piece) {
    match p
    case Plain(b) => b as int != '\\' as int
    case Letter(c) => c in LETTERS
    case Code(d) => |d| == 4 && !(0xD800 <= Value(d) < 0xE000)
    case Pair(h, l) => |h| == 4 && |l| == 4 && 0xD800 <= Value(h) < 0xDC00 && 0xDC00 <= Value(l) < 0xE000
  }

  /** What section 7 of RFC 8259 takes for one. */
  predicate WellFormed(p: Piece) {
    Readable(p) && (p.Plain? ==> p.b as int != '\"' as int) && (p.Code? ==> FourHex(p.d))
  }

  /** The letters after a backslash and the characters they name. */
  const LETTERS: map<byte, byte> := map[34 := 34, 92 := 92, 47 := 47, 98 := 8, 102 := 12, 110 := 10, 114 := 13, 116 := 9]

  function PieceText(p: Piece): (t: seq<byte>)
    ensures Readable(p) ==> |t| == if p.Plain? then 1 else if p.Letter? then 2 else if p.Code? then 6 else 12
  {
    match p
    case Plain(b) => [b]
    case Letter(c) => [92, c]
    case Code(d) => [92, 117] + d
    case Pair(h, l) => [92, 117] + h + [92, 117] + l
  }

  function PieceMeaning(p: Piece): seq<byte>
    requires Readable(p)
  {
    match p
    case Plain(b) => [b]
    case Letter(c) => [LETTERS[c]]
    case Code(d) => Utf8(Value(d))
    case Pair(h, l) => Utf8(0x10000 + (Value(h) - 0xD800) * 0x400 + (Value(l) - 0xDC00))
  }

  predicate AllReadable(ps: seq<Piece>) {
    forall i :: 0 <= i < |ps| ==> Readable(ps[i])
  }

  predicate AllWellFormed(ps: seq<Piece>) {
    forall i :: 0 <= i < |ps| ==> WellFormed(ps[i])
  }

  function Text(ps: seq<Piece>): seq<byte> {
    if ps == [] then [] else PieceText(ps[0]) + Text(ps[1..])
  }

  function Meaning(ps: seq<Piece>): seq<byte>
    requires AllReadable(ps)
  {
    if ps == [] then [] else PieceMeaning(ps[0]) + Meaning(ps[1..])
  }

  // ----- One piece ---------------------------------------------------------------------------

  lemma HexIsValue(d: seq<byte>)
    requires |d| == 4
    ensures Hex4(d[0], d[1], d[2], d[3]) == Value(d)
  {
  }

  /** The text t stands in s at index i. */
  predicate StandsAt(s: seq<byte>, i: nat, t: seq<byte>) {
    i + |t| <= |s| && s[i..i + |t|] == t
  }

  lemma StandsSplit(s: seq<byte>, i: nat, a: seq<byte>, b: seq<byte>)
    ensures StandsAt(s, i, a + b) <==> StandsAt(s, i, a) && StandsAt(s, i + |a|, b)
  {
    if i + |a| + |b| <= |s| {
      var w := s[i..i + |a| + |b|];
      assert w[..|a|] == s[i..i + |a|] && w[|a|..] == s[i + |a|..i + |a| + |b|];
      assert w == w[..|a|] + w[|a|..];
      assert (a + b)[..|a|] == a && (a + b)[|a|..] == b;
    }
  }

  // The digits of an escape.
  lemma StandsCode(s: seq<byte>, i: nat, d: seq<byte>)
    requires |d| == 4 && i + 6 <= |s|
    ensures StandsAt(s, i, [92, 117] + d) <==> s[i] == 92 && s[i + 1] == 117 && s[i + 2..i + 6] == d
  {
    StandsSplit(s, i, [92, 117], d);
    assert s[i..i + 2] == [s[i], s[i + 1]];
  }

  /** The second pass reads a piece where it stands. */
  lemma UnitReadsPiece(s: seq<byte>, i: nat, end: nat, p: Piece)
    requires Readable(p) && i < end < |s| && StandsAt(s, i, PieceText(p))
    requires i + |PieceText(p)| <= end || (p.Letter? && i + 2 == end + 1)
    ensures Unit(s, i, end) == Some((PieceMeaning(p), i + |PieceText(p)|))
  {
    hide Utf8, Hex4, Value;
    var t := PieceText(p);
    match p
    case Code(d) =>
      StandsCode(s, i, d);
      HexIsValue(d);
    case Pair(h, l) =>
      assert t == ([92, 117] + h) + ([92, 117] + l);
      StandsSplit(s, i, [92, 117] + h, [92, 117] + l);
      StandsCode(s, i, h);
      StandsCode(s, i + 6, l);
      HexIsValue(h);
      HexIsValue(l);
    case _ =>
      ShortUnit(s, i, end, p);
  }

  lemma ShortUnit(s: seq<byte>, i: nat, end: nat, p: Piece)
    requires (p.Plain? || p.Letter?) && Readable(p) && i < end < |s| && StandsAt(s, i, PieceText(p))
    ensures Unit(s, i, end) == Some((PieceMeaning(p), i + |PieceText(p)|))
  {
    var t := PieceText(p);
    assert s[i] == s[i..i + |t|][0] && (p.Letter? ==> s[i + 1] == s[i..i + |t|][1]);
  }

  // And what it reads is a piece.
  lemma PieceOfUnit(s: seq<byte>, i: nat, end: nat) returns (p: Piece)
    requires i < end < |s| && Unit(s, i, end).Some?
    ensures Readable(p) && StandsAt(s, i, PieceText(p)) && Unit(s, i, end).value == (PieceMeaning(p), i + |PieceText(p)|)
    ensures i + |PieceText(p)| <= end || (p == Letter(s[end]) && i + 2 == end + 1)
  {
    hide Utf8, Hex4, Value;
    if s[i] != BACKSLASH {
      p := Plain(s[i]);
    } else if s[i + 1] != 117 {
      p := Letter(s[i + 1]);
    } else {
      var h := s[i + 2..i + 6];
      HexIsValue(h);
      p := Code(h);
      StandsCode(s, i, h);
      if IsHighSurrogate(Value(h)) {
        var l := s[i + 8..i + 12];
        HexIsValue(l);
        p := Pair(h, l);
        StandsCode(s, i + 6, l);
        StandsSplit(s, i, [92, 117] + h, [92, 117] + l);
        assert PieceText(p) == ([92, 117] + h) + ([92, 117] + l);
      }
    }
    UnitReadsPiece(s, i, end, p);
  }

  // ----- The second pass ---------------------------------------------------------------------

  /** The pieces fill s from i to the closing quote, or take that quote for an escaped one. */
  predicate Fills(ps: seq<Piece>, s: seq<byte>, i: nat, end: nat)
    requires end < |s|
  {
    && AllReadable(ps) && StandsAt(s, i, Text(ps))
    && (i + |Text(ps)| == end || (ps != [] && ps[|ps| - 1].Letter? && i + |Text(ps)| == end + 1))
  }

  lemma {:induction false} FilledIsRead(ps: seq<Piece>, s: seq<byte>, i: nat, end: nat)
    requires end < |s| && Fills(ps, s, i, end)
    ensures Unescape(s, i, end) == Some(Meaning(ps))
    decreases ps
  {
    hide Unit, Readable, PieceText, PieceMeaning;
    if ps != [] {
      var t, more := PieceText(ps[0]), ps[1..];
      StandsSplit(s, i, t, Text(more));
      PieceIsNotEmpty(ps[0]);
      if more == [] {
        assert Text(more) == [];
        LastLetter(ps[0]);
      } else {
        PieceIsNotEmpty(more[0]);
        assert more[|more| - 1] == ps[|ps| - 1];
        TailHasLast(more);
      }
      UnitReadsPiece(s, i, end, ps[0]);
      if more != [] || i + |t| <= end {
        FilledIsRead(more, s, i + |t|, end);
      }
    }
  }

  lemma PieceIsNotEmpty(p: Piece)
    ensures PieceText(p) != []
  {
  }

  lemma LastLetter(p: Piece)
    ensures p.Letter? ==> |PieceText(p)| == 2
  {
  }

  // What comes before a last letter stops short of it.
  lemma {:induction false} TailHasLast(ps: seq<Piece>)
    requires ps != []
    ensures |Text(ps)| > 0 && (ps[|ps| - 1].Letter? ==> |Text(ps)| >= 2)
    decreases ps
  {
    PieceIsNotEmpty(ps[0]);
    if |ps| > 1 {
      TailHasLast(ps[1..]);
    }
  }

  lemma {:induction false} ReadIsFilled(s: seq<byte>, i: nat, end: nat) returns (ps: seq<Piece>)
    requires i <= end < |s| && Unescape(s, i, end).Some?
    ensures Fills(ps, s, i, end) && Unescape(s, i, end).value == Meaning(ps)
    decreases end - i
  {
    hide Unit, Readable, PieceText, PieceMeaning;
    if i == end {
      ps := [];
    } else {
      var p := PieceOfUnit(s, i, end);
      var next := i + |PieceText(p)|;
      if next <= end {
        var more := ReadIsFilled(s, next, end);
        ps := [p] + more;
        assert ps[1..] == more && (more != [] ==> ps[|ps| - 1] == more[|more| - 1]);
        StandsSplit(s, i, PieceText(p), Text(more));
      } else {
        ps := [p];
        assert ps[1..] == [] && Text(ps[1..]) == [] && PieceText(p) + [] == PieceText(p);
        assert PieceMeaning(p) + [] == PieceMeaning(p);
      }
    }
  }

  // ----- The first pass ----------------------------------------------------------------------

  /** How many backslashes stand right before index k, after the opening quote. */
  function Slashes(s: seq<byte>, k: nat): nat
    requires k <= |s|
  {
    if k <= 1 || s[k - 1] as int != '\\' as int then 0 else 1 + Slashes(s, k - 1)
  }

  /** A quote that no backslash escapes. */
  predicate Closes(s: seq<byte>, k: nat) {
    1 <= k < |s| && s[k] as int == '\"' as int && Slashes(s, k) % 2 == 0
  }

  /** The first of them. */
  predicate ClosesFirst(s: seq<byte>, end: nat) {
    Closes(s, end) && forall k :: 1 <= k < end ==> !Closes(s, k)
  }

  lemma {:induction false} FindEndIsFirst(s: seq<byte>, i: nat)
    requires 1 <= i && (i <= |s| ==> Slashes(s, i) % 2 == 0) && forall k :: 1 <= k < i ==> !Closes(s, k)
    ensures FindEnd(s, i).Some? ==> ClosesFirst(s, FindEnd(s, i).value)
    ensures FindEnd(s, i).None? ==> forall k :: !Closes(s, k)
    decreases |s| - i
  {
    if i < |s| && s[i] != QUOTE {
      if s[i] != BACKSLASH {
        FindEndIsFirst(s, i + 1);
      } else if i + 1 < |s| {
        assert Slashes(s, i + 1) == 1 + Slashes(s, i);
        assert s[i + 1] == BACKSLASH ==> Slashes(s, i + 2) == 1 + Slashes(s, i + 1);
        FindEndIsFirst(s, i + 2);
      }
    }
  }

  lemma FirstPass(s: seq<byte>)
    ensures FindEnd(s, 1).Some? ==> ClosesFirst(s, FindEnd(s, 1).value)
    ensures FindEnd(s, 1).None? ==> forall k :: !Closes(s, k)
  {
    FindEndIsFirst(s, 1);
  }

  // ----- Whole literals ----------------------------------------------------------------------

  /** The text of n bytes at the head of s is a literal of these pieces. */
  ghost predicate LiteralOf(s: seq<byte>, n: nat, ps: seq<Piece>) {
    && 2 <= n <= |s| && s[0] as int == '\"' as int && ClosesFirst(s, n - 1)
    && AllReadable(ps) && Fills(ps, s, 1, n - 1)
  }

  lemma LiteralIsRead(s: seq<byte>, n: nat, ps: seq<Piece>)
    requires LiteralOf(s, n, ps)
    ensures StringAt(s) == Some((Meaning(ps), n))
  {
    hide Fills, Unescape, FindEnd, Slashes, Meaning;
    FirstPass(s);
    FilledIsRead(ps, s, 1, n - 1);
  }

  lemma ReadIsLiteral(s: seq<byte>) returns (ps: seq<Piece>)
    requires StringAt(s).Some?
    ensures LiteralOf(s, StringAt(s).value.1, ps) && Meaning(ps) == StringAt(s).value.0
  {
    hide Unescape, FindEnd, Slashes, Meaning, Text;
    FirstPass(s);
    ps := ReadIsFilled(s, 1, StringAt(s).value.1 - 1);
  }

  /** Exactly the texts of n bytes that are literals are read, as what their pieces mean. */
  lemma StringIff(s: seq<byte>, n: nat, value: seq<byte>)
    ensures StringAt(s) == Some((value, n)) <==> exists ps :: LiteralOf(s, n, ps) && Meaning(ps) == value
  {
    hide StringAt, Meaning;
    if StringAt(s) == Some((value, n)) {
      var ps := ReadIsLiteral(s);
    }
    if ps :| LiteralOf(s, n, ps) && Meaning(ps) == value {
      LiteralIsRead(s, n, ps);
    }
  }

  // ----- Well-formed literals ------------------------------------------------------------------

  // The first pass goes over a well-formed piece.
  lemma FindEndPassesPiece(s: seq<byte>, i: nat, p: Piece)
    requires WellFormed(p) && StandsAt(s, i, PieceText(p))
    ensures FindEnd(s, i) == FindEnd(s, i + |PieceText(p)|)
  {
    var t := PieceText(p);
    match p
    case Code(d) =>
      StandsCode(s, i, d);
      FindEndPassesDigits(s, i + 2);
    case Pair(h, l) =>
      assert t == ([92, 117] + h) + ([92, 117] + l);
      StandsSplit(s, i, [92, 117] + h, [92, 117] + l);
      StandsCode(s, i, h);
      StandsCode(s, i + 6, l);
      FindEndPassesDigits(s, i + 2);
      FindEndPassesDigits(s, i + 8);
    case Letter(_) =>
      assert s[i] == s[i..i + 2][0] && s[i + 1] == s[i..i + 2][1];
    case Plain(_) =>
      assert s[i] == s[i..i + 1][0];
  }

  lemma FindEndPassesDigits(s: seq<byte>, i: nat)
    requires i + 4 <= |s| && FourHex(s[i..i + 4])
    ensures FindEnd(s, i) == FindEnd(s, i + 4)
  {
    var d := s[i..i + 4];
    assert d[0] == s[i] && d[1] == s[i + 1] && d[2] == s[i + 2] && d[3] == s[i + 3];
    assert FindEnd(s, i) == FindEnd(s, i + 1) && FindEnd(s, i + 1) == FindEnd(s, i + 2) && FindEnd(s, i + 2) == FindEnd(s, i + 3);
  }

  lemma {:induction false} FindEndPasses(s: seq<byte>, i: nat, ps: seq<Piece>)
    requires AllWellFormed(ps) && StandsAt(s, i, Text(ps) + [QUOTE])
    ensures FindEnd(s, i) == Some(i + |Text(ps)|)
    decreases ps
  {
    hide WellFormed, PieceText;
    if ps == [] {
      assert s[i] == s[i..i + 1][0];
    } else {
      var t := PieceText(ps[0]);
      Assoc(t, Text(ps[1..]), [QUOTE]);
      StandsSplit(s, i, t, Text(ps[1..]) + [QUOTE]);
      FindEndPassesPiece(s, i, ps[0]);
      FindEndPasses(s, i + |t|, ps[1..]);
    }
  }

  lemma WellFormedIsLiteral(ps: seq<Piece>, rest: seq<byte>)
    requires AllWellFormed(ps)
    ensures LiteralOf([QUOTE] + Text(ps) + [QUOTE] + rest, |Text(ps)| + 2, ps)
  {
    hide FindEnd, Unescape, Text, Meaning, Slashes, Readable;
    var t := Text(ps);
    var s := [QUOTE] + t + [QUOTE] + rest;
    assert s[1..|t| + 2] == t + [QUOTE] && s[1..|t| + 1] == t;
    FindEndPasses(s, 1, ps);
    FirstPass(s);
  }

  /** Every well-formed literal, of any length and in any context, is decoded to its meaning, and
      reading stops just past the closing quote. */
  lemma LiteralDecodes(ps: seq<Piece>, rest: seq<byte>)
    requires AllWellFormed(ps)
    ensures StringAt([QUOTE] + Text(ps) + [QUOTE] + rest) == Some((Meaning(ps), |Text(ps)| + 2))
  {
    WellFormedIsLiteral(ps, rest);
    LiteralIsRead([QUOTE] + Text(ps) + [QUOTE] + rest, |Text(ps)| + 2, ps);
  }

  // A literal is one whatever follows it.
  lemma LiteralBefore(t: seq<byte>, rest: seq<byte>, ps: seq<Piece>)
    ensures LiteralOf(t + rest, |t|, ps) <==> LiteralOf(t, |t|, ps)
  {
    hide Text, Meaning, Readable, Slashes;
    var s := t + rest;
    SlashesBefore(t, rest);
    if |t| >= 2 {
      assert forall k :: 0 <= k < |t| ==> (Closes(s, k) <==> Closes(t, k));
      var n := |Text(ps)|;
      assert 1 + n <= |t| ==> s[1..1 + n] == t[1..1 + n];
    }
  }

  lemma {:induction false} SlashesBefore(t: seq<byte>, rest: seq<byte>)
    ensures forall k :: 0 <= k <= |t| ==> Slashes(t + rest, k) == Slashes(t, k)
    decreases t
  {
    if t != [] {
      var t' := t[..|t| - 1];
      assert t == t' + [t[|t| - 1]] && t + rest == t' + ([t[|t| - 1]] + rest);
      SlashesBefore(t', [t[|t| - 1]] + rest);
      SlashesBefore(t', [t[|t| - 1]]);
    }
  }
}
