/**
 Where print_value of nrf/ext/iperf3/cjson.c puts blanks. A tree is flattened to its lexemes; the
 unformatted text is the lexemes and nothing else, the formatted one has between two lexemes
 what only those two and the containers still open decide.
 */
module JsonLayout {
  import opened Bytes
  import opened JsonText
  import opened Wrappers
  import G = JsonGrammar
  import Lit = JsonLiteral
  import RT = JsonRoundTrip

  // ----- Lexemes ----------------------------------------------------------------------------

  /** A punctuation mark, a word or number, or text that may itself hold blanks: a string or raw text. */
  datatype Lexeme = Mark(ch: char) | Word(text: bytes) | Verbatim(text: bytes)

  /** The lexemes of a tree in front of more. */
  function Lexemes(c: Codec, v: Json, more: seq<Lexeme>): seq<Lexeme>
    decreases v, 1
  {
    match v
    case Null => [Word(G.Ascii("null"))] + more
    case False => [Word(G.Ascii("false"))] + more
    case True => [Word(G.Ascii("true"))] + more
    case Number(n) => [Word(c.show(n))] + more
    case String(s) => [Verbatim(Quoted(s))] + more
    case Raw(t) => [Verbatim(t)] + more
    case Array(items) => [Mark('[')] + ItemLexemes(c, items, [Mark(']')] + more)
    case Object(members) => [Mark('{')] + MemberLexemes(c, members, [Mark('}')] + more)
  }

  function ItemLexemes(c: Codec, items: seq<Json>, more: seq<Lexeme>): seq<Lexeme>
    decreases items, 0
  {
    if items == [] then more
    else if |items| == 1 then Lexemes(c, items[0], more)
    else Lexemes(c, items[0], [Mark(',')] + ItemLexemes(c, items[1..], more))
  }

  function MemberLexemes(c: Codec, members: seq<Member>, more: seq<Lexeme>): seq<Lexeme>
    decreases members, 0
  {
    if members == [] then more
    else
      var next := if |members| == 1 then more else [Mark(',')] + MemberLexemes(c, members[1..], more);
      [Verbatim(Quoted(members[0].key)), Mark(':')] + Lexemes(c, members[0].value, next)
  }

  function Spelling(l: Lexeme): bytes {
    if l.Mark? then (if l.ch as int < 128 then G.Ascii([l.ch]) else []) else l.text
  }

  // ----- Unformatted ------------------------------------------------------------------------

  function Join(ls: seq<Lexeme>): bytes {
    if ls == [] then [] else Spelling(ls[0]) + Join(ls[1..])
  }

  // ----- Formatted --------------------------------------------------------------------------

  /** What stands before a lexeme, after another one, inside the containers still open: a new line
      and its indentation after an opening brace, between members and before a closing brace, a
      space between items, a tab after a colon. */
  function Gap(last: char, next: Lexeme, open: string): bytes {
    var inObject := open != [] && open[|open| - 1] == '{';
    if next == Mark('}') then [NEWLINE] + Tabs(if open == [] then 0 else |open| - 1)
    else if last == '{' || (last == ',' && inObject) then [NEWLINE] + Tabs(|open|)
    else if last == ',' then [SPACE]
    else if last == ':' then [TAB]
    else []
  }

  /** The marks that decide what follows them. */
  function Last(l: Lexeme): char {
    if l.Mark? && l.ch in {'{', ',', ':'} then l.ch else ' '
  }

  function Open(open: string, l: Lexeme): string {
    if l == Mark('[') || l == Mark('{') then open + [l.ch]
    else if (l == Mark(']') || l == Mark('}')) && open != [] then open[..|open| - 1]
    else open
  }

  function Spread(last: char, open: string, ls: seq<Lexeme>): bytes
    decreases ls
  {
    if ls == [] then []
    else Gap(last, ls[0], open) + (Spelling(ls[0]) + Spread(Last(ls[0]), Open(open, ls[0]), ls[1..]))
  }

  // ----- The unformatted text is the lexemes ------------------------------------------------

  lemma {:induction false} TextIsJoined(c: Codec, d: nat, v: Json, more: seq<Lexeme>)
    ensures Join(Lexemes(c, v, more)) == Text(c, false, d, v) + Join(more)
    decreases v, 1
  {
    hide ItemLexemes, MemberLexemes, Items, Members;
    if v.Array? {
      ArrayIsJoined(c, d, v.items, more);
    } else if v.Object? {
      ObjectIsJoined(c, d, v.members, more);
    } else {
      assert Lexemes(c, v, more)[1..] == more;
      assert G.Ascii("null") == NULL_TEXT && G.Ascii("false") == FALSE_TEXT && G.Ascii("true") == TRUE_TEXT;
    }
  }

  lemma {:induction false} ArrayIsJoined(c: Codec, d: nat, items: seq<Json>, more: seq<Lexeme>)
    ensures Join(Lexemes(c, Array(items), more)) == Text(c, false, d, Array(items)) + Join(more)
    decreases items, 1
  {
    hide ItemLexemes, Items;
    var ls, tail, ts := Lexemes(c, Array(items), more), [Mark(']')] + more, Items(c, false, d + 1, items);
    ItemsAreJoined(c, d + 1, items, tail);
    assert ls[1..] == ItemLexemes(c, items, tail) && tail[1..] == more;
    assert Spelling(ls[0]) == [OPEN_ARRAY] && Spelling(tail[0]) == [CLOSE_ARRAY];
    Assoc4([OPEN_ARRAY], ts, [CLOSE_ARRAY], Join(more));
  }

  lemma {:induction false} ObjectIsJoined(c: Codec, d: nat, members: seq<Member>, more: seq<Lexeme>)
    ensures Join(Lexemes(c, Object(members), more)) == Text(c, false, d, Object(members)) + Join(more)
    decreases members, 1
  {
    hide MemberLexemes, Members;
    var ls, tail, ts := Lexemes(c, Object(members), more), [Mark('}')] + more, Members(c, false, d + 1, members);
    MembersAreJoined(c, d + 1, members, tail);
    assert ls[1..] == MemberLexemes(c, members, tail) && tail[1..] == more;
    assert Spelling(ls[0]) == [OPEN_OBJECT] && Spelling(tail[0]) == [CLOSE_OBJECT];
    assert [OPEN_OBJECT] + [] == [OPEN_OBJECT] && [OPEN_OBJECT] + ts + [] == [OPEN_OBJECT] + ts;
    Assoc4([OPEN_OBJECT], ts, [CLOSE_OBJECT], Join(more));
  }

  lemma {:induction false} ItemsAreJoined(c: Codec, d: nat, items: seq<Json>, more: seq<Lexeme>)
    ensures Join(ItemLexemes(c, items, more)) == Items(c, false, d, items) + Join(more)
    decreases items, 0
  {
    hide Text, Lexemes;
    if items == [] {
    } else if |items| == 1 {
      TextIsJoined(c, d, items[0], more);
      assert Items(c, false, d, items) == Text(c, false, d, items[0]) + [] + [];
    } else {
      var rest := [Mark(',')] + ItemLexemes(c, items[1..], more);
      TextIsJoined(c, d, items[0], rest);
      ItemsAreJoined(c, d, items[1..], more);
      assert rest[1..] == ItemLexemes(c, items[1..], more) && Spelling(rest[0]) == [COMMA];
      Assoc4(Text(c, false, d, items[0]), [COMMA], Items(c, false, d, items[1..]), Join(more));
    }
  }

  lemma {:induction false} MembersAreJoined(c: Codec, d: nat, members: seq<Member>, more: seq<Lexeme>)
    ensures Join(MemberLexemes(c, members, more)) == Members(c, false, d, members) + Join(more)
    decreases members, 0
  {
    hide Text, Lexemes, Quoted;
    if members != [] {
      var m, ls := members[0], MemberLexemes(c, members, more);
      var next := if |members| == 1 then more else [Mark(',')] + MemberLexemes(c, members[1..], more);
      var ms, sep := Members(c, false, d, members[1..]), MemberSeparator(false, |members| > 1);
      if |members| == 1 {
        assert sep + (ms + Join(more)) == Join(more);
      } else {
        MembersAreJoined(c, d, members[1..], more);
        assert next[1..] == MemberLexemes(c, members[1..], more) && Spelling(next[0]) == [COMMA] == sep;
      }
      TextIsJoined(c, d, m.value, next);
      assert ls[1..][1..] == Lexemes(c, m.value, next) && Spelling(ls[1]) == [COLON];
      var q, t := Quoted(m.key), Text(c, false, d, m.value);
      assert [] + q == q;
      RT.EntryText([], [], q, [COLON], t, sep, ms, Join(more));
      RT.NothingBetween(q + ([COLON] + (t + (sep + (ms + Join(more))))), Members(c, false, d, members) + Join(more));
    }
  }

  /** The unformatted text is the lexemes one after the other. */
  lemma UnformattedIsBare(c: Codec, d: nat, v: Json)
    ensures Text(c, false, d, v) == Join(Lexemes(c, v, []))
  {
    TextIsJoined(c, d, v, []);
    assert Text(c, false, d, v) + [] == Text(c, false, d, v);
  }

  // ----- The formatted text is the lexemes and the gaps -------------------------------------

  /** What stands before a value. */
  function Before(last: char, open: string): bytes {
    Gap(last, Word([]), open)
  }

  lemma SpreadStep(last: char, open: string, l: Lexeme, ls: seq<Lexeme>)
    ensures Spread(last, open, [l] + ls) == Gap(last, l, open) + (Spelling(l) + Spread(Last(l), Open(open, l), ls))
  {
    assert ([l] + ls)[1..] == ls;
  }

  // A word, a string or raw text.
  lemma PlainStep(last: char, open: string, l: Lexeme, ls: seq<Lexeme>)
    requires !l.Mark?
    ensures Spread(last, open, [l] + ls) == Before(last, open) + (l.text + Spread(' ', open, ls))
  {
    SpreadStep(last, open, l, ls);
  }

  lemma {:induction false} TextIsSpread(c: Codec, v: Json, last: char, open: string, more: seq<Lexeme>)
    ensures Spread(last, open, Lexemes(c, v, more)) == Before(last, open) + (Text(c, true, |open|, v) + Spread(' ', open, more))
    decreases v, 1
  {
    hide ItemLexemes, MemberLexemes, Items, Members, Spread, Before;
    var ls := Lexemes(c, v, more);
    if v.Array? {
      ArrayIsSpread(c, v.items, last, open, more);
    } else if v.Object? {
      ObjectIsSpread(c, v.members, last, open, more);
    } else {
      assert ls == [ls[0]] + more;
      PlainStep(last, open, ls[0], more);
      assert G.Ascii("null") == NULL_TEXT && G.Ascii("false") == FALSE_TEXT && G.Ascii("true") == TRUE_TEXT;
    }
  }

  lemma {:induction false} ArrayIsSpread(c: Codec, items: seq<Json>, last: char, open: string, more: seq<Lexeme>)
    ensures Spread(last, open, Lexemes(c, Array(items), more)) ==
      Before(last, open) + (Text(c, true, |open|, Array(items)) + Spread(' ', open, more))
    decreases items, 1
  {
    hide ItemLexemes, Items, Spread;
    var tail, inner := [Mark(']')] + more, open + ['['];
    var ts, rest := Items(c, true, |open| + 1, items), Spread(' ', open, more);
    assert inner[..|inner| - 1] == open;
    assert Spelling(Mark('[')) == [OPEN_ARRAY] && Spelling(Mark(']')) == [CLOSE_ARRAY];
    SpreadStep(last, open, Mark('['), ItemLexemes(c, items, tail));
    SpreadStep(' ', inner, Mark(']'), more);
    assert Spread(' ', inner, tail) == [CLOSE_ARRAY] + rest;
    ItemsAreSpread(c, items, ' ', inner, tail);
    assert Spread(' ', inner, ItemLexemes(c, items, tail)) == ts + ([CLOSE_ARRAY] + rest);
    Assoc4([OPEN_ARRAY], ts, [CLOSE_ARRAY], rest);
  }

  lemma {:induction false} ItemsAreSpread(c: Codec, items: seq<Json>, last: char, open: string, more: seq<Lexeme>)
    requires open != [] && open[|open| - 1] == '[' && last in {' ', ','} && (items == [] ==> last == ' ')
    ensures Spread(last, open, ItemLexemes(c, items, more)) ==
      (if last == ',' then [SPACE] else []) + (Items(c, true, |open|, items) + Spread(' ', open, more))
    decreases items, 0
  {
    hide Text, Lexemes, Spread;
    if items == [] {
    } else if |items| == 1 {
      TextIsSpread(c, items[0], last, open, more);
      assert Items(c, true, |open|, items) == Text(c, true, |open|, items[0]) + [] + [];
    } else {
      var rest := [Mark(',')] + ItemLexemes(c, items[1..], more);
      var t, ts, end := Text(c, true, |open|, items[0]), Items(c, true, |open|, items[1..]), Spread(' ', open, more);
      TextIsSpread(c, items[0], last, open, rest);
      ItemsAreSpread(c, items[1..], ',', open, more);
      SpreadStep(' ', open, Mark(','), ItemLexemes(c, items[1..], more));
      assert Spelling(Mark(',')) == [COMMA];
      assert Spread(' ', open, rest) == [COMMA] + ([SPACE] + (ts + end));
      assert [COMMA, SPACE] == [COMMA] + [SPACE];
      Assoc([COMMA], [SPACE], ts + end);
      Assoc4(t, [COMMA, SPACE], ts, end);
    }
  }

  lemma {:induction false} ObjectIsSpread(c: Codec, members: seq<Member>, last: char, open: string, more: seq<Lexeme>)
    ensures Spread(last, open, Lexemes(c, Object(members), more)) ==
      Before(last, open) + (Text(c, true, |open|, Object(members)) + Spread(' ', open, more))
    decreases members, 1
  {
    hide MemberLexemes, Members;
    var ls, tail, inner := Lexemes(c, Object(members), more), [Mark('}')] + more, open + ['{'];
    var ts, end, rest := Members(c, true, |open| + 1, members), Tabs(|open|), Spread(' ', open, more);
    assert ls[1..] == MemberLexemes(c, members, tail) && inner[..|inner| - 1] == open;
    assert Spelling(ls[0]) == [OPEN_OBJECT];
    MembersAreSpread(c, members, '{', inner, more);
    Assoc([OPEN_OBJECT] + [NEWLINE] + ts + end, [CLOSE_OBJECT], rest);
    Assoc([OPEN_OBJECT] + [NEWLINE] + ts, end, [CLOSE_OBJECT] + rest);
    Assoc4([OPEN_OBJECT], [NEWLINE], ts, end + ([CLOSE_OBJECT] + rest));
  }

  // A closing brace on a line of its own.
  lemma ClosingLine(last: char, open: string, more: seq<Lexeme>)
    requires open != []
    ensures Spread(last, open, [Mark('}')] + more) ==
      [NEWLINE] + (Tabs(|open| - 1) + ([CLOSE_OBJECT] + Spread(' ', open[..|open| - 1], more)))
  {
    var tail := [Mark('}')] + more;
    assert tail[1..] == more && Spelling(tail[0]) == [CLOSE_OBJECT];
    Assoc([NEWLINE], Tabs(|open| - 1), [CLOSE_OBJECT] + Spread(' ', open[..|open| - 1], more));
  }

  lemma {:induction false} MembersAreSpread(c: Codec, members: seq<Member>, last: char, open: string, more: seq<Lexeme>)
    requires open != [] && open[|open| - 1] == '{' && last in {'{', ','}
    ensures Spread(last, open, MemberLexemes(c, members, [Mark('}')] + more)) ==
      [NEWLINE] + (Members(c, true, |open|, members)
      + (Tabs(|open| - 1) + ([CLOSE_OBJECT] + Spread(' ', open[..|open| - 1], more))))
    decreases members, 0
  {
    hide Text, Lexemes, Quoted;
    var tail, end := [Mark('}')] + more, Tabs(|open| - 1) + ([CLOSE_OBJECT] + Spread(' ', open[..|open| - 1], more));
    if members == [] {
      ClosingLine(last, open, more);
      assert Members(c, true, |open|, members) + end == end;
    } else {
      var m, ms, sep := members[0], Members(c, true, |open|, members[1..]), MemberSeparator(true, |members| > 1);
      var next := if |members| == 1 then tail else [Mark(',')] + MemberLexemes(c, members[1..], tail);
      if |members| == 1 {
        ClosingLine(' ', open, more);
        assert ms + end == end && sep == [NEWLINE];
      } else {
        MembersAreSpread(c, members[1..], ',', open, more);
        assert next[1..] == MemberLexemes(c, members[1..], tail) && Spelling(next[0]) == [COMMA];
        Assoc([COMMA], [NEWLINE], ms + end);
      }
      assert Spread(' ', open, next) == sep + (ms + end);
      MemberIsSpread(c, m, last, open, next);
      RT.EntryText([NEWLINE], Tabs(|open|), Quoted(m.key), [COLON, TAB], Text(c, true, |open|, m.value), sep, ms, end);
    }
  }

  lemma {:induction false} MemberIsSpread(c: Codec, m: Member, last: char, open: string, next: seq<Lexeme>)
    requires open != [] && open[|open| - 1] == '{' && last in {'{', ','}
    ensures Spread(last, open, [Verbatim(Quoted(m.key)), Mark(':')] + Lexemes(c, m.value, next)) ==
      ([NEWLINE] + Tabs(|open|)) + (Quoted(m.key) + ([COLON, TAB] + (Text(c, true, |open|, m.value) + Spread(' ', open, next))))
    decreases m, 2
  {
    hide Text, Lexemes, Quoted;
    hide Spread;
    var value, t := Lexemes(c, m.value, next), Text(c, true, |open|, m.value) + Spread(' ', open, next);
    var name := Verbatim(Quoted(m.key));
    assert [name, Mark(':')] + value == [name] + ([Mark(':')] + value);
    PlainStep(last, open, name, [Mark(':')] + value);
    SpreadStep(' ', open, Mark(':'), value);
    TextIsSpread(c, m.value, ':', open, next);
    assert Spelling(Mark(':')) == [COLON];
    assert Spread(' ', open, [Mark(':')] + value) == [COLON] + ([TAB] + t);
    Assoc([COLON], [TAB], t);
  }

  /** The formatted text is the same lexemes, with these gaps. */
  lemma FormattedIsSpread(c: Codec, v: Json)
    ensures Text(c, true, 0, v) == Spread(' ', [], Lexemes(c, v, []))
  {
    TextIsSpread(c, v, ' ', [], []);
    assert [] + (Text(c, true, 0, v) + []) == Text(c, true, 0, v);
  }

  // ----- No other blanks --------------------------------------------------------------------

  predicate NoBlank(t: bytes) {
    forall i :: 0 <= i < |t| ==> t[i] as int > ' ' as int
  }

  lemma GapIsBlank(last: char, next: Lexeme, open: string)
    ensures G.Blank(Gap(last, next, open))
  {
  }

  predicate Compact(ls: seq<Lexeme>) {
    forall i :: 0 <= i < |ls| ==> ls[i].Verbatim? || NoBlank(Spelling(ls[i]))
  }

  /** If number text has no blanks then no lexeme but a string or raw text has any. */
  lemma {:induction false} LexemesAreCompact(c: Codec, v: Json, more: seq<Lexeme>)
    requires (forall n :: NoBlank(c.show(n))) && Compact(more)
    ensures Compact(Lexemes(c, v, more))
    decreases v, 1
  {
    hide Compact, NoBlank;
    if v.Array? {
      MarkIsCompact(']', more);
      ItemsAreCompact(c, v.items, [Mark(']')] + more);
      MarkIsCompact('[', ItemLexemes(c, v.items, [Mark(']')] + more));
    } else if v.Object? {
      MarkIsCompact('}', more);
      MembersAreCompact(c, v.members, [Mark('}')] + more);
      MarkIsCompact('{', MemberLexemes(c, v.members, [Mark('}')] + more));
    } else {
      assert NoBlank(G.Ascii("null")) && NoBlank(G.Ascii("false")) && NoBlank(G.Ascii("true")) by { WordsHaveNoBlank(); }
      LexemeIsCompact(Lexemes(c, v, more)[0], more);
    }
  }

  lemma WordsHaveNoBlank()
    ensures NoBlank(G.Ascii("null")) && NoBlank(G.Ascii("false")) && NoBlank(G.Ascii("true"))
  {
  }

  lemma LexemeIsCompact(l: Lexeme, more: seq<Lexeme>)
    requires Compact(more) && (l.Verbatim? || NoBlank(Spelling(l)))
    ensures Compact([l] + more)
  {
  }

  lemma MarkIsCompact(ch: char, more: seq<Lexeme>)
    requires Compact(more) && ch in "[]{},:"
    ensures Compact([Mark(ch)] + more)
  {
  }

  lemma {:induction false} ItemsAreCompact(c: Codec, items: seq<Json>, more: seq<Lexeme>)
    requires (forall n :: NoBlank(c.show(n))) && Compact(more)
    ensures Compact(ItemLexemes(c, items, more))
    decreases items, 0
  {
    hide Compact, NoBlank;
    if |items| > 1 {
      ItemsAreCompact(c, items[1..], more);
      MarkIsCompact(',', ItemLexemes(c, items[1..], more));
      LexemesAreCompact(c, items[0], [Mark(',')] + ItemLexemes(c, items[1..], more));
    } else if items != [] {
      LexemesAreCompact(c, items[0], more);
    }
  }

  lemma {:induction false} MembersAreCompact(c: Codec, members: seq<Member>, more: seq<Lexeme>)
    requires (forall n :: NoBlank(c.show(n))) && Compact(more)
    ensures Compact(MemberLexemes(c, members, more))
    decreases members, 0
  {
    hide Compact, NoBlank;
    if members != [] {
      var next := if |members| == 1 then more else [Mark(',')] + MemberLexemes(c, members[1..], more);
      if |members| > 1 {
        MembersAreCompact(c, members[1..], more);
        MarkIsCompact(',', MemberLexemes(c, members[1..], more));
      }
      var value, name := Lexemes(c, members[0].value, next), Verbatim(Quoted(members[0].key));
      LexemesAreCompact(c, members[0].value, next);
      MarkIsCompact(':', value);
      LexemeIsCompact(name, [Mark(':')] + value);
      assert [name, Mark(':')] + value == [name] + ([Mark(':')] + value);
    }
  }

  // ----- Strings ----------------------------------------------------------------------------

  predicate HasNoControl(t: bytes) {
    forall i :: 0 <= i < |t| ==> t[i] as int >= ' ' as int
  }

  /** Of all the ways to write a byte without control characters print_string_ptr takes a shortest
      one, with lower case digits. */
  lemma EscapeIsShortest(b: byte, p: Lit.Piece)
    requires Lit.WellFormed(p) && Lit.PieceMeaning(p) == [b] && HasNoControl(Lit.PieceText(p))
    ensures |EscapeByte(b)| <= |Lit.PieceText(p)|
    ensures HasNoControl(EscapeByte(b))
    ensures |EscapeByte(b)| > 1 ==> forall ch :: 'A' as int <= ch as int <= 'Z' as int ==> ch !in EscapeByte(b)
  {
    assert p.Plain? ==> Lit.PieceText(p)[0] == b;
  }
}
