/**
 Parsing undoes printing: the parser of `JsonText` reads the text of a tree back as that tree, but for
 what number text says, exactly when the tree is not nested deeper than the parser's limit.
 */
module JsonRoundTrip {
  import opened Bytes
  import opened JsonString
  import opened JsonGrammar
  import opened JsonText
  import opened Wrappers
  import Lit = JsonLiteral

  // ----- What can be printed and read back ----------------------------------------------

  /** print_number writes null for a number that is not finite, and otherwise text that strtod takes whole,
      as that number or as one near it. */
  predicate NumberPrintable(c: Codec, n: Double) {
    var t := c.show(n);
    t == NULL_TEXT || (IsNumberText(t) && c.scan(t).Some? && c.scan(t).value.1 == |t|)
  }

  /** C strings hold no NUL; raw text is copied unread and is not JSON of its own. */
  predicate Printable(c: Codec, v: Json)
    decreases v, 1
  {
    match v
    case Number(n) => NumberPrintable(c, n)
    case String(s) => NoNul(s)
    case Raw(_) => false
    case Array(items) => AllPrintable(c, items)
    case Object(members) => MembersPrintable(c, members)
    case _ => true
  }

  predicate AllPrintable(c: Codec, items: seq<Json>)
    decreases items, 0
  {
    items == [] || (Printable(c, items[0]) && AllPrintable(c, items[1..]))
  }

  predicate MembersPrintable(c: Codec, members: seq<Member>)
    decreases members, 0
  {
    members == [] || (NoNul(members[0].key) && Printable(c, members[0].value) && MembersPrintable(c, members[1..]))
  }

  /** The tree with each number replaced by what its text says. */
  function Reread(c: Codec, v: Json): Json
    decreases v, 1
  {
    match v
    case Number(n) =>
      var r := c.scan(c.show(n));
      if c.show(n) == NULL_TEXT then Null else if r.Some? then Number(r.value.0) else v
    case Array(items) => Array(RereadItems(c, items))
    case Object(members) => Object(RereadMembers(c, members))
    case _ => v
  }

  function RereadItems(c: Codec, items: seq<Json>): seq<Json>
    decreases items, 0
  {
    if items == [] then [] else [Reread(c, items[0])] + RereadItems(c, items[1..])
  }

  function RereadMembers(c: Codec, members: seq<Member>): seq<Member>
    decreases members, 0
  {
    if members == [] then []
    else [Member(members[0].key, Reread(c, members[0].value))] + RereadMembers(c, members[1..])
  }

  // ----- Strings ----------------------------------------------------------------------------

  /** The literal piece that a byte is printed as. */
  function PieceOf(b: byte): Lit.Piece {
    var t := EscapeByte(b);
    if |t| == 1 then Lit.Plain(b) else if |t| == 2 then Lit.Letter(t[1]) else Lit.Code(t[2..])
  }

  lemma PieceOfByte(b: byte)
    ensures Lit.WellFormed(PieceOf(b)) && Lit.PieceText(PieceOf(b)) == EscapeByte(b) && Lit.PieceMeaning(PieceOf(b)) == [b]
  {
    var t := EscapeByte(b);
    if |t| > 2 {
      var d := t[2..];
      assert d == [48, 48, HexDigit(b as nat / 16), HexDigit(b as nat % 16)];
      assert Lit.FourHex(d) && Lit.Value(d) == b as nat;
    }
  }

  function Pieces(s: bytes): seq<Lit.Piece> {
    if s == [] then [] else [PieceOf(s[0])] + Pieces(s[1..])
  }

  lemma {:induction false} PiecesMeanString(s: bytes)
    ensures Lit.AllWellFormed(Pieces(s)) && Lit.Text(Pieces(s)) == Escape(s) && Lit.Meaning(Pieces(s)) == s
  {
    if s != [] {
      PieceOfByte(s[0]);
      PiecesMeanString(s[1..]);
      assert Pieces(s)[1..] == Pieces(s[1..]);
      assert [s[0]] + s[1..] == s;
    }
  }

  /** Printing a string and parsing it gives the string, and stops after the closing quote. */
  lemma QuotedParses(s: bytes, rest: bytes)
    requires NoNul(s)
    ensures ParseStringValue(Quoted(s) + rest) == Some((s, rest))
  {
    PiecesMeanString(s);
    Lit.LiteralDecodes(Pieces(s), rest);
    CStringIsWhole(s);
    assert (Quoted(s) + rest)[|Quoted(s)|..] == rest;
  }

  // ----- Printed text is a document -----------------------------------------------------------

  function QuoteOf(s: bytes): Quote {
    Quote(Quoted(s), Pieces(s))
  }

  lemma QuoteIsSaid(s: bytes)
    requires NoNul(s)
    ensures IsQuote(QuoteOf(s)) && Said(QuoteOf(s)) == s
  {
    PiecesMeanString(s);
    Lit.WellFormedIsLiteral(Pieces(s), []);
    assert [QUOTE] + Lit.Text(Pieces(s)) + [QUOTE] + [] == Quoted(s);
    CStringIsWhole(s);
  }

  /** A new line and its indentation, if the text is formatted. */
  function Line(fmt: bool, d: nat): bytes {
    if fmt then [NEWLINE] + Tabs(d) else []
  }

  /** The document that a tree is printed as. */
  function DocOf(c: Codec, fmt: bool, d: nat, v: Json): Doc
    requires Printable(c, v)
    decreases v, 1
  {
    match v
    case Null => NullWord
    case False => FalseWord
    case True => TrueWord
    case Number(n) => if c.show(n) == NULL_TEXT then NullWord else Num(c.show(n), c.scan(c.show(n)).value.0)
    case String(s) => Str(QuoteOf(s))
    case Array(items) => Arr([], ItemsOf(c, fmt, d + 1, items, []))
    case Object(members) => Obj(Line(fmt, d), EntriesOf(c, fmt, d + 1, members))
  }

  function ItemsOf(c: Codec, fmt: bool, d: nat, items: seq<Json>, before: bytes): (r: seq<Item>)
    requires AllPrintable(c, items)
    ensures |r| == |items|
    decreases items, 0
  {
    if items == [] then []
    else [Item(before, DocOf(c, fmt, d, items[0]), [])] + ItemsOf(c, fmt, d, items[1..], if fmt then [SPACE] else [])
  }

  function EntriesOf(c: Codec, fmt: bool, d: nat, members: seq<Member>): (r: seq<Entry>)
    requires MembersPrintable(c, members) && d > 0
    ensures |r| == |members|
    decreases members, 0
  {
    if members == [] then []
    else
      var m, more := members[0], EntriesOf(c, fmt, d, members[1..]);
      var gap, after := if fmt then [TAB] else [], if more == [] then Line(fmt, d - 1) else [];
      [Entry(Line(fmt, d), QuoteOf(m.key), [], gap, DocOf(c, fmt, d, m.value), after)] + more
  }

  lemma {:induction false} TextIsShown(c: Codec, fmt: bool, d: nat, v: Json, rest: bytes)
    requires Printable(c, v)
    ensures Show(DocOf(c, fmt, d, v), rest) == Text(c, fmt, d, v) + rest
    decreases v, 1
  {
    hide Items, Members, ShowItems, ShowEntries, ItemsOf, EntriesOf, Quoted, QuoteOf;
    assert Ascii("null") == NULL_TEXT && Ascii("false") == FALSE_TEXT && Ascii("true") == TRUE_TEXT;
    match v
    case Array(items) => ArrayIsShown(c, fmt, d, items, rest);
    case Object(members) => ObjectIsShown(c, fmt, d, members, rest);
    case String(s) => assert QuoteOf(s).text == Quoted(s) by { QuoteText(s); }
    case _ =>
  }

  lemma QuoteText(s: bytes)
    ensures QuoteOf(s).text == Quoted(s)
  {
  }

  lemma {:induction false} ArrayIsShown(c: Codec, fmt: bool, d: nat, items: seq<Json>, rest: bytes)
    requires AllPrintable(c, items)
    ensures Show(DocOf(c, fmt, d, Array(items)), rest) == Text(c, fmt, d, Array(items)) + rest
    decreases items, 1
  {
    hide ShowItems, AllPrintable;
    var all, ts, close := ItemsOf(c, fmt, d + 1, items, []), Items(c, fmt, d + 1, items), Ascii("]") + rest;
    var open := Ascii("[");
    assert open == [OPEN_ARRAY] && Ascii("]") == [CLOSE_ARRAY];
    assert (open + ts + [CLOSE_ARRAY]) + rest == open + (ts + close) by {
      Assoc(open + ts, [CLOSE_ARRAY], rest);
      Assoc(open, ts, close);
    }
    if items == [] {
      assert ts + close == [] + close;
    } else {
      ItemsAreShown(c, fmt, d + 1, items, [], close);
      assert [] + (ts + close) == ts + close;
    }
  }

  lemma {:induction false} ObjectIsShown(c: Codec, fmt: bool, d: nat, members: seq<Member>, rest: bytes)
    requires MembersPrintable(c, members)
    ensures Show(DocOf(c, fmt, d, Object(members)), rest) == Text(c, fmt, d, Object(members)) + rest
    decreases members, 1
  {
    hide ShowEntries, MembersPrintable, Tabs;
    var all, ts, close := EntriesOf(c, fmt, d + 1, members), Members(c, fmt, d + 1, members), Ascii("}") + rest;
    var open, nl, end := Ascii("{"), if fmt then [NEWLINE] else [], if fmt then Tabs(d) else [];
    assert open == [OPEN_OBJECT] && Ascii("}") == [CLOSE_OBJECT];
    assert (open + nl + ts + end + [CLOSE_OBJECT]) + rest == open + (nl + (ts + (end + close))) by {
      Assoc(open + nl + ts + end, [CLOSE_OBJECT], rest);
      Assoc(open + nl + ts, end, close);
      Assoc4(open, nl, ts, end + close);
    }
    if members == [] {
      assert ts + (end + close) == end + close;
      Assoc(nl, end, close);
      assert Line(fmt, d) == nl + end;
    } else {
      MembersAreShown(c, fmt, d + 1, members, close);
    }
  }

  lemma {:induction false} ItemsAreShown(c: Codec, fmt: bool, d: nat, items: seq<Json>, before: bytes, rest: bytes)
    requires AllPrintable(c, items) && items != []
    ensures ShowItems(ItemsOf(c, fmt, d, items, before), rest) == before + (Items(c, fmt, d, items) + rest)
    decreases items, 0
  {
    hide Text, DocOf, Show, Printable;
    var gap := if fmt then [SPACE] else [];
    var all, more := ItemsOf(c, fmt, d, items, before), ItemsOf(c, fmt, d, items[1..], gap);
    assert all[1..] == more;
    var t := Text(c, fmt, d, items[0]);
    if |items| == 1 {
      assert [] + rest == rest && t + [] + [] == t;
      TextIsShown(c, fmt, d, items[0], rest);
    } else {
      var next := Items(c, fmt, d, items[1..]) + rest;
      ItemsAreShown(c, fmt, d, items[1..], gap, rest);
      assert [] + (Ascii(",") + (gap + next)) == ItemSeparator(fmt, true) + next;
      TextIsShown(c, fmt, d, items[0], ItemSeparator(fmt, true) + next);
      Assoc4(t, ItemSeparator(fmt, true), Items(c, fmt, d, items[1..]), rest);
    }
  }

  lemma EntryText(nl: bytes, indent: bytes, q: bytes, colon: bytes, t: bytes, sep: bytes, ms: bytes, tail: bytes)
    ensures (nl + indent) + (q + (colon + (t + (sep + (ms + tail))))) == nl + ((indent + q + colon + t + sep + ms) + tail)
  {
    Assoc6(indent, q, colon, t, sep, ms + tail);
    Assoc(indent + q + colon + t + sep, ms, tail);
    Assoc(nl, indent, q + (colon + (t + (sep + (ms + tail)))));
  }

  lemma {:induction false} MembersAreShown(c: Codec, fmt: bool, d: nat, members: seq<Member>, rest: bytes)
    requires MembersPrintable(c, members) && members != [] && d > 0
    ensures ShowEntries(EntriesOf(c, fmt, d, members), rest) ==
      (if fmt then [NEWLINE] else []) + (Members(c, fmt, d, members) + ((if fmt then Tabs(d - 1) else []) + rest))
    decreases members, 0
  {
    hide Text, DocOf, Show, Printable, Quoted, QuoteOf;
    var m, nl, end := members[0], if fmt then [NEWLINE] else [], if fmt then Tabs(d - 1) else [];
    var sep, ms := MemberSeparator(fmt, |members| > 1), Members(c, fmt, d, members[1..]);
    var next := sep + (ms + (end + rest));
    var more := EntriesOf(c, fmt, d, members[1..]);
    assert EntriesOf(c, fmt, d, members)[1..] == more;
    if |members| == 1 {
      assert ms + (end + rest) == end + rest && sep == nl;
      Assoc(nl, end, rest);
    } else {
      MembersAreShown(c, fmt, d, members[1..], rest);
      assert sep == Ascii(",") + nl;
      Assoc(Ascii(","), nl, ms + (end + rest));
    }
    TextIsShown(c, fmt, d, m.value, next);
    var t, colon, gap := Text(c, fmt, d, m.value), if fmt then [COLON, TAB] else [COLON], if fmt then [TAB] else [];
    assert colon == Ascii(":") + gap;
    Assoc(Ascii(":"), gap, t + next);
    QuoteText(m.key);
    EntryText(nl, if fmt then Tabs(d) else [], Quoted(m.key), colon, t, sep, ms, end + rest);
    NothingBetween(colon + (t + next), Ascii(",") + if more == [] then [] else ShowEntries(more, rest));
  }

  lemma NothingBetween(a: bytes, b: bytes)
    ensures [] + a == a && [] + b == b
  {
  }

  lemma NumberIsSaid(c: Codec, n: Double)
    requires NumberPrintable(c, n)
    ensures var t := c.show(n);
            t != NULL_TEXT ==> c.scan(t).Some? && IsNumber(c, t, c.scan(t).value.0)
  {
    var t := c.show(n);
    assert t[|t|..] == [];
  }

  lemma {:induction false} TextSays(c: Codec, fmt: bool, d: nat, v: Json)
    requires Printable(c, v)
    ensures Says(c, DocOf(c, fmt, d, v)) && Mean(c, DocOf(c, fmt, d, v)) == Reread(c, v)
    ensures Nesting(Reread(c, v)) == Nesting(v)
    decreases v, 1
  {
    hide QuoteOf, IsQuote, Said, IsNumber, NumberPrintable, SayAll, EntriesSay, ItemsOf, EntriesOf, MeanItems, MeanEntries;
    match v
    case Number(n) => NumberIsSaid(c, n);
    case String(s) => QuoteIsSaid(s);
    case Array(items) => ItemsSay(c, fmt, d + 1, items, []);
    case Object(members) => MembersSay(c, fmt, d + 1, members);
    case _ =>
  }

  lemma {:induction false} ItemsSay(c: Codec, fmt: bool, d: nat, items: seq<Json>, before: bytes)
    requires AllPrintable(c, items) && Blank(before)
    ensures SayAll(c, ItemsOf(c, fmt, d, items, before)) && MeanItems(c, ItemsOf(c, fmt, d, items, before)) == RereadItems(c, items)
    ensures ItemsNesting(RereadItems(c, items)) == ItemsNesting(items)
    decreases items, 0
  {
    if items != [] {
      var gap := if fmt then [SPACE] else [];
      assert ItemsOf(c, fmt, d, items, before)[1..] == ItemsOf(c, fmt, d, items[1..], gap);
      TextSays(c, fmt, d, items[0]);
      ItemsSay(c, fmt, d, items[1..], gap);
      assert RereadItems(c, items)[1..] == RereadItems(c, items[1..]);
    }
  }

  lemma {:induction false} MembersSay(c: Codec, fmt: bool, d: nat, members: seq<Member>)
    requires MembersPrintable(c, members) && d > 0
    ensures EntriesSay(c, EntriesOf(c, fmt, d, members)) && MeanEntries(c, EntriesOf(c, fmt, d, members)) == RereadMembers(c, members)
    ensures MembersNesting(RereadMembers(c, members)) == MembersNesting(members)
    decreases members, 0
  {
    hide IsQuote, Said, QuoteOf;
    if members != [] {
      assert EntriesOf(c, fmt, d, members)[1..] == EntriesOf(c, fmt, d, members[1..]);
      QuoteIsSaid(members[0].key);
      TextSays(c, fmt, d, members[0].value);
      MembersSay(c, fmt, d, members[1..]);
      assert RereadMembers(c, members)[1..] == RereadMembers(c, members[1..]);
    }
  }

  /** Every tree's text, before any rest, parses to the tree as its text says it, or is too deep. */
  lemma TextParses(c: Codec, fmt: bool, d: nat, v: Json, depth: nat, rest: bytes)
    requires Printable(c, v) && depth <= LIMIT && (v.Number? ==> EndsNumber(rest))
    ensures ParseValue(c, Text(c, fmt, d, v) + rest, depth) ==
      if depth + Nesting(v) <= LIMIT then Some((Reread(c, v), rest)) else None
  {
    hide ParseValue, Text, Show, Says, Nesting, Reread, Printable;
    var doc := DocOf(c, fmt, d, v);
    TextIsShown(c, fmt, d, v, rest);
    TextSays(c, fmt, d, v);
    assert doc.Num? ==> v.Number?;
    NumberStops(c, doc, if doc.Num? then rest else []);
    DocParses(c, doc, depth, rest);
  }

  // ----- Documents --------------------------------------------------------------------------

  /** The round trip: parsing the printed text of a tree, with its terminator, gives the tree as its
      number text says it, or nothing if it is nested deeper than the parser's limit. */
  lemma PrintedParses(c: Codec, fmt: bool, v: Json, requireTerminator: bool)
    requires Printable(c, v)
    ensures ParseDocument(c, Text(c, fmt, 0, v) + [0], requireTerminator) ==
      if Nesting(v) <= LIMIT then Some(Reread(c, v)) else None
  {
    hide ParseValue, Text;
    var content, doc := Text(c, fmt, 0, v) + [0], DocOf(c, fmt, 0, v);
    TextIsShown(c, fmt, 0, v, [0]);
    TextSays(c, fmt, 0, v);
    NumberStops(c, doc, [0]);
    ShowIsSolid(c, doc, [0]);
    SkipSolid(content);
    PrefixHead(BOM, content);
    TextParses(c, fmt, 0, v, 0, [0]);
  }

  /** Every number in the tree is read back as it was. */
  predicate ExactNumbers(c: Codec, v: Json)
    decreases v, 1
  {
    match v
    case Number(n) => c.scan(c.show(n)) == Some((n, |c.show(n)|)) && c.show(n) != NULL_TEXT
    case Array(items) => AllExact(c, items)
    case Object(members) => MembersExact(c, members)
    case _ => true
  }

  predicate AllExact(c: Codec, items: seq<Json>)
    decreases items, 0
  {
    items == [] || (ExactNumbers(c, items[0]) && AllExact(c, items[1..]))
  }

  predicate MembersExact(c: Codec, members: seq<Member>)
    decreases members, 0
  {
    members == [] || (ExactNumbers(c, members[0].value) && MembersExact(c, members[1..]))
  }

  lemma {:induction false} RereadIsSameIff(c: Codec, v: Json)
    requires Printable(c, v)
    ensures Reread(c, v) == v <==> ExactNumbers(c, v)
    decreases v, 1
  {
    match v
    case Array(items) => RereadItemsSameIff(c, items);
    case Object(members) => RereadMembersSameIff(c, members);
    case _ =>
  }

  lemma {:induction false} RereadItemsSameIff(c: Codec, items: seq<Json>)
    requires AllPrintable(c, items)
    ensures RereadItems(c, items) == items <==> AllExact(c, items)
    decreases items, 0
  {
    if items != [] {
      RereadIsSameIff(c, items[0]);
      RereadItemsSameIff(c, items[1..]);
      var r := RereadItems(c, items);
      assert r[1..] == RereadItems(c, items[1..]) && items == [items[0]] + items[1..];
    }
  }

  lemma {:induction false} RereadMembersSameIff(c: Codec, members: seq<Member>)
    requires MembersPrintable(c, members)
    ensures RereadMembers(c, members) == members <==> MembersExact(c, members)
    decreases members, 0
  {
    if members != [] {
      RereadIsSameIff(c, members[0].value);
      RereadMembersSameIff(c, members[1..]);
      var r := RereadMembers(c, members);
      assert r[1..] == RereadMembers(c, members[1..]) && members == [members[0]] + members[1..];
    }
  }

  /** So a tree comes back as it was if and only if it is within the limit and its numbers are. */
  lemma PrintedParsesBackIff(c: Codec, fmt: bool, v: Json, requireTerminator: bool)
    requires Printable(c, v)
    ensures ParseDocument(c, Text(c, fmt, 0, v) + [0], requireTerminator) == Some(v) <==>
      Nesting(v) <= LIMIT && ExactNumbers(c, v)
  {
    hide Text, ParseDocument;
    PrintedParses(c, fmt, v, requireTerminator);
    RereadIsSameIff(c, v);
  }
}
