/**
 The language that parse_value of nrf/ext/iperf3/cjson.c reads, as a grammar of its own: tokens with
 any blanks around them, after RFC 8259 but for what counts as a blank, a number and a string.
 A document is a text exactly if the parser takes it, and then it means what the parser returns.
 */
module JsonGrammar {
  import opened Bytes
  import opened JsonText
  import opened Wrappers
  import Lit = JsonLiteral

  // ----- Tokens -----------------------------------------------------------------------------

  function Ascii(t: string): (s: bytes)
    requires forall i :: 0 <= i < |t| ==> t[i] as int < 128
    ensures |s| == |t| && forall i :: 0 <= i < |t| ==> s[i] as int == t[i] as int
  {
    seq(|t|, i requires 0 <= i < |t| => t[i] as int as byte)
  }

  /** Control characters and the space. */
  predicate Blank(w: bytes) {
    forall i :: 0 <= i < |w| ==> w[i] as int <= ' ' as int
  }

  predicate NumberLetter(b: byte) {
    var x := b as int;
    || '0' as int <= x <= '9' as int || x == '+' as int || x == '-' as int
    || x == '.' as int || x == 'e' as int || x == 'E' as int
  }

  predicate OpensNumber(t: bytes) {
    t != [] && ('0' as int <= t[0] as int <= '9' as int || t[0] as int == '-' as int)
  }

  predicate EndsNumber(rest: bytes) {
    rest == [] || !NumberLetter(rest[0])
  }

  /** Number characters from the head of s, as many as there are but at most max. */
  predicate IsRun(run: bytes, s: bytes, max: nat) {
    && run <= s && |run| <= max && (forall i :: 0 <= i < |run| ==> NumberLetter(run[i]))
    && (|run| == max || EndsNumber(s[|run|..]))
  }

  /** At most 63 number characters that strtod takes whole. */
  predicate IsNumber(c: Codec, t: bytes, n: Double) {
    OpensNumber(t) && IsRun(t, t, 63) && c.scan(t) == Some((n, |t|))
  }

  /** The number that strtod finds in the text, and in what follows it up to 63 characters. */
  ghost predicate NumberBefore(c: Codec, t: bytes, n: Double, rest: bytes) {
    OpensNumber(t) && exists run :: IsRun(run, t + rest, 63) && |t| <= |run| && c.scan(run) == Some((n, |t|))
  }

  datatype Quote = Quote(text: bytes, pieces: seq<Lit.Piece>)

  ghost predicate IsQuote(q: Quote) {
    Lit.LiteralOf(q.text, |q.text|, q.pieces)
  }

  /** What a literal means to C code: up to the first NUL. */
  ghost function Said(q: Quote): (s: bytes)
    requires IsQuote(q)
    ensures NoNul(s) && s <= Lit.Meaning(q.pieces)
    ensures s == Lit.Meaning(q.pieces) || Lit.Meaning(q.pieces)[|s|] == 0
  {
    CStringIsVisible(Lit.Meaning(q.pieces));
    CString(Lit.Meaning(q.pieces))
  }

  lemma {:induction false} CStringIsVisible(s: bytes)
    ensures NoNul(CString(s)) && CString(s) <= s && (CString(s) == s || s[|CString(s)|] == 0)
  {
    if s != [] && s[0] != 0 {
      CStringIsVisible(s[1..]);
    }
  }

  // ----- Documents --------------------------------------------------------------------------

  datatype Item = Item(before: bytes, doc: Doc, after: bytes)

  datatype Entry = Entry(before: bytes, name: Quote, between: bytes, gap: bytes, doc: Doc, after: bytes)

  datatype Doc =
    | NullWord
    | FalseWord
    | TrueWord
    | Num(text: bytes, n: Double)
    | Str(quote: Quote)
    | Arr(gap: bytes, items: seq<Item>)
    | Obj(gap: bytes, entries: seq<Entry>)

  /** The text of a document in front of a rest. */
  function Show(doc: Doc, rest: bytes): bytes
    decreases doc, 1
  {
    match doc
    case NullWord => Ascii("null") + rest
    case FalseWord => Ascii("false") + rest
    case TrueWord => Ascii("true") + rest
    case Num(t, _) => t + rest
    case Str(q) => q.text + rest
    case Arr(gap, items) =>
      Ascii("[") + if items == [] then gap + (Ascii("]") + rest) else ShowItems(items, Ascii("]") + rest)
    case Obj(gap, entries) =>
      Ascii("{") + if entries == [] then gap + (Ascii("}") + rest) else ShowEntries(entries, Ascii("}") + rest)
  }

  function ShowItems(items: seq<Item>, rest: bytes): bytes
    requires items != []
    decreases items, 0
  {
    var more := if |items| == 1 then rest else Ascii(",") + ShowItems(items[1..], rest);
    items[0].before + Show(items[0].doc, items[0].after + more)
  }

  function ShowEntries(entries: seq<Entry>, rest: bytes): bytes
    requires entries != []
    decreases entries, 0
  {
    var e, more := entries[0], if |entries| == 1 then rest else Ascii(",") + ShowEntries(entries[1..], rest);
    e.before + (e.name.text + (e.between + (Ascii(":") + (e.gap + Show(e.doc, e.after + more)))))
  }

  /** Its tokens are tokens and the gaps between them are blank. */
  ghost predicate Says(c: Codec, doc: Doc)
    decreases doc, 1
  {
    match doc
    case Num(t, n) => IsNumber(c, t, n)
    case Str(q) => IsQuote(q)
    case Arr(gap, items) => Blank(gap) && SayAll(c, items)
    case Obj(gap, entries) => Blank(gap) && EntriesSay(c, entries)
    case _ => true
  }

  ghost predicate SayAll(c: Codec, items: seq<Item>)
    decreases items, 0
  {
    items == [] || (Blank(items[0].before) && Blank(items[0].after) && Says(c, items[0].doc) && SayAll(c, items[1..]))
  }

  ghost predicate EntriesSay(c: Codec, entries: seq<Entry>)
    decreases entries, 0
  {
    entries == [] ||
    var e := entries[0];
    && Blank(e.before) && Blank(e.between) && Blank(e.gap) && Blank(e.after)
    && IsQuote(e.name) && Says(c, e.doc) && EntriesSay(c, entries[1..])
  }

  /** A document in front of a rest: only a number on its own depends on what follows it. */
  ghost predicate SaysBefore(c: Codec, doc: Doc, rest: bytes)
    ensures SaysBefore(c, doc, rest) ==> doc.Num? || Says(c, doc)
  {
    if doc.Num? then NumberBefore(c, doc.text, doc.n, rest) else Says(c, doc)
  }

  ghost function Mean(c: Codec, doc: Doc): Json
    requires doc.Num? || Says(c, doc)
    decreases doc, 1
  {
    match doc
    case NullWord => Null
    case FalseWord => False
    case TrueWord => True
    case Num(_, n) => Number(n)
    case Str(q) => String(Said(q))
    case Arr(_, items) => Array(MeanItems(c, items))
    case Obj(_, entries) => Object(MeanEntries(c, entries))
  }

  ghost function MeanItems(c: Codec, items: seq<Item>): seq<Json>
    requires SayAll(c, items)
    decreases items, 0
  {
    if items == [] then [] else [Mean(c, items[0].doc)] + MeanItems(c, items[1..])
  }

  ghost function MeanEntries(c: Codec, entries: seq<Entry>): seq<Member>
    requires EntriesSay(c, entries)
    decreases entries, 0
  {
    if entries == [] then []
    else [Member(Said(entries[0].name), Mean(c, entries[0].doc))] + MeanEntries(c, entries[1..])
  }

  // ----- Blanks -----------------------------------------------------------------------------

  predicate Solid(s: bytes) {
    s != [] && s[0] > 32
  }

  lemma {:induction false} SkipBlanks(w: bytes, s: bytes)
    requires Blank(w) && Solid(s)
    ensures DropBlanks(w + s) == s && Skip(w + s) == s
  {
    if w == [] {
      assert w + s == s;
    } else {
      assert (w + s)[1..] == w[1..] + s;
      SkipBlanks(w[1..], s);
    }
  }

  lemma SkipSolid(s: bytes)
    requires Solid(s)
    ensures Skip(s) == s
  {
  }

  lemma {:induction false} SkippedIsBlank(s: bytes) returns (w: bytes)
    requires Solid(Skip(s))
    ensures Blank(w) && s == w + Skip(s)
  {
    if Solid(s) {
      w := [];
    } else {
      assert DropBlanks(s) != [];
      assert DropBlanks(s) == DropBlanks(s[1..]) && Skip(s) == Skip(s[1..]);
      var w' := SkippedIsBlank(s[1..]);
      w := [s[0]] + w';
    }
  }

  // ----- Tokens parse -----------------------------------------------------------------------

  lemma {:induction false} RunIff(s: bytes, run: bytes, max: nat)
    ensures run == NumberRun(s, max) <==> IsRun(run, s, max)
    decreases max
  {
    if max > 0 && s != [] && NumberLetter(s[0]) {
      if run == [] {
        assert s[|run|..] == s;
      } else {
        RunIff(s[1..], run[1..], max - 1);
        assert run == [run[0]] + run[1..];
        if run <= s {
          assert s[|run|..] == s[1..][|run[1..]|..];
        }
        assert run <= s <==> run[0] == s[0] && run[1..] <= s[1..];
      }
    }
  }

  // A run in front of something that is not a number character ends there.
  lemma NumberIsBefore(c: Codec, t: bytes, n: Double, rest: bytes)
    requires EndsNumber(rest)
    ensures IsNumber(c, t, n) <==> NumberBefore(c, t, n, rest)
  {
    var s := t + rest;
    assert s[|t|..] == rest;
    if IsNumber(c, t, n) {
      assert IsRun(t, s, 63);
    }
    if run :| IsRun(run, s, 63) && |t| <= |run| && c.scan(run) == Some((n, |t|)) {
      assert |t| < |s| ==> s[|t|] == rest[0];
      assert forall i :: 0 <= i < |run| ==> NumberLetter(s[i]);
      assert run == t && t[|t|..] == [];
    }
  }

  lemma NumberParsesIff(c: Codec, s: bytes, t: bytes, n: Double, rest: bytes)
    requires s == t + rest && OpensNumber(t)
    ensures ParseNumber(c, s) == Some((Number(n), rest)) <==> NumberBefore(c, t, n, rest)
  {
    var run := NumberRun(s, 63);
    RunIff(s, run, 63);
    assert s[|t|..] == rest;
    if NumberBefore(c, t, n, rest) {
      var run' :| IsRun(run', s, 63) && |t| <= |run'| && c.scan(run') == Some((n, |t|));
      RunIff(s, run', 63);
    }
  }

  lemma QuoteParses(q: Quote, rest: bytes)
    requires IsQuote(q)
    ensures ParseStringValue(q.text + rest) == Some((Said(q), rest))
  {
    Lit.LiteralBefore(q.text, rest, q.pieces);
    Lit.LiteralIsRead(q.text + rest, |q.text|, q.pieces);
    assert (q.text + rest)[|q.text|..] == rest;
  }

  lemma ParsedQuote(s: bytes) returns (q: Quote)
    requires ParseStringValue(s).Some?
    ensures IsQuote(q) && ParseStringValue(s).value.0 == Said(q) && s == q.text + ParseStringValue(s).value.1
  {
    hide Lit.LiteralOf;
    var ps := Lit.ReadIsLiteral(s);
    var n := JsonString.StringAt(s).value.1;
    q := Quote(s[..n], ps);
    assert s == q.text + s[n..];
    Lit.LiteralBefore(q.text, s[n..], ps);
  }

  // ----- What the first byte decides --------------------------------------------------------

  lemma Opens(c: Codec, s: bytes, depth: nat)
    requires s != []
    ensures s[0] == JsonString.QUOTE ==>
              var r := ParseStringValue(s);
              ParseValue(c, s, depth) == if r.None? then None else Some((String(r.value.0), r.value.1))
    ensures StartsNumber(s[0]) ==> ParseValue(c, s, depth) == ParseNumber(c, s)
    ensures s[0] == OPEN_ARRAY ==> ParseValue(c, s, depth) == ParseArray(c, s, depth)
    ensures s[0] == OPEN_OBJECT ==> ParseValue(c, s, depth) == ParseObject(c, s, depth)
  {
    hide ParseStringValue, ParseNumber, ParseArray, ParseObject;
    PrefixHead(NULL_TEXT, s);
    PrefixHead(FALSE_TEXT, s);
    PrefixHead(TRUE_TEXT, s);
  }

  lemma PrefixHead(t: bytes, s: bytes)
    requires t != []
    ensures t <= s ==> s != [] && s[0] == t[0]
  {
  }

  lemma WordParses(c: Codec, doc: Doc, depth: nat, rest: bytes)
    requires doc.NullWord? || doc.FalseWord? || doc.TrueWord?
    ensures ParseValue(c, Show(doc, rest), depth) == Some((Mean(c, doc), rest))
  {
    var s := Show(doc, rest);
    assert Ascii("null") == NULL_TEXT && Ascii("false") == FALSE_TEXT && Ascii("true") == TRUE_TEXT;
    var t := if doc.NullWord? then NULL_TEXT else if doc.FalseWord? then FALSE_TEXT else TRUE_TEXT;
    assert s == t + rest && t <= s && s[|t|..] == rest;
    PrefixHead(NULL_TEXT, s);
    PrefixHead(FALSE_TEXT, s);
    PrefixHead(TRUE_TEXT, s);
  }

  // What a document starts with.
  lemma ShowIsSolid(c: Codec, doc: Doc, rest: bytes)
    requires SaysBefore(c, doc, rest)
    ensures Solid(Show(doc, rest)) && Show(doc, rest)[0] !in {COMMA, COLON, CLOSE_ARRAY, CLOSE_OBJECT}
    ensures Show(doc, rest)[0] < 0x80
  {
    hide SayAll, EntriesSay, ShowItems, ShowEntries;
  }

  // ----- Every document parses --------------------------------------------------------------

  /** Every document in front of any rest parses to what it means and that rest, or is too deep. */
  lemma {:induction false} DocParses(c: Codec, doc: Doc, depth: nat, rest: bytes)
    requires SaysBefore(c, doc, rest) && depth <= 1000
    ensures ParseValue(c, Show(doc, rest), depth) ==
      if depth + Nesting(Mean(c, doc)) <= 1000 then Some((Mean(c, doc), rest)) else None
    decreases doc, 1
  {
    hide ParseValue, ParseNumber, ParseItems, ParseMembers, Skip;
    var s := Show(doc, rest);
    ShowIsSolid(c, doc, rest);
    Opens(c, s, depth);
    match doc
    case Num(t, n) =>
      NumberParsesIff(c, s, t, n, rest);
    case Str(q) =>
      QuoteParses(q, rest);
    case Arr(gap, items) =>
      ArrayParses(c, gap, items, depth, rest);
    case Obj(gap, entries) =>
      ObjectParses(c, gap, entries, depth, rest);
    case _ =>
      WordParses(c, doc, depth, rest);
  }

  lemma {:induction false} ArrayParses(c: Codec, gap: bytes, items: seq<Item>, depth: nat, rest: bytes)
    requires Says(c, Arr(gap, items)) && depth <= 1000
    ensures ParseArray(c, Show(Arr(gap, items), rest), depth) ==
      if depth + 1 + ItemsNesting(MeanItems(c, items)) <= 1000 then Some((Array(MeanItems(c, items)), rest)) else None
    decreases items, 1
  {
    hide ParseItems, Skip, ShowItems;
    var s, tail := Show(Arr(gap, items), rest), Ascii("]") + rest;
    assert tail[0] == CLOSE_ARRAY && tail[1..] == rest;
    if items == [] {
      assert s[1..] == gap + tail;
      SkipBlanks(gap, tail);
    } else if depth < 1000 {
      assert s[1..] == ShowItems(items, tail);
      ItemsParse(c, items, depth + 1, tail);
      ItemsStart(c, items, depth + 1, tail);
    }
  }

  lemma ItemsStart(c: Codec, items: seq<Item>, depth: nat, tail: bytes)
    requires SayAll(c, items) && items != []
    requires tail != [] && tail[0] == CLOSE_ARRAY
    ensures var s := Skip(ShowItems(items, tail));
            Solid(s) && s[0] != CLOSE_ARRAY && ParseItems(c, s, depth) == ParseItems(c, ShowItems(items, tail), depth)
  {
    hide ParseValue, Skip, Says;
    var next := AfterItem(items, tail);
    NumberStops(c, items[0].doc, next) by {
      AfterItemStops(c, items, tail);
    }
    var s := Show(items[0].doc, next);
    ShowIsSolid(c, items[0].doc, next);
    SkipBlanks(items[0].before, s);
    SkipSolid(s);
  }

  /** What follows the first item's document. */
  function AfterItem(items: seq<Item>, tail: bytes): bytes
    requires items != []
  {
    items[0].after + if |items| == 1 then tail else Ascii(",") + ShowItems(items[1..], tail)
  }

  lemma AfterItemStops(c: Codec, items: seq<Item>, tail: bytes)
    requires SayAll(c, items) && items != [] && tail != [] && tail[0] == CLOSE_ARRAY
    ensures EndsNumber(AfterItem(items, tail))
    ensures Skip(AfterItem(items, tail)) == if |items| == 1 then tail else Ascii(",") + ShowItems(items[1..], tail)
  {
    hide Skip, Says, ShowItems;
    SkipBlanks(items[0].after, if |items| == 1 then tail else Ascii(",") + ShowItems(items[1..], tail));
  }

  lemma NumberStops(c: Codec, doc: Doc, next: bytes)
    requires Says(c, doc) && EndsNumber(next)
    ensures SaysBefore(c, doc, next)
  {
    if doc.Num? {
      NumberIsBefore(c, doc.text, doc.n, next);
    }
  }

  lemma {:induction false} ItemsParse(c: Codec, items: seq<Item>, depth: nat, tail: bytes)
    requires SayAll(c, items) && items != [] && depth <= 1000
    requires tail != [] && tail[0] == CLOSE_ARRAY
    ensures ParseItems(c, ShowItems(items, tail), depth) ==
      if depth + ItemsNesting(MeanItems(c, items)) <= 1000 then Some((MeanItems(c, items), tail)) else None
    decreases items, 0
  {
    hide ParseValue, Skip, Says, SaysBefore, Mean, Nesting;
    var doc, next, more := items[0].doc, AfterItem(items, tail), items[1..];
    AfterItemStops(c, items, tail);
    NumberStops(c, doc, next);
    DocParses(c, doc, depth, next);
    ShowIsSolid(c, doc, next);
    SkipBlanks(items[0].before, Show(doc, next));
    var vs := MeanItems(c, items);
    assert vs[0] == Mean(c, doc) && vs[1..] == MeanItems(c, more);
    if |items| == 1 {
      assert vs == [Mean(c, doc)] && ItemsNesting(vs[1..]) == 0;
    } else {
      var s1 := Ascii(",") + ShowItems(more, tail);
      assert s1[0] == COMMA && s1[1..] == ShowItems(more, tail);
      ItemsParse(c, more, depth, tail);
    }
  }

  lemma {:induction false} ObjectParses(c: Codec, gap: bytes, entries: seq<Entry>, depth: nat, rest: bytes)
    requires Says(c, Obj(gap, entries)) && depth <= 1000
    ensures ParseObject(c, Show(Obj(gap, entries), rest), depth) ==
      if depth + 1 + MembersNesting(MeanEntries(c, entries)) <= 1000 then Some((Object(MeanEntries(c, entries)), rest)) else None
    decreases entries, 1
  {
    hide ParseMembers, Skip, ShowEntries;
    var s, tail := Show(Obj(gap, entries), rest), Ascii("}") + rest;
    assert tail[0] == CLOSE_OBJECT && tail[1..] == rest;
    if entries == [] {
      assert s[1..] == gap + tail;
      SkipBlanks(gap, tail);
    } else if depth < 1000 {
      assert s[1..] == ShowEntries(entries, tail);
      EntriesParse(c, entries, depth + 1, tail);
      EntriesStart(c, entries, depth + 1, tail);
    }
  }

  lemma QuoteStarts(q: Quote, s: bytes)
    requires IsQuote(q)
    ensures Solid(q.text + s) && (q.text + s)[0] == JsonString.QUOTE
  {
  }

  lemma EntriesStart(c: Codec, entries: seq<Entry>, depth: nat, tail: bytes)
    requires EntriesSay(c, entries) && entries != []
    ensures var s := Skip(ShowEntries(entries, tail));
            Solid(s) && s[0] != CLOSE_OBJECT && ParseMembers(c, s, depth) == ParseMembers(c, ShowEntries(entries, tail), depth)
  {
    hide ParseValue, ParseStringValue, Skip, Says, Show, IsQuote;
    var e, next := entries[0], AfterEntry(entries, tail);
    var s := e.name.text + AfterName(e, next);
    QuoteStarts(e.name, AfterName(e, next));
    SkipBlanks(e.before, s);
    SkipSolid(s);
    assert ParseMember(c, s, depth) == ParseMember(c, e.before + s, depth);
  }

  /** What follows the first entry's document, and what follows an entry's name. */
  function AfterEntry(entries: seq<Entry>, tail: bytes): bytes
    requires entries != []
  {
    entries[0].after + if |entries| == 1 then tail else Ascii(",") + ShowEntries(entries[1..], tail)
  }

  function AfterName(e: Entry, next: bytes): bytes {
    e.between + (Ascii(":") + (e.gap + Show(e.doc, next)))
  }

  lemma AfterEntryStops(c: Codec, entries: seq<Entry>, tail: bytes)
    requires EntriesSay(c, entries) && entries != [] && tail != [] && tail[0] == CLOSE_OBJECT
    ensures EndsNumber(AfterEntry(entries, tail))
    ensures Skip(AfterEntry(entries, tail)) == if |entries| == 1 then tail else Ascii(",") + ShowEntries(entries[1..], tail)
  {
    hide Skip, Says, ShowEntries, IsQuote;
    SkipBlanks(entries[0].after, if |entries| == 1 then tail else Ascii(",") + ShowEntries(entries[1..], tail));
  }

  // A name, a colon and a value, with blanks before, between and after the first two.
  lemma EntryParses(c: Codec, e: Entry, depth: nat, next: bytes)
    requires Blank(e.before) && Blank(e.between) && Blank(e.gap) && IsQuote(e.name) && SaysBefore(c, e.doc, next)
    ensures ParseMember(c, e.before + (e.name.text + AfterName(e, next)), depth) ==
            var v := ParseValue(c, Show(e.doc, next), depth);
            if v.None? then None else Some((Member(Said(e.name), v.value.0), v.value.1))
  {
    hide ParseValue, ParseStringValue, Skip, Says, Show, IsQuote;
    var text := Show(e.doc, next);
    var s1 := Ascii(":") + (e.gap + text);
    assert s1[0] == COLON && s1[1..] == e.gap + text;
    QuoteStarts(e.name, e.between + s1);
    SkipBlanks(e.before, e.name.text + (e.between + s1));
    QuoteParses(e.name, e.between + s1);
    SkipBlanks(e.between, s1);
    ShowIsSolid(c, e.doc, next);
    SkipBlanks(e.gap, text);
  }

  lemma {:induction false} EntriesParse(c: Codec, entries: seq<Entry>, depth: nat, tail: bytes)
    requires EntriesSay(c, entries) && entries != [] && depth <= 1000
    requires tail != [] && tail[0] == CLOSE_OBJECT
    ensures ParseMembers(c, ShowEntries(entries, tail), depth) ==
      if depth + MembersNesting(MeanEntries(c, entries)) <= 1000 then Some((MeanEntries(c, entries), tail)) else None
    decreases entries, 0
  {
    hide ParseValue, ParseMember, Skip, Says, SaysBefore, Mean, Nesting, IsQuote, Said, Show;
    var e, next, more := entries[0], AfterEntry(entries, tail), entries[1..];
    AfterEntryStops(c, entries, tail);
    NumberStops(c, e.doc, next);
    DocParses(c, e.doc, depth, next);
    EntryParses(c, e, depth, next);
    var ms := MeanEntries(c, entries);
    assert ms[0] == Member(Said(e.name), Mean(c, e.doc)) && ms[1..] == MeanEntries(c, more);
    if |entries| == 1 {
      assert ms == [Member(Said(e.name), Mean(c, e.doc))] && MembersNesting(ms[1..]) == 0;
    } else {
      var s1 := Ascii(",") + ShowEntries(more, tail);
      assert s1[0] == COMMA && s1[1..] == ShowEntries(more, tail);
      EntriesParse(c, more, depth, tail);
    }
  }

  // ----- What parses is a document ----------------------------------------------------------

  lemma ParsedIsSolid(c: Codec, s: bytes, depth: nat)
    requires ParseValue(c, s, depth).Some?
    ensures Solid(s)
  {
    PrefixHead(NULL_TEXT, s);
    PrefixHead(FALSE_TEXT, s);
    PrefixHead(TRUE_TEXT, s);
  }

  /** Whatever parses is a document in front of what is left, and nested within the limit. */
  ghost predicate Reads(c: Codec, s: bytes, depth: nat, doc: Doc, rest: bytes) {
    && SaysBefore(c, doc, rest) && s == Show(doc, rest) && depth + Nesting(Mean(c, doc)) <= 1000
    && ParseValue(c, s, depth) == Some((Mean(c, doc), rest))
  }

  lemma {:induction false} ParsedSays(c: Codec, s: bytes, depth: nat) returns (doc: Doc)
    requires ParseValue(c, s, depth).Some? && depth <= 1000
    ensures Reads(c, s, depth, doc, ParseValue(c, s, depth).value.1)
    decreases |s|, 1
  {
    hide ParseNumber, ParseStringValue, ParseArray, ParseObject, SayAll, EntriesSay;
    var (v, rest) := ParseValue(c, s, depth).value;
    ParsedIsSolid(c, s, depth);
    Opens(c, s, depth);
    if s[0] == JsonString.QUOTE {
      var q := ParsedQuote(s);
      doc := Str(q);
    } else if StartsNumber(s[0]) {
      var t := s[..|s| - |rest|];
      NumberLeaves(c, s);
      doc := Num(t, v.n);
      NumberParsesIff(c, s, t, v.n, rest);
    } else if s[0] == OPEN_ARRAY {
      doc := ParsedArray(c, s, depth);
    } else if s[0] == OPEN_OBJECT {
      doc := ParsedObject(c, s, depth);
    } else {
      doc := ParsedWord(c, s, depth);
    }
  }

  lemma NumberLeaves(c: Codec, s: bytes)
    requires s != [] && StartsNumber(s[0]) && ParseNumber(c, s).Some?
    ensures var rest := ParseNumber(c, s).value.1;
            |rest| < |s| && s == s[..|s| - |rest|] + rest && OpensNumber(s[..|s| - |rest|])
  {
  }

  lemma ParsedWord(c: Codec, s: bytes, depth: nat) returns (doc: Doc)
    requires ParseValue(c, s, depth).Some?
    requires s != [] && s[0] !in {JsonString.QUOTE, OPEN_ARRAY, OPEN_OBJECT} && !StartsNumber(s[0])
    ensures doc.NullWord? || doc.FalseWord? || doc.TrueWord?
    ensures ParseValue(c, s, depth) == Some((Mean(c, doc), ParseValue(c, s, depth).value.1))
    ensures s == Show(doc, ParseValue(c, s, depth).value.1)
  {
    assert Ascii("null") == NULL_TEXT && Ascii("false") == FALSE_TEXT && Ascii("true") == TRUE_TEXT;
    doc := if NULL_TEXT <= s then NullWord else if FALSE_TEXT <= s then FalseWord else TrueWord;
  }

  lemma {:induction false} ParsedArray(c: Codec, s: bytes, depth: nat) returns (doc: Doc)
    requires s != [] && s[0] == OPEN_ARRAY && ParseArray(c, s, depth).Some? && depth <= 1000
    ensures !doc.Num? && Says(c, doc) && s == Show(doc, ParseArray(c, s, depth).value.1)
    ensures ParseArray(c, s, depth).value.0 == Mean(c, doc) && depth + Nesting(Mean(c, doc)) <= 1000
    decreases |s|, 0
  {
    hide ParseItems, Skip, Show, Says, Mean, Nesting, ShowItems, SayAll, MeanItems, ItemsNesting;
    var s1 := Skip(s[1..]);
    assert s == Ascii("[") + s[1..];
    if s1[0] == CLOSE_ARRAY {
      var gap := SkippedIsBlank(s[1..]);
      assert s1 == Ascii("]") + s1[1..];
      doc := Arr(gap, []);
      EmptyArray(c, gap, s1[1..]);
    } else {
      var tail := ParseItems(c, s1, depth + 1).value.1;
      assert tail == Ascii("]") + tail[1..];
      ItemsAfterBlanks(c, s[1..], depth + 1);
      var items := ParsedItems(c, s[1..], depth + 1);
      doc := Arr([], items);
      FullArray(c, items, tail[1..]);
    }
  }

  lemma EmptyArray(c: Codec, gap: bytes, rest: bytes)
    requires Blank(gap)
    ensures Says(c, Arr(gap, [])) && Show(Arr(gap, []), rest) == Ascii("[") + (gap + (Ascii("]") + rest))
    ensures Mean(c, Arr(gap, [])) == Array([]) && Nesting(Mean(c, Arr(gap, []))) == 1
  {
  }

  lemma FullArray(c: Codec, items: seq<Item>, rest: bytes)
    requires SayAll(c, items) && items != []
    ensures Says(c, Arr([], items)) && Show(Arr([], items), rest) == Ascii("[") + ShowItems(items, Ascii("]") + rest)
    ensures Mean(c, Arr([], items)) == Array(MeanItems(c, items))
    ensures Nesting(Mean(c, Arr([], items))) == 1 + ItemsNesting(MeanItems(c, items))
  {
  }

  lemma ItemsAfterBlanks(c: Codec, s: bytes, depth: nat)
    requires ParseItems(c, Skip(s), depth).Some?
    ensures ParseItems(c, s, depth) == ParseItems(c, Skip(s), depth)
  {
    hide ParseValue;
    ParsedIsSolid(c, Skip(Skip(s)), depth);
  }

  lemma {:induction false} ParsedItems(c: Codec, s: bytes, depth: nat) returns (items: seq<Item>)
    requires ParseItems(c, s, depth).Some? && depth <= 1000
    requires var tail := ParseItems(c, s, depth).value.1; tail != [] && tail[0] == CLOSE_ARRAY
    ensures items != [] && SayAll(c, items) && s == ShowItems(items, ParseItems(c, s, depth).value.1)
    ensures ParseItems(c, s, depth).value.0 == MeanItems(c, items) && depth + ItemsNesting(MeanItems(c, items)) <= 1000
    decreases |s|, 2
  {
    hide ParseValue, Skip, Says, SaysBefore, Mean, Nesting, Show;
    var tail := ParseItems(c, s, depth).value.1;
    var (v, next) := ParseValue(c, Skip(s), depth).value;
    var doc := ParsedSays(c, Skip(s), depth);
    ParsedIsSolid(c, Skip(s), depth);
    var before := SkippedIsBlank(s);
    var s1 := Skip(next);
    var after := SkippedIsBlank(next);
    NextEndsNumber(after, s1);
    StandsAlone(c, doc, next);
    if s1[0] == COMMA {
      assert s1 == Ascii(",") + s1[1..];
      var more := ParsedItems(c, s1[1..], depth);
      items := [Item(before, doc, after)] + more;
      assert items[1..] == more;
    } else {
      items := [Item(before, doc, after)];
      assert items[1..] == [] && MeanItems(c, items) == [v];
    }
    var vs := MeanItems(c, items);
    assert vs[0] == v && vs[1..] == MeanItems(c, items[1..]);
  }

  lemma NextEndsNumber(after: bytes, s1: bytes)
    requires Blank(after) && s1 != [] && s1[0] in {COMMA, CLOSE_ARRAY, CLOSE_OBJECT}
    ensures EndsNumber(after + s1)
  {
  }

  lemma StandsAlone(c: Codec, doc: Doc, next: bytes)
    requires SaysBefore(c, doc, next) && EndsNumber(next)
    ensures Says(c, doc)
  {
    if doc.Num? {
      NumberIsBefore(c, doc.text, doc.n, next);
    }
  }

  lemma {:induction false} ParsedObject(c: Codec, s: bytes, depth: nat) returns (doc: Doc)
    requires s != [] && s[0] == OPEN_OBJECT && ParseObject(c, s, depth).Some? && depth <= 1000
    ensures !doc.Num? && Says(c, doc) && s == Show(doc, ParseObject(c, s, depth).value.1)
    ensures ParseObject(c, s, depth).value.0 == Mean(c, doc) && depth + Nesting(Mean(c, doc)) <= 1000
    decreases |s|, 0
  {
    hide ParseMembers, Skip, Show, Says, Mean, Nesting, ShowEntries, EntriesSay, MeanEntries, MembersNesting;
    var s1 := Skip(s[1..]);
    assert s == Ascii("{") + s[1..];
    if s1[0] == CLOSE_OBJECT {
      var gap := SkippedIsBlank(s[1..]);
      assert s1 == Ascii("}") + s1[1..];
      doc := Obj(gap, []);
      EmptyObject(c, gap, s1[1..]);
    } else {
      var tail := ParseMembers(c, s1, depth + 1).value.1;
      assert tail == Ascii("}") + tail[1..];
      MembersAfterBlanks(c, s[1..], depth + 1);
      var entries := ParsedEntries(c, s[1..], depth + 1);
      doc := Obj([], entries);
      FullObject(c, entries, tail[1..]);
    }
  }

  lemma EmptyObject(c: Codec, gap: bytes, rest: bytes)
    requires Blank(gap)
    ensures Says(c, Obj(gap, [])) && Show(Obj(gap, []), rest) == Ascii("{") + (gap + (Ascii("}") + rest))
    ensures Mean(c, Obj(gap, [])) == Object([]) && Nesting(Mean(c, Obj(gap, []))) == 1
  {
  }

  lemma FullObject(c: Codec, entries: seq<Entry>, rest: bytes)
    requires EntriesSay(c, entries) && entries != []
    ensures Says(c, Obj([], entries)) && Show(Obj([], entries), rest) == Ascii("{") + ShowEntries(entries, Ascii("}") + rest)
    ensures Mean(c, Obj([], entries)) == Object(MeanEntries(c, entries))
    ensures Nesting(Mean(c, Obj([], entries))) == 1 + MembersNesting(MeanEntries(c, entries))
  {
  }

  lemma MembersAfterBlanks(c: Codec, s: bytes, depth: nat)
    requires ParseMembers(c, Skip(s), depth).Some?
    ensures ParseMembers(c, s, depth) == ParseMembers(c, Skip(s), depth)
  {
    hide ParseValue, ParseStringValue;
    assert ParseMember(c, Skip(s), depth).Some?;
    NameIsSolid(Skip(Skip(s)));
    assert ParseMember(c, s, depth) == ParseMember(c, Skip(s), depth);
  }

  lemma NameIsSolid(s: bytes)
    requires ParseStringValue(s).Some?
    ensures Solid(s)
  {
  }

  // The parts of a member.
  lemma ParsedEntry(c: Codec, s: bytes, depth: nat) returns (e: Entry)
    requires ParseMember(c, s, depth).Some? && depth <= 1000
    ensures Blank(e.before) && Blank(e.between) && Blank(e.gap) && e.after == [] && IsQuote(e.name)
    ensures var (m, next) := ParseMember(c, s, depth).value;
            && s == e.before + (e.name.text + AfterName(e, next)) && SaysBefore(c, e.doc, next)
            && m == Member(Said(e.name), Mean(c, e.doc)) && depth + Nesting(m.value) <= 1000
    decreases |s|, 2
  {
    hide ParseValue, ParseStringValue, Skip, Says, IsQuote, Said, SaysBefore, Mean, Nesting, Show;
    var k := ParseStringValue(Skip(s)).value;
    NameIsSolid(Skip(s));
    var before := SkippedIsBlank(s);
    var name := ParsedQuote(Skip(s));
    var s1 := Skip(k.1);
    var between := SkippedIsBlank(k.1);
    assert s1 == Ascii(":") + s1[1..];
    var doc := ParsedSays(c, Skip(s1[1..]), depth);
    ParsedIsSolid(c, Skip(s1[1..]), depth);
    var gap := SkippedIsBlank(s1[1..]);
    e := Entry(before, name, between, gap, doc, []);
  }

  lemma {:induction false} ParsedEntries(c: Codec, s: bytes, depth: nat) returns (entries: seq<Entry>)
    requires ParseMembers(c, s, depth).Some? && depth <= 1000
    requires var tail := ParseMembers(c, s, depth).value.1; tail != [] && tail[0] == CLOSE_OBJECT
    ensures entries != [] && EntriesSay(c, entries) && s == ShowEntries(entries, ParseMembers(c, s, depth).value.1)
    ensures ParseMembers(c, s, depth).value.0 == MeanEntries(c, entries)
    ensures depth + MembersNesting(MeanEntries(c, entries)) <= 1000
    decreases |s|, 3
  {
    hide ParseMember, Skip, Says, SaysBefore, Mean, Nesting, Show, IsQuote, Said;
    var tail := ParseMembers(c, s, depth).value.1;
    var (m, next) := ParseMember(c, s, depth).value;
    var e := ParsedEntry(c, s, depth);
    var s1 := Skip(next);
    var after := SkippedIsBlank(next);
    NextEndsNumber(after, s1);
    StandsAlone(c, e.doc, next);
    e := e.(after := after);
    if s1[0] == COMMA {
      assert s1 == Ascii(",") + s1[1..];
      var more := ParsedEntries(c, s1[1..], depth);
      entries := [e] + more;
      assert entries[1..] == more;
    } else {
      entries := [e];
      assert entries[1..] == [] && MeanEntries(c, entries) == [m];
    }
    var ms := MeanEntries(c, entries);
    assert ms[0] == m && ms[1..] == MeanEntries(c, entries[1..]);
  }

  // ----- The language -----------------------------------------------------------------------

  /** A value and a rest are what a text parses to exactly if the text is a document that means the value, nested
      within the limit, in front of the rest. */
  lemma ValueIff(c: Codec, s: bytes, depth: nat, v: Json, rest: bytes)
    requires depth <= 1000
    ensures ParseValue(c, s, depth) == Some((v, rest)) <==>
            exists doc :: SaysBefore(c, doc, rest) && s == Show(doc, rest) && Mean(c, doc) == v && depth + Nesting(v) <= 1000
  {
    hide ParseValue, SaysBefore, Show, Mean, Nesting;
    if ParseValue(c, s, depth) == Some((v, rest)) {
      var doc := ParsedSays(c, s, depth);
    }
    if doc :| SaysBefore(c, doc, rest) && s == Show(doc, rest) && Mean(c, doc) == v && depth + Nesting(v) <= 1000 {
      DocParses(c, doc, depth, rest);
    }
  }

  /** No value that parses is nested deeper than the limit, however the input was made. */
  lemma ParsedIsWithinLimit(c: Codec, s: bytes, depth: nat)
    requires depth <= LIMIT && ParseValue(c, s, depth).Some?
    ensures depth + Nesting(ParseValue(c, s, depth).value.0) <= LIMIT
  {
    hide ParseValue, SaysBefore, Show, Mean, Nesting;
    var doc := ParsedSays(c, s, depth);
  }

  /** What may follow the value where the terminator is required: blanks, and a last NUL. */
  predicate Terminates(rest: bytes) {
    rest != [] && Blank(rest) && rest[|rest| - 1] == 0
  }

  /** A byte order mark, in a text of more than four bytes, blanks and a document. */
  ghost predicate Spells(c: Codec, content: bytes, mark: bytes, w: bytes, doc: Doc, rest: bytes) {
    && (mark == [] || (mark == [0xEF, 0xBB, 0xBF] && |content| > 4))
    && Blank(w) && SaysBefore(c, doc, rest) && content == mark + (w + Show(doc, rest))
  }

  lemma DocumentParses(c: Codec, content: bytes, requireTerminator: bool, mark: bytes, w: bytes, doc: Doc, rest: bytes)
    requires Spells(c, content, mark, w, doc, rest) && Nesting(Mean(c, doc)) <= 1000
    requires requireTerminator ==> Terminates(rest)
    ensures ParseDocument(c, content, requireTerminator) == Some(Mean(c, doc))
  {
    hide ParseValue, SaysBefore, Show, Mean, Nesting, Skip;
    var t := Show(doc, rest);
    ShowIsSolid(c, doc, rest);
    PrefixHead(BOM, w + t);
    assert mark != [] ==> content[3..] == w + t && BOM <= content;
    assert mark == [] ==> content == w + t;
    SkipBlanks(w, t);
    DocParses(c, doc, 0, rest);
    if requireTerminator {
      SkipAllBlank(rest);
    }
  }

  lemma {:induction false} DropAllBlank(s: bytes)
    ensures DropBlanks(s) == [] <==> Blank(s)
  {
    if s != [] && s[0] <= 32 {
      DropAllBlank(s[1..]);
      assert Blank(s) <==> Blank(s[1..]);
    }
  }

  lemma SkipAllBlank(rest: bytes)
    ensures Terminates(rest) <==> Skip(rest) != [] && Skip(rest)[0] == 0
  {
    DropAllBlank(rest);
  }

  /** cJSON_ParseWithLengthOpts takes exactly these texts, and a text that it takes has one meaning. */
  lemma DocumentIff(c: Codec, content: bytes, requireTerminator: bool, v: Json)
    ensures ParseDocument(c, content, requireTerminator) == Some(v) <==>
            exists mark, w, doc, rest ::
              && Spells(c, content, mark, w, doc, rest) && Mean(c, doc) == v && Nesting(v) <= 1000
              && (requireTerminator ==> Terminates(rest))
  {
    hide ParseValue, SaysBefore, Show, Mean, Nesting, Skip;
    if ParseDocument(c, content, requireTerminator) == Some(v) {
      var mark := if |content| > 4 && BOM <= content then BOM else [];
      var s := content[|mark|..];
      assert content == mark + s;
      var rest := ParseValue(c, Skip(s), 0).value.1;
      var doc := ParsedSays(c, Skip(s), 0);
      ParsedIsSolid(c, Skip(s), 0);
      var w := SkippedIsBlank(s);
      SkipAllBlank(rest);
      assert Spells(c, content, mark, w, doc, rest);
    }
    if mark, w, doc, rest :|
      && Spells(c, content, mark, w, doc, rest) && Mean(c, doc) == v && Nesting(v) <= 1000
      && (requireTerminator ==> Terminates(rest))
    {
      DocumentParses(c, content, requireTerminator, mark, w, doc, rest);
    }
  }
}
