/**
 JSON trees and their text, after nrf/ext/iperf3/cjson.c: the text that printing produces, and the
 recursive-descent parser as a function on what is left of the input. Number text is an
 abstract pair of functions, standing for sprintf and strtod.
 */
module JsonText {
  import opened Bytes
  import opened JsonString
  import opened Wrappers

  type bytes = seq<byte>

  /** A double, as its 64-bit pattern. */
  type Double = x: int | 0 <= x < 0x1_0000_0000_0000_0000

  datatype Member = Member(key: bytes, value: Json)

  datatype Json =
    | Null
    | False
    | True
    | Number(n: Double)
    | String(s: bytes)
    | Raw(text: bytes)
    | Array(items: seq<Json>)
    | Object(members: seq<Member>)

  const LIMIT := 1000

  /** How many containers the deepest value is inside of, itself included. */
  function Nesting(v: Json): nat
    decreases v, 1
  {
    match v
    case Array(items) => 1 + ItemsNesting(items)
    case Object(members) => 1 + MembersNesting(members)
    case _ => 0
  }

  function ItemsNesting(items: seq<Json>): nat
    decreases items, 0
  {
    if items == [] then 0 else Max(Nesting(items[0]), ItemsNesting(items[1..]))
  }

  function MembersNesting(members: seq<Member>): nat
    decreases members, 0
  {
    if members == [] then 0 else Max(Nesting(members[0].value), MembersNesting(members[1..]))
  }

  // ----- Numbers ------------------------------------------------------------------------

  predicate IsNumberChar(b: byte) {
    48 <= b <= 57 || b == 43 || b == 45 || b == 46 || b == 101 || b == 69
  }

  predicate StartsNumber(b: byte) {
    48 <= b <= 57 || b == 45
  }

  /** sprintf and strtod: the text of a number, and the number at the head of a text with the
      number of bytes it takes. */
  datatype Codec = Codec(show: Double -> bytes, scan: bytes -> Option<(Double, nat)>)

  predicate IsNumberText(t: bytes) {
    0 < |t| <= 25 && StartsNumber(t[0]) && forall i :: 0 <= i < |t| ==> IsNumberChar(t[i])
  }

  /** The characters that parse_number copies: at most 63. */
  function NumberRun(s: bytes, max: nat): (r: bytes)
    ensures |r| <= |s|
  {
    if max == 0 || s == [] || !IsNumberChar(s[0]) then [] else [s[0]] + NumberRun(s[1..], max - 1)
  }

  // ----- Printing -------------------------------------------------------------------------

  const COMMA: byte := 44
  const COLON: byte := 58
  const OPEN_ARRAY: byte := 91
  const CLOSE_ARRAY: byte := 93
  const OPEN_OBJECT: byte := 123
  const CLOSE_OBJECT: byte := 125
  const TAB: byte := 9
  const NEWLINE: byte := 10
  const SPACE: byte := 32

  const NULL_TEXT: bytes := [110, 117, 108, 108]
  const FALSE_TEXT: bytes := [102, 97, 108, 115, 101]
  const TRUE_TEXT: bytes := [116, 114, 117, 101]

  function HexDigit(v: nat): byte
    requires v < 16
  {
    if v < 10 then (48 + v) as byte else (87 + v) as byte
  }

  /** How print_string_ptr writes one byte. */
  function EscapeByte(b: byte): (t: bytes)
    ensures 0 < |t| <= 6
  {
    if b > 31 && b != QUOTE && b != BACKSLASH then [b]
    else if b == BACKSLASH || b == QUOTE then [BACKSLASH, b]
    else if b == 8 then [BACKSLASH, 98]
    else if b == 12 then [BACKSLASH, 102]
    else if b == 10 then [BACKSLASH, 110]
    else if b == 13 then [BACKSLASH, 114]
    else if b == 9 then [BACKSLASH, 116]
    else [BACKSLASH, 117, 48, 48, HexDigit(b as nat / 16), HexDigit(b as nat % 16)]
  }

  function Escape(s: bytes): bytes {
    if s == [] then [] else EscapeByte(s[0]) + Escape(s[1..])
  }

  function Quoted(s: bytes): bytes {
    [QUOTE] + Escape(s) + [QUOTE]
  }

  function Tabs(n: nat): (t: bytes)
    ensures |t| == n && forall i :: 0 <= i < n ==> t[i] == TAB
  {
    if n == 0 then [] else [TAB] + Tabs(n - 1)
  }

  /** The text of a value, formatted or not, at a nesting depth. */
  function Text(c: Codec, fmt: bool, depth: nat, v: Json): bytes
    decreases v, 1
  {
    match v
    case Null => NULL_TEXT
    case False => FALSE_TEXT
    case True => TRUE_TEXT
    case Number(n) => c.show(n)
    case String(s) => Quoted(s)
    case Raw(t) => t
    case Array(items) => [OPEN_ARRAY] + Items(c, fmt, depth + 1, items) + [CLOSE_ARRAY]
    case Object(members) =>
      [OPEN_OBJECT] + (if fmt then [NEWLINE] else []) + Members(c, fmt, depth + 1, members)
      + (if fmt then Tabs(depth) else []) + [CLOSE_OBJECT]
  }

  function Items(c: Codec, fmt: bool, depth: nat, items: seq<Json>): bytes
    decreases items, 0
  {
    if items == [] then []
    else Text(c, fmt, depth, items[0]) + ItemSeparator(fmt, |items| > 1) + Items(c, fmt, depth, items[1..])
  }

  function ItemSeparator(fmt: bool, more: bool): bytes {
    if !more then [] else if fmt then [COMMA, SPACE] else [COMMA]
  }

  function Members(c: Codec, fmt: bool, depth: nat, members: seq<Member>): bytes
    decreases members, 0
  {
    if members == [] then []
    else
      (if fmt then Tabs(depth) else []) + Quoted(members[0].key) + (if fmt then [COLON, TAB] else [COLON])
      + Text(c, fmt, depth, members[0].value) + MemberSeparator(fmt, |members| > 1)
      + Members(c, fmt, depth, members[1..])
  }

  function MemberSeparator(fmt: bool, more: bool): bytes {
    (if more then [COMMA] else []) + (if fmt then [NEWLINE] else [])
  }

  // ----- Parsing ----------------------------------------------------------------------------

  function DropBlanks(s: bytes): (r: bytes)
    ensures |r| <= |s| && (r != [] ==> r[0] > 32)
    ensures r == [] ==> forall i :: 0 <= i < |s| ==> s[i] <= 32
  {
    if s == [] || s[0] > 32 then s else DropBlanks(s[1..])
  }

  /** buffer_skip_whitespace: having reached the end of the input it steps back by one, onto a
      blank and so never onto a separator. */
  function Skip(s: bytes): (r: bytes)
    ensures |r| <= |s| && (s != [] ==> r != [])
    ensures r != [] && r[0] <= 32 ==> |r| == 1
    ensures s != [] && DropBlanks(s) == [] ==> r[0] <= 32
  {
    var r := DropBlanks(s);
    if s != [] && r == [] then s[|s| - 1..] else r
  }

  /** What C code sees of a decoded string. */
  function CString(s: bytes): bytes {
    if s == [] || s[0] == 0 then [] else [s[0]] + CString(s[1..])
  }

  predicate NoNul(s: bytes) {
    forall i :: 0 <= i < |s| ==> s[i] != 0
  }

  lemma {:induction false} CStringIsWhole(s: bytes)
    requires NoNul(s)
    ensures CString(s) == s
  {
    if s != [] {
      CStringIsWhole(s[1..]);
    }
  }

  type Parsed = Option<(Json, bytes)>

  function ParseStringValue(s: bytes): (r: Option<(bytes, bytes)>)
    ensures r.Some? ==> |r.value.1| < |s|
  {
    var r := StringAt(s);
    if r.None? then None else Some((CString(r.value.0), s[r.value.1..]))
  }

  function ParseNumber(c: Codec, s: bytes): (r: Parsed)
    ensures r.Some? ==> |r.value.1| < |s| && r.value.0.Number?
  {
    var run := NumberRun(s, 63);
    var n := c.scan(run);
    if n.None? || !(0 < n.value.1 <= |run|) then None else Some((Number(n.value.0), s[n.value.1..]))
  }

  /** parse_value at the head of s, inside `depth` containers: the value and what is left. */
  function ParseValue(c: Codec, s: bytes, depth: nat): (r: Parsed)
    ensures r.Some? ==> |r.value.1| < |s|
    decreases |s|, 1
  {
    if NULL_TEXT <= s then Some((Null, s[4..]))
    else if FALSE_TEXT <= s then Some((False, s[5..]))
    else if TRUE_TEXT <= s then Some((True, s[4..]))
    else if s == [] then None
    else if s[0] == QUOTE then
      var r := ParseStringValue(s);
      if r.None? then None else Some((String(r.value.0), r.value.1))
    else if StartsNumber(s[0]) then ParseNumber(c, s)
    else if s[0] == OPEN_ARRAY then ParseArray(c, s, depth)
    else if s[0] == OPEN_OBJECT then ParseObject(c, s, depth)
    else None
  }

  /** parse_array, at its opening bracket. */
  function ParseArray(c: Codec, s: bytes, depth: nat): (r: Parsed)
    requires s != []
    ensures r.Some? ==> |r.value.1| < |s|
    decreases |s|, 0
  {
    var s1 := Skip(s[1..]);
    if depth >= LIMIT || s1 == [] then None
    else if s1[0] == CLOSE_ARRAY then Some((Array([]), s1[1..]))
    else
      var r := ParseItems(c, s1, depth + 1);
      if r.None? || r.value.1 == [] || r.value.1[0] != CLOSE_ARRAY then None
      else Some((Array(r.value.0), r.value.1[1..]))
  }

  /** parse_object, at its opening brace. */
  function ParseObject(c: Codec, s: bytes, depth: nat): (r: Parsed)
    requires s != []
    ensures r.Some? ==> |r.value.1| < |s|
    decreases |s|, 0
  {
    var s1 := Skip(s[1..]);
    if depth >= LIMIT || s1 == [] then None
    else if s1[0] == CLOSE_OBJECT then Some((Object([]), s1[1..]))
    else
      var r := ParseMembers(c, s1, depth + 1);
      if r.None? || r.value.1 == [] || r.value.1[0] != CLOSE_OBJECT then None
      else Some((Object(r.value.0), r.value.1[1..]))
  }

  /** The loop of parse_array, up to the first byte that is not a comma. */
  function ParseItems(c: Codec, s: bytes, depth: nat): (r: Option<(seq<Json>, bytes)>)
    ensures r.Some? ==> |r.value.1| < |s| && r.value.0 != []
    decreases |s|, 2
  {
    var v := ParseValue(c, Skip(s), depth);
    if v.None? then None
    else
      var s1 := Skip(v.value.1);
      if s1 == [] || s1[0] != COMMA then Some(([v.value.0], s1))
      else
        var r := ParseItems(c, s1[1..], depth);
        if r.None? then None else Some(([v.value.0] + r.value.0, r.value.1))
  }

  /** A name, a colon and a value. */
  function ParseMember(c: Codec, s: bytes, depth: nat): (r: Option<(Member, bytes)>)
    ensures r.Some? ==> |r.value.1| < |s|
    decreases |s|, 2
  {
    var k := ParseStringValue(Skip(s));
    if k.None? then None
    else
      var s1 := Skip(k.value.1);
      if s1 == [] || s1[0] != COLON then None
      else
        var v := ParseValue(c, Skip(s1[1..]), depth);
        if v.None? then None else Some((Member(k.value.0, v.value.0), v.value.1))
  }

  /** The loop of parse_object, up to the first byte that is not a comma. */
  function ParseMembers(c: Codec, s: bytes, depth: nat): (r: Option<(seq<Member>, bytes)>)
    ensures r.Some? ==> |r.value.1| < |s| && r.value.0 != []
    decreases |s|, 3
  {
    var m := ParseMember(c, s, depth);
    if m.None? then None
    else
      var s1 := Skip(m.value.1);
      if s1 == [] || s1[0] != COMMA then Some(([m.value.0], s1))
      else
        var r := ParseMembers(c, s1[1..], depth);
        if r.None? then None else Some(([m.value.0] + r.value.0, r.value.1))
  }

  const BOM: bytes := [0xEF, 0xBB, 0xBF]

  /** cJSON_ParseWithLengthOpts on a buffer. */
  function ParseDocument(c: Codec, content: bytes, requireTerminator: bool): Option<Json> {
    if content == [] then None
    else
      var s := if |content| > 4 && BOM <= content then content[3..] else content;
      var r := ParseValue(c, Skip(s), 0);
      if r.None? then None
      else if !requireTerminator then Some(r.value.0)
      else
        var tail := Skip(r.value.1);
        if tail == [] || tail[0] != 0 then None else Some(r.value.0)
  }
}
