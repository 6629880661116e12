/**
 JSON string literals as nrf/ext/iperf3/cjson.c reads them: a first pass finds the closing quote
 and estimates the size of the result, a second pass decodes into a buffer of that size.
 Texts are byte sequences; a literal starts at index 0 with its opening quote.
 */
module JsonString {
  import opened Bytes
  import opened Wrappers

  const QUOTE: byte := 34
  const BACKSLASH: byte := 92

  // ----- Hexadecimal and UTF-8 ---------------------------------------------------

  predicate IsHex(c: byte) {
    48 <= c <= 57 || 65 <= c <= 70 || 97 <= c <= 102
  }

  function HexValue(c: byte): (v: nat)
    requires IsHex(c)
    ensures v < 16
  {
    if c <= 57 then c as nat - 48 else if c <= 70 then c as nat - 55 else c as nat - 87
  }

  /** parse_hex4: four digits, or 0 when one of them is not hexadecimal. */
  function Hex4(a: byte, b: byte, c: byte, d: byte): (v: nat)
    ensures v < 0x10000
  {
    if IsHex(a) && IsHex(b) && IsHex(c) && IsHex(d) then
      ((HexValue(a) * 16 + HexValue(b)) * 16 + HexValue(c)) * 16 + HexValue(d)
    else 0
  }

  /** Section 3 of RFC 3629. */
  function Utf8(cp: nat): (u: seq<byte>)
    requires cp < 0x110000
    ensures |u| == if cp < 0x80 then 1 else if cp < 0x800 then 2 else if cp < 0x10000 then 3 else 4
  {
    if cp < 0x80 then [cp as byte]
    else if cp < 0x800 then [(0xC0 + cp / 0x40) as byte, Trail(cp)]
    else if cp < 0x10000 then [(0xE0 + cp / 0x1000) as byte, Trail(cp / 0x40), Trail(cp)]
    else [(0xF0 + cp / 0x40000) as byte, Trail(cp / 0x1000), Trail(cp / 0x40), Trail(cp)]
  }

  function Trail(cp: nat): byte {
    (0x80 + cp % 0x40) as byte
  }

  predicate IsHighSurrogate(code: nat) { 0xD800 <= code <= 0xDBFF }
  predicate IsLowSurrogate(code: nat) { 0xDC00 <= code <= 0xDFFF }

  /** Section 2.2 of RFC 2781. */
  function FromSurrogates(high: nat, low: nat): (cp: nat)
    ensures 0x10000 <= cp < 0x110000
  {
    0x10000 + (high % 0x400) * 0x400 + low % 0x400
  }

  // ----- The two passes -----------------------------------------------------------

  /** The first pass: the index of the closing quote, if there is one. */
  function FindEnd(s: seq<byte>, i: nat): (r: Option<nat>)
    ensures r.Some? ==> i <= r.value < |s| && s[r.value] == QUOTE
    decreases |s| - i
  {
    if i >= |s| then None
    else if s[i] == QUOTE then Some(i)
    else if s[i] != BACKSLASH then FindEnd(s, i + 1)
    else if i + 1 >= |s| then None
    else FindEnd(s, i + 2)
  }

  /** utf16_literal_to_utf8 at index i: the bytes and the length of the escape. */
  function UnicodeEscape(s: seq<byte>, i: nat, end: nat): (r: Option<(seq<byte>, nat)>)
    requires i < end < |s|
    ensures r.Some? ==> (r.value.1 == 6 || r.value.1 == 12) && i + r.value.1 <= end && 2 * |r.value.0| <= r.value.1
  {
    if end - i < 6 then None
    else
      var first := Hex4(s[i + 2], s[i + 3], s[i + 4], s[i + 5]);
      if IsLowSurrogate(first) then None
      else if !IsHighSurrogate(first) then Some((Utf8(first), 6))
      else if end - (i + 6) < 6 || s[i + 6] != BACKSLASH || s[i + 7] != 117 then None
      else
        var second := Hex4(s[i + 8], s[i + 9], s[i + 10], s[i + 11]);
        if !IsLowSurrogate(second) then None else Some((Utf8(FromSurrogates(first, second)), 12))
  }

  /** The byte that a one-letter escape stands for. */
  function SimpleEscape(c: byte): Option<byte> {
    if c == 98 then Some(8)
    else if c == 102 then Some(12)
    else if c == 110 then Some(10)
    else if c == 114 then Some(13)
    else if c == 116 then Some(9)
    else if c == QUOTE || c == BACKSLASH || c == 47 then Some(c)
    else None
  }

  /** One unit of the second pass: the bytes it yields and where the next unit starts. */
  function Unit(s: seq<byte>, i: nat, end: nat): (r: Option<(seq<byte>, nat)>)
    requires i < end < |s|
    ensures r.Some? ==> i < r.value.1 <= end + 1
  {
    if s[i] != BACKSLASH then Some(([s[i]], i + 1))
    else if s[i + 1] == 117 then
      var u := UnicodeEscape(s, i, end);
      if u.None? then None else Some((u.value.0, i + u.value.1))
    else
      var e := SimpleEscape(s[i + 1]);
      if e.None? then None else Some(([e.value], i + 2))
  }

  /** The second pass from index i. */
  function Unescape(s: seq<byte>, i: nat, end: nat): Option<seq<byte>>
    requires end < |s|
    decreases end - i
  {
    if i >= end then Some([])
    else
      var u := Unit(s, i, end);
      if u.None? then None
      else
        var rest := Unescape(s, u.value.1, end);
        if rest.None? then None else Some(u.value.0 + rest.value)
  }

  /** parse_string: the decoded bytes and the number of bytes read. */
  function StringAt(s: seq<byte>): (r: Option<(seq<byte>, nat)>)
    ensures r.Some? ==> 0 < r.value.1 <= |s|
  {
    if s == [] || s[0] != QUOTE then None
    else
      var end := FindEnd(s, 1);
      if end.None? then None
      else
        var out := Unescape(s, 1, end.value);
        if out.None? then None else Some((out.value, end.value + 1))
  }

  // ----- The size estimate ----------------------------------------------------------

  /** The first pass stops at index i, rather than stepping over it as an escaped byte. */
  predicate Lands(s: seq<byte>, i: nat)
    requires i <= |s|
  {
    i <= 1 || !Lands(s, i - 1) || s[i - 1] != BACKSLASH
  }

  /** skipped_bytes when the first pass has read up to index i. */
  function Skipped(s: seq<byte>, i: nat): nat
    requires i <= |s|
  {
    if i <= 1 then 0
    else Skipped(s, i - 1) + if Lands(s, i - 1) && s[i - 1] == BACKSLASH then 1 else 0
  }

  /** The size estimate up to index i: bytes read, the opening quote included, less escapes. */
  function Estimate(s: seq<byte>, i: nat): int
    requires i <= |s|
  {
    i - Skipped(s, i)
  }

  lemma {:induction false} EstimateGrows(s: seq<byte>, i: nat, k: nat)
    requires 1 <= i && i + 2 * k <= |s|
    ensures Estimate(s, i) + k <= Estimate(s, i + 2 * k)
    decreases k
  {
    if k > 0 {
      EstimateGrows(s, i, k - 1);
      EscapesDoNotTouch(s, i + 2 * (k - 1));
    }
  }

  // Of two neighbouring bytes the first pass skips at most one.
  lemma EscapesDoNotTouch(s: seq<byte>, j: nat)
    requires 1 <= j && j + 2 <= |s|
    ensures Skipped(s, j + 2) <= Skipped(s, j) + 1
  {
  }

  lemma {:induction false} EstimateIsMonotone(s: seq<byte>, i: nat, j: nat)
    requires 1 <= i <= j <= |s|
    ensures Estimate(s, i) <= Estimate(s, j)
    decreases j - i
  {
    if i < j {
      EstimateIsMonotone(s, i, j - 1);
    }
  }

  /** Whatever is between the quotes, a unit of the second pass never yields more than the
      estimate grows by, even where the two passes are out of step over backslashes. */
  lemma UnitFitsEstimate(s: seq<byte>, i: nat, end: nat)
    requires 1 <= i < end < |s| && s[end] == QUOTE && Unit(s, i, end).Some?
    ensures var (bytes, j) := Unit(s, i, end).value;
            Estimate(s, i) + |bytes| <= Estimate(s, j) <= Estimate(s, end + 1)
  {
    var (bytes, j) := Unit(s, i, end).value;
    if s[i] == BACKSLASH {
      EstimateGrows(s, i, (j - i) / 2);
    }
    EstimateIsMonotone(s, j, end + 1);
  }

  /** parse_string never writes past its allocation: the result and its terminator fit in the
      estimated size plus one, for every input. */
  lemma {:induction false} ResultFitsEstimate(s: seq<byte>, i: nat, end: nat)
    requires 1 <= i <= end + 1 && end < |s| && s[end] == QUOTE && Unescape(s, i, end).Some?
    ensures Estimate(s, i) + |Unescape(s, i, end).value| <= Estimate(s, end) + 1
    decreases end + 1 - i
  {
    if i < end {
      UnitFitsEstimate(s, i, end);
      ResultFitsEstimate(s, Unit(s, i, end).value.1, end);
    }
  }

  // ----- parse_string ---------------------------------------------------------------

  /** The value of the first i digits. */
  function HexPrefix(d: seq<byte>, i: nat): nat
    requires i <= |d| && forall k :: 0 <= k < i ==> IsHex(d[k])
  {
    if i == 0 then 0 else HexPrefix(d, i - 1) * 16 + HexValue(d[i - 1])
  }

  method ParseHex4(d: seq<byte>) returns (h: nat)
    requires |d| == 4
    ensures h == Hex4(d[0], d[1], d[2], d[3])
  {
    h := 0;
    for i := 0 to 4
      invariant forall k :: 0 <= k < i ==> IsHex(d[k])
      invariant h == if i < 4 then HexPrefix(d, i) * 16 else HexPrefix(d, 4)
    {
      if !IsHex(d[i]) {
        return 0;
      }
      h := h + HexValue(d[i]);
      if i < 3 {
        h := h * 16;
      }
    }
    assert HexPrefix(d, 2) == HexPrefix(d, 1) * 16 + HexValue(d[1]);
  }

  /** The encoding loop of utf16_literal_to_utf8: trailing bytes last to first, then the lead. */
  method EncodeUtf8(cp: nat, output: array<byte>, at: nat) returns (length: nat)
    requires cp < 0x110000 && at + |Utf8(cp)| <= output.Length
    modifies output
    ensures length == |Utf8(cp)| && output[at..at + length] == Utf8(cp)
    ensures output[..at] == old(output[..at])
  {
    var mark := 0;
    if cp < 0x80 {
      length := 1;
    } else if cp < 0x800 {
      length, mark := 2, 0xC0;
    } else if cp < 0x10000 {
      length, mark := 3, 0xE0;
    } else {
      length, mark := 4, 0xF0;
    }
    var codepoint, position := cp, length - 1;
    while position > 0
      invariant 0 <= position < length
      invariant output[..at] == old(output[..at])
      invariant position == length - 1 ==> codepoint == cp
      invariant position == length - 2 ==> codepoint == cp / 0x40
      invariant position == length - 3 ==> codepoint == cp / 0x1000
      invariant position == length - 4 ==> codepoint == cp / 0x40000
      invariant forall k :: position < k < length ==> output[at + k] == Utf8(cp)[k]
    {
      output[at + position] := (0x80 + codepoint % 0x40) as byte;
      codepoint := codepoint / 0x40;
      position := position - 1;
    }
    output[at] := if length > 1 then (mark + codepoint) as byte else codepoint as byte;
  }

  /** utf16_literal_to_utf8: writes the bytes at `at` and returns the length of the escape, or 0. */
  method Utf16LiteralToUtf8(s: seq<byte>, i: nat, end: nat, output: array<byte>, at: nat) returns (sequence: nat, written: nat)
    requires i < end < |s| && at <= output.Length
    requires UnicodeEscape(s, i, end).Some? ==> at + |UnicodeEscape(s, i, end).value.0| <= output.Length
    modifies output
    ensures output[..at] == old(output[..at])
    ensures sequence == 0 <==> UnicodeEscape(s, i, end).None?
    ensures UnicodeEscape(s, i, end).Some? ==>
              var (bytes, n) := UnicodeEscape(s, i, end).value;
              sequence == n && written == |bytes| && output[at..at + written] == bytes
  {
    written := 0;
    if end - i < 6 {
      return 0, 0;
    }
    var first := ParseHex4(s[i + 2..i + 6]);
    if IsLowSurrogate(first) {
      return 0, 0;
    }
    var codepoint := first;
    if IsHighSurrogate(first) {
      if end - (i + 6) < 6 || s[i + 6] != BACKSLASH || s[i + 7] != 117 {
        return 0, 0;
      }
      var second := ParseHex4(s[i + 8..i + 12]);
      if !IsLowSurrogate(second) {
        return 0, 0;
      }
      codepoint := FromSurrogates(first, second);
      sequence := 12;
    } else {
      sequence := 6;
    }
    written := EncodeUtf8(codepoint, output, at);
  }

  /** The first pass of parse_string. */
  method MeasureString(s: seq<byte>) returns (end: nat, skipped: nat, ok: bool)
    requires s != []
    ensures ok <==> FindEnd(s, 1).Some?
    ensures ok ==> FindEnd(s, 1) == Some(end) && skipped == Skipped(s, end)
  {
    end, skipped := 1, 0;
    while end < |s| && s[end] != QUOTE
      invariant 1 <= end <= |s| && Lands(s, end) && skipped == Skipped(s, end)
      invariant FindEnd(s, end) == FindEnd(s, 1)
    {
      if s[end] == BACKSLASH {
        if end + 1 >= |s| {
          return end, skipped, false;
        }
        assert !Lands(s, end + 1);
        skipped := skipped + 1;
        end := end + 1;
      }
      end := end + 1;
    }
    ok := end < |s|;
  }

  /** The second pass of parse_string: every write is inside the buffer. */
  method DecodeString(s: seq<byte>, end: nat, output: array<byte>) returns (ok: bool, o: nat)
    requires 1 <= end < |s| && s[end] == QUOTE && output.Length == Estimate(s, end) + 1
    modifies output
    ensures ok <==> Unescape(s, 1, end).Some?
    ensures ok ==> o < output.Length && output[..o] == Unescape(s, 1, end).value && output[o] == 0
  {
    hide UnicodeEscape, SimpleEscape, Skipped;
    var i := 1;
    o := 0;
    EstimateStart(s, end);
    NothingBefore(Unescape(s, 1, end), output[..0]);
    while i < end
      invariant 1 <= i <= end + 1 && 0 <= o && o + 1 <= Estimate(s, i) <= output.Length
      invariant Unescape(s, 1, end) == Prepend(output[..o], Unescape(s, i, end))
    {
      ghost var before := output[..o];
      if Unit(s, i, end).Some? {
        UnitFitsEstimate(s, i, end);
        PrependUnit(s, i, end, before);
      }
      if s[i] != BACKSLASH {
        output[o] := s[i];
        assert output[..o + 1] == before + [s[i]];
        i, o := i + 1, o + 1;
      } else if s[i + 1] == 117 {
        var sequence, written := Utf16LiteralToUtf8(s, i, end, output, o);
        if sequence == 0 {
          return false, o;
        }
        assert output[..o + written] == before + output[o..o + written];
        i, o := i + sequence, o + written;
      } else {
        var e := SimpleEscape(s[i + 1]);
        if e.None? {
          return false, o;
        }
        output[o] := e.value;
        assert output[..o + 1] == before + [e.value];
        i, o := i + 2, o + 1;
      }
    }
    output[o] := 0;
    ok := true;
  }

  lemma EstimateStart(s: seq<byte>, end: nat)
    requires 1 <= end < |s| && s[end] == QUOTE
    ensures 1 == Estimate(s, 1) <= Estimate(s, end) && Estimate(s, end + 1) == Estimate(s, end) + 1
  {
    EstimateIsMonotone(s, 1, end);
  }

  lemma NothingBefore(r: Option<seq<byte>>, none: seq<byte>)
    requires none == []
    ensures r == Prepend(none, r)
  {
    if r.Some? {
      assert none + r.value == r.value;
    }
  }

  /** parse_string, with its output buffer as large as the estimate says. */
  method ParseString(s: seq<byte>) returns (r: Option<(seq<byte>, nat)>)
    requires s != []
    ensures r == StringAt(s)
  {
    if s[0] != QUOTE {
      return None;
    }
    var end, skipped, found := MeasureString(s);
    if !found {
      return None;
    }
    EstimateStart(s, end);
    var allocation := end - skipped;
    var output := new byte[allocation + 1];
    var ok, o := DecodeString(s, end, output);
    return if ok then Some((output[..o], end + 1)) else None;
  }

  function Prepend(a: seq<byte>, r: Option<seq<byte>>): Option<seq<byte>> {
    if r.None? then None else Some(a + r.value)
  }

  lemma PrependUnit(s: seq<byte>, i: nat, end: nat, before: seq<byte>)
    requires i < end < |s| && Unit(s, i, end).Some?
    ensures var (bytes, j) := Unit(s, i, end).value;
            Prepend(before, Unescape(s, i, end)) == Prepend(before + bytes, Unescape(s, j, end))
  {
    var (bytes, j) := Unit(s, i, end).value;
    var rest := Unescape(s, j, end);
    if rest.Some? {
      assert before + (bytes + rest.value) == before + bytes + rest.value;
    }
  }
}
