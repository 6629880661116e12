/**
 Where the parser of nrf/ext/iperf3/cjson.c looks at the byte after its buffer. parse_string does not
 check that there is a byte at the offset, and the loop over the members of an object calls it right
 after a comma; everywhere else there is a byte or a check.
 */
module JsonOverread {
  import opened Bytes
  import opened JsonString
  import opened JsonText
  import opened Wrappers
  import RT = JsonRoundTrip

  /** Whether parse_value on s has parse_string look at the byte after the end. */
  predicate ValueOverreads(c: Codec, s: bytes, depth: nat)
    decreases |s|, 1
  {
    && !(NULL_TEXT <= s) && !(FALSE_TEXT <= s) && !(TRUE_TEXT <= s) && s != []
    && ((s[0] == OPEN_ARRAY && ArrayOverreads(c, s, depth)) || (s[0] == OPEN_OBJECT && ObjectOverreads(c, s, depth)))
  }

  predicate ArrayOverreads(c: Codec, s: bytes, depth: nat)
    requires s != []
    decreases |s|, 0
  {
    var s1 := Skip(s[1..]);
    depth < LIMIT && s1 != [] && s1[0] != CLOSE_ARRAY && ItemsOverread(c, s1, depth + 1)
  }

  predicate ObjectOverreads(c: Codec, s: bytes, depth: nat)
    requires s != []
    decreases |s|, 0
  {
    var s1 := Skip(s[1..]);
    depth < LIMIT && s1 != [] && s1[0] != CLOSE_OBJECT && MembersOverread(c, s1, depth + 1)
  }

  predicate ItemsOverread(c: Codec, s: bytes, depth: nat)
    decreases |s|, 2
  {
    var v := ParseValue(c, Skip(s), depth);
    || ValueOverreads(c, Skip(s), depth)
    || (v.Some? && var s1 := Skip(v.value.1); s1 != [] && s1[0] == COMMA && ItemsOverread(c, s1[1..], depth))
  }

  predicate MemberOverreads(c: Codec, s: bytes, depth: nat)
    decreases |s|, 2
  {
    var k := ParseStringValue(Skip(s));
    && k.Some?
    && var s1 := Skip(k.value.1);
       s1 != [] && s1[0] == COLON && ValueOverreads(c, Skip(s1[1..]), depth)
  }

  /** In the loop over members it does when a member is followed by a comma and nothing else. */
  predicate MembersOverread(c: Codec, s: bytes, depth: nat)
    decreases |s|, 3
  {
    var m := ParseMember(c, s, depth);
    || MemberOverreads(c, s, depth)
    || (&& m.Some?
        && var s1 := Skip(m.value.1);
           s1 == [COMMA] || (s1 != [] && s1[0] == COMMA && MembersOverread(c, s1[1..], depth)))
  }

  predicate DocumentOverreads(c: Codec, content: bytes) {
    content != [] && ValueOverreads(c, Skip(if |content| > 4 && BOM <= content then content[3..] else content), 0)
  }

  /** What is left of an input after a part of it. */
  predicate Tail(r: bytes, s: bytes) {
    |r| <= |s| && r == s[|s| - |r|..]
  }

  lemma TailOfTail(r: bytes, s: bytes, t: bytes)
    requires Tail(r, s) && Tail(s, t)
    ensures Tail(r, t)
  {
  }

  lemma {:induction false} DropIsTail(s: bytes)
    ensures Tail(DropBlanks(s), s)
  {
    if s != [] && s[0] <= 32 {
      DropIsTail(s[1..]);
    }
  }

  lemma SkipIsTail(s: bytes, t: bytes)
    requires Tail(s, t)
    ensures Tail(Skip(s), t)
  {
    DropIsTail(s);
    TailOfTail(Skip(s), s, t);
  }

  lemma RestIsTail(s: bytes, t: bytes)
    requires Tail(s, t) && s != []
    ensures Tail(s[1..], t) && Tail(Skip(s[1..]), t)
  {
    hide Skip;
    TailOfTail(s[1..], s, t);
    SkipIsTail(s[1..], t);
  }

  /** What is left after a value is a tail of the input. */
  lemma {:induction false} ParsedLeavesTail(c: Codec, s: bytes, depth: nat)
    requires ParseValue(c, s, depth).Some?
    ensures Tail(ParseValue(c, s, depth).value.1, s)
    decreases |s|, 1
  {
    hide Skip, ParseItems, ParseMembers, ParseStringValue, ParseNumber, Tail;
    if NULL_TEXT <= s || FALSE_TEXT <= s || TRUE_TEXT <= s {
      LiteralLeavesTail(s, 4);
      LiteralLeavesTail(s, 5);
    } else if s[0] == QUOTE {
      StringLeavesTail(s);
    } else if StartsNumber(s[0]) {
      NumberLeavesTail(c, s);
    } else {
      LiteralLeavesTail(s, 0);
      RestIsTail(s, s);
      var s1 := Skip(s[1..]);
      if s[0] == OPEN_ARRAY && s1[0] != CLOSE_ARRAY {
        ItemsLeaveTail(c, s1, depth + 1);
        AfterTail(ParseItems(c, s1, depth + 1).value.1, s1, s);
      } else if s[0] == OPEN_OBJECT && s1[0] != CLOSE_OBJECT {
        MembersLeaveTail(c, s1, depth + 1);
        AfterTail(ParseMembers(c, s1, depth + 1).value.1, s1, s);
      } else {
        RestIsTail(s1, s);
      }
    }
  }

  lemma LiteralLeavesTail(s: bytes, n: nat)
    ensures n <= |s| ==> Tail(s[n..], s)
  {
  }

  lemma AfterTail(r: bytes, s: bytes, t: bytes)
    requires Tail(r, s) && Tail(s, t) && r != []
    ensures Tail(r[1..], t)
  {
    TailOfTail(r, s, t);
    TailOfTail(r[1..], r, t);
  }

  lemma StringLeavesTail(s: bytes)
    requires ParseStringValue(s).Some?
    ensures Tail(ParseStringValue(s).value.1, s)
  {
  }

  lemma NumberLeavesTail(c: Codec, s: bytes)
    requires ParseNumber(c, s).Some?
    ensures Tail(ParseNumber(c, s).value.1, s)
  {
  }

  lemma {:induction false} ItemsLeaveTail(c: Codec, s: bytes, depth: nat)
    requires ParseItems(c, s, depth).Some?
    ensures Tail(ParseItems(c, s, depth).value.1, s)
    decreases |s|, 3
  {
    hide Skip, ParseValue, Tail;
    ItemLeavesTail(c, s, depth);
    var s1 := Skip(ParseValue(c, Skip(s), depth).value.1);
    if s1 != [] && s1[0] == COMMA {
      ItemsLeaveTail(c, s1[1..], depth);
      TailOfTail(ParseItems(c, s1[1..], depth).value.1, s1[1..], s);
    }
  }

  lemma {:induction false} ItemLeavesTail(c: Codec, s: bytes, depth: nat)
    requires ParseValue(c, Skip(s), depth).Some?
    ensures var s1 := Skip(ParseValue(c, Skip(s), depth).value.1); Tail(s1, s) && (s1 != [] ==> Tail(s1[1..], s))
    decreases |s|, 2
  {
    hide Skip, ParseValue, Tail;
    var left := ParseValue(c, Skip(s), depth).value.1;
    LiteralLeavesTail(s, 0);
    SkipIsTail(s, s);
    ParsedLeavesTail(c, Skip(s), depth);
    TailOfTail(left, Skip(s), s);
    SkipIsTail(left, s);
    if Skip(left) != [] {
      RestIsTail(Skip(left), s);
    }
  }

  lemma {:induction false} MemberLeavesTail(c: Codec, s: bytes, depth: nat)
    requires ParseMember(c, s, depth).Some?
    ensures var s1 := Skip(ParseMember(c, s, depth).value.1); Tail(s1, s) && (s1 != [] ==> Tail(s1[1..], s))
    decreases |s|, 2
  {
    hide Skip, ParseValue, ParseStringValue, Tail;
    var k := ParseStringValue(Skip(s));
    NameLeavesTail(s);
    var s2 := Skip(Skip(k.value.1)[1..]);
    var left := ParseValue(c, s2, depth).value.1;
    ParsedLeavesTail(c, s2, depth);
    TailOfTail(left, s2, s);
    SkipIsTail(left, s);
    if Skip(left) != [] {
      RestIsTail(Skip(left), s);
    }
  }

  lemma NameLeavesTail(s: bytes)
    requires ParseStringValue(Skip(s)).Some?
    ensures var s1 := Skip(ParseStringValue(Skip(s)).value.1); Tail(s1, s) && (s1 != [] ==> Tail(Skip(s1[1..]), s))
  {
    hide Skip, ParseStringValue, Tail;
    var left := ParseStringValue(Skip(s)).value.1;
    LiteralLeavesTail(s, 0);
    SkipIsTail(s, s);
    StringLeavesTail(Skip(s));
    TailOfTail(left, Skip(s), s);
    SkipIsTail(left, s);
    if Skip(left) != [] {
      RestIsTail(Skip(left), s);
    }
  }

  lemma {:induction false} MembersLeaveTail(c: Codec, s: bytes, depth: nat)
    requires ParseMembers(c, s, depth).Some?
    ensures Tail(ParseMembers(c, s, depth).value.1, s)
    decreases |s|, 3
  {
    hide Skip, ParseMember, Tail;
    MemberLeavesTail(c, s, depth);
    var s1 := Skip(ParseMember(c, s, depth).value.1);
    if s1 != [] && s1[0] == COMMA {
      MembersLeaveTail(c, s1[1..], depth);
      TailOfTail(ParseMembers(c, s1[1..], depth).value.1, s1[1..], s);
    }
  }

  // ----- What an over-read means -----------------------------------------------------------------

  predicate EndsInComma(s: bytes) {
    s != [] && s[|s| - 1] == COMMA
  }

  lemma CommaOfTail(r: bytes, s: bytes)
    requires Tail(r, s) && EndsInComma(r)
    ensures EndsInComma(s)
  {
  }

  /** It only happens where the input ends in a comma, and then the parse fails. */
  lemma {:induction false} OverreadFails(c: Codec, s: bytes, depth: nat)
    requires ValueOverreads(c, s, depth)
    ensures EndsInComma(s) && ParseValue(c, s, depth).None?
    decreases |s|, 1
  {
    hide Skip, ParseItems, ParseMembers, ItemsOverread, MembersOverread, Tail;
    LiteralLeavesTail(s, 0);
    RestIsTail(s, s);
    var s1 := Skip(s[1..]);
    if s[0] == OPEN_ARRAY {
      ItemsOverreadFails(c, s1, depth + 1);
    } else {
      MembersOverreadFails(c, s1, depth + 1);
    }
    CommaOfTail(s1, s);
  }

  lemma {:induction false} ItemsOverreadFails(c: Codec, s: bytes, depth: nat)
    requires ItemsOverread(c, s, depth)
    ensures EndsInComma(s) && ParseItems(c, s, depth).None?
    decreases |s|, 2
  {
    hide Skip, ParseValue, ValueOverreads, Tail;
    if ValueOverreads(c, Skip(s), depth) {
      OverreadFails(c, Skip(s), depth);
      LiteralLeavesTail(s, 0);
      SkipIsTail(s, s);
      CommaOfTail(Skip(s), s);
    } else {
      ItemLeavesTail(c, s, depth);
      var s1 := Skip(ParseValue(c, Skip(s), depth).value.1);
      ItemsOverreadFails(c, s1[1..], depth);
      CommaOfTail(s1[1..], s);
    }
  }

  lemma {:induction false} MembersOverreadFails(c: Codec, s: bytes, depth: nat)
    requires MembersOverread(c, s, depth)
    ensures EndsInComma(s) && ParseMembers(c, s, depth).None?
    decreases |s|, 3
  {
    hide Skip, ParseMember, MemberOverreads, Tail;
    if MemberOverreads(c, s, depth) {
      MemberOverreadFails(c, s, depth);
    } else {
      MemberLeavesTail(c, s, depth);
      var s1 := Skip(ParseMember(c, s, depth).value.1);
      if s1 == [COMMA] {
        CommaOfTail(s1, s);
        NothingIsNoMember(c, depth);
      } else {
        MembersOverreadFails(c, s1[1..], depth);
        CommaOfTail(s1[1..], s);
      }
    }
  }

  lemma NothingIsNoMember(c: Codec, depth: nat)
    ensures ParseMembers(c, [], depth).None? && [COMMA][1..] == []
  {
  }

  lemma {:induction false} MemberOverreadFails(c: Codec, s: bytes, depth: nat)
    requires MemberOverreads(c, s, depth)
    ensures EndsInComma(s) && ParseMember(c, s, depth).None?
    decreases |s|, 2
  {
    hide Skip, ParseValue, ParseStringValue, ValueOverreads, Tail;
    NameLeavesTail(s);
    var s2 := Skip(Skip(ParseStringValue(Skip(s)).value.1)[1..]);
    OverreadFails(c, s2, depth);
    CommaOfTail(s2, s);
  }

  /** So a terminated text is never read past its end. */
  lemma TerminatedIsReadInside(c: Codec, text: bytes)
    ensures !DocumentOverreads(c, text + [0])
  {
    hide Skip, ValueOverreads, Tail;
    var content := text + [0];
    var s := if |content| > 4 && BOM <= content then content[3..] else content;
    if ValueOverreads(c, Skip(s), 0) {
      OverreadFails(c, Skip(s), 0);
      LiteralLeavesTail(s, 0);
      SkipIsTail(s, s);
      CommaOfTail(Skip(s), s);
    }
  }

  /** But an object cut off after a comma is. */
  lemma CutObjectIsOverread(c: Codec)
    ensures DocumentOverreads(c, [OPEN_OBJECT, QUOTE, QUOTE, COLON] + NULL_TEXT + [COMMA])
  {
    var value := NULL_TEXT + [COMMA];
    var member := [QUOTE, QUOTE, COLON] + value;
    var content := [OPEN_OBJECT, QUOTE, QUOTE, COLON] + NULL_TEXT + [COMMA];
    assert content == [OPEN_OBJECT] + member && content[1..] == member;
    assert Skip(content) == content && Skip(member) == member;
    RT.QuotedParses([], [COLON] + value);
    assert Quoted([]) + ([COLON] + value) == member;
    assert ([COLON] + value)[1..] == value && Skip(value) == value;
    assert ParseValue(c, value, 1) == Some((Null, [COMMA]));
    assert ParseMember(c, member, 1) == Some((Member([], Null), [COMMA]));
    assert MembersOverread(c, member, 1);
  }
}
