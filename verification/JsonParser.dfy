/**
 The parser of nrf/ext/iperf3/cjson.c as it runs: one buffer, an offset and a depth that the parsing
 routines advance in place. Each routine is proved to be its function in `JsonText`, and every
 call ends. Every read is inside the buffer but one, and when that one happens is proved exactly:
 where a comma that ends the buffer follows a member of an object.
 */
module JsonParser {
  import opened Bytes
  import opened JsonOverread
  import opened JsonString
  import opened JsonText
  import opened Wrappers

  /** Puts what a loop has collected in front of what is still to come. */
  function Before<T>(done: seq<T>, r: Option<(seq<T>, bytes)>): Option<(seq<T>, bytes)> {
    if r.None? then None else Some((done + r.value.0, r.value.1))
  }

  lemma BeforeNext<T>(done: seq<T>, x: T, r: Option<(seq<T>, bytes)>)
    ensures Before(done + [x], r) == Before(done, if r.None? then None else Some(([x] + r.value.0, r.value.1)))
  {
    if r.Some? {
      assert done + [x] + r.value.0 == done + ([x] + r.value.0);
    }
  }

  lemma BeforeNothing<T>(r: Option<(seq<T>, bytes)>)
    ensures Before([], r) == r
  {
    if r.Some? {
      assert [] + r.value.0 == r.value.0;
    }
  }

  class ParseBuffer {
    const content: bytes
    const codec: Codec
    var offset: nat
    var depth: nat

    // The byte after the end has been looked at.
    ghost var overread: bool

    constructor (content: bytes, codec: Codec)
      ensures this.content == content && this.codec == codec && offset == 0 && depth == 0 && !overread
    {
      this.content, this.codec, offset, depth := content, codec, 0, 0;
      overread := false;
    }

    ghost predicate Valid()
      reads this
    {
      offset <= |content| && depth <= LIMIT
    }

    ghost function Rest(): bytes
      requires offset <= |content|
      reads this
    {
      content[offset..]
    }

    /** buffer_skip_whitespace. */
    method SkipWhitespace()
      requires Valid()
      modifies this`offset
      ensures Valid() && Rest() == Skip(old(Rest()))
    {
      if offset >= |content| {
        return;
      }
      while offset < |content| && content[offset] <= 32
        invariant old(offset) <= offset <= |content|
        invariant DropBlanks(Rest()) == DropBlanks(old(Rest()))
      {
        assert Rest()[1..] == content[offset + 1..];
        offset := offset + 1;
      }
      if offset == |content| {
        offset := offset - 1;
        assert Rest() == old(Rest())[|old(Rest())| - 1..];
      }
    }

    /** parse_string at the current offset. At the end of the buffer it looks at the byte after it
        and then fails, whatever that byte is. */
    method ParseStringHere() returns (r: Option<bytes>)
      requires Valid()
      modifies this`offset, this`overread
      ensures Valid() && overread == (old(overread) || old(offset) == |content|)
      ensures var p := ParseStringValue(old(Rest()));
              (r.Some? <==> p.Some?) && (r.Some? ==> r.value == p.value.0 && Rest() == p.value.1 && offset > old(offset))
    {
      if offset == |content| {
        overread := true;
        return None;
      }
      var s := ParseString(content[offset..]);
      if s.None? {
        return None;
      }
      assert content[offset..][s.value.1..] == content[offset + s.value.1..];
      offset := offset + s.value.1;
      r := Some(CString(s.value.0));
    }

    /** parse_number: copies at most 63 number characters and hands them to strtod. */
    method ParseNumberHere() returns (r: Option<Json>)
      requires Valid() && offset < |content|
      modifies this`offset
      ensures Valid()
      ensures var p := ParseNumber(codec, old(Rest()));
              (r.Some? <==> p.Some?) && (r.Some? ==> r.value == p.value.0 && Rest() == p.value.1 && offset > old(offset))
    {
      var run: bytes, i := [], 0;
      while i < 63 && offset + i < |content| && IsNumberChar(content[offset + i])
        invariant i <= 63 && offset + i <= |content| && |run| == i
        invariant NumberRun(Rest(), 63) == run + NumberRun(content[offset + i..], 63 - i)
      {
        var tail := content[offset + i..];
        assert tail[1..] == content[offset + i + 1..];
        assert run + ([tail[0]] + NumberRun(tail[1..], 62 - i)) == (run + [tail[0]]) + NumberRun(tail[1..], 62 - i);
        run, i := run + [content[offset + i]], i + 1;
      }
      assert NumberRun(Rest(), 63) == run;
      var n := codec.scan(run);
      if n.None? || !(0 < n.value.1 <= |run|) {
        return None;
      }
      assert content[offset..][n.value.1..] == content[offset + n.value.1..];
      offset := offset + n.value.1;
      r := Some(Number(n.value.0));
    }

    predicate LooksAt(text: bytes)
      requires offset <= |content|
      reads this
    {
      offset + |text| <= |content| && content[offset..offset + |text|] == text
    }

    lemma LooksAtIsPrefix(text: bytes)
      requires offset <= |content|
      ensures LooksAt(text) <==> text <= Rest()
      ensures LooksAt(text) ==> content[offset + |text|..] == Rest()[|text|..]
    {
    }

    /** parse_value: success restores the depth and strictly advances the offset. */
    method ParseHere() returns (r: Option<Json>)
      requires Valid()
      modifies this
      ensures overread == (old(overread) || ValueOverreads(codec, old(Rest()), old(depth)))
      ensures var p := ParseValue(codec, old(Rest()), old(depth));
              && (r.Some? <==> p.Some?)
              && (r.Some? ==> Valid() && r.value == p.value.0 && Rest() == p.value.1 && depth == old(depth))
      decreases |content| - offset, 1
    {
      hide ParseArray, ParseObject, ParseNumber, ParseStringValue;
      LooksAtIsPrefix(NULL_TEXT);
      LooksAtIsPrefix(FALSE_TEXT);
      LooksAtIsPrefix(TRUE_TEXT);
      if LooksAt(NULL_TEXT) {
        offset := offset + 4;
        return Some(Null);
      }
      if LooksAt(FALSE_TEXT) {
        offset := offset + 5;
        return Some(False);
      }
      if LooksAt(TRUE_TEXT) {
        offset := offset + 4;
        return Some(True);
      }
      if offset < |content| && content[offset] == QUOTE {
        var s := ParseStringHere();
        return if s.None? then None else Some(String(s.value));
      }
      if offset < |content| && StartsNumber(content[offset]) {
        r := ParseNumberHere();
        return;
      }
      if offset < |content| && content[offset] == OPEN_ARRAY {
        r := ParseArrayHere();
        return;
      }
      if offset < |content| && content[offset] == OPEN_OBJECT {
        r := ParseObjectHere();
        return;
      }
      return None;
    }

    /** One round of the loop of parse_array, from the byte in front of the item. */
    method ItemHere() returns (r: Option<Json>)
      requires Valid() && offset < |content|
      modifies this
      ensures overread == (old(overread) || ValueOverreads(codec, Skip(content[old(offset) + 1..]), old(depth)))
      ensures var p := ParseValue(codec, Skip(content[old(offset) + 1..]), old(depth));
              && (r.Some? <==> p.Some?)
              && (r.Some? ==> Valid() && r.value == p.value.0 && Rest() == Skip(p.value.1) && depth == old(depth) && offset > old(offset))
      decreases |content| - offset - 1, 2
    {
      hide ParseValue, ValueOverreads, Skip;
      offset := offset + 1;
      SkipWhitespace();
      r := ParseHere();
      if r.Some? {
        SkipWhitespace();
      }
    }

    /** The loop of parse_array, which first steps back to the byte in front of the item. */
    method ItemsHere() returns (r: Option<seq<Json>>)
      requires Valid() && 0 < offset < |content|
      modifies this
      ensures overread == (old(overread) || ItemsOverread(codec, old(Rest()), old(depth)))
      ensures var p := ParseItems(codec, old(Rest()), old(depth));
              && (r.Some? <==> p.Some?)
              && (r.Some? ==> Valid() && r.value == p.value.0 && Rest() == p.value.1 && depth == old(depth))
      decreases |content| - offset, 3
    {
      hide ParseValue, ValueOverreads, Skip;
      ghost var goal, over := ParseItems(codec, Rest(), depth), overread || ItemsOverread(codec, Rest(), depth);
      BeforeNothing(goal);
      offset := offset - 1;
      var items: seq<Json>, more := [], true;
      while more
        invariant Valid() && depth == old(depth)
        invariant more ==> old(offset) <= offset + 1 <= |content| && goal == Before(items, ParseItems(codec, content[offset + 1..], depth))
        invariant more ==> over == (overread || ItemsOverread(codec, content[offset + 1..], depth))
        invariant !more ==> goal == Some((items, Rest())) && over == overread
        decreases more, |content| - offset
      {
        var v := ItemHere();
        if v.None? {
          return None;
        }
        more := offset < |content| && content[offset] == COMMA;
        if more {
          assert Rest()[1..] == content[offset + 1..];
          BeforeNext(items, v.value, ParseItems(codec, content[offset + 1..], depth));
        }
        items := items + [v.value];
      }
      r := Some(items);
    }

    /** One round of the loop of parse_object. */
    method MemberHere() returns (r: Option<Member>)
      requires Valid()
      modifies this
      ensures overread == (old(overread) || old(offset) == |content| || MemberOverreads(codec, old(Rest()), old(depth)))
      ensures var p := ParseMember(codec, old(Rest()), old(depth));
              && (r.Some? <==> p.Some?)
              && (r.Some? ==> Valid() && r.value == p.value.0 && Rest() == p.value.1 && depth == old(depth))
      decreases |content| - offset, 2
    {
      hide ParseValue, ParseStringValue, Skip;
      SkipWhitespace();
      var k := ParseStringHere();
      if k.None? {
        return None;
      }
      SkipWhitespace();
      if offset >= |content| || content[offset] != COLON {
        return None;
      }
      assert Rest()[1..] == content[offset + 1..];
      offset := offset + 1;
      SkipWhitespace();
      var v := ParseHere();
      return if v.None? then None else Some(Member(k.value, v.value));
    }

    /** The loop of parse_object. */
    method MembersHere() returns (r: Option<seq<Member>>)
      requires Valid() && 0 < offset < |content|
      modifies this
      ensures overread == (old(overread) || MembersOverread(codec, old(Rest()), old(depth)))
      ensures var p := ParseMembers(codec, old(Rest()), old(depth));
              && (r.Some? <==> p.Some?)
              && (r.Some? ==> Valid() && r.value == p.value.0 && Rest() == p.value.1 && depth == old(depth))
      decreases |content| - offset, 3
    {
      hide ParseMember, MemberOverreads, Skip;
      ghost var goal, over := ParseMembers(codec, Rest(), depth), overread || MembersOverread(codec, Rest(), depth);
      BeforeNothing(goal);
      offset := offset - 1;
      var members: seq<Member>, more := [], true;
      while more
        invariant Valid() && depth == old(depth)
        invariant more ==> old(offset) <= offset + 1 <= |content| && goal == Before(members, ParseMembers(codec, content[offset + 1..], depth))
        invariant more ==> over == (overread || offset + 1 == |content| || MembersOverread(codec, content[offset + 1..], depth))
        invariant !more ==> goal == Some((members, Rest())) && over == overread
        decreases more, |content| - offset
      {
        offset := offset + 1;
        var m := MemberHere();
        if m.None? {
          return None;
        }
        SkipWhitespace();
        more := offset < |content| && content[offset] == COMMA;
        if more {
          assert Rest()[1..] == content[offset + 1..];
          BeforeNext(members, m.value, ParseMembers(codec, content[offset + 1..], depth));
        }
        members := members + [m.value];
      }
      r := Some(members);
    }

    /** parse_array. */
    method ParseArrayHere() returns (r: Option<Json>)
      requires Valid() && offset < |content| && content[offset] == OPEN_ARRAY
      modifies this
      ensures overread == (old(overread) || ArrayOverreads(codec, old(Rest()), old(depth)))
      ensures var p := ParseArray(codec, old(Rest()), old(depth));
              && (r.Some? <==> p.Some?)
              && (r.Some? ==> Valid() && r.value == p.value.0 && Rest() == p.value.1 && depth == old(depth))
      decreases |content| - offset, 0
    {
      hide ParseItems, Skip;
      if depth >= LIMIT {
        return None;
      }
      depth := depth + 1;
      assert Rest()[1..] == content[offset + 1..];
      offset := offset + 1;
      SkipWhitespace();
      var items := [];
      if offset < |content| && content[offset] == CLOSE_ARRAY {
        // empty array
      } else {
        if offset >= |content| {
          return None;
        }
        var more := ItemsHere();
        if more.None? || offset >= |content| || content[offset] != CLOSE_ARRAY {
          return None;
        }
        items := more.value;
      }
      assert Rest()[1..] == content[offset + 1..];
      depth, offset := depth - 1, offset + 1;
      return Some(Array(items));
    }

    /** parse_object. */
    method ParseObjectHere() returns (r: Option<Json>)
      requires Valid() && offset < |content| && content[offset] == OPEN_OBJECT
      modifies this
      ensures overread == (old(overread) || ObjectOverreads(codec, old(Rest()), old(depth)))
      ensures var p := ParseObject(codec, old(Rest()), old(depth));
              && (r.Some? <==> p.Some?)
              && (r.Some? ==> Valid() && r.value == p.value.0 && Rest() == p.value.1 && depth == old(depth))
      decreases |content| - offset, 0
    {
      hide ParseMembers, Skip;
      if depth >= LIMIT {
        return None;
      }
      depth := depth + 1;
      assert Rest()[1..] == content[offset + 1..];
      offset := offset + 1;
      SkipWhitespace();
      var members := [];
      if offset < |content| && content[offset] == CLOSE_OBJECT {
        // empty object
      } else {
        if offset >= |content| {
          return None;
        }
        var more := MembersHere();
        if more.None? || offset >= |content| || content[offset] != CLOSE_OBJECT {
          return None;
        }
        members := more.value;
      }
      assert Rest()[1..] == content[offset + 1..];
      depth, offset := depth - 1, offset + 1;
      return Some(Object(members));
    }
  }

  /** cJSON_ParseWithLengthOpts: what it returns, and whether it looked past the buffer. */
  method ParseWithLengthOpts(content: bytes, codec: Codec, requireTerminator: bool) returns (r: Option<Json>, ghost overread: bool)
    ensures r == ParseDocument(codec, content, requireTerminator)
    ensures overread <==> DocumentOverreads(codec, content)
  {
    if content == [] {
      return None, false;
    }
    var buffer := new ParseBuffer(content, codec);
    hide ParseValue, ValueOverreads, Skip;
    if |content| > 4 && content[..3] == BOM {
      buffer.offset := 3;
    } else {
      assert content[0..] == content;
    }
    buffer.SkipWhitespace();
    var v := buffer.ParseHere();
    overread := buffer.overread;
    if v.None? {
      return None, overread;
    }
    if requireTerminator {
      buffer.SkipWhitespace();
      if buffer.offset >= |content| || content[buffer.offset] != 0 {
        return None, overread;
      }
    }
    r := v;
  }
}
