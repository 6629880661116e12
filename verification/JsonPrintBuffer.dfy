/**
 The printer of nrf/ext/iperf3/cjson.c as it runs: text is written into a buffer that grows on demand,
 or into one that may not grow. Each routine is proved to leave exactly the text of `JsonText`
 behind what was there before, to write only inside the space that was reserved, and to fail
 exactly when there is no room for its text and two bytes more.
 */
module JsonPrintBuffer {
  import opened Bytes
  import opened JsonString
  import opened JsonText
  import opened Wrappers

  const SIZE_MAX := 0xFFFF_FFFF_FFFF_FFFF

  /** Text that C can hold: strings and raw text without NUL, number text without NUL. */
  predicate Storable(c: Codec, v: Json)
    decreases v, 1
  {
    match v
    case Number(n) => NoNul(c.show(n))
    case String(s) => NoNul(s)
    case Raw(t) => NoNul(t)
    case Array(items) => ItemsStorable(c, items)
    case Object(members) => MembersStorable(c, members)
    case _ => true
  }

  predicate ItemsStorable(c: Codec, items: seq<Json>)
    decreases items, 0
  {
    items == [] || (Storable(c, items[0]) && ItemsStorable(c, items[1..]))
  }

  predicate MembersStorable(c: Codec, members: seq<Member>)
    decreases members, 0
  {
    members == [] || (NoNul(members[0].key) && Storable(c, members[0].value) && MembersStorable(c, members[1..]))
  }

  /** No number text is longer than the 26 bytes that print_number has for it and its terminator. */
  predicate NumbersFit(c: Codec, v: Json)
    decreases v, 1
  {
    match v
    case Number(n) => |c.show(n)| <= 25
    case Array(items) => ItemNumbersFit(c, items)
    case Object(members) => MemberNumbersFit(c, members)
    case _ => true
  }

  predicate ItemNumbersFit(c: Codec, items: seq<Json>)
    decreases items, 0
  {
    items == [] || (NumbersFit(c, items[0]) && ItemNumbersFit(c, items[1..]))
  }

  predicate MemberNumbersFit(c: Codec, members: seq<Member>)
    decreases members, 0
  {
    members == [] || (NumbersFit(c, members[0].value) && MemberNumbersFit(c, members[1..]))
  }

  class PrintBuffer {
    const codec: Codec
    const noalloc: bool
    const format: bool
    var buffer: array?<byte>
    var length: nat
    var offset: nat
    var depth: nat

    // The allocator has refused to grow the buffer.
    ghost var denied: bool

    constructor (codec: Codec, storage: array<byte>, length: nat, noalloc: bool, format: bool)
      requires length <= storage.Length && length <= SIZE_MAX
      ensures this.codec == codec && this.noalloc == noalloc && this.format == format
      ensures buffer == storage && this.length == length && offset == 0 && depth == 0 && !denied
    {
      this.codec, this.noalloc, this.format := codec, noalloc, format;
      buffer, this.length, offset, depth := storage, length, 0, 0;
      denied := false;
    }

    /** A lost buffer has length 0. */
    ghost predicate Valid()
      reads this
    {
      && length <= SIZE_MAX && (denied <==> buffer == null)
      && if buffer == null then length == 0 else length <= buffer.Length && (offset < length || offset == 0 == length)
    }

    /** How far the buffer can reach. */
    ghost function Cap(): nat
      reads this
    {
      if noalloc then length else SIZE_MAX
    }

    ghost function Done(): bytes
      requires Valid()
      reads this, buffer
    {
      if buffer == null then [] else buffer[..offset]
    }

    /** The buffer is the old one, or a new one where growing is allowed. */
    twostate predicate Grown()
      reads this
    {
      (buffer == old(buffer) || (buffer != null && fresh(buffer)) || buffer == null) && (noalloc ==> buffer == old(buffer) && length == old(length))
    }

    /** `text` and a NUL follow `pre`, and the offset is somewhere on the way to the NUL. */
    ghost predicate Printed(pre: bytes, text: bytes)
      reads this, buffer
    {
      && Valid() && buffer != null
      && |pre| + |text| < length && buffer[..|pre| + |text|] == pre + text && buffer[|pre| + |text|] == 0
      && |pre| <= offset <= |pre| + |text|
    }

    /** ensure: room for `needed` bytes and one more after the offset. */
    method Ensure(needed: nat) returns (ok: bool)
      requires Valid() && !denied
      modifies this`buffer, this`length, this`denied
      ensures Valid() && Grown()
      ensures ok <==> !denied && offset + needed + 1 <= Cap()
      ensures ok ==> offset + needed < length && Done() == old(Done())
      ensures (!ok && !denied) || offset + needed < old(length) ==> unchanged(this)
      ensures ok && offset + needed >= old(length) ==> fresh(buffer) && length == Min(2 * (offset + needed + 1), SIZE_MAX)
    {
      if buffer == null || (length > 0 && offset >= length) || needed > SIZE_MAX {
        return false;
      }
      var total := needed + offset + 1;
      if total <= length {
        return true;
      }
      if noalloc {
        return false;
      }
      var newsize;
      if total > SIZE_MAX / 2 {
        if total > SIZE_MAX {
          return false;
        }
        newsize := SIZE_MAX;
      } else {
        newsize := total * 2;
      }
      var granted: bool := *;
      if !granted {
        buffer, length, denied := null, 0, true;
        return false;
      }
      var newbuffer := new byte[newsize];
      var kept := if offset + 1 <= length then offset + 1 else offset;
      forall i | 0 <= i < kept {
        newbuffer[i] := buffer[i];
      }
      assert newbuffer[..offset] == buffer[..offset];
      buffer, length := newbuffer, newsize;
      return true;
    }

    /** Copies bytes to an index. */
    method WriteAt(at: nat, data: bytes)
      requires buffer != null && at + |data| <= length <= buffer.Length
      modifies buffer
      ensures buffer[..at + |data|] == old(buffer[..at]) + data
    {
      forall i | 0 <= i < |data| {
        buffer[at + i] := data[i];
      }
    }

    lemma PrintedWithTerminator(pre: bytes, text: bytes)
      requires Valid() && buffer != null && |pre| + |text| < length && |pre| <= offset <= |pre| + |text|
      requires buffer[..|pre| + |text| + 1] == pre + text + [0]
      ensures Printed(pre, text)
    {
    }

    /** Reserves room, writes some bytes and moves the offset past them. */
    method Append(data: bytes, room: nat) returns (ok: bool)
      requires Valid() && !denied && |data| <= room
      modifies this, buffer
      ensures Valid() && Grown() && depth == old(depth)
      ensures ok <==> !denied && old(offset) + room + 1 <= Cap()
      ensures ok ==> Done() == old(Done()) + data
    {
      ok := Ensure(room);
      if ok {
        WriteAt(offset, data);
        offset := offset + |data|;
      }
    }

    /** The same with a terminator behind the bytes. */
    method AppendTerminated(data: bytes, room: nat) returns (ok: bool)
      requires Valid() && !denied && |data| <= room
      modifies this, buffer
      ensures Valid() && Grown() && depth == old(depth)
      ensures ok <==> !denied && old(offset) + room + 1 <= Cap()
      ensures ok ==> Done() == old(Done()) + data
    {
      ok := Ensure(room);
      if ok {
        WriteAt(offset, data + [0]);
        assert buffer[..offset + |data|] == buffer[..offset + |data| + 1][..offset + |data|];
        offset := offset + |data|;
      }
    }

    /** Reserves room and copies a text with its terminator; the offset stays. */
    method Put(text: bytes, room: nat) returns (ok: bool)
      requires Valid() && !denied && |text| <= room
      modifies this, buffer
      ensures Valid() && Grown() && depth == old(depth) && offset == old(offset)
      ensures ok <==> !denied && offset + room + 1 <= Cap()
      ensures ok ==> Printed(old(Done()), text)
    {
      ok := Ensure(room);
      if ok {
        WriteAt(offset, text + [0]);
        Assoc(old(Done()), text, [0]);
        PrintedWithTerminator(old(Done()), text);
      }
    }

    /** update_offset: strlen from the offset finds the terminator. */
    method UpdateOffset(ghost pre: bytes, ghost text: bytes)
      requires Printed(pre, text) && NoNul(text)
      modifies this`offset
      ensures Valid() && Done() == pre + text
    {
      ghost var end := |pre| + |text|;
      forall k | |pre| <= k < end
        ensures buffer[k] != 0
      {
        assert buffer[k] == buffer[..end][k] == text[k - |pre|];
      }
      while buffer[offset] != 0
        invariant |pre| <= offset <= end
        decreases end - offset
      {
        offset := offset + 1;
      }
    }

    // ----- Strings --------------------------------------------------------------------------

    /** The counting loop of print_string_ptr. */
    method CountEscapes(s: bytes) returns (n: nat)
      ensures |s| + n == |Escape(s)|
    {
      n := 0;
      for i := 0 to |s|
        invariant i + n + |Escape(s[i..])| == |Escape(s)|
      {
        assert s[i..][1..] == s[i + 1..];
        if s[i] == QUOTE || s[i] == BACKSLASH || s[i] == 8 || s[i] == 12 || s[i] == 10 || s[i] == 13 || s[i] == 9 {
          n := n + 1;
        } else if s[i] < 32 {
          n := n + 5;
        }
      }
    }

    /** The copying loop of print_string_ptr, from index `at` on. */
    method WriteEscaped(s: bytes, at: nat)
      requires buffer != null && at + |Escape(s)| <= length <= buffer.Length
      modifies buffer
      ensures buffer[..at + |Escape(s)|] == old(buffer[..at]) + Escape(s)
    {
      hide Escape, EscapeByte;
      ghost var all := old(buffer[..at]) + Escape(s);
      var out := at;
      assert s[0..] == s && s[|s|..] == [];
      for i := 0 to |s|
        invariant at <= out && out + |Escape(s[i..])| == at + |Escape(s)|
        invariant buffer[..out] + Escape(s[i..]) == all
      {
        var piece := EscapeByte(s[i]);
        EscapeStep(s, i, buffer[..out]);
        WriteAt(out, piece);
        out := out + |piece|;
      }
      EscapeStep(s, |s|, buffer[..out]);
    }

    /** The writing half of print_string_ptr. */
    method WriteQuoted(s: bytes, escapes: nat)
      requires buffer != null && |s| + escapes == |Escape(s)| && offset + |Escape(s)| + 3 <= length <= buffer.Length
      modifies buffer
      ensures buffer[..offset + |Quoted(s)| + 1] == old(buffer[..offset]) + Quoted(s) + [0]
    {
      hide Escape;
      ghost var pre := buffer[..offset];
      QuotedLength(s);
      WriteAt(offset, [QUOTE]);
      if escapes == 0 {
        PlainEscape(s);
        WriteAt(offset + 1, s);
      } else {
        WriteEscaped(s, offset + 1);
      }
      WriteAt(offset + |s| + escapes + 1, [QUOTE, 0]);
      QuotedParts(pre, s);
    }

    /** print_string_ptr. */
    method PrintString(s: bytes) returns (ok: bool)
      requires Valid() && !denied
      modifies this, buffer
      ensures Valid() && Grown() && depth == old(depth)
      ensures ok <==> !denied && old(offset) + |Quoted(s)| + 2 <= Cap()
      ensures ok ==> Printed(old(Done()), Quoted(s))
    {
      hide Quoted;
      var escapes := CountEscapes(s);
      QuotedLength(s);
      ok := Ensure(|s| + escapes + 3);
      if ok {
        ghost var pre := Done();
        WriteQuoted(s, escapes);
        PrintedWithTerminator(pre, Quoted(s));
      }
    }

    // ----- Values ---------------------------------------------------------------------------

    /** The closing bracket, with the terminator. */
    method Close(ghost pre: bytes, ghost soFar: bytes, text: bytes, room: nat) returns (ok: bool)
      requires Valid() && !denied && Done() == pre + soFar && |text| <= room && depth > 0
      modifies this, buffer
      ensures Valid() && Grown()
      ensures ok <==> !denied && |pre + soFar| + room + 1 <= Cap()
      ensures ok ==> depth == old(depth) - 1 && Printed(pre, soFar + text)
    {
      ok := Put(text, room);
      if ok {
        depth := depth - 1;
        PrintedJoin(pre, soFar, text);
      }
    }

    lemma PrintedJoin(pre: bytes, soFar: bytes, text: bytes)
      requires Printed(pre + soFar, text)
      ensures Printed(pre, soFar + text)
    {
    }

    /** print_number, for a number that sprintf gives as `codec` says. */
    method PrintNumber(n: Double) returns (ok: bool)
      requires Valid() && !denied
      modifies this, buffer
      ensures Valid() && Grown() && depth == old(depth)
      ensures ok <==> !denied && |codec.show(n)| <= 25 && old(offset) + |codec.show(n)| + 2 <= Cap()
      ensures ok ==> Printed(old(Done()), codec.show(n))
    {
      var text := codec.show(n);
      if |text| > 25 {
        return false;
      }
      ok := Put(text, |text| + 1);
      if ok {
        offset := offset + |text|;
      }
    }

    /** print_value: it fails just when the allocator refuses, a number text is too long, or there is
        no room for the text and two bytes more. */
    method PrintHere(v: Json) returns (ok: bool)
      requires Valid() && !denied && Storable(codec, v)
      modifies this, buffer
      ensures Valid() && Grown()
      ensures ok <==> !denied && NumbersFit(codec, v) && old(offset) + |Text(codec, format, old(depth), v)| + 2 <= Cap()
      ensures ok ==> Printed(old(Done()), Text(codec, format, old(depth), v)) && depth == old(depth)
      decreases v, 1
    {
      match v
      case Null =>
        ok := Put(NULL_TEXT, 5);
      case False =>
        ok := Put(FALSE_TEXT, 6);
      case True =>
        ok := Put(TRUE_TEXT, 5);
      case Number(n) =>
        ok := PrintNumber(n);
      case Raw(text) =>
        ok := Put(text, |text| + 1);
      case String(s) =>
        ok := PrintString(s);
      case Array(items) =>
        ok := PrintArray(items);
      case Object(members) =>
        ok := PrintObject(members);
    }

    /** One element of print_array, with its separator. */
    method PrintItem(v: Json, more: bool) returns (ok: bool)
      requires Valid() && !denied && Storable(codec, v)
      modifies this, buffer
      ensures Valid() && Grown()
      ensures ok <==>
        !denied && NumbersFit(codec, v) && old(offset) + |ItemText(codec, format, old(depth), v, more)| + 2 <= Cap()
      ensures ok ==> depth == old(depth) && Done() == old(Done()) + ItemText(codec, format, depth, v, more)
      decreases v, 2
    {
      hide Text, NumbersFit;
      ghost var pre, text := Done(), Text(codec, format, depth, v);
      ok := PrintHere(v);
      if !ok {
        return;
      }
      TextNoNul(codec, format, depth, v);
      UpdateOffset(pre, text);
      var sep := ItemSeparator(format, more);
      Assoc(pre, text, sep);
      if sep != [] {
        ok := AppendTerminated(sep, |sep| + 1);
      }
    }

    /** The loop of print_array. */
    method PrintItems(items: seq<Json>) returns (ok: bool)
      requires Valid() && !denied && ItemsStorable(codec, items)
      modifies this, buffer
      ensures Valid() && Grown()
      ensures ok ==> !denied && ItemNumbersFit(codec, items)
      ensures !ok && !denied ==>
        !ItemNumbersFit(codec, items) || old(offset) + |Items(codec, format, old(depth), items)| + 2 > Cap()
      ensures ok ==> depth == old(depth) && Done() == old(Done()) + Items(codec, format, depth, items)
      decreases items, 0
    {
      hide ItemText, Items, ItemsStorable, NumbersFit, ItemNumbersFit;
      ghost var pre := Done();
      ghost var soFar: bytes, all := [], Items(codec, format, depth, items);
      assert items[0..] == items && [] + all == all;
      for i := 0 to |items|
        invariant Valid() && !denied && Grown() && depth == old(depth)
        invariant ItemsStorable(codec, items[i..]) && (ItemNumbersFit(codec, items[i..]) <==> ItemNumbersFit(codec, items))
        invariant Done() == pre + soFar && soFar + Items(codec, format, depth, items[i..]) == all
      {
        ItemsStep(codec, format, depth, items, i, pre, soFar, all);
        ok := PrintItem(items[i], i + 1 < |items|);
        if !ok {
          return;
        }
        soFar := soFar + ItemText(codec, format, depth, items[i], i + 1 < |items|);
      }
      NothingLeft(codec, format, depth, items[|items|..], [], soFar);
      ok := true;
    }

    /** print_array. */
    method PrintArray(items: seq<Json>) returns (ok: bool)
      requires Valid() && !denied && ItemsStorable(codec, items)
      modifies this, buffer
      ensures Valid() && Grown()
      ensures ok <==>
        !denied && ItemNumbersFit(codec, items) && old(offset) + |Text(codec, format, old(depth), Array(items))| + 2 <= Cap()
      ensures ok ==> Printed(old(Done()), Text(codec, format, old(depth), Array(items))) && depth == old(depth)
      decreases items, 1
    {
      hide Items, Text;
      ghost var pre := Done();
      ArrayParts(codec, format, depth, items);
      ok := Append([OPEN_ARRAY], 1);
      if !ok {
        return;
      }
      depth := depth + 1;
      ok := PrintItems(items);
      if !ok {
        return;
      }
      ghost var soFar := [OPEN_ARRAY] + Items(codec, format, depth, items);
      Assoc(pre, [OPEN_ARRAY], Items(codec, format, depth, items));
      ok := Close(pre, soFar, [CLOSE_ARRAY], 2);
    }

    /** The first half of a member: indentation, name and colon. */
    method PrintName(key: bytes) returns (ok: bool)
      requires Valid() && !denied && NoNul(key)
      modifies this, buffer
      ensures Valid() && Grown() && depth == old(depth)
      ensures ok <==> !denied && old(offset) + |NameText(format, depth, key)| + 1 <= Cap()
      ensures ok ==> Done() == old(Done()) + NameText(format, depth, key)
    {
      hide Quoted, Tabs;
      ghost var pre := Done();
      var indent := if format then Tabs(depth) else [];
      if format {
        ok := Append(indent, depth);
        if !ok {
          return;
        }
      }
      assert Done() == pre + indent;
      ok := PrintString(key);
      if !ok {
        return;
      }
      QuotedNoNul(key);
      UpdateOffset(pre + indent, Quoted(key));
      var colon := if format then [COLON, TAB] else [COLON];
      ok := Append(colon, |colon|);
      Assoc4(pre, indent, Quoted(key), colon);
      Assoc(indent, Quoted(key), colon);
    }

    /** One member of print_object: name, value and separator. */
    method PrintMember(m: Member, more: bool) returns (ok: bool)
      requires Valid() && !denied && NoNul(m.key) && Storable(codec, m.value)
      modifies this, buffer
      ensures Valid() && Grown()
      ensures ok <==>
        !denied && NumbersFit(codec, m.value) && old(offset) + |MemberText(codec, format, old(depth), m, more)| + 2 <= Cap()
      ensures ok ==> depth == old(depth) && Done() == old(Done()) + MemberText(codec, format, depth, m, more)
      decreases m.value, 2
    {
      hide Text, NameText;
      ghost var pre, name := Done(), NameText(format, depth, m.key);
      ok := PrintName(m.key);
      if !ok {
        return;
      }
      ok := PrintHere(m.value);
      if !ok {
        return;
      }
      TextNoNul(codec, format, depth, m.value);
      ghost var text := Text(codec, format, depth, m.value);
      UpdateOffset(pre + name, text);
      var sep := MemberSeparator(format, more);
      ok := AppendTerminated(sep, |sep| + 1);
      Assoc4(pre, name, text, sep);
      Assoc(name, text, sep);
    }

    /** The loop of print_object. */
    method PrintMembers(members: seq<Member>) returns (ok: bool)
      requires Valid() && !denied && MembersStorable(codec, members)
      modifies this, buffer
      ensures Valid() && Grown()
      ensures ok ==> !denied && MemberNumbersFit(codec, members)
      ensures !ok && !denied ==>
        !MemberNumbersFit(codec, members) || old(offset) + |Members(codec, format, old(depth), members)| + 2 > Cap()
      ensures ok ==> depth == old(depth) && Done() == old(Done()) + Members(codec, format, depth, members)
      decreases members, 0
    {
      hide MemberText, Members, MembersStorable, NumbersFit, MemberNumbersFit;
      ghost var pre := Done();
      ghost var soFar: bytes, all := [], Members(codec, format, depth, members);
      assert members[0..] == members && [] + all == all;
      for i := 0 to |members|
        invariant Valid() && !denied && Grown() && depth == old(depth)
        invariant MembersStorable(codec, members[i..])
        invariant MemberNumbersFit(codec, members[i..]) <==> MemberNumbersFit(codec, members)
        invariant Done() == pre + soFar && soFar + Members(codec, format, depth, members[i..]) == all
      {
        MembersStep(codec, format, depth, members, i, pre, soFar, all);
        ok := PrintMember(members[i], i + 1 < |members|);
        if !ok {
          return;
        }
        soFar := soFar + MemberText(codec, format, depth, members[i], i + 1 < |members|);
      }
      NothingLeft(codec, format, depth, [], members[|members|..], soFar);
      ok := true;
    }

    /** print_object. */
    method PrintObject(members: seq<Member>) returns (ok: bool)
      requires Valid() && !denied && MembersStorable(codec, members)
      modifies this, buffer
      ensures Valid() && Grown()
      ensures ok <==>
        !denied && MemberNumbersFit(codec, members) && old(offset) + |Text(codec, format, old(depth), Object(members))| + 2 <= Cap()
      ensures ok ==> Printed(old(Done()), Text(codec, format, old(depth), Object(members))) && depth == old(depth)
      decreases members, 1
    {
      hide Members, Text, MembersStorable, MemberNumbersFit, OpenText, CloseText;
      ghost var pre := Done();
      ObjectParts(codec, format, depth, members);
      var open := OpenText(format);
      ok := Append(open, |open| + 1);
      if !ok {
        return;
      }
      depth := depth + 1;
      ok := PrintMembers(members);
      if !ok {
        return;
      }
      ghost var soFar := open + Members(codec, format, depth, members);
      Assoc(pre, open, Members(codec, format, depth, members));
      ok := Close(pre, soFar, CloseText(format, depth - 1), if format then depth + 1 else 2);
    }
  }

  /** print, behind cJSON_Print and cJSON_PrintUnformatted: a first buffer of 256 bytes, and at the
      end a block cut to size. The result is the text however the buffer grew, unless an allocation
      is refused or the text is too long. */
  method Render(codec: Codec, v: Json, format: bool) returns (r: Option<bytes>, ghost denied: bool)
    requires Storable(codec, v)
    ensures r.Some? <==> !denied && NumbersFit(codec, v) && |Text(codec, format, 0, v)| + 2 <= SIZE_MAX
    ensures r.Some? ==> r.value == Text(codec, format, 0, v)
  {
    hide Text, NumbersFit;
    r, denied := RenderBuffered(codec, v, 256, format);
    if r.Some? {
      var granted: bool := *;
      if !granted {
        return None, true;
      }
    }
  }

  /** cJSON_PrintBuffered: the same from a first size of the caller's, which is refused if negative,
      and without the cut. */
  method RenderBuffered(codec: Codec, v: Json, prebuffer: int, format: bool) returns (r: Option<bytes>, ghost denied: bool)
    requires Storable(codec, v) && prebuffer <= SIZE_MAX
    ensures r.Some? <==> prebuffer >= 0 && !denied && NumbersFit(codec, v) && |Text(codec, format, 0, v)| + 2 <= SIZE_MAX
    ensures r.Some? ==> r.value == Text(codec, format, 0, v)
  {
    hide Text, NumbersFit;
    if prebuffer < 0 {
      return None, false;
    }
    var granted: bool := *;
    if !granted {
      return None, true;
    }
    var storage := new byte[prebuffer];
    var p := new PrintBuffer(codec, storage, prebuffer, false, format);
    assert p.Done() == [];
    var ok := p.PrintHere(v);
    if !ok {
      return None, p.denied;
    }
    TextNoNul(codec, format, 0, v);
    p.UpdateOffset([], Text(codec, format, 0, v));
    r, denied := Some(p.buffer[..p.offset]), false;
  }

  /** cJSON_PrintPreallocated: it succeeds just when the length is two more than the text, and then
      the caller's buffer holds the text and its terminator. */
  method RenderPreallocated(codec: Codec, v: Json, storage: array<byte>, length: int, format: bool) returns (ok: bool)
    requires Storable(codec, v) && length <= storage.Length && length <= SIZE_MAX
    modifies storage
    ensures ok <==> NumbersFit(codec, v) && |Text(codec, format, 0, v)| + 2 <= length
    ensures ok ==> var t := Text(codec, format, 0, v); storage[..|t|] == t && storage[|t|] == 0
  {
    hide Text, NumbersFit;
    if length < 0 {
      return false;
    }
    var p := new PrintBuffer(codec, storage, length, true, format);
    assert p.Done() == [];
    ok := p.PrintHere(v);
  }

  // ----- Text so far ------------------------------------------------------------------------

  function ItemText(c: Codec, fmt: bool, depth: nat, v: Json, more: bool): bytes {
    Text(c, fmt, depth, v) + ItemSeparator(fmt, more)
  }

  function NameText(fmt: bool, depth: nat, key: bytes): bytes {
    (if fmt then Tabs(depth) else []) + Quoted(key) + (if fmt then [COLON, TAB] else [COLON])
  }

  function MemberText(c: Codec, fmt: bool, depth: nat, m: Member, more: bool): bytes {
    NameText(fmt, depth, m.key) + Text(c, fmt, depth, m.value) + MemberSeparator(fmt, more)
  }

  lemma ItemsStep(c: Codec, fmt: bool, d: nat, items: seq<Json>, i: nat, pre: bytes, soFar: bytes, all: bytes)
    requires i < |items| && soFar + Items(c, fmt, d, items[i..]) == all && ItemsStorable(c, items[i..])
    ensures var text := ItemText(c, fmt, d, items[i], i + 1 < |items|);
            && Storable(c, items[i]) && ItemsStorable(c, items[i + 1..])
            && (ItemNumbersFit(c, items[i..]) <==> NumbersFit(c, items[i]) && ItemNumbersFit(c, items[i + 1..]))
            && soFar + text + Items(c, fmt, d, items[i + 1..]) == all
            && pre + soFar + text == pre + (soFar + text)
  {
    hide Text;
    var text := ItemText(c, fmt, d, items[i], i + 1 < |items|);
    assert items[i..][1..] == items[i + 1..];
    assert Items(c, fmt, d, items[i..]) == text + Items(c, fmt, d, items[i + 1..]);
    Assoc(soFar, text, Items(c, fmt, d, items[i + 1..]));
  }

  lemma NothingLeft(c: Codec, fmt: bool, d: nat, items: seq<Json>, members: seq<Member>, soFar: bytes)
    requires items == [] && members == []
    ensures ItemNumbersFit(c, items) && MemberNumbersFit(c, members)
    ensures soFar + Items(c, fmt, d, items) == soFar == soFar + Members(c, fmt, d, members)
  {
  }

  lemma MembersStep(c: Codec, fmt: bool, d: nat, members: seq<Member>, i: nat, pre: bytes, soFar: bytes, all: bytes)
    requires i < |members| && soFar + Members(c, fmt, d, members[i..]) == all && MembersStorable(c, members[i..])
    ensures var text := MemberText(c, fmt, d, members[i], i + 1 < |members|);
            && NoNul(members[i].key) && Storable(c, members[i].value) && MembersStorable(c, members[i + 1..])
            && (MemberNumbersFit(c, members[i..]) <==> NumbersFit(c, members[i].value) && MemberNumbersFit(c, members[i + 1..]))
            && soFar + text + Members(c, fmt, d, members[i + 1..]) == all
            && pre + soFar + text == pre + (soFar + text)
  {
    hide Text, Quoted;
    var text := MemberText(c, fmt, d, members[i], i + 1 < |members|);
    assert members[i..][1..] == members[i + 1..];
    assert Members(c, fmt, d, members[i..]) == text + Members(c, fmt, d, members[i + 1..]);
    Assoc(soFar, text, Members(c, fmt, d, members[i + 1..]));
  }

  lemma ArrayParts(c: Codec, fmt: bool, d: nat, items: seq<Json>)
    ensures [OPEN_ARRAY] + Items(c, fmt, d + 1, items) + [CLOSE_ARRAY] == Text(c, fmt, d, Array(items))
  {
  }

  function OpenText(fmt: bool): (t: bytes) {
    [OPEN_OBJECT] + if fmt then [NEWLINE] else []
  }

  function CloseText(fmt: bool, d: nat): (t: bytes)
    ensures |t| == if fmt then d + 1 else 1
  {
    (if fmt then Tabs(d) else []) + [CLOSE_OBJECT]
  }

  lemma ObjectParts(c: Codec, fmt: bool, d: nat, members: seq<Member>)
    ensures OpenText(fmt) + Members(c, fmt, d + 1, members) + CloseText(fmt, d) == Text(c, fmt, d, Object(members))
  {
  }

  // ----- No NUL in the text -----------------------------------------------------------------

  lemma {:induction false} QuotedNoNul(s: bytes)
    requires NoNul(s)
    ensures NoNul(Escape(s)) && NoNul(Quoted(s))
  {
    if s != [] {
      QuotedNoNul(s[1..]);
    }
  }

  lemma {:induction false} TextNoNul(c: Codec, fmt: bool, d: nat, v: Json)
    requires Storable(c, v)
    ensures NoNul(Text(c, fmt, d, v))
    decreases v, 1
  {
    match v
    case String(s) =>
      QuotedNoNul(s);
    case Array(items) =>
      ItemsNoNul(c, fmt, d + 1, items);
    case Object(members) =>
      MembersNoNul(c, fmt, d + 1, members);
    case _ =>
  }

  lemma {:induction false} ItemsNoNul(c: Codec, fmt: bool, d: nat, items: seq<Json>)
    requires ItemsStorable(c, items)
    ensures NoNul(Items(c, fmt, d, items))
    decreases items, 0
  {
    if items != [] {
      TextNoNul(c, fmt, d, items[0]);
      ItemsNoNul(c, fmt, d, items[1..]);
    }
  }

  lemma {:induction false} MembersNoNul(c: Codec, fmt: bool, d: nat, members: seq<Member>)
    requires MembersStorable(c, members)
    ensures NoNul(Members(c, fmt, d, members))
    decreases members, 0
  {
    if members != [] {
      QuotedNoNul(members[0].key);
      TextNoNul(c, fmt, d, members[0].value);
      MembersNoNul(c, fmt, d, members[1..]);
    }
  }

  // One step of the copying loop, or its end.
  lemma EscapeStep(s: bytes, i: nat, done: bytes)
    requires i <= |s|
    ensures i == |s| ==> Escape(s[i..]) == [] && done + Escape(s[i..]) == done
    ensures i < |s| ==> |Escape(s[i..])| == |EscapeByte(s[i])| + |Escape(s[i + 1..])|
    ensures i < |s| ==> done + Escape(s[i..]) == (done + EscapeByte(s[i])) + Escape(s[i + 1..])
  {
    if i < |s| {
      assert s[i..][1..] == s[i + 1..];
      Assoc(done, EscapeByte(s[i]), Escape(s[i + 1..]));
    }
  }

  lemma QuotedLength(s: bytes)
    ensures |Quoted(s)| == |Escape(s)| + 2
  {
  }

  lemma QuotedParts(pre: bytes, s: bytes)
    ensures pre + [QUOTE] + Escape(s) + [QUOTE, 0] == pre + Quoted(s) + [0]
  {
  }

  lemma {:induction false} PlainEscape(s: bytes)
    requires |Escape(s)| == |s|
    ensures Escape(s) == s
  {
    if s != [] {
      EscapeIsNoShorter(s[1..]);
      PlainEscape(s[1..]);
    }
  }

  lemma {:induction false} EscapeIsNoShorter(s: bytes)
    ensures |s| <= |Escape(s)|
  {
    if s != [] {
      EscapeIsNoShorter(s[1..]);
    }
  }
}
