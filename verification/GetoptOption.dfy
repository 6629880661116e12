/**
 One option of getopt_long: how an argument that starts with '-' is matched against the
 short-option letters and the long-option table, and how much of argv it uses up.
 Models parse_long_options and the option half of getopt_internal in
 nrf/ext/freebsd-getopt/getopt_long.c.
 */
module GetoptOption {
  import opened Wrappers

  datatype HasArg = NoArgument | RequiredArgument | OptionalArgument

  /** A row of the long-option table; `flag` is the address the value is stored to, if any. */
  datatype LongOption = LongOption(name: string, hasArg: HasArg, flag: Option<int>, val: int)

  datatype Mode = Permuting | InOrder | StopAtFirst

  /** What a caller passes: the letters without a leading '+' or '-', the table if there is
      one, how non-options are treated, and whether this is getopt_long_only. */
  datatype Spec = Spec(options: string, longs: Option<seq<LongOption>>, mode: Mode, longOnly: bool)
  {
    /** The value returned for a missing argument. */
    function BadArg(): int {
      if options != "" && options[0] == ':' then ':' as int else BADCH
    }
  }

  const BADCH: int := '?' as int

  /** The prologue of getopt_internal: a leading '-' or '+', or POSIXLY_CORRECT, sets the mode. */
  function Prepare(options: string, longs: Option<seq<LongOption>>, posixlyCorrect: bool, longOnly: bool): Spec {
    var lead := if options == "" then '\0' else options[0];
    Spec(if lead == '+' || lead == '-' then options[1..] else options, longs,
         if lead == '-' then InOrder else if posixlyCorrect || lead == '+' then StopAtFirst else Permuting,
         longOnly)
  }

  /** The effect of one option: how many arguments optind moves over, what is left of the
      cluster, and what the caller is told. */
  datatype Outcome = Outcome(used: nat, place: string, ret: int, optarg: Option<string>, idx: Option<nat>)

  // ----- Strings ----------------------------------------------------------------

  /** strchr: the first index of c, or the length when there is none. */
  function IndexOf(s: string, c: char): (i: nat)
    ensures i <= |s| && c !in s[..i] && (i < |s| ==> s[i] == c)
  {
    if s == "" || s[0] == c then 0
    else
      var i := 1 + IndexOf(s[1..], c);
      assert s[..i] == [s[0]] + s[1..][..i - 1];
      i
  }

  /** Reading at or past the end of a C string yields its terminator. */
  function CharAt(s: string, i: nat): char {
    if i < |s| then s[i] else '\0'
  }

  // ----- Long options -----------------------------------------------------------

  datatype Match = NoMatch | Ambiguous | Found(index: nat)

  predicate Exact(l: LongOption, key: string) {
    l.name == key
  }

  /** An abbreviation; a single letter that is also a short option does not abbreviate. */
  predicate Partial(l: LongOption, key: string, shortToo: bool) {
    key <= l.name && l.name != key && !(shortToo && |key| == 1)
  }

  /** Two abbreviations of which the second cannot stand for the first. */
  predicate Conflicting(a: LongOption, b: LongOption, longOnly: bool) {
    longOnly || b.hasArg != a.hasArg || b.flag != a.flag || b.val != a.val
  }

  function FirstExact(longs: seq<LongOption>, key: string, from: nat): (i: nat)
    requires from <= |longs|
    ensures from <= i <= |longs| && (i < |longs| ==> Exact(longs[i], key))
    ensures forall j :: from <= j < i ==> !Exact(longs[j], key)
    decreases |longs| - from
  {
    if from == |longs| || Exact(longs[from], key) then from else FirstExact(longs, key, from + 1)
  }

  function FirstPartial(longs: seq<LongOption>, key: string, shortToo: bool, from: nat): (i: nat)
    requires from <= |longs|
    ensures from <= i <= |longs| && (i < |longs| ==> Partial(longs[i], key, shortToo))
    ensures forall j :: from <= j < i ==> !Partial(longs[j], key, shortToo)
    decreases |longs| - from
  {
    if from == |longs| || Partial(longs[from], key, shortToo) then from else FirstPartial(longs, key, shortToo, from + 1)
  }

  /** What the table search means: the first exact name; failing that the first abbreviation,
      unless some later abbreviation conflicts with it. */
  function LongMatch(longs: seq<LongOption>, key: string, shortToo: bool, longOnly: bool): Match {
    var e, p := FirstExact(longs, key, 0), FirstPartial(longs, key, shortToo, 0);
    if e < |longs| then Found(e)
    else if p == |longs| then NoMatch
    else if exists j :: p < j < |longs| && Partial(longs[j], key, shortToo) && Conflicting(longs[p], longs[j], longOnly) then Ambiguous
    else Found(p)
  }

  /** The search loop of parse_long_options. */
  method FindLong(longs: seq<LongOption>, key: string, shortToo: bool, longOnly: bool) returns (m: Match)
    ensures m == LongMatch(longs, key, shortToo, longOnly)
  {
    var first, secondPartial := -1, false;
    for i := 0 to |longs|
      invariant forall j :: 0 <= j < i ==> !Exact(longs[j], key)
      invariant first == -1 ==> !secondPartial && forall j :: 0 <= j < i ==> !Partial(longs[j], key, shortToo)
      invariant first != -1 ==> 0 <= first < i && Partial(longs[first], key, shortToo)
                                && forall j :: 0 <= j < first ==> !Partial(longs[j], key, shortToo)
      invariant first != -1 ==>
                  (secondPartial <==> exists j :: first < j < i && Partial(longs[j], key, shortToo) && Conflicting(longs[first], longs[j], longOnly))
    {
      if key <= longs[i].name {
        if |longs[i].name| == |key| {
          return Found(i);
        }
        if !(shortToo && |key| == 1) {
          if first == -1 {
            first := i;
          } else if Conflicting(longs[first], longs[i], longOnly) {
            secondPartial := true;
          }
        }
      }
    }
    if secondPartial {
      return Ambiguous;
    }
    return if first != -1 then Found(first) else NoMatch;
  }

  /** parse_long_options on the text `cur` of a long option, with optind at rest[u]; `arg` and `idx` are
      optarg and the index before it. */
  function ParseLong(sp: Spec, rest: seq<string>, u: nat, cur: string, shortToo: bool, arg: Option<string>, idx: Option<nat>): (o: Outcome)
    requires sp.longs.Some?
    ensures o.place == ""
  {
    var longs, eq := sp.longs.value, IndexOf(cur, '=');
    match LongMatch(longs, cur[..eq], shortToo, sp.longOnly)
    case Ambiguous => Outcome(u + 1, "", BADCH, arg, idx)
    case NoMatch => if shortToo then Outcome(u, "", -1, arg, idx) else Outcome(u + 1, "", BADCH, arg, idx)
    case Found(m) =>
      assert m < |longs|;
      var l := longs[m];
      var ret := if l.flag.Some? then 0 else l.val;
      if eq < |cur| then
        if l.hasArg.NoArgument? then Outcome(u + 1, "", BADCH, arg, idx)
        else Outcome(u + 1, "", ret, Some(cur[eq + 1..]), Some(m))
      else if l.hasArg.RequiredArgument? then
        if u + 1 < |rest| then Outcome(u + 2, "", ret, Some(rest[u + 1]), Some(m))
        else Outcome(u + 1, "", sp.BadArg(), None, idx)
      else Outcome(u + 1, "", ret, arg, Some(m))
  }

  lemma ParseLongShift(sp: Spec, rest: seq<string>, u: nat, cur: string, shortToo: bool, arg: Option<string>, idx: Option<nat>)
    requires sp.longs.Some? && u <= |rest|
    ensures var o := ParseLong(sp, rest[u..], 0, cur, shortToo, arg, idx);
            ParseLong(sp, rest, u, cur, shortToo, arg, idx) == o.(used := u + o.used)
  {
  }

  lemma ParseLongProgress(sp: Spec, rest: seq<string>, u: nat, cur: string, shortToo: bool, arg: Option<string>, idx: Option<nat>)
    requires sp.longs.Some? && u < |rest|
    ensures var o := ParseLong(sp, rest, u, cur, shortToo, arg, idx);
            && o.place == "" && o.used <= |rest|
            && (ProperVals(sp) ==> if o.ret == -1 then shortToo && o == Outcome(u, "", -1, arg, idx) else u < o.used)
  {
  }

  // ----- Short options ----------------------------------------------------------

  /** A short option letter at the head of `place`, with optind at rest[u]. */
  function ShortStep(sp: Spec, rest: seq<string>, u: nat, place: string, arg: Option<string>, idx: Option<nat>): Outcome
    requires place != ""
  {
    var c, p, i := place[0], place[1..], IndexOf(sp.options, place[0]);
    var past := if p == "" then u + 1 else u;
    if c == ':' || (c == '-' && p != "") || i == |sp.options| then
      if c == '-' && p == "" then Outcome(u, "", -1, arg, idx) else Outcome(past, p, BADCH, arg, idx)
    else if sp.longs.Some? && c == 'W' && CharAt(sp.options, i + 1) == ';' then
      if p != "" then ParseLong(sp, rest, u, p, false, arg, idx)
      else if u + 1 < |rest| then ParseLong(sp, rest, u + 1, rest[u + 1], false, arg, idx)
      else Outcome(u + 1, "", sp.BadArg(), arg, idx)
    else if CharAt(sp.options, i + 1) != ':' then Outcome(past, p, c as int, arg, idx)
    else if p != "" then Outcome(u + 1, "", c as int, Some(p), idx)
    else if CharAt(sp.options, i + 2) == ':' then Outcome(u + 1, "", c as int, None, idx)
    else if u + 1 < |rest| then Outcome(u + 2, "", c as int, Some(rest[u + 1]), idx)
    else Outcome(u + 1, "", sp.BadArg(), None, idx)
  }

  lemma ShortStepShift(sp: Spec, rest: seq<string>, u: nat, place: string, arg: Option<string>, idx: Option<nat>)
    requires place != "" && u <= |rest|
    ensures var o := ShortStep(sp, rest[u..], 0, place, arg, idx);
            ShortStep(sp, rest, u, place, arg, idx) == o.(used := u + o.used)
  {
    hide ParseLong;
    if sp.longs.Some? {
      ParseLongShift(sp, rest, u, place[1..], false, arg, idx);
      if u + 1 < |rest| {
        ParseLongShift(sp, rest, u + 1, rest[u + 1], false, arg, idx);
        ParseLongShift(sp, rest[u..], 1, rest[u + 1], false, arg, idx);
        assert rest[u..][1..] == rest[u + 1..];
      }
    }
  }

  /** One option: `rest` is argv from optind on and `place` is what is left of rest[0]. A long option
      that returns -1, because it may be a short one or because that is its value, is read as letters. */
  function OptionStep(sp: Spec, rest: seq<string>, place: string): Outcome
    requires place != ""
  {
    if sp.longs.Some? && (place[0] == '-' || sp.longOnly) then
      if place == "-" then Outcome(0, "", sp.BadArg(), None, None)
      else
        var dashed := place[0] == '-';
        var cur := if dashed then place[1..] else place;
        var r := ParseLong(sp, rest, 0, cur, !dashed && place[0] != ':' && place[0] in sp.options, None, None);
        if r.ret != -1 then r else ShortStep(sp, rest, r.used, cur, r.optarg, r.idx)
    else ShortStep(sp, rest, 0, place, None, None)
  }

  /** No long option returns -1, the value that ends a run. */
  predicate ProperVals(sp: Spec) {
    sp.longs.Some? ==> forall l :: l in sp.longs.value && l.flag.None? ==> l.val != -1
  }

  /** The one cluster text that is neither shortened nor passed over. */
  predicate DeadEnd(sp: Spec, place: string) {
    place == "-" && (sp.longs.Some? || '-' !in sp.options)
  }

  /** Every option but a dead end shortens its cluster or moves optind, and by no more than
      there is; only a dead end without a long-option table ends the run. */
  lemma OptionProgress(sp: Spec, rest: seq<string>, place: string)
    requires place != "" && rest != [] && ProperVals(sp)
    ensures var o := OptionStep(sp, rest, place);
            && o.used <= |rest|
            && (DeadEnd(sp, place) <==> o.used == 0 && o.place == "")
            && (o.place != "" ==> o.used == 0 && o.place == place[1..])
            && (o.ret == -1 <==> DeadEnd(sp, place) && sp.longs.None?)
  {
    hide ParseLong, LongMatch, ProperVals;
    if sp.longs.Some? {
      var cur := if place[0] == '-' then place[1..] else place;
      forall shortToo {
        ParseLongProgress(sp, rest, 0, cur, shortToo, None, None);
      }
      ShortLongProgress(sp, rest, place);
    }
  }

  // The same for a long option that follows the letter W.
  lemma ShortLongProgress(sp: Spec, rest: seq<string>, place: string)
    requires place != "" && rest != [] && sp.longs.Some? && ProperVals(sp)
    ensures var o := ParseLong(sp, rest, 0, place[1..], false, None, None); o.place == "" && 0 < o.used <= |rest| && o.ret != -1
    ensures |rest| > 1 ==>
      var o := ParseLong(sp, rest, 1, rest[1], false, None, None); o.place == "" && 0 < o.used <= |rest| && o.ret != -1
  {
    ParseLongProgress(sp, rest, 0, place[1..], false, None, None);
    if |rest| > 1 {
      ParseLongProgress(sp, rest, 1, rest[1], false, None, None);
    }
  }

  lemma OptionProgressIf(sp: Spec, rest: seq<string>, place: string)
    requires place != "" && rest != []
    ensures var o := OptionStep(sp, rest, place);
            ProperVals(sp) ==> o.used <= |rest| && (DeadEnd(sp, place) <==> o.used == 0 && o.place == "") && (o.place != "" ==> o.used == 0)
  {
    if ProperVals(sp) {
      OptionProgress(sp, rest, place);
    }
  }
}
