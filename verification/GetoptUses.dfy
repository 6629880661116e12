/**
 What a command line is meant to say, and that getopt_long reports exactly that: words, clusters of
 letters and long options, with their arguments attached, separate, omitted or missing, laid
 out as argv after the comments and the manual of nrf/ext/freebsd-getopt/getopt_long.c.
 */
module GetoptUses {
  import opened GetoptOption
  import opened GetoptRun
  import opened Wrappers

  // ----- Declarations -----------------------------------------------------------------------

  /** The first c among the letters is followed by the text. */
  ghost predicate Followed(options: string, c: char, text: string) {
    exists i :: 0 <= i < |options| && options[i] == c && c !in options[..i] && text <= options[i + 1..]
  }

  predicate Listed(sp: Spec, c: char) {
    c != ':' && c in sp.options
  }

  ghost predicate TakesArgument(sp: Spec, c: char) {
    Listed(sp, c) && Followed(sp.options, c, ":") && !NamesLong(sp, c)
  }

  ghost predicate ArgumentIsOptional(sp: Spec, c: char) {
    TakesArgument(sp, c) && Followed(sp.options, c, "::")
  }

  /** The letter W, if it is declared to introduce a long option. */
  ghost predicate NamesLong(sp: Spec, c: char) {
    sp.longs.Some? && c == 'W' && c in sp.options && Followed(sp.options, c, ";")
  }

  /** A letter without an argument, or one that is not declared. */
  ghost predicate IsFlag(sp: Spec, c: char) {
    !Listed(sp, c) || (!Followed(sp.options, c, ":") && !NamesLong(sp, c))
  }

  /** A dash counts as a letter only where it ends a cluster. */
  function FlagValue(sp: Spec, c: char, last: bool): int {
    if Listed(sp, c) && (c != '-' || last) then c as int else '?' as int
  }

  /** What is returned for a missing argument. */
  function MissingValue(sp: Spec): int {
    if ":" <= sp.options then ':' as int else '?' as int
  }

  // ----- Long names -------------------------------------------------------------------------

  datatype Target = Row(index: nat) | Unclear | Unlisted

  predicate IsExact(longs: seq<LongOption>, key: string, m: nat) {
    m < |longs| && longs[m].name == key && forall j :: 0 <= j < m ==> longs[j].name != key
  }

  predicate NoneExact(longs: seq<LongOption>, key: string) {
    forall j :: 0 <= j < |longs| ==> longs[j].name != key
  }

  /** The first name that the key abbreviates. */
  predicate IsFirst(longs: seq<LongOption>, key: string, m: nat) {
    m < |longs| && key <= longs[m].name && forall j :: 0 <= j < m ==> !(key <= longs[j].name)
  }

  /** Rows that differ in nothing but their names. */
  predicate Alike(a: LongOption, b: LongOption) {
    a.hasArg == b.hasArg && a.flag == b.flag && a.val == b.val
  }

  /** What a key stands for: the row of that name, or the first of the rows it abbreviates if they are all
      alike, or for getopt_long_only the only one. Where `short` is set, one letter abbreviates nothing. */
  ghost predicate StandsFor(sp: Spec, key: string, short: bool, t: Target) {
    sp.longs.Some? &&
    var longs := sp.longs.value;
    match t
    case Row(m) =>
      IsExact(longs, key, m) ||
      (&& NoneExact(longs, key) && !(short && |key| == 1) && IsFirst(longs, key, m)
       && forall j :: m < j < |longs| && key <= longs[j].name ==> !sp.longOnly && Alike(longs[m], longs[j]))
    case Unclear =>
      && NoneExact(longs, key) && !(short && |key| == 1)
      && exists m: nat, j: nat :: IsFirst(longs, key, m) && m < j < |longs| && key <= longs[j].name && (sp.longOnly || !Alike(longs[m], longs[j]))
    case Unlisted =>
      NoneExact(longs, key) && ((short && |key| == 1) || forall j :: 0 <= j < |longs| ==> !(key <= longs[j].name))
  }

  // ----- Uses -------------------------------------------------------------------------------

  datatype Value = Nothing | Assigned(arg: string) | Next(arg: string) | Missing

  /** How a long option is introduced: `--name`, for getopt_long_only `-name`, `-Wname` or `-W name`. */
  datatype Lead = TwoDashes | OneDash | Joined | Apart

  datatype Ending =
    | Flag(c: char)
    | Attached(c: char, arg: string)
    | Separate(c: char, arg: string)
    | Omitted(c: char)
    | Lacking(c: char)
    | Long(lead: Lead, key: string, value: Value, target: Target)
    | LackingName

  /** A word, or letters without arguments and then an option of any kind. */
  datatype Use = Word(text: string) | Options(flags: string, ending: Ending)

  function Body(key: string, value: Value): string {
    if value.Assigned? then key + "=" + value.arg else key
  }

  function InNext(value: Value): seq<string> {
    if value.Next? then [value.arg] else []
  }

  /** The end of the argument that starts the option, and the arguments after it. */
  function Text(e: Ending): string {
    match e
    case Attached(c, arg) => [c] + arg
    case Long(lead, key, value, _) =>
      (match lead
       case TwoDashes => "-" + Body(key, value)
       case OneDash => Body(key, value)
       case Joined => "W" + Body(key, value)
       case Apart => "W")
    case LackingName => "W"
    case _ => [e.c]
  }

  function Extra(e: Ending): seq<string> {
    match e
    case Separate(_, arg) => [arg]
    case Long(lead, key, value, _) =>
      (if lead.Apart? then [Body(key, value)] else []) + InNext(value)
    case _ => []
  }

  function Args(u: Use): seq<string> {
    match u
    case Word(w) => [w]
    case Options(flags, e) => ["-" + flags + Text(e)] + Extra(e)
  }

  function LongEvent(sp: Spec, value: Value, t: Target): Event {
    if sp.longs.None? || !t.Row? || t.index >= |sp.longs.value| then Event('?' as int, None, None)
    else
      var l := sp.longs.value[t.index];
      var ret := if l.flag.Some? then 0 else l.val;
      match value
      case Nothing => Event(ret, None, Some(t.index))
      case Assigned(arg) =>
        if l.hasArg.NoArgument? then Event('?' as int, None, None) else Event(ret, Some(arg), Some(t.index))
      case Next(arg) => Event(ret, Some(arg), Some(t.index))
      case Missing => Event(MissingValue(sp), None, None)
  }

  function EndingEvent(sp: Spec, e: Ending): Event {
    match e
    case Flag(c) => Event(FlagValue(sp, c, true), None, None)
    case Attached(c, arg) => Event(c as int, Some(arg), None)
    case Separate(c, arg) => Event(c as int, Some(arg), None)
    case Omitted(c) => Event(c as int, None, None)
    case Lacking(c) => Event(MissingValue(sp), None, None)
    case Long(_, _, value, t) => LongEvent(sp, value, t)
    case LackingName => Event(MissingValue(sp), None, None)
  }

  function FlagEvents(sp: Spec, flags: string): (r: seq<Event>)
    ensures |r| == |flags|
  {
    if flags == "" then [] else [Event(FlagValue(sp, flags[0], false), None, None)] + FlagEvents(sp, flags[1..])
  }

  /** What the calls report for one use, in each mode. */
  function Reported(sp: Spec, u: Use): seq<Event> {
    match u
    case Word(w) => if sp.mode.InOrder? then [Event(1, Some(w), None)] else []
    case Options(flags, e) => FlagEvents(sp, flags) + [EndingEvent(sp, e)]
  }

  // ----- Which uses are meant ---------------------------------------------------------------

  /** The argument ends here, so it must be the last. */
  predicate Lacks(u: Use) {
    u.Options? && (u.ending.Lacking? || u.ending.LackingName? || (u.ending.Long? && u.ending.value.Missing?))
  }

  /** The text is read as a letter and what follows it: with a table it does not start with a dash, and
      getopt_long_only does not take it for a name. */
  ghost predicate ReadAsLetter(sp: Spec, place: string) {
    && place != "" && (sp.longs.Some? ==> place[0] != '-')
    && (sp.longs.Some? && sp.longOnly ==>
          Listed(sp, place[0]) && StandsFor(sp, place[..IndexOf(place, '=')], true, Unlisted))
  }

  predicate MayBeLetter(sp: Spec, body: string) {
    body != "" && Listed(sp, body[0])
  }

  /** The key has a row that allows this value, or none and then takes no further argument. */
  predicate FitsRow(sp: Spec, value: Value, t: Target) {
    if !t.Row? || sp.longs.None? || t.index >= |sp.longs.value| then value.Nothing? || value.Assigned?
    else match sp.longs.value[t.index].hasArg
      case NoArgument => value.Nothing? || value.Assigned?
      case RequiredArgument => !value.Nothing?
      case OptionalArgument => value.Nothing? || value.Assigned?
  }

  ghost predicate MeantLong(sp: Spec, lead: Lead, key: string, value: Value, t: Target) {
    var body := Body(key, value);
    var short := lead.OneDash? && MayBeLetter(sp, body);
    && sp.longs.Some? && '=' !in key && FitsRow(sp, value, t) && StandsFor(sp, key, short, t)
    && match lead
       case TwoDashes => body != ""
       case OneDash => sp.longOnly && body != "" && body[0] != '-' && (t.Unlisted? ==> !short)
       case Joined => body != "" && NamesLong(sp, 'W') && ReadAsLetter(sp, "W" + body)
       case Apart => NamesLong(sp, 'W') && ReadAsLetter(sp, "W")
  }

  ghost predicate MeantEnding(sp: Spec, e: Ending) {
    match e
    case Flag(c) => IsFlag(sp, c) && (c == '-' ==> Listed(sp, c)) && ReadAsLetter(sp, [c])
    case Attached(c, arg) => TakesArgument(sp, c) && c != '-' && arg != "" && ReadAsLetter(sp, [c] + arg)
    case Separate(c, arg) => TakesArgument(sp, c) && !ArgumentIsOptional(sp, c) && ReadAsLetter(sp, [c])
    case Omitted(c) => ArgumentIsOptional(sp, c) && ReadAsLetter(sp, [c])
    case Lacking(c) => TakesArgument(sp, c) && !ArgumentIsOptional(sp, c) && ReadAsLetter(sp, [c])
    case Long(lead, key, value, t) => MeantLong(sp, lead, key, value, t)
    case LackingName => NamesLong(sp, 'W') && ReadAsLetter(sp, "W")
  }

  ghost predicate MeantFlags(sp: Spec, flags: string, text: string)
    decreases flags
  {
    flags == "" || ((IsFlag(sp, flags[0]) || flags[0] == '-') && ReadAsLetter(sp, flags + text) && MeantFlags(sp, flags[1..], text))
  }

  ghost predicate Meant(sp: Spec, u: Use) {
    match u
    case Word(w) => !(|w| > 1 && w[0] == '-')
    case Options(flags, e) => MeantFlags(sp, flags, Text(e)) && MeantEnding(sp, e) && (flags == "" ==> Text(e) != "-")
  }

  // ----- Modes ------------------------------------------------------------------------------

  /** A '-' or '+' in front of the letters is not one of them, and chooses the mode before POSIXLY_CORRECT does. */
  lemma ModeIsChosen(letters: string, longs: Option<seq<LongOption>>, posixlyCorrect: bool, longOnly: bool)
    ensures Prepare("-" + letters, longs, posixlyCorrect, longOnly) == Spec(letters, longs, InOrder, longOnly)
    ensures Prepare("+" + letters, longs, posixlyCorrect, longOnly) == Spec(letters, longs, StopAtFirst, longOnly)
    ensures !("-" <= letters) && !("+" <= letters) ==>
      Prepare(letters, longs, posixlyCorrect, longOnly)
      == Spec(letters, longs, if posixlyCorrect then StopAtFirst else Permuting, longOnly)
  {
    assert ("-" + letters)[1..] == letters && ("+" + letters)[1..] == letters;
  }

  // ----- Tables -----------------------------------------------------------------------------

  lemma FollowedIff(options: string, c: char, text: string)
    ensures var i := IndexOf(options, c);
            Followed(options, c, text) <==> i < |options| && text <= options[i + 1..]
  {
    var i := IndexOf(options, c);
    if Followed(options, c, text) {
      var k :| 0 <= k < |options| && options[k] == c && c !in options[..k] && text <= options[k + 1..];
      assert k == i;
    }
  }

  lemma FollowedChars(options: string, c: char)
    ensures var i := IndexOf(options, c);
            && (Followed(options, c, ":") <==> i < |options| && CharAt(options, i + 1) == ':')
            && (Followed(options, c, ";") <==> i < |options| && CharAt(options, i + 1) == ';')
            && (Followed(options, c, "::") <==> i < |options| && CharAt(options, i + 1) == ':' && CharAt(options, i + 2) == ':')
            && (i < |options| <==> c in options)
  {
    FollowedIff(options, c, ":");
    FollowedIff(options, c, ";");
    FollowedIff(options, c, "::");
  }

  // Where no name is exact, the first abbreviation decides.
  lemma FirstAbbreviation(longs: seq<LongOption>, key: string, short: bool, m: nat)
    requires NoneExact(longs, key) && !(short && |key| == 1) && IsFirst(longs, key, m)
    ensures FirstExact(longs, key, 0) == |longs| && FirstPartial(longs, key, short, 0) == m
    ensures forall j :: 0 <= j < |longs| ==> (Partial(longs[j], key, short) <==> key <= longs[j].name)
  {
    assert Partial(longs[m], key, short);
  }

  lemma MatchIs(sp: Spec, key: string, short: bool, t: Target)
    requires StandsFor(sp, key, short, t)
    ensures var m := LongMatch(sp.longs.value, key, short, sp.longOnly);
            m == match t case Row(i) => Found(i) case Unclear => Ambiguous case Unlisted => NoMatch
    ensures t.Row? ==> t.index < |sp.longs.value|
  {
    hide Partial, LongMatch, FirstExact, FirstPartial;
    var longs := sp.longs.value;
    match t
    case Unclear =>
      var m: nat, j: nat :| IsFirst(longs, key, m) && m < j < |longs| && key <= longs[j].name && (sp.longOnly || !Alike(longs[m], longs[j]));
      AbbreviationIs(sp, key, short, m);
      assert Conflicting(longs[m], longs[j], sp.longOnly);
    case Row(m) =>
      if IsExact(longs, key, m) {
        ExactIs(sp, key, short, m);
      } else {
        AbbreviationIs(sp, key, short, m);
      }
    case Unlisted =>
      NoAbbreviation(longs, key, short);
      assert LongMatch(longs, key, short, sp.longOnly) == NoMatch by { NothingIs(sp, key, short); }
  }

  lemma ExactIs(sp: Spec, key: string, short: bool, m: nat)
    requires sp.longs.Some? && IsExact(sp.longs.value, key, m)
    ensures LongMatch(sp.longs.value, key, short, sp.longOnly) == Found(m)
  {
    assert FirstExact(sp.longs.value, key, 0) == m;
  }

  lemma AbbreviationIs(sp: Spec, key: string, short: bool, m: nat)
    requires sp.longs.Some? && NoneExact(sp.longs.value, key) && !(short && |key| == 1) && IsFirst(sp.longs.value, key, m)
    ensures LongMatch(sp.longs.value, key, short, sp.longOnly) ==
      if exists j :: m < j < |sp.longs.value| && key <= sp.longs.value[j].name && Conflicting(sp.longs.value[m], sp.longs.value[j], sp.longOnly)
      then Ambiguous else Found(m)
  {
    hide Partial, Conflicting;
    FirstAbbreviation(sp.longs.value, key, short, m);
  }

  lemma NothingIs(sp: Spec, key: string, short: bool)
    requires sp.longs.Some? && FirstExact(sp.longs.value, key, 0) == |sp.longs.value| == FirstPartial(sp.longs.value, key, short, 0)
    ensures LongMatch(sp.longs.value, key, short, sp.longOnly) == NoMatch
  {
  }

  lemma NoAbbreviation(longs: seq<LongOption>, key: string, short: bool)
    requires NoneExact(longs, key) && ((short && |key| == 1) || forall j :: 0 <= j < |longs| ==> !(key <= longs[j].name))
    ensures FirstExact(longs, key, 0) == |longs| && FirstPartial(longs, key, short, 0) == |longs|
  {
  }

  // ----- One step ---------------------------------------------------------------------------

  // A text that is read as a letter is not read as a name.
  lemma LetterIsShort(sp: Spec, rest: seq<string>, place: string)
    requires ReadAsLetter(sp, place) && rest != []
    ensures OptionStep(sp, rest, place) == ShortStep(sp, rest, 0, place, None, None)
  {
    hide ShortStep, LongMatch, StandsFor;
    if sp.longs.Some? && sp.longOnly {
      MatchIs(sp, place[..IndexOf(place, '=')], true, Unlisted);
    }
  }

  lemma FlagStep(sp: Spec, rest: seq<string>, place: string)
    requires ReadAsLetter(sp, place) && (IsFlag(sp, place[0]) || place[0] == '-') && rest != [] && |place| > 1
    ensures OptionStep(sp, rest, place) == Outcome(0, place[1..], FlagValue(sp, place[0], false), None, None)
  {
    hide ParseLong, OptionStep, ReadAsLetter, Followed;
    LetterIsShort(sp, rest, place);
    FollowedChars(sp.options, place[0]);
  }

  /** The event of a use and the arguments it takes. */
  function Step(sp: Spec, e: Ending): Outcome {
    var ev := EndingEvent(sp, e);
    Outcome(1 + |Extra(e)|, "", ev.ret, ev.optarg, ev.idx)
  }

  lemma LetterStep(sp: Spec, a: string, e: Ending, rest: seq<string>)
    requires MeantEnding(sp, e) && !e.Long? && (Lacks(Options("", e)) ==> rest == [])
    ensures Text(e) != "" && OptionStep(sp, [a] + Extra(e) + rest, Text(e)) == Step(sp, e)
  {
    hide ParseLong, OptionStep, ReadAsLetter, Followed;
    var args := [a] + Extra(e) + rest;
    LetterIsShort(sp, args, Text(e));
    FollowedChars(sp.options, Text(e)[0]);
    assert e.Separate? ==> args[1] == e.arg;
    assert e.Attached? ==> Text(e)[1..] == e.arg;
  }

  // The text of a long option, with optind at its argument.
  lemma BodyStep(sp: Spec, before: seq<string>, key: string, value: Value, short: bool, t: Target, rest: seq<string>)
    requires before != [] && sp.longs.Some? && '=' !in key && FitsRow(sp, value, t) && StandsFor(sp, key, short, t)
    requires (value.Missing? ==> rest == []) && (t.Unlisted? ==> !short)
    ensures ParseLong(sp, before + InNext(value) + rest, |before| - 1, Body(key, value), short, None, None) ==
      var ev := LongEvent(sp, value, t);
      Outcome(|before| + |InNext(value)|, "", ev.ret, ev.optarg, ev.idx)
  {
    hide LongMatch, StandsFor;
    KeyOfBody(key, value);
    MatchIs(sp, key, short, t);
    if value.Next? {
      assert (before + [value.arg] + rest)[|before|] == value.arg;
    }
  }

  lemma KeyOfBody(key: string, value: Value)
    requires '=' !in key
    ensures var body := Body(key, value);
            && IndexOf(body, '=') == |key| && body[..|key|] == key
            && (value.Assigned? ==> |key| < |body| && body[|key| + 1..] == value.arg)
            && (!value.Assigned? ==> |key| == |body|)
  {
    var body := Body(key, value);
    assert forall k :: 0 <= k < |key| ==> body[k] == key[k];
    assert value.Assigned? ==> body[|key|] == '=';
  }

  lemma DashedStep(sp: Spec, a: string, e: Ending, rest: seq<string>)
    requires MeantEnding(sp, e) && e.Long? && (e.lead.TwoDashes? || e.lead.OneDash?) && (e.value.Missing? ==> rest == [])
    requires ProperVals(sp)
    ensures Text(e) != "" && OptionStep(sp, [a] + Extra(e) + rest, Text(e)) == Step(sp, e)
  {
    hide ParseLong, StandsFor, ReadAsLetter, LongEvent, FitsRow;
    var body := Body(e.key, e.value);
    var short := e.lead.OneDash? && MayBeLetter(sp, body);
    assert [] + InNext(e.value) == InNext(e.value);
    BodyStep(sp, [a], e.key, e.value, short, e.target, rest);
    EventIsNoEnd(sp, e.value, e.target);
    if e.lead.TwoDashes? {
      assert Text(e)[1..] == body;
    }
  }

  lemma EventIsNoEnd(sp: Spec, value: Value, t: Target)
    requires ProperVals(sp)
    ensures LongEvent(sp, value, t).ret != -1
  {
    if sp.longs.Some? && t.Row? && t.index < |sp.longs.value| {
      assert sp.longs.value[t.index] in sp.longs.value;
    }
  }

  lemma WStep(sp: Spec, a: string, e: Ending, rest: seq<string>)
    requires MeantEnding(sp, e) && e.Long? && (e.lead.Joined? || e.lead.Apart?) && (e.value.Missing? ==> rest == [])
    ensures Text(e) != "" && OptionStep(sp, [a] + Extra(e) + rest, Text(e)) == Step(sp, e)
  {
    hide ParseLong, StandsFor, ReadAsLetter, LongEvent, FitsRow, OptionStep, Followed;
    var body := Body(e.key, e.value);
    var args := [a] + Extra(e) + rest;
    LetterIsShort(sp, args, Text(e));
    FollowedChars(sp.options, 'W');
    if e.lead.Apart? {
      assert args == [a, body] + InNext(e.value) + rest && args[1] == body;
      BodyStep(sp, [a, body], e.key, e.value, false, e.target, rest);
    } else {
      assert [] + InNext(e.value) == InNext(e.value) && Text(e)[1..] == body;
      BodyStep(sp, [a], e.key, e.value, false, e.target, rest);
    }
  }

  lemma EndingStep(sp: Spec, a: string, e: Ending, rest: seq<string>)
    requires MeantEnding(sp, e) && ProperVals(sp) && (Lacks(Options("", e)) ==> rest == [])
    ensures Text(e) != "" && OptionStep(sp, [a] + Extra(e) + rest, Text(e)) == Step(sp, e)
  {
    hide OptionStep, MeantEnding, Extra, Step;
    if !e.Long? {
      LetterStep(sp, a, e, rest);
    } else if e.lead.TwoDashes? || e.lead.OneDash? {
      DashedStep(sp, a, e, rest);
    } else {
      WStep(sp, a, e, rest);
    }
  }

  // ----- Command lines ----------------------------------------------------------------------

  function Argv(uses: seq<Use>): seq<string> {
    if uses == [] then [] else Args(uses[0]) + Argv(uses[1..])
  }

  /** The arguments that belong to options, and the others. */
  function OptionArgs(uses: seq<Use>): seq<string> {
    if uses == [] then [] else (if uses[0].Word? then [] else Args(uses[0])) + OptionArgs(uses[1..])
  }

  function Words(uses: seq<Use>): seq<string> {
    if uses == [] then [] else (if uses[0].Word? then [uses[0].text] else []) + Words(uses[1..])
  }

  function Report(sp: Spec, uses: seq<Use>): seq<Event> {
    if uses == [] then [] else Reported(sp, uses[0]) + Report(sp, uses[1..])
  }

  /** Every use is meant, and only the last argument of all can lack one. */
  ghost predicate AllMeant(sp: Spec, uses: seq<Use>, tail: seq<string>) {
    uses == [] ||
    (Meant(sp, uses[0]) && (Lacks(uses[0]) ==> uses[1..] == [] && tail == []) && AllMeant(sp, uses[1..], tail))
  }

  // ----- Reading ----------------------------------------------------------------------------

  lemma {:induction false} ClusterReads(sp: Spec, a: string, flags: string, e: Ending, rest: seq<string>)
    requires ProperVals(sp) && MeantFlags(sp, flags, Text(e)) && MeantEnding(sp, e) && (Lacks(Options("", e)) ==> rest == [])
    ensures flags + Text(e) != ""
    ensures ReadCluster(sp, [a] + Extra(e) + rest, flags + Text(e)) ==
      var r := Read(sp, rest);
      Reading([a] + Extra(e) + r.opts, r.nons, FlagEvents(sp, flags) + [EndingEvent(sp, e)] + r.events, r.ends)
    decreases flags
  {
    hide OptionStep, MeantEnding, Text, Extra, Read, IsFlag, ReadAsLetter, EndingEvent, Lacks;
    var args, place, r := [a] + Extra(e) + rest, flags + Text(e), Read(sp, rest);
    EndingStep(sp, a, e, rest);
    OptionProgress(sp, args, place);
    if flags == "" {
      assert place == Text(e) && args[1 + |Extra(e)|..] == rest && args[..1 + |Extra(e)|] == [a] + Extra(e);
      assert [] + [EndingEvent(sp, e)] + r.events == [EndingEvent(sp, e)] + r.events;
    } else {
      FlagStep(sp, args, place);
      assert place[1..] == flags[1..] + Text(e);
      ClusterReads(sp, a, flags[1..], e, rest);
      Assoc4([Event(FlagValue(sp, flags[0], false), None, None)], FlagEvents(sp, flags[1..]), [EndingEvent(sp, e)], r.events);
    }
  }

  // The argument that starts an option is one, and does not end the options.
  lemma OptionLooks(sp: Spec, flags: string, e: Ending)
    requires MeantEnding(sp, e) && (flags == "" ==> Text(e) != "-")
    ensures var a := "-" + flags + Text(e); IsOption(a) && a != "--" && a[1..] == flags + Text(e)
  {
    hide Text, MeantEnding;
    var a := "-" + flags + Text(e);
    TextIsThere(sp, e);
    assert a[0] == '-' && a[1..] == flags + Text(e);
    assert flags == "" ==> a[1..] == Text(e);
  }

  lemma TextIsThere(sp: Spec, e: Ending)
    requires MeantEnding(sp, e)
    ensures Text(e) != ""
  {
    hide ReadAsLetter, StandsFor, Followed, FitsRow;
  }

  lemma {:induction false} UsesRead(sp: Spec, uses: seq<Use>, tail: seq<string>)
    requires ProperVals(sp) && !sp.mode.InOrder? && AllMeant(sp, uses, tail)
    ensures Read(sp, Argv(uses) + tail) ==
      var r := Read(sp, tail);
      Reading(OptionArgs(uses) + r.opts, Words(uses) + r.nons, Report(sp, uses) + r.events, r.ends)
    decreases uses
  {
    hide MeantEnding, MeantFlags, Text, Extra, ReadCluster, EndingEvent, FlagEvents;
    var r := Read(sp, tail);
    if uses == [] {
      assert Argv(uses) + tail == tail;
    } else {
      var u, more := uses[0], Argv(uses[1..]) + tail;
      Assoc(Args(u), Argv(uses[1..]), tail);
      UsesRead(sp, uses[1..], tail);
      Assoc(if u.Word? then [] else Args(u), OptionArgs(uses[1..]), r.opts);
      Assoc(if u.Word? then [u.text] else [], Words(uses[1..]), r.nons);
      Assoc(Reported(sp, u), Report(sp, uses[1..]), r.events);
      if u.Options? {
        UseReads(sp, u, more);
      } else {
        assert (Args(u) + more)[1..] == more;
      }
    }
  }

  lemma UseReads(sp: Spec, u: Use, more: seq<string>)
    requires ProperVals(sp) && u.Options? && Meant(sp, u) && (Lacks(u) ==> more == [])
    ensures Read(sp, Args(u) + more) ==
      var r := Read(sp, more);
      Reading(Args(u) + r.opts, r.nons, Reported(sp, u) + r.events, r.ends)
  {
    hide MeantEnding, MeantFlags, Text, Extra, ReadCluster, EndingEvent, FlagEvents;
    var a := "-" + u.flags + Text(u.ending);
    OptionLooks(sp, u.flags, u.ending);
    ClusterReads(sp, a, u.flags, u.ending, more);
    var args := Args(u) + more;
    assert args == [a] + Extra(u.ending) + more && args[0] == a;
    assert Read(sp, args) == ReadCluster(sp, args, a[1..]);
  }

  lemma TailReads(sp: Spec, tail: seq<string>)
    requires ProperVals(sp) && (tail == [] || tail[0] == "--")
    ensures var end := if tail == [] then 0 else 1; Read(sp, tail) == Reading(tail[..end], tail[end..], [], true)
  {
    assert tail != [] ==> tail[..1] == ["--"];
  }

  /** A permuting run over a command line, up to its end or to "--", reports the options and arguments that
      were meant, then -1, and leaves the options before the words, with optind between them. */
  lemma PermutingRun(sp: Spec, prog: string, uses: seq<Use>, tail: seq<string>)
    requires sp.mode.Permuting? && ProperVals(sp) && AllMeant(sp, uses, tail)
    requires tail == [] || tail[0] == "--"
    ensures var argv, r, end := [prog] + (Argv(uses) + tail), Report(sp, uses), if tail == [] then 0 else 1;
            && Events(sp, Start(argv), |r| + 1) == r + [STOP]
            && After(sp, Start(argv), |r| + 1)
            == State([prog] + (OptionArgs(uses) + tail[..end]) + (Words(uses) + tail[end..]), 1 + |OptionArgs(uses)| + end, "", -1, -1)
  {
    hide Report, AllMeant, Events, After, Read, OptionArgs, Words, Argv;
    var argv := [prog] + (Argv(uses) + tail);
    UsesRead(sp, uses, tail);
    TailReads(sp, tail);
    assert argv[1..] == Argv(uses) + tail && argv[..1] == [prog];
    assert Report(sp, uses) + [] == Report(sp, uses);
    RunSortsArgv(sp, argv);
  }

  // ----- Runs that do not permute -----------------------------------------------------------

  lemma {:induction false} RunsJoin(sp: Spec, st: State, m: nat, n: nat)
    requires WellFormed(st) && ProperVals(sp)
    ensures After(sp, st, m + n) == After(sp, After(sp, st, m), n)
    ensures Events(sp, st, m + n) == Events(sp, st, m) + Events(sp, After(sp, st, m), n)
    decreases m
  {
    hide Call;
    if m > 0 {
      RunsJoin(sp, Call(sp, st).0, m - 1, n);
      assert m - 1 + n == m + n - 1;
    }
  }

  /** Nothing is skipped and the rest of argv is this. */
  ghost predicate Faces(st: State, rest: seq<string>) {
    WellFormed(st) && st.ns == -1 && st.ne == -1 && st.optind <= |st.argv| && st.argv[st.optind..] == rest
  }

  lemma {:induction false} ClusterRuns(sp: Spec, st: State, a: string, flags: string, e: Ending, rest: seq<string>)
    requires ProperVals(sp) && MeantFlags(sp, flags, Text(e)) && MeantEnding(sp, e) && (Lacks(Options("", e)) ==> rest == [])
    requires Faces(st, [a] + Extra(e) + rest) && st.place == flags + Text(e)
    ensures Events(sp, st, |flags| + 1) == FlagEvents(sp, flags) + [EndingEvent(sp, e)]
    ensures After(sp, st, |flags| + 1) == st.(optind := st.optind + 1 + |Extra(e)|, place := "")
    ensures Faces(After(sp, st, |flags| + 1), rest)
    decreases flags
  {
    hide OptionStep, MeantEnding, Text, Extra, IsFlag, ReadAsLetter, EndingEvent, Lacks;
    var args, place := [a] + Extra(e) + rest, flags + Text(e);
    EndingStep(sp, a, e, rest);
    if flags == "" {
      assert place == Text(e) && args[1 + |Extra(e)|..] == rest;
      var st' := Call(sp, st).0;
      assert st' == st.(optind := st.optind + 1 + |Extra(e)|, place := "");
      assert st'.argv[st'.optind..] == args[1 + |Extra(e)|..];
      assert Events(sp, st', 0) == [] && After(sp, st', 0) == st';
    } else {
      FlagStep(sp, args, place);
      assert place[1..] == flags[1..] + Text(e);
      ClusterRuns(sp, st.(place := place[1..]), a, flags[1..], e, rest);
    }
  }

  lemma UseRuns(sp: Spec, st: State, u: Use, rest: seq<string>)
    requires ProperVals(sp) && !sp.mode.Permuting? && (u.Word? ==> sp.mode.InOrder?)
    requires Meant(sp, u) && (Lacks(u) ==> rest == []) && Faces(st, Args(u) + rest) && st.place == ""
    ensures var n := |Reported(sp, u)|;
            && Events(sp, st, n) == Reported(sp, u) && After(sp, st, n) == st.(optind := st.optind + |Args(u)|)
            && Faces(After(sp, st, n), rest)
  {
    hide MeantEnding, MeantFlags, Text, Extra, EndingEvent, FlagEvents, OptionStep;
    assert st.argv[st.optind] == (Args(u) + rest)[0];
    if u.Word? {
      var st' := Call(sp, st).0;
      assert st' == st.(optind := st.optind + 1) && (Args(u) + rest)[1..] == rest;
      assert st'.argv[st'.optind..] == st.argv[st.optind..][1..];
      assert Events(sp, st', 0) == [] && After(sp, st', 0) == st';
    } else {
      var a := "-" + u.flags + Text(u.ending);
      OptionLooks(sp, u.flags, u.ending);
      var st1 := st.(place := a[1..]);
      assert Call(sp, st) == Call(sp, st1);
      ClusterRuns(sp, st1, a, u.flags, u.ending, rest);
    }
  }

  lemma {:induction false} UsesRun(sp: Spec, st: State, uses: seq<Use>, tail: seq<string>)
    requires ProperVals(sp) && !sp.mode.Permuting? && (sp.mode.InOrder? || Words(uses) == [])
    requires AllMeant(sp, uses, tail) && Faces(st, Argv(uses) + tail) && st.place == ""
    ensures var n := |Report(sp, uses)|;
            && Events(sp, st, n) == Report(sp, uses) && After(sp, st, n) == st.(optind := st.optind + |Argv(uses)|)
            && Faces(After(sp, st, n), tail)
    decreases uses
  {
    hide Meant, Args, Reported, Call;
    if uses == [] {
      assert Argv(uses) + tail == tail;
    } else {
      var u, rest := uses[0], Argv(uses[1..]) + tail;
      Assoc(Args(u), Argv(uses[1..]), tail);
      UseRuns(sp, st, u, rest);
      var m := |Reported(sp, u)|;
      UsesRun(sp, After(sp, st, m), uses[1..], tail);
      RunsJoin(sp, st, m, |Report(sp, uses[1..])|);
    }
  }

  /** Where non-options are not moved: a run reports the options and, in that mode, the words in order, up to the
      end, to "--" or to where a word stops it, and leaves argv as it was with optind there. */
  lemma OrderedRun(sp: Spec, prog: string, uses: seq<Use>, tail: seq<string>)
    requires !sp.mode.Permuting? && ProperVals(sp) && AllMeant(sp, uses, tail)
    requires sp.mode.InOrder? || Words(uses) == []
    requires tail == [] || tail[0] == "--" || (sp.mode.StopAtFirst? && !(|tail[0]| > 1 && tail[0][0] == '-'))
    ensures var argv, r, end := [prog] + (Argv(uses) + tail), Report(sp, uses), if tail != [] && tail[0] == "--" then 1 else 0;
            && Events(sp, Start(argv), |r| + 1) == r + [STOP]
            && After(sp, Start(argv), |r| + 1) == State(argv, 1 + |Argv(uses)| + end, "", -1, -1)
  {
    hide Report, AllMeant, Words, Call, Events, After;
    var argv, n := [prog] + (Argv(uses) + tail), |Report(sp, uses)|;
    var st := Start(argv);
    assert argv[1..] == Argv(uses) + tail;
    UsesRun(sp, st, uses, tail);
    var end := After(sp, st, n);
    LastCall(sp, end, tail);
    RunsJoin(sp, st, n, 1);
  }

  lemma LastCall(sp: Spec, st: State, tail: seq<string>)
    requires !sp.mode.Permuting? && ProperVals(sp) && Faces(st, tail) && st.place == ""
    requires tail == [] || tail[0] == "--" || (sp.mode.StopAtFirst? && !(|tail[0]| > 1 && tail[0][0] == '-'))
    ensures Events(sp, st, 1) == [STOP]
    ensures After(sp, st, 1) == st.(optind := st.optind + if tail != [] && tail[0] == "--" then 1 else 0)
  {
    assert tail != [] ==> st.argv[st.optind] == tail[0];
    var (st', e) := Call(sp, st);
    assert Events(sp, st, 1) == [e] + Events(sp, st', 0) && After(sp, st, 1) == After(sp, st', 0);
  }

  // ----- Every command line ---------------------------------------------------------------------

  lemma SomeTarget(sp: Spec, key: string, short: bool) returns (t: Target)
    requires sp.longs.Some?
    ensures StandsFor(sp, key, short, t)
  {
    var longs := sp.longs.value;
    var e, p := FirstExact(longs, key, 0), FirstPartial(longs, key, short, 0);
    if e < |longs| {
      t := Row(e);
      assert IsExact(longs, key, e);
    } else if p == |longs| {
      t := Unlisted;
      assert forall j :: 0 <= j < |longs| ==> !Exact(longs[j], key) && !Partial(longs[j], key, short);
    } else {
      assert NoneExact(longs, key) && Partial(longs[p], key, short);
      assert forall j :: 0 <= j < |longs| ==> (Partial(longs[j], key, short) <==> key <= longs[j].name);
      assert IsFirst(longs, key, p);
      if j :| p < j < |longs| && key <= longs[j].name && (sp.longOnly || !Alike(longs[p], longs[j])) {
        t := Unclear;
      } else {
        t := Row(p);
      }
    }
  }

  // The text of a long option, with what follows it in argv.
  lemma LongOf(sp: Spec, body: string, short: bool, rest: seq<string>) returns (key: string, value: Value, t: Target)
    requires sp.longs.Some?
    ensures '=' !in key && Body(key, value) == body && key == body[..IndexOf(body, '=')]
    ensures FitsRow(sp, value, t) && StandsFor(sp, key, short, t)
    ensures InNext(value) <= rest && (value.Missing? ==> rest == [])
  {
    hide StandsFor;
    var eq := IndexOf(body, '=');
    key := body[..eq];
    t := SomeTarget(sp, key, short);
    if eq < |body| {
      value := Assigned(body[eq + 1..]);
      assert body == key + "=" + body[eq + 1..];
    } else if t.Row? && t.index < |sp.longs.value| && sp.longs.value[t.index].hasArg.RequiredArgument? {
      value := if rest == [] then Missing else Next(rest[0]);
    } else {
      value := Nothing;
    }
  }

  // The last option of a cluster.
  ghost predicate EndsWith(sp: Spec, place: string, rest: seq<string>, e: Ending) {
    MeantEnding(sp, e) && Text(e) == place && Extra(e) <= rest && (Lacks(Options("", e)) ==> rest == Extra(e))
  }

  lemma NamedEnding(sp: Spec, place: string, rest: seq<string>) returns (e: Ending)
    requires sp.longs.Some? && NamesLong(sp, 'W') && place != "" && place[0] == 'W' && ReadAsLetter(sp, place)
    ensures EndsWith(sp, place, rest, e)
  {
    hide StandsFor, ReadAsLetter, FitsRow, NamesLong;
    var body := place[1..];
    if body != "" {
      var key, value, t := LongOf(sp, body, false, rest);
      e := Long(Joined, key, value, t);
      assert "W" + body == place && [] + InNext(value) == InNext(value);
    } else if rest == [] {
      e := LackingName;
      assert place == "W";
    } else {
      var key, value, t := LongOf(sp, rest[0], false, rest[1..]);
      e := Long(Apart, key, value, t);
      assert place == "W" && [rest[0]] + rest[1..] == rest;
    }
  }

  lemma LetterEnding(sp: Spec, place: string, rest: seq<string>) returns (e: Ending)
    requires place != "" && ReadAsLetter(sp, place) && !DeadEnd(sp, place)
    requires !NamesLong(sp, place[0]) && ((IsFlag(sp, place[0]) || place[0] == '-') ==> |place| == 1)
    ensures EndsWith(sp, place, rest, e)
  {
    hide ReadAsLetter, Followed, NamesLong;
    var c, arg := place[0], place[1..];
    assert place == [c] + arg && (arg == "" ==> place == [c]);
    if IsFlag(sp, c) {
      e := Flag(c);
    } else if arg != "" {
      e := Attached(c, arg);
    } else if ArgumentIsOptional(sp, c) {
      e := Omitted(c);
    } else if rest != [] {
      e := Separate(c, rest[0]);
    } else {
      e := Lacking(c);
    }
  }

  lemma DashedEnding(sp: Spec, place: string, rest: seq<string>) returns (e: Ending)
    requires sp.longs.Some? && |place| > 1 && place[0] == '-'
    ensures EndsWith(sp, place, rest, e)
  {
    hide StandsFor, ReadAsLetter, FitsRow;
    var key, value, t := LongOf(sp, place[1..], false, rest);
    e := Long(TwoDashes, key, value, t);
    assert "-" + place[1..] == place && [] + InNext(value) == InNext(value);
  }

  /** What a text is read as: a letter before others, or the last option of its cluster. */
  lemma EndingOf(sp: Spec, place: string, rest: seq<string>) returns (more: bool, e: Ending)
    requires place != "" && !DeadEnd(sp, place)
    ensures more ==> ReadAsLetter(sp, place) && (IsFlag(sp, place[0]) || place[0] == '-') && |place| > 1
    ensures !more ==> EndsWith(sp, place, rest, e)
  {
    hide StandsFor, Followed, EndsWith, FitsRow;
    more, e := false, LackingName;
    if sp.longs.Some? && place[0] == '-' {
      e := DashedEnding(sp, place, rest);
    } else {
      if sp.longs.Some? && sp.longOnly {
        var short := Listed(sp, place[0]);
        var key, value, t := LongOf(sp, place, short, rest);
        if !(short && t.Unlisted?) {
          e := Long(OneDash, key, value, t);
          assert EndsWith(sp, place, rest, e) by { OneDashEnds(sp, place, rest, key, value, t); }
          return;
        }
      }
      assert ReadAsLetter(sp, place);
      if NamesLong(sp, place[0]) {
        e := NamedEnding(sp, place, rest);
      } else if (IsFlag(sp, place[0]) || place[0] == '-') && |place| > 1 {
        more := true;
      } else {
        e := LetterEnding(sp, place, rest);
      }
    }
  }

  lemma OneDashEnds(sp: Spec, place: string, rest: seq<string>, key: string, value: Value, t: Target)
    requires sp.longs.Some? && sp.longOnly && place != "" && place[0] != '-' && '=' !in key && Body(key, value) == place
    requires FitsRow(sp, value, t) && StandsFor(sp, key, Listed(sp, place[0]), t) && (t.Unlisted? ==> !Listed(sp, place[0]))
    requires InNext(value) <= rest && (value.Missing? ==> rest == [])
    ensures EndsWith(sp, place, rest, Long(OneDash, key, value, t))
  {
    hide StandsFor, FitsRow;
    assert [] + InNext(value) == InNext(value);
  }

  lemma {:induction false} ClusterOf(sp: Spec, a: string, place: string, rest: seq<string>) returns (flags: string, e: Ending, more: seq<string>)
    requires ProperVals(sp) && place != "" && ReadCluster(sp, [a] + rest, place).ends
    ensures MeantFlags(sp, flags, Text(e)) && MeantEnding(sp, e) && place == flags + Text(e)
    ensures rest == Extra(e) + more && (Lacks(Options("", e)) ==> more == []) && Read(sp, more).ends
    decreases |place|
  {
    hide OptionStep, Text, Extra, MeantEnding, ReadAsLetter, IsFlag, Read;
    var again;
    again, e := EndingOf(sp, place, rest);
    if again {
      FlagStep(sp, [a] + rest, place);
      OptionProgress(sp, [a] + rest, place);
      flags, e, more := ClusterOf(sp, a, place[1..], rest);
      assert [place[0]] + flags + Text(e) == place && ([place[0]] + flags)[1..] == flags;
      flags := [place[0]] + flags;
    } else {
      flags, more := "", rest[|Extra(e)|..];
      assert rest == Extra(e) + more;
      EndingStep(sp, a, e, more);
      assert [a] + Extra(e) + more == [a] + rest && ([a] + rest)[1 + |Extra(e)|..] == more;
      OptionProgress(sp, [a] + rest, place);
    }
  }

  /** Every command line that does not run into a dead end is one that is meant. */
  lemma {:induction false} EveryLineIsMeant(sp: Spec, args: seq<string>) returns (uses: seq<Use>, tail: seq<string>)
    requires ProperVals(sp) && Read(sp, args).ends
    ensures AllMeant(sp, uses, tail) && args == Argv(uses) + tail && (tail == [] || tail[0] == "--")
    decreases |args|
  {
    hide MeantEnding, MeantFlags, Text, Extra, ReadCluster;
    uses, tail := [], [];
    if args != [] {
      var a, rest := args[0], args[1..];
      assert args == [a] + rest;
      if a == "--" {
        tail := args;
      } else {
        var u, more := Word(a), rest;
        if IsOption(a) {
          var flags, e, after := ClusterOf(sp, a, a[1..], rest);
          u, more := Options(flags, e), after;
          assert "-" + flags + Text(e) == a;
        }
        assert Args(u) + more == args;
        uses, tail := EveryLineIsMeant(sp, more);
        assert more == [] ==> uses == [] && tail == [] by { if more == [] { NothingIsMeant(uses, tail); } }
        Assoc(Args(u), Argv(uses), tail);
        uses := [u] + uses;
      }
    }
  }

  lemma NothingIsMeant(uses: seq<Use>, tail: seq<string>)
    requires Argv(uses) + tail == []
    ensures uses == [] && tail == []
  {
  }
}
