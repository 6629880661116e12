/**
 Whole runs of getopt_long. `Call` is one call of getopt_internal
 (nrf/ext/freebsd-getopt/getopt_long.c) on its static state; the theorems say what a run
 of calls does to argv, compared with a reading of argv that never permutes anything.
 */
module GetoptRun {
  import opened GetoptOption
  import opened Permute
  import opened Wrappers

  /** argv together with optind, place, nonopt_start and nonopt_end. */
  datatype State = State(argv: seq<string>, optind: int, place: string, ns: int, ne: int)

  /** What a call reports: its value, optarg and the long-option index. */
  datatype Event = Event(ret: int, optarg: Option<string>, idx: Option<nat>)

  const STOP := Event(-1, None, None)

  /** An argument that starts with '-' and is not just "-". */
  predicate IsOption(arg: string) {
    |arg| > 1 && arg[0] == '-'
  }

  /** What every call may rely on: skipped non-options sit in [ns, ne), or [ns, optind) while
      ne is unset, and an empty block after them is an option still being read. */
  predicate WellFormed(st: State) {
    && 1 <= st.optind && (st.ns == -1 || 1 <= st.ns) && -1 <= st.ne
    && (st.ns == -1 ==> st.ne == -1)
    && (st.ns != -1 ==> st.optind <= |st.argv| && st.ns < if st.ne == -1 then st.optind else st.ne)
    && (st.ne != -1 ==> st.ne <= st.optind)
    && (st.place != "" ==> st.optind < |st.argv| && IsOption(st.argv[st.optind]))
    && (st.place != "" && st.ns != -1 ==> st.ne != -1)
    && (st.ne == st.optind && st.place == "" ==> st.optind < |st.argv| && IsOption(st.argv[st.optind]))
  }

  /** Moves the skipped non-options behind the options after them. */
  function Permuted(st: State): State
    requires WellFormed(st) && (st.ne != -1 ==> st.ne < st.optind)
  {
    if st.ne == -1 then st
    else st.(argv := Exchanged(st.argv, st.ns, st.ne, st.optind), ns := st.optind - (st.ne - st.ns), ne := -1)
  }

  /** The end of a run: optind goes to the first non-option. */
  function Finished(st: State): State
    requires WellFormed(st) && (st.ne != -1 ==> st.ne < st.optind)
  {
    var p := Permuted(st);
    p.(optind := if p.ns == -1 then p.optind else p.ns, place := "", ns := -1)
  }

  datatype Sought = Return(st: State, event: Event) | AtOption(st: State)

  /** From `start:` with no cluster left: passes over non-options up to the next option. */
  function Seek(sp: Spec, st: State): (r: Sought)
    requires WellFormed(st) && st.place == ""
    ensures WellFormed(r.st)
    ensures r.AtOption? ==> r.st.place != "" && r.st.argv[r.st.optind] != "--" && r.st.place == r.st.argv[r.st.optind][1..]
    decreases |st.argv| - st.optind
  {
    if st.optind >= |st.argv| then Return(Finished(st), STOP)
    else
      var arg := st.argv[st.optind];
      if !IsOption(arg) then
        match sp.mode
        case InOrder => Return(st.(optind := st.optind + 1), Event(1, Some(arg), None))
        case StopAtFirst => Return(st, STOP)
        case Permuting =>
          var p := Permuted(st);
          Seek(sp, p.(ns := if p.ns == -1 then st.optind else p.ns, optind := st.optind + 1))
      else
        var o := st.(ne := if st.ns != -1 && st.ne == -1 then st.optind else st.ne);
        if arg == "--" then Return(Finished(o.(optind := o.optind + 1)), STOP)
        else AtOption(o.(place := arg[1..]))
  }

  // The ends of a search.
  lemma SeekStops(sp: Spec, st: State)
    requires WellFormed(st) && st.place == ""
    ensures st.optind >= |st.argv| ==> (st.ne != -1 ==> st.ne < st.optind) && Seek(sp, st) == Return(Finished(st), STOP)
    ensures st.optind < |st.argv| && !IsOption(st.argv[st.optind]) && sp.mode.InOrder? ==>
      Seek(sp, st) == Return(st.(optind := st.optind + 1), Event(1, Some(st.argv[st.optind]), None))
    ensures st.optind < |st.argv| && !IsOption(st.argv[st.optind]) && sp.mode.StopAtFirst? ==> Seek(sp, st) == Return(st, STOP)
    ensures st.optind < |st.argv| && IsOption(st.argv[st.optind]) ==>
      var arg, o := st.argv[st.optind], st.(ne := if st.ns != -1 && st.ne == -1 then st.optind else st.ne);
      var past := o.(optind := o.optind + 1);
      && WellFormed(past) && (past.ne != -1 ==> past.ne < past.optind)
      && Seek(sp, st) == if arg == "--" then Return(Finished(past), STOP) else AtOption(o.(place := arg[1..]))
  {
  }

  // The `goto start` that follows a non-option.
  lemma SeekSkips(sp: Spec, st: State, st': State)
    requires WellFormed(st) && st.place == "" && sp.mode.Permuting?
    requires st.optind < |st.argv| && !IsOption(st.argv[st.optind])
    requires var p := Permuted(st); st' == p.(ns := if p.ns == -1 then st.optind else p.ns, optind := st.optind + 1)
    ensures WellFormed(st') && Seek(sp, st) == Seek(sp, st')
  {
  }

  /** Reads one option of the cluster at optind. */
  function TakeOption(sp: Spec, st: State): (r: (State, Event))
    requires WellFormed(st) && st.place != ""
    ensures ProperVals(sp) ==> WellFormed(r.0)
  {
    OptionProgressIf(sp, st.argv[st.optind..], st.place);
    var o := OptionStep(sp, st.argv[st.optind..], st.place);
    (st.(optind := st.optind + o.used, place := o.place), Event(o.ret, o.optarg, o.idx))
  }

  /** One call of getopt_internal. */
  function Call(sp: Spec, st: State): (r: (State, Event))
    requires WellFormed(st)
    ensures ProperVals(sp) ==> WellFormed(r.0)
  {
    if st.place != "" then TakeOption(sp, st)
    else match Seek(sp, st)
      case Return(st', e) => (st', e)
      case AtOption(st') => TakeOption(sp, st')
  }

  /** The state after n calls. */
  function After(sp: Spec, st: State, n: nat): (r: State)
    requires WellFormed(st) && ProperVals(sp)
    ensures WellFormed(r)
    decreases n
  {
    if n == 0 then st else After(sp, Call(sp, st).0, n - 1)
  }

  /** What the first n calls report. */
  function Events(sp: Spec, st: State, n: nat): (r: seq<Event>)
    requires WellFormed(st) && ProperVals(sp)
    ensures |r| == n
    decreases n
  {
    if n == 0 then [] else [Call(sp, st).1] + Events(sp, Call(sp, st).0, n - 1)
  }

  // ----- Reading without permuting ----------------------------------------------

  /** What argv says when read once from left to right: the arguments that are options or
      belong to one, the others, what is to be reported, and whether the reading gets to an
      end at all. */
  datatype Reading = Reading(opts: seq<string>, nons: seq<string>, events: seq<Event>, ends: bool)

  function Read(sp: Spec, rest: seq<string>): Reading
    requires ProperVals(sp)
    decreases |rest|, 1, 0
  {
    if rest == [] then Reading([], [], [], true)
    else if !IsOption(rest[0]) then
      var r := Read(sp, rest[1..]);
      r.(nons := [rest[0]] + r.nons)
    else if rest[0] == "--" then Reading(["--"], rest[1..], [], true)
    else ReadCluster(sp, rest, rest[0][1..])
  }

  function ReadCluster(sp: Spec, rest: seq<string>, place: string): Reading
    requires rest != [] && place != "" && ProperVals(sp)
    decreases |rest|, 0, |place|
  {
    OptionProgress(sp, rest, place);
    var o := OptionStep(sp, rest, place);
    var e := Event(o.ret, o.optarg, o.idx);
    if DeadEnd(sp, place) then Reading([], [], [e], false)
    else if o.place != "" then
      var r := ReadCluster(sp, rest, o.place);
      r.(events := [e] + r.events)
    else
      var r := Read(sp, rest[o.used..]);
      Reading(rest[..o.used] + r.opts, r.nons, [e] + r.events, r.ends)
  }

  /** What is still to be read in a state. */
  function Remaining(sp: Spec, st: State): Reading
    requires WellFormed(st) && ProperVals(sp) && st.optind <= |st.argv|
  {
    if st.place == "" then Read(sp, st.argv[st.optind..]) else ReadCluster(sp, st.argv[st.optind..], st.place)
  }

  // ----- The layout of argv during a run -----------------------------------------

  /** The arguments before optind are `opts` with the block `nons` moved in among them. */
  ghost predicate Layout(st: State, opts: seq<string>, nons: seq<string>) {
    && WellFormed(st) && st.optind <= |st.argv|
    && if st.ns == -1 then opts == st.argv[..st.optind] && nons == []
       else var e := if st.ne == -1 then st.optind else st.ne;
            opts == st.argv[..st.ns] + st.argv[e..st.optind] && nons == st.argv[st.ns..e]
  }

  lemma PermutedKeepsLayout(st: State, opts: seq<string>, nons: seq<string>)
    requires Layout(st, opts, nons) && st.place == "" && (st.ne != -1 ==> st.ne < st.optind)
    ensures var p := Permuted(st);
            && Layout(p, opts, nons) && p.ne == -1 && |p.argv| == |st.argv|
            && p.argv[st.optind..] == st.argv[st.optind..]
  {
  }

  lemma FinishedSorts(st: State, opts: seq<string>, nons: seq<string>)
    requires Layout(st, opts, nons) && st.place == "" && (st.ne != -1 ==> st.ne < st.optind)
    ensures Finished(st) == State(opts + (nons + st.argv[st.optind..]), |opts|, "", -1, -1)
  {
  }

  // Passing over one non-option adds it to the block.
  lemma SkipKeepsLayout(st: State, opts: seq<string>, nons: seq<string>, st': State)
    requires Layout(st, opts, nons) && st.place == "" && st.optind < |st.argv| && !IsOption(st.argv[st.optind])
    requires var p := Permuted(st); st' == p.(ns := if p.ns == -1 then st.optind else p.ns, optind := st.optind + 1)
    ensures Layout(st', opts, nons + [st.argv[st.optind]])
    ensures WellFormed(st') && |st'.argv| == |st.argv| && st'.argv[st'.optind..] == st.argv[st.optind..][1..]
  {
    var p := Permuted(st);
    PermutedKeepsLayout(st, opts, nons);
    assert p.argv[st.optind..][0] == st.argv[st.optind];
    assert p.argv[..st.optind + 1] == p.argv[..st.optind] + [p.argv[st.optind]];
    assert p.argv[st.optind..][1..] == p.argv[st.optind + 1..];
  }

  // Passing over k arguments that belong to options adds them to the options.
  lemma TakeExtendsLayout(st: State, opts: seq<string>, nons: seq<string>, k: nat, st': State)
    requires Layout(st, opts, nons) && st.optind + k <= |st.argv| && (st.ns != -1 ==> st.ne != -1)
    requires st'.argv == st.argv && st'.ns == st.ns && st'.ne == st.ne && st'.optind == st.optind + k && WellFormed(st')
    ensures Layout(st', opts + st.argv[st.optind..][..k], nons)
    ensures st'.argv[st'.optind..] == st.argv[st.optind..][k..]
  {
    assert st.argv[..st.optind + k] == st.argv[..st.optind] + st.argv[st.optind..][..k];
    if st.ns != -1 {
      assert st.argv[st.ne..st.optind + k] == st.argv[st.ne..st.optind] + st.argv[st.optind..][..k];
    }
  }

  /** argv is sorted: the options so far and those still to be read, then all the rest. */
  ghost predicate SortedBy(s: Sought, r: Reading, opts: seq<string>, nons: seq<string>) {
    && r.ends && r.events == []
    && s == Return(State(opts + r.opts + (nons + r.nons), |opts| + |r.opts|, "", -1, -1), STOP)
  }

  // Seeking at "--": it counts as an option, and nothing after it is looked at.
  lemma FinishedAtDashes(st: State, opts: seq<string>, nons: seq<string>, o: State)
    requires Layout(st, opts, nons) && st.place == "" && st.optind < |st.argv| && st.argv[st.optind] == "--"
    requires o == st.(ne := if st.ns != -1 && st.ne == -1 then st.optind else st.ne, optind := st.optind + 1)
    ensures WellFormed(o) && (o.ne != -1 ==> o.ne < o.optind)
    ensures Finished(o) == State(opts + ["--"] + (nons + st.argv[st.optind..][1..]), |opts| + 1, "", -1, -1)
  {
    hide Finished;
    var o0 := o.(optind := st.optind);
    SettleLayout(st, opts, nons, o0);
    TakeExtendsLayout(o0, opts, nons, 1, o);
    assert st.argv[st.optind..][..1] == ["--"];
    FinishedSorts(o, opts + ["--"], nons);
  }

  lemma FinishedAtEnd(st: State, opts: seq<string>, nons: seq<string>)
    requires Layout(st, opts, nons) && st.place == "" && st.optind == |st.argv|
    ensures WellFormed(st) && (st.ne != -1 ==> st.ne < st.optind)
    ensures Finished(st) == State(opts + [] + (nons + []), |opts|, "", -1, -1)
  {
  }

  // Seeking at the end of argv, or at "--".
  lemma SeekEnd(sp: Spec, st: State, opts: seq<string>, nons: seq<string>)
    requires ProperVals(sp) && Layout(st, opts, nons) && st.place == "" && 0 <= st.optind <= |st.argv|
    requires st.optind == |st.argv| || st.argv[st.optind] == "--"
    ensures SortedBy(Seek(sp, st), Remaining(sp, st), opts, nons)
  {
    hide Finished, ReadCluster, Layout;
    if st.optind == |st.argv| {
      FinishedAtEnd(st, opts, nons);
    } else {
      FinishedAtDashes(st, opts, nons, st.(ne := if st.ns != -1 && st.ne == -1 then st.optind else st.ne, optind := st.optind + 1));
    }
  }

  // Closing the block of non-options at an option.
  lemma SettleLayout(st: State, opts: seq<string>, nons: seq<string>, o: State)
    requires Layout(st, opts, nons) && st.place == "" && st.optind < |st.argv| && IsOption(st.argv[st.optind])
    requires o == st.(ne := if st.ns != -1 && st.ne == -1 then st.optind else st.ne)
    ensures WellFormed(o) && Layout(o, opts, nons)
    ensures Layout(o.(place := st.argv[st.optind][1..]), opts, nons)
  {
  }

  // Seeking at an option.
  lemma SeekOption(sp: Spec, st: State, opts: seq<string>, nons: seq<string>)
    requires ProperVals(sp) && Layout(st, opts, nons) && st.place == ""
    requires st.optind < |st.argv| && IsOption(st.argv[st.optind]) && st.argv[st.optind] != "--"
    ensures Seek(sp, st).AtOption?
    ensures var st' := Seek(sp, st).st;
            && st'.optind == st.optind && |st'.argv| == |st.argv| && Layout(st', opts, nons)
            && Remaining(sp, st') == Remaining(sp, st)
  {
  }

  // Seeking past one non-option.
  lemma SeekPast(sp: Spec, st: State, opts: seq<string>, nons: seq<string>) returns (st': State)
    requires sp.mode.Permuting? && ProperVals(sp) && Layout(st, opts, nons) && st.place == ""
    requires st.optind < |st.argv| && !IsOption(st.argv[st.optind])
    ensures WellFormed(st') && Layout(st', opts, nons + [st.argv[st.optind]]) && st'.place == ""
    ensures st'.optind == st.optind + 1 && |st'.argv| == |st.argv|
    ensures Seek(sp, st') == Seek(sp, st)
    ensures var r' := Remaining(sp, st'); Remaining(sp, st) == r'.(nons := [st.argv[st.optind]] + r'.nons)
  {
    var p := Permuted(st);
    st' := p.(ns := if p.ns == -1 then st.optind else p.ns, optind := st.optind + 1);
    SkipKeepsLayout(st, opts, nons, st');
  }

  /** Passing over non-options: they join the block, and what follows is still to be read; or
      argv is sorted and the run is over. */
  lemma {:induction false} SeekKeepsLayout(sp: Spec, st: State, opts: seq<string>, nons: seq<string>) returns (skipped: seq<string>)
    requires sp.mode.Permuting? && ProperVals(sp) && WellFormed(st) && 0 <= st.optind <= |st.argv| && st.place == ""
    requires Layout(st, opts, nons)
    ensures Seek(sp, st).Return? ==> SortedBy(Seek(sp, st), Remaining(sp, st), opts, nons)
    ensures Seek(sp, st).AtOption? ==>
              var st' := Seek(sp, st).st;
              && st.optind <= st'.optind < |st'.argv| == |st.argv| && Layout(st', opts, nons + skipped)
              && var r' := Remaining(sp, st'); Remaining(sp, st) == r'.(nons := skipped + r'.nons)
    decreases |st.argv| - st.optind
  {
    hide Layout, Seek, Remaining, WellFormed, IsOption;
    skipped := [];
    if st.optind == |st.argv| || st.argv[st.optind] == "--" {
      SeekEnd(sp, st, opts, nons);
    } else if IsOption(st.argv[st.optind]) {
      SeekOption(sp, st, opts, nons);
      assert nons + [] == nons;
    } else {
      var arg := st.argv[st.optind];
      var st1 := SeekPast(sp, st, opts, nons);
      skipped := SeekKeepsLayout(sp, st1, opts, nons + [arg]);
      Assoc(nons, [arg], skipped);
      Assoc(nons, [arg], Remaining(sp, st1).nons);
      skipped := [arg] + skipped;
    }
  }

  /** Reading one option: its arguments join the options, and what follows is still to be read. */
  lemma TakeKeepsLayout(sp: Spec, st: State, opts: seq<string>, nons: seq<string>, st': State, e: Event) returns (taken: seq<string>)
    requires ProperVals(sp) && WellFormed(st) && Layout(st, opts, nons) && st.place != ""
    requires !DeadEnd(sp, st.place) && (st', e) == TakeOption(sp, st)
    ensures Layout(st', opts + taken, nons) && e.ret != -1 && |st'.argv| == |st.argv| && st'.optind <= |st.argv|
    ensures st'.optind > st.optind || (st'.optind == st.optind && 0 < |st'.place| < |st.place|)
    ensures var r' := Remaining(sp, st'); Remaining(sp, st) == Reading(taken + r'.opts, r'.nons, [e] + r'.events, r'.ends)
  {
    var rest := st.argv[st.optind..];
    OptionProgress(sp, rest, st.place);
    var o := OptionStep(sp, rest, st.place);
    taken := rest[..o.used];
    TakeExtendsLayout(st, opts, nons, o.used, st');
    if o.used == 0 {
      assert rest[0..] == rest;
      assert taken + ReadCluster(sp, rest, o.place).opts == ReadCluster(sp, rest, o.place).opts;
    }
  }

  /** The run from any state of a run: the calls report what is still to be read and then
      stop, leaving the options first, then the non-options, and optind between them. */
  lemma {:induction false} RunFrom(sp: Spec, st: State, opts: seq<string>, nons: seq<string>)
    requires sp.mode.Permuting? && ProperVals(sp) && WellFormed(st) && 0 <= st.optind <= |st.argv|
    requires Layout(st, opts, nons) && Remaining(sp, st).ends
    ensures var r := Remaining(sp, st);
            && Events(sp, st, |r.events| + 1) == r.events + [STOP]
            && After(sp, st, |r.events| + 1) == State(opts + r.opts + (nons + r.nons), |opts| + |r.opts|, "", -1, -1)
    decreases |st.argv| - st.optind, st.place == "", |st.place|
  {
    hide Layout, Seek, Remaining, TakeOption;
    var at, skipped: seq<string> := st, [];
    if st.place == "" {
      skipped := SeekKeepsLayout(sp, st, opts, nons);
      at := Seek(sp, st).st;
    }
    if st.place == "" && Seek(sp, st).Return? {
      RunStep(sp, st, 0);
    } else {
      assert nons + [] == nons;
      var (st', e) := TakeOption(sp, at);
      DeadEndDoesNotEnd(sp, at);
      var taken := TakeKeepsLayout(sp, at, opts, nons + skipped, st', e);
      RunFrom(sp, st', opts + taken, nons + skipped);
      var r' := Remaining(sp, st');
      RunStep(sp, st, |r'.events| + 1);
      JoinTaken(opts, taken, r'.opts, nons, skipped, r'.nons);
    }
  }

  lemma DeadEndDoesNotEnd(sp: Spec, st: State)
    requires ProperVals(sp) && WellFormed(st) && st.place != ""
    ensures DeadEnd(sp, st.place) ==> !Remaining(sp, st).ends
  {
  }

  // At a dead end the cluster is dropped and nothing else changes.
  lemma DeadEndKeepsLayout(sp: Spec, st: State, opts: seq<string>, nons: seq<string>, st': State, e: Event)
    requires ProperVals(sp) && WellFormed(st) && Layout(st, opts, nons) && st.place != "" && DeadEnd(sp, st.place)
    requires (st', e) == TakeOption(sp, st)
    ensures Layout(st', opts, nons) && Remaining(sp, st) == Reading([], [], [e], false)
  {
    OptionProgress(sp, st.argv[st.optind..], st.place);
  }

  /** If reading does not come to an end, the calls report what is read up to the lone dash, and leave
      argv with the options so far and one block of non-options among them. */
  lemma {:induction false} RunToDeadEnd(sp: Spec, st: State, opts: seq<string>, nons: seq<string>)
    requires sp.mode.Permuting? && ProperVals(sp) && WellFormed(st) && 0 <= st.optind <= |st.argv|
    requires Layout(st, opts, nons) && !Remaining(sp, st).ends
    ensures var r := Remaining(sp, st);
            && Events(sp, st, |r.events|) == r.events
            && Layout(After(sp, st, |r.events|), opts + r.opts, nons + r.nons)
    decreases |st.argv| - st.optind, st.place == "", |st.place|
  {
    hide Layout, Seek, Remaining, TakeOption;
    var at, skipped: seq<string> := st, [];
    if st.place == "" {
      skipped := SeekKeepsLayout(sp, st, opts, nons);
      at := Seek(sp, st).st;
    }
    assert nons + [] == nons;
    var (st', e) := TakeOption(sp, at);
    if DeadEnd(sp, at.place) {
      DeadEndKeepsLayout(sp, at, opts, nons + skipped, st', e);
      RunStep(sp, st, 0);
      assert opts + [] == opts && skipped + [] == skipped;
    } else {
      var taken := TakeKeepsLayout(sp, at, opts, nons + skipped, st', e);
      RunToDeadEnd(sp, st', opts + taken, nons + skipped);
      var r' := Remaining(sp, st');
      RunStep(sp, st, |r'.events|);
      Assoc(opts, taken, r'.opts);
      Assoc(nons, skipped, r'.nons);
    }
  }

  lemma RunStep(sp: Spec, st: State, n: nat)
    requires WellFormed(st) && ProperVals(sp)
    ensures After(sp, st, n + 1) == After(sp, Call(sp, st).0, n)
    ensures Events(sp, st, n + 1) == [Call(sp, st).1] + Events(sp, Call(sp, st).0, n)
  {
  }

  lemma JoinTaken(opts: seq<string>, taken: seq<string>, opts': seq<string>, nons: seq<string>, skipped: seq<string>, nons': seq<string>)
    ensures opts + taken + opts' + (nons + skipped + nons') == opts + (taken + opts') + (nons + (skipped + nons'))
  {
  }

  // The last call of a run.
  lemma {:induction false} LastStep(sp: Spec, st: State, n: nat)
    requires WellFormed(st) && ProperVals(sp)
    ensures var (next, e) := Call(sp, After(sp, st, n));
            After(sp, st, n + 1) == next && Events(sp, st, n + 1) == Events(sp, st, n) + [e]
    decreases n
  {
    hide Call;
    RunStep(sp, st, n);
    if n > 0 {
      LastStep(sp, Call(sp, st).0, n - 1);
      RunStep(sp, st, n - 1);
      Assoc([Call(sp, st).1], Events(sp, Call(sp, st).0, n - 1), [Call(sp, After(sp, st, n)).1]);
    }
  }

  lemma {:induction false} EarlierEvents(sp: Spec, st: State, k: nat, n: nat)
    requires WellFormed(st) && ProperVals(sp) && k <= n
    ensures Events(sp, st, k) == Events(sp, st, n)[..k]
    decreases n
  {
    hide Call;
    if k < n {
      EarlierEvents(sp, st, k, n - 1);
      LastStep(sp, st, n - 1);
    }
  }

  /** The state before the first call. */
  function Start(argv: seq<string>): State {
    State(argv, 1, "", -1, -1)
  }

  lemma StartIsWellFormed(argv: seq<string>)
    ensures WellFormed(Start(argv))
  {
  }

  lemma RunBegins(sp: Spec, st: State)
    requires WellFormed(st) && ProperVals(sp)
    ensures After(sp, st, 0) == st && Events(sp, st, 0) == []
  {
  }

  /** The permutation theorem. If reading argv comes to an end, the calls report that reading
      and then -1, and argv is left stably partitioned: the program name, the options and
      their arguments, then the non-options, with optind at the first non-option. */
  lemma RunSortsArgv(sp: Spec, argv: seq<string>)
    requires sp.mode.Permuting? && ProperVals(sp) && argv != []
    requires Read(sp, argv[1..]).ends
    ensures var r := Read(sp, argv[1..]);
            && Events(sp, Start(argv), |r.events| + 1) == r.events + [STOP]
            && After(sp, Start(argv), |r.events| + 1) == State(argv[..1] + r.opts + r.nons, 1 + |r.opts|, "", -1, -1)
  {
    RunFrom(sp, Start(argv), argv[..1], []);
    var r := Read(sp, argv[1..]);
    assert [] + r.nons == r.nons;
  }

  /** The members of s whose flag is b, in order. */
  function Select<T>(s: seq<T>, flags: seq<bool>, b: bool): seq<T>
    requires |flags| == |s|
  {
    if s == [] then []
    else (if flags[0] == b then [s[0]] else []) + Select(s[1..], flags[1..], b)
  }

  /** Options and non-options are complementary parts of the arguments, each in its old order. */
  lemma {:induction false} ReadPartitions(sp: Spec, rest: seq<string>) returns (flags: seq<bool>)
    requires ProperVals(sp) && Read(sp, rest).ends
    ensures |flags| == |rest|
    ensures Select(rest, flags, true) == Read(sp, rest).opts && Select(rest, flags, false) == Read(sp, rest).nons
    decreases |rest|, 1, 0
  {
    if rest == [] {
      flags := [];
    } else if !IsOption(rest[0]) {
      var f := ReadPartitions(sp, rest[1..]);
      flags := [false] + f;
    } else if rest[0] == "--" {
      flags := [true] + seq(|rest| - 1, i => false);
      SelectUniform(rest[1..], flags[1..], false);
    } else {
      flags := ClusterPartitions(sp, rest, rest[0][1..]);
    }
  }

  lemma {:induction false} ClusterPartitions(sp: Spec, rest: seq<string>, place: string) returns (flags: seq<bool>)
    requires rest != [] && place != "" && ProperVals(sp) && ReadCluster(sp, rest, place).ends
    ensures |flags| == |rest|
    ensures Select(rest, flags, true) == ReadCluster(sp, rest, place).opts
    ensures Select(rest, flags, false) == ReadCluster(sp, rest, place).nons
    decreases |rest|, 0, |place|
  {
    hide OptionStep;
    OptionProgress(sp, rest, place);
    var o := OptionStep(sp, rest, place);
    if o.place != "" {
      flags := ClusterPartitions(sp, rest, o.place);
    } else {
      var f := ReadPartitions(sp, rest[o.used..]);
      var g := seq(o.used, i => true);
      flags := g + f;
      SelectUniform(rest[..o.used], g, true);
      SelectJoin(rest[..o.used], g, rest[o.used..], f, true);
      SelectJoin(rest[..o.used], g, rest[o.used..], f, false);
      assert rest == rest[..o.used] + rest[o.used..];
    }
  }

  lemma {:induction false} SelectUniform<T>(s: seq<T>, flags: seq<bool>, b: bool)
    requires |flags| == |s| && forall i :: 0 <= i < |s| ==> flags[i] == b
    ensures Select(s, flags, b) == s && Select(s, flags, !b) == []
  {
    if s != [] {
      SelectUniform(s[1..], flags[1..], b);
    }
  }

  lemma {:induction false} SelectJoin<T>(s: seq<T>, f: seq<bool>, t: seq<T>, g: seq<bool>, b: bool)
    requires |f| == |s| && |g| == |t|
    ensures Select(s + t, f + g, b) == Select(s, f, b) + Select(t, g, b)
  {
    if s == [] {
      assert s + t == t && f + g == g;
    } else {
      SelectJoin(s[1..], f[1..], t, g, b);
      assert (s + t)[1..] == s[1..] + t && (f + g)[1..] == f[1..] + g;
      var head := if f[0] == b then [s[0]] else [];
      calc {
        Select(s + t, f + g, b);
        head + Select(s[1..] + t, f[1..] + g, b);
        head + (Select(s[1..], f[1..], b) + Select(t, g, b));
        (head + Select(s[1..], f[1..], b)) + Select(t, g, b);
      }
    }
  }

  // ----- Runs that never stop ----------------------------------------------------

  /** The reading of what is left runs into a dead end, and so does rereading the argument at
      optind from its start. */
  ghost predicate Doomed(sp: Spec, st: State)
    requires ProperVals(sp)
  {
    && WellFormed(st) && st.optind <= |st.argv| && !Remaining(sp, st).ends
    && (st.place != "" ==> !Read(sp, st.argv[st.optind..]).ends)
  }

  lemma TakeStaysDoomed(sp: Spec, st: State)
    requires ProperVals(sp) && sp.longs.Some? && Doomed(sp, st) && st.place != ""
    ensures TakeOption(sp, st).1.ret != -1 && Doomed(sp, TakeOption(sp, st).0)
  {
    hide OptionStep;
    var rest := st.argv[st.optind..];
    OptionProgress(sp, rest, st.place);
    var o := OptionStep(sp, rest, st.place);
    assert st.argv[st.optind + o.used..] == rest[o.used..];
    assert rest[0..] == rest;
  }

  lemma CallStaysDoomed(sp: Spec, st: State)
    requires sp.mode.Permuting? && ProperVals(sp) && sp.longs.Some? && Doomed(sp, st)
    ensures Call(sp, st).1.ret != -1 && Doomed(sp, Call(sp, st).0)
  {
    hide Seek, TakeOption, Layout;
    if st.place != "" {
      TakeStaysDoomed(sp, st);
    } else {
      var opts, nons := SomeLayout(st);
      var skipped := SeekKeepsLayout(sp, st, opts, nons);
      TakeStaysDoomed(sp, Seek(sp, st).st);
    }
  }

  lemma SomeLayout(st: State) returns (opts: seq<string>, nons: seq<string>)
    requires WellFormed(st) && st.optind <= |st.argv|
    ensures Layout(st, opts, nons)
  {
    if st.ns == -1 {
      opts, nons := st.argv[..st.optind], [];
    } else {
      var e := if st.ne == -1 then st.optind else st.ne;
      opts, nons := st.argv[..st.ns] + st.argv[e..st.optind], st.argv[st.ns..e];
    }
  }

  lemma {:induction false} DoomedNeverStops(sp: Spec, st: State, n: nat)
    requires sp.mode.Permuting? && ProperVals(sp) && sp.longs.Some? && Doomed(sp, st)
    ensures forall e :: e in Events(sp, st, n) ==> e.ret != -1
    decreases n
  {
    if n > 0 {
      CallStaysDoomed(sp, st);
      DoomedNeverStops(sp, Call(sp, st).0, n - 1);
    }
  }

  /** With a long-option table, a run stops exactly when reading argv comes to an end: when no
      argument reached as an option is a cluster whose letters lead up to a final '-'. */
  lemma RunStopsIffReadingEnds(sp: Spec, argv: seq<string>)
    requires sp.mode.Permuting? && ProperVals(sp) && sp.longs.Some? && argv != []
    ensures (exists n: nat, e :: e in Events(sp, Start(argv), n) && e.ret == -1) <==> Read(sp, argv[1..]).ends
  {
    if Read(sp, argv[1..]).ends {
      RunSortsArgv(sp, argv);
      assert STOP in Events(sp, Start(argv), |Read(sp, argv[1..]).events| + 1);
    } else {
      forall n: nat
        ensures forall e :: e in Events(sp, Start(argv), n) ==> e.ret != -1
      {
        DoomedNeverStops(sp, Start(argv), n);
      }
    }
  }

  // Only a dead end without a long-option table reports -1 while reading, and it comes last.
  lemma {:induction false} ReadReports(sp: Spec, rest: seq<string>)
    requires ProperVals(sp)
    ensures Reports(sp, Read(sp, rest))
    decreases |rest|, 1, 0
  {
    hide OptionStep;
    if rest != [] && rest[0] != "--" {
      if IsOption(rest[0]) {
        ClusterReports(sp, rest, rest[0][1..]);
      } else {
        ReadReports(sp, rest[1..]);
      }
    }
  }

  ghost predicate Reports(sp: Spec, r: Reading) {
    && (!r.ends ==> r.events != [])
    && forall i :: 0 <= i < |r.events| ==>
         (r.events[i].ret == -1 <==> !r.ends && i == |r.events| - 1 && sp.longs.None?)
  }

  lemma {:induction false} ClusterReports(sp: Spec, rest: seq<string>, place: string)
    requires rest != [] && place != "" && ProperVals(sp)
    ensures Reports(sp, ReadCluster(sp, rest, place))
    decreases |rest|, 0, |place|
  {
    hide OptionStep;
    OptionProgress(sp, rest, place);
    var o := OptionStep(sp, rest, place);
    if !DeadEnd(sp, place) {
      if o.place != "" {
        ClusterReports(sp, rest, o.place);
      } else {
        ReadReports(sp, rest[o.used..]);
      }
    }
  }

  /** Without a long-option table every run stops: with argv sorted, or at a lone dash inside a cluster,
      where the options so far still have a block of non-options among them. */
  lemma RunWithoutTable(sp: Spec, argv: seq<string>)
    requires sp.mode.Permuting? && ProperVals(sp) && sp.longs.None? && argv != []
    ensures var r := Read(sp, argv[1..]);
      var n := if r.ends then |r.events| + 1 else |r.events|;
      && Events(sp, Start(argv), n) == (if r.ends then r.events + [STOP] else r.events)
      && n > 0 && (forall i :: 0 <= i < n ==> (Events(sp, Start(argv), n)[i].ret == -1 <==> i == n - 1))
      && (r.ends ==> After(sp, Start(argv), n) == State(argv[..1] + r.opts + r.nons, 1 + |r.opts|, "", -1, -1))
      && (!r.ends ==> Layout(After(sp, Start(argv), n), argv[..1] + r.opts, r.nons))
  {
    ReadReports(sp, argv[1..]);
    var r := Read(sp, argv[1..]);
    if r.ends {
      RunSortsArgv(sp, argv);
    } else {
      RunToDeadEnd(sp, Start(argv), argv[..1], []);
      assert [] + r.nons == r.nons;
    }
  }

  // ----- Clusters by their text ---------------------------------------------------------------

  /** A letter that leaves the rest of its cluster to be read: unknown, or without an argument. */
  predicate Passes(sp: Spec, c: char) {
    var i := IndexOf(sp.options, c);
    c == ':' || i == |sp.options| || (CharAt(sp.options, i + 1) != ':' && !(c == 'W' && CharAt(sp.options, i + 1) == ';'))
  }

  /** The only dash in the cluster is its last character, and every letter before it passes. */
  predicate EndsInDash(sp: Spec, place: string) {
    && place != "" && place[|place| - 1] == '-'
    && forall k :: 0 <= k < |place| - 1 ==> place[k] != '-' && Passes(sp, place[k])
  }

  /** How many arguments a cluster takes, with the arguments of its options. */
  function ClusterUsed(sp: Spec, rest: seq<string>, place: string): (n: nat)
    requires rest != [] && place != "" && ProperVals(sp)
    ensures n <= |rest|
    decreases |place|
  {
    OptionProgress(sp, rest, place);
    var o := OptionStep(sp, rest, place);
    if !DeadEnd(sp, place) && o.place != "" then ClusterUsed(sp, rest, o.place) else o.used
  }

  // A letter leaves the rest of its cluster exactly when it passes and there is a rest.
  lemma LetterPasses(sp: Spec, rest: seq<string>, place: string)
    requires rest != [] && place != "" && place[0] != '-' && sp.longs.Some? && !sp.longOnly && ProperVals(sp)
    ensures OptionStep(sp, rest, place).place != "" <==> |place| > 1 && Passes(sp, place[0])
  {
    OptionProgress(sp, rest, place);
    hide ParseLong;
  }

  /** With a long-option table, whether reading gets past a cluster can be seen from its text alone:
      unless the cluster comes down to a lone dash, reading goes on behind it. */
  lemma {:induction false} ClusterEndsIff(sp: Spec, rest: seq<string>, place: string)
    requires rest != [] && place != "" && sp.longs.Some? && !sp.longOnly && ProperVals(sp)
    ensures ReadCluster(sp, rest, place).ends <==>
      !EndsInDash(sp, place) && Read(sp, rest[ClusterUsed(sp, rest, place)..]).ends
    decreases |place|
  {
    hide OptionStep, Passes;
    OptionProgress(sp, rest, place);
    var o := OptionStep(sp, rest, place);
    if place[0] == '-' {
      DashTakesAll(sp, rest, place);
    } else {
      LetterPasses(sp, rest, place);
      assert |place| == 1 ==> place[|place| - 1] == place[0];
      if o.place != "" {
        ClusterEndsIff(sp, rest, o.place);
        assert o.place == place[1..];
        assert forall k :: 1 <= k < |place| ==> place[k] == place[1..][k - 1];
      }
    }
  }

  lemma DashTakesAll(sp: Spec, rest: seq<string>, place: string)
    requires rest != [] && place != "" && place[0] == '-' && sp.longs.Some? && ProperVals(sp) && !sp.longOnly
    ensures OptionStep(sp, rest, place).place == ""
  {
    ParseLongProgress(sp, rest, 0, place[1..], false, None, None);
  }

  /** A sufficient test that looks at each argument on its own. */
  lemma {:induction false} PlainArgumentsEnd(sp: Spec, rest: seq<string>)
    requires ProperVals(sp) && forall a :: a in rest && |a| > 2 && a[0] == '-' ==> a[|a| - 1] != '-'
    ensures Read(sp, rest).ends
    decreases |rest|, 1, 0
  {
    if rest != [] && rest[0] != "--" {
      if IsOption(rest[0]) {
        PlainClusterEnds(sp, rest, rest[0][1..]);
      } else {
        PlainArgumentsEnd(sp, rest[1..]);
      }
    }
  }

  lemma {:induction false} PlainClusterEnds(sp: Spec, rest: seq<string>, place: string)
    requires rest != [] && place != "" && place[|place| - 1] != '-' && ProperVals(sp)
    requires forall a :: a in rest && |a| > 2 && a[0] == '-' ==> a[|a| - 1] != '-'
    ensures ReadCluster(sp, rest, place).ends
    decreases |rest|, 0, |place|
  {
    hide OptionStep;
    OptionProgress(sp, rest, place);
    var o := OptionStep(sp, rest, place);
    if o.place != "" {
      PlainClusterEnds(sp, rest, o.place);
    } else {
      PlainArgumentsEnd(sp, rest[o.used..]);
    }
  }

  /** The failing family exists: one letter followed by '-', whatever the letter is. */
  lemma DashAfterLetterNeverStops(sp: Spec, c: char, n: nat)
    requires sp.mode.Permuting? && ProperVals(sp) && sp.longs.Some? && !sp.longOnly && c != '-'
    requires c == ':' || c !in sp.options
    ensures forall e :: e in Events(sp, Start(["prog", ['-', c, '-']]), n) ==> e.ret != -1
  {
    var argv := ["prog", ['-', c, '-']];
    var rest := argv[1..];
    assert rest == [['-', c, '-']] && rest[0][1..] == [c, '-'] && [c, '-'][1..] == "-";
    assert ReadCluster(sp, rest, [c, '-']).ends == ReadCluster(sp, rest, "-").ends;
    DoomedNeverStops(sp, Start(argv), n);
  }
}
