/**
 getopt_internal as the C code runs it: static variables that change from call to call and
 an argv that is permuted in place. Each call is proved to be `GetoptRun.Call`.
 */
module GetoptScanner {
  import opened GetoptOption
  import opened GetoptRun
  import opened Permute
  import opened Wrappers

  class Scanner {
    var argv: array<string>
    var optind: int
    var place: string
    var nonoptStart: int
    var nonoptEnd: int
    var optreset: bool
    var optarg: Option<string>

    /** The state as a value; a pending reset forgets the cluster and the skipped block. */
    ghost function Now(): State
      reads this, argv
    {
      if optind == 0 || optreset then State(argv[..], if optind == 0 then 1 else optind, "", -1, -1)
      else State(argv[..], optind, place, nonoptStart, nonoptEnd)
    }

    ghost predicate Valid()
      reads this, argv
    {
      WellFormed(Now())
    }

    constructor (args: array<string>)
      ensures argv == args && Now() == Start(args[..]) && Valid()
    {
      argv, optind, place, nonoptStart, nonoptEnd, optreset, optarg := args, 1, "", -1, -1, false, None;
    }

    /** The fields as a value. */
    ghost function Fields(): State
      reads this, argv
    {
      State(argv[..], optind, place, nonoptStart, nonoptEnd)
    }

    /** Moves the skipped non-options behind the options read since, if there are any. */
    method Permute()
      requires WellFormed(Fields()) && (nonoptEnd != -1 ==> nonoptEnd < optind)
      modifies this`nonoptStart, this`nonoptEnd, argv
      ensures Fields() == Permuted(old(Fields()))
    {
      if nonoptEnd != -1 {
        PermuteArgs(nonoptStart, nonoptEnd, optind, argv);
        nonoptStart := optind - (nonoptEnd - nonoptStart);
        nonoptEnd := -1;
      }
    }

    /** The end of a run. */
    method Finish()
      requires WellFormed(Fields()) && (nonoptEnd != -1 ==> nonoptEnd < optind)
      modifies this`nonoptStart, this`nonoptEnd, this`optind, this`place, argv
      ensures Fields() == Finished(old(Fields()))
    {
      place := "";
      Permute();
      if nonoptStart != -1 {
        optind := nonoptStart;
      }
      nonoptStart, nonoptEnd := -1, -1;
    }

    /** parse_long_options: `cur` is the text after the dashes, or after -W. */
    method ParseLongOptions(sp: Spec, cur: string, shortToo: bool, before: Option<nat>) returns (ret: int, idx: Option<nat>)
      requires sp.longs.Some? && 0 <= optind <= argv.Length
      modifies this`optind, this`optarg
      ensures var o := ParseLong(sp, argv[old(optind)..], 0, cur, shortToo, old(optarg), before);
              optind == old(optind) + o.used && ret == o.ret && optarg == o.optarg && idx == o.idx
    {
      var longs := sp.longs.value;
      optind, idx := optind + 1, before;
      var eq := IndexOf(cur, '=');
      var m := FindLong(longs, cur[..eq], shortToo, sp.longOnly);
      match m
      case Ambiguous =>
        ret := BADCH;
      case NoMatch =>
        if shortToo {
          optind := optind - 1;
          ret := -1;
        } else {
          ret := BADCH;
        }
      case Found(i) =>
        if longs[i].hasArg.NoArgument? && eq < |cur| {
          return BADCH, before;
        }
        if !longs[i].hasArg.NoArgument? {
          if eq < |cur| {
            optarg := Some(cur[eq + 1..]);
          } else if longs[i].hasArg.RequiredArgument? {
            optarg := if optind < argv.Length then Some(argv[optind]) else None;
            optind := optind + 1;
          }
        }
        if longs[i].hasArg.RequiredArgument? && optarg == None {
          optind := optind - 1;
          return sp.BadArg(), before;
        }
        idx := Some(i);
        ret := if longs[i].flag.Some? then 0 else longs[i].val;
    }

    /** The short-option half of getopt_internal. */
    method ShortOption(sp: Spec, before: Option<nat>) returns (ret: int, idx: Option<nat>)
      requires place != "" && 0 <= optind <= argv.Length
      modifies this`optind, this`optarg, this`place
      ensures var o := ShortStep(sp, argv[old(optind)..], 0, old(place), old(optarg), before);
              optind == old(optind) + o.used && place == o.place && ret == o.ret && optarg == o.optarg && idx == o.idx
    {
      hide ParseLong;
      idx := before;
      var c := place[0];
      place := place[1..];
      var oli := IndexOf(sp.options, c);
      if c == ':' || (c == '-' && place != "") || oli == |sp.options| {
        if c == '-' && place == "" {
          return -1, idx;
        }
        if place == "" {
          optind := optind + 1;
        }
        return BADCH, idx;
      }
      ret := c as int;
      if sp.longs.Some? && c == 'W' && CharAt(sp.options, oli + 1) == ';' {
        var cur := place;
        ghost var rest := argv[optind..];
        if place == "" {
          optind := optind + 1;
          if optind >= argv.Length {
            return sp.BadArg(), idx;
          }
          cur := argv[optind];
          ParseLongShift(sp, rest, 1, cur, false, optarg, before);
          assert rest[1..] == argv[optind..];
        }
        ret, idx := ParseLongOptions(sp, cur, false, before);
        place := "";
      } else if CharAt(sp.options, oli + 1) != ':' {
        if place == "" {
          optind := optind + 1;
        }
      } else {
        optarg := None;
        if place != "" {
          optarg := Some(place);
        } else if CharAt(sp.options, oli + 2) != ':' {
          optind := optind + 1;
          if optind >= argv.Length {
            return sp.BadArg(), idx;
          }
          optarg := Some(argv[optind]);
        }
        place := "";
        optind := optind + 1;
      }
    }

    /** Adds the argument at optind to the skipped block. */
    method SkipNonOption()
      requires WellFormed(Fields()) && place == "" && optind < argv.Length && !IsOption(argv[optind])
      modifies this`optind, this`nonoptStart, this`nonoptEnd, argv
      ensures var st := old(Fields());
              var p := Permuted(st);
              Fields() == p.(ns := if p.ns == -1 then st.optind else p.ns, optind := st.optind + 1)
    {
      Permute();
      if nonoptStart == -1 {
        nonoptStart := optind;
      }
      optind := optind + 1;
    }

    /** Passes over non-options: the code from `start:` up to an option, or to a return. */
    method SeekOption(sp: Spec) returns (done: bool, ret: int)
      requires WellFormed(Fields()) && place == "" && optarg == None
      modifies this`optind, this`optarg, this`place, this`nonoptStart, this`nonoptEnd, argv
      ensures Seek(sp, old(Fields())) == if done then Return(Fields(), Event(ret, optarg, None)) else AtOption(Fields())
      ensures !done ==> optarg == None
    {
      hide Finished, Permuted, Seek;
      while true
        invariant place == "" && optarg == None && WellFormed(Fields())
        invariant Seek(sp, Fields()) == Seek(sp, old(Fields()))
        decreases argv.Length - optind
      {
        ghost var st := Fields();
        SeekStops(sp, st);
        if optind >= argv.Length {
          Finish();
          return true, -1;
        }
        place := argv[optind];
        if |place| <= 1 || place[0] != '-' {
          place := "";
          if sp.mode.InOrder? {
            optarg := Some(argv[optind]);
            optind := optind + 1;
            return true, 1;
          }
          if sp.mode.StopAtFirst? {
            return true, -1;
          }
          SkipNonOption();
          SeekSkips(sp, st, Fields());
        } else {
          if nonoptStart != -1 && nonoptEnd == -1 {
            nonoptEnd := optind;
          }
          place := place[1..];
          if place == "-" {
            place, optind := "", optind + 1;
            Finish();
            return true, -1;
          }
          return false, 0;
        }
      }
    }

    /** The option half of getopt_internal, with a cluster left to read. */
    method ReadOption(sp: Spec) returns (ret: int, idx: Option<nat>)
      requires place != "" && 0 <= optind < argv.Length && optarg == None
      modifies this`optind, this`optarg, this`place
      ensures var o := OptionStep(sp, argv[old(optind)..], old(place));
              optind == old(optind) + o.used && place == o.place && ret == o.ret && optarg == o.optarg && idx == o.idx
    {
      hide ParseLong, ShortStep;
      idx := None;
      if sp.longs.Some? && (place[0] == '-' || sp.longOnly) {
        var shortToo := false;
        if place[0] == '-' {
          place := place[1..];
          if place == "" {
            return sp.BadArg(), None;
          }
        } else if place[0] != ':' && place[0] in sp.options {
          shortToo := true;
        }
        ghost var rest := argv[optind..];
        ParseLongProgress(sp, rest, 0, place, shortToo, None, None);
        ret, idx := ParseLongOptions(sp, place, shortToo, None);
        if ret != -1 {
          place := "";
          return;
        }
        ShortStepShift(sp, rest, optind - old(optind), place, optarg, idx);
        assert argv[optind..] == rest[optind - old(optind)..];
      }
      ret, idx := ShortOption(sp, idx);
    }

    /** One call of getopt_internal. */
    method Getopt(sp: Spec) returns (ret: int, idx: Option<nat>)
      requires Valid()
      modifies this, argv
      ensures (Now(), Event(ret, optarg, idx)) == Call(sp, old(Now()))
      ensures (ProperVals(sp) ==> Valid()) && argv == old(argv) && Now() == Fields()
    {
      hide OptionStep, Seek;
      if optind == 0 {
        optind, optreset := 1, true;
      }
      optarg := None;
      if optreset {
        nonoptStart, nonoptEnd := -1, -1;
      }
      if optreset || place == "" {
        optreset, place := false, "";
        assert Fields() == old(Now());
        var done: bool;
        done, ret := SeekOption(sp);
        if done {
          return ret, None;
        }
      }
      ret, idx := ReadOption(sp);
    }

    /** The same from the options string: its first character and POSIXLY_CORRECT set the mode. */
    method GetoptLong(options: string, longs: Option<seq<LongOption>>, posixlyCorrect: bool, longOnly: bool)
      returns (ret: int, idx: Option<nat>)
      requires Valid()
      modifies this, argv
      ensures (Now(), Event(ret, optarg, idx)) == Call(Prepare(options, longs, posixlyCorrect, longOnly), old(Now()))
      ensures (ProperVals(Prepare(options, longs, posixlyCorrect, longOnly)) ==> Valid()) && argv == old(argv)
    {
      var mode, letters := Permuting, options;
      if CharAt(options, 0) == '-' {
        mode := InOrder;
      } else if posixlyCorrect || CharAt(options, 0) == '+' {
        mode := StopAtFirst;
      }
      if CharAt(options, 0) == '+' || CharAt(options, 0) == '-' {
        letters := options[1..];
      }
      ret, idx := Getopt(Spec(letters, longs, mode, longOnly));
    }

    /** The loop of a program that calls until -1: if reading argv comes to an end, it sees that
        reading, and argv in place ends as options and then non-options. */
    method GetoptAll(sp: Spec) returns (events: seq<Event>)
      requires Now() == Start(argv[..]) && argv.Length > 0 && sp.mode.Permuting? && ProperVals(sp)
      requires Read(sp, argv[1..]).ends
      modifies this, argv
      ensures var r := Read(sp, old(argv[1..]));
              && events == r.events + [STOP] && argv == old(argv)
              && argv[..] == old(argv[..1]) + r.opts + r.nons && optind == 1 + |r.opts|
    {
      hide WellFormed, Read, Call, After, Events;
      ghost var start, r := Now(), Read(sp, argv[1..]);
      StartIsWellFormed(argv[..]);
      ghost var all := Events(sp, start, |r.events| + 1);
      RunSortsArgv(sp, argv[..]);
      ReadReports(sp, argv[1..]);
      RunBegins(sp, start);
      events := [];
      var ret := 0;
      while ret != -1
        invariant argv == old(argv) && Valid() && |events| <= |all|
        invariant Now() == After(sp, start, |events|) && events == Events(sp, start, |events|)
        invariant (ret == -1 <==> |events| == |all|) && (ret == -1 ==> Now() == Fields())
        decreases |all| - |events|
      {
        ghost var n := |events|;
        LastStep(sp, start, n);
        EarlierEvents(sp, start, n + 1, |all|);
        var idx;
        ret, idx := Getopt(sp);
        events := events + [Event(ret, optarg, idx)];
        assert events[n] == all[n];
      }
      assert events == all;
    }
  }
}
