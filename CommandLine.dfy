/** The command-line parser: options registered with a one-letter and a
    long name, each a flag or an option taking a value, and the parse of
    argv that walks an argument cursor from argument 1 to argc, handling
    "--name", "-x" and grouped "-xyz" forms and throwing on anything else. */
module CommandLine {
  import opened Errors

  /** A registered option: its one-letter form, its long form, and whether
      it is a flag (set to "true" when present) or takes the next argument
      as its value. */
  datatype Arg = Arg(shortOption: char, longOption: string, isFlag: bool)

  /** What parsing leaves behind: the text each registered option was
      given (keyed by its position in the registration vector), the
      argument cursor, and whether an exception was thrown. The cursor and
      the values set so far survive an exception, as the parser's fields
      and the options' variables do. */
  datatype Outcome = Outcome(values: map<nat, string>, cursor: nat, status: Status)

  /** The text a flag is parsed from. */
  const TRUE: string := "true"

  /** The first option registered with long name name, or |args|. */
  function FindLong(args: seq<Arg>, name: string): (i: nat)
    ensures i <= |args|
    ensures forall k :: 0 <= k < i ==> args[k].longOption != name
    ensures i < |args| ==> args[i].longOption == name
  {
    if |args| == 0 then 0
    else if args[0].longOption == name then 0
    else 1 + FindLong(args[1..], name)
  }

  /** The first option registered with short name c, or |args|. */
  function FindShort(args: seq<Arg>, c: char): (i: nat)
    ensures i <= |args|
    ensures forall k :: 0 <= k < i ==> args[k].shortOption != c
    ensures i < |args| ==> args[i].shortOption == c
  {
    if |args| == 0 then 0
    else if args[0].shortOption == c then 0
    else 1 + FindShort(args[1..], c)
  }

  /** "--name" at the cursor: a flag is given "true"; an option with a
      value moves the cursor to the next argument and takes it, or throws
      when there is none. */
  function ParseLong(args: seq<Arg>, argv: seq<string>, values: map<nat, string>, cur: nat): (r: Outcome)
    requires cur < |argv| && |argv[cur]| >= 2
  {
    var name := argv[cur][2..];
    var i := FindLong(args, name);
    if i == |args| then Outcome(values, cur, Thrown("Unrecognized option \"--" + name + "\"."))
    else if args[i].isFlag then Outcome(values[i := TRUE], cur, Done)
    else if cur + 1 == |argv| then Outcome(values, cur + 1, Thrown("Error parsing option \"--" + name + "\"."))
    else Outcome(values[i := argv[cur + 1]], cur + 1, Done)
  }

  /** "-x" at the cursor: the same rule, matched on the short name. */
  function ParseShort(args: seq<Arg>, argv: seq<string>, values: map<nat, string>, cur: nat): (r: Outcome)
    requires cur < |argv| && |argv[cur]| >= 2
  {
    var c := argv[cur][1];
    var i := FindShort(args, c);
    if i == |args| then Outcome(values, cur, Thrown("Unrecognized option \"-" + [c] + "\"."))
    else if args[i].isFlag then Outcome(values[i := TRUE], cur, Done)
    else if cur + 1 == |argv| then Outcome(values, cur + 1, Thrown("Error parsing option \"-" + [c] + "\"."))
    else Outcome(values[i := argv[cur + 1]], cur + 1, Done)
  }

  /** "-xyz" at the cursor, from the o-th letter of opts on: every letter
      must name an option; only the last one may take a value, which is
      the next argument. The value is looked up only when there is one
      (the corrected form of the letter loop, see ParseGroupAsWritten). */
  function ParseGroup(args: seq<Arg>, argv: seq<string>, values: map<nat, string>, cur: nat,
                      opts: string, o: nat): (r: Outcome)
    requires cur < |argv| && o <= |opts|
    ensures cur <= r.cursor <= cur + 1
    ensures r.status.Done? ==> r.cursor < |argv|
    decreases |opts| - o
  {
    if o == |opts| then Outcome(values, cur, Done)
    else
      var i := FindShort(args, opts[o]);
      if i == |args| then Outcome(values, cur, Thrown("Unrecognized option \"-" + [opts[o]] + "\"."))
      else if args[i].isFlag then ParseGroup(args, argv, values[i := TRUE], cur, opts, o + 1)
      else if o < |opts| - 1 then Outcome(values, cur, Thrown("Error parsing option \"-" + opts + "\"."))
      else if cur + 1 == |argv| then Outcome(values, cur + 1, Thrown("Error parsing option \"-" + opts + "\"."))
      else Outcome(values[i := argv[cur + 1]], cur + 1, Done)
  }

  /** The letter loop of "-xyz" as written: the value of a last letter
      that takes one is read from argv[cur + 1] with no comparison against
      argc. None stands for that read reaching argv[argc], the null
      pointer, which is then turned into a std::string. */
  function ParseGroupAsWritten(args: seq<Arg>, argv: seq<string>, values: map<nat, string>, cur: nat,
                               opts: string, o: nat): (r: Option<Outcome>)
    requires cur < |argv| && o <= |opts|
    decreases |opts| - o
  {
    if o == |opts| then Some(Outcome(values, cur, Done))
    else
      var i := FindShort(args, opts[o]);
      if i == |args| then Some(Outcome(values, cur, Thrown("Unrecognized option \"-" + [opts[o]] + "\".")))
      else if args[i].isFlag then ParseGroupAsWritten(args, argv, values[i := TRUE], cur, opts, o + 1)
      else if o < |opts| - 1 then Some(Outcome(values, cur, Thrown("Error parsing option \"-" + opts + "\".")))
      else if cur + 1 == |argv| then None
      else Some(Outcome(values[i := argv[cur + 1]], cur + 1, Done))
  }

  /** One turn of the parse loop, before the cursor moves past the
      argument it handled. */
  function Step(args: seq<Arg>, argv: seq<string>, values: map<nat, string>, cur: nat): (r: Outcome)
    requires cur < |argv|
    ensures cur <= r.cursor <= cur + 1
    ensures r.status.Done? ==> r.cursor < |argv|
  {
    var a := argv[cur];
    if |a| == 0 || a[0] != '-' || |a| == 1 then
      Outcome(values, cur, Thrown("Unrecognized option \"" + a + "\"."))
    else if a[1] == '-' then
      if |a| > 2 then ParseLong(args, argv, values, cur)
      else Outcome(values, cur, Thrown("Unrecognized option \"" + a + "\"."))
    else if |a| == 2 then ParseShort(args, argv, values, cur)
    else ParseGroup(args, argv, values, cur, a[1..], 0)
  }

  /** The parse loop from argument cur on. A parse that does not throw
      leaves the cursor at argc: every argument was consumed. */
  function ParseFrom(args: seq<Arg>, argv: seq<string>, values: map<nat, string>, cur: nat): (r: Outcome)
    ensures r.cursor >= cur
    ensures r.status.Done? ==> r.cursor == if cur < |argv| then |argv| else cur
    decreases |argv| - cur
  {
    if cur >= |argv| then Outcome(values, cur, Done)
    else
      var o := Step(args, argv, values, cur);
      if o.status.Thrown? then o else ParseFrom(args, argv, o.values, o.cursor + 1)
  }

  /** An argument that is empty, does not start with '-', or is just "-"
      or "--" stops the parse with "Unrecognized option" at that argument. */
  lemma NonOptionRefused(args: seq<Arg>, argv: seq<string>, values: map<nat, string>, cur: nat)
    requires cur < |argv|
    requires |argv[cur]| == 0 || argv[cur][0] != '-' || argv[cur] == "-" || argv[cur] == "--"
    ensures ParseFrom(args, argv, values, cur)
         == Outcome(values, cur, Thrown("Unrecognized option \"" + argv[cur] + "\"."))
  {
    if argv[cur] == "--" {
      assert argv[cur][1] == '-';
    }
  }

  /** "--name": an unknown name throws; a flag is given "true" and the
      cursor stays; an option with a value takes the next argument and
      moves the cursor onto it, or throws when there is none. */
  lemma LongOptionParsed(args: seq<Arg>, argv: seq<string>, values: map<nat, string>, cur: nat, name: string)
    requires cur < |argv| && argv[cur] == "--" + name && name != ""
    ensures var i := FindLong(args, name);
      var r := Step(args, argv, values, cur);
      && (i == |args| ==> r == Outcome(values, cur, Thrown("Unrecognized option \"--" + name + "\".")))
      && (i < |args| && args[i].isFlag ==> r == Outcome(values[i := TRUE], cur, Done))
      && (i < |args| && !args[i].isFlag && cur + 1 < |argv| ==> r == Outcome(values[i := argv[cur + 1]], cur + 1, Done))
      && (i < |args| && !args[i].isFlag && cur + 1 == |argv| ==> r.status.Thrown? && r.cursor == |argv|)
  {
    assert argv[cur][2..] == name;
    assert argv[cur][0] == '-' && argv[cur][1] == '-';
  }

  /** "-x" is handled exactly as a group of the one letter x would be. */
  lemma ShortOptionIsGroupOfOne(args: seq<Arg>, argv: seq<string>, values: map<nat, string>, cur: nat, c: char)
    requires cur < |argv| && argv[cur] == ['-', c] && c != '-'
    ensures Step(args, argv, values, cur) == ParseGroup(args, argv, values, cur, [c], 0)
  {
    assert argv[cur][1] == c;
    var i := FindShort(args, c);
    if i < |args| && args[i].isFlag {
      assert ParseGroup(args, argv, values[i := TRUE], cur, [c], 1) == Outcome(values[i := TRUE], cur, Done);
    }
  }

  /** The keys a group of flags sets, from letter o on. */
  function FlagKeys(args: seq<Arg>, opts: string, o: nat): (r: set<nat>)
    requires o <= |opts|
    ensures forall j :: o <= j < |opts| ==> FindShort(args, opts[j]) in r
    decreases |opts| - o
  {
    if o == |opts| then {} else {FindShort(args, opts[o])} + FlagKeys(args, opts, o + 1)
  }

  /** A group whose letters all name flags sets each of them to "true",
      keeps every other value, and leaves the cursor where it was. */
  lemma {:induction false} GroupOfFlags(args: seq<Arg>, argv: seq<string>, values: map<nat, string>, cur: nat,
                                        opts: string, o: nat)
    requires cur < |argv| && o <= |opts|
    requires forall j :: o <= j < |opts| ==> FindShort(args, opts[j]) < |args| && args[FindShort(args, opts[j])].isFlag
    ensures var r := ParseGroup(args, argv, values, cur, opts, o);
      && r.status == Done && r.cursor == cur
      && r.values.Keys == values.Keys + FlagKeys(args, opts, o)
      && forall k :: k in r.values ==> r.values[k] == if k in FlagKeys(args, opts, o) then TRUE else values[k]
    decreases |opts| - o
  {
    if o < |opts| {
      var i := FindShort(args, opts[o]);
      var v' := values[i := TRUE];
      GroupOfFlags(args, argv, v', cur, opts, o + 1);
      var r := ParseGroup(args, argv, v', cur, opts, o + 1);
      assert ParseGroup(args, argv, values, cur, opts, o) == r;
      var keys := FlagKeys(args, opts, o + 1);
      assert FlagKeys(args, opts, o) == {i} + keys;
      forall k | k in r.values
        ensures r.values[k] == if k in {i} + keys then TRUE else values[k]
      {
        if k !in keys && k != i {
          assert r.values[k] == v'[k];
        }
      }
    }
  }

  /** A group throws when one of its letters names no option, or when a
      letter other than the last names an option that takes a value. */
  lemma {:induction false} GroupRefused(args: seq<Arg>, argv: seq<string>, values: map<nat, string>, cur: nat,
                                        opts: string, o: nat, j: nat)
    requires cur < |argv| && o <= j < |opts|
    requires FindShort(args, opts[j]) == |args| || (j < |opts| - 1 && !args[FindShort(args, opts[j])].isFlag)
    ensures ParseGroup(args, argv, values, cur, opts, o).status.Thrown?
    decreases |opts| - o
  {
    var i := FindShort(args, opts[o]);
    if o < j && i < |args| && args[i].isFlag {
      GroupRefused(args, argv, values[i := TRUE], cur, opts, o + 1, j);
    }
  }

  /** The grouped letters as written agree with the corrected ones except
      where the corrected ones throw for a missing value at argc: there the
      code as written reads argv[argc]. */
  lemma {:induction false} GroupAsWrittenAgrees(args: seq<Arg>, argv: seq<string>, values: map<nat, string>, cur: nat,
                                                opts: string, o: nat)
    requires cur < |argv| && o <= |opts|
    ensures var w := ParseGroupAsWritten(args, argv, values, cur, opts, o);
      var r := ParseGroup(args, argv, values, cur, opts, o);
      && (w.Some? ==> w.value == r)
      && (w.None? <==> r.status.Thrown? && r.cursor == |argv|)
    decreases |opts| - o
  {
    if o < |opts| {
      var i := FindShort(args, opts[o]);
      if i < |args| && args[i].isFlag {
        GroupAsWrittenAgrees(args, argv, values[i := TRUE], cur, opts, o + 1);
      }
    }
  }

  /** "argos3 -fv" with f a flag and v an option taking a value: the code
      as written reads argv[2] == argv[argc]; the corrected loop throws. */
  lemma GroupReadsPastArgc()
    ensures var args := [Arg('f', "flag", true), Arg('v', "value", false)];
      var argv := ["argos3", "-fv"];
      && ParseGroupAsWritten(args, argv, map[], 1, "fv", 0).None?
      && ParseGroup(args, argv, map[], 1, "fv", 0) == Outcome(map[0 := TRUE], 2, Thrown("Error parsing option \"-fv\"."))
  {
    var args := [Arg('f', "flag", true), Arg('v', "value", false)];
    assert FindShort(args, 'f') == 0;
    assert FindShort(args, 'v') == 1 by {
      assert args[1..][0].shortOption == 'v';
    }
  }

  /** Parsing from argument 1 never looks at argv[0], the program name. */
  lemma {:induction false} ProgramNameIgnored(args: seq<Arg>, argv: seq<string>, argv': seq<string>,
                                              values: map<nat, string>, cur: nat)
    requires |argv| == |argv'| && cur >= 1
    requires forall k :: 1 <= k < |argv| ==> argv[k] == argv'[k]
    ensures ParseFrom(args, argv, values, cur) == ParseFrom(args, argv', values, cur)
    decreases |argv| - cur
  {
    if cur < |argv| {
      var o := Step(args, argv, values, cur);
      StepSameArgs(args, argv, argv', values, cur);
      if o.status.Done? {
        ProgramNameIgnored(args, argv, argv', o.values, o.cursor + 1);
      }
    }
  }

  /** One turn of the loop reads only the argument at the cursor, the one
      after it and argc. */
  lemma StepSameArgs(args: seq<Arg>, argv: seq<string>, argv': seq<string>, values: map<nat, string>, cur: nat)
    requires |argv| == |argv'| && 1 <= cur < |argv|
    requires forall k :: 1 <= k < |argv| ==> argv[k] == argv'[k]
    ensures Step(args, argv, values, cur) == Step(args, argv', values, cur)
  {
    var a := argv[cur];
    assert a == argv'[cur];
    if |a| > 2 && a[0] == '-' && a[1] != '-' {
      GroupSameArgs(args, argv, argv', values, cur, a[1..], 0);
    }
  }

  lemma {:induction false} GroupSameArgs(args: seq<Arg>, argv: seq<string>, argv': seq<string>,
                                         values: map<nat, string>, cur: nat, opts: string, o: nat)
    requires |argv| == |argv'| && 1 <= cur < |argv| && o <= |opts|
    requires forall k :: 1 <= k < |argv| ==> argv[k] == argv'[k]
    ensures ParseGroup(args, argv, values, cur, opts, o) == ParseGroup(args, argv', values, cur, opts, o)
    decreases |opts| - o
  {
    if o < |opts| {
      var i := FindShort(args, opts[o]);
      if i < |args| && args[i].isFlag {
        GroupSameArgs(args, argv, argv', values[i := TRUE], cur, opts, o + 1);
      }
    }
  }

  /** The text an option holds after a parse from argument cur: the old
      one, or "true" for a flag, or an argument from cur on for an option
      that takes a value; and only registered options are given one. */
  ghost predicate Given(args: seq<Arg>, argv: seq<string>, cur: nat, before: map<nat, string>, after: map<nat, string>) {
    forall k :: k in after ==>
      (k in before && after[k] == before[k]) ||
      (k < |args| && (if args[k].isFlag then after[k] == TRUE else exists j :: cur <= j < |argv| && argv[j] == after[k]))
  }

  lemma {:induction false} GroupGiven(args: seq<Arg>, argv: seq<string>, values: map<nat, string>, cur: nat,
                                      opts: string, o: nat)
    requires cur < |argv| && o <= |opts|
    ensures Given(args, argv, cur, values, ParseGroup(args, argv, values, cur, opts, o).values)
    decreases |opts| - o
  {
    if o < |opts| {
      var i := FindShort(args, opts[o]);
      if i < |args| && args[i].isFlag {
        var v' := values[i := TRUE];
        GroupGiven(args, argv, v', cur, opts, o + 1);
        GivenTrans(args, argv, cur, cur, values, v', ParseGroup(args, argv, v', cur, opts, o + 1).values);
      }
    }
  }

  lemma GivenTrans(args: seq<Arg>, argv: seq<string>, cur: nat, cur': nat,
                   a: map<nat, string>, b: map<nat, string>, c: map<nat, string>)
    requires cur <= cur'
    requires Given(args, argv, cur, a, b) && Given(args, argv, cur', b, c)
    ensures Given(args, argv, cur, a, c)
  {
    forall k | k in c
      ensures (k in a && c[k] == a[k]) ||
        (k < |args| && (if args[k].isFlag then c[k] == TRUE else exists j :: cur <= j < |argv| && argv[j] == c[k]))
    {
      if !(k in b && c[k] == b[k]) && k < |args| && !args[k].isFlag {
        var j :| cur' <= j < |argv| && argv[j] == c[k];
        assert cur <= j;
      }
    }
  }

  /** Whatever a parse from argument cur does, thrown or not, the options
      it gives a value to are registered ones, each flag is given "true",
      and each option with a value is given one of the arguments it read. */
  lemma {:induction false} ParsedValuesFromArgv(args: seq<Arg>, argv: seq<string>, values: map<nat, string>, cur: nat)
    ensures Given(args, argv, cur, values, ParseFrom(args, argv, values, cur).values)
    decreases |argv| - cur
  {
    if cur < |argv| {
      var o := Step(args, argv, values, cur);
      StepGiven(args, argv, values, cur);
      if o.status.Done? {
        var r := ParseFrom(args, argv, o.values, o.cursor + 1);
        assert ParseFrom(args, argv, values, cur) == r;
        ParsedValuesFromArgv(args, argv, o.values, o.cursor + 1);
        GivenTrans(args, argv, cur, o.cursor + 1, values, o.values, r.values);
      }
    }
  }

  /** One turn of the loop gives values as a whole parse does. */
  lemma StepGiven(args: seq<Arg>, argv: seq<string>, values: map<nat, string>, cur: nat)
    requires cur < |argv|
    ensures Given(args, argv, cur, values, Step(args, argv, values, cur).values)
  {
    var a := argv[cur];
    if |a| > 2 && a[0] == '-' && a[1] != '-' {
      GroupGiven(args, argv, values, cur, a[1..], 0);
    } else if |a| >= 2 && a[0] == '-' {
      var r := Step(args, argv, values, cur);
      forall k | k in r.values && !(k in values && r.values[k] == values[k])
        ensures k < |args| && (if args[k].isFlag then r.values[k] == TRUE
                               else exists j :: cur <= j < |argv| && argv[j] == r.values[k])
      {
        if !args[k].isFlag {
          assert argv[cur + 1] == r.values[k];
        }
      }
    }
  }

  /** The parser with its registered options, the values they were given
      and the argument cursor. */
  class CommandLineArgParser {
    const arguments: seq<Arg>
    var values: map<nat, string>
    var current: nat

    /** The options registered before parsing begins. */
    constructor(arguments: seq<Arg>)
      ensures this.arguments == arguments && values == map[] && current == 0
    {
      this.arguments := arguments;
      values := map[];
      current := 0;
    }

    /** Parses argv from argument 1; the result and the new state are the
        ones of the parse loop. */
    method Parse(argv: seq<string>) returns (s: Status)
      modifies this
      ensures Outcome(values, current, s) == ParseFrom(arguments, argv, old(values), 1)
    {
      current := 1;
      while current < |argv|
        invariant current >= 1
        invariant ParseFrom(arguments, argv, old(values), 1) == ParseFrom(arguments, argv, values, current)
        decreases |argv| - current
      {
        var a := argv[current];
        if |a| == 0 || a[0] != '-' || |a| == 1 {
          return Thrown("Unrecognized option \"" + a + "\".");
        } else if a[1] == '-' {
          if |a| > 2 {
            s := ParseLongOption(argv);
          } else {
            return Thrown("Unrecognized option \"" + a + "\".");
          }
        } else if |a| == 2 {
          s := ParseShortOption(argv);
        } else {
          s := ParseShortOptions(argv);
        }
        if s.Thrown? {
          return;
        }
        current := current + 1;
      }
      s := Done;
    }

    /** "--name" at the cursor. */
    method ParseLongOption(argv: seq<string>) returns (s: Status)
      requires current < |argv| && |argv[current]| >= 2
      modifies this
      ensures Outcome(values, current, s) == ParseLong(arguments, argv, old(values), old(current))
    {
      var name := argv[current][2..];
      var i := 0;
      while i < |arguments|
        invariant i <= FindLong(arguments, name)
        invariant values == old(values) && current == old(current)
      {
        if arguments[i].longOption == name {
          if arguments[i].isFlag {
            values := values[i := TRUE];
          } else {
            current := current + 1;
            if current == |argv| {
              return Thrown("Error parsing option \"--" + name + "\".");
            }
            values := values[i := argv[current]];
          }
          return Done;
        }
        i := i + 1;
      }
      return Thrown("Unrecognized option \"--" + name + "\".");
    }

    /** "-x" at the cursor. */
    method ParseShortOption(argv: seq<string>) returns (s: Status)
      requires current < |argv| && |argv[current]| >= 2
      modifies this
      ensures Outcome(values, current, s) == ParseShort(arguments, argv, old(values), old(current))
    {
      var c := argv[current][1];
      var i := 0;
      while i < |arguments|
        invariant i <= FindShort(arguments, c)
        invariant values == old(values) && current == old(current)
      {
        if arguments[i].shortOption == c {
          if arguments[i].isFlag {
            values := values[i := TRUE];
          } else {
            current := current + 1;
            if current == |argv| {
              return Thrown("Error parsing option \"-" + [c] + "\".");
            }
            values := values[i := argv[current]];
          }
          return Done;
        }
        i := i + 1;
      }
      return Thrown("Unrecognized option \"-" + [c] + "\".");
    }

    /** "-xyz" at the cursor, letter by letter. */
    method ParseShortOptions(argv: seq<string>) returns (s: Status)
      requires current < |argv| && |argv[current]| >= 1
      modifies this
      ensures Outcome(values, current, s)
           == ParseGroup(arguments, argv, old(values), old(current), old(argv[current][1..]), 0)
    {
      var opts := argv[current][1..];
      var o := 0;
      while o < |opts|
        invariant o <= |opts| && current < |argv|
        invariant ParseGroup(arguments, argv, old(values), old(current), opts, 0)
               == ParseGroup(arguments, argv, values, current, opts, o)
      {
        var i := 0;
        var found := false;
        while i < |arguments| && !found
          invariant i <= FindShort(arguments, opts[o])
          invariant current < |argv|
          invariant ParseGroup(arguments, argv, old(values), old(current), opts, 0)
                 == if found then ParseGroup(arguments, argv, values, current, opts, o + 1)
                    else ParseGroup(arguments, argv, values, current, opts, o)
          decreases |arguments| - i, !found
        {
          if arguments[i].shortOption == opts[o] {
            if arguments[i].isFlag {
              values := values[i := TRUE];
            } else if o < |opts| - 1 {
              return Thrown("Error parsing option \"-" + opts + "\".");
            } else {
              current := current + 1;
              if current == |argv| {
                return Thrown("Error parsing option \"-" + opts + "\".");
              }
              values := values[i := argv[current]];
            }
            found := true;
          } else {
            i := i + 1;
          }
        }
        if !found {
          return Thrown("Unrecognized option \"-" + [opts[o]] + "\".");
        }
        o := o + 1;
      }
      s := Done;
    }
  }
}
