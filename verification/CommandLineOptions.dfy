// What an option takes from the command line, in terms of the numbers that it
// was declared with.
module CommandLineOptions {
  import opened Options
  import opened Strings
  import opened Words
  import opened CommandLine

  // ----- Tokens ---------------------------------------------------------------

  predicate BeginsName(c: char)
  {
    c != '-' && c != '!' && c != ' ' && c != '\n'
  }

  // What a token looks like.
  lemma TokenKinds(app: App, token: string)
    ensures Recognize(app, token) == PositionalMark <==> token == "--"
    ensures Recognize(app, token) == Long <==> |token| > 2 && token[..2] == "--" && BeginsName(token[2])
    ensures Recognize(app, token) == Short <==>
      && |token| > 1 && token[0] == '-' && BeginsName(token[1])
      && ('0' <= token[1] <= '9' ==> exists o :: 0 <= o < |app.options| && app.hasShort(o, [token[1]]))
    ensures Recognize(app, token) == WindowsStyle <==> app.windowsStyle && |token| > 1 && token[0] == '/' && BeginsName(token[1])
  {
    if |token| >= 2 { assert token[..2] == [token[0], token[1]]; }
  }

  lemma FirstFind(s: string, c: char, t: string)
    requires c !in s
    ensures Find(s + [c] + t, c, 0) == |s|
  {
    var u := s + [c] + t;
    assert u[|s|] == c && forall k :: 0 <= k < |s| ==> u[k] == s[k];
  }

  // How names and values are taken apart.
  lemma LongParts(name: string, value: string)
    requires name != "" && BeginsName(name[0]) && '=' !in name
    ensures IsLong("--" + name + "=" + value) && Split(Long, "--" + name + "=" + value) == (name, value, "")
    ensures IsLong("--" + name) && Split(Long, "--" + name) == (name, "", "")
  {
    var t := "--" + name + "=" + value;
    FirstFind("--" + name, '=', value);
    assert t == ("--" + name) + ['='] + value;
    assert t[2..|name| + 2] == name && t[|name| + 3..] == value && t[2] == name[0];
    assert ("--" + name)[2..] == name && '=' !in "--" + name;
  }

  lemma ShortParts(c: char, rest: string)
    requires BeginsName(c)
    ensures IsShort("-" + [c] + rest) && Split(Short, "-" + [c] + rest) == ([c], "", rest)
  {
    var t := "-" + [c] + rest;
    assert t[1] == c && t[2..] == rest;
  }

  lemma WindowsParts(name: string, value: string)
    requires name != "" && BeginsName(name[0]) && ':' !in name
    ensures IsWindowsStyle("/" + name + ":" + value) && Split(WindowsStyle, "/" + name + ":" + value) == (name, value, "")
    ensures IsWindowsStyle("/" + name) && Split(WindowsStyle, "/" + name) == (name, "", "")
  {
    var t := "/" + name + ":" + value;
    FirstFind("/" + name, ':', value);
    assert t == ("/" + name) + [':'] + value;
    assert t[1..|name| + 1] == name && t[|name| + 2..] == value && t[1] == name[0];
    assert ("/" + name)[1..] == name && ':' !in "/" + name;
  }

  // ----- Taking arguments -----------------------------------------------------

  // The next argument but k.
  function Argument(args: seq<string>, k: nat): string
    requires k < |args|
  {
    args[|args| - 1 - k]
  }

  // The arguments from m to n as values of an option.
  function Taken(args: seq<string>, o: nat, m: nat, n: nat): (uses: seq<Use>)
    requires m <= n <= |args|
    decreases n - m
  {
    if m == n then [] else [Value(o, Argument(args, m))] + Taken(args, o, m + 1, n)
  }

  // The results that the first n give the option.
  function Pieces(app: App, o: nat, args: seq<string>, n: nat): nat
    requires n <= |args|
  {
    if n == 0 then 0 else Pieces(app, o, args, n - 1) + |app.pieces(o, Argument(args, n - 1))|
  }

  lemma {:induction false} TakenJoin(args: seq<string>, o: nat, m: nat, k: nat, n: nat)
    requires m <= k <= n <= |args|
    ensures Taken(args, o, m, k) + Taken(args, o, k, n) == Taken(args, o, m, n)
    decreases k - m
  {
    if m < k { TakenJoin(args, o, m + 1, k, n); }
  }

  // The arguments without the first m.
  function Without(args: seq<string>, m: nat): seq<string>
    requires m <= |args|
  {
    args[..|args| - m]
  }

  lemma NextArgument(args: seq<string>, m: nat)
    requires m <= |args|
    ensures Without(args, m) != [] <==> m < |args|
    ensures m < |args| ==> Last(Without(args, m)) == Argument(args, m) && Front(Without(args, m)) == Without(args, m + 1)
  {
  }

  lemma OneMoreTaken(uses: seq<Use>, args: seq<string>, o: nat, m: nat, n: nat)
    requires m < n <= |args|
    ensures uses + [Value(o, Argument(args, m))] + Taken(args, o, m + 1, n) == uses + Taken(args, o, m, n)
  {
  }

  lemma {:induction false} GatherTakes(app: App, p: Progress, o: nat, min: nat, args: seq<string>, start: nat, m: nat)
      returns (n: nat)
    requires m <= |args| && p.args == Without(args, m)
    ensures m <= n <= |args|
    ensures Gather(app, p, o, min, start + Pieces(app, o, args, m))
      == (Progress(Without(args, n), p.positionalOnly, p.uses + Taken(args, o, m, n)), start + Pieces(app, o, args, n))
    ensures forall k :: m <= k < n ==> start + Pieces(app, o, args, k) < min
    ensures n == |args| || start + Pieces(app, o, args, n) >= min
    decreases |args| - m
  {
    hide Taken, Without;
    NextArgument(args, m);
    if start + Pieces(app, o, args, m) < min && m < |args| {
      n := GatherTakes(app, Take(p, Value(o, Argument(args, m))), o, min, args, start, m + 1);
      OneMoreTaken(p.uses, args, o, m, n);
    } else {
      n := m;
      NothingTaken(p.uses, args, o, m);
    }
  }

  lemma NothingTaken(uses: seq<Use>, args: seq<string>, o: nat, m: nat)
    requires m <= |args|
    ensures uses + Taken(args, o, m, m) == uses
  {
  }

  // An optional argument is left alone if it looks like something else, if the
  // arguments that are left are reserved for others, or if its value is refused.
  predicate LeftAlone(app: App, o: nat, token: string, left: nat, reserved: nat)
  {
    || Recognize(app, token) != Positional
    || left <= reserved
    || (app.validateOptionalArguments && !app.accepts(o, token))
  }

  lemma {:induction false} GatherOptionalTakes(app: App, p: Progress, o: nat, max: nat, reserved: nat,
                                               args: seq<string>, start: nat, m: nat) returns (n: nat)
    requires o < |app.options| && m <= |args| && p.args == Without(args, m)
    ensures m <= n <= |args|
    ensures GatherOptional(app, p, o, max, reserved, start + Pieces(app, o, args, m))
      == (Progress(Without(args, n), p.positionalOnly, p.uses + Taken(args, o, m, n)), start + Pieces(app, o, args, n))
    ensures forall k :: m <= k < n ==>
      && (start + Pieces(app, o, args, k) < max || app.options[o].allowExtraArgs)
      && !LeftAlone(app, o, Argument(args, k), |args| - k, reserved)
    ensures || n == |args|
            || (start + Pieces(app, o, args, n) >= max && !app.options[o].allowExtraArgs)
            || LeftAlone(app, o, Argument(args, n), |args| - n, reserved)
    decreases |args| - m
  {
    hide Taken, LeftAlone, Without, Recognize;
    NextArgument(args, m);
    WithoutLength(args, m);
    if m < |args| { NotLeftAlone(app, o, Argument(args, m), |args| - m, reserved); }
    if (start + Pieces(app, o, args, m) < max || app.options[o].allowExtraArgs) && m < |args|
       && !LeftAlone(app, o, Argument(args, m), |args| - m, reserved) {
      n := GatherOptionalTakes(app, Take(p, Value(o, Argument(args, m))), o, max, reserved, args, start, m + 1);
      OneMoreTaken(p.uses, args, o, m, n);
    } else {
      n := m;
      NothingTaken(p.uses, args, o, m);
    }
  }

  lemma WithoutLength(args: seq<string>, m: nat)
    requires m <= |args|
    ensures |Without(args, m)| == |args| - m
  {
  }

  lemma NotLeftAlone(app: App, o: nat, token: string, left: nat, reserved: nat)
    ensures LeftAlone(app, o, token, left, reserved)
      <==> !(Recognize(app, token) == Positional && reserved < left && (app.validateOptionalArguments ==> app.accepts(o, token)))
  {
  }

  // ----- How many arguments ---------------------------------------------------

  const CONTAINER_SIZE := 0x200_0000
  const VECTOR_SIZE := 0x2000_0000

  // The most results that an option takes from one naming, if it does not allow
  // any number. Containers are limited to one of their values.
  function Most(spec: OptionSpec): nat
  {
    var all, least := spec.typeSizeMax * spec.expectedMax, spec.typeSizeMax * spec.expectedMin;
    if all < CONTAINER_SIZE then all
    else if spec.allowExtraArgs then (if all > INT_MAX then VECTOR_SIZE else all)
    else (if least > INT_MAX then VECTOR_SIZE else least)
  }

  // The fewest results that it needs.
  function Fewest(spec: OptionSpec): nat
  {
    if spec.expectedMin == 0 then 0 else spec.typeSizeMin
  }

  lemma Limits(spec: OptionSpec)
    ensures MaxNum(spec) == Most(spec) && MinNum(spec) == Fewest(spec)
  {
    if spec.expectedMin > 0 { Times(spec.typeSizeMin, spec.expectedMin); }
  }

  lemma Times(a: nat, b: nat)
    requires b > 0
    ensures a * b >= a
  {
    assert a * b == a * (b - 1) + a;
    assert a * (b - 1) >= 0;
  }

  lemma MostIsBelowProduct(spec: OptionSpec)
    requires spec.expectedMin <= spec.expectedMax
    ensures Most(spec) <= spec.typeSizeMax * spec.expectedMax
  {
    var d := spec.expectedMax - spec.expectedMin;
    assert spec.typeSizeMax * spec.expectedMax == spec.typeSizeMax * spec.expectedMin + spec.typeSizeMax * d;
    assert spec.typeSizeMax * d >= 0;
  }

  // ----- A named option -------------------------------------------------------

  // The arguments m that the option needs and those it takes beyond, n in all.
  ghost predicate Takes(app: App, o: nat, args: seq<string>, start: nat, reserved: nat, m: nat, n: nat)
    requires o < |app.options|
  {
    var spec := app.options[o];
    && m <= n <= |args|
    && (forall k :: 0 <= k < m ==> start + Pieces(app, o, args, k) < Fewest(spec))
    && start + Pieces(app, o, args, m) >= Fewest(spec)
    && (forall k :: m <= k < n ==>
          && (start + Pieces(app, o, args, k) < Most(spec) || spec.allowExtraArgs)
          && !LeftAlone(app, o, Argument(args, k), |args| - k, reserved))
    && (|| n == |args|
        || (start + Pieces(app, o, args, n) >= Most(spec) && !spec.allowExtraArgs)
        || LeftAlone(app, o, Argument(args, n), |args| - n, reserved))
  }

  // A list of arguments is ended by a mark that is not looked at again.
  predicate Marked(app: App, o: nat, args: seq<string>, start: nat, m: nat, n: nat)
    requires o < |app.options| && m <= n <= |args|
  {
    && (start + Pieces(app, o, args, m) < Most(app.options[o]) || app.options[o].allowExtraArgs)
    && n < |args| && Argument(args, n) == "--"
  }

  // An option that may do without arguments got none.
  predicate Bare(spec: OptionSpec, count: nat)
  {
    Fewest(spec) == 0 && Most(spec) > 0 && count == 0
  }

  // The last value of an option is not complete.
  predicate Cut(spec: OptionSpec, count: nat)
  {
    Fewest(spec) > 0 && spec.typeSizeMax > 0 && count % spec.typeSizeMax != 0
  }

  function Unmarked(p: Progress): Progress
  {
    if p.args != [] && Last(p.args) == "--" then Take(p, Swallowed) else p
  }

  function WithoutArguments(app: App, p: Progress, o: nat, name: string): Outcome
  {
    match app.flagValue(o, name, "")
    case Some(text) => Done(Log(p, Filled(o, text, true)))
    case None => Failed(FlagOverride(o))
  }

  lemma SwallowIsMark(app: App, p: Progress)
    ensures Swallow(app, p) == Unmarked(p)
  {
  }

  lemma OptionalGathered(app: App, p: Progress, o: nat, name: string, enough: nat, q: Progress, total: nat)
    requires o < |app.options| && (enough < Most(app.options[o]) || app.options[o].allowExtraArgs)
    requires GatherOptional(app, p, o, Most(app.options[o]), Remaining(app, p.uses, true, |app.options|), enough) == (q, total)
    ensures ParseOptional(app, p, o, name, enough)
      == (if Bare(app.options[o], total) then WithoutArguments(app, Unmarked(q), o, name) else Done(Unmarked(q)), total)
  {
    hide MaxNum, MinNum, Most, Fewest, GatherOptional, Remaining, Swallow, Unmarked;
    Limits(app.options[o]);
    SwallowIsMark(app, q);
  }

  lemma OptionalSkipped(app: App, p: Progress, o: nat, name: string, enough: nat)
    requires o < |app.options| && enough >= Most(app.options[o]) && !app.options[o].allowExtraArgs
    ensures ParseOptional(app, p, o, name, enough) == (Done(p), enough) && !Bare(app.options[o], enough)
  {
    hide MaxNum, MinNum, Most, Fewest, GatherOptional, Remaining, Swallow;
    Limits(app.options[o]);
  }

  // After taking the arguments from m to n, and the mark behind them.
  function Gathered(p: Progress, args: seq<string>, o: nat, m: nat, n: nat, mark: bool): Progress
    requires m <= n <= |args| && (mark ==> n < |args|)
  {
    Progress(Without(args, if mark then n + 1 else n), p.positionalOnly,
             p.uses + Taken(args, o, m, n) + if mark then [Swallowed] else [])
  }

  lemma UnmarkedIsGathered(p: Progress, args: seq<string>, o: nat, m: nat, n: nat)
    requires m <= n <= |args|
    ensures Unmarked(Progress(Without(args, n), p.positionalOnly, p.uses + Taken(args, o, m, n)))
      == Gathered(p, args, o, m, n, n < |args| && Argument(args, n) == "--")
  {
    hide Taken, Without, Argument;
    NextArgument(args, n);
    NoMoreUses(p.uses + Taken(args, o, m, n));
  }

  lemma NothingGathered(p: Progress, args: seq<string>, o: nat, m: nat)
    requires m <= |args| && p.args == Without(args, m)
    ensures Gathered(p, args, o, m, m, false) == p
  {
    hide Taken, Without;
    NothingTaken(p.uses, args, o, m);
    NoMoreUses(p.uses);
  }

  // The arguments taken beyond those needed.
  lemma OptionalTakes(app: App, p: Progress, o: nat, name: string, args: seq<string>, start: nat, m: nat)
      returns (n: nat, q: Progress)
    requires o < |app.options| && m <= |args| && p.args == Without(args, m)
    requires forall k :: 0 <= k < m ==> start + Pieces(app, o, args, k) < Fewest(app.options[o])
    requires start + Pieces(app, o, args, m) >= Fewest(app.options[o])
    ensures Takes(app, o, args, start, Remaining(app, p.uses, true, |app.options|), m, n)
    ensures m <= n <= |args| && (Marked(app, o, args, start, m, n) ==> n < |args|)
    ensures q == Gathered(p, args, o, m, n, Marked(app, o, args, start, m, n))
    ensures var total := start + Pieces(app, o, args, n);
      ParseOptional(app, p, o, name, start + Pieces(app, o, args, m))
      == (if Bare(app.options[o], total) then WithoutArguments(app, q, o, name) else Done(q), total)
  {
    hide Taken, LeftAlone, Most, Fewest, GatherOptional, Remaining, Without, ParseOptional, Bare, WithoutArguments, Unmarked, Gathered, Pieces, Argument;
    var spec, reserved := app.options[o], Remaining(app, p.uses, true, |app.options|);
    var enough := start + Pieces(app, o, args, m);
    if enough < Most(spec) || spec.allowExtraArgs {
      n := GatherOptionalTakes(app, p, o, Most(spec), reserved, args, start, m);
      var r := Progress(Without(args, n), p.positionalOnly, p.uses + Taken(args, o, m, n));
      OptionalGathered(app, p, o, name, enough, r, start + Pieces(app, o, args, n));
      UnmarkedIsGathered(p, args, o, m, n);
      q := Unmarked(r);
    } else {
      n, q := m, p;
      NothingGathered(p, args, o, m);
      OptionalSkipped(app, p, o, name, enough);
    }
  }

  lemma NoMoreUses(uses: seq<Use>)
    ensures uses + [] == uses
  {
  }

  lemma {:induction false} PiecesGrow(app: App, o: nat, args: seq<string>, m: nat, n: nat)
    requires m <= n <= |args|
    ensures Pieces(app, o, args, m) <= Pieces(app, o, args, n)
  {
    if m < n { PiecesGrow(app, o, args, m, n - 1); }
  }

  // The text that comes with the name.
  function Text(app: App, o: nat, name: string, value: string, rest: string): Option<string>
    requires o < |app.options|
  {
    if Most(app.options[o]) == 0 then app.flagValue(o, name, value)
    else if value != "" then Some(value)
    else if rest != "" then Some(rest)
    else None
  }

  // A flag refuses its value.
  predicate Refused(app: App, o: nat, name: string, value: string)
    requires o < |app.options|
  {
    Most(app.options[o]) == 0 && app.flagValue(o, name, value) == None
  }

  // The results that the text gives an option with arguments.
  function Start(app: App, o: nat, text: Option<string>): nat
    requires o < |app.options|
  {
    if Most(app.options[o]) == 0 || text == None then 0 else |app.pieces(o, text.value)|
  }

  // The rest of a bundle after a flag.
  function Left(spec: OptionSpec, rest: string): string
  {
    if Most(spec) == 0 then rest else ""
  }

  // The end of an option: the last value is filled up if it may be incomplete,
  // and the rest of a bundle becomes the next argument.
  function Ended(app: App, p: Progress, o: nat, count: nat, left: string): Outcome
    requires o < |app.options|
  {
    var spec := app.options[o];
    if Cut(spec, count) && spec.typeSizeMin == spec.typeSizeMax then Failed(PartialType(o)) else
      Done(Progress(p.args + (if left == "" then [] else ["-" + left]), p.positionalOnly,
                    p.uses + (if Cut(spec, count) then [Filled(o, "", false)] else [])
                    + (if left == "" then [] else [PushedBack(left)])))
  }

  lemma EndIsEnded(app: App, p: Progress, o: nat, count: nat, left: string)
    requires o < |app.options|
    ensures ParseEnd(app, p, o, count, left) == Ended(app, p, o, count, left)
  {
    hide MaxNum, MinNum, Most, Fewest;
    Limits(app.options[o]);
    NoMoreUses(p.uses);
    NoMoreUses(p.uses + [Filled(o, "", false)]);
    assert p.args + [] == p.args;
  }

  // The option is named, and its separator set.
  function Begun(app: App, p: Progress, o: nat, text: Option<string>, left: string): Progress
    requires p.args != [] && o < |app.options|
  {
    Progress(Front(p.args), p.positionalOnly, Separated(app, p, o).uses + [Named(o, Last(p.args), text, left)])
  }

  lemma BeginOption(app: App, p: Progress, kind: Classifier, o: nat)
    requires p.args != [] && o < |app.options|
    requires kind == Short ==> IsShort(Last(p.args))
    requires kind == Long ==> IsLong(Last(p.args))
    requires kind == WindowsStyle ==> IsWindowsStyle(Last(p.args))
    ensures var (name, value, rest) := Split(kind, Last(p.args));
      var text, left := Text(app, o, name, value, rest), Left(app.options[o], rest);
      var (q, enough) := Gather(app, Begun(app, p, o, text, left), o, Fewest(app.options[o]), Start(app, o, text));
      ParseOption(app, p, kind, o)
      == (if Refused(app, o, name, value) then Failed(FlagOverride(o))
          else if enough < Fewest(app.options[o]) then Failed(TypedAtLeast(o))
          else AfterGather(app, q, o, name, enough, left))
  {
    hide MaxNum, MinNum, Most, Fewest, Gather, ParseOptional, ParseEnd, Split, Results;
    Limits(app.options[o]);
  }

  function AfterGather(app: App, q: Progress, o: nat, name: string, enough: nat, left: string): Outcome
    requires o < |app.options|
  {
    match ParseOptional(app, q, o, name, enough)
    case (Done(r), total) => ParseEnd(app, r, o, total, left)
    case (failed, _) => failed
  }

  lemma NoneLeftOut(app: App, o: nat, args: seq<string>)
    ensures Without(args, 0) == args && Pieces(app, o, args, 0) == 0
  {
  }

  // An option fails before its optional arguments if it refuses its value, or if
  // all arguments that are left do not give it enough.
  lemma OptionRefuses(app: App, p: Progress, kind: Classifier, o: nat)
    requires p.args != [] && o < |app.options|
    requires kind == Short ==> IsShort(Last(p.args))
    requires kind == Long ==> IsLong(Last(p.args))
    requires kind == WindowsStyle ==> IsWindowsStyle(Last(p.args))
    ensures var (name, value, rest) := Split(kind, Last(p.args));
      var below, text := Front(p.args), Text(app, o, name, value, rest);
      var r := ParseOption(app, p, kind, o);
      && (Refused(app, o, name, value) ==> r == Failed(FlagOverride(o)))
      && (!Refused(app, o, name, value) && Start(app, o, text) + Pieces(app, o, below, |below|) < Fewest(app.options[o])
          ==> r == Failed(TypedAtLeast(o)))
  {
    hide Most, Fewest, Gather, ParseOption, AfterGather, Split, Results, Separated, Text, Start, Left, Refused, Taken;
    BeginOption(app, p, kind, o);
    var (name, value, rest) := Split(kind, Last(p.args));
    var below, text := Front(p.args), Text(app, o, name, value, rest);
    NoneLeftOut(app, o, below);
    var n := GatherTakes(app, Begun(app, p, o, text, Left(app.options[o], rest)), o, Fewest(app.options[o]), below,
                         Start(app, o, text), 0);
    PiecesGrow(app, o, below, n, |below|);
  }

  // Otherwise it takes the arguments that it needs and as many more as it may.
  lemma OptionTakes(app: App, p: Progress, kind: Classifier, o: nat) returns (m: nat, n: nat)
    requires p.args != [] && o < |app.options|
    requires kind == Short ==> IsShort(Last(p.args))
    requires kind == Long ==> IsLong(Last(p.args))
    requires kind == WindowsStyle ==> IsWindowsStyle(Last(p.args))
    requires var (name, value, rest) := Split(kind, Last(p.args));
      && !Refused(app, o, name, value)
      && Start(app, o, Text(app, o, name, value, rest)) + Pieces(app, o, Front(p.args), |p.args| - 1) >= Fewest(app.options[o])
    ensures var (name, value, rest) := Split(kind, Last(p.args));
      var below, text, left := Front(p.args), Text(app, o, name, value, rest), Left(app.options[o], rest);
      var begun, start := Begun(app, p, o, text, left), Start(app, o, text);
      && m <= |below|
      && Takes(app, o, below, start, Remaining(app, begun.uses + Taken(below, o, 0, m), true, |app.options|), m, n)
      && ParseOption(app, p, kind, o)
         == Finished(app, Gathered(begun, below, o, 0, n, Marked(app, o, below, start, m, n)), o, name,
                     start + Pieces(app, o, below, n), left)
  {
    hide Most, Fewest, Gather, ParseOption, Split, Results, Separated, Text, Start, Left, Refused, Taken, Takes, Marked,
      ParseOptional, ParseEnd, Ended, Bare, Begun, WithoutArguments, Pieces, Argument, Gathered, Finished, AfterGather;
    BeginOption(app, p, kind, o);
    var (name, value, rest) := Split(kind, Last(p.args));
    var below, text, left := Front(p.args), Text(app, o, name, value, rest), Left(app.options[o], rest);
    var begun, start := Begun(app, p, o, text, left), Start(app, o, text);
    NoneLeftOut(app, o, below);
    BegunArgs(app, p, o, text, left);
    m := GatherTakes(app, begun, o, Fewest(app.options[o]), below, start, 0);
    var q0 := Progress(Without(below, m), begun.positionalOnly, begun.uses + Taken(below, o, 0, m));
    var q;
    n, q := OptionalTakes(app, q0, o, name, below, start, m);
    JoinGathered(begun, below, o, m, n, Marked(app, o, below, start, m, n));
    AfterIsFinished(app, q0, o, name, start + Pieces(app, o, below, m), q, start + Pieces(app, o, below, n), left);
  }

  lemma JoinGathered(p: Progress, args: seq<string>, o: nat, m: nat, n: nat, mark: bool)
    requires m <= n <= |args| && (mark ==> n < |args|)
    ensures Gathered(Progress(Without(args, m), p.positionalOnly, p.uses + Taken(args, o, 0, m)), args, o, m, n, mark)
      == Gathered(p, args, o, 0, n, mark)
  {
    hide Taken, Without;
    TakenJoin(args, o, 0, m, n);
    assert p.uses + Taken(args, o, 0, m) + Taken(args, o, m, n) == p.uses + (Taken(args, o, 0, m) + Taken(args, o, m, n));
  }

  lemma AfterIsFinished(app: App, p: Progress, o: nat, name: string, enough: nat, q: Progress, total: nat, left: string)
    requires o < |app.options|
    requires ParseOptional(app, p, o, name, enough)
      == (if Bare(app.options[o], total) then WithoutArguments(app, q, o, name) else Done(q), total)
    ensures AfterGather(app, p, o, name, enough, left) == Finished(app, q, o, name, total, left)
  {
    hide ParseOptional, ParseEnd, Ended, Bare;
    var r := ParseOptional(app, p, o, name, enough).0;
    if r.Done? { EndIsEnded(app, r.progress, o, total, left); }
  }

  lemma BegunArgs(app: App, p: Progress, o: nat, text: Option<string>, left: string)
    requires p.args != [] && o < |app.options|
    ensures Begun(app, p, o, text, left).args == Front(p.args)
  {
  }

  function Finished(app: App, q: Progress, o: nat, name: string, count: nat, left: string): Outcome
    requires o < |app.options|
  {
    match if Bare(app.options[o], count) then WithoutArguments(app, q, o, name) else Done(q)
    case Done(r) => Ended(app, r, o, count, left)
    case failed => failed
  }

  // What an option does at its end takes no arguments.
  lemma FinishedParts(app: App, q: Progress, o: nat, name: string, count: nat, left: string)
    requires o < |app.options|
    ensures var r := Finished(app, q, o, name, count, left);
      r.Done? ==>
        && r.progress.args == q.args + (if left == "" then [] else ["-" + left])
        && r.progress.positionalOnly == q.positionalOnly
        && |q.uses| <= |r.progress.uses| && r.progress.uses[..|q.uses|] == q.uses
        && forall k :: |q.uses| <= k < |r.progress.uses| ==> !r.progress.uses[k].Value?
  {
    hide Most, Fewest;
  }

  lemma {:induction false} TakenAt(args: seq<string>, o: nat, m: nat, n: nat, k: nat)
    requires m <= n <= |args| && m <= k
    ensures |Taken(args, o, m, n)| == n - m
    ensures k < n ==> Taken(args, o, m, n)[k - m] == Value(o, Argument(args, k))
    decreases n - m
  {
    hide Argument;
    if m < n { TakenAt(args, o, m + 1, n, if k == m then m + 1 else k); }
  }

  // The log of an option that takes n arguments.
  predicate TakesExactly(uses: seq<Use>, args: seq<string>, o: nat, n: nat, all: seq<Use>)
  {
    && n <= |args| && |uses| + n <= |all|
    && all[..|uses|] == uses
    && (forall k :: |uses| <= k < |uses| + n ==> all[k] == Value(o, args[|args| - 1 - (k - |uses|)]))
    && (forall k :: |uses| + n <= k < |all| ==> !all[k].Value?)
  }

  // The arguments that are left, and the rest of a bundle.
  predicate Leaves(args: seq<string>, n: nat, left: string, rest: seq<string>)
    requires n <= |args|
  {
    var pushed := if left == "" then [] else ["-" + left];
    || rest == args[..|args| - n] + pushed
    || (n < |args| && args[|args| - 1 - n] == "--" && rest == args[..|args| - n - 1] + pushed)
  }

  lemma GatheredParts(p: Progress, args: seq<string>, o: nat, n: nat, mark: bool)
    requires n <= |args| && (mark ==> n < |args| && args[|args| - 1 - n] == "--")
    ensures var q := Gathered(p, args, o, 0, n, mark);
      && TakesExactly(p.uses, args, o, n, q.uses) && Leaves(args, n, "", q.args) && q.positionalOnly == p.positionalOnly
  {
    hide Taken;
    TakenAt(args, o, 0, n, 0);
    forall k | 0 <= k < n
      ensures Taken(args, o, 0, n)[k] == Value(o, args[|args| - 1 - k])
    {
      TakenAt(args, o, 0, n, k);
    }
  }

  lemma PartsTogether(uses: seq<Use>, args: seq<string>, o: nat, n: nat, q: Progress, r: Progress, left: string)
    requires TakesExactly(uses, args, o, n, q.uses) && Leaves(args, n, "", q.args)
    requires r.args == q.args + (if left == "" then [] else ["-" + left])
    requires |q.uses| <= |r.uses| && r.uses[..|q.uses|] == q.uses
    requires forall k :: |q.uses| <= k < |r.uses| ==> !r.uses[k].Value?
    ensures TakesExactly(uses, args, o, n, r.uses) && Leaves(args, n, left, r.args)
  {
    assert forall k :: 0 <= k < |q.uses| ==> q.uses[k] == r.uses[k];
    assert q.uses[..|uses|] == r.uses[..|uses|];
  }

  // The limits of an option are those that it was declared with: without extra
  // arguments it takes one only as long as it has less than the most results,
  // it has enough in the end, and there is a reason why it takes no more.
  lemma ArgumentsTaken(app: App, p: Progress, kind: Classifier, o: nat) returns (m: nat, n: nat)
    requires p.args != [] && o < |app.options|
    requires kind == Short ==> IsShort(Last(p.args))
    requires kind == Long ==> IsLong(Last(p.args))
    requires kind == WindowsStyle ==> IsWindowsStyle(Last(p.args))
    requires ParseOption(app, p, kind, o).Done?
    ensures var spec, below, q := app.options[o], p.args[..|p.args| - 1], ParseOption(app, p, kind, o).progress;
      var (name, value, rest) := Split(kind, Last(p.args));
      var text, left := Text(app, o, name, value, rest), Left(spec, rest);
      var begun, start := Begun(app, p, o, text, left), Start(app, o, text);
      && m <= n && TakesExactly(begun.uses, below, o, n, q.uses) && Leaves(below, n, left, q.args)
      && (spec.expectedMin > 0 ==> start + Pieces(app, o, below, n) >= spec.typeSizeMin)
      && (!spec.allowExtraArgs && spec.typeSizeMin <= spec.typeSizeMax && spec.expectedMin <= spec.expectedMax ==>
            forall k :: 0 <= k < n ==> start + Pieces(app, o, below, k) < spec.typeSizeMax * spec.expectedMax)
      && (|| n == |below|
          || (start + Pieces(app, o, below, n) >= Most(spec) && !spec.allowExtraArgs)
          || Recognize(app, Argument(below, n)) != Positional
          || |below| - n <= Remaining(app, begun.uses + Taken(below, o, 0, m), true, |app.options|)
          || (app.validateOptionalArguments && !app.accepts(o, Argument(below, n))))
  {
    hide Most, Fewest, Gather, ParseOption, Split, Results, Separated, Text, Start, Left, Refused, Taken, Marked,
      Ended, Bare, Begun, WithoutArguments, Pieces, Finished, Gathered, TakesExactly, Leaves, Recognize, Remaining, Takes;
    OptionRefuses(app, p, kind, o);
    m, n := OptionTakes(app, p, kind, o);
    var spec, below := app.options[o], Front(p.args);
    var (name, value, rest) := Split(kind, Last(p.args));
    var text, left := Text(app, o, name, value, rest), Left(spec, rest);
    var begun, start := Begun(app, p, o, text, left), Start(app, o, text);
    var reserved := Remaining(app, begun.uses + Taken(below, o, 0, m), true, |app.options|);
    TakesWithinLimits(app, o, below, start, reserved, m, n);
    MarkedEnds(app, o, below, start, m, n);
    GatheredParts(begun, below, o, n, Marked(app, o, below, start, m, n));
    var q := Gathered(begun, below, o, 0, n, Marked(app, o, below, start, m, n));
    FinishedParts(app, q, o, name, start + Pieces(app, o, below, n), left);
    PartsTogether(begun.uses, below, o, n, q, ParseOption(app, p, kind, o).progress, left);
  }

  lemma MarkedEnds(app: App, o: nat, args: seq<string>, start: nat, m: nat, n: nat)
    requires o < |app.options| && m <= n <= |args|
    ensures Marked(app, o, args, start, m, n) ==> n < |args| && args[|args| - 1 - n] == "--"
  {
  }

  lemma TakesWithinLimits(app: App, o: nat, args: seq<string>, start: nat, reserved: nat, m: nat, n: nat)
    requires o < |app.options| && Takes(app, o, args, start, reserved, m, n)
    ensures var spec := app.options[o];
      && m <= n <= |args|
      && (spec.expectedMin > 0 ==> start + Pieces(app, o, args, n) >= spec.typeSizeMin)
      && (!spec.allowExtraArgs && spec.typeSizeMin <= spec.typeSizeMax && spec.expectedMin <= spec.expectedMax ==>
            forall k :: 0 <= k < n ==> start + Pieces(app, o, args, k) < spec.typeSizeMax * spec.expectedMax)
      && (|| n == |args|
          || (start + Pieces(app, o, args, n) >= Most(spec) && !spec.allowExtraArgs)
          || Recognize(app, Argument(args, n)) != Positional
          || |args| - n <= reserved
          || (app.validateOptionalArguments && !app.accepts(o, Argument(args, n))))
  {
    hide Most, Pieces, Recognize;
    var spec := app.options[o];
    PiecesGrow(app, o, args, m, n);
    if spec.expectedMin <= spec.expectedMax {
      MostIsBelowProduct(spec);
      if spec.typeSizeMin <= spec.typeSizeMax && spec.expectedMin > 0 { Times(spec.typeSizeMax, spec.expectedMax); }
    }
  }

  // ----- An option with exactly one argument ----------------------------------

  // Declared with one value, which every text that it accepts is.
  ghost predicate TakesOne(app: App, o: nat)
    requires o < |app.options|
  {
    var spec := app.options[o];
    && spec.typeSizeMin == spec.typeSizeMax == spec.expectedMin == spec.expectedMax == 1
    && !spec.allowExtraArgs
    && forall text :: |app.pieces(o, text)| == 1
  }

  // It takes the text that comes with its name or else the next argument, and
  // nothing else.
  lemma OneArgument(app: App, p: Progress, kind: Classifier, o: nat)
    requires p.args != [] && o < |app.options| && TakesOne(app, o)
    requires kind == Short ==> IsShort(Last(p.args))
    requires kind == Long ==> IsLong(Last(p.args))
    requires kind == WindowsStyle ==> IsWindowsStyle(Last(p.args))
    ensures var (name, value, rest) := Split(kind, Last(p.args));
      var token, below, uses := Last(p.args), p.args[..|p.args| - 1], Separated(app, p, o).uses;
      var text := if value != "" then value else rest;
      ParseOption(app, p, kind, o)
      == (if text != "" then Done(Progress(below, p.positionalOnly, uses + [Named(o, token, Some(text), "")]))
          else if below == [] then Failed(TypedAtLeast(o))
          else Done(Progress(below[..|below| - 1], p.positionalOnly,
                             uses + [Named(o, token, None, ""), Value(o, below[|below| - 1])])))
  {
    hide Split, Results, Separated, Gather;
    var spec, token, below := app.options[o], Last(p.args), Front(p.args);
    var (name, value, rest) := Split(kind, token);
    var text := Text(app, o, name, value, rest);
    BeginOption(app, p, kind, o);
    var begun := Begun(app, p, o, text, "");
    GatherOne(app, begun, o, Start(app, o, text));
    var uses := Separated(app, p, o).uses;
    if below != [] { assert uses + [Named(o, token, None, "")] + [Value(o, Last(below))] == uses + [Named(o, token, None, ""), Value(o, Last(below))]; }
  }

  lemma GatherOne(app: App, p: Progress, o: nat, count: nat)
    requires o < |app.options| && TakesOne(app, o) && count <= 1
    ensures Gather(app, p, o, 1, count)
      == if count == 1 || p.args == [] then (p, count) else (Take(p, Value(o, Last(p.args))), 1)
  {
  }

  // The option has a long name, a short one, or either for the style of Windows.
  predicate HasName(app: App, kind: Classifier, name: string, o: nat)
  {
    || (kind != Short && app.hasLong(o, name))
    || (kind != Long && app.hasShort(o, name))
  }

  // The first option that goes by a name.
  predicate IsNamed(app: App, kind: Classifier, name: string, o: nat)
  {
    o < |app.options| && HasName(app, kind, name, o) && forall k :: 0 <= k < o ==> !HasName(app, kind, name, k)
  }

  // A token that looks like an option is for the first one with its name, and is
  // missing if there is none.
  lemma NamedStep(app: App, p: Progress, kind: Classifier, o: nat)
    requires p.args != [] && !p.positionalOnly
    requires kind != Positional && kind != PositionalMark && Recognize(app, Last(p.args)) == kind
    ensures IsNamed(app, kind, Split(kind, Last(p.args)).0, o) ==> ParseSingle(app, p) == ParseOption(app, p, kind, o)
    ensures (forall k :: 0 <= k < |app.options| ==> !HasName(app, kind, Split(kind, Last(p.args)).0, k)) ==>
      ParseSingle(app, p) == Done(Progress(p.args[..|p.args| - 1], false, p.uses + [Missing(kind, Last(p.args))]))
  {
    hide ParseOption, Find, Recognize;
    var name := Split(kind, Last(p.args)).0;
    assert forall k: nat :: (GoesBy(app, kind, name, k) <==> HasName(app, kind, name, k));
    var found := FindOption(app, kind, name);
    if IsNamed(app, kind, name, o) { assert GoesBy(app, kind, name, o); }
  }

  // The option got the text, and no other option anything.
  ghost predicate Got(app: App, below: seq<string>, uses: seq<Use>, o: nat, text: string, r: Outcome)
    requires o < |app.options|
  {
    var before := Results(app, uses, o);
    var separator := app.options[o].injectSeparator && before != [] && before[|before| - 1] != "";
    && r.Done? && r.progress.args == below && !r.progress.positionalOnly
    && Results(app, r.progress.uses, o) == before + (if separator then app.pieces(o, "") else []) + app.pieces(o, text)
    && (forall k {:trigger Results(app, r.progress.uses, k)} :: k != o ==> Results(app, r.progress.uses, k) == Results(app, uses, k))
    && ParseOrder(r.progress.uses) == ParseOrder(uses) + [o]
    && MissingIn(r.progress.uses) == MissingIn(uses)
  }

  lemma SeparatedGives(app: App, p: Progress, o: nat)
    requires o < |app.options|
    ensures var before, after := Results(app, p.uses, o), Separated(app, p, o).uses;
      var separator := app.options[o].injectSeparator && before != [] && before[|before| - 1] != "";
      && Results(app, after, o) == before + (if separator then app.pieces(o, "") else [])
      && (forall k {:trigger Results(app, after, k)} :: k != o ==> Results(app, after, k) == Results(app, p.uses, k))
      && ParseOrder(after) == ParseOrder(p.uses) && MissingIn(after) == MissingIn(p.uses)
  {
    hide Results, ParseOrder, MissingIn;
    OneMoreUse(app, p.uses, Filled(o, "", false));
  }

  lemma OneNamed(app: App, below: seq<string>, p: Progress, o: nat, token: string, text: string)
    requires o < |app.options| && !p.positionalOnly
    ensures Got(app, below, p.uses, o, text,
                Done(Progress(below, p.positionalOnly, Separated(app, p, o).uses + [Named(o, token, Some(text), "")])))
    ensures Got(app, below, p.uses, o, text,
                Done(Progress(below, p.positionalOnly, Separated(app, p, o).uses + [Named(o, token, None, ""), Value(o, text)])))
  {
    hide Results, Separated, ParseOrder, MissingIn;
    SeparatedGives(app, p, o);
    var uses := Separated(app, p, o).uses;
    OneMoreUse(app, uses, Named(o, token, Some(text), ""));
    OneMoreUse(app, uses, Named(o, token, None, ""));
    OneMoreUse(app, uses + [Named(o, token, None, "")], Value(o, text));
    assert uses + [Named(o, token, None, "")] + [Value(o, text)] == uses + [Named(o, token, None, ""), Value(o, text)];
  }

  // Whichever way its argument is given, the option gets it, and the arguments
  // that follow are left.
  lemma LongSpellings(app: App, below: seq<string>, uses: seq<Use>, o: nat, name: string, text: string)
    requires IsNamed(app, Long, name, o) && TakesOne(app, o)
    requires name != "" && BeginsName(name[0]) && '=' !in name
    ensures text != "" ==> Got(app, below, uses, o, text, ParseSingle(app, Progress(below + ["--" + name + "=" + text], false, uses)))
    ensures Got(app, below, uses, o, text, ParseSingle(app, Progress(below + [text, "--" + name], false, uses)))
  {
    hide ParseSingle, ParseOption, Got, Separated, IsLong, Split, TakesOne, IsNamed;
    LongParts(name, text);
    if text != "" { GivenWith(app, below, uses, Long, o, "--" + name + "=" + text, text); }
    GivenNext(app, below, uses, Long, o, "--" + name, text);
  }

  lemma ShortSpellings(app: App, below: seq<string>, uses: seq<Use>, o: nat, c: char, text: string)
    requires IsNamed(app, Short, [c], o) && TakesOne(app, o) && BeginsName(c)
    ensures text != "" ==> Got(app, below, uses, o, text, ParseSingle(app, Progress(below + ["-" + [c] + text], false, uses)))
    ensures Got(app, below, uses, o, text, ParseSingle(app, Progress(below + [text, "-" + [c]], false, uses)))
  {
    hide ParseSingle, ParseOption, Got, Separated, Split, TakesOne, IsNamed;
    ShortParts(c, text);
    ShortParts(c, "");
    assert "-" + [c] + "" == "-" + [c];
    if text != "" { GivenWith(app, below, uses, Short, o, "-" + [c] + text, text); }
    GivenNext(app, below, uses, Short, o, "-" + [c], text);
  }

  lemma NamedToken(app: App, token: string, kind: Classifier, o: nat)
    requires (kind == Long && IsLong(token)) || (kind == Short && IsShort(token) && token[1] != '-')
    requires IsNamed(app, kind, Split(kind, token).0, o)
    ensures Recognize(app, token) == kind
  {
    hide Find;
    TokenKinds(app, token);
  }

  lemma GivenWith(app: App, below: seq<string>, uses: seq<Use>, kind: Classifier, o: nat, token: string, text: string)
    requires (kind == Long && IsLong(token)) || (kind == Short && IsShort(token) && token[1] != '-')
    requires IsNamed(app, kind, Split(kind, token).0, o) && TakesOne(app, o) && text != ""
    requires var (_, value, rest) := Split(kind, token); text == if value != "" then value else rest
    ensures Got(app, below, uses, o, text, ParseSingle(app, Progress(below + [token], false, uses)))
  {
    hide ParseSingle, ParseOption, Got, Separated, Split, TakesOne;
    var p := Progress(below + [token], false, uses);
    assert p.args[..|p.args| - 1] == below;
    NamedToken(app, token, kind, o);
    NamedStep(app, p, kind, o);
    OneArgument(app, p, kind, o);
    OneNamed(app, below, p, o, token, text);
  }

  lemma GivenNext(app: App, below: seq<string>, uses: seq<Use>, kind: Classifier, o: nat, token: string, text: string)
    requires (kind == Long && IsLong(token)) || (kind == Short && IsShort(token) && token[1] != '-')
    requires IsNamed(app, kind, Split(kind, token).0, o) && TakesOne(app, o)
    requires var (_, value, rest) := Split(kind, token); value == rest == ""
    ensures Got(app, below, uses, o, text, ParseSingle(app, Progress(below + [text, token], false, uses)))
  {
    hide ParseSingle, ParseOption, Got, Separated, Split, TakesOne;
    var p := Progress(below + [text, token], false, uses);
    assert p.args[..|p.args| - 1] == below + [text];
    assert (below + [text])[..|below|] == below;
    NamedToken(app, token, kind, o);
    NamedStep(app, p, kind, o);
    OneArgument(app, p, kind, o);
    OneNamed(app, below, p, o, token, text);
  }

  // ----- Flags ----------------------------------------------------------------

  // A flag takes no argument; what it gets depends on its name and the value
  // with it, and the rest of a bundle comes next.
  lemma FlagTakesNone(app: App, p: Progress, kind: Classifier, o: nat)
    requires p.args != [] && o < |app.options|
    requires kind == Short ==> IsShort(Last(p.args))
    requires kind == Long ==> IsLong(Last(p.args))
    requires kind == WindowsStyle ==> IsWindowsStyle(Last(p.args))
    requires app.options[o].typeSizeMin == app.options[o].typeSizeMax == 0 && !app.options[o].allowExtraArgs
    ensures var (name, value, rest) := Split(kind, Last(p.args));
      var below, text := p.args[..|p.args| - 1], app.flagValue(o, name, value);
      var uses := Separated(app, p, o).uses + [Named(o, Last(p.args), text, rest)];
      ParseOption(app, p, kind, o)
      == (if text == None then Failed(FlagOverride(o))
          else if rest == "" then Done(Progress(below, p.positionalOnly, uses))
          else Done(Progress(below + ["-" + rest], p.positionalOnly, uses + [PushedBack(rest)])))
  {
    hide Split, Results, Separated, ParseOptional, Recognize;
    var spec := app.options[o];
    var (name, value, rest) := Split(kind, Last(p.args));
    BeginOption(app, p, kind, o);
    var text := Text(app, o, name, value, rest);
    var begun := Begun(app, p, o, text, rest);
    OptionalSkipped(app, begun, o, name, 0);
  }

  // ----- Positional arguments -------------------------------------------------

  // The option still lacks results.
  predicate Lacks(app: App, uses: seq<Use>, o: nat)
    requires o < |app.options|
  {
    |Results(app, uses, o)| < app.options[o].typeSizeMin * app.options[o].expectedMin
  }

  predicate Counted(app: App, requiredOnly: bool, o: nat)
    requires o < |app.options|
  {
    app.options[o].positional && (requiredOnly ==> app.options[o].required)
  }

  // Nothing remains if and only if no positional option lacks anything.
  lemma {:induction false} NothingRemains(app: App, uses: seq<Use>, requiredOnly: bool, n: nat)
    requires n <= |app.options|
    ensures Remaining(app, uses, requiredOnly, n) == 0 <==> forall o :: 0 <= o < n && Counted(app, requiredOnly, o) ==> !Lacks(app, uses, o)
  {
    hide Results, Remaining, Lacks, Counted;
    LastRemains(app, uses, requiredOnly, n);
    if n > 0 { NothingRemains(app, uses, requiredOnly, n - 1); }
  }

  lemma LastRemains(app: App, uses: seq<Use>, requiredOnly: bool, n: nat)
    requires n <= |app.options|
    ensures Remaining(app, uses, requiredOnly, n) == 0
      <==> (n == 0 || (Remaining(app, uses, requiredOnly, n - 1) == 0
                       && (Counted(app, requiredOnly, n - 1) ==> !Lacks(app, uses, n - 1))))
  {
  }

  // A result that an option lacked is one that does not remain.
  lemma {:induction false} OneRemainsLess(app: App, before: seq<Use>, after: seq<Use>, requiredOnly: bool, o: nat, n: nat)
    requires o < n <= |app.options| && Counted(app, requiredOnly, o) && Lacks(app, before, o)
    requires |Results(app, after, o)| == |Results(app, before, o)| + 1
    requires forall k {:trigger Results(app, after, k)} :: k != o ==> Results(app, after, k) == Results(app, before, k)
    ensures Remaining(app, after, requiredOnly, n) == Remaining(app, before, requiredOnly, n) - 1
  {
    hide Results;
    if n - 1 > o { OneRemainsLess(app, before, after, requiredOnly, o, n - 1); } else { SameRemains(app, before, after, requiredOnly, n - 1); }
  }

  lemma {:induction false} SameRemains(app: App, before: seq<Use>, after: seq<Use>, requiredOnly: bool, n: nat)
    requires n <= |app.options|
    requires forall k :: 0 <= k < n ==> Results(app, after, k) == Results(app, before, k)
    ensures Remaining(app, after, requiredOnly, n) == Remaining(app, before, requiredOnly, n)
  {
    hide Results;
    if n > 0 { SameRemains(app, before, after, requiredOnly, n - 1); }
  }

  // A positional option may get the token.
  predicate May(app: App, uses: seq<Use>, token: string, o: nat)
  {
    && o < |app.options| && app.options[o].positional
    && (Lacks(app, uses, o) || app.options[o].allowExtraArgs)
    && (app.validatePositionals ==> app.accepts(o, token))
  }

  // It comes first, as no more arguments are left than are required.
  predicate Must(app: App, uses: seq<Use>, token: string, left: nat, o: nat)
  {
    && app.positionalsAtEnd && left <= Remaining(app, uses, true, |app.options|)
    && o < |app.options| && Counted(app, true, o) && Lacks(app, uses, o)
    && (app.validatePositionals ==> app.accepts(o, token))
  }

  // The option that gets the token.
  predicate IsChosen(app: App, uses: seq<Use>, token: string, left: nat, o: nat)
  {
    || (Must(app, uses, token, left, o) && forall k :: 0 <= k < o ==> !Must(app, uses, token, left, k))
    || (May(app, uses, token, o) && (forall k :: 0 <= k < o ==> !May(app, uses, token, k))
        && forall k :: 0 <= k < |app.options| ==> !Must(app, uses, token, left, k))
  }

  // The option that the parser finds is the one that is chosen.
  lemma ChosenIsFound(app: App, p: Progress, o: nat)
    requires p.args != []
    ensures IsChosen(app, p.uses, Last(p.args), |p.args|, o) <==> o < |app.options| && o == PositionalOption(app, p)
  {
    hide Results, Remaining, CommandLine.Takes, TakesAtEnd, Must, May;
    var n, uses, token, left := |app.options|, p.uses, Last(p.args), |p.args|;
    var found := PositionalOption(app, p);
    MustIs(app, uses, token, left);
    MayIs(app, uses, token);
  }

  lemma MustIs(app: App, uses: seq<Use>, token: string, left: nat)
    ensures forall k: nat :: (Must(app, uses, token, left, k)
      <==> (k < |app.options| && app.positionalsAtEnd && left <= Remaining(app, uses, true, |app.options|)
            && TakesAtEnd(app, uses, token, k)))
  {
    hide Results, Remaining;
  }

  lemma MayIs(app: App, uses: seq<Use>, token: string)
    ensures forall k: nat :: (May(app, uses, token, k) <==> (k < |app.options| && CommandLine.Takes(app, uses, token, k)))
  {
    hide Results;
  }

  // The arguments of a command from m on, none of them taken.
  function Command(args: seq<string>, m: nat): seq<Use>
    requires m <= |args|
    decreases |args| - m
  {
    if m == |args| then [] else [Missing(Positional, Argument(args, m))] + Command(args, m + 1)
  }

  lemma {:induction false} AllAreMissing(p: Progress, args: seq<string>, m: nat)
    requires m <= |args| && p.args == Without(args, m)
    ensures AllMissing(p) == Progress([], p.positionalOnly, p.uses + Command(args, m))
    decreases |args| - m
  {
    hide Without, Argument;
    NextArgument(args, m);
    if m == |args| {
      NoMoreUses(p.uses);
    } else {
      var u := Missing(Positional, Argument(args, m));
      AllAreMissing(Take(p, u), args, m + 1);
      assert p.uses + [u] + Command(args, m + 1) == p.uses + ([u] + Command(args, m + 1));
    }
  }

  // A positional argument goes to the first option that must have it, or else to
  // the first one that may. With no such option it is missing, and everything
  // behind it if it is taken for a command.
  lemma PositionalGoesTo(app: App, p: Progress, o: nat)
    requires p.args != []
    ensures var token, below := p.args[|p.args| - 1], p.args[..|p.args| - 1];
      && (IsChosen(app, p.uses, token, |p.args|, o) ==>
            && o < |app.options|
            && ParsePositional(app, p) == Done(Progress(below, p.positionalOnly, Separated(app, p, o).uses + [Value(o, token)])))
      && ((forall k :: 0 <= k < |app.options| ==> !IsChosen(app, p.uses, token, |p.args|, k)) ==>
            ParsePositional(app, p)
            == if app.positionalsAtEnd then Failed(Extras)
               else if app.prefixCommand then Done(Progress([], p.positionalOnly, p.uses + Command(p.args, 0)))
               else Done(Progress(below, p.positionalOnly, p.uses + [Missing(Positional, token)])))
  {
    hide Results, AllMissing, IsChosen, Command, PositionalOption;
    ChosenIsFound(app, p, o);
    var found := PositionalOption(app, p);
    ChosenIsFound(app, p, found);
    NoneLeftOut(app, o, p.args);
    AllAreMissing(p, p.args, 0);
    NextIsMissing(p);
  }

  lemma NextIsMissing(p: Progress)
    requires p.args != []
    ensures AllMissing(p) == AllMissing(Take(p, Missing(Positional, Last(p.args))))
  {
  }

  // The mark "--" makes everything behind it positional, and so does a positional
  // argument if those stand at the end.
  lemma PositionalSteps(app: App, p: Progress)
    requires p.args != []
    ensures var token := p.args[|p.args| - 1]; var r := ParseSingle(app, p);
      && (!p.positionalOnly && token == "--" ==>
            r == Done(Progress(p.args[..|p.args| - 1], true, p.uses + [Missing(PositionalMark, "--")])))
      && (p.positionalOnly || Recognize(app, token) == Positional ==>
            && r.Done? == ParsePositional(app, p).Done?
            && (r.Failed? ==> r == ParsePositional(app, p))
            && (r.Done? ==> r.progress.args == ParsePositional(app, p).progress.args
                            && r.progress.uses == ParsePositional(app, p).progress.uses
                            && r.progress.positionalOnly == (p.positionalOnly || app.positionalsAtEnd)))
  {
    hide PositionalOption, Results, AllMissing;
    TokenKinds(app, p.args[|p.args| - 1]);
  }
}
