// The parser in place: its fields are the arguments that are left and what the
// options and the list of missing tokens have got so far.
module CommandLineApp {
  import opened Options
  import opened CommandLine
  import A = CommandLineAccount

  class Parser {
    const app: App
    var args: seq<string>
    var positionalOnly: bool
    var missing: seq<(Classifier, string)>
    var results: seq<seq<string>>
    var parseOrder: seq<nat>
    ghost var uses: seq<Use>

    ghost function State(): Progress
      reads this
    {
      Progress(args, positionalOnly, uses)
    }

    // The lists hold what the uses of the tokens have given them.
    ghost predicate Valid()
      reads this
    {
      && |results| == |app.options|
      && (forall o :: 0 <= o < |results| ==> results[o] == Results(app, uses, o))
      && missing == MissingIn(uses)
      && parseOrder == ParseOrder(uses)
    }

    constructor (app: App, args: seq<string>)
      ensures Valid() && this.app == app && State() == Progress(args, false, [])
    {
      this.app, this.args, positionalOnly := app, args, false;
      missing, parseOrder, uses := [], [], [];
      results := seq(|app.options|, _ => []);
    }

    // ----- Single changes ---------------------------------------------------

    // An option gets a text; u says where the text is from.
    method AddResult(o: nat, text: string, ordered: bool, ghost u: Use) returns (count: nat)
      requires Valid() && o < |app.options| && !u.Missing?
      requires forall p :: Added(app, u, p) == if p == o then app.pieces(o, text) else []
      requires OrderOf(u) == if ordered then [o] else []
      modifies this`results, this`parseOrder, this`uses
      ensures Valid() && State() == Log(old(State()), u)
      ensures count == |app.pieces(o, text)|
    {
      OneMoreUse(app, uses, u);
      var added := app.pieces(o, text);
      results := results[o := results[o] + added];
      uses := uses + [u];
      if ordered { parseOrder := parseOrder + [o]; }
      count := |added|;
    }

    method Pop() returns (token: string)
      requires args != []
      modifies this`args
      ensures token == Last(old(args)) && args == Front(old(args))
    {
      token := args[|args| - 1];
      args := args[..|args| - 1];
    }

    method MoveToMissing(kind: Classifier, token: string)
      requires Valid()
      modifies this`missing, this`uses
      ensures Valid() && State() == Log(old(State()), Missing(kind, token))
    {
      OneMoreUse(app, uses, Missing(kind, token));
      missing := missing + [(kind, token)];
      uses := uses + [Missing(kind, token)];
    }

    // Changes of the arguments only.
    ghost method Note(u: Use)
      requires Valid() && (u == Swallowed || u.PushedBack? || (u.Named? && u.text == None))
      modifies this`uses
      ensures Valid() && State() == Log(old(State()), u)
    {
      OneMoreUse(app, uses, u);
      uses := uses + [u];
    }

    method Separate(o: nat)
      requires Valid() && o < |app.options|
      modifies this`results, this`parseOrder, this`uses
      ensures Valid() && State() == Separated(app, old(State()), o)
    {
      if app.options[o].injectSeparator && results[o] != [] && results[o][|results[o]| - 1] != "" {
        var _ := AddResult(o, "", false, Filled(o, "", false));
      }
    }

    // ----- Positional arguments ---------------------------------------------

    method CountRemainingPositionals(requiredOnly: bool) returns (count: nat)
      requires Valid()
      ensures count == Remaining(app, uses, requiredOnly, |app.options|)
    {
      hide Results, ItemsMin, MissingIn, ParseOrder;
      count := 0;
      for i := 0 to |app.options|
        invariant count == Remaining(app, uses, requiredOnly, i)
      {
        var spec := app.options[i];
        if spec.positional && (!requiredOnly || spec.required) {
          if ItemsMin(spec) > 0 && |results[i]| < ItemsMin(spec) {
            count := count + (ItemsMin(spec) - |results[i]|);
          }
        }
      }
    }

    method FindPositional() returns (o: nat)
      requires Valid() && args != []
      ensures o == PositionalOption(app, State())
    {
      hide Results, ItemsMin, OptionAtEnd, OptionTaking, Remaining;
      var n := |app.options|;
      var token := args[|args| - 1];
      if app.positionalsAtEnd {
        var required := CountRemainingPositionals(true);
        if |args| <= required {
          o := 0;
          while o < n && !(app.options[o].positional && app.options[o].required && |results[o]| < ItemsMin(app.options[o])
                           && (app.validatePositionals ==> app.accepts(o, token)))
            invariant o <= n
            invariant forall k :: 0 <= k < o ==> !TakesAtEnd(app, uses, token, k)
          {
            o := o + 1;
          }
          assert o < n ==> TakesAtEnd(app, uses, token, o);
          ghost var first := OptionAtEnd(app, uses, token);
          ghost var found := first < n && TakesAtEnd(app, uses, token, first);
          if o < n { return; }
        }
      }
      o := 0;
      while o < n && !(app.options[o].positional && (|results[o]| < ItemsMin(app.options[o]) || app.options[o].allowExtraArgs)
                       && (app.validatePositionals ==> app.accepts(o, token)))
        invariant o <= n
        invariant forall k :: 0 <= k < o ==> !Takes(app, uses, token, k)
      {
        o := o + 1;
      }
      assert o < n ==> Takes(app, uses, token, o);
      ghost var first := OptionTaking(app, uses, token);
      ghost var found := first < n && Takes(app, uses, token, first);
    }

    method ParsePositionalArg() returns (error: Option<Error>)
      requires Valid() && args != []
      modifies this`args, this`missing, this`results, this`parseOrder, this`uses
      ensures match ParsePositional(app, old(State()))
        case Done(q) => error == None && Valid() && State() == q
        case Failed(e) => error == Some(e)
    {
      hide PositionalOption, Results, MissingIn, ParseOrder;
      var o := FindPositional();
      if o < |app.options| {
        Separate(o);
        var token := Pop();
        var _ := AddResult(o, token, true, Value(o, token));
        return None;
      }
      if app.positionalsAtEnd { return Some(Extras); }
      var token := Pop();
      MoveToMissing(Positional, token);
      if app.prefixCommand {
        ghost var before := State();
        while args != []
          invariant Valid() && positionalOnly == old(positionalOnly)
          invariant AllMissing(State()) == AllMissing(before)
          decreases |args|
        {
          token := Pop();
          MoveToMissing(Positional, token);
        }
      }
      error := None;
    }

    // ----- Options ----------------------------------------------------------

    method GatherMinimum(o: nat, min: nat, collected: nat) returns (total: nat)
      requires Valid() && o < |app.options|
      modifies this`args, this`results, this`parseOrder, this`uses
      ensures Valid() && (State(), total) == Gather(app, old(State()), o, min, collected)
    {
      hide Results, MissingIn, ParseOrder;
      total := collected;
      while total < min && args != []
        invariant Valid() && positionalOnly == old(positionalOnly)
        invariant Gather(app, State(), o, min, total) == Gather(app, old(State()), o, min, collected)
        decreases |args|
      {
        var token := Pop();
        var count := AddResult(o, token, true, Value(o, token));
        total := total + count;
      }
    }

    method GatherOptionals(o: nat, max: nat, reserved: nat, collected: nat) returns (total: nat)
      requires Valid() && o < |app.options|
      modifies this`args, this`results, this`parseOrder, this`uses
      ensures Valid() && (State(), total) == GatherOptional(app, old(State()), o, max, reserved, collected)
    {
      hide Results, MissingIn, ParseOrder, Recognize;
      total := collected;
      while (total < max || app.options[o].allowExtraArgs) && args != [] && Recognize(app, args[|args| - 1]) == Positional
        invariant Valid() && positionalOnly == old(positionalOnly)
        invariant GatherOptional(app, State(), o, max, reserved, total)
          == GatherOptional(app, old(State()), o, max, reserved, collected)
        decreases |args|
      {
        if reserved >= |args| { break; }
        if app.validateOptionalArguments && !app.accepts(o, args[|args| - 1]) { break; }
        var token := Pop();
        var count := AddResult(o, token, true, Value(o, token));
        total := total + count;
      }
    }

    method TakeOptionals(o: nat, name: string, collected: nat) returns (error: Option<Error>, total: nat)
      requires Valid() && o < |app.options|
      modifies this`args, this`results, this`parseOrder, this`uses
      ensures match ParseOptional(app, old(State()), o, name, collected)
        case (Done(q), count) => error == None && Valid() && State() == q && total == count
        case (Failed(e), _) => error == Some(e)
    {
      hide Results, MissingIn, ParseOrder, Recognize, GatherOptional, MaxNum, MinNum, Remaining;
      var spec := app.options[o];
      total := collected;
      if collected < MaxNum(spec) || spec.allowExtraArgs {
        var reserved := CountRemainingPositionals(true);
        total := GatherOptionals(o, MaxNum(spec), reserved, collected);
        if args != [] && Recognize(app, args[|args| - 1]) == PositionalMark {
          var _ := Pop();
          Note(Swallowed);
        }
        if MinNum(spec) == 0 && MaxNum(spec) > 0 && total == 0 {
          var text := app.flagValue(o, name, "");
          if text == None { return Some(FlagOverride(o)), total; }
          var _ := AddResult(o, text.value, true, Filled(o, text.value, true));
        }
      }
      error := None;
    }

    method EndOption(o: nat, collected: nat, rest: string) returns (error: Option<Error>)
      requires Valid() && o < |app.options|
      modifies this`args, this`results, this`parseOrder, this`uses
      ensures match ParseEnd(app, old(State()), o, collected, rest)
        case Done(q) => error == None && Valid() && State() == q
        case Failed(e) => error == Some(e)
    {
      hide Results, MissingIn, ParseOrder, MinNum;
      var spec := app.options[o];
      if MinNum(spec) > 0 && spec.typeSizeMax > 0 && collected % spec.typeSizeMax != 0 {
        if spec.typeSizeMax == spec.typeSizeMin { return Some(PartialType(o)); }
        var _ := AddResult(o, "", false, Filled(o, "", false));
      }
      if rest != "" {
        args := args + ["-" + rest];
        Note(PushedBack(rest));
      }
      error := None;
    }

    method ParseNamedOption(kind: Classifier, o: nat) returns (error: Option<Error>)
      requires Valid() && args != [] && o < |app.options|
      requires kind == Short ==> IsShort(Last(args))
      requires kind == Long ==> IsLong(Last(args))
      requires kind == WindowsStyle ==> IsWindowsStyle(Last(args))
      modifies this`args, this`results, this`parseOrder, this`uses
      ensures match ParseOption(app, old(State()), kind, o)
        case Done(q) => error == None && Valid() && State() == q
        case Failed(e) => error == Some(e)
    {
      hide Results, MissingIn, ParseOrder, MinNum, MaxNum, Gather, ParseOptional, ParseEnd, Split, TextOf, Separated;
      var spec, current := app.options[o], args[|args| - 1];
      var (name, value, rest) := Split(kind, current);
      var named, collected := TakeName(o, name, value, rest);
      if !named { return Some(FlagOverride(o)); }
      if MaxNum(spec) > 0 { rest := ""; }
      collected := GatherMinimum(o, MinNum(spec), collected);
      if collected < MinNum(spec) { return Some(TypedAtLeast(o)); }
      error, collected := TakeOptionals(o, name, collected);
      if error != None { return; }
      error := EndOption(o, collected, rest);
    }

    // The token that names an option, and the text it brings along.
    method TakeName(o: nat, name: string, value: string, rest: string) returns (named: bool, collected: nat)
      requires Valid() && args != [] && o < |app.options|
      modifies this`args, this`results, this`parseOrder, this`uses
      ensures var text := TextOf(app, o, name, value, rest);
        && named == text.Some?
        && (named ==>
             var flag := MaxNum(app.options[o]) == 0;
             && Valid()
             && State() == Take(Separated(app, old(State()), o), Named(o, Last(old(args)), text.value, if flag then rest else ""))
             && collected == if flag || text.value == None then 0 else |app.pieces(o, text.value.value)|)
    {
      hide Results, MissingIn, ParseOrder, MaxNum;
      var spec := app.options[o];
      Separate(o);
      var current := Pop();
      named, collected := true, 0;
      if MaxNum(spec) == 0 {
        var text := app.flagValue(o, name, value);
        if text == None { return false, 0; }
        var _ := AddResult(o, text.value, true, Named(o, current, text, rest));
      } else if value != "" {
        collected := AddResult(o, value, true, Named(o, current, Some(value), ""));
      } else if rest != "" {
        collected := AddResult(o, rest, true, Named(o, current, Some(rest), ""));
      } else {
        Note(Named(o, current, None, ""));
      }
    }

    method ParseArgument(kind: Classifier) returns (error: Option<Error>)
      requires Valid() && args != []
      requires kind == Short ==> IsShort(Last(args))
      requires kind == Long ==> IsLong(Last(args))
      requires kind == WindowsStyle ==> IsWindowsStyle(Last(args))
      modifies this`args, this`missing, this`results, this`parseOrder, this`uses
      ensures match ParseArg(app, old(State()), kind)
        case Done(q) => error == None && Valid() && State() == q
        case Failed(e) => error == Some(e)
    {
      hide Results, MissingIn, ParseOrder, FindOption, ParseOption, Split;
      var current := args[|args| - 1];
      var o := FindOption(app, kind, Split(kind, current).0);
      if o == |app.options| {
        var _ := Pop();
        MoveToMissing(kind, current);
        return None;
      }
      error := ParseNamedOption(kind, o);
    }

    // ----- The loop ---------------------------------------------------------

    method ParseSingleArg() returns (error: Option<Error>)
      requires Valid() && args != []
      modifies this
      ensures match ParseSingle(app, old(State()))
        case Done(q) => error == None && Valid() && State() == q
        case Failed(e) => error == Some(e)
    {
      hide Results, MissingIn, ParseOrder, ParsePositional, ParseArg, Recognize;
      var kind := if positionalOnly then Positional else Recognize(app, args[|args| - 1]);
      match kind {
        case PositionalMark =>
          var _ := Pop();
          positionalOnly := true;
          MoveToMissing(PositionalMark, "--");
          error := None;
        case Positional =>
          error := ParsePositionalArg();
          if error == None && app.positionalsAtEnd { positionalOnly := true; }
        case _ =>
          error := ParseArgument(kind);
      }
    }

    method ParseAll() returns (error: Option<Error>)
      requires Valid()
      modifies this
      ensures match Parse(app, old(State()))
        case Done(q) => error == None && Valid() && State() == q
        case Failed(e) => error == Some(e)
    {
      hide ParseSingle, Results, MissingIn, ParseOrder;
      while args != []
        invariant Valid() && Parse(app, State()) == Parse(app, old(State()))
        decreases Weight(args)
      {
        ParseSingleShrinks(app, State());
        error := ParseSingleArg();
        if error != None { return; }
      }
      error := None;
    }
  }

  // A command line that parses: what the options and the list of missing
  // tokens have got is what the tokens were used for, and the tokens make up
  // the command line.
  method ParseCommandLine(app: App, args: seq<string>) returns (parser: Parser, error: Option<Error>)
    ensures fresh(parser) && parser.app == app
    ensures match Parse(app, Progress(args, false, []))
      case Done(q) => error == None && parser.Valid() && parser.State() == q && parser.args == []
      case Failed(e) => error == Some(e)
    ensures error == None ==> A.Rebuilds(parser.uses, [], args) && A.Well(app, parser.uses) && A.Pending(parser.uses) == ""
    ensures error == None ==> A.KeepsOrder(args, A.Texts(parser.missing))
  {
    parser := new Parser(app, args);
    A.EveryTokenAccountedFor(app, args);
    A.MissingKeepOrder(app, args);
    error := parser.ParseAll();
  }
}
