// Flags that share a token mean the same as flags that have one each.
module CommandLineBundles {
  import opened Options
  import opened CommandLine

  // Two runs that have come to the same point: what is left is the same, and
  // so is what the options and the list of missing tokens have got.
  ghost predicate Same(app: App, p: Progress, q: Progress)
  {
    && p.args == q.args && p.positionalOnly == q.positionalOnly
    && (forall o {:trigger Results(app, p.uses, o)} :: Results(app, p.uses, o) == Results(app, q.uses, o))
    && MissingIn(p.uses) == MissingIn(q.uses) && ParseOrder(p.uses) == ParseOrder(q.uses)
  }

  ghost predicate SameOutcome(app: App, r: Outcome, s: Outcome)
  {
    match (r, s)
    case (Done(p), Done(q)) => Same(app, p, q)
    case (Failed(e), Failed(e')) => e == e'
    case _ => false
  }

  lemma LogSame(app: App, p: Progress, q: Progress, u: Use)
    requires Same(app, p, q)
    ensures Same(app, Log(p, u), Log(q, u))
    ensures p.args != [] ==> Same(app, Take(p, u), Take(q, u))
  {
    hide Results, MissingIn, ParseOrder, Added, OrderOf;
    OneMoreUse(app, p.uses, u);
    OneMoreUse(app, q.uses, u);
  }

  lemma SeparatedSame(app: App, p: Progress, q: Progress, o: nat)
    requires Same(app, p, q) && o < |app.options|
    ensures Same(app, Separated(app, p, o), Separated(app, q, o))
  {
    hide Same, Log;
    LogSame(app, p, q, Filled(o, "", false));
    assert Results(app, p.uses, o) == Results(app, q.uses, o) by { SameResults(app, p, q, o); }
  }

  lemma SameResults(app: App, p: Progress, q: Progress, o: nat)
    requires Same(app, p, q)
    ensures Results(app, p.uses, o) == Results(app, q.uses, o)
  {
  }

  lemma {:induction false} RemainingSame(app: App, p: Progress, q: Progress, requiredOnly: bool, n: nat)
    requires Same(app, p, q) && n <= |app.options|
    ensures Remaining(app, p.uses, requiredOnly, n) == Remaining(app, q.uses, requiredOnly, n)
  {
    hide Results, ItemsMin, MissingIn, ParseOrder;
    if n > 0 {
      RemainingSame(app, p, q, requiredOnly, n - 1);
      SameResults(app, p, q, n - 1);
    }
  }

  lemma PositionalOptionSame(app: App, p: Progress, q: Progress)
    requires Same(app, p, q) && p.args != []
    ensures PositionalOption(app, p) == PositionalOption(app, q)
  {
    hide Results, ItemsMin, MissingIn, ParseOrder, OptionAtEnd, OptionTaking, Remaining;
    RemainingSame(app, p, q, true, |app.options|);
    var token := Last(p.args);
    forall o | 0 <= o < |app.options|
      ensures TakesAtEnd(app, p.uses, token, o) == TakesAtEnd(app, q.uses, token, o)
      ensures Takes(app, p.uses, token, o) == Takes(app, q.uses, token, o)
    {
      SameResults(app, p, q, o);
    }
    SameFirst(app, p.uses, q.uses, token);
  }

  lemma SameFirst(app: App, uses: seq<Use>, uses': seq<Use>, token: string)
    requires forall o :: 0 <= o < |app.options| ==> TakesAtEnd(app, uses, token, o) == TakesAtEnd(app, uses', token, o)
    requires forall o :: 0 <= o < |app.options| ==> Takes(app, uses, token, o) == Takes(app, uses', token, o)
    ensures OptionAtEnd(app, uses, token) == OptionAtEnd(app, uses', token)
    ensures OptionTaking(app, uses, token) == OptionTaking(app, uses', token)
  {
    hide OptionAtEnd, OptionTaking, Takes, TakesAtEnd;
    var a, b := OptionAtEnd(app, uses, token), OptionAtEnd(app, uses', token);
    var c, d := OptionTaking(app, uses, token), OptionTaking(app, uses', token);
  }

  lemma {:induction false} AllMissingSame(app: App, p: Progress, q: Progress)
    requires Same(app, p, q)
    ensures Same(app, AllMissing(p), AllMissing(q))
    decreases |p.args|
  {
    hide Results, MissingIn, ParseOrder;
    if p.args != [] {
      var u := Missing(Positional, Last(p.args));
      LogSame(app, p, q, u);
      AllMissingSame(app, Take(p, u), Take(q, u));
    }
  }

  lemma ParsePositionalSame(app: App, p: Progress, q: Progress)
    requires Same(app, p, q) && p.args != []
    ensures SameOutcome(app, ParsePositional(app, p), ParsePositional(app, q))
  {
    hide Results, MissingIn, ParseOrder, PositionalOption, AllMissing;
    PositionalOptionSame(app, p, q);
    var o, token := PositionalOption(app, p), Last(p.args);
    if o < |app.options| {
      SeparatedSame(app, p, q, o);
      LogSame(app, Separated(app, p, o), Separated(app, q, o), Value(o, token));
    } else {
      var u := Missing(Positional, token);
      LogSame(app, p, q, u);
      AllMissingSame(app, Take(p, u), Take(q, u));
    }
  }

  lemma {:induction false} GatherSame(app: App, p: Progress, q: Progress, o: nat, min: nat, collected: nat)
    requires Same(app, p, q)
    ensures var (p', n) := Gather(app, p, o, min, collected); var (q', m) := Gather(app, q, o, min, collected);
      n == m && Same(app, p', q')
    decreases |p.args|
  {
    hide Results, MissingIn, ParseOrder;
    if collected < min && p.args != [] {
      var u := Value(o, Last(p.args));
      LogSame(app, p, q, u);
      GatherSame(app, Take(p, u), Take(q, u), o, min, collected + |app.pieces(o, Last(p.args))|);
    }
  }

  lemma {:induction false} GatherOptionalSame(app: App, p: Progress, q: Progress, o: nat, max: nat, reserved: nat, collected: nat)
    requires Same(app, p, q) && o < |app.options|
    ensures var (p', n) := GatherOptional(app, p, o, max, reserved, collected);
      var (q', m) := GatherOptional(app, q, o, max, reserved, collected);
      n == m && Same(app, p', q')
    decreases |p.args|
  {
    hide Results, MissingIn, ParseOrder, Recognize;
    if p.args != [] {
      var u := Value(o, Last(p.args));
      LogSame(app, p, q, u);
      GatherOptionalSame(app, Take(p, u), Take(q, u), o, max, reserved, collected + |app.pieces(o, Last(p.args))|);
    }
  }

  lemma ParseOptionalSame(app: App, p: Progress, q: Progress, o: nat, name: string, collected: nat)
    requires Same(app, p, q) && o < |app.options|
    ensures var (r, n) := ParseOptional(app, p, o, name, collected); var (s, m) := ParseOptional(app, q, o, name, collected);
      n == m && SameOutcome(app, r, s)
  {
    hide Results, MissingIn, ParseOrder, Recognize, GatherOptional, Remaining, MaxNum, MinNum;
    RemainingSame(app, p, q, true, |app.options|);
    var max, reserved := MaxNum(app.options[o]), Remaining(app, p.uses, true, |app.options|);
    GatherOptionalSame(app, p, q, o, max, reserved, collected);
    var p', q' := GatherOptional(app, p, o, max, reserved, collected).0, GatherOptional(app, q, o, max, reserved, collected).0;
    LogSame(app, p', q', Swallowed);
    var flag := app.flagValue(o, name, "");
    if flag.Some? { LogSame(app, Swallow(app, p'), Swallow(app, q'), Filled(o, flag.value, true)); }
  }

  lemma ParseEndSame(app: App, p: Progress, q: Progress, o: nat, collected: nat, rest: string)
    requires Same(app, p, q) && o < |app.options|
    ensures SameOutcome(app, ParseEnd(app, p, o, collected, rest), ParseEnd(app, q, o, collected, rest))
  {
    hide Results, MissingIn, ParseOrder, MinNum;
    LogSame(app, p, q, Filled(o, "", false));
    LogSame(app, Log(p, Filled(o, "", false)), Log(q, Filled(o, "", false)), PushedBack(rest));
    LogSame(app, p, q, PushedBack(rest));
  }

  lemma ParseOptionSame(app: App, p: Progress, q: Progress, kind: Classifier, o: nat)
    requires Same(app, p, q) && p.args != [] && o < |app.options|
    requires kind == Short ==> IsShort(Last(p.args))
    requires kind == Long ==> IsLong(Last(p.args))
    requires kind == WindowsStyle ==> IsWindowsStyle(Last(p.args))
    ensures SameOutcome(app, ParseOption(app, p, kind, o), ParseOption(app, q, kind, o))
  {
    hide Results, MissingIn, ParseOrder, MinNum, MaxNum, Gather, ParseOptional, ParseEnd, TextOf, Split;
    var spec, token := app.options[o], Last(p.args);
    var (name, value, rest) := Split(kind, token);
    if TextOf(app, o, name, value, rest).Some? {
      var text := TextOf(app, o, name, value, rest).value;
      var left := if MaxNum(spec) == 0 then rest else "";
      var collected := if MaxNum(spec) == 0 || text == None then 0 else |app.pieces(o, text.value)|;
      var u := Named(o, token, text, left);
      SeparatedSame(app, p, q, o);
      LogSame(app, Separated(app, p, o), Separated(app, q, o), u);
      var p', q' := Take(Separated(app, p, o), u), Take(Separated(app, q, o), u);
      GatherSame(app, p', q', o, MinNum(spec), collected);
      var (p'', n) := Gather(app, p', o, MinNum(spec), collected);
      var q'' := Gather(app, q', o, MinNum(spec), collected).0;
      ParseOptionalSame(app, p'', q'', o, name, n);
      var (r, total) := ParseOptional(app, p'', o, name, n);
      var s := ParseOptional(app, q'', o, name, n).0;
      if r.Done? { ParseEndSame(app, r.progress, s.progress, o, total, left); }
    }
  }

  lemma ParseSingleSame(app: App, p: Progress, q: Progress)
    requires Same(app, p, q) && p.args != []
    ensures SameOutcome(app, ParseSingle(app, p), ParseSingle(app, q))
  {
    hide Results, MissingIn, ParseOrder, ParseOption, ParsePositional, Recognize, FindOption;
    var token := Last(p.args);
    var kind := if p.positionalOnly then Positional else Recognize(app, token);
    match kind {
      case PositionalMark => LogSame(app, p, q, Missing(PositionalMark, "--"));
      case Positional => ParsePositionalSame(app, p, q);
      case _ =>
        var o := FindOption(app, kind, Split(kind, token).0);
        if o < |app.options| { ParseOptionSame(app, p, q, kind, o); } else { LogSame(app, p, q, Missing(kind, token)); }
    }
  }

  // What happens to the rest does not depend on how it came to this point.
  lemma {:induction false} ParseSame(app: App, p: Progress, q: Progress)
    requires Same(app, p, q)
    ensures SameOutcome(app, Parse(app, p), Parse(app, q))
    decreases Weight(p.args)
  {
    hide Results, MissingIn, ParseOrder, ParseSingle;
    if p.args != [] {
      ParseSingleSame(app, p, q);
      ParseSingleShrinks(app, p);
      var r, s := ParseSingle(app, p), ParseSingle(app, q);
      if r.Done? { ParseSame(app, r.progress, s.progress); }
    }
  }

  // ----- Bundles ------------------------------------------------------------

  // A character that names a flag without arguments.
  predicate IsFlag(app: App, c: char)
  {
    && ValidFirstChar(c)
    && var o := FindOption(app, Short, [c]);
       && o < |app.options| && MaxNum(app.options[o]) == 0 && MinNum(app.options[o]) == 0
       && !app.options[o].allowExtraArgs
  }

  lemma FlagIsShort(app: App, c: char, rest: string)
    requires IsFlag(app, c)
    ensures var token := "-" + [c] + rest; Recognize(app, token) == Short && IsShort(token) && Split(Short, token) == ([c], "", rest)
  {
    hide MaxNum, MinNum;
    var token := "-" + [c] + rest;
    assert token[1] == c && token[2..] == rest;
  }

  // The flag takes its value from its name, and the rest becomes the next token.
  lemma FlagStep(app: App, p: Progress, c: char, rest: string)
    requires IsFlag(app, c) && !p.positionalOnly && p.args != [] && Last(p.args) == "-" + [c] + rest
    ensures var o := FindOption(app, Short, [c]);
      ParseSingle(app, p) == match app.flagValue(o, [c], "")
        case None => Failed(FlagOverride(o))
        case Some(text) => Done(PushBack(Take(Separated(app, p, o), Named(o, Last(p.args), Some(text), rest)), rest))
  {
    hide Separated, Recognize, FindOption, Split, PushBack;
    FlagIsShort(app, c, rest);
  }

  // The flag on its own, and the flag with a rest that is pushed back.
  lemma NamedSame(app: App, p: Progress, q: Progress, o: nat, text: Option<string>, rest: string)
    requires p.args != [] && q.args != [] && rest != "" && o < |app.options|
    requires Same(app, p.(args := []), q.(args := []))
    ensures var p' := PushBack(Take(Separated(app, p, o), Named(o, Last(p.args), text, rest)), rest);
      var q' := PushBack(Take(Separated(app, q, o), Named(o, Last(q.args), text, "")), "");
      && p'.args == Front(p.args) + ["-" + rest] && q'.args == Front(q.args)
      && p'.positionalOnly == p.positionalOnly
      && Same(app, p'.(args := []), q'.(args := []))
  {
    hide Results, MissingIn, ParseOrder;
    SeparatedSame(app, p.(args := []), q.(args := []), o);
    var p', q' := Separated(app, p, o), Separated(app, q, o);
    var u, v := Named(o, Last(p.args), text, rest), Named(o, Last(q.args), text, "");
    OneMoreUse(app, p'.uses, u);
    OneMoreUse(app, q'.uses, v);
    OneMoreUse(app, p'.uses + [u], PushedBack(rest));
  }

  // The tokens of flags that are given one by one; the first one comes last.
  function OneByOne(flags: string): seq<string>
  {
    if flags == "" then [] else OneByOne(flags[1..]) + ["-" + [flags[0]]]
  }

  // A bundle, all but the last of which are flags without arguments, means the
  // same as these options given one by one, whatever comes before and after.
  lemma {:induction false} BundleMeansSeparateFlags(app: App, p: Progress, q: Progress, args: seq<string>, flags: string)
    requires flags != "" && forall k :: 0 <= k < |flags| - 1 ==> IsFlag(app, flags[k])
    requires !p.positionalOnly && p.args == args + ["-" + flags]
    requires q.args == args + OneByOne(flags) && Same(app, p.(args := []), q.(args := []))
    ensures SameOutcome(app, Parse(app, p), Parse(app, q))
    decreases |flags|
  {
    hide Results, MissingIn, ParseOrder, ParseSingle, IsFlag, Recognize, PushBack, Separated, FindOption;
    var c, rest := flags[0], flags[1..];
    assert flags == [c] + rest;
    if rest == "" {
      assert flags == [c];
      assert OneByOne(rest) == [];
      assert OneByOne(flags) == OneByOne(rest) + ["-" + [c]];
      assert [] + ["-" + [c]] == ["-" + flags];
      ParseSame(app, p, q);
    } else {
      assert IsFlag(app, flags[0]);
      var o := FindOption(app, Short, [c]);
      OneFlagMore(app, p, q, args, c, rest);
      if app.flagValue(o, [c], "").Some? {
        forall k | 0 <= k < |rest| - 1
          ensures IsFlag(app, rest[k])
        {
          assert rest[k] == flags[k + 1];
        }
        BundleMeansSeparateFlags(app, ParseSingle(app, p).progress, ParseSingle(app, q).progress, args, rest);
      }
    }
  }

  lemma OneFlagMore(app: App, p: Progress, q: Progress, args: seq<string>, c: char, rest: string)
    requires IsFlag(app, c) && rest != "" && !p.positionalOnly
    requires p.args == args + ["-" + ([c] + rest)] && q.args == args + (OneByOne(rest) + ["-" + [c]])
    requires Same(app, p.(args := []), q.(args := []))
    ensures var r, s := ParseSingle(app, p), ParseSingle(app, q);
      match app.flagValue(FindOption(app, Short, [c]), [c], "")
      case None => r == s && r.Failed?
      case Some(_) =>
        && r.Done? && s.Done? && r.progress.args == args + ["-" + rest] && s.progress.args == args + OneByOne(rest)
        && !r.progress.positionalOnly && Same(app, r.progress.(args := []), s.progress.(args := []))
  {
    hide Results, MissingIn, ParseOrder, ParseSingle, Recognize, PushBack, Separated, FindOption;
    var o, flag := FindOption(app, Short, [c]), app.flagValue(FindOption(app, Short, [c]), [c], "");
    assert "-" + ([c] + rest) == "-" + [c] + rest && "-" + [c] + "" == "-" + [c];
    assert Front(p.args) == args && Front(q.args) == args + OneByOne(rest);
    FlagStep(app, p, c, rest);
    FlagStep(app, q, c, "");
    if flag.Some? { NamedSame(app, p, q, o, flag, rest); }
  }
}
