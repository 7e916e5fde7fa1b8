// What becomes of the tokens of a command line: each one is accounted for, in
// its turn.
module CommandLineAccount {
  import opened Options
  import opened CommandLine

  // The arguments before something was done with them. What was pushed back
  // must be there.
  predicate CanUndo(u: Use, args: seq<string>)
  {
    u.PushedBack? ==> args != [] && Last(args) == "-" + u.rest
  }

  function Undo(u: Use, args: seq<string>): seq<string>
    requires CanUndo(u, args)
  {
    if u.PushedBack? then Front(args) else args + TokenOf(u)
  }

  function TokenOf(u: Use): seq<string>
  {
    match u
    case Missing(_, token) => [token]
    case Value(_, token) => [token]
    case Named(_, token, _, _) => [token]
    case Swallowed => ["--"]
    case _ => []
  }

  // The command line, put together again from what was done with it and from
  // what is left of it.
  predicate Rebuilds(uses: seq<Use>, args: seq<string>, tokens: seq<string>)
  {
    if uses == [] then args == tokens
    else CanUndo(Last(uses), args) && Rebuilds(Front(uses), Undo(Last(uses), args), tokens)
  }

  // The rest of a bundle of flags that has not been pushed back yet.
  function Pending(uses: seq<Use>): string
  {
    if uses == [] then "" else
      match Last(uses)
      case Named(_, _, _, rest) => rest
      case Missing(_, _) => ""
      case PushedBack(_) => ""
      case _ => Pending(Front(uses))
  }

  // The option that was named last, as long as only arguments follow.
  function Owner(uses: seq<Use>): Option<nat>
  {
    if uses == [] then None else
      match Last(uses)
      case Named(o, _, _, _) => Some(o)
      case Value(_, _) => Owner(Front(uses))
      case _ => None
  }

  ghost predicate Unknown(app: App, kind: Classifier, token: string)
  {
    && kind == Recognize(app, token)
    && forall o :: 0 <= o < |app.options| ==> !GoesBy(app, kind, Split(kind, token).0, o)
  }

  // The token names the option, and all of its text goes to the option or is
  // kept for later.
  ghost predicate NamedRightly(app: App, o: nat, token: string, text: Option<string>, rest: string)
  {
    var kind := Recognize(app, token);
    && kind != Positional && kind != PositionalMark && o < |app.options|
    && var (name, value, bundle) := Split(kind, token);
       && GoesBy(app, kind, name, o) && (forall k :: 0 <= k < o ==> !GoesBy(app, kind, name, k))
       && if MaxNum(app.options[o]) == 0 then text == app.flagValue(o, name, value) != None && rest == bundle
          else rest == "" && text == if value + bundle == "" then None else Some(value + bundle)
  }

  // Without a token, an option gets a separator or what it stands for as a flag.
  ghost predicate FilledRightly(app: App, o: nat, filling: string, ordered: bool)
  {
    if ordered then exists name :: app.flagValue(o, name, "") == Some(filling) else filling == ""
  }

  // A token is missing if no option goes by its name; an argument belongs to a
  // positional option or to the option named before it; the rest of a bundle is
  // pushed back before another token is looked at.
  ghost predicate WellUsed(app: App, uses: seq<Use>, u: Use)
  {
    match u
    case Missing(kind, token) =>
      && Pending(uses) == ""
      && (kind == PositionalMark ==> token == "--") && (kind != PositionalMark && kind != Positional ==> Unknown(app, kind, token))
    case Value(o, _) => o < |app.options| && (app.options[o].positional || Owner(uses) == Some(o))
    case Named(o, token, text, rest) => Pending(uses) == "" && NamedRightly(app, o, token, text, rest)
    case Swallowed => true
    case Filled(o, filling, ordered) => o < |app.options| && FilledRightly(app, o, filling, ordered)
    case PushedBack(rest) => rest != "" && rest == Pending(uses)
  }

  ghost predicate Well(app: App, uses: seq<Use>)
  {
    uses == [] || (Well(app, Front(uses)) && WellUsed(app, Front(uses), Last(uses)))
  }

  ghost predicate Explained(app: App, tokens: seq<string>, p: Progress, rest: string)
  {
    Rebuilds(p.uses, p.args, tokens) && Well(app, p.uses) && Pending(p.uses) == rest
  }

  lemma OneMore(app: App, uses: seq<Use>, u: Use, args: seq<string>)
    ensures forall tokens :: Rebuilds(uses + [u], args, tokens) <==> CanUndo(u, args) && Rebuilds(uses, Undo(u, args), tokens)
    ensures Well(app, uses + [u]) <==> Well(app, uses) && WellUsed(app, uses, u)
    ensures Pending(uses + [u]) == match u
      case Named(_, _, _, rest) => rest
      case Missing(_, _) => ""
      case PushedBack(_) => ""
      case _ => Pending(uses)
    ensures Owner(uses + [u]) == match u
      case Named(o, _, _, _) => Some(o)
      case Value(_, _) => Owner(uses)
      case _ => None
  {
    hide WellUsed, Undo;
    assert Front(uses + [u]) == uses;
  }

  // ----- The steps ----------------------------------------------------------

  lemma SeparatedExplained(app: App, tokens: seq<string>, p: Progress, o: nat)
    requires o < |app.options| && Explained(app, tokens, p, "")
    ensures Explained(app, tokens, Separated(app, p, o), "")
  {
    hide Rebuilds, Well, Pending, Owner, Results;
    OneMore(app, p.uses, Filled(o, "", false), p.args);
    assert p.args + [] == p.args;
  }

  lemma TakeExplained(app: App, tokens: seq<string>, p: Progress, u: Use, rest: string)
    requires p.args != [] && Explained(app, tokens, p, rest)
    requires WellUsed(app, p.uses, u) && !u.PushedBack? && Undo(u, Front(p.args)) == p.args
    ensures Explained(app, tokens, Take(p, u), Pending(Take(p, u).uses))
    ensures u.Value? || u.Swallowed? ==> Pending(Take(p, u).uses) == rest
    ensures u.Missing? ==> Pending(Take(p, u).uses) == ""
    ensures u.Named? ==> Pending(Take(p, u).uses) == u.rest
    ensures u.Value? ==> Owner(Take(p, u).uses) == Owner(p.uses)
    ensures u.Named? ==> Owner(Take(p, u).uses) == Some(u.o)
  {
    hide Rebuilds, Well, Pending, Owner, WellUsed, Undo;
    OneMore(app, p.uses, u, Front(p.args));
  }

  lemma TakenToken(p: Progress, token: string)
    requires p.args != [] && Last(p.args) == token
    ensures Front(p.args) + [token] == p.args
  {
  }

  lemma {:induction false} AllMissingExplained(app: App, tokens: seq<string>, p: Progress)
    requires Explained(app, tokens, p, "")
    ensures Explained(app, tokens, AllMissing(p), "")
    decreases |p.args|
  {
    hide Explained;
    if p.args != [] {
      var token := Last(p.args);
      MissingExplained(app, tokens, p, Positional, token);
      AllMissingExplained(app, tokens, Take(p, Missing(Positional, token)));
    }
  }

  lemma MissingExplained(app: App, tokens: seq<string>, p: Progress, kind: Classifier, token: string)
    requires p.args != [] && token == Last(p.args) && Explained(app, tokens, p, "")
    requires kind == PositionalMark ==> token == "--"
    requires kind == Positional || kind == PositionalMark || Unknown(app, kind, token)
    ensures Explained(app, tokens, Take(p, Missing(kind, token)), "")
  {
    hide Rebuilds, Well, Pending, Owner, Unknown;
    TakenToken(p, token);
    TakeExplained(app, tokens, p, Missing(kind, token), "");
  }

  lemma ValueExplained(app: App, tokens: seq<string>, p: Progress, o: nat, rest: string)
    requires p.args != [] && o < |app.options| && Explained(app, tokens, p, rest)
    requires app.options[o].positional || Owner(p.uses) == Some(o)
    ensures var q := Take(p, Value(o, Last(p.args))); Explained(app, tokens, q, rest) && Owner(q.uses) == Owner(p.uses)
  {
    hide Rebuilds, Well, Pending, Owner;
    TakenToken(p, Last(p.args));
    TakeExplained(app, tokens, p, Value(o, Last(p.args)), rest);
  }

  lemma ParsePositionalExplained(app: App, tokens: seq<string>, p: Progress)
    requires p.args != [] && Explained(app, tokens, p, "")
    ensures var r := ParsePositional(app, p); r.Done? ==> Explained(app, tokens, r.progress, "")
  {
    hide Explained, PositionalOption, AllMissing;
    var o := PositionalOption(app, p);
    if o < |app.options| {
      PositionalOptionIsPositional(app, p);
      SeparatedExplained(app, tokens, p, o);
      ValueExplained(app, tokens, Separated(app, p, o), o, "");
    } else if !app.positionalsAtEnd {
      MissingExplained(app, tokens, p, Positional, Last(p.args));
      AllMissingExplained(app, tokens, Take(p, Missing(Positional, Last(p.args))));
    }
  }

  lemma PositionalOptionIsPositional(app: App, p: Progress)
    requires p.args != []
    ensures var o := PositionalOption(app, p); o < |app.options| ==> app.options[o].positional
  {
    hide Results, Remaining;
  }

  lemma {:induction false} GatherExplained(app: App, tokens: seq<string>, p: Progress, o: nat, min: nat, collected: nat, rest: string)
    requires o < |app.options| && Explained(app, tokens, p, rest) && Owner(p.uses) == Some(o)
    ensures var q := Gather(app, p, o, min, collected).0; Explained(app, tokens, q, rest) && Owner(q.uses) == Some(o)
    decreases |p.args|
  {
    hide Explained, Owner;
    if collected < min && p.args != [] {
      var token := Last(p.args);
      ValueExplained(app, tokens, p, o, rest);
      GatherExplained(app, tokens, Take(p, Value(o, token)), o, min, collected + |app.pieces(o, token)|, rest);
    }
  }

  lemma {:induction false} GatherOptionalExplained(app: App, tokens: seq<string>, p: Progress, o: nat, max: nat,
                                                   reserved: nat, collected: nat, rest: string)
    requires o < |app.options| && Explained(app, tokens, p, rest) && Owner(p.uses) == Some(o)
    ensures Explained(app, tokens, GatherOptional(app, p, o, max, reserved, collected).0, rest)
    decreases |p.args|
  {
    hide Explained, Owner, Recognize;
    if p.args != [] {
      var token := Last(p.args);
      ValueExplained(app, tokens, p, o, rest);
      GatherOptionalExplained(app, tokens, Take(p, Value(o, token)), o, max, reserved, collected + |app.pieces(o, token)|, rest);
    }
  }

  lemma SwallowExplained(app: App, tokens: seq<string>, p: Progress, rest: string)
    requires Explained(app, tokens, p, rest)
    ensures Explained(app, tokens, Swallow(app, p), rest)
  {
    hide Rebuilds, Well, Pending, Owner;
    if Swallow(app, p) != p {
      TakenToken(p, "--");
      TakeExplained(app, tokens, p, Swallowed, rest);
    }
  }

  lemma FilledExplained(app: App, tokens: seq<string>, p: Progress, o: nat, text: string, ordered: bool, rest: string)
    requires o < |app.options| && Explained(app, tokens, p, rest) && FilledRightly(app, o, text, ordered)
    ensures Explained(app, tokens, Log(p, Filled(o, text, ordered)), rest)
  {
    hide Rebuilds, Well, Pending, Owner;
    OneMore(app, p.uses, Filled(o, text, ordered), p.args);
    assert p.args + [] == p.args;
  }

  lemma PushBackExplained(app: App, tokens: seq<string>, p: Progress, rest: string)
    requires Explained(app, tokens, p, rest)
    ensures Explained(app, tokens, PushBack(p, rest), "")
  {
    hide Rebuilds, Well, Pending, Owner;
    if rest != "" {
      assert Front(p.args + ["-" + rest]) == p.args;
      OneMore(app, p.uses, PushedBack(rest), p.args + ["-" + rest]);
    }
  }

  lemma ParseOptionalExplained(app: App, tokens: seq<string>, p: Progress, o: nat, name: string, collected: nat, rest: string)
    requires o < |app.options| && Explained(app, tokens, p, rest) && Owner(p.uses) == Some(o)
    ensures var r := ParseOptional(app, p, o, name, collected).0; r.Done? ==> Explained(app, tokens, r.progress, rest)
  {
    hide Explained, Owner, MaxNum, MinNum, GatherOptional, Swallow, Log;
    var max, reserved := MaxNum(app.options[o]), Remaining(app, p.uses, true, |app.options|);
    GatherOptionalExplained(app, tokens, p, o, max, reserved, collected, rest);
    var q := GatherOptional(app, p, o, max, reserved, collected).0;
    SwallowExplained(app, tokens, q, rest);
    var flag := app.flagValue(o, name, "");
    if flag.Some? { FilledExplained(app, tokens, Swallow(app, q), o, flag.value, true, rest); }
  }

  lemma ParseEndExplained(app: App, tokens: seq<string>, p: Progress, o: nat, collected: nat, rest: string)
    requires o < |app.options| && Explained(app, tokens, p, rest)
    ensures var r := ParseEnd(app, p, o, collected, rest); r.Done? ==> Explained(app, tokens, r.progress, "")
  {
    hide Explained, MinNum, PushBack, Log;
    FilledExplained(app, tokens, p, o, "", false, rest);
    PushBackExplained(app, tokens, p, rest);
    PushBackExplained(app, tokens, Log(p, Filled(o, "", false)), rest);
  }

  lemma ParseOptionExplained(app: App, tokens: seq<string>, p: Progress, kind: Classifier, o: nat)
    requires p.args != [] && o < |app.options| && Explained(app, tokens, p, "")
    requires kind == Recognize(app, Last(p.args)) && kind != Positional && kind != PositionalMark
    requires GoesBy(app, kind, Split(kind, Last(p.args)).0, o)
    requires forall k :: 0 <= k < o ==> !GoesBy(app, kind, Split(kind, Last(p.args)).0, k)
    ensures var r := ParseOption(app, p, kind, o); r.Done? ==> Explained(app, tokens, r.progress, "")
  {
    hide Explained, Owner, MinNum, Gather, ParseOptional, ParseEnd, Results, Recognize, TextOf, GoesBy;
    if ParseOption(app, p, kind, o).Done? {
      var spec, token := app.options[o], Last(p.args);
      var (name, value, rest) := Split(kind, token);
      var text := TextOf(app, o, name, value, rest).value;
      var left := if MaxNum(spec) == 0 then rest else "";
      var collected := if MaxNum(spec) == 0 || text == None then 0 else |app.pieces(o, text.value)|;
      NamedExplained(app, tokens, p, kind, o);
      var taken := Take(Separated(app, p, o), Named(o, token, text, left));
      GatherExplained(app, tokens, taken, o, MinNum(spec), collected, left);
      var (q, enough) := Gather(app, taken, o, MinNum(spec), collected);
      ParseOptionalExplained(app, tokens, q, o, name, enough, left);
      var (outcome, total) := ParseOptional(app, q, o, name, enough);
      ParseEndExplained(app, tokens, outcome.progress, o, total, left);
    }
  }

  lemma NamedExplained(app: App, tokens: seq<string>, p: Progress, kind: Classifier, o: nat)
    requires p.args != [] && o < |app.options| && Explained(app, tokens, p, "")
    requires kind == Recognize(app, Last(p.args)) && kind != Positional && kind != PositionalMark
    requires GoesBy(app, kind, Split(kind, Last(p.args)).0, o)
    requires forall k :: 0 <= k < o ==> !GoesBy(app, kind, Split(kind, Last(p.args)).0, k)
    ensures var token := Last(p.args); var (name, value, rest) := Split(kind, token);
      var text := TextOf(app, o, name, value, rest);
      text.Some? ==>
        var left := if MaxNum(app.options[o]) == 0 then rest else "";
        var taken := Take(Separated(app, p, o), Named(o, token, text.value, left));
        Explained(app, tokens, taken, left) && Owner(taken.uses) == Some(o)
  {
    hide Rebuilds, Well, Owner, Results, Recognize, GoesBy, MaxNum, Pending;
    var token := Last(p.args);
    var (name, value, rest) := Split(kind, token);
    var text := TextOf(app, o, name, value, rest);
    SeparatedExplained(app, tokens, p, o);
    assert value + rest == if value != "" then value else rest;
    if text.Some? {
      var left := if MaxNum(app.options[o]) == 0 then rest else "";
      assert NamedRightly(app, o, token, text.value, left);
      TakenToken(Separated(app, p, o), token);
      TakeExplained(app, tokens, Separated(app, p, o), Named(o, token, text.value, left), "");
    }
  }

  lemma ParseSingleExplained(app: App, tokens: seq<string>, p: Progress)
    requires p.args != [] && Explained(app, tokens, p, "")
    ensures var r := ParseSingle(app, p); r.Done? ==> Explained(app, tokens, r.progress, "")
  {
    hide ParseOption, ParsePositional, Recognize, GoesBy, Rebuilds, Well, Pending;
    var token := Last(p.args);
    var kind := if p.positionalOnly then Positional else Recognize(app, token);
    match kind {
      case PositionalMark => MarkIsTwoDashes(app, token); MissingExplained(app, tokens, p, PositionalMark, "--");
      case Positional => ParsePositionalExplained(app, tokens, p);
      case _ =>
        var o := FindOption(app, kind, Split(kind, token).0);
        if o < |app.options| {
          ParseOptionExplained(app, tokens, p, kind, o);
        } else {
          MissingExplained(app, tokens, p, kind, token);
        }
    }
  }

  lemma MarkIsTwoDashes(app: App, token: string)
    ensures Recognize(app, token) == PositionalMark ==> token == "--"
  {
  }

  lemma {:induction false} ParseExplained(app: App, tokens: seq<string>, p: Progress)
    requires Explained(app, tokens, p, "")
    ensures var r := Parse(app, p); r.Done? ==> Explained(app, tokens, r.progress, "") && r.progress.args == []
    decreases Weight(p.args)
  {
    hide Explained, ParseSingle;
    if p.args != [] {
      ParseSingleExplained(app, tokens, p);
      ParseSingleShrinks(app, p);
      var r := ParseSingle(app, p);
      if r.Done? { ParseExplained(app, tokens, r.progress); }
    }
  }

  // Whatever the options are: when the parser is done, the command line can be
  // put together again from what was done with its tokens.
  lemma EveryTokenAccountedFor(app: App, args: seq<string>)
    ensures var r := Parse(app, Progress(args, false, [])); r.Done? ==>
      && r.progress.args == []
      && Rebuilds(r.progress.uses, [], args)
      && Well(app, r.progress.uses) && Pending(r.progress.uses) == ""
  {
    ParseExplained(app, args, Progress(args, false, []));
  }


  // ----- The order of the missing tokens ------------------------------------

  // A token of the command line, or the rest of a bundle of short flags.
  predicate PieceOf(whole: string, token: string)
  {
    token == whole || (IsShort(whole) && exists i {:trigger whole[i..]} :: 2 <= i < |whole| && token == "-" + whole[i..])
  }

  predicate Placed(tokens: seq<string>, places: seq<nat>, texts: seq<string>)
  {
    && |places| == |texts|
    && forall k :: 0 <= k < |places| ==> places[k] < |tokens| && PieceOf(tokens[places[k]], texts[k])
  }

  predicate Increasing(places: seq<nat>)
  {
    forall i, j :: 0 <= i < j < |places| ==> places[i] < places[j]
  }

  predicate Decreasing(places: seq<nat>)
  {
    forall i, j :: 0 <= i < j < |places| ==> places[i] > places[j]
  }

  // The texts come from different tokens, in the order of the command line,
  // whose first token is the last argument.
  ghost predicate KeepsOrder(tokens: seq<string>, texts: seq<string>)
  {
    exists places: seq<nat> :: Placed(tokens, places, texts) && Decreasing(places)
  }

  function Texts(missing: seq<(Classifier, string)>): (texts: seq<string>)
    ensures |texts| == |missing| && forall k :: 0 <= k < |texts| ==> texts[k] == missing[k].1
  {
    seq(|missing|, k requires 0 <= k < |missing| => missing[k].1)
  }

  // Where the arguments that are left, the missing tokens and the rest of the
  // current bundle are from: the missing ones come before the others.
  predicate Traced(tokens: seq<string>, args: seq<string>, missing: seq<string>, rest: string,
                   left: seq<nat>, lost: seq<nat>, current: nat)
  {
    && Placed(tokens, left, args) && Increasing(left)
    && Placed(tokens, lost, missing) && Decreasing(lost)
    && (left != [] && lost != [] ==> Last(left) < Last(lost))
    && (rest != "" ==>
          && current < |tokens| && PieceOf(tokens[current], "-" + rest)
          && (left != [] ==> Last(left) < current) && (lost != [] ==> current < Last(lost)))
  }

  lemma {:induction false} TraceTokens(app: App, uses: seq<Use>, args: seq<string>, tokens: seq<string>)
      returns (left: seq<nat>, lost: seq<nat>, current: nat)
    requires Rebuilds(uses, args, tokens) && Well(app, uses)
    ensures Traced(tokens, args, Texts(MissingIn(uses)), Pending(uses), left, lost, current)
  {
    hide WellUsed, CanUndo, Undo;
    if uses == [] {
      left, lost, current := seq(|args|, i => i), [], 0;
    } else {
      var u := Last(uses);
      left, lost, current := TraceTokens(app, Front(uses), Undo(u, args), tokens);
      left, lost, current := TraceUse(app, Front(uses), u, args, tokens, left, lost, current);
      assert uses == Front(uses) + [u];
    }
  }

  lemma TraceUse(app: App, uses: seq<Use>, u: Use, args: seq<string>, tokens: seq<string>,
                 left: seq<nat>, lost: seq<nat>, current: nat)
      returns (left': seq<nat>, lost': seq<nat>, current': nat)
    requires CanUndo(u, args) && WellUsed(app, uses, u)
    requires Traced(tokens, Undo(u, args), Texts(MissingIn(uses)), Pending(uses), left, lost, current)
    ensures Traced(tokens, args, Texts(MissingIn(uses + [u])), Pending(uses + [u]), left', lost', current')
  {
    hide Traced, Well, Rebuilds, MissingIn, Results, ParseOrder, Pending, Owner, NamedRightly;
    OneMoreUse(app, uses, u);
    OneMore(app, uses, u, args);
    ghost var missing, rest := Texts(MissingIn(uses)), Pending(uses);
    left', lost', current' := left, lost, current;
    assert args + [] == args;
    if TokenOf(u) != [] {
      TraceTaken(tokens, args, TokenOf(u)[0], missing, rest, left, lost, current);
      left' := Front(left);
    }
    match u {
      case Missing(_, token) =>
        lost' := lost + [Last(left)];
        TraceMissing(tokens, args, token, missing, rest, left, lost, current);
        assert Texts(MissingIn(uses + [u])) == missing + [token];
      case Named(o, token, text, rest') =>
        current' := Last(left);
        NamedRest(app, o, token, text, rest');
        TraceNamed(tokens, args, token, rest', missing, rest, left, lost, current);
      case PushedBack(_) =>
        left' := left + [current];
        TracePushedBack(tokens, args, missing, rest, left, lost, current);
      case _ =>
    }
    assert !u.Missing? ==> Texts(MissingIn(uses + [u])) == missing;
  }

  lemma NamedRest(app: App, o: nat, token: string, text: Option<string>, rest: string)
    requires NamedRightly(app, o, token, text, rest)
    ensures rest != "" ==> IsShort(token) && |token| > 2 && rest == token[2..]
  {
    hide GoesBy, Recognize;
  }

  lemma TraceTaken(tokens: seq<string>, args: seq<string>, token: string, missing: seq<string>, rest: string,
                   left: seq<nat>, lost: seq<nat>, current: nat)
    requires Traced(tokens, args + [token], missing, rest, left, lost, current)
    ensures left != [] && Traced(tokens, args, missing, rest, Front(left), lost, current)
  {
    hide PieceOf;
    assert |left| == |args| + 1;
    assert forall k :: 0 <= k < |args| ==> (args + [token])[k] == args[k];
  }

  lemma TraceMissing(tokens: seq<string>, args: seq<string>, token: string, missing: seq<string>, rest: string,
                     left: seq<nat>, lost: seq<nat>, current: nat)
    requires Traced(tokens, args + [token], missing, rest, left, lost, current)
    ensures left != [] && Traced(tokens, args, missing + [token], "", Front(left), lost + [Last(left)], current)
  {
    hide PieceOf;
    TraceTaken(tokens, args, token, missing, rest, left, lost, current);
    assert (args + [token])[|args|] == token;
  }

  lemma TraceNamed(tokens: seq<string>, args: seq<string>, token: string, rest': string, missing: seq<string>, rest: string,
                   left: seq<nat>, lost: seq<nat>, current: nat)
    requires Traced(tokens, args + [token], missing, rest, left, lost, current)
    requires rest' != "" ==> IsShort(token) && |token| > 2 && rest' == token[2..]
    ensures left != [] && Traced(tokens, args, missing, rest', Front(left), lost, Last(left))
  {
    TraceTaken(tokens, args, token, missing, rest, left, lost, current);
    assert (args + [token])[|args|] == token;
    if rest' != "" { RestOfPiece(tokens[Last(left)], token); }
    hide PieceOf;
  }

  lemma TracePushedBack(tokens: seq<string>, args: seq<string>, missing: seq<string>, rest: string,
                        left: seq<nat>, lost: seq<nat>, current: nat)
    requires args != [] && Last(args) == "-" + rest && rest != ""
    requires Traced(tokens, Front(args), missing, rest, left, lost, current)
    ensures Traced(tokens, args, missing, "", left + [current], lost, current)
  {
    hide PieceOf;
  }

  lemma RestOfPiece(whole: string, token: string)
    requires PieceOf(whole, token) && IsShort(token) && |token| > 2
    ensures PieceOf(whole, "-" + token[2..])
  {
    if token != whole {
      var i :| 2 <= i < |whole| && token == "-" + whole[i..];
      assert token[2..] == whole[i + 1..];
    }
  }

  // The missing tokens of a parse keep their order, whether or not flags share
  // tokens.
  lemma MissingKeepOrder(app: App, args: seq<string>)
    ensures var r := Parse(app, Progress(args, false, [])); r.Done? ==>
      KeepsOrder(args, Texts(MissingIn(r.progress.uses)))
  {
    var r := Parse(app, Progress(args, false, []));
    if r.Done? {
      EveryTokenAccountedFor(app, args);
      var _, lost, _ := TraceTokens(app, r.progress.uses, [], args);
      assert Placed(args, lost, Texts(MissingIn(r.progress.uses))) && Decreasing(lost);
    }
  }
}
