// The parsing of a command line by an application without subcommands. The
// parser is described by what it does with every token.
module CommandLine {
  import opened Options
  import opened Strings
  import opened Words

  datatype Classifier = Positional | PositionalMark | Short | Long | WindowsStyle

  datatype OptionSpec = OptionSpec(
    positional: bool, required: bool, allowExtraArgs: bool, injectSeparator: bool,
    typeSizeMin: nat, typeSizeMax: nat, expectedMin: nat, expectedMax: nat)

  // An application and its options. What the options do with a text is not
  // looked into: which names they go by, which values they accept, what a flag
  // stands for, and into which results they take a text apart.
  datatype App = App(
    options: seq<OptionSpec>,
    positionalsAtEnd: bool, validatePositionals: bool, validateOptionalArguments: bool,
    prefixCommand: bool, windowsStyle: bool,
    hasShort: (nat, string) -> bool, hasLong: (nat, string) -> bool,
    accepts: (nat, string) -> bool,
    flagValue: (nat, string, string) -> Option<string>,
    pieces: (nat, string) -> seq<string>)

  // Everything that the parser does, one thing after the other.
  datatype Use =
    // a token that belongs to no option
    | Missing(kind: Classifier, token: string)
    // a token that is an argument of an option
    | Value(o: nat, token: string)
    // a token that names an option, the text that the option gets with it, and
    // the rest of a bundle of short flags
    | Named(o: nat, token: string, text: Option<string>, rest: string)
    // the mark that ends a list of arguments
    | Swallowed
    // a text that an option gets without a token
    | Filled(o: nat, filling: string, ordered: bool)
    // the rest of a bundle becomes the next token
    | PushedBack(rest: string)

  datatype Error = TypedAtLeast(o: nat) | PartialType(o: nat) | Extras | FlagOverride(o: nat)

  // The last argument comes next.
  datatype Progress = Progress(args: seq<string>, positionalOnly: bool, uses: seq<Use>)

  datatype Outcome = Done(progress: Progress) | Failed(error: Error)

  // ----- What the application has after all this ----------------------------

  function Added(app: App, u: Use, o: nat): seq<string>
  {
    match u
    case Value(p, token) => if p == o then app.pieces(o, token) else []
    case Named(p, _, Some(text), _) => if p == o then app.pieces(o, text) else []
    case Filled(p, text, _) => if p == o then app.pieces(o, text) else []
    case _ => []
  }

  function Results(app: App, uses: seq<Use>, o: nat): seq<string>
  {
    if uses == [] then [] else Results(app, uses[..|uses| - 1], o) + Added(app, uses[|uses| - 1], o)
  }

  function MissingIn(uses: seq<Use>): seq<(Classifier, string)>
  {
    if uses == [] then [] else
      MissingIn(uses[..|uses| - 1]) + match uses[|uses| - 1] case Missing(kind, token) => [(kind, token)] case _ => []
  }

  function ParseOrder(uses: seq<Use>): seq<nat>
  {
    if uses == [] then [] else
      ParseOrder(uses[..|uses| - 1])
      + match uses[|uses| - 1]
        case Value(o, _) => [o]
        case Named(o, _, Some(_), _) => [o]
        case Filled(o, _, true) => [o]
        case _ => []
  }

  // What one more use adds.
  lemma OneMoreUse(app: App, uses: seq<Use>, u: Use)
    ensures forall o {:trigger Results(app, uses + [u], o)} :: Results(app, uses + [u], o) == Results(app, uses, o) + Added(app, u, o)
    ensures MissingIn(uses + [u]) == MissingIn(uses) + match u case Missing(kind, token) => [(kind, token)] case _ => []
    ensures ParseOrder(uses + [u]) == ParseOrder(uses) + OrderOf(u)
  {
    assert (uses + [u])[..|uses|] == uses;
  }

  function OrderOf(u: Use): seq<nat>
  {
    match u
    case Value(o, _) => [o]
    case Named(o, _, Some(_), _) => [o]
    case Filled(o, _, true) => [o]
    case _ => []
  }

  // ----- Names --------------------------------------------------------------

  predicate ValidFirstChar(c: char)
  {
    c != '-' && c != '!' && c != ' ' && c != '\n'
  }

  predicate IsShort(token: string)
  {
    |token| > 1 && token[0] == '-' && ValidFirstChar(token[1])
  }

  predicate IsLong(token: string)
  {
    |token| > 2 && token[0] == '-' && token[1] == '-' && ValidFirstChar(token[2])
  }

  predicate IsWindowsStyle(token: string)
  {
    |token| > 1 && token[0] == '/' && ValidFirstChar(token[1])
  }

  // The name of an option, its value, and the rest of a bundle.
  function Split(kind: Classifier, token: string): (string, string, string)
    requires kind == Short ==> IsShort(token)
    requires kind == Long ==> IsLong(token)
    requires kind == WindowsStyle ==> IsWindowsStyle(token)
  {
    match kind
    case Short => ([token[1]], "", token[2..])
    case Long =>
      var i := Find(token, '=', 0);
      if i < |token| then (token[2..i], token[i + 1..], "") else (token[2..], "", "")
    case WindowsStyle =>
      var i := Find(token, ':', 0);
      if i < |token| then (token[1..i], token[i + 1..], "") else (token[1..], "", "")
    case _ => ("", "", "")
  }

  // The first number from i on that has a property, or n.
  function First(n: nat, p: nat -> bool, i: nat): (r: nat)
    requires i <= n
    ensures i <= r <= n && (r < n ==> p(r)) && forall k :: i <= k < r ==> !p(k)
    decreases n - i
  {
    if i == n || p(i) then i else First(n, p, i + 1)
  }

  function Recognize(app: App, token: string): (kind: Classifier)
    ensures kind == Short ==> IsShort(token)
    ensures kind == Long ==> IsLong(token)
    ensures kind == WindowsStyle ==> IsWindowsStyle(token)
  {
    if token == "--" then PositionalMark
    else if IsLong(token) then Long
    else if IsShort(token) then
      if '0' <= token[1] <= '9' && forall o :: 0 <= o < |app.options| ==> !app.hasShort(o, [token[1]])
      then Positional else Short
    else if app.windowsStyle && IsWindowsStyle(token) then WindowsStyle
    else Positional
  }

  predicate GoesBy(app: App, kind: Classifier, name: string, o: nat)
  {
    match kind
    case Long => app.hasLong(o, name)
    case Short => app.hasShort(o, name)
    case _ => app.hasLong(o, name) || app.hasShort(o, name)
  }

  // ----- Numbers of arguments -----------------------------------------------

  const MAX_VECTOR_SIZE := 0x2000_0000

  function ItemsMin(spec: OptionSpec): nat
  {
    spec.typeSizeMin * spec.expectedMin
  }

  function CheckedProduct(a: nat, b: nat): nat
  {
    if a * b > INT_MAX then MAX_VECTOR_SIZE else a * b
  }

  function MinNum(spec: OptionSpec): nat
  {
    if spec.typeSizeMin < ItemsMin(spec) then spec.typeSizeMin else ItemsMin(spec)
  }

  function MaxNum(spec: OptionSpec): nat
  {
    var max := CheckedProduct(spec.typeSizeMax, spec.expectedMax);
    if max >= MAX_VECTOR_SIZE / 16 && !spec.allowExtraArgs
    then CheckedProduct(spec.typeSizeMax, spec.expectedMin) else max
  }

  // The arguments that positional options still lack.
  function Remaining(app: App, uses: seq<Use>, requiredOnly: bool, n: nat): nat
    requires n <= |app.options|
  {
    if n == 0 then 0 else
      var spec := app.options[n - 1];
      var count := |Results(app, uses, n - 1)|;
      Remaining(app, uses, requiredOnly, n - 1)
      + if spec.positional && (!requiredOnly || spec.required) && count < ItemsMin(spec)
        then ItemsMin(spec) - count else 0
  }

  // ----- Steps --------------------------------------------------------------

  function Last<T>(s: seq<T>): T
    requires s != []
  {
    s[|s| - 1]
  }

  function Front<T>(s: seq<T>): seq<T>
    requires s != []
  {
    s[..|s| - 1]
  }

  function Log(p: Progress, u: Use): Progress
  {
    p.(uses := p.uses + [u])
  }

  // Takes the next token.
  function Take(p: Progress, u: Use): Progress
    requires p.args != []
  {
    p.(args := Front(p.args), uses := p.uses + [u])
  }

  function Separated(app: App, p: Progress, o: nat): Progress
    requires o < |app.options|
  {
    var results := Results(app, p.uses, o);
    if app.options[o].injectSeparator && results != [] && Last(results) != "" then Log(p, Filled(o, "", false)) else p
  }

  // A required option takes precedence where there are no more arguments than
  // are required.
  predicate TakesAtEnd(app: App, uses: seq<Use>, token: string, o: nat)
    requires o < |app.options|
  {
    var spec := app.options[o];
    && spec.positional && spec.required && |Results(app, uses, o)| < ItemsMin(spec)
    && (app.validatePositionals ==> app.accepts(o, token))
  }

  predicate Takes(app: App, uses: seq<Use>, token: string, o: nat)
    requires o < |app.options|
  {
    var spec := app.options[o];
    && spec.positional && (|Results(app, uses, o)| < ItemsMin(spec) || spec.allowExtraArgs)
    && (app.validatePositionals ==> app.accepts(o, token))
  }

  function OptionAtEnd(app: App, uses: seq<Use>, token: string): (o: nat)
    ensures o <= |app.options| && (o < |app.options| ==> TakesAtEnd(app, uses, token, o))
    ensures forall k :: 0 <= k < o ==> !TakesAtEnd(app, uses, token, k)
  {
    var takes := (o: nat) => o < |app.options| && TakesAtEnd(app, uses, token, o);
    var o := First(|app.options|, takes, 0);
    assert forall k :: 0 <= k < o ==> takes(k) == TakesAtEnd(app, uses, token, k);
    o
  }

  function OptionTaking(app: App, uses: seq<Use>, token: string): (o: nat)
    ensures o <= |app.options| && (o < |app.options| ==> Takes(app, uses, token, o))
    ensures forall k :: 0 <= k < o ==> !Takes(app, uses, token, k)
  {
    var takes := (o: nat) => o < |app.options| && Takes(app, uses, token, o);
    var o := First(|app.options|, takes, 0);
    assert forall k :: 0 <= k < o ==> takes(k) == Takes(app, uses, token, k);
    o
  }

  function PositionalOption(app: App, p: Progress): (o: nat)
    requires p.args != []
    ensures o <= |app.options|
  {
    var n, token := |app.options|, Last(p.args);
    var atEnd := if app.positionalsAtEnd && |p.args| <= Remaining(app, p.uses, true, n)
                 then OptionAtEnd(app, p.uses, token) else n;
    if atEnd < n then atEnd else OptionTaking(app, p.uses, token)
  }

  function AllMissing(p: Progress): (q: Progress)
    ensures q.args == [] && q.positionalOnly == p.positionalOnly
    decreases |p.args|
  {
    if p.args == [] then p else AllMissing(Take(p, Missing(Positional, Last(p.args))))
  }

  function ParsePositional(app: App, p: Progress): Outcome
    requires p.args != []
  {
    var o := PositionalOption(app, p);
    var token := Last(p.args);
    if o < |app.options| then Done(Take(Separated(app, p, o), Value(o, token)))
    else if app.positionalsAtEnd then Failed(Extras)
    else
      var q := Take(p, Missing(Positional, token));
      Done(if app.prefixCommand then AllMissing(q) else q)
  }

  // Takes arguments until there are enough.
  function Gather(app: App, p: Progress, o: nat, min: nat, collected: nat): (r: (Progress, nat))
    ensures r.0.positionalOnly == p.positionalOnly
    decreases |p.args|
  {
    if collected < min && p.args != [] then
      var token := Last(p.args);
      Gather(app, Take(p, Value(o, token)), o, min, collected + |app.pieces(o, token)|)
    else (p, collected)
  }

  // Takes arguments as long as they do not look like something else.
  function GatherOptional(app: App, p: Progress, o: nat, max: nat, reserved: nat, collected: nat): (r: (Progress, nat))
    requires o < |app.options|
    ensures r.0.positionalOnly == p.positionalOnly
    decreases |p.args|
  {
    if (collected < max || app.options[o].allowExtraArgs) && p.args != []
       && Recognize(app, Last(p.args)) == Positional && reserved < |p.args|
       && (app.validateOptionalArguments ==> app.accepts(o, Last(p.args)))
    then
      var token := Last(p.args);
      GatherOptional(app, Take(p, Value(o, token)), o, max, reserved, collected + |app.pieces(o, token)|)
    else (p, collected)
  }

  function Swallow(app: App, p: Progress): Progress
  {
    if p.args != [] && Recognize(app, Last(p.args)) == PositionalMark then Take(p, Swallowed) else p
  }

  // The text that an option gets together with its name; none if a flag refuses
  // its value.
  function TextOf(app: App, o: nat, name: string, value: string, rest: string): Option<Option<string>>
    requires o < |app.options|
  {
    if MaxNum(app.options[o]) == 0 then
      match app.flagValue(o, name, value) case Some(text) => Some(Some(text)) case None => None
    else if value != "" then Some(Some(value))
    else if rest != "" then Some(Some(rest))
    else Some(None)
  }

  // The optional arguments of an option.
  function ParseOptional(app: App, p: Progress, o: nat, name: string, collected: nat): (Outcome, nat)
    requires o < |app.options|
  {
    var spec := app.options[o];
    if collected < MaxNum(spec) || spec.allowExtraArgs then
      var reserved := Remaining(app, p.uses, true, |app.options|);
      var (q, total) := GatherOptional(app, p, o, MaxNum(spec), reserved, collected);
      var r := Swallow(app, q);
      if MinNum(spec) == 0 && MaxNum(spec) > 0 && total == 0 then
        match app.flagValue(o, name, "")
        case Some(text) => (Done(Log(r, Filled(o, text, true))), total)
        case None => (Failed(FlagOverride(o)), total)
      else (Done(r), total)
    else (Done(p), collected)
  }

  // A list that ends within a type is filled up, if the type allows that.
  function ParseEnd(app: App, p: Progress, o: nat, collected: nat, rest: string): Outcome
    requires o < |app.options|
  {
    var spec := app.options[o];
    if MinNum(spec) > 0 && spec.typeSizeMax > 0 && collected % spec.typeSizeMax != 0 then
      if spec.typeSizeMax != spec.typeSizeMin then Done(PushBack(Log(p, Filled(o, "", false)), rest))
      else Failed(PartialType(o))
    else Done(PushBack(p, rest))
  }

  function PushBack(p: Progress, rest: string): Progress
  {
    if rest == "" then p else p.(args := p.args + ["-" + rest], uses := p.uses + [PushedBack(rest)])
  }

  function ParseOption(app: App, p: Progress, kind: Classifier, o: nat): Outcome
    requires p.args != [] && o < |app.options|
    requires kind == Short ==> IsShort(Last(p.args))
    requires kind == Long ==> IsLong(Last(p.args))
    requires kind == WindowsStyle ==> IsWindowsStyle(Last(p.args))
  {
    var spec, token := app.options[o], Last(p.args);
    var (name, value, rest) := Split(kind, token);
    match TextOf(app, o, name, value, rest)
    case None => Failed(FlagOverride(o))
    case Some(text) =>
      var left := if MaxNum(spec) == 0 then rest else "";
      var collected := if MaxNum(spec) == 0 || text == None then 0 else |app.pieces(o, text.value)|;
      var (q, enough) := Gather(app, Take(Separated(app, p, o), Named(o, token, text, left)), o, MinNum(spec), collected);
      if enough < MinNum(spec) then Failed(TypedAtLeast(o))
      else match ParseOptional(app, q, o, name, enough)
        case (Done(r), total) => ParseEnd(app, r, o, total, left)
        case (failed, _) => failed
  }

  function FindOption(app: App, kind: Classifier, name: string): (o: nat)
    ensures o <= |app.options|
    ensures o < |app.options| ==> GoesBy(app, kind, name, o)
    ensures forall k :: 0 <= k < o ==> !GoesBy(app, kind, name, k)
  {
    var goesBy := (o: nat) => GoesBy(app, kind, name, o);
    var o := First(|app.options|, goesBy, 0);
    assert forall k: nat :: goesBy(k) == GoesBy(app, kind, name, k);
    o
  }

  function ParseArg(app: App, p: Progress, kind: Classifier): Outcome
    requires p.args != []
    requires kind == Short ==> IsShort(Last(p.args))
    requires kind == Long ==> IsLong(Last(p.args))
    requires kind == WindowsStyle ==> IsWindowsStyle(Last(p.args))
  {
    var o := FindOption(app, kind, Split(kind, Last(p.args)).0);
    if o == |app.options| then Done(Take(p, Missing(kind, Last(p.args)))) else ParseOption(app, p, kind, o)
  }

  function ParseSingle(app: App, p: Progress): Outcome
    requires p.args != []
  {
    var kind := if p.positionalOnly then Positional else Recognize(app, Last(p.args));
    match kind
    case PositionalMark => Done(Take(p, Missing(PositionalMark, "--")).(positionalOnly := true))
    case Positional => (
      match ParsePositional(app, p)
      case Done(q) => Done(if app.positionalsAtEnd then q.(positionalOnly := true) else q)
      case failed => failed)
    case _ => ParseArg(app, p, kind)
  }

  // ----- Termination --------------------------------------------------------

  function Weight(args: seq<string>): nat
  {
    if args == [] then 0 else Weight(Front(args)) + |Last(args)| + 1
  }

  lemma WeightOfMore(args: seq<string>, token: string)
    ensures Weight(args + [token]) == Weight(args) + |token| + 1
  {
    assert Front(args + [token]) == args;
  }

  lemma {:induction false} GatherShrinks(app: App, p: Progress, o: nat, min: nat, collected: nat)
    ensures Weight(Gather(app, p, o, min, collected).0.args) <= Weight(p.args)
    decreases |p.args|
  {
    if collected < min && p.args != [] {
      var token := Last(p.args);
      GatherShrinks(app, Take(p, Value(o, token)), o, min, collected + |app.pieces(o, token)|);
    }
  }

  lemma {:induction false} GatherOptionalShrinks(app: App, p: Progress, o: nat, max: nat, reserved: nat, collected: nat)
    requires o < |app.options|
    ensures Weight(GatherOptional(app, p, o, max, reserved, collected).0.args) <= Weight(p.args)
    decreases |p.args|
  {
    if p.args != [] {
      var token := Last(p.args);
      GatherOptionalShrinks(app, Take(p, Value(o, token)), o, max, reserved, collected + |app.pieces(o, token)|);
    }
  }

  lemma ParseOptionalShrinks(app: App, p: Progress, o: nat, name: string, collected: nat)
    requires o < |app.options|
    ensures var r := ParseOptional(app, p, o, name, collected).0; r.Done? ==> Weight(r.progress.args) <= Weight(p.args)
  {
    hide Recognize, MaxNum, MinNum, GatherOptional;
    GatherOptionalShrinks(app, p, o, MaxNum(app.options[o]), Remaining(app, p.uses, true, |app.options|), collected);
  }

  lemma ParseEndGrows(app: App, p: Progress, o: nat, collected: nat, rest: string)
    requires o < |app.options|
    ensures var r := ParseEnd(app, p, o, collected, rest);
      r.Done? ==> Weight(r.progress.args) == Weight(p.args) + if rest == "" then 0 else |rest| + 2
  {
    hide Weight, MaxNum, MinNum;
    WeightOfMore(p.args, "-" + rest);
  }

  lemma ParseOptionShrinks(app: App, p: Progress, kind: Classifier, o: nat)
    requires p.args != [] && o < |app.options|
    requires kind == Short ==> IsShort(Last(p.args))
    requires kind == Long ==> IsLong(Last(p.args))
    requires kind == WindowsStyle ==> IsWindowsStyle(Last(p.args))
    ensures var r := ParseOption(app, p, kind, o); r.Done? ==> Weight(r.progress.args) < Weight(p.args)
  {
    hide Weight, MaxNum, MinNum, Gather, ParseOptional, ParseEnd, TextOf, Results;
    if ParseOption(app, p, kind, o).Done? {
      var spec, token := app.options[o], Last(p.args);
      var (name, value, rest) := Split(kind, token);
      var text := TextOf(app, o, name, value, rest).value;
      var left := if MaxNum(spec) == 0 then rest else "";
      var collected := if MaxNum(spec) == 0 || text == None then 0 else |app.pieces(o, text.value)|;
      var taken := Take(Separated(app, p, o), Named(o, token, text, left));
      assert p.args == Front(p.args) + [token];
      WeightOfMore(Front(p.args), token);
      GatherShrinks(app, taken, o, MinNum(spec), collected);
      var (q, enough) := Gather(app, taken, o, MinNum(spec), collected);
      ParseOptionalShrinks(app, q, o, name, enough);
      var (outcome, total) := ParseOptional(app, q, o, name, enough);
      ParseEndGrows(app, outcome.progress, o, total, left);
      assert left != "" ==> |token| == |left| + 2;
    }
  }

  // Every step makes the arguments shorter, although the rest of a bundle is
  // pushed back.
  lemma ParseSingleShrinks(app: App, p: Progress)
    requires p.args != []
    ensures var r := ParseSingle(app, p); r.Done? ==> Weight(r.progress.args) < Weight(p.args)
  {
    hide ParseOption, PositionalOption, Recognize, Results, GoesBy;
    var kind := if p.positionalOnly then Positional else Recognize(app, Last(p.args));
    assert p.args == Front(p.args) + [Last(p.args)];
    WeightOfMore(Front(p.args), Last(p.args));
    if kind == Short || kind == Long || kind == WindowsStyle {
      var o := FindOption(app, kind, Split(kind, Last(p.args)).0);
      if o < |app.options| { ParseOptionShrinks(app, p, kind, o); }
    }
  }

  function Parse(app: App, p: Progress): Outcome
    decreases Weight(p.args)
  {
    if p.args == [] then Done(p) else
      match ParseSingle(app, p)
      case Done(q) => ParseSingleShrinks(app, p); Parse(app, q)
      case failed => failed
  }
}
