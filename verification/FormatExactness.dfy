// When a compiled format string means what the interpreted one means.
module FormatExactness {
  import opened Options
  import opened FormatStrings
  import opened FormatCompiler
  import Scanners

  // What interpreting a string prints, and what evaluating the compiled string
  // prints; None is any error.
  function Interpreted(args: Args, s: string): Option<seq<Piece>>
  {
    InterpretFrom(args, s, 0, 0)
  }

  function InterpretFrom(args: Args, s: string, pos: nat, next: int): Option<seq<Piece>>
    requires pos <= |s|
  {
    match Scan(args, s, pos, State([], next)) case Ok(st) => Some(st.out) case Err(_) => None
  }

  function FormatCompiled(args: Args, s: string): Option<seq<Piece>>
  {
    match Compile(args, s) case Compiled(tree) => Eval(args, tree) case _ => None
  }

  // ----- The condition ------------------------------------------------------

  // A format string is safe to compile if
  // - every closing brace is doubled, and every field is closed by one;
  // - specs of a field that comes under manual indexing refer to no argument by
  //   an automatic index;
  // - after a name that the compiler knows, no argument is referred to by index,
  //   explicit or automatic, in a field or in its specs, unless indexing was
  //   manual before;
  // - a name means the same to the compiler and at run time, and a field whose
  //   name only the latter knows has no specs.
  // While such a name makes the compiler count ahead, ahead is true.
  datatype Kept = Kept(id: nat, next: int, ahead: bool)

  function KeepRef(args: Args, r: Ref, next: int, ahead: bool): Option<Kept>
  {
    match r
    case AutoRef => if next >= 0 && !ahead then Some(Kept(next, next + 1, false)) else None
    case IndexRef(i) => if next <= 0 && !ahead then Some(Kept(i, MANUAL, false)) else None
    case NameRef(n) =>
      match args.named(n)
      case None => None
      case Some(id) =>
        match args.fixedName(n)
        case None => Some(Kept(id, next, ahead))
        case Some(i) => if i == id then Some(Kept(id, next, next >= 0)) else None
  }

  // The next index after the references of specs.
  function KeepSpecs(args: Args, refs: seq<Ref>, next: int, ahead: bool): Option<int>
  {
    match ResolveAll(args, refs, next)
    case Err(_) => None
    case Ok(all) => if ahead && exists i :: 0 <= i < |refs| && !refs[i].NameRef? then None else Some(all.next)
  }

  datatype Safe = Safe(end: nat, next: int, ahead: bool)

  function KeepField(args: Args, s: string, pos: nat, next: int, ahead: bool): (r: Option<Safe>)
    requires pos < |s| && s[pos] == '{'
    ensures r.Some? ==> pos + 1 < r.value.end <= |s|
  {
    if pos + 1 == |s| then None
    else if s[pos + 1] == '{' then Some(Safe(pos + 2, next, ahead))
    else
      match ParseArgId(s, pos + 1)
      case Err(_) => None
      case Ok(p) =>
        match KeepRef(args, p.r, next, ahead)
        case None => None
        case Some(k) =>
          if p.end < |s| && s[p.end] == '}' then Some(Safe(p.end + 1, k.next, k.ahead))
          else if p.end < |s| && s[p.end] == ':' && (p.r.NameRef? ==> args.fixedName(p.r.name).Some?) then
            match args.syntax(k.id, s[p.end + 1..])
            case None => None
            case Some(spec) =>
              var specEnd := p.end + 1 + spec.length;
              if specEnd >= |s| || s[specEnd] != '}' then None
              else match KeepSpecs(args, spec.refs, k.next, k.ahead)
                case None => None
                case Some(next') => Some(Safe(specEnd + 1, next', k.ahead))
          else None
  }

  predicate SafeFrom(args: Args, s: string, pos: nat, next: int, ahead: bool)
    requires pos <= |s|
    decreases |s| - pos
  {
    if pos == |s| then true
    else if s[pos] == '{' then
      match KeepField(args, s, pos, next, ahead)
      case None => false
      case Some(k) => SafeFrom(args, s, k.end, k.next, k.ahead)
    else if s[pos] == '}' then pos + 1 < |s| && s[pos + 1] == '}' && SafeFrom(args, s, pos + 2, next, ahead)
    else SafeFrom(args, s, pos + 1, next, ahead)
  }

  predicate SafeToCompile(args: Args, s: string)
  {
    SafeFrom(args, s, 0, 0, false)
  }

  // The two counters: both are manual, or the compiler is ahead or not.
  predicate Related(next: int, id: int, ahead: bool)
  {
    if next < 0 then next == MANUAL && id == MANUAL && !ahead else next <= id && (ahead <==> next < id)
  }

  // ----- Interpreting, piece by piece -----------------------------------------

  datatype Printed = Printed(piece: Piece, end: nat, next: int)

  // What a field adds to the output.
  function PrintField(args: Args, s: string, pos: nat, next: int): (r: Option<Printed>)
    requires pos < |s| && s[pos] == '{'
    ensures r.Some? ==> pos + 1 < r.value.end <= |s|
  {
    match ParseField(args, s, pos, State([], next))
    case Err(_) => None
    case Ok(f) => if |f.st.out| == 1 then Some(Printed(f.st.out[0], f.end, f.st.next)) else None
  }

  lemma FieldAddsPiece(args: Args, s: string, pos: nat, st: State)
    requires pos < |s| && s[pos] == '{'
    ensures match ParseField(args, s, pos, st)
      case Err(_) => PrintField(args, s, pos, st.next) == None
      case Ok(f) =>
        && PrintField(args, s, pos, st.next).Some?
        && var p := PrintField(args, s, pos, st.next).value;
           f.st == State(st.out + [p.piece], p.next) && f.end == p.end
  {
    assert Chars("{") == [Text('{')];
    hide ResolveAll, ParseArgId, Chars;
  }

  lemma {:induction false} ScanAppends(args: Args, s: string, pos: nat, st: State)
    requires pos <= |s|
    ensures match Scan(args, s, pos, st)
      case Err(_) => InterpretFrom(args, s, pos, st.next) == None
      case Ok(st') => InterpretFrom(args, s, pos, st.next).Some? && st'.out == st.out + InterpretFrom(args, s, pos, st.next).value
    decreases |s| - pos, 0
  {
    hide ParseField, Chars;
    if pos == |s| {
      assert st.out + [] == st.out;
    } else if s[pos] == '{' {
      FieldAddsPiece(args, s, pos, st);
      FieldAddsPiece(args, s, pos, State([], st.next));
      var p := PrintField(args, s, pos, st.next);
      if p.Some? { ScanAppendsAfter(args, s, p.value.end, st, p.value.piece, p.value.next); }
    } else if s[pos] != '}' {
      ScanAppendsAfter(args, s, pos + 1, st, Text(s[pos]), st.next);
      TextAdded(st, s[pos]);
      TextAdded(State([], st.next), s[pos]);
    } else if pos + 1 < |s| && s[pos + 1] == '}' {
      ScanAppendsAfter(args, s, pos + 2, st, Text('}'), st.next);
      TextAdded(st, '}');
      TextAdded(State([], st.next), '}');
    }
  }

  lemma TextAdded(st: State, c: char)
    ensures AddText(st, [c]) == State(st.out + [Text(c)], st.next)
  {
    assert Chars([c]) == [Text(c)];
  }

  lemma ScanAppendsAfter(args: Args, s: string, pos: nat, st: State, piece: Piece, next: int)
    requires pos <= |s|
    ensures match Scan(args, s, pos, State(st.out + [piece], next))
      case Err(_) => Scan(args, s, pos, State([] + [piece], next)).Err?
      case Ok(st') =>
        && Scan(args, s, pos, State([] + [piece], next)).Ok?
        && st'.out == st.out + Scan(args, s, pos, State([] + [piece], next)).value.out
    ensures match Scan(args, s, pos, State([] + [piece], next))
      case Err(_) => InterpretFrom(args, s, pos, next) == None
      case Ok(st') => InterpretFrom(args, s, pos, next).Some? && st'.out == [piece] + InterpretFrom(args, s, pos, next).value
    decreases |s| - pos, 1
  {
    hide Scan, InterpretFrom;
    ScanAppends(args, s, pos, State(st.out + [piece], next));
    ScanAppends(args, s, pos, State([] + [piece], next));
    var rest := InterpretFrom(args, s, pos, next);
    if rest.Some? { assert st.out + [piece] + rest.value == st.out + ([piece] + rest.value); }
  }

  lemma InterpretStep(args: Args, s: string, pos: nat, next: int)
    requires pos <= |s|
    ensures InterpretFrom(args, s, pos, next) ==
      if pos == |s| then Some([])
      else if s[pos] == '{' then
        match PrintField(args, s, pos, next)
        case None => None
        case Some(p) => Join(Some(p.piece), InterpretFrom(args, s, p.end, p.next))
      else if s[pos] == '}' then
        if pos + 1 < |s| && s[pos + 1] == '}' then Join(Some(Text('}')), InterpretFrom(args, s, pos + 2, next)) else None
      else Join(Some(Text(s[pos])), InterpretFrom(args, s, pos + 1, next))
  {
    hide ParseField, Chars;
    var st := State([], next);
    if pos == |s| {
    } else if s[pos] == '{' {
      FieldAddsPiece(args, s, pos, st);
      var p := PrintField(args, s, pos, next);
      if p.Some? { ScanAppendsAfter(args, s, p.value.end, st, p.value.piece, p.value.next); }
    } else if s[pos] != '}' {
      ScanAppendsAfter(args, s, pos + 1, st, Text(s[pos]), next);
      TextAdded(st, s[pos]);
    } else if pos + 1 < |s| && s[pos + 1] == '}' {
      ScanAppendsAfter(args, s, pos + 2, st, Text('}'), next);
      TextAdded(st, '}');
    }
  }

  // ----- What the compiler read, piece by piece -------------------------------

  function ShowFrom(args: Args, s: string, pos: nat, id: int): Option<seq<Piece>>
    requires pos <= |s|
  {
    ShowReading(args, Read(args, s, pos, id))
  }

  function ShowReading(args: Args, r: Reading): Option<seq<Piece>>
  {
    match r case Parts(parts) => ShowAll(args, parts) case _ => None
  }

  lemma ShowStep(args: Args, s: string, pos: nat, id: int)
    requires pos <= |s|
    ensures ShowFrom(args, s, pos, id) ==
      if pos == |s| then Some([])
      else if s[pos] == '{' then
        match ReadField(args, s, pos, id)
        case Step(part, end, next) => Join(Show(args, part), ShowFrom(args, s, end, next))
        case _ => None
      else if s[pos] == '}' then
        if pos + 1 < |s| then Join(Some(Text('}')), ShowFrom(args, s, pos + 2, id)) else None
      else Join(Some(Text(s[pos])), ShowFrom(args, s, pos + 1, id))
  {
    hide ReadField, Show;
    if pos < |s| {
      if s[pos] == '{' {
        var step := ReadField(args, s, pos, id);
        if step.Step? { ShowMore(args, step.part, Read(args, s, step.end, step.next)); }
      } else if s[pos] != '}' {
        ShowMore(args, Letter(s[pos]), Read(args, s, pos + 1, id));
        ShowLetter(args, s[pos]);
      } else if pos + 1 < |s| {
        ShowMore(args, Letter('}'), Read(args, s, pos + 2, id));
        ShowLetter(args, '}');
      }
    }
  }

  lemma ShowLetter(args: Args, c: char)
    ensures Show(args, Letter(c)) == Some(Text(c))
  {
  }

  lemma ShowMore(args: Args, part: Part, r: Reading)
    ensures ShowReading(args, More(part, r)) == Join(Show(args, part), ShowReading(args, r))
  {
    if r.Parts? { assert ([part] + r.parts)[1..] == r.parts; }
  }

  lemma CompiledShows(args: Args, s: string)
    ensures FormatCompiled(args, s) == ShowFrom(args, s, 0, 0)
  {
    CompilesWhatItReads(args, s);
    var c := Compile(args, s);
    if c.Compiled? { EvalShowsLeaves(args, c.tree); }
  }

  // ----- References -----------------------------------------------------------

  // Under manual indexing, and while the counters agree, references that the
  // interpreter resolves are the same for the compiler.
  lemma {:induction false} SameSpecs(args: Args, refs: seq<Ref>, next: int, id: int)
    requires ResolveAll(args, refs, next).Ok?
    requires next == id || (next == MANUAL && id == 0)
    ensures Fix(refs, id).Some? && LookUp(args, Fix(refs, id).value.refs) == Some(ResolveAll(args, refs, next).value.ids)
    ensures next == id ==> Fix(refs, id).value.next == ResolveAll(args, refs, next).value.next
    ensures next == MANUAL ==> ResolveAll(args, refs, next).value.next == MANUAL
    ensures next > 0 ==> ResolveAll(args, refs, next).value.next >= next
  {
    if |refs| > 0 {
      var r := Resolve(args, refs[0], next).value;
      match refs[0]
      case AutoRef => SameSpecs(args, refs[1..], next + 1, id + 1);
      case IndexRef(_) => SameSpecs(args, refs[1..], MANUAL, MANUAL);
      case NameRef(_) => SameSpecs(args, refs[1..], next, id);
    }
  }

  // Names alone do not depend on the counters.
  lemma {:induction false} NamesOnly(args: Args, refs: seq<Ref>, next: int, id: int)
    requires ResolveAll(args, refs, next).Ok? && forall i :: 0 <= i < |refs| ==> refs[i].NameRef?
    ensures Fix(refs, id) == Some(Fixed(refs, id))
    ensures LookUp(args, refs) == Some(ResolveAll(args, refs, next).value.ids) && ResolveAll(args, refs, next).value.next == next
  {
    if |refs| > 0 {
      NamesOnly(args, refs[1..], next, id);
      assert [refs[0]] + refs[1..] == refs;
    }
  }

  // With the compiler ahead, any index tells the two apart.
  lemma {:induction false} AheadDiffers(args: Args, refs: seq<Ref>, next: int, id: int)
    requires 0 <= next < id && ResolveAll(args, refs, next).Ok? && Fix(refs, id).Some?
    requires LookUp(args, Fix(refs, id).value.refs) == Some(ResolveAll(args, refs, next).value.ids)
    ensures forall i :: 0 <= i < |refs| ==> refs[i].NameRef?
  {
    if |refs| > 0 {
      var f := Fix(refs, id).value;
      var rest := Fix(refs[1..], if refs[0].AutoRef? then id + 1 else id).value;
      assert f.refs[0] == (if refs[0].AutoRef? then IndexRef(id) else refs[0]) && f.refs[1..] == rest.refs;
      var ids := ResolveAll(args, refs, next).value.ids;
      assert ids[0] == Resolve(args, refs[0], next).value.id;
      assert LookUp(args, f.refs).value[0] == ids[0];
      assert refs[0].NameRef?;
      assert LookUp(args, rest.refs).value == ids[1..];
      AheadDiffers(args, refs[1..], next, id);
    }
  }

  // ----- Fields ---------------------------------------------------------------

  // A field with an argument that has been read up to end.
  lemma PrintArg(args: Args, s: string, pos: nat, next: int)
    requires pos + 1 < |s| && s[pos] == '{' && s[pos + 1] != '{'
    ensures PrintField(args, s, pos, next) ==
      match ParseArgId(s, pos + 1)
      case Err(_) => None
      case Ok(p) =>
        match Resolve(args, p.r, next)
        case Err(_) => None
        case Ok(r) =>
          if p.end == |s| || r.id >= args.count then None
          else if s[p.end] == '}' then Some(Printed(Field(r.id, [], args.plain(r.id)), p.end + 1, r.next))
          else if s[p.end] == ':' then PrintSpecs(args, s, p.end + 1, r.id, r.next)
          else None
  {
    hide ResolveAll, ParseArgId, Resolve;
  }

  function PrintSpecs(args: Args, s: string, pos: nat, id: nat, next: int): (r: Option<Printed>)
    requires pos <= |s|
    ensures r.Some? ==> pos < r.value.end <= |s|
  {
    match args.syntax(id, s[pos..])
    case None => None
    case Some(spec) =>
      var specEnd := pos + spec.length;
      if specEnd >= |s| || s[specEnd] != '}' then None
      else match ResolveAll(args, spec.refs, next)
        case Err(_) => None
        case Ok(all) =>
          match args.rendered(id, s[pos..specEnd], all.ids)
          case None => None
          case Some(output) => Some(Printed(Field(id, all.ids, output), specEnd + 1, all.next))
  }

  // Where the condition holds, both add the same piece, or both fail.
  ghost predicate SameStep(args: Args, p: Option<Printed>, r: Step, next: int, ahead: bool)
  {
    match p
    case None => !(r.Step? && Show(args, r.part).Some?)
    case Some(printed) =>
      && r.Step? && Show(args, r.part) == Some(printed.piece) && r.end == printed.end
      && printed.next == next && Related(next, r.next, ahead)
  }

  // The argument has been resolved: next and id are the counters after that.
  lemma SafeArg(args: Args, s: string, end: nat, arg: nat, next: int, id: int, ahead: bool)
    requires end < |s| && Related(next, id, ahead) && (next == MANUAL || id > 0)
    requires s[end] == ':' && args.syntax(arg, s[end + 1..]).Some?
    requires var spec := args.syntax(arg, s[end + 1..]).value;
      && end + 1 + spec.length < |s| && s[end + 1 + spec.length] == '}'
      && KeepSpecs(args, spec.refs, next, ahead).Some?
    ensures var spec := args.syntax(arg, s[end + 1..]).value;
      var p := if arg < args.count then PrintSpecs(args, s, end + 1, arg, next) else None;
      SameStep(args, p, ReadArg(args, s, end, arg, id), KeepSpecs(args, spec.refs, next, ahead).value, ahead)
      && (p.Some? ==> p.value.end == end + 2 + spec.length)
  {
    hide ResolveAll, Fix, LookUp;
    var refs := args.syntax(arg, s[end + 1..]).value.refs;
    if ahead { NamesOnly(args, refs, next, id); } else { SameSpecs(args, refs, next, if next < 0 then 0 else id); }
  }

  lemma SafePlainArg(args: Args, s: string, end: nat, arg: nat, next: int, id: int, ahead: bool)
    requires end < |s| && s[end] == '}' && Related(next, id, ahead)
    ensures var p := if arg < args.count then Some(Printed(Field(arg, [], args.plain(arg)), end + 1, next)) else None;
      SameStep(args, p, ReadArg(args, s, end, arg, id), next, ahead)
  {
  }

  lemma SafeName(args: Args, name: string, end: nat, next: int, id: int, ahead: bool)
    requires Related(next, id, ahead) && args.named(name).Some?
    ensures var arg := args.named(name).value;
      var p := if arg < args.count then Some(Printed(Field(arg, [], args.plain(arg)), end + 1, next)) else None;
      SameStep(args, p, Step(ByName(name), end + 1, id), next, ahead)
  {
  }

  // The compiler's counter after a reference.
  function NextId(args: Args, r: Ref, id: int): int
  {
    match r
    case AutoRef => id + 1
    case IndexRef(_) => MANUAL
    case NameRef(n) => if args.fixedName(n) == None then id else if id >= 0 then id + 1 else MANUAL
  }

  lemma SafeRef(args: Args, r: Ref, next: int, id: int, ahead: bool)
    requires Related(next, id, ahead) && KeepRef(args, r, next, ahead).Some?
    ensures var k := KeepRef(args, r, next, ahead).value;
      && Resolve(args, r, next) == Ok(Resolved(k.id, k.next))
      && Related(k.next, NextId(args, r, id), k.ahead)
      && (k.next == MANUAL || NextId(args, r, id) > 0 || (r.NameRef? && args.fixedName(r.name).None?))
      && (r.AutoRef? ==> id >= 0 && k.id == id)
      && (r.IndexRef? ==> id <= 0 && k.id == r.index)
      && (r.NameRef? && args.fixedName(r.name).Some? ==> args.fixedName(r.name).value == k.id)
  {
  }

  // The compiler's reading of a field whose reference it can resolve.
  lemma ReadRef(args: Args, s: string, pos: nat, id: int)
    requires pos + 1 < |s| && s[pos] == '{' && s[pos + 1] != '{' && ParseArgId(s, pos + 1).Ok?
    requires var p := ParseArgId(s, pos + 1).value; p.end < |s| && (s[p.end] == '}' || s[p.end] == ':')
    ensures var p := ParseArgId(s, pos + 1).value; var field := ReadField(args, s, pos, id);
      && (p.r.AutoRef? ==> field == if id >= 0 then ReadArg(args, s, p.end, id, NextId(args, p.r, id)) else StepRejected)
      && (p.r.IndexRef? ==> field == if id <= 0 then ReadArg(args, s, p.end, p.r.index, NextId(args, p.r, id)) else StepRejected)
      && (p.r.NameRef? && args.fixedName(p.r.name).Some? ==>
            field == ReadArg(args, s, p.end, args.fixedName(p.r.name).value, NextId(args, p.r, id)))
      && (p.r.NameRef? && args.fixedName(p.r.name).None? ==>
            field == if s[p.end] == '}' then Step(ByName(p.r.name), p.end + 1, id) else StepUnknown)
  {
    hide ParseArgId, ReadArg;
  }

  lemma EscapedField(args: Args, s: string, pos: nat, next: int, id: int, ahead: bool)
    requires pos + 1 < |s| && s[pos] == '{' && s[pos + 1] == '{' && Related(next, id, ahead)
    ensures SameStep(args, PrintField(args, s, pos, next), ReadField(args, s, pos, id), next, ahead)
    ensures PrintField(args, s, pos, next).Some? && PrintField(args, s, pos, next).value.end == pos + 2
    ensures KeepField(args, s, pos, next, ahead) == Some(Safe(pos + 2, next, ahead))
  {
    var st := AddText(State([], next), "{");
    assert Chars("{") == [Text('{')];
    assert st.out == [Text('{')];
  }

  lemma SafeFieldAgrees(args: Args, s: string, pos: nat, next: int, id: int, ahead: bool)
    requires pos < |s| && s[pos] == '{' && Related(next, id, ahead) && KeepField(args, s, pos, next, ahead).Some?
    ensures var k := KeepField(args, s, pos, next, ahead).value;
      var p := PrintField(args, s, pos, next);
      SameStep(args, p, ReadField(args, s, pos, id), k.next, k.ahead) && (p.Some? ==> p.value.end == k.end)
  {
    hide ParseArgId, KeepSpecs, PrintSpecs, ReadArg, PrintField, KeepRef, Resolve, Related, SameStep, ReadField, NextId;
    if s[pos + 1] == '{' {
      EscapedField(args, s, pos, next, id, ahead);
    } else {
      PrintArg(args, s, pos, next);
      ReadRef(args, s, pos, id);
      var p := ParseArgId(s, pos + 1).value;
      var k := KeepRef(args, p.r, next, ahead).value;
      var id' := NextId(args, p.r, id);
      SafeRef(args, p.r, next, id, ahead);
      if p.r.NameRef? && args.fixedName(p.r.name).None? {
        assert p.r == NameRef(p.r.name);
        UnknownName(args, p.r.name, next, id, ahead);
        SafeName(args, p.r.name, p.end, next, id, ahead);
      } else if s[p.end] == '}' {
        SafePlainArg(args, s, p.end, k.id, k.next, id', k.ahead);
      } else {
        SafeArg(args, s, p.end, k.id, k.next, id', k.ahead);
      }
    }
  }

  lemma UnknownName(args: Args, name: string, next: int, id: int, ahead: bool)
    requires args.fixedName(name).None? && KeepRef(args, NameRef(name), next, ahead).Some?
    ensures args.named(name).Some? && KeepRef(args, NameRef(name), next, ahead).value == Kept(args.named(name).value, next, ahead)
  {
  }

  // ----- The condition is sufficient ------------------------------------------

  lemma {:induction false} SafeAgrees(args: Args, s: string, pos: nat, next: int, id: int, ahead: bool)
    requires pos <= |s| && Related(next, id, ahead) && SafeFrom(args, s, pos, next, ahead)
    ensures InterpretFrom(args, s, pos, next) == ShowFrom(args, s, pos, id)
    decreases |s| - pos
  {
    hide InterpretFrom, ShowFrom, KeepField, PrintField, ReadField, Show;
    InterpretStep(args, s, pos, next);
    ShowStep(args, s, pos, id);
    if pos < |s| {
      if s[pos] == '{' {
        SafeFieldAgrees(args, s, pos, next, id, ahead);
        var k := KeepField(args, s, pos, next, ahead).value;
        var r := ReadField(args, s, pos, id);
        if PrintField(args, s, pos, next).Some? { SafeAgrees(args, s, k.end, k.next, r.next, k.ahead); }
      } else {
        SafeAgrees(args, s, if s[pos] == '}' then pos + 2 else pos + 1, next, id, ahead);
      }
    }
  }

  // ----- The condition is necessary -------------------------------------------

  lemma JoinIsInjective(p: Option<Piece>, rest: Option<seq<Piece>>, p': Option<Piece>, rest': Option<seq<Piece>>)
    requires Join(p, rest) == Join(p', rest') && Join(p, rest).Some?
    ensures p == p' && rest == rest' && p.Some? && rest.Some?
  {
    assert ([p.value] + rest.value)[0] == p.value && ([p.value] + rest.value)[1..] == rest.value;
    assert ([p'.value] + rest'.value)[0] == p'.value && ([p'.value] + rest'.value)[1..] == rest'.value;
  }

  lemma AgreeingRefIsSafe(args: Args, r: Ref, next: int, id: int, ahead: bool)
    requires Related(next, id, ahead) && Resolve(args, r, next).Ok?
    requires r.AutoRef? ==> Resolve(args, r, next).value.id == id
    requires r.IndexRef? ==> id <= 0
    requires r.NameRef? && args.fixedName(r.name).Some? ==> args.fixedName(r.name).value == Resolve(args, r, next).value.id
    ensures KeepRef(args, r, next, ahead).Some?
  {
  }

  lemma AgreeingSpecsAreSafe(args: Args, s: string, end: nat, arg: nat, next: int, id: int, ahead: bool)
    requires end < |s| && s[end] == ':' && Related(next, id, ahead) && (next == MANUAL || id > 0)
    requires PrintSpecs(args, s, end + 1, arg, next).Some? && ReadArg(args, s, end, arg, id).Step?
    requires Show(args, ReadArg(args, s, end, arg, id).part) == Some(PrintSpecs(args, s, end + 1, arg, next).value.piece)
    ensures args.syntax(arg, s[end + 1..]).Some?
    ensures var spec := args.syntax(arg, s[end + 1..]).value;
      && end + 1 + spec.length < |s| && s[end + 1 + spec.length] == '}'
      && KeepSpecs(args, spec.refs, next, ahead).Some?
  {
    hide ResolveAll, Fix, LookUp;
    var refs := args.syntax(arg, s[end + 1..]).value.refs;
    if ahead { AheadDiffers(args, refs, next, id); }
  }

  lemma AgreeingFieldIsSafe(args: Args, s: string, pos: nat, next: int, id: int, ahead: bool)
    requires pos < |s| && s[pos] == '{' && Related(next, id, ahead)
    requires PrintField(args, s, pos, next).Some? && ReadField(args, s, pos, id).Step?
    requires Show(args, ReadField(args, s, pos, id).part) == Some(PrintField(args, s, pos, next).value.piece)
    ensures KeepField(args, s, pos, next, ahead).Some?
  {
    hide ParseArgId, KeepSpecs, PrintSpecs, ReadArg, PrintField, KeepRef, Resolve, Related, ReadField, NextId, Show;
    if s[pos + 1] != '{' {
      PrintArg(args, s, pos, next);
      ReadRef(args, s, pos, id);
      var p := ParseArgId(s, pos + 1).value;
      var arg := Resolve(args, p.r, next).value.id;
      FieldIds(args, s, pos, next, id);
      AgreeingRefIsSafe(args, p.r, next, id, ahead);
      SafeRef(args, p.r, next, id, ahead);
      var k := KeepRef(args, p.r, next, ahead).value;
      if s[p.end] == ':' {
        AgreeingSpecsAreSafe(args, s, p.end, arg, k.next, NextId(args, p.r, id), k.ahead);
      }
    }
  }

  // The argument of a field can be told from what it adds.
  lemma FieldIds(args: Args, s: string, pos: nat, next: int, id: int)
    requires pos + 1 < |s| && s[pos] == '{' && s[pos + 1] != '{'
    requires PrintField(args, s, pos, next).Some? && ReadField(args, s, pos, id).Step?
    requires Show(args, ReadField(args, s, pos, id).part) == Some(PrintField(args, s, pos, next).value.piece)
    ensures ParseArgId(s, pos + 1).Ok?
    ensures var p := ParseArgId(s, pos + 1).value;
      && p.end < |s| && (s[p.end] == '}' || s[p.end] == ':')
      && Resolve(args, p.r, next).Ok?
      && (p.r.AutoRef? ==> Resolve(args, p.r, next).value.id == id)
      && (p.r.IndexRef? ==> id <= 0)
      && (p.r.NameRef? && args.fixedName(p.r.name).Some? ==> args.fixedName(p.r.name).value == Resolve(args, p.r, next).value.id)
      && (p.r.NameRef? && args.fixedName(p.r.name).None? ==> s[p.end] == '}')
  {
    hide ParseArgId, ResolveAll, Fix, LookUp, PrintField, Resolve;
    PrintArg(args, s, pos, next);
  }

  lemma {:induction false} AgreeIsSafe(args: Args, s: string, pos: nat, next: int, id: int, ahead: bool)
    requires pos <= |s| && Related(next, id, ahead)
    requires InterpretFrom(args, s, pos, next).Some? && InterpretFrom(args, s, pos, next) == ShowFrom(args, s, pos, id)
    ensures SafeFrom(args, s, pos, next, ahead)
    decreases |s| - pos
  {
    hide InterpretFrom, ShowFrom, KeepField, PrintField, ReadField, Show, Join;
    InterpretStep(args, s, pos, next);
    ShowStep(args, s, pos, id);
    if pos < |s| {
      if s[pos] == '{' {
        var p, r := PrintField(args, s, pos, next).value, ReadField(args, s, pos, id);
        JoinIsInjective(Some(p.piece), InterpretFrom(args, s, p.end, p.next), Show(args, r.part), ShowFrom(args, s, r.end, r.next));
        AgreeingFieldIsSafe(args, s, pos, next, id, ahead);
        SafeFieldAgrees(args, s, pos, next, id, ahead);
        var k := KeepField(args, s, pos, next, ahead).value;
        AgreeIsSafe(args, s, k.end, k.next, r.next, k.ahead);
      } else {
        var piece, end := Text(s[pos]), if s[pos] == '}' then pos + 2 else pos + 1;
        JoinIsInjective(Some(piece), InterpretFrom(args, s, end, next), Some(piece), ShowFrom(args, s, end, id));
        AgreeIsSafe(args, s, end, next, id, ahead);
      }
    }
  }

  // ----- The main results -----------------------------------------------------

  // Unless both fail, the compiled string prints what the interpreted one does
  // if and only if the string is safe to compile.
  lemma CompilationIsExact(args: Args, s: string)
    requires Interpreted(args, s).Some? || FormatCompiled(args, s).Some?
    ensures FormatCompiled(args, s) == Interpreted(args, s) <==> SafeToCompile(args, s)
  {
    hide InterpretFrom, ShowFrom, SafeFrom, Compile;
    CompiledShows(args, s);
    if SafeToCompile(args, s) { SafeAgrees(args, s, 0, 0, 0, false); }
    if FormatCompiled(args, s) == Interpreted(args, s) { AgreeIsSafe(args, s, 0, 0, 0, false); }
  }

  // In particular, every string that the interpreter accepts and that refers to
  // no argument by name compiles, and prints the same.
  lemma CompilationPreservesMeaning(args: Args, s: string)
    requires Scan(Unnamed(args), s, 0, INIT).Ok?
    ensures Scan(args, s, 0, INIT).Ok? && Compile(args, s).Compiled?
    ensures Eval(args, Compile(args, s).tree) == Some(Scan(args, s, 0, INIT).value.out)
  {
    hide SafeFrom, Compile;
    SameScan(args, s, 0, INIT);
    UnnamedIsSafe(args, s, 0, INIT);
    CompilationIsExact(args, s);
  }

  // The same arguments without their names. A string that scans with these
  // refers to no argument by name.
  function Unnamed(args: Args): Args
  {
    args.(named := _ => None)
  }

  lemma {:induction false} SameRefs(args: Args, refs: seq<Ref>, next: int)
    requires ResolveAll(Unnamed(args), refs, next).Ok?
    ensures ResolveAll(args, refs, next) == ResolveAll(Unnamed(args), refs, next)
  {
    if |refs| > 0 { SameRefs(args, refs[1..], Resolve(args, refs[0], next).value.next); }
  }

  lemma {:induction false} SameScan(args: Args, s: string, pos: nat, st: State)
    requires pos <= |s| && Scan(Unnamed(args), s, pos, st).Ok?
    ensures Scan(args, s, pos, st) == Scan(Unnamed(args), s, pos, st)
    decreases |s| - pos
  {
    if pos == |s| {
    } else if s[pos] == '{' {
      SameField(args, s, pos, st);
      var f := ParseField(args, s, pos, st).value;
      SameScan(args, s, f.end, f.st);
    } else if s[pos] == '}' {
      SameScan(args, s, pos + 2, AddText(st, "}"));
    } else {
      SameScan(args, s, pos + 1, AddText(st, [s[pos]]));
    }
  }

  lemma SameField(args: Args, s: string, pos: nat, st: State)
    requires pos < |s| && s[pos] == '{' && ParseField(Unnamed(args), s, pos, st).Ok?
    ensures ParseField(args, s, pos, st) == ParseField(Unnamed(args), s, pos, st)
    ensures var f := ParseField(args, s, pos, st).value;
      st.next >= MANUAL ==> KeepField(args, s, pos, st.next, false) == Some(Safe(f.end, f.st.next, false))
  {
    if s[pos + 1] != '{' {
      var p := ParseArgId(s, pos + 1).value;
      var r := Resolve(args, p.r, st.next).value;
      if s[p.end] == ':' {
        var spec := args.syntax(r.id, s[p.end + 1..]).value;
        SameRefs(args, spec.refs, r.next);
      }
    }
  }

  lemma {:induction false} UnnamedIsSafe(args: Args, s: string, pos: nat, st: State)
    requires pos <= |s| && Scan(Unnamed(args), s, pos, st).Ok? && st.next >= MANUAL
    ensures SafeFrom(args, s, pos, st.next, false)
    decreases |s| - pos
  {
    hide KeepField;
    if pos < |s| {
      if s[pos] == '{' {
        SameField(args, s, pos, st);
        var f := ParseField(args, s, pos, st).value;
        FieldNext(args, s, pos, st);
        UnnamedIsSafe(args, s, f.end, f.st);
      } else if s[pos] == '}' {
        UnnamedIsSafe(args, s, pos + 2, AddText(st, "}"));
      } else {
        UnnamedIsSafe(args, s, pos + 1, AddText(st, [s[pos]]));
      }
    }
  }

  lemma FieldNext(args: Args, s: string, pos: nat, st: State)
    requires pos < |s| && s[pos] == '{' && ParseField(args, s, pos, st).Ok? && st.next >= MANUAL
    ensures ParseField(args, s, pos, st).value.st.next >= MANUAL
  {
    if s[pos + 1] != '{' {
      var p := ParseArgId(s, pos + 1).value;
      var r := Resolve(args, p.r, st.next).value;
      if s[p.end] == ':' { RefsNext(args, args.syntax(r.id, s[p.end + 1..]).value.refs, r.next); }
    }
  }

  lemma {:induction false} RefsNext(args: Args, refs: seq<Ref>, next: int)
    requires ResolveAll(args, refs, next).Ok? && next >= MANUAL
    ensures ResolveAll(args, refs, next).value.next >= MANUAL
  {
    if |refs| > 0 { RefsNext(args, refs[1..], Resolve(args, refs[0], next).value.next); }
  }

  // Formatting with a string that compiles, or else by interpreting it.
  function FormatWith(args: Args, s: string): Option<seq<Piece>>
  {
    if Compile(args, s).UnknownFormat? then Interpreted(args, s) else FormatCompiled(args, s)
  }

  lemma FormattingIsExact(args: Args, s: string)
    requires Interpreted(args, s).Some? || FormatWith(args, s).Some?
    ensures FormatWith(args, s) == Interpreted(args, s) <==> SafeToCompile(args, s) || Compile(args, s).UnknownFormat?
  {
    hide Compile, SafeFrom, InterpretFrom;
    if !Compile(args, s).UnknownFormat? { CompilationIsExact(args, s); }
  }

  // ----- Where the two differ -------------------------------------------------

  // The compiler does not look at the second character after a closing brace.
  lemma UnmatchedCloseCompiles(args: Args, c: char)
    requires c != '}'
    ensures Scan(args, ['}', c], 0, INIT) == Err(UnmatchedClose)
    ensures Compile(args, ['}', c]) == Compiled(TextNode("}"))
  {
    var s := ['}', c];
    assert CompileFrom(args, s, 0, 0) == ParseTail(args, TextNode("}"), s, 2, 0, 0);
  }

  // A named field advances the automatic index of the compiler only: the field
  // after it refers to another argument.
  lemma NamedFieldShiftsIndex(args: Args)
    requires args.count == 2 && args.named("a") == Some(1) && args.fixedName("a") == Some(1)
    ensures Scan(args, "{a}{}", 0, INIT).Ok?
    ensures Scan(args, "{a}{}", 0, INIT).value.out == [Field(1, [], args.plain(1)), Field(0, [], args.plain(0))]
    ensures Compile(args, "{a}{}") == Compiled(Concat(FieldNode(1), FieldNode(1)))
  {
    var s := "{a}{}";
    assert NameEnd(s, 2) == 2;
    assert s[1..2] == "a";
    assert ParseArgId(s, 1) == Ok(ParsedRef(NameRef("a"), 2));
    assert ParseArgId(s, 4) == Ok(ParsedRef(AutoRef, 4));
    var st1 := State([Field(1, [], args.plain(1))], 0);
    assert INIT.out + [Field(1, [], args.plain(1))] == st1.out;
    Scanners.OpeningBrace(args, s, 0, INIT);
    Scanners.OpeningBrace(args, s, 3, st1);
    var st2 := State([Field(1, [], args.plain(1)), Field(0, [], args.plain(0))], 1);
    assert st1.out + [Field(0, [], args.plain(0))] == st2.out;
    Scanners.ScanEnd(args, s, st2);
  }

  // The specs of a field with an explicit index are counted from zero.
  lemma ManualSpecsCompile(args: Args)
    requires args.count == 1 && args.syntax(0, "{}}") == Some(SpecSyntax(2, [AutoRef]))
    ensures Scan(args, "{0:{}}", 0, INIT) == Err(AutoAfterManual)
    ensures Compile(args, "{0:{}}") == Compiled(SpecNode(0, "{}", [IndexRef(0)]))
  {
    var s := "{0:{}}";
    ZeroIndex(s);
    assert s[3..] == "{}}";
    assert s[3..5] == "{}";
    Scanners.OpeningBrace(args, s, 0, INIT);
    assert ResolveAll(args, [AutoRef], MANUAL) == Err(AutoAfterManual);
    assert Fix([], 1) == Some(Fixed([], 1));
    assert [AutoRef][1..] == [];
    assert [IndexRef(0)] + [] == [IndexRef(0)];
    assert Fix([AutoRef], 0) == Some(Fixed([IndexRef(0)], 1));
    assert FieldThenTail(args, s, 2, 0, 0, MANUAL) == Compiled(SpecNode(0, "{}", [IndexRef(0)]));
  }

  lemma ZeroIndex(s: string)
    requires |s| > 2 && s[1] == '0' && s[2] == ':'
    ensures ParseArgId(s, 1) == Ok(ParsedRef(IndexRef(0), 2))
  {
  }

  // The character that ends the specs is not looked at.
  lemma UnclosedSpecsCompile(args: Args)
    requires args.count == 1 && args.syntax(0, "dx") == Some(SpecSyntax(1, []))
    ensures Scan(args, "{:dx", 0, INIT) == Err(MissingClose)
    ensures Compile(args, "{:dx") == Compiled(SpecNode(0, "d", []))
  {
    var s := "{:dx";
    assert ParseArgId(s, 1) == Ok(ParsedRef(AutoRef, 1));
    assert s[2..] == "dx" && s[2..3] == "d";
    Scanners.OpeningBrace(args, s, 0, INIT);
    assert FieldThenTail(args, s, 1, 0, 0, 1) == Compiled(SpecNode(0, "d", []));
  }
}
