// Compiling a format string into a tree of text and fields, and evaluating it.
module FormatCompiler {
  import opened Options
  import opened FormatStrings

  // Automatic indices were resolved when the string was compiled; names that
  // the specs refer to are looked up when the field is formatted.
  datatype Tree =
    | TextNode(data: string)
    | CodeUnit(c: char)
    | FieldNode(id: nat)
    | SpecNode(id: nat, spec: string, refs: seq<Ref>)
    | NamedNode(name: string)
    | Concat(lhs: Tree, rhs: Tree)

  datatype Compiled = Compiled(tree: Tree) | UnknownFormat | CompileError

  const MANUAL := -1

  // ----- Evaluation ---------------------------------------------------------

  // The arguments that the specs of a compiled field refer to.
  function LookUp(args: Args, refs: seq<Ref>): Option<seq<nat>>
  {
    if |refs| == 0 then Some([]) else
      var first := match refs[0]
        case AutoRef => None
        case IndexRef(i) => Some(i)
        case NameRef(n) => args.named(n);
      match (first, LookUp(args, refs[1..]))
      case (Some(id), Some(rest)) => Some([id] + rest)
      case _ => None
  }

  function ShowSpecs(args: Args, id: nat, spec: string, refs: seq<Ref>): Option<Piece>
  {
    match LookUp(args, refs)
    case None => None
    case Some(ids) =>
      match args.rendered(id, spec, ids)
      case None => None
      case Some(output) => Some(Field(id, ids, output))
  }

  function ShowNamed(args: Args, name: string): Option<Piece>
  {
    match args.named(name)
    case None => None
    case Some(id) => if id < args.count then Some(Field(id, [], args.plain(id))) else None
  }

  function Eval(args: Args, t: Tree): Option<seq<Piece>>
  {
    match t
    case TextNode(data) => Some(Chars(data))
    case CodeUnit(c) => Some([Text(c)])
    case FieldNode(id) => Some([Field(id, [], args.plain(id))])
    case SpecNode(id, spec, refs) =>
      (match ShowSpecs(args, id, spec, refs) case None => None case Some(piece) => Some([piece]))
    case NamedNode(name) =>
      (match ShowNamed(args, name) case None => None case Some(piece) => Some([piece]))
    case Concat(lhs, rhs) =>
      match (Eval(args, lhs), Eval(args, rhs))
      case (Some(l), Some(r)) => Some(l + r)
      case _ => None
  }

  // ----- Compilation --------------------------------------------------------

  // The end of the text that starts at pos: the only loop of the compiler.
  function TextEnd(s: string, pos: nat): (e: nat)
    requires pos <= |s|
    ensures pos <= e <= |s|
    ensures forall i :: pos <= i < e ==> s[i] != '{' && s[i] != '}'
    ensures e < |s| ==> s[e] == '{' || s[e] == '}'
    decreases |s| - pos
  {
    if pos == |s| || s[pos] == '{' || s[pos] == '}' then pos else TextEnd(s, pos + 1)
  }

  method ParseText(s: string, start: nat) returns (pos: nat)
    requires start <= |s|
    ensures pos == TextEnd(s, start)
  {
    pos := start;
    while pos != |s|
      invariant start <= pos <= |s| && TextEnd(s, start) == TextEnd(s, pos)
      decreases |s| - pos
    {
      if s[pos] == '{' || s[pos] == '}' { break; }
      pos := pos + 1;
    }
  }

  datatype Fixed = Fixed(refs: seq<Ref>, next: int)

  // The references of specs with the automatic indices resolved, counting from
  // next.
  function Fix(refs: seq<Ref>, next: int): Option<Fixed>
  {
    if |refs| == 0 then Some(Fixed([], next)) else
      match refs[0]
      case AutoRef => if next >= 0 then Keep(IndexRef(next), Fix(refs[1..], next + 1)) else None
      case IndexRef(i) => if next > 0 then None else Keep(refs[0], Fix(refs[1..], MANUAL))
      case NameRef(n) => Keep(refs[0], Fix(refs[1..], next))
  }

  function Keep(r: Ref, rest: Option<Fixed>): Option<Fixed>
  {
    match rest case None => None case Some(f) => Some(Fixed([r] + f.refs, f.next))
  }

  // Compiles the string from pos on; id is the next automatic index.
  function CompileFrom(args: Args, s: string, pos: nat, id: int): Compiled
    requires pos < |s|
    decreases |s| - pos, 2
  {
    if s[pos] == '{' then
      if pos + 1 == |s| then CompileError
      else if s[pos + 1] == '{' then ParseTail(args, TextNode("{"), s, pos + 2, pos, id)
      else if s[pos + 1] == '}' || s[pos + 1] == ':' then
        if id == MANUAL || id < 0 then CompileError
        else FieldThenTail(args, s, pos + 1, pos, id, id + 1)
      else
        match ParseArgId(s, pos + 1)
        case Err(_) => CompileError
        case Ok(p) =>
          if p.end == |s| || (s[p.end] != '}' && s[p.end] != ':') then CompileError
          else match p.r
            case AutoRef => CompileError
            case IndexRef(i) =>
              if id != MANUAL && id != 0 then CompileError
              else FieldThenTail(args, s, p.end, pos, i, MANUAL)
            case NameRef(n) =>
              match args.fixedName(n)
              case Some(i) => FieldThenTail(args, s, p.end, pos, i, if id != MANUAL then id + 1 else MANUAL)
              case None =>
                if s[p.end] == '}' then ParseTail(args, NamedNode(n), s, p.end + 1, pos, id) else UnknownFormat
    else if s[pos] == '}' then
      if pos + 1 == |s| then CompileError
      else ParseTail(args, TextNode("}"), s, pos + 2, pos, id)
    else
      var end := TextEnd(s, pos + 1);
      ParseTail(args, if end - pos > 1 then TextNode(s[pos..end]) else CodeUnit(s[pos]), s, end, pos, id)
  }

  // Compiles what follows the head that was read from position from.
  function ParseTail(args: Args, head: Tree, s: string, pos: nat, from: nat, id: int): Compiled
    requires from < pos <= |s|
    decreases |s| - from, 0
  {
    if pos != |s| then
      match CompileFrom(args, s, pos, id)
      case Compiled(tail) => Compiled(Concat(head, tail))
      case UnknownFormat => UnknownFormat
      case CompileError => CompileError
    else Compiled(head)
  }

  // A field whose argument has been read up to end. The parse context for the
  // specs starts from zero under manual indexing, and stays manual after it.
  function FieldThenTail(args: Args, s: string, end: nat, from: nat, arg: nat, nextId: int): Compiled
    requires from < end <= |s|
    decreases |s| - from, 1
  {
    if arg >= args.count then CompileError
    else if end < |s| && s[end] == '}' then ParseTail(args, FieldNode(arg), s, end + 1, from, nextId)
    else if end < |s| && s[end] == ':' then
      match args.syntax(arg, s[end + 1..])
      case None => CompileError
      case Some(spec) =>
        var start := if nextId == MANUAL then 0 else nextId;
        match Fix(spec.refs, start)
        case None => CompileError
        case Some(f) =>
          var specEnd := end + 1 + spec.length;
          if specEnd + 1 > |s| || (start != 0 && f.next < 0) then CompileError
          else ParseTail(args, SpecNode(arg, s[end + 1..specEnd], f.refs), s, specEnd + 1, from,
                         if start == 0 then MANUAL else f.next)
    else CompileError
  }

  function Compile(args: Args, s: string): Compiled
  {
    if |s| == 0 then Compiled(TextNode("")) else CompileFrom(args, s, 0, 0)
  }

  // ----- What the compiler reads --------------------------------------------

  // The compiler reads a string like the interpreter does, one character or
  // field at a time, but less strictly: it does not look at the character after
  // a closing brace, nor at the one that ends the specs; it counts from zero in
  // the specs of a field with an explicit index; and it counts a field with a
  // name that is known to it as an automatic one.
  datatype Part = Letter(c: char) | Plain(id: nat) | WithSpecs(id: nat, spec: string, refs: seq<Ref>) | ByName(name: string)

  // Strings with specs for a name that is not known are left to the
  // interpreter.
  datatype Reading = Parts(parts: seq<Part>) | GivesUp | Rejects

  datatype Step = Step(part: Part, end: nat, next: int) | StepUnknown | StepRejected

  function Leaves(t: Tree): seq<Part>
  {
    match t
    case TextNode(data) => Letters(data)
    case CodeUnit(c) => [Letter(c)]
    case FieldNode(id) => [Plain(id)]
    case SpecNode(id, spec, refs) => [WithSpecs(id, spec, refs)]
    case NamedNode(name) => [ByName(name)]
    case Concat(lhs, rhs) => Leaves(lhs) + Leaves(rhs)
  }

  function Letters(s: string): (p: seq<Part>)
    ensures |p| == |s| && forall i :: 0 <= i < |s| ==> p[i] == Letter(s[i])
  {
    seq(|s|, i requires 0 <= i < |s| => Letter(s[i]))
  }

  // The field, or escaped brace, whose opening brace is at pos.
  function ReadField(args: Args, s: string, pos: nat, id: int): (r: Step)
    requires pos < |s| && s[pos] == '{'
    ensures r.Step? ==> pos + 1 < r.end <= |s|
  {
    if pos + 1 == |s| then StepRejected
    else if s[pos + 1] == '{' then Step(Letter('{'), pos + 2, id)
    else
      match ParseArgId(s, pos + 1)
      case Err(_) => StepRejected
      case Ok(p) =>
        if p.end == |s| || (s[p.end] != '}' && s[p.end] != ':') then StepRejected
        else match p.r
          case AutoRef => if id >= 0 then ReadArg(args, s, p.end, id, id + 1) else StepRejected
          case IndexRef(i) => if id <= 0 then ReadArg(args, s, p.end, i, MANUAL) else StepRejected
          case NameRef(n) =>
            match args.fixedName(n)
            case Some(i) => ReadArg(args, s, p.end, i, if id >= 0 then id + 1 else MANUAL)
            case None => if s[p.end] == '}' then Step(ByName(n), p.end + 1, id) else StepUnknown
  }

  function ReadArg(args: Args, s: string, end: nat, arg: nat, next: int): (r: Step)
    requires end < |s| && (s[end] == '}' || s[end] == ':')
    ensures r.Step? ==> end < r.end <= |s|
  {
    if arg >= args.count then StepRejected
    else if s[end] == '}' then Step(Plain(arg), end + 1, next)
    else
      match args.syntax(arg, s[end + 1..])
      case None => StepRejected
      case Some(spec) =>
        match Fix(spec.refs, if next < 0 then 0 else next)
        case None => StepRejected
        case Some(f) =>
          var specEnd := end + 1 + spec.length;
          if specEnd >= |s| then StepRejected
          else Step(WithSpecs(arg, s[end + 1..specEnd], f.refs), specEnd + 1, if next < 0 then MANUAL else f.next)
  }

  function More(part: Part, r: Reading): Reading
  {
    match r case Parts(parts) => Parts([part] + parts) case other => other
  }

  function Read(args: Args, s: string, pos: nat, id: int): Reading
    requires pos <= |s|
    decreases |s| - pos
  {
    if pos == |s| then Parts([])
    else if s[pos] == '{' then
      match ReadField(args, s, pos, id)
      case Step(part, end, next) => More(part, Read(args, s, end, next))
      case StepUnknown => GivesUp
      case StepRejected => Rejects
    else if s[pos] == '}' then
      if pos + 1 == |s| then Rejects else More(Letter('}'), Read(args, s, pos + 2, id))
    else More(Letter(s[pos]), Read(args, s, pos + 1, id))
  }

  // ----- The compiler reads this, and nothing else ---------------------------

  function ReadingOf(c: Compiled): Reading
  {
    match c
    case Compiled(tree) => Parts(Leaves(tree))
    case UnknownFormat => GivesUp
    case CompileError => Rejects
  }

  function Front(parts: seq<Part>, r: Reading): Reading
  {
    match r case Parts(rest) => Parts(parts + rest) case other => other
  }

  // Counting in specs that do not start from zero never becomes manual.
  lemma {:induction false} FixKeepsCounting(refs: seq<Ref>, next: int)
    requires next > 0 && Fix(refs, next).Some?
    ensures Fix(refs, next).value.next >= next
  {
    if |refs| > 0 {
      FixKeepsCounting(refs[1..], if refs[0].AutoRef? then next + 1 else next);
    }
  }

  lemma {:induction false} ReadText(args: Args, s: string, pos: nat, end: nat, id: int)
    requires pos <= end <= |s| && forall i :: pos <= i < end ==> s[i] != '{' && s[i] != '}'
    ensures Read(args, s, pos, id) == Front(Letters(s[pos..end]), Read(args, s, end, id))
    decreases end - pos
  {
    hide ReadField;
    var r := Read(args, s, end, id);
    if pos < end {
      ReadText(args, s, pos + 1, end, id);
      assert Letters(s[pos..end]) == [Letter(s[pos])] + Letters(s[pos + 1..end]);
      if r.Parts? { assert Letters(s[pos..end]) + r.parts == [Letter(s[pos])] + (Letters(s[pos + 1..end]) + r.parts); }
    } else if r.Parts? {
      assert Letters(s[pos..end]) + r.parts == r.parts;
    }
  }

  lemma TailReads(args: Args, head: Tree, s: string, pos: nat, from: nat, id: int)
    requires from < pos <= |s| && id >= MANUAL
    ensures ReadingOf(ParseTail(args, head, s, pos, from, id)) == Front(Leaves(head), Read(args, s, pos, id))
    decreases |s| - from, 0
  {
    hide CompileFrom;
    if pos == |s| { assert Leaves(head) + [] == Leaves(head); } else { CompileReads(args, s, pos, id); }
  }

  lemma FieldReads(args: Args, s: string, end: nat, from: nat, arg: nat, nextId: int)
    requires from < end < |s| && (s[end] == '}' || s[end] == ':') && (nextId == MANUAL || nextId > 0)
    ensures ReadingOf(FieldThenTail(args, s, end, from, arg, nextId)) == match ReadArg(args, s, end, arg, nextId)
      case Step(part, e, next) => More(part, Read(args, s, e, next))
      case StepUnknown => GivesUp
      case StepRejected => Rejects
    decreases |s| - from, 1
  {
    hide ParseTail, Read, Fix;
    if arg < args.count {
      if s[end] == '}' {
        TailReads(args, FieldNode(arg), s, end + 1, from, nextId);
      } else if args.syntax(arg, s[end + 1..]).Some? {
        var spec := args.syntax(arg, s[end + 1..]).value;
        var f := Fix(spec.refs, if nextId < 0 then 0 else nextId);
        var specEnd := end + 1 + spec.length;
        if f.Some? && specEnd < |s| {
          if nextId > 0 { FixKeepsCounting(spec.refs, nextId); }
          TailReads(args, SpecNode(arg, s[end + 1..specEnd], f.value.refs), s, specEnd + 1, from,
                    if nextId < 0 then MANUAL else f.value.next);
        }
      }
    }
  }

  // Whatever the string: it compiles exactly if the compiler's reading succeeds,
  // into a tree with the parts that were read.
  lemma CompileReads(args: Args, s: string, pos: nat, id: int)
    requires pos < |s| && id >= MANUAL
    ensures ReadingOf(CompileFrom(args, s, pos, id)) == Read(args, s, pos, id)
    decreases |s| - pos, 3
  {
    hide ParseTail, FieldThenTail, Fix;
    if s[pos] == '{' {
      if pos + 1 < |s| {
        if s[pos + 1] == '{' {
          TailReads(args, TextNode("{"), s, pos + 2, pos, id);
          assert Letters("{") == [Letter('{')];
        } else {
          BraceReads(args, s, pos, id);
        }
      }
    } else if s[pos] == '}' {
      if pos + 1 < |s| {
        TailReads(args, TextNode("}"), s, pos + 2, pos, id);
        assert Letters("}") == [Letter('}')];
      }
    } else {
      var end := TextEnd(s, pos + 1);
      ReadText(args, s, pos, end, id);
      var head := if end - pos > 1 then TextNode(s[pos..end]) else CodeUnit(s[pos]);
      assert Leaves(head) == Letters(s[pos..end]);
      TailReads(args, head, s, end, pos, id);
    }
  }

  lemma BraceReads(args: Args, s: string, pos: nat, id: int)
    requires pos + 1 < |s| && s[pos] == '{' && s[pos + 1] != '{' && id >= MANUAL
    ensures ReadingOf(CompileFrom(args, s, pos, id)) == Read(args, s, pos, id)
    decreases |s| - pos, 2
  {
    hide ParseTail, FieldThenTail, ReadArg, Fix;
    var parsed := ParseArgId(s, pos + 1);
    if parsed.Ok? && parsed.value.end < |s| && (s[parsed.value.end] == '}' || s[parsed.value.end] == ':') {
      var end := parsed.value.end;
      match parsed.value.r {
        case AutoRef => if id >= 0 { FieldReads(args, s, end, pos, id, id + 1); }
        case IndexRef(i) => FieldReads(args, s, end, pos, i, MANUAL);
        case NameRef(n) =>
          var known := args.fixedName(n);
          if known.Some? {
            FieldReads(args, s, end, pos, known.value, if id >= 0 then id + 1 else MANUAL);
          } else if s[end] == '}' {
            TailReads(args, NamedNode(n), s, end + 1, pos, id);
          }
      }
    }
  }

  lemma CompilesWhatItReads(args: Args, s: string)
    ensures ReadingOf(Compile(args, s)) == Read(args, s, 0, 0)
  {
    if |s| > 0 { CompileReads(args, s, 0, 0); } else { assert Letters("") == []; }
  }

  // ----- Evaluation shows the parts ------------------------------------------

  function Show(args: Args, p: Part): Option<Piece>
  {
    match p
    case Letter(c) => Some(Text(c))
    case Plain(id) => Some(Field(id, [], args.plain(id)))
    case WithSpecs(id, spec, refs) => ShowSpecs(args, id, spec, refs)
    case ByName(name) => ShowNamed(args, name)
  }

  function Join(piece: Option<Piece>, rest: Option<seq<Piece>>): Option<seq<Piece>>
  {
    match (piece, rest)
    case (Some(p), Some(r)) => Some([p] + r)
    case _ => None
  }

  function ShowAll(args: Args, parts: seq<Part>): Option<seq<Piece>>
  {
    if parts == [] then Some([]) else Join(Show(args, parts[0]), ShowAll(args, parts[1..]))
  }

  lemma {:induction false} ShowConcat(args: Args, p: seq<Part>, q: seq<Part>)
    ensures ShowAll(args, p + q) == match (ShowAll(args, p), ShowAll(args, q))
      case (Some(l), Some(r)) => Some(l + r)
      case _ => None
  {
    if p == [] {
      assert p + q == q;
      if ShowAll(args, q).Some? { assert [] + ShowAll(args, q).value == ShowAll(args, q).value; }
    } else {
      ShowConcat(args, p[1..], q);
      assert (p + q)[0] == p[0] && (p + q)[1..] == p[1..] + q;
      JoinConcat(Show(args, p[0]), ShowAll(args, p[1..]), ShowAll(args, q));
    }
  }

  lemma JoinConcat(piece: Option<Piece>, l: Option<seq<Piece>>, r: Option<seq<Piece>>)
    ensures piece.Some? && l.Some? && r.Some? ==> [piece.value] + (l.value + r.value) == [piece.value] + l.value + r.value
  {
  }

  lemma {:induction false} ShowLetters(args: Args, s: string)
    ensures ShowAll(args, Letters(s)) == Some(Chars(s))
  {
    if |s| > 0 {
      ShowLetters(args, s[1..]);
      assert Letters(s)[1..] == Letters(s[1..]);
      assert [Text(s[0])] + Chars(s[1..]) == Chars(s);
    }
  }

  lemma {:induction false} EvalShowsLeaves(args: Args, t: Tree)
    ensures Eval(args, t) == ShowAll(args, Leaves(t))
  {
    hide ShowSpecs, ShowNamed;
    match t
    case TextNode(data) => ShowLetters(args, data);
    case Concat(lhs, rhs) =>
      EvalShowsLeaves(args, lhs);
      EvalShowsLeaves(args, rhs);
      ShowConcat(args, Leaves(lhs), Leaves(rhs));
    case _ => ShowOne(args, Leaves(t)[0]);
  }

  lemma ShowOne(args: Args, part: Part)
    ensures ShowAll(args, [part]) == match Show(args, part) case None => None case Some(piece) => Some([piece])
  {
    if Show(args, part).Some? { assert [Show(args, part).value] + [] == [Show(args, part).value]; }
  }
}
