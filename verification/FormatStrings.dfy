// Format strings: what they mean, and the two scanners that interpret them.
module FormatStrings {
  import opened Options
  import opened Digits
  import opened Powers
  import opened Words

  // ----- Arguments and handler state ----------------------------------------

  // A reference to an argument, in a field or nested in its format specs.
  datatype Ref = AutoRef | IndexRef(index: nat) | NameRef(name: string)

  // Format specs as the formatter of an argument reads them: how many
  // characters they take and which arguments they refer to.
  datatype SpecSyntax = SpecSyntax(length: nat, refs: seq<Ref>)

  // The arguments and their formatters. The formatters themselves are not
  // modelled: they are functions of the argument, the specs and the arguments
  // that the specs refer to. Some of the names are known when a format string
  // is compiled.
  datatype Args = Args(count: nat,
                       named: string -> Option<nat>,
                       fixedName: string -> Option<nat>,
                       syntax: (nat, string) -> Option<SpecSyntax>,
                       plain: nat -> string,
                       rendered: (nat, string, seq<nat>) -> Option<string>)

  // A piece of output: a character of text, or a formatted argument with the
  // arguments that its specs refer to.
  datatype Piece = Text(c: char) | Field(id: nat, refs: seq<nat>, output: string)

  function Chars(s: string): (p: seq<Piece>)
    ensures |p| == |s|
  {
    seq(|s|, i requires 0 <= i < |s| => Text(s[i]))
  }

  datatype Error = UnmatchedClose | InvalidFormat | MissingClose | ArgNotFound | ManualAfterAuto | AutoAfterManual | BadSpec

  // The parse context's next index is -1 after manual indexing.
  datatype State = State(out: seq<Piece>, next: int)

  datatype Result<T> = Ok(value: T) | Err(error: Error)

  const INIT := State([], 0)

  function AddText(st: State, s: string): State
  {
    st.(out := st.out + Chars(s))
  }

  // ----- Argument indices ---------------------------------------------------

  datatype Resolved = Resolved(id: nat, next: int)

  // Automatic and manual indexing may not be mixed; names go with both.
  function Resolve(args: Args, r: Ref, next: int): Result<Resolved>
  {
    match r
    case AutoRef => if next >= 0 then Ok(Resolved(next, next + 1)) else Err(AutoAfterManual)
    case IndexRef(i) => if next > 0 then Err(ManualAfterAuto) else Ok(Resolved(i, -1))
    case NameRef(n) =>
      match args.named(n)
      case Some(i) => Ok(Resolved(i, next))
      case None => Err(ArgNotFound)
  }

  datatype ResolvedAll = ResolvedAll(ids: seq<nat>, next: int)

  function ResolveAll(args: Args, refs: seq<Ref>, next: int): Result<ResolvedAll>
  {
    if |refs| == 0 then Ok(ResolvedAll([], next))
    else
      match Resolve(args, refs[0], next)
      case Err(e) => Err(e)
      case Ok(r) =>
        match ResolveAll(args, refs[1..], r.next)
        case Err(e) => Err(e)
        case Ok(rest) => Ok(ResolvedAll([r.id] + rest.ids, rest.next))
  }

  // ----- Argument references ------------------------------------------------

  predicate IsNameStart(c: char)
  {
    'a' <= c <= 'z' || 'A' <= c <= 'Z' || c == '_'
  }

  predicate IsNameChar(c: char)
  {
    IsNameStart(c) || IsDigit(c)
  }

  // The end of the run of digits, or of name characters, that starts at pos.
  function DigitsEnd(s: string, pos: nat): (e: nat)
    requires pos <= |s|
    ensures pos <= e <= |s| && AllDigits(s[pos..e]) && (e < |s| ==> !IsDigit(s[e]))
    decreases |s| - pos
  {
    if pos < |s| && IsDigit(s[pos]) then DigitsEnd(s, pos + 1) else pos
  }

  function NameEnd(s: string, pos: nat): (e: nat)
    requires pos <= |s|
    ensures pos <= e <= |s|
    decreases |s| - pos
  {
    if pos < |s| && IsNameChar(s[pos]) then NameEnd(s, pos + 1) else pos
  }

  // A run of digits as a number. More than ten digits are not looked at, even
  // if they begin with zeros.
  function NonnegativeInt(digits: string, errorValue: int): int
  {
    if |digits| <= 10 && DigitsVal(digits) <= INT_MAX then DigitsVal(digits) else errorValue
  }

  // An index that does not fit into an int is replaced by the largest one.
  function IndexValue(digits: string): (r: nat)
    requires AllDigits(digits)
  {
    DigitsNonNegative(digits);
    NonnegativeInt(digits, INT_MAX)
  }

  // The number of digits makes no difference to an index.
  lemma IndexIsClamped(digits: string)
    requires |digits| > 0 && AllDigits(digits) && digits[0] != '0'
    ensures IndexValue(digits) == if DigitsVal(digits) <= INT_MAX then DigitsVal(digits) else INT_MAX
  {
    if |digits| > 10 {
      assert Pow(10, 10) == 10000000000;
      LeadingDigit(digits);
      PowMonotone(10, 10, |digits| - 1);
    }
  }

  datatype ParsedRef = ParsedRef(r: Ref, end: nat)

  // The reference that starts at pos, directly after an opening brace.
  function ParseArgId(s: string, pos: nat): (r: Result<ParsedRef>)
    requires pos < |s|
    ensures r.Ok? ==> pos <= r.value.end <= |s|
  {
    var c := s[pos];
    if c == '}' || c == ':' then Ok(ParsedRef(AutoRef, pos))
    else if IsDigit(c) then
      var end := if c == '0' then pos + 1 else DigitsEnd(s, pos);
      if end == |s| || (s[end] != '}' && s[end] != ':') then Err(InvalidFormat)
      else Ok(ParsedRef(IndexRef(if c == '0' then 0 else IndexValue(s[pos..end])), end))
    else if !IsNameStart(c) then Err(InvalidFormat)
    else var end := NameEnd(s, pos + 1); Ok(ParsedRef(NameRef(s[pos..end]), end))
  }

  // The digits are accumulated in 32 bits; overflow is detected afterwards
  // from the number of digits and the value before the last one.
  method ParseNonnegativeInt(s: string, begin: nat, errorValue: int) returns (value: int, end: nat)
    requires begin < |s| && IsDigit(s[begin])
    ensures end == DigitsEnd(s, begin)
    ensures value == NonnegativeInt(s[begin..end], errorValue)
  {
    hide DigitsVal, DigitsEnd;
    var prev := 0;
    value := 0;
    end := begin;
    ghost var total, before: int := 0, 0;
    RunStart(s, begin);
    while end < |s| && IsDigit(s[end])
      invariant begin <= end <= |s| && DigitsEnd(s, begin) == DigitsEnd(s, end)
      invariant total == DigitsVal(s[begin..end]) && total >= 0 && before >= 0
      invariant value == total % 0x1_0000_0000
      invariant end > begin ==> before == DigitsVal(s[begin..end - 1]) && prev == before % 0x1_0000_0000
      decreases |s| - end
    {
      RunStep(s, begin, end);
      WrapStep(total, DigitOf(s[end]));
      prev, before := value, total;
      value := (value * 10 + DigitOf(s[end])) % 0x1_0000_0000;
      total := 10 * total + DigitOf(s[end]);
      end := end + 1;
    }
    RunEnd(s, begin, end);
    var numDigits := end - begin;
    RunBounds(s, begin, end);
    if numDigits <= 9 { return; }
    if !(numDigits == 10 && prev * 10 + DigitOf(s[end - 1]) <= INT_MAX) { value := errorValue; }
  }

  lemma WrapStep(total: nat, d: int)
    requires 0 <= d <= 9
    ensures (total % 0x1_0000_0000 * 10 + d) % 0x1_0000_0000 == (10 * total + d) % 0x1_0000_0000
  {
    var w := 0x1_0000_0000;
    var x := total % w * 10 + d;
    SameRemainder(x, 10 * (total / w), 10 * total + d);
  }

  lemma SameRemainder(x: int, k: int, y: int)
    requires y == x + k * 0x1_0000_0000
    ensures x % 0x1_0000_0000 == y % 0x1_0000_0000
  {
    DivModUnique(y, 0x1_0000_0000, x / 0x1_0000_0000 + k, x % 0x1_0000_0000);
  }

  lemma RunEnd(s: string, begin: nat, end: nat)
    requires begin < end <= |s| && IsDigit(s[begin]) && DigitsEnd(s, begin) == DigitsEnd(s, end)
    requires end == |s| || !IsDigit(s[end])
    ensures end == DigitsEnd(s, begin) && AllDigits(s[begin..end])
  {
  }

  lemma RunStart(s: string, begin: nat)
    requires begin < |s|
    ensures DigitsVal(s[begin..begin]) == 0 && AllDigits(s[begin..begin])
  {
  }

  lemma RunStep(s: string, begin: nat, end: nat)
    requires begin <= end < |s|
    ensures DigitsVal(s[begin..end + 1]) == 10 * DigitsVal(s[begin..end]) + DigitOf(s[end])
    ensures IsDigit(s[end]) ==> DigitsEnd(s, end) == DigitsEnd(s, end + 1)
  {
    assert s[begin..end + 1] == s[begin..end] + [s[end]];
    DigitsPush(s[begin..end], s[end]);
  }

  // The number of digits bounds the value.
  lemma RunBounds(s: string, begin: nat, end: nat)
    requires begin < end <= |s| && AllDigits(s[begin..end])
    ensures end - begin <= 9 ==> 0 <= DigitsVal(s[begin..end]) < 1000000000
    ensures end - begin == 10 ==> 0 <= DigitsVal(s[begin..end - 1]) < 1000000000
    ensures DigitsVal(s[begin..end]) == 10 * DigitsVal(s[begin..end - 1]) + DigitOf(s[end - 1])
  {
    RunStep(s, begin, end - 1);
    assert Pow(10, 9) == 1000000000;
    DigitsNonNegative(s[begin..end]);
    assert s[begin..end - 1] == s[begin..end][..end - begin - 1];
    DigitsNonNegative(s[begin..end - 1]);
    if end - begin <= 9 { PowMonotone(10, end - begin, 9); }
  }

  lemma {:induction false} LeadingDigit(d: string)
    requires |d| > 0 && AllDigits(d) && d[0] != '0'
    ensures DigitsVal(d) >= Pow(10, |d| - 1)
  {
    if |d| > 1 { LeadingDigit(d[..|d| - 1]); }
  }

  // Reads the reference that starts at pos, one part after the other.
  method ReadArgId(s: string, pos: nat) returns (r: Result<ParsedRef>)
    requires pos < |s|
    ensures r == ParseArgId(s, pos)
  {
    hide DigitsVal, DigitsEnd, NonnegativeInt;
    var c := s[pos];
    if c == '}' || c == ':' { return Ok(ParsedRef(AutoRef, pos)); }
    if IsDigit(c) {
      var index, end := 0, pos + 1;
      if c != '0' {
        index, end := ParseNonnegativeInt(s, pos, INT_MAX);
        assert index == IndexValue(s[pos..end]);
      }
      if end == |s| || (s[end] != '}' && s[end] != ':') { return Err(InvalidFormat); }
      return Ok(ParsedRef(IndexRef(index), end));
    }
    if !IsNameStart(c) { return Err(InvalidFormat); }
    var it := pos + 1;
    while it != |s| && IsNameChar(s[it])
      invariant pos < it <= |s| && NameEnd(s, it) == NameEnd(s, pos + 1)
      decreases |s| - it
    {
      it := it + 1;
    }
    r := Ok(ParsedRef(NameRef(s[pos..it]), it));
  }

  // ----- Replacement fields -------------------------------------------------

  datatype Parsed = Parsed(st: State, end: nat)

  // Formats a field without specs.
  function PlainField(args: Args, id: nat, st: State): Result<State>
  {
    if id < args.count then Ok(st.(out := st.out + [Field(id, [], args.plain(id))])) else Err(ArgNotFound)
  }

  // Reads the specs that start at pos and formats the field.
  function SpecField(args: Args, id: nat, s: string, pos: nat, st: State): (r: Result<Parsed>)
    requires pos <= |s|
    ensures r.Ok? ==> pos <= r.value.end <= |s|
  {
    if id >= args.count then Err(ArgNotFound)
    else match args.syntax(id, s[pos..])
      case None => Err(BadSpec)
      case Some(spec) =>
        if pos + spec.length > |s| then Err(BadSpec)
        else match ResolveAll(args, spec.refs, st.next)
          case Err(e) => Err(e)
          case Ok(r) =>
            if pos + spec.length == |s| || s[pos + spec.length] != '}' then Err(MissingClose)
            else match args.rendered(id, s[pos..pos + spec.length], r.ids)
              case None => Err(BadSpec)
              case Some(output) => Ok(Parsed(State(st.out + [Field(id, r.ids, output)], r.next), pos + spec.length))
  }

  // The field, or escaped brace, whose opening brace is at pos.
  function ParseField(args: Args, s: string, pos: nat, st: State): (r: Result<Parsed>)
    requires pos < |s| && s[pos] == '{'
    ensures r.Ok? ==> pos + 1 < r.value.end <= |s|
  {
    if pos + 1 == |s| then Err(InvalidFormat)
    else if s[pos + 1] == '{' then Ok(Parsed(AddText(st, "{"), pos + 2))
    else
      match ParseArgId(s, pos + 1)
      case Err(e) => Err(e)
      case Ok(p) =>
        match Resolve(args, p.r, st.next)
        case Err(e) => Err(e)
        case Ok(r) =>
          var st' := st.(next := r.next);
          if p.end < |s| && s[p.end] == '}' then
            match PlainField(args, r.id, st')
            case Err(e) => Err(e)
            case Ok(st'') => Ok(Parsed(st'', p.end + 1))
          else if p.end < |s| && s[p.end] == ':' then
            match SpecField(args, r.id, s, p.end + 1, st')
            case Err(e) => Err(e)
            case Ok(f) => Ok(Parsed(f.st, f.end + 1))
          else Err(MissingClose)
  }

  // The meaning of a format string from pos on: one character at a time.
  function Scan(args: Args, s: string, pos: nat, st: State): Result<State>
    requires pos <= |s|
    decreases |s| - pos
  {
    if pos == |s| then Ok(st)
    else if s[pos] == '{' then
      match ParseField(args, s, pos, st)
      case Err(e) => Err(e)
      case Ok(f) => Scan(args, s, f.end, f.st)
    else if s[pos] == '}' then
      if pos + 1 < |s| && s[pos + 1] == '}' then Scan(args, s, pos + 2, AddText(st, "}")) else Err(UnmatchedClose)
    else Scan(args, s, pos + 1, AddText(st, [s[pos]]))
  }

  lemma AddTextTwice(st: State, s: string, t: string)
    ensures AddText(AddText(st, s), t) == AddText(st, s + t)
  {
    assert Chars(s) + Chars(t) == Chars(s + t);
  }

  lemma AddNoText(st: State)
    ensures AddText(st, "") == st
  {
    assert st.out + [] == st.out;
  }

  // ----- The handler --------------------------------------------------------

  // Receives the parts of a format string in order. An error ends the run: the
  // methods return it instead of throwing it.
  class FormatHandler {
    var out: seq<Piece>
    var next: int
    const args: Args

    function Current(): State
      reads this
    {
      State(out, next)
    }

    constructor (args: Args)
      ensures Current() == INIT && this.args == args
    {
      this.args := args;
      out, next := [], 0;
    }

    method OnText(s: string, begin: nat, end: nat)
      requires begin <= end <= |s|
      modifies this`out
      ensures Current() == AddText(old(Current()), s[begin..end])
    {
      out := out + Chars(s[begin..end]);
    }

    method OnArgId(r: Ref) returns (id: Result<nat>)
      modifies this`next
      ensures match Resolve(args, r, old(next))
        case Err(e) => id == Err(e)
        case Ok(res) => id == Ok(res.id) && next == res.next
    {
      match r
      case AutoRef =>
        if next < 0 { return Err(AutoAfterManual); }
        id := Ok(next);
        next := next + 1;
      case IndexRef(i) =>
        if next > 0 { return Err(ManualAfterAuto); }
        next := -1;
        id := Ok(i);
      case NameRef(n) =>
        var found := args.named(n);
        if found == None { return Err(ArgNotFound); }
        id := Ok(found.value);
    }

    method OnReplacementField(id: nat) returns (e: Option<Error>)
      modifies this`out
      ensures match PlainField(args, id, old(Current()))
        case Err(err) => e == Some(err)
        case Ok(st) => e == None && Current() == st
    {
      if id >= args.count { return Some(ArgNotFound); }
      out := out + [Field(id, [], args.plain(id))];
      return None;
    }

    method OnFormatSpecs(id: nat, s: string, begin: nat) returns (end: Result<nat>)
      requires begin <= |s|
      modifies this
      ensures match SpecField(args, id, s, begin, old(Current()))
        case Err(err) => end == Err(err)
        case Ok(f) => end == Ok(f.end) && Current() == f.st
    {
      if id >= args.count { return Err(ArgNotFound); }
      var syntax := args.syntax(id, s[begin..]);
      if syntax == None { return Err(BadSpec); }
      var spec := syntax.value;
      var specEnd := begin + spec.length;
      if specEnd > |s| { return Err(BadSpec); }
      var ids := OnSpecRefs(spec.refs);
      if ids.Err? { return Err(ids.error); }
      if specEnd == |s| || s[specEnd] != '}' { return Err(MissingClose); }
      var output := args.rendered(id, s[begin..specEnd], ids.value);
      if output == None { return Err(BadSpec); }
      out := out + [Field(id, ids.value, output.value)];
      end := Ok(specEnd);
    }

    // The references in format specs, from left to right.
    method OnSpecRefs(refs: seq<Ref>) returns (ids: Result<seq<nat>>)
      modifies this`next
      ensures match ResolveAll(args, refs, old(next))
        case Err(e) => ids == Err(e)
        case Ok(all) => ids == Ok(all.ids) && next == all.next
    {
      hide Resolve;
      var done := [];
      var i := 0;
      assert refs[0..] == refs;
      PrependNothing(ResolveAll(args, refs, next));
      while i < |refs|
        invariant 0 <= i <= |refs|
        invariant ResolveAll(args, refs, old(next)) == Prepend(done, ResolveAll(args, refs[i..], next))
      {
        assert refs[i..][0] == refs[i] && refs[i..][1..] == refs[i + 1..];
        var id := OnArgId(refs[i]);
        if id.Err? { return Err(id.error); }
        PrependMore(done, id.value, ResolveAll(args, refs[i + 1..], next));
        done := done + [id.value];
        i := i + 1;
      }
      assert refs[i..] == [] && done + [] == done;
      ids := Ok(done);
    }
  }

  function Prepend(ids: seq<nat>, r: Result<ResolvedAll>): Result<ResolvedAll>
  {
    match r
    case Err(e) => Err(e)
    case Ok(all) => Ok(ResolvedAll(ids + all.ids, all.next))
  }

  lemma PrependNothing(r: Result<ResolvedAll>)
    ensures Prepend([], r) == r
  {
    if r.Ok? { assert [] + r.value.ids == r.value.ids; }
  }

  lemma PrependMore(ids: seq<nat>, id: nat, r: Result<ResolvedAll>)
    ensures Prepend(ids, Prepend([id], r)) == Prepend(ids + [id], r)
  {
    if r.Ok? { assert ids + ([id] + r.value.ids) == ids + [id] + r.value.ids; }
  }
}
