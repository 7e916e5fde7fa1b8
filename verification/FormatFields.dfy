// What the fields of a format string print, read off their text.
module FormatFields {
  import opened Options
  import opened Digits
  import opened Words
  import opened FormatStrings
  import Scanners

  // The text t stands in s at pos.
  predicate Stands(s: string, pos: nat, t: string)
  {
    pos + |t| <= |s| && s[pos..pos + |t|] == t
  }

  lemma StandsAt(s: string, pos: nat, t: string)
    requires Stands(s, pos, t)
    ensures forall k {:trigger t[k]} :: 0 <= k < |t| ==> s[pos + k] == t[k]
  {
    assert forall k {:trigger t[k]} :: 0 <= k < |t| ==> s[pos..pos + |t|][k] == s[pos + k];
  }

  lemma PartStands(s: string, pos: nat, t: string, i: nat, j: nat)
    requires Stands(s, pos, t) && i <= j <= |t|
    ensures s[pos + i..pos + j] == t[i..j]
  {
    StandsAt(s, pos, t);
    forall k | 0 <= k < j - i
      ensures s[pos + i..pos + j][k] == t[i..j][k]
    {
      assert s[pos + i..pos + j][k] == s[pos + (i + k)] && t[i..j][k] == t[i + k];
    }
  }

  // A decimal number without superfluous zeros.
  predicate IsDecimal(d: string)
  {
    d == "0" || (|d| > 0 && d[0] != '0' && forall k :: 0 <= k < |d| ==> '0' <= d[k] <= '9')
  }

  predicate IsLetter(c: char)
  {
    'a' <= c <= 'z' || 'A' <= c <= 'Z' || c == '_'
  }

  predicate IsName(n: string)
  {
    |n| > 0 && IsLetter(n[0]) && forall k :: 0 <= k < |n| ==> IsLetter(n[k]) || '0' <= n[k] <= '9'
  }

  // A reference as it is written.
  predicate Writes(t: string, r: Ref)
  {
    match r
    case AutoRef => t == ""
    case IndexRef(i) => IsDecimal(t) && i == (if DigitsVal(t) <= INT_MAX then DigitsVal(t) else INT_MAX)
    case NameRef(n) => IsName(t) && n == t
  }

  // ----- References -----------------------------------------------------------

  lemma {:induction false} DigitsRun(s: string, pos: nat, end: nat)
    requires pos <= end <= |s| && (forall k :: pos <= k < end ==> '0' <= s[k] <= '9')
    requires end < |s| ==> !('0' <= s[end] <= '9')
    ensures DigitsEnd(s, pos) == end
    decreases end - pos
  {
    if pos < end { DigitsRun(s, pos + 1, end); }
  }

  lemma {:induction false} NameRun(s: string, pos: nat, end: nat)
    requires pos <= end <= |s| && (forall k :: pos <= k < end ==> IsLetter(s[k]) || '0' <= s[k] <= '9')
    requires end < |s| ==> !(IsLetter(s[end]) || '0' <= s[end] <= '9')
    ensures NameEnd(s, pos) == end
    decreases end - pos
  {
    if pos < end { NameRun(s, pos + 1, end); }
  }

  lemma ReadsReference(s: string, pos: nat, t: string, r: Ref)
    requires Stands(s, pos, t) && Writes(t, r) && pos + |t| < |s| && (s[pos + |t|] == '}' || s[pos + |t|] == ':')
    ensures ParseArgId(s, pos) == Ok(ParsedRef(r, pos + |t|))
  {
    hide DigitsVal, DigitsEnd, NameEnd, IndexValue;
    StandsAt(s, pos, t);
    match r
    case AutoRef =>
    case IndexRef(i) =>
      assert s[pos] == t[0];
      if t != "0" {
        DigitsRun(s, pos, pos + |t|);
        assert s[pos..pos + |t|] == t;
        IndexIsClamped(t);
      } else {
        ZeroIsZero();
      }
    case NameRef(n) =>
      assert s[pos] == t[0];
      NameRun(s, pos + 1, pos + |t|);
  }

  lemma ZeroIsZero()
    ensures DigitsVal("0") == 0
  {
    assert "0"[..0] == "";
  }

  // The argument that a reference stands for, and the next automatic index.
  predicate StandsFor(args: Args, r: Ref, next: int, id: nat, next': int)
  {
    match r
    case AutoRef => next >= 0 && id == next && next' == next + 1
    case IndexRef(i) => next <= 0 && id == i && next' == -1
    case NameRef(n) => args.named(n) == Some(id) && next' == next
  }

  // ----- Fields ---------------------------------------------------------------

  // A field without specs prints the argument it refers to, and nothing else.
  lemma FieldPrints(args: Args, s: string, pos: nat, t: string, r: Ref, id: nat, next: int, st: State)
    requires Stands(s, pos, "{" + t + "}") && Writes(t, r)
    requires StandsFor(args, r, st.next, id, next) && id < args.count
    ensures Scan(args, s, pos, st) == Scan(args, s, pos + |t| + 2, State(st.out + [Field(id, [], args.plain(id))], next))
  {
    hide ParseArgId, Writes;
    FieldText(s, pos, t, '}');
    ReadsReference(s, pos + 1, t, r);
    NotEscaped(t, r);
    Scanners.OpeningBrace(args, s, pos, st);
  }

  lemma FieldText(s: string, pos: nat, t: string, c: char)
    requires Stands(s, pos, "{" + t + [c])
    ensures pos + |t| + 1 < |s| && s[pos] == '{' && s[pos + |t| + 1] == c && Stands(s, pos + 1, t)
    ensures t != "" ==> s[pos + 1] == t[0]
  {
    var field := "{" + t + [c];
    StandsAt(s, pos, field);
    assert forall k :: 0 <= k < |t| ==> field[k + 1] == t[k] == s[pos + 1 + k];
    assert field[|t| + 1] == c && field[0] == '{';
  }

  lemma NotEscaped(t: string, r: Ref)
    requires Writes(t, r)
    ensures t != "" ==> t[0] != '{'
  {
  }

  // A field with specs passes the text up to the closing brace to the formatter,
  // with the arguments that the specs refer to.
  lemma FieldWithSpecsPrints(args: Args, s: string, pos: nat, t: string, r: Ref, id: nat, next: int,
                             spec: string, refs: seq<Ref>, ids: seq<nat>, next': int, output: string, st: State)
    requires Stands(s, pos, "{" + t + ":" + spec + "}") && Writes(t, r)
    requires StandsFor(args, r, st.next, id, next) && id < args.count
    requires args.syntax(id, s[pos + |t| + 2..]) == Some(SpecSyntax(|spec|, refs))
    requires AllStandFor(args, refs, next, ids, next') && args.rendered(id, spec, ids) == Some(output)
    ensures Scan(args, s, pos, st)
      == Scan(args, s, pos + |t| + |spec| + 3, State(st.out + [Field(id, ids, output)], next'))
  {
    hide ParseArgId, Writes, AllStandFor, ResolveAll, Scan, SpecField, Stands;
    SpecsText(s, pos, t, spec);
    ReadsReference(s, pos + 1, t, r);
    NotEscaped(t, r);
    AllResolve(args, refs, next, ids, next');
    SpecsPrint(args, s, pos + |t| + 2, id, spec, refs, ids, next', output, st.(next := next));
    Scanners.OpeningBrace(args, s, pos, st);
  }

  lemma SpecsPrint(args: Args, s: string, pos: nat, id: nat, spec: string, refs: seq<Ref>, ids: seq<nat>, next': int,
                   output: string, st: State)
    requires pos + |spec| < |s| && s[pos..pos + |spec|] == spec && s[pos + |spec|] == '}' && id < args.count
    requires args.syntax(id, s[pos..]) == Some(SpecSyntax(|spec|, refs))
    requires ResolveAll(args, refs, st.next) == Ok(ResolvedAll(ids, next')) && args.rendered(id, spec, ids) == Some(output)
    ensures SpecField(args, id, s, pos, st) == Ok(Parsed(State(st.out + [Field(id, ids, output)], next'), pos + |spec|))
  {
    hide ResolveAll;
  }

  lemma SpecsText(s: string, pos: nat, t: string, spec: string)
    requires Stands(s, pos, "{" + t + ":" + spec + "}")
    ensures Stands(s, pos, "{" + t + ":") && pos + |t| + |spec| + 2 < |s|
    ensures s[pos] == '{' && s[pos + |t| + 1] == ':' && Stands(s, pos + 1, t) && (t != "" ==> s[pos + 1] == t[0])
    ensures s[pos + |t| + 2..pos + |t| + 2 + |spec|] == spec && s[pos + |t| + |spec| + 2] == '}'
  {
    var field := "{" + t + ":" + spec + "}";
    StandsAt(s, pos, field);
    assert field[0..|t| + 2] == "{" + t + ":";
    PartStands(s, pos, field, 0, |t| + 2);
    FieldText(s, pos, t, ':');
    assert field[|t| + 2..|t| + 2 + |spec|] == spec;
    PartStands(s, pos, field, |t| + 2, |t| + 2 + |spec|);
    assert field[|t| + |spec| + 2] == '}';
  }

  // The references in specs, one after the other.
  predicate AllStandFor(args: Args, refs: seq<Ref>, next: int, ids: seq<nat>, next': int)
    decreases |refs|
  {
    if refs == [] then ids == [] && next' == next
    else
      && ids != []
      && var after := match refs[0] case AutoRef => next + 1 case IndexRef(_) => -1 case NameRef(_) => next;
         StandsFor(args, refs[0], next, ids[0], after) && AllStandFor(args, refs[1..], after, ids[1..], next')
  }

  lemma {:induction false} AllResolve(args: Args, refs: seq<Ref>, next: int, ids: seq<nat>, next': int)
    requires AllStandFor(args, refs, next, ids, next')
    ensures ResolveAll(args, refs, next) == Ok(ResolvedAll(ids, next'))
  {
    if refs != [] {
      var after := match refs[0] case AutoRef => next + 1 case IndexRef(_) => -1 case NameRef(_) => next;
      AllResolve(args, refs[1..], after, ids[1..], next');
      assert ids == [ids[0]] + ids[1..];
    }
  }

  // ----- Whole strings --------------------------------------------------------

  // An index prints the argument with this number, counted from zero.
  lemma IndexPrints(args: Args, d: string)
    requires IsDecimal(d) && DigitsVal(d) <= INT_MAX && 0 <= DigitsVal(d) < args.count
    ensures Scan(args, "{" + d + "}", 0, INIT) == Ok(State([Field(DigitsVal(d), [], args.plain(DigitsVal(d)))], -1))
  {
    hide DigitsVal, Scan, IsDecimal;
    var s, id := "{" + d + "}", DigitsVal(d);
    assert s[0..|s|] == s;
    FieldPrints(args, s, 0, d, IndexRef(id), id, -1, INIT);
    var st := State([Field(id, [], args.plain(id))], -1);
    assert [] + st.out == st.out;
    Scanners.ScanEnd(args, s, st);
  }

  // A name prints the argument with this name.
  lemma NamePrints(args: Args, n: string)
    requires IsName(n) && args.named(n).Some? && args.named(n).value < args.count
    ensures var id := args.named(n).value;
      Scan(args, "{" + n + "}", 0, INIT) == Ok(State([Field(id, [], args.plain(id))], 0))
  {
    hide Scan, IsName;
    var s, id := "{" + n + "}", args.named(n).value;
    assert s[0..|s|] == s;
    FieldPrints(args, s, 0, n, NameRef(n), id, 0, INIT);
    var st := State([Field(id, [], args.plain(id))], 0);
    assert [] + st.out == st.out;
    Scanners.ScanEnd(args, s, st);
  }

  function EmptyFields(n: nat): (s: string)
    ensures |s| == 2 * n && forall k :: 0 <= k < n ==> s[2 * k] == '{' && s[2 * k + 1] == '}'
  {
    if n == 0 then "" else EmptyFields(n - 1) + "{}"
  }

  function FirstArguments(args: Args, n: nat): seq<Piece>
  {
    seq(n, i requires 0 <= i < n => Field(i, [], args.plain(i)))
  }

  // Empty fields print the arguments in their order.
  lemma EmptyFieldsCount(args: Args, n: nat)
    requires n <= args.count
    ensures Scan(args, EmptyFields(n), 0, INIT) == Ok(State(FirstArguments(args, n), n))
  {
    EmptyFieldsFrom(args, n, 0);
  }

  lemma {:induction false} EmptyFieldsFrom(args: Args, n: nat, k: nat)
    requires k <= n <= args.count
    ensures Scan(args, EmptyFields(n), 2 * k, State(FirstArguments(args, k), k)) == Ok(State(FirstArguments(args, n), n))
    decreases n - k
  {
    hide Scan, EmptyFields;
    var s, st := EmptyFields(n), State(FirstArguments(args, k), k);
    if k == n {
      Scanners.ScanEnd(args, s, st);
    } else {
      assert s[2 * k..2 * k + 2] == "{" + "" + "}";
      FieldPrints(args, s, 2 * k, "", AutoRef, k, k + 1, st);
      assert st.out + [Field(k, [], args.plain(k))] == FirstArguments(args, k + 1);
      EmptyFieldsFrom(args, n, k + 1);
    }
  }

  // ----- Errors ---------------------------------------------------------------

  // A field that refers to no argument, or mixes automatic and explicit indices,
  // ends the run.
  lemma FieldFails(args: Args, s: string, pos: nat, t: string, r: Ref, c: char, st: State)
    requires (c == '}' || c == ':') && Stands(s, pos, "{" + t + [c]) && Writes(t, r)
    ensures r.AutoRef? && st.next < 0 ==> Scan(args, s, pos, st) == Err(AutoAfterManual)
    ensures r.IndexRef? && st.next > 0 ==> Scan(args, s, pos, st) == Err(ManualAfterAuto)
    ensures r.NameRef? && args.named(r.name) == None ==> Scan(args, s, pos, st) == Err(ArgNotFound)
    ensures (exists id: nat, next: int :: StandsFor(args, r, st.next, id, next) && id >= args.count) ==>
      Scan(args, s, pos, st) == Err(ArgNotFound)
  {
    hide ParseArgId, Writes;
    FieldText(s, pos, t, c);
    ReadsReference(s, pos + 1, t, r);
    NotEscaped(t, r);
    Scanners.OpeningBrace(args, s, pos, st);
  }

  // Specs that the formatter does not understand, that no brace closes, or that
  // the argument cannot be formatted with.
  lemma SpecsFail(args: Args, s: string, pos: nat, t: string, r: Ref, id: nat, next: int, st: State)
    requires Stands(s, pos, "{" + t + ":") && Writes(t, r) && StandsFor(args, r, st.next, id, next) && id < args.count
    requires match args.syntax(id, s[pos + |t| + 2..])
      case None => true
      case Some(spec) =>
        var end := pos + |t| + 2 + spec.length;
        || end >= |s| || s[end] != '}'
        || (exists ids, next' :: AllStandFor(args, spec.refs, next, ids, next')
                                 && args.rendered(id, s[pos + |t| + 2..end], ids) == None)
    ensures Scan(args, s, pos, st).Err?
  {
    hide ParseArgId, Writes, AllStandFor;
    FieldText(s, pos, t, ':');
    ReadsReference(s, pos + 1, t, r);
    NotEscaped(t, r);
    Scanners.OpeningBrace(args, s, pos, st);
    var syntax := args.syntax(id, s[pos + |t| + 2..]);
    if syntax.Some? {
      var end := pos + |t| + 2 + syntax.value.length;
      if end < |s| && s[end] == '}' {
        var ids, next' :| AllStandFor(args, syntax.value.refs, next, ids, next')
                          && args.rendered(id, s[pos + |t| + 2..end], ids) == None;
        AllResolve(args, syntax.value.refs, next, ids, next');
      }
    }
  }

  // A reference that neither a brace nor a colon ends.
  lemma BrokenFieldFails(args: Args, s: string, pos: nat, t: string, st: State)
    requires Stands(s, pos, "{" + t) && t != ""
    requires pos + |t| + 1 < |s| ==> s[pos + |t| + 1] != '}' && s[pos + |t| + 1] != ':'
    requires if IsDecimal(t) then pos + |t| + 1 < |s| ==> t == "0" || !('0' <= s[pos + |t| + 1] <= '9')
             else IsName(t) && (pos + |t| + 1 < |s| ==> !(IsLetter(s[pos + |t| + 1]) || '0' <= s[pos + |t| + 1] <= '9'))
    ensures Scan(args, s, pos, st).Err?
  {
    hide ParseArgId, Scan, ParseField, IsDecimal, IsName, Writes;
    StandsAt(s, pos, "{" + t);
    assert ("{" + t)[0] == '{' && forall k :: 0 <= k < |t| ==> ("{" + t)[k + 1] == t[k] == s[pos + 1 + k];
    BrokenReference(s, pos + 1, t);
    UnclosedReference(args, s, pos, st);
    Scanners.OpeningBrace(args, s, pos, st);
  }

  lemma UnclosedReference(args: Args, s: string, pos: nat, st: State)
    requires pos + 1 < |s| && s[pos] == '{' && s[pos + 1] != '{'
    requires var r := ParseArgId(s, pos + 1);
      r.Ok? && r.value.end < |s| ==> s[r.value.end] != '}' && s[r.value.end] != ':'
    ensures ParseField(args, s, pos, st).Err?
  {
    hide ParseArgId, PlainField, SpecField, Resolve;
  }

  lemma BrokenReference(s: string, pos: nat, t: string)
    requires pos + |t| <= |s| && (forall k :: 0 <= k < |t| ==> t[k] == s[pos + k]) && t != ""
    requires pos + |t| < |s| ==> s[pos + |t|] != '}' && s[pos + |t|] != ':'
    requires if IsDecimal(t) then pos + |t| < |s| ==> t == "0" || !('0' <= s[pos + |t|] <= '9')
             else IsName(t) && (pos + |t| < |s| ==> !(IsLetter(s[pos + |t|]) || '0' <= s[pos + |t|] <= '9'))
    ensures s[pos] != '{'
    ensures ParseArgId(s, pos).Err? || (ParseArgId(s, pos).value.end == pos + |t| && ParseArgId(s, pos).value.r.NameRef?)
  {
    hide DigitsVal, DigitsEnd, NameEnd, IndexValue;
    assert s[pos] == t[0];
    assert forall k :: pos <= k < pos + |t| ==> s[k] == t[k - pos];
    if IsDecimal(t) {
      if t != "0" { DigitsRun(s, pos, pos + |t|); }
    } else {
      NameRun(s, pos + 1, pos + |t|);
    }
  }

  // An opening brace at the end, or before a character that begins no reference.
  lemma OpenBraceFails(args: Args, s: string, pos: nat, st: State)
    requires pos < |s| && s[pos] == '{'
    requires pos + 1 < |s| ==>
      var c := s[pos + 1]; c != '{' && c != '}' && c != ':' && !IsLetter(c) && !('0' <= c <= '9')
    ensures Scan(args, s, pos, st) == Err(InvalidFormat)
  {
    Scanners.OpeningBrace(args, s, pos, st);
  }

  // A closing brace is printed if another one follows, and is an error if not.
  lemma CloseBrace(args: Args, s: string, pos: nat, st: State)
    requires pos < |s| && s[pos] == '}'
    ensures pos + 1 < |s| && s[pos + 1] == '}' ==>
      Scan(args, s, pos, st) == Scan(args, s, pos + 2, State(st.out + [Text('}')], st.next))
    ensures !(pos + 1 < |s| && s[pos + 1] == '}') ==> Scan(args, s, pos, st) == Err(UnmatchedClose)
  {
    assert Chars("}") == [Text('}')];
  }

  // Two opening braces print one; any other character prints itself.
  lemma OtherText(args: Args, s: string, pos: nat, st: State)
    requires pos < |s| && s[pos] != '}'
    ensures s[pos] == '{' && pos + 1 < |s| && s[pos + 1] == '{' ==>
      Scan(args, s, pos, st) == Scan(args, s, pos + 2, State(st.out + [Text('{')], st.next))
    ensures s[pos] != '{' ==> Scan(args, s, pos, st) == Scan(args, s, pos + 1, State(st.out + [Text(s[pos])], st.next))
  {
    assert Chars("{") == [Text('{')] && Chars([s[pos]]) == [Text(s[pos])];
    if s[pos] == '{' { Scanners.OpeningBrace(args, s, pos, st); }
  }
}
