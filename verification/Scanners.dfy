// The two ways a format string is scanned: a simple loop for short strings and
// a two-pass search for long ones. Both are the same as reading the string one
// character at a time.
module Scanners {
  import opened FormatStrings

  // The outcome that a run leaves behind: an error, or the handler's state.
  datatype Outcome = Finished | Failed(error: Error)

  // The run so far has the result of the reference scan.
  ghost predicate Matches(expected: Result<State>, outcome: Outcome, st: State)
  {
    match expected
    case Ok(want) => outcome == Finished && st == want
    case Err(e) => outcome == Failed(e)
  }

  method ParseReplacementField(s: string, begin: nat, handler: FormatHandler) returns (end: Result<nat>)
    requires begin < |s| && s[begin] == '{'
    modifies handler
    ensures match ParseField(handler.args, s, begin, old(handler.Current()))
      case Err(e) => end == Err(e)
      case Ok(f) => end == Ok(f.end) && handler.Current() == f.st
  {
    hide SpecField, ParseArgId, Resolve, Chars;
    var p := begin + 1;
    if p == |s| { return Err(InvalidFormat); }
    if s[p] == '{' {
      handler.OnText(s, p, p + 1);
      assert s[p..p + 1] == "{";
      return Ok(p + 1);
    }
    var parsed := ReadArgId(s, p);
    if parsed.Err? { return Err(parsed.error); }
    p := parsed.value.end;
    var id := handler.OnArgId(parsed.value.r);
    if id.Err? { return Err(id.error); }
    if p < |s| && s[p] == '}' {
      var e := handler.OnReplacementField(id.value);
      if e.Some? { return Err(e.value); }
    } else if p < |s| && s[p] == ':' {
      var specs := handler.OnFormatSpecs(id.value, s, p + 1);
      if specs.Err? { return Err(specs.error); }
      p := specs.value;
    } else {
      return Err(MissingClose);
    }
    return Ok(p + 1);
  }

  // Adding one more plain character to the pending text.
  lemma PendingText(args: Args, s: string, begin: nat, p: nat, st: State)
    requires begin <= p < |s| && s[p] != '{' && s[p] != '}'
    ensures Scan(args, s, p, AddText(st, s[begin..p])) == Scan(args, s, p + 1, AddText(st, s[begin..p + 1]))
  {
    AddTextTwice(st, s[begin..p], [s[p]]);
    assert s[begin..p] + [s[p]] == s[begin..p + 1];
  }

  lemma EscapedBrace(args: Args, s: string, begin: nat, p: nat, st: State)
    requires begin <= p < |s| && s[p] == '}'
    ensures p + 1 == |s| || s[p + 1] != '}' ==>
      Scan(args, s, p, AddText(st, s[begin..p])) == Err(UnmatchedClose)
    ensures p + 1 < |s| && s[p + 1] == '}' ==>
      Scan(args, s, p, AddText(st, s[begin..p])) == Scan(args, s, p + 2, AddText(st, s[begin..p + 1]))
  {
    AddTextTwice(st, s[begin..p], "}");
    assert s[begin..p] + "}" == s[begin..p + 1];
  }

  lemma OpeningBrace(args: Args, s: string, p: nat, st: State)
    requires p < |s| && s[p] == '{'
    ensures Scan(args, s, p, st) == match ParseField(args, s, p, st)
      case Err(e) => Err(e)
      case Ok(f) => Scan(args, s, f.end, f.st)
  {
  }

  lemma ScanEnd(args: Args, s: string, st: State)
    ensures Scan(args, s, |s|, st) == Ok(st)
  {
  }

  lemma NothingPending(s: string, p: nat, st: State)
    requires p <= |s|
    ensures AddText(st, s[p..p]) == st
  {
    assert s[p..p] == "";
    AddNoText(st);
  }

  // The loop for short strings: text is passed on in chunks.
  method ScanShort(s: string, handler: FormatHandler) returns (outcome: Outcome)
    modifies handler
    ensures Matches(Scan(handler.args, s, 0, old(handler.Current())), outcome, handler.Current())
  {
    hide Scan, ParseField, AddText;
    var begin, p := 0, 0;
    ghost var expected := Scan(handler.args, s, 0, handler.Current());
    NothingPending(s, 0, handler.Current());
    while p != |s|
      invariant 0 <= begin <= p <= |s|
      invariant expected == Scan(handler.args, s, p, AddText(handler.Current(), s[begin..p]))
      decreases |s| - p
    {
      var c := s[p];
      p := p + 1;
      if c == '{' {
        handler.OnText(s, begin, p - 1);
        OpeningBrace(handler.args, s, p - 1, handler.Current());
        var end := ParseReplacementField(s, p - 1, handler);
        if end.Err? { return Failed(end.error); }
        begin, p := end.value, end.value;
        NothingPending(s, p, handler.Current());
      } else if c == '}' {
        EscapedBrace(handler.args, s, begin, p - 1, handler.Current());
        if p == |s| || s[p] != '}' { return Failed(UnmatchedClose); }
        handler.OnText(s, begin, p);
        p := p + 1;
        begin := p;
        NothingPending(s, p, handler.Current());
      } else {
        PendingText(handler.args, s, begin, p - 1, handler.Current());
      }
    }
    handler.OnText(s, begin, |s|);
    ScanEnd(handler.args, s, handler.Current());
    return Finished;
  }

  // Searches for a character, as memchr does.
  method Find(s: string, first: nat, last: nat, value: char) returns (found: bool, at: nat)
    requires first <= last <= |s|
    ensures first <= at <= last
    ensures if found then at < last && s[at] == value else at == last
    ensures forall i :: first <= i < at ==> s[i] != value
  {
    at := first;
    while at != last
      invariant first <= at <= last
      invariant forall i :: first <= i < at ==> s[i] != value
      decreases last - at
    {
      if s[at] == value { return true, at; }
      at := at + 1;
    }
    return false, at;
  }

  // A stretch without braces is plain text.
  lemma {:induction false} PlainStretch(args: Args, s: string, begin: nat, end: nat, st: State)
    requires begin <= end <= |s|
    requires forall i :: begin <= i < end ==> s[i] != '{' && s[i] != '}'
    ensures Scan(args, s, begin, st) == Scan(args, s, end, AddText(st, s[begin..end]))
    decreases end - begin
  {
    if begin == end {
      NothingPending(s, begin, st);
    } else {
      PlainStretch(args, s, begin, end - 1, st);
      PendingText(args, s, begin, end - 1, st);
    }
  }

  // Writes the text between two fields, undoing the doubled closing braces.
  method Write(s: string, begin: nat, end: nat, handler: FormatHandler) returns (outcome: Outcome)
    requires begin <= end <= |s|
    requires forall i :: begin <= i < end ==> s[i] != '{'
    requires end < |s| ==> s[end] == '{'
    modifies handler`out
    ensures outcome == Finished ==>
      Scan(handler.args, s, begin, old(handler.Current())) == Scan(handler.args, s, end, handler.Current())
    ensures outcome.Failed? ==>
      Scan(handler.args, s, begin, old(handler.Current())) == Err(outcome.error)
  {
    hide Scan, AddText;
    ghost var expected := Scan(handler.args, s, begin, handler.Current());
    var pbegin := begin;
    if pbegin == end { return Finished; }
    while true
      invariant begin <= pbegin <= end
      invariant expected == Scan(handler.args, s, pbegin, handler.Current())
      decreases end - pbegin
    {
      var found, p := Find(s, pbegin, end, '}');
      PlainStretch(handler.args, s, pbegin, p, handler.Current());
      if !found {
        handler.OnText(s, pbegin, end);
        return Finished;
      }
      EscapedBrace(handler.args, s, pbegin, p, handler.Current());
      p := p + 1;
      if p == end || s[p] != '}' { return Failed(UnmatchedClose); }
      handler.OnText(s, pbegin, p);
      pbegin := p + 1;
    }
  }

  // The two-pass scan for long strings: one search for opening braces, and one
  // for closing braces within the text in between.
  method ScanLong(s: string, handler: FormatHandler) returns (outcome: Outcome)
    modifies handler
    ensures Matches(Scan(handler.args, s, 0, old(handler.Current())), outcome, handler.Current())
  {
    hide Scan, ParseField;
    var begin := 0;
    ghost var expected := Scan(handler.args, s, 0, handler.Current());
    while begin != |s|
      invariant 0 <= begin <= |s|
      invariant expected == Scan(handler.args, s, begin, handler.Current())
      decreases |s| - begin
    {
      var p := begin;
      if s[begin] != '{' {
        var found, at := Find(s, begin + 1, |s|, '{');
        if !found {
          outcome := Write(s, begin, |s|, handler);
          ScanEnd(handler.args, s, handler.Current());
          return;
        }
        p := at;
      }
      outcome := Write(s, begin, p, handler);
      if outcome.Failed? { return; }
      OpeningBrace(handler.args, s, p, handler.Current());
      var end := ParseReplacementField(s, p, handler);
      if end.Err? { return Failed(end.error); }
      begin := end.value;
    }
    ScanEnd(handler.args, s, handler.Current());
    return Finished;
  }

  // Strings of up to 31 characters take the simple loop.
  method ParseFormatString(s: string, handler: FormatHandler) returns (outcome: Outcome)
    modifies handler
    ensures Matches(Scan(handler.args, s, 0, old(handler.Current())), outcome, handler.Current())
  {
    if |s| < 32 { outcome := ScanShort(s, handler); } else { outcome := ScanLong(s, handler); }
  }

  // The string consisting of an empty field alone is formatted directly.
  method VformatTo(s: string, args: Args) returns (outcome: Outcome, out: seq<Piece>)
    ensures match Scan(args, s, 0, INIT)
      case Err(e) => outcome == Failed(e)
      case Ok(st) => outcome == Finished && out == st.out
  {
    out := [];
    if s == "{}" {
      EmptyField(args);
      if args.count == 0 { return Failed(ArgNotFound), out; }
      return Finished, [Field(0, [], args.plain(0))];
    }
    var handler := new FormatHandler(args);
    outcome := ParseFormatString(s, handler);
    out := handler.out;
  }

  lemma EmptyField(args: Args)
    ensures Scan(args, "{}", 0, INIT)
         == if args.count == 0 then Err(ArgNotFound) else Ok(State([Field(0, [], args.plain(0))], 1))
  {
    var s := "{}";
    OpeningBrace(args, s, 0, INIT);
    assert ParseArgId(s, 1) == Ok(ParsedRef(AutoRef, 1));
    if args.count > 0 {
      var st := State([Field(0, [], args.plain(0))], 1);
      assert INIT.out + [Field(0, [], args.plain(0))] == st.out;
      ScanEnd(args, s, st);
    }
  }

  // ----- Escaping -----------------------------------------------------------

  // Doubles every brace.
  function Escape(t: string): (s: string)
  {
    if |t| == 0 then ""
    else (if t[0] == '{' || t[0] == '}' then [t[0], t[0]] else [t[0]]) + Escape(t[1..])
  }

  lemma {:induction false} EscapedText(args: Args, done: string, t: string, st: State)
    ensures Scan(args, done + Escape(t), |done|, st) == Ok(AddText(st, t))
    decreases |t|
  {
    var s := done + Escape(t);
    if |t| == 0 {
      ScanEnd(args, s, st);
      AddNoText(st);
    } else {
      var head := if t[0] == '{' || t[0] == '}' then [t[0], t[0]] else [t[0]];
      assert s == (done + head) + Escape(t[1..]);
      EscapedText(args, done + head, t[1..], AddText(st, [t[0]]));
      AddTextTwice(st, [t[0]], t[1..]);
      assert [t[0]] + t[1..] == t;
      assert s[|done|] == t[0];
    }
  }

  // Formatting an escaped text gives back the text.
  lemma EscapeRoundTrip(args: Args, t: string)
    ensures Scan(args, Escape(t), 0, INIT) == Ok(State(Chars(t), 0))
  {
    EscapedText(args, "", t, INIT);
    assert "" + Escape(t) == Escape(t);
    assert INIT.out + Chars(t) == Chars(t);
  }
}
