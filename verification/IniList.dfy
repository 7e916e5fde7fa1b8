// Lists in configuration files: how they are written and how they are split
// again.
module IniLists {
  import opened Strings

  // ----- Strings ------------------------------------------------------------

  predicate IsSpace(c: char)
  {
    c == ' ' || '\t' <= c <= '\r'
  }

  function TrimLeft(s: string): (r: string)
    ensures |r| <= |s| && r == s[|s| - |r|..]
    ensures r != "" ==> !IsSpace(r[0])
  {
    if s != "" && IsSpace(s[0]) then TrimLeft(s[1..]) else s
  }

  function TrimRight(s: string): (r: string)
    ensures |r| <= |s| && r == s[..|r|]
    ensures r != "" ==> !IsSpace(r[|r| - 1])
  {
    if s != "" && IsSpace(s[|s| - 1]) then TrimRight(s[..|s| - 1]) else s
  }

  function Trim(s: string): (r: string)
    ensures |r| <= |s|
  {
    TrimLeft(TrimRight(s))
  }

  predicate At(s: string, pattern: string, k: nat)
  {
    k + |pattern| <= |s| && s[k..k + |pattern|] == pattern
  }

  // The place of a pattern, or the length of the text.
  function FindText(s: string, pattern: string, start: nat): (i: nat)
    requires start <= |s|
    ensures start <= i <= |s|
    ensures i < |s| ==> At(s, pattern, i)
    ensures forall k :: start <= k < i ==> !At(s, pattern, k)
    decreases |s| - start
  {
    if start == |s| || At(s, pattern, start) then start else FindText(s, pattern, start + 1)
  }

  // All occurrences replaced, from left to right.
  function Replaced(s: string, pattern: string, with: string): string
    requires |pattern| > 0
  {
    if s == "" then ""
    else if At(s, pattern, 0) then with + Replaced(s[|pattern|..], pattern, with)
    else [s[0]] + Replaced(s[1..], pattern, with)
  }

  // What lies before the first occurrence stays.
  lemma {:induction false} ReplacedSkips(s: string, pattern: string, with: string, start: nat, n: nat)
    requires |pattern| > 0 && start <= n <= |s|
    requires forall k :: start <= k < n ==> !At(s, pattern, k)
    ensures Replaced(s[start..], pattern, with) == s[start..n] + Replaced(s[n..], pattern, with)
    decreases n - start
  {
    if start < n {
      var t := s[start..];
      assert |pattern| <= |t| ==> t[0..|pattern|] == s[start..start + |pattern|];
      assert !At(s, pattern, start);
      ReplacedSkips(s, pattern, with, start + 1, n);
      assert t[1..] == s[start + 1..];
      assert [s[start]] + s[start + 1..n] == s[start..n];
    }
  }

  method FindAndReplace(s: string, pattern: string, with: string) returns (str: string)
    requires |pattern| > 0
    ensures str == Replaced(s, pattern, with)
  {
    str := s;
    var start: nat := 0;
    var i := FindText(str, pattern, start);
    while i < |str|
      invariant start <= |str| && i == FindText(str, pattern, start)
      invariant str[..start] + Replaced(str[start..], pattern, with) == Replaced(s, pattern, with)
      decreases |str| - start
    {
      hide Replaced;
      ReplaceFound(str, pattern, with, start, i);
      str := str[..i] + with + str[i + |pattern|..];
      start := i + |with|;
      i := FindText(str, pattern, start);
    }
    ReplacedSkips(str, pattern, with, start, i);
    assert str[..start] + str[start..] == str;
  }

  lemma ReplaceFound(str: string, pattern: string, with: string, start: nat, i: nat)
    requires |pattern| > 0 && start <= i < |str| && i == FindText(str, pattern, start)
    ensures At(str, pattern, i)
    ensures var new' := str[..i] + with + str[i + |pattern|..];
      str[..start] + Replaced(str[start..], pattern, with)
         == new'[..i + |with|] + Replaced(new'[i + |with|..], pattern, with)
  {
    hide Replaced;
    var new' := str[..i] + with + str[i + |pattern|..];
    var rest := Replaced(str[i + |pattern|..], pattern, with);
    ReplacedSkips(str, pattern, with, start, i);
    ReplacedHere(str, pattern, with, i);
    Spliced(str[..i], with, str[i + |pattern|..]);
    PrefixGrows(str, start, i);
    Regrouped(str[..start], str[start..i], with, rest);
  }

  lemma PrefixGrows(s: string, i: nat, j: nat)
    requires i <= j <= |s|
    ensures s[..i] + s[i..j] == s[..j]
  {
  }

  lemma Spliced(a: string, b: string, c: string)
    ensures (a + b + c)[|a| + |b|..] == c && (a + b + c)[..|a| + |b|] == a + b
  {
  }

  lemma Regrouped(a: string, b: string, c: string, d: string)
    ensures a + (b + (c + d)) == (a + b) + c + d
  {
  }

  lemma ReplacedHere(str: string, pattern: string, with: string, i: nat)
    requires |pattern| > 0 && i <= |str| && At(str, pattern, i)
    ensures Replaced(str[i..], pattern, with) == with + Replaced(str[i + |pattern|..], pattern, with)
  {
    var t := str[i..];
    assert t[0..|pattern|] == str[i..i + |pattern|];
    assert t[|pattern|..] == str[i + |pattern|..];
  }

  // ----- Splitting ----------------------------------------------------------

  predicate IsQuote(c: char)
  {
    c == '\'' || c == '"' || c == '`'
  }

  predicate IsDelimiter(delimiter: char, c: char)
  {
    if delimiter == '\0' then IsSpace(c) else c == delimiter
  }

  function FindDelimiter(s: string, delimiter: char, start: nat): (i: nat)
    requires start <= |s|
    ensures start <= i <= |s|
    ensures i < |s| ==> IsDelimiter(delimiter, s[i])
    ensures forall k :: start <= k < i ==> !IsDelimiter(delimiter, s[k])
    decreases |s| - start
  {
    if start == |s| || IsDelimiter(delimiter, s[start]) then start else FindDelimiter(s, delimiter, start + 1)
  }

  // The first quote that no backslash precedes.
  function ClosingQuote(s: string, key: char, start: nat): (i: nat)
    requires 1 <= start <= |s|
    ensures start <= i <= |s|
    ensures i < |s| ==> s[i] == key && s[i - 1] != '\\'
    ensures forall k :: start <= k < i && s[k] == key ==> s[k - 1] == '\\'
    decreases |s| - start
  {
    var i := Find(s, key, start);
    if i < |s| && s[i - 1] == '\\' then ClosingQuote(s, key, i + 1) else i
  }

  // The first item of a text, and what is left of the text.
  function Item(s: string, delimiter: char): (r: (string, string))
    requires s != ""
    ensures |r.1| < |s|
  {
    if IsQuote(s[0]) then
      var end := ClosingQuote(s, s[0], 1);
      var value := s[1..end];
      (if end == Find(s, s[0], 1) then value else Replaced(value, ['\\', s[0]], [s[0]]),
       if end + 2 < |s| then s[end + 2..] else "")
    else
      var end := FindDelimiter(s, delimiter, 0);
      (s[..end], if end < |s| then s[end + 1..] else "")
  }

  function Items(s: string, delimiter: char): seq<string>
    decreases |s|
  {
    if s == "" then [] else
      var (value, rest) := Item(s, delimiter);
      [value] + Items(Trim(rest), delimiter)
  }

  method QuoteEnd(str: string, key: char) returns (end: nat, embeddedQuote: bool)
    requires str != ""
    ensures end == ClosingQuote(str, key, 1)
    ensures embeddedQuote <==> end != Find(str, key, 1)
  {
    hide ClosingQuote, Find;
    embeddedQuote := false;
    end := Find(str, key, 1);
    ghost var start := 1;
    while end < |str| && str[end - 1] == '\\'
      invariant 1 <= start <= |str| && end == Find(str, key, start)
      invariant ClosingQuote(str, key, start) == ClosingQuote(str, key, 1)
      invariant start == 1 || Find(str, key, 1) < start
      invariant embeddedQuote <==> start != 1
      decreases |str| - end
    {
      ClosingQuoteFrom(str, key, start);
      start := end + 1;
      end := Find(str, key, end + 1);
      embeddedQuote := true;
    }
    ClosingQuoteFrom(str, key, start);
  }

  lemma ClosingQuoteFrom(s: string, key: char, start: nat)
    requires 1 <= start <= |s|
    ensures var i := Find(s, key, start);
      ClosingQuote(s, key, start) == if i < |s| && s[i - 1] == '\\' then ClosingQuote(s, key, i + 1) else i
  {
  }

  method SplitUp(s: string, delimiter: char) returns (output: seq<string>)
    ensures output == Items(Trim(s), delimiter)
  {
    hide Item, Items, Trim;
    output := [];
    var str := Trim(s);
    while str != ""
      invariant output + Items(str, delimiter) == Items(Trim(s), delimiter)
      decreases |str|
    {
      ItemsStepAfter(output, str, delimiter);
      var value: string;
      value, str := NextItem(str, delimiter);
      output := output + [value];
      str := Trim(str);
    }
    NoItems(delimiter);
    assert output + [] == output;
  }

  lemma NoItems(delimiter: char)
    ensures Items("", delimiter) == []
  {
  }

  lemma ItemsStep(s: string, delimiter: char)
    requires s != ""
    ensures var (value, rest) := Item(s, delimiter);
      |rest| < |s| && Items(s, delimiter) == [value] + Items(Trim(rest), delimiter)
  {
  }

  lemma ItemsStepAfter(output: seq<string>, s: string, delimiter: char)
    requires s != ""
    ensures var (value, rest) := Item(s, delimiter);
      |rest| < |s|
      && output + Items(s, delimiter) == output + [value] + Items(Trim(rest), delimiter)
  {
    hide Item, Items, Trim;
    ItemsStep(s, delimiter);
  }

  method NextItem(str: string, delimiter: char) returns (value: string, rest: string)
    requires str != ""
    ensures (value, rest) == Item(str, delimiter)
  {
    hide Replaced, Find, ClosingQuote, FindDelimiter;
    if IsQuote(str[0]) {
      var key := str[0];
      var end, embeddedQuote := QuoteEnd(str, key);
      value := str[1..end];
      rest := if end + 2 < |str| then str[end + 2..] else "";
      if embeddedQuote { value := FindAndReplace(value, ['\\', key], [key]); }
    } else {
      var end := FindDelimiter(str, delimiter, 0);
      value := str[..end];
      rest := if end < |str| then str[end + 1..] else "";
    }
  }

  // ----- Writing ------------------------------------------------------------

  predicate HexDigits(s: string)
  {
    forall i :: 0 <= i < |s| ==> '0' <= s[i] <= '9' || 'A' <= s[i] <= 'F' || 'a' <= s[i] <= 'f'
  }

  predicate Digits(s: string, last: char)
  {
    forall i :: 0 <= i < |s| ==> '0' <= s[i] <= last
  }

  function ConvertArg(arg: string, isNumber: string -> bool): string
  {
    if arg == "" then "\"\""
    else if arg == "true" || arg == "false" || arg == "nan" || arg == "inf" then arg
    else if !("0x" <= arg) && !("0X" <= arg) && isNumber(arg) then arg
    else if |arg| == 1 then "'" + arg + "'"
    else if arg[0] == '0' && arg[1] == 'x' && HexDigits(arg[2..]) then arg
    else if arg[0] == '0' && arg[1] == 'o' && Digits(arg[2..], '7') then arg
    else if arg[0] == '0' && arg[1] == 'b' && Digits(arg[2..], '1') then arg
    else if '"' !in arg then "\"" + arg + "\""
    else "'" + arg + "'"
  }

  function Rest(args: seq<string>, isNumber: string -> bool): string
  {
    if args == [] then "" else ", " + ConvertArg(args[0], isNumber) + Rest(args[1..], isNumber)
  }

  // The list without its brackets.
  function Joined(args: seq<string>, isNumber: string -> bool): string
  {
    if args == [] then "" else ConvertArg(args[0], isNumber) + Rest(args[1..], isNumber)
  }

  method IniJoin(args: seq<string>, isNumber: string -> bool) returns (joined: string)
    ensures joined == if |args| > 1 then "[" + Joined(args, isNumber) + "]" else Joined(args, isNumber)
  {
    hide ConvertArg, Rest, Joined;
    joined := if |args| > 1 then "[" else "";
    ghost var open := joined;
    RestStep(args, 0, isNumber);
    for i := 0 to |args|
      invariant i == 0 ==> joined == open
      invariant i > 0 ==> open + Joined(args, isNumber) == joined + Rest(args[i..], isNumber)
    {
      RestStep(args, i, isNumber);
      ghost var before, text, rest := joined, ConvertArg(args[i], isNumber), Rest(args[i + 1..], isNumber);
      if i > 0 { joined := joined + ","; joined := joined + " "; }
      joined := joined + ConvertArg(args[i], isNumber);
      if i == 0 { Regroup3(open, text, rest); } else { Regroup4(before, text, rest); }
    }
    RestStep(args, |args|, isNumber);
    if |args| > 1 { joined := joined + "]"; }
  }

  lemma Regroup3(a: string, b: string, c: string)
    ensures a + (b + c) == a + b + c
  {
  }

  lemma Regroup4(a: string, b: string, c: string)
    ensures a + (", " + b + c) == a + "," + " " + b + c
  {
  }

  lemma RestStep(args: seq<string>, i: nat, isNumber: string -> bool)
    requires i <= |args|
    ensures i < |args| ==> Rest(args[i..], isNumber) == ", " + ConvertArg(args[i], isNumber) + Rest(args[i + 1..], isNumber)
    ensures i == |args| ==> Rest(args[i..], isNumber) == "" && forall s: string :: s + Rest(args[i..], isNumber) == s
    ensures Joined(args, isNumber) == if args == [] then "" else ConvertArg(args[0], isNumber) + Rest(args[1..], isNumber)
  {
    hide ConvertArg;
    if i < |args| { assert args[i..][1..] == args[i + 1..]; }
  }

  // ----- Round trip ---------------------------------------------------------

  predicate Plain(s: string)
  {
    s != "" && forall i :: 0 <= i < |s| ==> !IsSpace(s[i]) && s[i] != ',' && !IsQuote(s[i])
  }

  // What reads a number may skip white space before it.
  ghost predicate ReadsNumbers(isNumber: string -> bool)
  {
    forall s :: isNumber(s) ==> Plain(TrimLeft(s))
  }

  // What is written without quotes.
  predicate Bare(arg: string, isNumber: string -> bool)
  {
    || arg in {"true", "false", "nan", "inf"}
    || (!("0x" <= arg) && !("0X" <= arg) && isNumber(arg))
    || (|arg| >= 2 && arg[0] == '0' && arg[1] == 'x' && HexDigits(arg[2..]))
    || (|arg| >= 2 && arg[0] == '0' && arg[1] == 'o' && Digits(arg[2..], '7'))
    || (|arg| >= 2 && arg[0] == '0' && arg[1] == 'b' && Digits(arg[2..], '1'))
  }

  function QuoteOf(arg: string): char
  {
    if |arg| == 1 || '"' in arg then '\'' else '"'
  }

  // Arguments that the splitter returns as they were written: numbers without
  // white space before them, and texts that neither contain the quote put
  // around them nor end in a backslash.
  predicate SplitsBack(arg: string, isNumber: string -> bool)
  {
    if Bare(arg, isNumber) then arg != "" ==> !IsSpace(arg[0])
    else QuoteOf(arg) !in arg && (arg != "" ==> arg[|arg| - 1] != '\\')
  }

  // A pair of equal quotes around an item is taken off, whoever put it there.
  predicate HasOuterQuotes(s: string)
  {
    |s| > 1 && (s[0] == '"' || s[0] == '\'') && s[0] == s[|s| - 1]
  }

  function RemoveQuotes(s: string): string
  {
    if HasOuterQuotes(s) then s[1..|s| - 1] else s
  }

  function RemoveAllQuotes(items: seq<string>): (r: seq<string>)
    ensures |r| == |items| && forall i :: 0 <= i < |r| ==> r[i] == RemoveQuotes(items[i])
  {
    if items == [] then [] else [RemoveQuotes(items[0])] + RemoveAllQuotes(items[1..])
  }

  // Arguments that are read as they were written.
  predicate Survives(arg: string, isNumber: string -> bool)
  {
    SplitsBack(arg, isNumber) && !HasOuterQuotes(arg)
  }

  lemma QuotedOrBare(arg: string, isNumber: string -> bool)
    requires ReadsNumbers(isNumber)
    ensures ConvertArg(arg, isNumber) == if Bare(arg, isNumber) then arg else [QuoteOf(arg)] + arg + [QuoteOf(arg)]
    ensures Bare(arg, isNumber) ==> arg != ""
  {
    hide HexDigits, Digits;
    EmptyIsNoNumber(isNumber);
    hide ReadsNumbers, Plain, TrimLeft;
  }

  lemma EmptyIsNoNumber(isNumber: string -> bool)
    requires ReadsNumbers(isNumber)
    ensures !isNumber("")
  {
    assert isNumber("") ==> Plain(TrimLeft(""));
  }

  lemma BareIsPlain(arg: string, isNumber: string -> bool)
    requires ReadsNumbers(isNumber) && Bare(arg, isNumber)
    ensures Plain(TrimLeft(arg)) && (!IsSpace(arg[0]) ==> TrimLeft(arg) == arg)
  {
    assert isNumber(arg) ==> Plain(TrimLeft(arg));
    if !isNumber(arg) { BareTextIsPlain(arg, isNumber); }
  }

  lemma BareTextIsPlain(arg: string, isNumber: string -> bool)
    requires Bare(arg, isNumber) && !isNumber(arg)
    ensures Plain(arg) && TrimLeft(arg) == arg
  {
    if arg !in {"true", "false", "nan", "inf"} {
      var rest := arg[2..];
      assert forall i :: 0 <= i < |rest| ==> arg[i + 2] == rest[i];
      assert HexDigits(rest) || Digits(rest, '7') || Digits(rest, '1');
      assert forall i :: 2 <= i < |arg| ==> arg[i] == rest[i - 2];
    }
  }

  // Up to the next quote, which a backslash precedes, only this backslash goes.
  lemma ReplacedToQuote(s: string, key: char, start: nat, n: nat)
    requires start < n < |s| && s[n - 1] == '\\' && s[n] == key && key != '\\'
    requires forall k :: start <= k < n ==> s[k] != key
    ensures Replaced(s[start..], ['\\', key], [key]) == s[start..n - 1] + ([key] + Replaced(s[n + 1..], ['\\', key], [key]))
  {
    hide Replaced, At;
    var pattern := ['\\', key];
    forall k | start <= k < n - 1
      ensures !At(s, pattern, k)
    {
      EscapedAt(s, key, k);
    }
    EscapedAt(s, key, n - 1);
    ReplacedSkips(s, pattern, [key], start, n - 1);
    ReplacedHere(s, pattern, [key], n - 1);
  }

  lemma EscapedAt(s: string, key: char, k: nat)
    requires k + 1 < |s|
    ensures At(s, ['\\', key], k) <==> s[k] == '\\' && s[k + 1] == key
  {
    assert s[k..k + 2] == [s[k], s[k + 1]];
  }

  // A list that is not empty ends in a character that is not white space.
  lemma ConvertedEnd(arg: string, isNumber: string -> bool)
    requires ReadsNumbers(isNumber)
    ensures var t := ConvertArg(arg, isNumber); t != "" && !IsSpace(t[|t| - 1])
  {
    QuotedOrBare(arg, isNumber);
    if Bare(arg, isNumber) { BareIsPlain(arg, isNumber); }
  }

  lemma {:induction false} JoinedEnd(args: seq<string>, isNumber: string -> bool)
    requires ReadsNumbers(isNumber) && args != []
    ensures var t := Joined(args, isNumber); t != "" && !IsSpace(t[|t| - 1])
  {
    hide ConvertArg;
    ConvertedEnd(args[0], isNumber);
    if |args| > 1 {
      JoinedEnd(args[1..], isNumber);
      RestIsJoined(args[1..], isNumber);
    }
  }

  lemma RestIsJoined(args: seq<string>, isNumber: string -> bool)
    ensures Rest(args, isNumber) == if args == [] then "" else "," + (" " + Joined(args, isNumber))
  {
    hide ConvertArg, Rest, Joined;
    RestStep(args, 0, isNumber);
    assert args[0..] == args;
    if args != [] { Regroup5(ConvertArg(args[0], isNumber), Rest(args[1..], isNumber)); }
  }

  lemma Regroup5(a: string, b: string)
    ensures ", " + a + b == "," + (" " + (a + b))
  {
  }

  // Trimming a space and a list takes off the space.
  lemma TrimAfterSpace(args: seq<string>, isNumber: string -> bool)
    requires ReadsNumbers(isNumber) && args != []
    ensures var t := Joined(args, isNumber); Trim(t) == TrimLeft(t) && Trim(" " + t) == TrimLeft(t)
  {
    hide Joined;
    var t := Joined(args, isNumber);
    JoinedEnd(args, isNumber);
    assert TrimRight(t) == t && TrimRight(" " + t) == " " + t;
    assert (" " + t)[1..] == t;
  }

  // What the first item of a list leaves is the list of the others.
  lemma TrimmedRest(args: seq<string>, isNumber: string -> bool)
    requires ReadsNumbers(isNumber)
    ensures Trim(if args == [] then "" else " " + Joined(args, isNumber)) == Trim(Joined(args, isNumber))
  {
    if args != [] { TrimAfterSpace(args, isNumber); }
  }

  lemma QuotedItem(q: char, arg: string, args: seq<string>, isNumber: string -> bool)
    requires IsQuote(q) && q !in arg && (arg != "" ==> arg[|arg| - 1] != '\\')
    ensures Item([q] + arg + [q] + Rest(args, isNumber), ',')
         == (arg, if args == [] then "" else " " + Joined(args, isNumber))
  {
    hide Joined, Rest;
    RestIsJoined(args, isNumber);
    var t := [q] + arg + [q] + Rest(args, isNumber);
    assert t[|arg| + 1] == q && forall k :: 1 <= k <= |arg| ==> t[k] != q;
    assert Find(t, q, 1) == |arg| + 1;
    assert ClosingQuote(t, q, 1) == |arg| + 1;
    assert t[1..|arg| + 1] == arg;
    AfterComma([q] + arg + [q], args, isNumber);
  }

  lemma BareItem(arg: string, args: seq<string>, isNumber: string -> bool)
    requires Plain(arg)
    ensures Item(arg + Rest(args, isNumber), ',')
         == (arg, if args == [] then "" else " " + Joined(args, isNumber))
  {
    hide Joined, Rest;
    RestIsJoined(args, isNumber);
    var t := arg + Rest(args, isNumber);
    assert t[0] == arg[0];
    AfterComma(arg, args, isNumber);
    assert forall k :: 0 <= k < |arg| ==> t[k] == arg[k];
    assert FindDelimiter(t, ',', 0) == |arg|;
    assert t[..|arg|] == arg;
  }

  lemma AfterComma(front: string, args: seq<string>, isNumber: string -> bool)
    ensures var t := front + Rest(args, isNumber);
      if args == [] then t == front
      else |front| + 1 < |t| && t[|front|] == ',' && t[|front| + 1..] == " " + Joined(args, isNumber)
  {
    hide Joined, Rest;
    RestIsJoined(args, isNumber);
    var t := front + Rest(args, isNumber);
    assert args != [] ==> |t| == |front| + 2 + |Joined(args, isNumber)|;
  }

  // A first argument that survives is the first item.
  lemma FirstSurvives(args: seq<string>, isNumber: string -> bool)
    requires ReadsNumbers(isNumber) && args != [] && SplitsBack(args[0], isNumber)
    ensures Items(Trim(Joined(args, isNumber)), ',') == [args[0]] + Items(Trim(Joined(args[1..], isNumber)), ',')
  {
    var t := Joined(args, isNumber);
    hide ConvertArg, Rest, Item, Items, Trim;
    TrimAfterSpace(args, isNumber);
    QuotedOrBare(args[0], isNumber);
    if Bare(args[0], isNumber) {
      BareIsPlain(args[0], isNumber);
      BareItem(args[0], args[1..], isNumber);
    } else {
      QuotedItem(QuoteOf(args[0]), args[0], args[1..], isNumber);
    }
    assert TrimLeft(t) == t;
    TrimmedRest(args[1..], isNumber);
    ItemsStep(t, ',');
  }

  // A first argument that does not survive is read as something else.
  lemma FirstIsLost(args: seq<string>, isNumber: string -> bool)
    requires ReadsNumbers(isNumber) && args != [] && !SplitsBack(args[0], isNumber)
    ensures var items := Items(Trim(Joined(args, isNumber)), ',');
      items != [] && items[0] != args[0] && RemoveQuotes(items[0]) != args[0]
  {
    var arg, t := args[0], Joined(args, isNumber);
    hide ConvertArg, Rest, Item, Items, Trim, TrimLeft, Joined, Bare, QuoteOf, RemoveQuotes, Plain;
    TrimAfterSpace(args, isNumber);
    JoinedStart(args, isNumber);
    if Bare(arg, isNumber) {
      BareIsPlain(arg, isNumber);
      TrimLeftOf(arg, Rest(args[1..], isNumber));
      BareItem(TrimLeft(arg), args[1..], isNumber);
      ItemsStep(TrimLeft(t), ',');
      PlainHasNoQuotes(TrimLeft(arg));
    } else {
      RestBeginsWithComma(args[1..], isNumber);
      BrokenItem(QuoteOf(arg), arg, Rest(args[1..], isNumber));
      ItemsStep(t, ',');
    }
  }

  lemma PlainHasNoQuotes(s: string)
    requires Plain(s)
    ensures s != "" && RemoveQuotes(s) == s
  {
    assert IsQuote('"') && IsQuote('\'');
  }

  lemma RestBeginsWithComma(args: seq<string>, isNumber: string -> bool)
    ensures var rest := Rest(args, isNumber); rest != "" ==> rest[0] == ','
  {
    hide Rest, Joined;
    RestIsJoined(args, isNumber);
  }

  lemma JoinedStart(args: seq<string>, isNumber: string -> bool)
    requires ReadsNumbers(isNumber) && args != []
    ensures var t, arg := Joined(args, isNumber), args[0];
      if Bare(arg, isNumber) then t == arg + Rest(args[1..], isNumber)
      else TrimLeft(t) == t == [QuoteOf(arg)] + arg + [QuoteOf(arg)] + Rest(args[1..], isNumber)
    ensures IsQuote(QuoteOf(args[0])) && (Bare(args[0], isNumber) ==> args[0] != "")
  {
    hide ConvertArg, Rest, Bare;
    QuotedOrBare(args[0], isNumber);
  }

  lemma {:induction false} TrimLeftOf(s: string, rest: string)
    requires TrimLeft(s) != ""
    ensures TrimLeft(s + rest) == TrimLeft(s) + rest
  {
    if IsSpace(s[0]) {
      TrimLeftOf(s[1..], rest);
      TrimLeftStep(s, rest);
    }
  }

  lemma TrimLeftStep(s: string, rest: string)
    requires s != "" && IsSpace(s[0])
    ensures TrimLeft(s + rest) == TrimLeft(s[1..] + rest) && TrimLeft(s) == TrimLeft(s[1..])
  {
    assert (s + rest)[1..] == s[1..] + rest;
  }

  // A quoted text that contains its quote, or ends in a backslash: what is read
  // is cut short, or has lost a backslash; taking off quotes does not mend it.
  lemma BrokenItem(q: char, arg: string, rest: string)
    requires IsQuote(q) && (q in arg || (arg != "" && arg[|arg| - 1] == '\\'))
    requires rest != "" ==> rest[0] == ','
    ensures var value := Item([q] + arg + [q] + rest, ',').0; value != arg && RemoveQuotes(value) != arg
  {
    var t := [q] + arg + [q] + rest;
    var first := Find(t, q, 1);
    hide Item, Replaced, RemoveQuotes, ClosingQuote;
    assert t[|arg| + 1] == q;
    assert forall k :: 0 <= k < |arg| ==> t[k + 1] == arg[k];
    if q in arg {
      var k :| 0 <= k < |arg| && arg[k] == q;
      assert t[k + 1] == q;
    } else {
      assert first == |arg| + 1 && t[|arg|] == arg[|arg| - 1];
    }
    if t[first - 1] != '\\' { CutItem(t, q, arg, first); } else { EscapedItem(q, arg, rest, first); }
  }

  lemma CutItem(t: string, q: char, arg: string, first: nat)
    requires IsQuote(q) && t != "" && t[0] == q && first == Find(t, q, 1) <= |arg| && first < |t| && t[first - 1] != '\\'
    ensures var value := Item(t, ',').0; value != arg && RemoveQuotes(value) != arg
  {
    hide Replaced;
    assert ClosingQuote(t, q, 1) == first;
    assert |Item(t, ',').0| == first - 1;
  }

  // The first quote is skipped, for a backslash precedes it.
  lemma EscapedItem(q: char, arg: string, rest: string, first: nat)
    requires IsQuote(q) && (rest != "" ==> rest[0] == ',')
    requires var t := [q] + arg + [q] + rest; first == Find(t, q, 1) <= |arg| + 1 && t[first - 1] == '\\'
    ensures var value := Item([q] + arg + [q] + rest, ',').0; value != arg && RemoveQuotes(value) != arg
  {
    hide Replaced, RemoveQuotes, Item, Find, ClosingQuote;
    var t := [q] + arg + [q] + rest;
    var end := ClosingQuote(t, q, 1);
    EscapedQuotes(t, q, end);
    EscapedText(q, arg, rest, t[1..end], first);
    MendedText(q, arg, rest, t[1..end], first - 2);
  }

  // What is read of it, and where it was escaped.
  lemma EscapedText(q: char, arg: string, rest: string, raw: string, first: nat)
    requires IsQuote(q)
    requires var t := [q] + arg + [q] + rest;
      && first == Find(t, q, 1) <= |arg| + 1 && t[first - 1] == '\\' && first <= |raw| < |t| && raw == t[1..|raw| + 1]
    ensures 2 <= first && raw == (arg + [q] + rest)[..|raw|] && first - 2 < |arg|
    ensures raw[first - 2] == arg[first - 2] == '\\' && raw[first - 1] == q
    ensures forall k :: 0 <= k < first - 1 ==> raw[k] == arg[k] && arg[k] != q
  {
    var t := [q] + arg + [q] + rest;
    assert t == [q] + (arg + [q] + rest);
    assert forall k :: 0 <= k < |raw| ==> raw[k] == t[k + 1];
    assert forall k :: 0 <= k < |arg| ==> t[k + 1] == arg[k];
  }

  lemma MendedText(q: char, arg: string, rest: string, raw: string, j: nat)
    requires IsQuote(q) && (rest != "" ==> rest[0] == ',')
    requires j + 1 < |raw| <= |arg + [q] + rest| && raw == (arg + [q] + rest)[..|raw|] && j < |arg|
    requires raw[j] == arg[j] == '\\' && raw[j + 1] == q && forall k :: 0 <= k <= j ==> raw[k] == arg[k] && arg[k] != q
    requires forall k :: 0 <= k < |raw| && raw[k] == q ==> k > 0 && raw[k - 1] == '\\'
    ensures var value := Replaced(raw, ['\\', q], [q]); value != arg && RemoveQuotes(value) != arg
  {
    hide Replaced, RemoveQuotes;
    var value := Replaced(raw, ['\\', q], [q]);
    LostBackslash(q, raw, j);
    if RemoveQuotes(value) == arg {
      StrippedIsWrapped(value, arg);
      if j == 0 { WrappedAgain(q, arg, rest, raw); } else { NotWrapped(q, arg, value, j); }
    }
  }

  lemma EscapedQuotes(t: string, q: char, end: nat)
    requires IsQuote(q) && |t| > 1 && t[0] == q && end == ClosingQuote(t, q, 1)
    requires var first := Find(t, q, 1); first < |t| && t[first - 1] == '\\'
    ensures Find(t, q, 1) < end && end == ClosingQuote(t, q, Find(t, q, 1) + 1)
    ensures Item(t, ',').0 == Replaced(t[1..end], ['\\', q], [q])
    ensures forall k :: 0 <= k < end - 1 && t[1..end][k] == q ==> k > 0 && t[1..end][k - 1] == '\\'
  {
    hide Replaced;
    var raw := t[1..end];
    assert forall k :: 0 <= k < |raw| ==> raw[k] == t[k + 1];
  }

  lemma LostBackslash(q: char, raw: string, j: nat)
    requires IsQuote(q) && j + 1 < |raw| && raw[j] == '\\' && raw[j + 1] == q && forall k :: 0 <= k < j ==> raw[k] != q
    ensures var value := Replaced(raw, ['\\', q], [q]);
      j < |value| && value[j] == q && forall k :: 0 <= k < j ==> value[k] == raw[k]
  {
    ReplacedToQuote(raw, q, 0, j + 1);
    assert raw[0..] == raw;
  }

  lemma StrippedIsWrapped(value: string, arg: string)
    requires RemoveQuotes(value) == arg && value != arg
    ensures value != "" && value == [value[0]] + arg + [value[0]]
  {
  }

  // The text begins with an escaped quote. If it came back within quotes, then
  // a backslash would follow each of its quotes, and the closing one as well.
  lemma WrappedAgain(q: char, arg: string, rest: string, raw: string)
    requires IsQuote(q) && |arg| > 0 && arg[0] == '\\' && (rest != "" ==> rest[0] == ',')
    requires |raw| <= |arg + [q] + rest| && raw == (arg + [q] + rest)[..|raw|]
    requires |raw| > 1 && raw[1] == q
    requires forall k :: 0 <= k < |raw| && raw[k] == q ==> k > 0 && raw[k - 1] == '\\'
    ensures Replaced(raw, ['\\', q], [q]) != [q] + arg + [q]
  {
    hide Replaced;
    var value := Replaced(raw, ['\\', q], [q]);
    ReplacedToQuote(raw, q, 0, 1);
    assert raw[0..] == raw && raw[0..0] == "" && value == [q] + Replaced(raw[2..], ['\\', q], [q]);
    assert value[1..] == Replaced(raw[2..], ['\\', q], [q]);
    ReplacedIsShorter(raw, q);
    if |raw| >= |arg| + 2 {
      var w := raw[|arg| + 1..];
      assert raw == arg + [q] + w;
      assert w[0] == (arg + [q] + rest)[|arg| + 1];
      if value == [q] + arg + [q] { QuotesRepeat(q, arg, w, raw, value, 1, 2); }
    }
  }

  lemma {:induction false} ReplacedIsShorter(s: string, key: char)
    ensures |Replaced(s, ['\\', key], [key])| <= |s|
  {
    if s != "" {
      if At(s, ['\\', key], 0) { ReplacedIsShorter(s[2..], key); } else { ReplacedIsShorter(s[1..], key); }
    }
  }

  // i and l are the places behind two quotes that correspond to each other, in
  // the value and in the text it was read from.
  lemma {:induction false} QuotesRepeat(q: char, arg: string, w: string, raw: string, value: string, i: nat, l: nat)
    requires IsQuote(q) && w != "" && w[0] == ',' && raw == arg + [q] + w && value == [q] + arg + [q]
    requires forall k :: 0 <= k < |raw| && raw[k] == q ==> k > 0 && raw[k - 1] == '\\'
    requires 1 <= i <= l <= |arg| + 1 && i < |value| && value[i] == '\\'
    requires value[i..] == Replaced(raw[l..], ['\\', q], [q])
    requires 0 < l && raw[l - 1] == q && forall k :: i - 1 <= k < l - 1 ==> raw[k] != q
    ensures false
    decreases |raw| - l
  {
    hide Replaced;
    FirstReplaced(raw[l..], q);
    assert raw[l] == '\\';
    assert raw[|arg|] == q && raw[|arg| + 1] == ',';
    assert l < |arg|;
    var n := Find(raw, q, l);
    ReplacedToQuote(raw, q, l, n);
    ValueAt(q, arg, w, raw, value, i, l);
    NextAgrees(value, i, l, raw[l..n - 1], q, Replaced(raw[n + 1..], ['\\', q], [q]));
    QuotesRepeat(q, arg, w, raw, value, l + 1, n + 1);
  }

  lemma FirstReplaced(s: string, q: char)
    requires Replaced(s, ['\\', q], [q]) != "" && Replaced(s, ['\\', q], [q])[0] == '\\' && q != '\\'
    ensures s != "" && s[0] == '\\'
  {
  }

  lemma ValueAt(q: char, arg: string, w: string, raw: string, value: string, i: nat, l: nat)
    requires raw == arg + [q] + w && value == [q] + arg + [q] && 1 <= i <= l < |arg|
    requires raw[l - 1] == q && forall k :: i - 1 <= k < l - 1 ==> raw[k] != q
    ensures value[l] == q && value[l + 1] == raw[l] && forall k :: i <= k < l ==> value[k] != q
  {
    assert forall k :: 1 <= k <= |arg| ==> value[k] == arg[k - 1] == raw[k - 1];
  }

  lemma NextAgrees(value: string, i: nat, l: nat, front: string, q: char, rest: string)
    requires i <= l < |value| && value[l] == q && forall k :: i <= k < l ==> value[k] != q
    requires value[i..] == front + ([q] + rest) && q !in front
    ensures value[l + 1..] == rest
  {
    var v := value[i..];
    assert v[|front|] == q && forall k :: 0 <= k < |front| ==> v[k] == front[k];
    assert v[l - i] == q;
    assert |front| == l - i;
    assert value[l + 1..] == v[l - i + 1..];
  }

  // A text within quotes that begins with itself consists of quotes only.
  lemma {:induction false} NotWrapped(q: char, arg: string, value: string, j: nat)
    requires 0 < j < |arg| && j < |value| && value[j] == q && arg[0] != q
    requires forall k :: 0 <= k < j ==> value[k] == arg[k]
    ensures value != [value[0]] + arg + [value[0]]
  {
    if value == [value[0]] + arg + [value[0]] {
      assert forall k :: 0 <= k < j ==> value[k + 1] == arg[k];
      SameCharacters(value, j);
    }
  }

  lemma {:induction false} SameCharacters(s: string, j: nat)
    requires j < |s| && forall k :: 0 <= k < j ==> s[k + 1] == s[k]
    ensures s[j] == s[0]
  {
    if j > 0 { SameCharacters(s, j - 1); }
  }

  // The splitter returns a list as it was written exactly if it does so with
  // every element.
  lemma {:induction false} RoundTrip(args: seq<string>, isNumber: string -> bool)
    requires ReadsNumbers(isNumber)
    ensures Items(Trim(Joined(args, isNumber)), ',') == args <==> forall arg :: arg in args ==> SplitsBack(arg, isNumber)
  {
    hide ConvertArg, Item, Items, Joined, Trim, SplitsBack;
    if args == [] {
      EmptyRoundTrip(isNumber);
    } else {
      assert args == [args[0]] + args[1..];
      if SplitsBack(args[0], isNumber) {
        FirstSurvives(args, isNumber);
        RoundTrip(args[1..], isNumber);
      } else {
        FirstIsLost(args, isNumber);
      }
    }
  }

  lemma EmptyRoundTrip(isNumber: string -> bool)
    ensures Items(Trim(Joined([], isNumber)), ',') == []
  {
  }

  // With quotes taken off the items, it is read as it was written exactly if
  // every element survives that, too.
  lemma {:induction false} ReadBack(args: seq<string>, isNumber: string -> bool)
    requires ReadsNumbers(isNumber)
    ensures RemoveAllQuotes(Items(Trim(Joined(args, isNumber)), ',')) == args
      <==> forall arg :: arg in args ==> Survives(arg, isNumber)
  {
    hide ConvertArg, Item, Items, Joined, Trim, SplitsBack, Survives, RemoveQuotes, RemoveAllQuotes;
    if args == [] {
      EmptyRoundTrip(isNumber);
    } else {
      var items, rest := Items(Trim(Joined(args, isNumber)), ','), Items(Trim(Joined(args[1..], isNumber)), ',');
      assert args == [args[0]] + args[1..];
      if SplitsBack(args[0], isNumber) {
        FirstSurvives(args, isNumber);
        ReadBack(args[1..], isNumber);
        assert items == [args[0]] + rest;
        RemoveFromFirst(args[0], rest);
        FirstAndRest(RemoveQuotes(args[0]), RemoveAllQuotes(rest), args[0], args[1..]);
      } else {
        FirstIsLost(args, isNumber);
        assert RemoveAllQuotes(items)[0] == RemoveQuotes(items[0]);
      }
      SurvivesBoth(args[0], isNumber);
    }
  }

  lemma SurvivesBoth(arg: string, isNumber: string -> bool)
    ensures Survives(arg, isNumber) <==> SplitsBack(arg, isNumber) && RemoveQuotes(arg) == arg
  {
    RemovedIsShorter(arg);
  }

  lemma RemoveFromFirst(item: string, rest: seq<string>)
    ensures RemoveAllQuotes([item] + rest) == [RemoveQuotes(item)] + RemoveAllQuotes(rest)
  {
    assert ([item] + rest)[1..] == rest;
  }

  lemma FirstAndRest(a: string, s: seq<string>, b: string, t: seq<string>)
    ensures [a] + s == [b] + t <==> a == b && s == t
  {
    assert ([a] + s)[1..] == s && ([b] + t)[1..] == t && ([a] + s)[0] == a && ([b] + t)[0] == b;
  }

  lemma RemovedIsShorter(s: string)
    ensures RemoveQuotes(s) == s <==> !HasOuterQuotes(s)
  {
    assert HasOuterQuotes(s) ==> |RemoveQuotes(s)| < |s|;
  }

  // In particular all lists without quotes, backslashes and leading white space.
  lemma PlainListsRoundTrip(args: seq<string>, isNumber: string -> bool)
    requires ReadsNumbers(isNumber)
    requires forall arg :: arg in args ==> (arg != "" ==> !IsSpace(arg[0])) && HasNoQuotes(arg)
    ensures Items(Trim(Joined(args, isNumber)), ',') == args
    ensures RemoveAllQuotes(Items(Trim(Joined(args, isNumber)), ',')) == args
  {
    hide Items, Trim, Joined, Bare, RemoveAllQuotes;
    RoundTrip(args, isNumber);
    ReadBack(args, isNumber);
    forall arg | arg in args
      ensures Survives(arg, isNumber)
    {
      assert IsQuote(QuoteOf(arg));
      assert arg != "" ==> arg[0] in arg && arg[|arg| - 1] in arg;
    }
  }

  predicate HasNoQuotes(arg: string)
  {
    forall c :: c in arg ==> !IsQuote(c) && c != '\\'
  }

  // ----- Values in a file -----------------------------------------------------

  const COMMENT := '#'

  // A comment ends the value.
  function CutComment(value: string): string
  {
    if COMMENT in value then Trim(value[..Find(value, COMMENT, 0)]) else value
  }

  // A list that is still open goes on in the lines that follow.
  function Continued(item: string, more: seq<string>): (r: string)
    requires item != ""
    ensures |r| >= |item|
    decreases |more|
  {
    if item[|item| - 1] == ']' || more == [] then item else Continued(item + Trim(more[0]), more[1..])
  }

  // The items of the value of a line, before quotes are taken off.
  function ValueItems(value: string, more: seq<string>): seq<string>
  {
    var item := CutComment(value);
    if |item| > 1 && item[0] == '[' then
      var list := Continued(item, more);
      Items(Trim(list[1..|list| - 1]), ',')
    else if ',' in item then Items(Trim(item), ',')
    else if ' ' in item then Items(Trim(item), '\0')
    else [item]
  }

  method JoinLines(item: string, more: seq<string>) returns (list: string)
    requires item != ""
    ensures list == Continued(item, more)
  {
    hide Trim;
    list := item;
    var next := 0;
    assert more[0..] == more;
    while list[|list| - 1] != ']' && next < |more|
      invariant 0 <= next <= |more| && list != ""
      invariant Continued(list, more[next..]) == Continued(item, more)
      decreases |more| - next
    {
      assert more[next..][1..] == more[next + 1..];
      list := list + Trim(more[next]);
      next := next + 1;
    }
  }

  method StripQuotes(split: seq<string>) returns (items: seq<string>)
    ensures items == RemoveAllQuotes(split)
  {
    hide RemoveQuotes;
    items := split;
    for i := 0 to |items|
      invariant |items| == |split|
      invariant forall k :: 0 <= k < i ==> items[k] == RemoveQuotes(split[k])
      invariant forall k :: i <= k < |items| ==> items[k] == split[k]
    {
      items := items[i := RemoveQuotes(items[i])];
    }
    assert items == RemoveAllQuotes(split);
  }

  method ReadValue(value: string, more: seq<string>) returns (items: seq<string>)
    ensures items == RemoveAllQuotes(ValueItems(value, more))
  {
    hide Items, Trim, Find, Continued, RemoveAllQuotes;
    var item := value;
    var cloc := Find(item, COMMENT, 0);
    if cloc < |item| { item := Trim(item[..cloc]); }
    assert item == CutComment(value);
    if |item| > 1 && item[0] == '[' {
      var list := JoinLines(item, more);
      items := SplitUp(list[1..|list| - 1], ',');
    } else if ',' in item {
      items := SplitUp(item, ',');
    } else if ' ' in item {
      items := SplitUp(item, '\0');
    } else {
      items := [item];
    }
    items := StripQuotes(items);
  }

  // What is not in a text is not in its items.
  lemma {:induction false} ReplacedLacks(s: string, pattern: string, with: string, c: char)
    requires |pattern| > 0 && c !in s && c !in with
    ensures c !in Replaced(s, pattern, with)
  {
    if s != "" {
      if At(s, pattern, 0) { ReplacedLacks(s[|pattern|..], pattern, with, c); } else { ReplacedLacks(s[1..], pattern, with, c); }
    }
  }

  lemma TrimLacks(s: string, c: char)
    requires c !in s
    ensures c !in Trim(s)
  {
  }

  lemma ItemLacks(s: string, delimiter: char, c: char)
    requires s != "" && c !in s
    ensures c !in Item(s, delimiter).0 && c !in Item(s, delimiter).1
  {
    hide Replaced;
    if IsQuote(s[0]) { ReplacedLacks(s[1..ClosingQuote(s, s[0], 1)], ['\\', s[0]], [s[0]], c); }
  }

  lemma {:induction false} ItemsLack(s: string, delimiter: char, c: char)
    requires c !in s
    ensures forall item :: item in Items(s, delimiter) ==> c !in item
    decreases |s|
  {
    hide Item, Trim;
    if s != "" {
      ItemLacks(s, delimiter, c);
      TrimLacks(Item(s, delimiter).1, c);
      ItemsLack(Trim(Item(s, delimiter).1), delimiter, c);
    }
  }

  lemma QuotesLack(items: seq<string>, c: char)
    requires forall item :: item in items ==> c !in item
    ensures forall item :: item in RemoveAllQuotes(items) ==> c !in item
  {
    forall item | item in RemoveAllQuotes(items)
      ensures c !in item
    {
      var i :| 0 <= i < |items| && item == RemoveQuotes(items[i]);
      assert items[i] in items;
    }
  }

  // Whatever way the value is taken apart, nothing of the comment is left.
  lemma CommentIsLost(value: string)
    ensures forall item :: item in RemoveAllQuotes(ValueItems(value, [])) ==> COMMENT !in item
  {
    hide Items, Trim, RemoveAllQuotes, Find;
    var item := CutComment(value);
    if COMMENT in value { TrimLacks(value[..Find(value, COMMENT, 0)], COMMENT); }
    var list := if |item| > 1 && item[0] == '[' then item[1..|item| - 1] else item;
    TrimLacks(list, COMMENT);
    ItemsLack(Trim(list), ',', COMMENT);
    ItemsLack(Trim(list), '\0', COMMENT);
    QuotesLack(ValueItems(value, []), COMMENT);
  }

  lemma ConvertedHolds(arg: string, isNumber: string -> bool)
    requires ReadsNumbers(isNumber)
    ensures COMMENT in ConvertArg(arg, isNumber) <==> COMMENT in arg
  {
    hide Bare, ConvertArg;
    QuotedOrBare(arg, isNumber);
  }

  lemma {:induction false} JoinedHolds(args: seq<string>, isNumber: string -> bool)
    requires ReadsNumbers(isNumber)
    ensures COMMENT in Joined(args, isNumber) <==> exists arg :: arg in args && COMMENT in arg
  {
    hide ConvertArg;
    if args != [] {
      JoinedHolds(args[1..], isNumber);
      RestIsJoined(args[1..], isNumber);
      ConvertedHolds(args[0], isNumber);
      assert args == [args[0]] + args[1..];
    }
  }

  // The value that is written for a list of two or more.
  function Written(args: seq<string>, isNumber: string -> bool): string
  {
    "[" + Joined(args, isNumber) + "]"
  }

  lemma WrittenIsRead(args: seq<string>, isNumber: string -> bool, more: seq<string>)
    requires ReadsNumbers(isNumber) && forall arg :: arg in args ==> COMMENT !in arg
    ensures ValueItems(Written(args, isNumber), more) == Items(Trim(Joined(args, isNumber)), ',')
  {
    hide Items, Trim, Joined;
    JoinedHolds(args, isNumber);
    var value := Written(args, isNumber);
    assert value[1..|value| - 1] == Joined(args, isNumber);
    assert COMMENT !in value && value[0] == '[' && value[|value| - 1] == ']' && |value| > 1;
  }

  // The last value of a file is read as it was written exactly if every element
  // survives and none contains the character that begins a comment.
  lemma FileReadBack(args: seq<string>, isNumber: string -> bool)
    requires ReadsNumbers(isNumber)
    ensures RemoveAllQuotes(ValueItems(Written(args, isNumber), [])) == args
      <==> forall arg :: arg in args ==> Survives(arg, isNumber) && COMMENT !in arg
  {
    hide Items, Trim, Joined, Survives, RemoveAllQuotes, ValueItems, Written;
    if forall arg :: arg in args ==> COMMENT !in arg {
      WrittenIsRead(args, isNumber, []);
      ReadBack(args, isNumber);
    } else {
      CommentIsLost(Written(args, isNumber));
    }
  }

  // What is written for a list of two or more, read back from the file, with the
  // lines that follow.
  method WriteAndRead(args: seq<string>, isNumber: string -> bool, more: seq<string>) returns (items: seq<string>)
    requires ReadsNumbers(isNumber) && |args| > 1
    ensures more == [] || (forall arg :: arg in args ==> COMMENT !in arg) ==>
      (items == args <==> forall arg :: arg in args ==> Survives(arg, isNumber) && COMMENT !in arg)
  {
    hide Items, Trim, Joined, Survives, RemoveAllQuotes, ValueItems;
    var joined := IniJoin(args, isNumber);
    FileReadBack(args, isNumber);
    if forall arg :: arg in args ==> COMMENT !in arg {
      WrittenIsRead(args, isNumber, more);
      WrittenIsRead(args, isNumber, []);
    }
    items := ReadValue(joined, more);
  }
}
