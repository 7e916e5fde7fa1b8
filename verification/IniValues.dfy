// What the values of a configuration file are read as, read off their text.
module IniValues {
  import opened Strings
  import opened IniLists

  // The items of a value, without their quotes.
  function ItemsRead(value: string, more: seq<string>): seq<string>
  {
    RemoveAllQuotes(ValueItems(value, more))
  }

  // White space between items.
  predicate IsGap(gap: string)
  {
    forall k :: 0 <= k < |gap| ==> gap[k] == ' ' || '\t' <= gap[k] <= '\r'
  }

  // A word: no white space, no comma and no quote.
  predicate IsWord(item: string)
  {
    item != "" && forall k :: 0 <= k < |item| ==>
      var c := item[k]; c != ' ' && !('\t' <= c <= '\r') && c != ',' && c != '"' && c != '\'' && c != '`'
  }

  // A text with a backslash before each quote of one kind.
  function Escaped(text: string, q: char): string
  {
    if text == "" then "" else (if text[0] == q then ['\\', q] else [text[0]]) + Escaped(text[1..], q)
  }

  // How a text may be written: as it is if it is a word, or in one kind of quotes,
  // unless it ends in a backslash.
  predicate Puts(form: string, text: string)
  {
    || (form == text && IsWord(text))
    || (form != "" && (form[0] == '"' || form[0] == '\'' || form[0] == '`')
        && form == [form[0]] + Escaped(text, form[0]) + [form[0]]
        && (text != "" ==> text[|text| - 1] != '\\'))
  }

  predicate AllPut(forms: seq<string>, texts: seq<string>)
  {
    |forms| == |texts| && forall i :: 0 <= i < |forms| ==> Puts(forms[i], texts[i])
  }

  // The texts themselves are not in quotes.
  predicate NoneQuoted(texts: seq<string>)
  {
    forall i :: 0 <= i < |texts| ==>
      var t := texts[i]; |t| > 1 && t[0] == t[|t| - 1] ==> t[0] != '"' && t[0] != '\''
  }

  predicate AllGaps(gaps: seq<string>)
  {
    forall i :: 0 <= i < |gaps| ==> IsGap(gaps[i])
  }

  lemma FirstPut(forms: seq<string>, texts: seq<string>)
    requires AllPut(forms, texts) && forms != []
    ensures Puts(forms[0], texts[0]) && AllPut(forms[1..], texts[1..])
  {
  }

  lemma FirstGap(gaps: seq<string>)
    requires AllGaps(gaps) && gaps != []
    ensures IsGap(gaps[0]) && AllGaps(gaps[1..])
  {
  }

  // Items with the same separator between them, and a gap after each separator.
  function Listed(items: seq<string>, separator: string, gaps: seq<string>): string
    requires |items| == |gaps| + 1
  {
    if gaps == [] then items[0] else items[0] + separator + gaps[0] + Listed(items[1..], separator, gaps[1..])
  }

  // ----- Splitting ------------------------------------------------------------

  lemma {:induction false} GapIsTrimmed(gap: string, rest: string)
    requires IsGap(gap) && (rest != "" ==> !IsSpace(rest[0]))
    ensures TrimLeft(gap + rest) == rest
  {
    if gap == "" {
      assert gap + rest == rest;
    } else {
      assert (gap + rest)[1..] == gap[1..] + rest;
      GapIsTrimmed(gap[1..], rest);
    }
  }

  // The text of a list begins and ends with an item.
  lemma {:induction false} ListedEnds(forms: seq<string>, texts: seq<string>, separator: string, gaps: seq<string>)
    requires |forms| == |gaps| + 1 && AllPut(forms, texts)
    ensures var t := Listed(forms, separator, gaps);
      |t| >= |forms[0]| > 0 && t[0] == forms[0][0] && !IsSpace(t[0]) && !IsSpace(t[|t| - 1]) && Trim(t) == t
  {
    hide Puts, Trim, IsSpace, AllPut;
    var t := Listed(forms, separator, gaps);
    SameLength(forms, texts);
    FirstPut(forms, texts);
    FormEnds(forms[0], texts[0]);
    if gaps != [] {
      ListedEnds(forms[1..], texts[1..], separator, gaps[1..]);
      SumEnds(forms[0], separator + gaps[0], Listed(forms[1..], separator, gaps[1..]));
      assert t == forms[0] + (separator + gaps[0]) + Listed(forms[1..], separator, gaps[1..]);
    }
    NothingToTrim(t);
  }

  lemma FormEnds(form: string, text: string)
    requires Puts(form, text)
    ensures form != "" && !IsSpace(form[0]) && !IsSpace(form[|form| - 1])
  {
  }

  lemma SumEnds(a: string, b: string, c: string)
    requires a != "" && c != ""
    ensures var t := a + b + c; t[0] == a[0] && t[|t| - 1] == c[|c| - 1]
  {
  }

  lemma NothingToTrim(t: string)
    requires t != "" && !IsSpace(t[0]) && !IsSpace(t[|t| - 1])
    ensures Trim(t) == t
  {
    assert TrimRight(t) == t;
  }

  lemma GapIsKept(gap: string, t: string)
    requires t != "" && !IsSpace(t[|t| - 1])
    ensures TrimRight(gap + t) == gap + t
  {
    assert (gap + t)[|gap + t| - 1] == t[|t| - 1];
  }

  lemma TrimmedGap(gap: string, forms: seq<string>, texts: seq<string>, separator: string, gaps: seq<string>)
    requires IsGap(gap) && |forms| == |gaps| + 1 && AllPut(forms, texts)
    ensures Trim(gap + Listed(forms, separator, gaps)) == Listed(forms, separator, gaps)
  {
    hide AllPut;
    var t := Listed(forms, separator, gaps);
    ListedEnds(forms, texts, separator, gaps);
    GapIsKept(gap, t);
    GapIsTrimmed(gap, t);
  }

  // The first word of a text that a delimiter follows, or that is all of it.
  lemma WordItem(item: string, rest: string, delimiter: char)
    requires IsWord(item) && (delimiter == ',' || delimiter == '\0') && (rest != "" ==> IsDelimiter(delimiter, rest[0]))
    ensures Item(item + rest, delimiter) == (item, if rest == "" then "" else rest[1..])
  {
    var t := item + rest;
    assert t[0] == item[0] && forall k :: 0 <= k < |item| ==> t[k] == item[k];
    assert rest != "" ==> t[|item|] == rest[0] && t[|item| + 1..] == rest[1..];
    assert FindDelimiter(t, delimiter, 0) == |item|;
    assert t[..|item|] == item;
  }

  // Each quote within an escaped text has its backslash, and its last character
  // is that of the text.
  lemma {:induction false} EscapedQuotes(text: string, q: char)
    requires q != '\\'
    ensures var e := Escaped(text, q);
      && QuotesEscaped(e, q)
      && (text == "" <==> e == "") && (text != "" ==> e[|e| - 1] == text[|text| - 1])
      && (q !in e ==> e == text)
  {
    hide Escaped;
    if text == "" {
      NothingEscaped(q);
    } else {
      EscapedQuotes(text[1..], q);
      EscapedStep(text, q);
      OneMoreEscaped(text[0], q, text[1..], Escaped(text[1..], q));
      assert text == [text[0]] + text[1..];
    }
  }

  predicate QuotesEscaped(e: string, q: char)
  {
    forall k :: 0 <= k < |e| && e[k] == q ==> k > 0 && e[k - 1] == '\\'
  }

  lemma OneMoreEscaped(c: char, q: char, text: string, e: string)
    requires q != '\\' && QuotesEscaped(e, q)
    requires (text == "" <==> e == "") && (text != "" ==> e[|e| - 1] == text[|text| - 1]) && (q !in e ==> e == text)
    ensures var more := (if c == q then ['\\', q] else [c]) + e;
      && QuotesEscaped(more, q) && more[|more| - 1] == ([c] + text)[|text|]
      && (q !in more ==> more == [c] + text)
  {
    var first := if c == q then ['\\', q] else [c];
    var more := first + e;
    assert forall k :: |first| <= k < |more| ==> more[k] == e[k - |first|];
    assert q !in more ==> q !in first && q !in e;
  }

  lemma {:induction false} EscapedReplaced(text: string, q: char)
    requires q != '\\'
    ensures Replaced(Escaped(text, q), ['\\', q], [q]) == text
  {
    hide Replaced, At, Escaped;
    if text == "" {
      NothingEscaped(q);
    } else {
      var rest := Escaped(text[1..], q);
      EscapedReplaced(text[1..], q);
      EscapedBegins(text[1..], q);
      EscapedStep(text, q);
      if text[0] == q { PatternReplaced(q, rest); } else { CharacterStays(text[0], q, rest); }
      assert text == [text[0]] + text[1..];
    }
  }

  lemma NothingEscaped(q: char)
    ensures Escaped("", q) == "" && Replaced("", ['\\', q], [q]) == ""
  {
  }

  lemma EscapedStep(text: string, q: char)
    requires text != ""
    ensures Escaped(text, q) == (if text[0] == q then ['\\', q] else [text[0]]) + Escaped(text[1..], q)
  {
  }

  lemma EscapedBegins(text: string, q: char)
    requires q != '\\'
    ensures var e := Escaped(text, q); e != "" ==> e[0] != q
  {
    EscapedQuotes(text, q);
  }

  lemma PatternReplaced(q: char, rest: string)
    ensures Replaced(['\\', q] + rest, ['\\', q], [q]) == [q] + Replaced(rest, ['\\', q], [q])
  {
    var s := ['\\', q] + rest;
    assert s[0..2] == ['\\', q] && s[2..] == rest;
  }

  lemma CharacterStays(c: char, q: char, rest: string)
    requires rest != "" ==> rest[0] != q
    ensures Replaced([c] + rest, ['\\', q], [q]) == [c] + Replaced(rest, ['\\', q], [q])
  {
    var s, pattern := [c] + rest, ['\\', q];
    assert s[1..] == rest;
    assert |s| > 1 ==> s[0..2][1] == rest[0] && pattern[1] == q;
    assert !At(s, pattern, 0);
  }

  // The first quoted item of a text, whatever follows it.
  lemma QuotedItem(text: string, q: char, rest: string, delimiter: char)
    requires IsQuote(q) && (text != "" ==> text[|text| - 1] != '\\')
    ensures Item([q] + Escaped(text, q) + [q] + rest, delimiter) == (text, if rest == "" then "" else rest[1..])
  {
    hide Escaped, Replaced, Item, ClosingQuote, Find;
    var e := Escaped(text, q);
    EscapedQuotes(text, q);
    EscapedReplaced(text, q);
    QuotedText(e, q, rest);
    ItemInQuotes([q] + e + [q] + rest, delimiter);
  }

  lemma ItemInQuotes(s: string, delimiter: char)
    requires s != "" && IsQuote(s[0])
    ensures var end := ClosingQuote(s, s[0], 1);
      Item(s, delimiter) == (if end == Find(s, s[0], 1) then s[1..end] else Replaced(s[1..end], ['\\', s[0]], [s[0]]),
                             if end + 2 < |s| then s[end + 2..] else "")
  {
  }

  lemma QuotedText(e: string, q: char, rest: string)
    requires QuotesEscaped(e, q)
    requires q != '\\' && (e != "" ==> e[|e| - 1] != '\\')
    ensures var s := [q] + e + [q] + rest; var end := |e| + 1;
      && s[0] == q && s[1..end] == e && ClosingQuote(s, q, 1) == end && (Find(s, q, 1) == end <==> q !in e)
      && (if end + 2 < |s| then s[end + 2..] else "") == (if rest == "" then "" else rest[1..])
  {
    hide ClosingQuote, Find;
    var s, end := [q] + e + [q] + rest, |e| + 1;
    QuotedParts(e, q, rest);
    assert forall k :: 1 <= k < end && s[k] == q ==> s[k - 1] == '\\';
    var found := Find(s, q, 1);
    assert found < end ==> e[found - 1] == q;
    assert q in e ==> exists k :: 0 <= k < |e| && e[k] == q && s[k + 1] == q;
  }

  lemma QuotedParts(e: string, q: char, rest: string)
    ensures var s := [q] + e + [q] + rest; var end := |e| + 1;
      && s[0] == q && s[1..end] == e && s[end] == q && s[end + 1..] == rest
      && (forall k :: 1 <= k < end ==> s[k] == e[k - 1])
  {
    var s := [q] + e + [q] + rest;
    assert s == ([q] + e + [q]) + rest && |[q] + e + [q]| == |e| + 2;
  }

  lemma FormItem(form: string, text: string, rest: string, delimiter: char)
    requires Puts(form, text) && (delimiter == ',' || delimiter == '\0') && (rest != "" ==> IsDelimiter(delimiter, rest[0]))
    ensures Item(form + rest, delimiter) == (text, if rest == "" then "" else rest[1..])
  {
    hide Item, Escaped, IsWord;
    if form == text && IsWord(text) {
      WordItem(form, rest, delimiter);
    } else {
      QuotedItem(text, form[0], rest, delimiter);
    }
  }

  lemma {:induction false} ListedItems(forms: seq<string>, texts: seq<string>, separator: string, gaps: seq<string>, delimiter: char)
    requires |forms| == |gaps| + 1 && AllPut(forms, texts) && AllGaps(gaps)
    requires if delimiter == ',' then separator == ","
             else delimiter == '\0' && separator == "" && forall i :: 0 <= i < |gaps| ==> gaps[i] != ""
    ensures Items(Listed(forms, separator, gaps), delimiter) == texts
  {
    hide Item, Items, Trim, Puts, IsGap, AllPut, AllGaps, Listed;
    SameLength(forms, texts);
    FirstPut(forms, texts);
    if gaps == [] {
      LastForm(forms[0], texts[0], delimiter);
      ListedOne(forms, separator);
      assert texts == [texts[0]];
    } else {
      FirstGap(gaps);
      ListedItems(forms[1..], texts[1..], separator, gaps[1..], delimiter);
      var tail := Listed(forms[1..], separator, gaps[1..]);
      TrimmedGap(gaps[0], forms[1..], texts[1..], separator, gaps[1..]);
      if separator == "" {
        GapStart(gaps[0]);
        TrimmedGap(gaps[0][1..], forms[1..], texts[1..], separator, gaps[1..]);
        assert separator + gaps[0] == gaps[0];
      } else {
        assert (separator + gaps[0])[1..] == gaps[0] && (separator + gaps[0])[0] == ',';
      }
      NextForm(forms[0], texts[0], separator + gaps[0], tail, delimiter);
      ListedMore(forms, separator, gaps);
      assert texts == [texts[0]] + texts[1..];
    }
  }

  lemma SameLength(forms: seq<string>, texts: seq<string>)
    requires AllPut(forms, texts)
    ensures |forms| == |texts|
  {
  }

  lemma ListedOne(items: seq<string>, separator: string)
    requires |items| == 1
    ensures Listed(items, separator, []) == items[0]
  {
  }

  lemma ListedMore(items: seq<string>, separator: string, gaps: seq<string>)
    requires |items| == |gaps| + 1 > 1
    ensures Listed(items, separator, gaps) == items[0] + ((separator + gaps[0]) + Listed(items[1..], separator, gaps[1..]))
  {
  }

  lemma LastForm(form: string, text: string, delimiter: char)
    requires Puts(form, text) && (delimiter == ',' || delimiter == '\0')
    ensures Items(form, delimiter) == [text]
  {
    hide Item, Trim;
    assert form + "" == form;
    FormItem(form, text, "", delimiter);
    ItemsStep(form, delimiter);
    TrimNothing();
    NoItems(delimiter);
  }

  // The item before a separator, and what is left of the text.
  lemma NextForm(form: string, text: string, between: string, tail: string, delimiter: char)
    requires Puts(form, text)
    requires between != "" && (delimiter == ',' || delimiter == '\0') && IsDelimiter(delimiter, between[0])
    requires Trim(between[1..] + tail) == tail
    ensures Items(form + (between + tail), delimiter) == [text] + Items(tail, delimiter)
  {
    hide Item, Items, Trim, Puts;
    assert (between + tail)[0] == between[0] && (between + tail)[1..] == between[1..] + tail;
    FormItem(form, text, between + tail, delimiter);
    ItemsStep(form + (between + tail), delimiter);
  }

  lemma TrimNothing()
    ensures Trim("") == ""
  {
  }

  lemma GapStart(gap: string)
    requires IsGap(gap) && gap != ""
    ensures IsSpace(gap[0]) && IsGap(gap[1..])
  {
  }

  // ----- Values of one line ---------------------------------------------------

  lemma {:induction false} TextsStay(texts: seq<string>)
    requires NoneQuoted(texts)
    ensures RemoveAllQuotes(texts) == texts
  {
    if texts != [] {
      TextsStay(texts[1..]);
      assert texts == [texts[0]] + texts[1..];
    }
  }

  lemma CommaValue(value: string, more: seq<string>)
    requires '#' !in value && ',' in value && value[0] != '[' && Trim(value) == value
    ensures ItemsRead(value, more) == RemoveAllQuotes(Items(value, ','))
  {
    hide Items, Trim, RemoveAllQuotes, Continued;
  }

  lemma SpaceValue(value: string, more: seq<string>)
    requires '#' !in value && ',' !in value && ' ' in value && value[0] != '[' && Trim(value) == value
    ensures ItemsRead(value, more) == RemoveAllQuotes(Items(value, '\0'))
  {
    hide Items, Trim, RemoveAllQuotes, Continued;
  }

  // Words and quoted texts with commas between them, and as much white space
  // after each comma as you like.
  lemma CommasSeparate(forms: seq<string>, texts: seq<string>, gaps: seq<string>, more: seq<string>)
    requires |forms| == |gaps| + 1 && AllPut(forms, texts) && AllGaps(gaps) && NoneQuoted(texts)
    requires '#' !in Listed(forms, ",", gaps) && (|forms| > 1 || ',' in forms[0])
    requires forms[0] != "" && forms[0][0] != '['
    ensures ItemsRead(Listed(forms, ",", gaps), more) == texts
  {
    hide Items, Trim, Puts, AllPut, IsGap, AllGaps, ItemsRead, Listed, RemoveAllQuotes, NoneQuoted;
    ListedEnds(forms, texts, ",", gaps);
    if gaps == [] {
      ListedOne(forms, ",");
    } else {
      ListedMore(forms, ",", gaps);
      CommaStands(forms[0], gaps[0], Listed(forms[1..], ",", gaps[1..]));
    }
    CommaValue(Listed(forms, ",", gaps), more);
    ListedItems(forms, texts, ",", gaps, ',');
    TextsStay(texts);
  }

  lemma CommaStands(a: string, b: string, c: string)
    ensures ',' in a + (("," + b) + c)
  {
    assert (a + (("," + b) + c))[|a|] == ',';
  }

  // They may as well be separated by white space, if there are no commas and at
  // least one space.
  lemma SpacesSeparate(forms: seq<string>, texts: seq<string>, gaps: seq<string>, more: seq<string>)
    requires |forms| == |gaps| + 1 && AllPut(forms, texts) && AllGaps(gaps) && NoneQuoted(texts)
    requires forall i :: 0 <= i < |gaps| ==> gaps[i] != ""
    requires var value := Listed(forms, "", gaps); '#' !in value && ',' !in value && ' ' in value
    requires forms[0] != "" && forms[0][0] != '['
    ensures ItemsRead(Listed(forms, "", gaps), more) == texts
  {
    hide Items, Trim, Puts, AllPut, IsGap, AllGaps, ItemsRead, Listed, RemoveAllQuotes, NoneQuoted;
    ListedEnds(forms, texts, "", gaps);
    SpaceValue(Listed(forms, "", gaps), more);
    ListedItems(forms, texts, "", gaps, '\0');
    TextsStay(texts);
  }

  // A value without commas, spaces and comments that does not begin a list is
  // one item.
  lemma SingleValue(value: string, more: seq<string>)
    requires ',' !in value && ' ' !in value && '#' !in value && (|value| > 1 ==> value[0] != '[')
    ensures ItemsRead(value, more) == [RemoveQuotes(value)]
  {
    assert [RemoveQuotes(value)] + RemoveAllQuotes([]) == [RemoveQuotes(value)];
    assert [value][1..] == [];
  }

  lemma QuotesTakenOff(text: string, q: char)
    requires q == '"' || q == '\''
    ensures RemoveQuotes([q] + text + [q]) == text
  {
    assert ([q] + text + [q])[1..|text| + 1] == text;
  }

  // A comment and the white space before it do not count.
  lemma CommentIsCut(value: string, comment: string, more: seq<string>)
    requires '#' !in value && Trim(value) == value
    ensures ItemsRead(value + "#" + comment, more) == ItemsRead(value, more)
    ensures ItemsRead(value + " #" + comment, more) == ItemsRead(value, more)
  {
    hide ItemsRead, Trim;
    CutAt(value, comment);
    CutAt(value + " ", comment);
    assert value + " " + "#" + comment == value + " #" + comment;
    TrimSpace(value);
    SameCut(value + "#" + comment, value, more);
    SameCut(value + " #" + comment, value, more);
  }

  lemma CutAt(value: string, comment: string)
    requires '#' !in value
    ensures CutComment(value + "#" + comment) == Trim(value)
  {
    var t := value + "#" + comment;
    assert t[|value|] == '#' && forall k :: 0 <= k < |value| ==> t[k] == value[k];
    assert Find(t, '#', 0) == |value| && t[..|value|] == value;
  }

  lemma TrimSpace(value: string)
    requires Trim(value) == value
    ensures Trim(value + " ") == value
  {
    assert (value + " ")[..|value|] == value;
    assert TrimRight(value + " ") == TrimRight(value);
  }

  lemma SameCut(value: string, cut: string, more: seq<string>)
    requires CutComment(value) == cut && '#' !in cut
    ensures ItemsRead(value, more) == ItemsRead(cut, more)
  {
    assert CutComment(cut) == cut;
    assert ValueItems(value, more) == ValueItems(cut, more) by { SameItems(value, cut, more); }
  }

  lemma SameItems(value: string, value': string, more: seq<string>)
    requires CutComment(value) == CutComment(value')
    ensures ValueItems(value, more) == ValueItems(value', more)
  {
    hide Items, Trim, CutComment, Continued;
  }

  // ----- Values of several lines ----------------------------------------------

  function Lines(value: string, lines: seq<string>): (r: string)
    ensures |r| >= |value|
    decreases |lines|
  {
    if lines == [] then value else Lines(value + Trim(lines[0]), lines[1..])
  }

  // A list in brackets, which may be broken over several lines. None of them but
  // the last ends in the bracket; only in the first does a comment end the line.
  lemma BracketsAreTakenOff(value: string, lines: seq<string>, forms: seq<string>, texts: seq<string>, gaps: seq<string>,
                            more: seq<string>)
    requires |forms| == |gaps| + 1 && AllPut(forms, texts) && AllGaps(gaps) && NoneQuoted(texts)
    requires |value| > 1 && '#' !in value && Lines(value, lines) == "[" + Listed(forms, ",", gaps) + "]"
    requires forall k :: 0 <= k < |lines| ==> Lines(value, lines[..k])[|Lines(value, lines[..k])| - 1] != ']'
    ensures ItemsRead(value, lines + more) == texts
  {
    hide Items, Trim, Puts, AllPut, IsGap, AllGaps, Listed, RemoveAllQuotes, NoneQuoted, ValueItems, Lines;
    var t := Listed(forms, ",", gaps);
    var list := "[" + t + "]";
    assert list[|list| - 1] == ']' && list[1..|list| - 1] == t;
    LinesBegin(value, lines);
    assert value[0] == list[0];
    LinesContinue(value, lines, more);
    BracketValue(value, lines + more);
    ListedEnds(forms, texts, ",", gaps);
    ListedItems(forms, texts, ",", gaps, ',');
    TextsStay(texts);
  }

  // Whatever is in a list, breaking it over several lines makes no difference.
  lemma BrokenListIsJoined(value: string, lines: seq<string>, more: seq<string>, more': seq<string>)
    requires |value| > 1 && value[0] == '[' && '#' !in Lines(value, lines)
    requires Lines(value, lines)[|Lines(value, lines)| - 1] == ']'
    requires forall k :: 0 <= k < |lines| ==> Lines(value, lines[..k])[|Lines(value, lines[..k])| - 1] != ']'
    ensures ItemsRead(value, lines + more) == ItemsRead(Lines(value, lines), more')
  {
    hide Items, Trim, RemoveAllQuotes, ValueItems, Lines;
    LinesBegin(value, lines);
    LinesContinue(value, lines, more);
    var list := Lines(value, lines);
    assert value[0] == list[0] && forall k :: 0 <= k < |value| ==> value[k] == list[k];
    BracketValue(value, lines + more);
    BracketValue(list, more');
  }

  // Where the file ends within a list, the last character is taken for the bracket.
  lemma OpenListLosesLast(value: string, c: char, more: seq<string>)
    requires |value| > 0 && value[0] == '[' && '#' !in value && c != '#' && c != ']'
    ensures ItemsRead(value + [c], []) == ItemsRead(value + "]", more)
  {
    hide Items, Trim, RemoveAllQuotes, ValueItems;
    var open, closed := value + [c], value + "]";
    assert open[..|value|] == value == closed[..|value|];
    assert open[1..|open| - 1] == value[1..] == closed[1..|closed| - 1];
    BracketValue(open, []);
    BracketValue(closed, more);
  }

  lemma BracketValue(value: string, more: seq<string>)
    requires |value| > 1 && value[0] == '[' && '#' !in value
    ensures var list := Continued(value, more); ValueItems(value, more) == Items(Trim(list[1..|list| - 1]), ',')
  {
    hide Items, Trim, Continued;
  }

  lemma {:induction false} LinesBegin(value: string, lines: seq<string>)
    ensures value == Lines(value, lines)[..|value|]
    decreases |lines|
  {
    hide Trim;
    if lines != [] {
      LinesBegin(value + Trim(lines[0]), lines[1..]);
      assert value == (value + Trim(lines[0]))[..|value|];
    }
  }

  lemma {:induction false} LinesContinue(value: string, lines: seq<string>, more: seq<string>)
    requires value != "" && Lines(value, lines)[|Lines(value, lines)| - 1] == ']'
    requires forall k :: 0 <= k < |lines| ==> Lines(value, lines[..k])[|Lines(value, lines[..k])| - 1] != ']'
    ensures Continued(value, lines + more) == Lines(value, lines)
    decreases |lines|
  {
    hide Trim;
    if lines != [] {
      assert lines[..0] == [];
      assert (lines + more)[0] == lines[0] && (lines + more)[1..] == lines[1..] + more;
      forall k | 0 <= k < |lines| - 1
        ensures Lines(value + Trim(lines[0]), lines[1..][..k]) == Lines(value, lines[..k + 1])
      {
        assert lines[..k + 1][1..] == lines[1..][..k] && lines[..k + 1][0] == lines[0];
      }
      LinesContinue(value + Trim(lines[0]), lines[1..], more);
    }
  }

  // ----- What is written ------------------------------------------------------

  predicate IsHexDigit(c: char)
  {
    '0' <= c <= '9' || 'A' <= c <= 'F' || 'a' <= c <= 'f'
  }

  // Numbers, the special words, and literals with a base are written as they
  // are; a single character is put in single quotes, the empty text in double
  // ones, and so is every other text, or in single ones if it holds a double one.
  lemma WrittenAs(arg: string, isNumber: string -> bool)
    ensures arg in {"true", "false", "nan", "inf"} ==> ConvertArg(arg, isNumber) == arg
    ensures arg != "" && isNumber(arg) && !("0x" <= arg) && !("0X" <= arg) ==> ConvertArg(arg, isNumber) == arg
    ensures "0x" <= arg && (forall k :: 2 <= k < |arg| ==> IsHexDigit(arg[k])) ==> ConvertArg(arg, isNumber) == arg
    ensures "0o" <= arg && (forall k :: 2 <= k < |arg| ==> '0' <= arg[k] <= '7') ==> ConvertArg(arg, isNumber) == arg
    ensures "0b" <= arg && (forall k :: 2 <= k < |arg| ==> '0' <= arg[k] <= '1') ==> ConvertArg(arg, isNumber) == arg
    ensures arg == "" ==> ConvertArg(arg, isNumber) == "\"\""
    ensures |arg| == 1 && !isNumber(arg) ==> ConvertArg(arg, isNumber) == "'" + arg + "'"
    ensures |arg| > 1 && !isNumber(arg) && arg[0] != '0' && arg !in {"true", "false", "nan", "inf"} ==>
      ConvertArg(arg, isNumber) == if '"' in arg then "'" + arg + "'" else "\"" + arg + "\""
  {
    if |arg| >= 2 {
      var digits := arg[2..];
      assert forall k :: 0 <= k < |digits| ==> digits[k] == arg[k + 2];
      assert "0x" <= arg ==> arg[0] == '0' && arg[1] == 'x';
      assert "0o" <= arg ==> arg[0] == '0' && arg[1] == 'o';
      assert "0b" <= arg ==> arg[0] == '0' && arg[1] == 'b';
    }
  }

  // The parts of a list are written one after the other, with a comma and a
  // space between them.
  lemma {:induction false} JoinedParts(a: seq<string>, b: seq<string>, isNumber: string -> bool)
    requires a != [] && b != []
    ensures Joined(a + b, isNumber) == Joined(a, isNumber) + ", " + Joined(b, isNumber)
    ensures |a| == 1 ==> Joined(a, isNumber) == ConvertArg(a[0], isNumber)
  {
    hide ConvertArg, Rest, Joined;
    assert (a + b)[0] == a[0] && (a + b)[1..] == a[1..] + b;
    JoinedFirst(a + b, isNumber);
    JoinedFirst(a, isNumber);
    if |a| > 1 {
      JoinedParts(a[1..], b, isNumber);
      MoveComma(ConvertArg(a[0], isNumber), Joined(a[1..], isNumber), Joined(b, isNumber));
    } else {
      assert a[1..] + b == b;
    }
  }

  lemma JoinedFirst(args: seq<string>, isNumber: string -> bool)
    requires args != []
    ensures Joined(args, isNumber)
      == if |args| == 1 then ConvertArg(args[0], isNumber) else ConvertArg(args[0], isNumber) + ", " + Joined(args[1..], isNumber)
  {
    hide ConvertArg;
    RestIsJoined(args[1..], isNumber);
    if |args| > 1 { SplitComma(ConvertArg(args[0], isNumber), Joined(args[1..], isNumber)); }
  }

  lemma SplitComma(a: string, b: string)
    ensures a + ("," + (" " + b)) == a + ", " + b
  {
  }

  lemma MoveComma(a: string, b: string, c: string)
    ensures a + ", " + (b + ", " + c) == a + ", " + b + ", " + c
  {
  }
}
