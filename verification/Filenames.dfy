/** The comma-separated filename parser of common.c, and a printer it inverts. */
module Filenames {
  /** White space in the C locale. */
  predicate IsSpace(c: char) {
    c == ' ' || '\t' <= c <= '\r'
  }

  predicate IsQuote(c: char) {
    c == '"' || c == '\''
  }

  function SkipSpace(s: string): (r: string)
    ensures |r| <= |s| && (r == [] || !IsSpace(r[0]))
  {
    if s != [] && IsSpace(s[0]) then SkipSpace(s[1..]) else s
  }

  function TrimEnd(s: string): (r: string)
    ensures |r| <= |s| && (r == [] || !IsSpace(r[|r| - 1]))
  {
    if s != [] && IsSpace(s[|s| - 1]) then TrimEnd(s[..|s| - 1]) else s
  }

  datatype Scan = Scan(name: string, rest: string)

  /** Everything up to the stop character; a backslash takes the character after it as it is. */
  function Body(s: string, stop: char): (r: Scan)
    ensures |r.name| + |r.rest| <= |s|
    ensures r.rest == [] || r.rest[0] == stop
  {
    if s == [] || s[0] == stop then Scan([], s)
    else
      var taken := if s[0] == '\\' && |s| > 1 then 1 else 0;
      var more := Body(s[taken + 1..], stop);
      Scan([s[taken]] + more.name, more.rest)
  }

  function Name(s: string): (r: Scan)
    requires s != []
    ensures |r.rest| <= |s| && (|r.rest| == |s| ==> s[0] == ',' && r.rest == s)
  {
    if IsQuote(s[0]) then
      var body := Body(s[1..], s[0]);
      Scan(body.name, if body.rest != [] then body.rest[1..] else [])
    else
      var body := Body(s, ',');
      Scan(TrimEnd(body.name), body.rest)
  }

  function Separator(s: string): (r: string)
    ensures |r| <= |s| && (s != [] && s[0] == ',' ==> |r| < |s|)
  {
    var t := SkipSpace(s);
    if t != [] && t[0] == ',' then SkipSpace(t[1..]) else t
  }

  function Parse(s: string): seq<string>
    decreases |s|
  {
    var t := SkipSpace(s);
    if t == [] then []
    else
      var name := Name(t);
      [name.name] + Parse(Separator(name.rest))
  }

  // ----- the printer -----

  /** The six characters that the C locale calls white space. */
  predicate White(c: char) {
    c in {' ', '\t', '\n', '\U{0B}', '\U{0C}', '\r'}
  }

  ghost predicate Spaces(s: string) {
    forall k :: 0 <= k < |s| ==> White(s[k])
  }

  lemma WhiteIsSpace(c: char)
    ensures IsSpace(c) <==> White(c)
  {
  }

  /** A name with white space around it: in quotes of either kind, or without quotes. */
  datatype Item =
    | Quoted(name: string, quote: char, before: string, after: string)
    | Plain(name: string, before: string, after: string)

  predicate Special(c: char) {
    IsQuote(c) || c == '\\'
  }

  function EscapeChar(c: char): string {
    if Special(c) then ['\\', c] else [c]
  }

  function Escape(name: string): string {
    if name == [] then []
    else EscapeChar(name[0]) + Escape(name[1..])
  }

  /** Outside quotes only commas and backslashes need a backslash in front. */
  function EscapePlainChar(c: char): string {
    if c == ',' || c == '\\' then ['\\', c] else [c]
  }

  function EscapePlainRest(name: string): string {
    if name == [] then []
    else EscapePlainChar(name[0]) + EscapePlainRest(name[1..])
  }

  /** At the start so do quotes and white space. */
  function EscapePlainFirst(c: char): string {
    if IsQuote(c) || White(c) then ['\\', c] else EscapePlainChar(c)
  }

  function EscapePlain(name: string): string
    requires name != []
  {
    EscapePlainFirst(name[0]) + EscapePlainRest(name[1..])
  }

  /** A name in quotes may be any string; without quotes it must not be empty or end in white space. */
  ghost predicate Printable(item: Item) {
    && Spaces(item.before) && Spaces(item.after)
    && match item
       case Quoted(name, quote, before, after) => quote == '"' || quote == '\''
       case Plain(name, before, after) => name != [] && !White(name[|name| - 1])
  }

  function PrintItem(item: Item): string
    requires item.Plain? ==> item.name != []
  {
    match item
    case Quoted(name, quote, before, after) => before + [quote] + Escape(name) + [quote] + after
    case Plain(name, before, after) => before + EscapePlain(name) + after
  }

  ghost function Print(items: seq<Item>): string
    requires forall k :: 0 <= k < |items| ==> Printable(items[k])
  {
    if items == [] then []
    else
      assert Printable(items[0]);
      if |items| == 1 then PrintItem(items[0])
      else PrintItem(items[0]) + [','] + Print(items[1..])
  }

  function Names(items: seq<Item>): (r: seq<string>)
    ensures |r| == |items| && forall k :: 0 <= k < |r| ==> r[k] == items[k].name
  {
    seq(|items|, k requires 0 <= k < |items| => items[k].name)
  }

  // ----- parsing undoes printing -----

  lemma BodyStep(s: string, stop: char)
    requires s != [] && s[0] != stop
    ensures
      var taken := if s[0] == '\\' && |s| > 1 then 1 else 0;
      Body(s, stop) == Scan([s[taken]] + Body(s[taken + 1..], stop).name, Body(s[taken + 1..], stop).rest)
  {
  }

  lemma BodyStops(s: string, stop: char)
    requires s == [] || s[0] == stop
    ensures Body(s, stop) == Scan([], s)
  {
  }

  lemma EscapedChar(c: char, quote: char, tail: string)
    requires IsQuote(quote)
    ensures
      var more := Body(tail, quote);
      Body(EscapeChar(c) + tail, quote) == Scan([c] + more.name, more.rest)
  {
    var s := EscapeChar(c) + tail;
    BodyStep(s, quote);
    hide Body;
    assert s[|EscapeChar(c)|..] == tail;
  }

  lemma EscapeSplit(name: string, tail: string)
    requires name != []
    ensures Escape(name) + tail == EscapeChar(name[0]) + (Escape(name[1..]) + tail)
  {
    hide EscapeChar;
  }

  lemma {:induction false} EscapeRead(name: string, quote: char, tail: string)
    requires IsQuote(quote) && (tail == [] || tail[0] == quote)
    ensures Body(Escape(name) + tail, quote) == Scan(name, tail)
  {
    if name == [] {
      BodyStops(tail, quote);
      assert Escape(name) + tail == tail;
    } else {
      hide Body, Escape, EscapeChar;
      EscapeRead(name[1..], quote, tail);
      EscapedChar(name[0], quote, Escape(name[1..]) + tail);
      EscapeSplit(name, tail);
      assert [name[0]] + name[1..] == name;
    }
  }

  lemma {:induction false} SpacesSkipped(spaces: string, rest: string)
    requires Spaces(spaces)
    ensures SkipSpace(spaces + rest) == SkipSpace(rest)
  {
    if spaces == [] {
      assert spaces + rest == rest;
    } else {
      WhiteIsSpace(spaces[0]);
      assert (spaces + rest)[1..] == spaces[1..] + rest;
      SpacesSkipped(spaces[1..], rest);
    }
  }

  lemma QuotedRead(name: string, quote: char, rest: string)
    requires IsQuote(quote)
    ensures Name([quote] + (Escape(name) + ([quote] + rest))) == Scan(name, rest)
  {
    hide Escape, Body;
    var tail := [quote] + rest;
    EscapeRead(name, quote, tail);
    assert ([quote] + (Escape(name) + tail))[1..] == Escape(name) + tail;
    assert tail[1..] == rest;
  }

  lemma PlainChar(c: char, text: string, tail: string)
    requires text == ['\\', c] || (text == [c] && c != ',' && c != '\\')
    ensures
      var more := Body(tail, ',');
      Body(text + tail, ',') == Scan([c] + more.name, more.rest)
  {
    BodyStep(text + tail, ',');
    hide Body;
    assert (text + tail)[|text|..] == tail;
  }

  lemma {:induction false} PlainRest(name: string, tail: string)
    ensures
      var more := Body(tail, ',');
      Body(EscapePlainRest(name) + tail, ',') == Scan(name + more.name, more.rest)
  {
    hide Body, EscapePlainChar;
    if name == [] {
      assert EscapePlainRest(name) + tail == tail;
    } else {
      PlainRest(name[1..], tail);
      PlainCharText(name[0]);
      PlainChar(name[0], EscapePlainChar(name[0]), EscapePlainRest(name[1..]) + tail);
      assert EscapePlainRest(name) + tail == EscapePlainChar(name[0]) + (EscapePlainRest(name[1..]) + tail);
      assert [name[0]] + name[1..] == name;
    }
  }

  lemma PlainCharText(c: char)
    ensures EscapePlainChar(c) == ['\\', c] || (EscapePlainChar(c) == [c] && c != ',' && c != '\\')
  {
  }

  /** The first character keeps the name from being taken for white space or a quoted name. */
  lemma PlainStarts(name: string, tail: string)
    requires name != []
    ensures EscapePlain(name) != [] && !IsQuote(EscapePlain(name)[0])
    ensures SkipSpace(EscapePlain(name) + tail) == EscapePlain(name) + tail
  {
    WhiteIsSpace(name[0]);
  }

  lemma PlainBody(name: string, tail: string)
    requires name != []
    ensures
      var more := Body(tail, ',');
      Body(EscapePlain(name) + tail, ',') == Scan(name + more.name, more.rest)
  {
    hide Body, EscapePlainRest, EscapePlainFirst;
    PlainRest(name[1..], tail);
    PlainFirstText(name[0]);
    PlainChar(name[0], EscapePlainFirst(name[0]), EscapePlainRest(name[1..]) + tail);
    assert EscapePlain(name) + tail == EscapePlainFirst(name[0]) + (EscapePlainRest(name[1..]) + tail);
    assert [name[0]] + name[1..] == name;
  }

  lemma PlainFirstText(c: char)
    ensures EscapePlainFirst(c) == ['\\', c] || (EscapePlainFirst(c) == [c] && c != ',' && c != '\\')
  {
  }

  lemma {:induction false} SpacesRead(spaces: string, rest: string)
    requires Spaces(spaces) && (rest == [] || rest[0] == ',')
    ensures Body(spaces + rest, ',') == Scan(spaces, rest)
  {
    if spaces == [] {
      BodyStops(rest, ',');
      assert spaces + rest == rest;
    } else {
      hide Body;
      SpacesRead(spaces[1..], rest);
      PlainChar(spaces[0], [spaces[0]], spaces[1..] + rest);
      HeadApart(spaces, rest);
    }
  }

  lemma HeadApart(s: string, rest: string)
    requires s != []
    ensures s + rest == [s[0]] + (s[1..] + rest) && [s[0]] + s[1..] == s
  {
  }

  lemma {:induction false} TrimSpaces(name: string, spaces: string)
    requires Spaces(spaces)
    ensures TrimEnd(name + spaces) == TrimEnd(name)
  {
    if spaces == [] {
      assert name + spaces == name;
    } else {
      var n := |spaces| - 1;
      WhiteIsSpace(spaces[n]);
      assert (name + spaces)[..|name| + n] == name + spaces[..n];
      TrimSpaces(name, spaces[..n]);
    }
  }

  lemma TrimEndFixed(name: string)
    requires name != []
    ensures TrimEnd(name) == name <==> !IsSpace(name[|name| - 1])
  {
  }

  lemma PlainRead(name: string, after: string, rest: string)
    requires name != [] && !White(name[|name| - 1]) && Spaces(after) && (rest == [] || rest[0] == ',')
    ensures Name(EscapePlain(name) + (after + rest)) == Scan(name, rest)
  {
    hide Body, EscapePlain, TrimEnd;
    PlainStarts(name, after + rest);
    PlainBody(name, after + rest);
    SpacesRead(after, rest);
    TrimSpaces(name, after);
    WhiteIsSpace(name[|name| - 1]);
    TrimEndFixed(name);
  }

  lemma NameRead(before: string, text: string, name: string, tail: string)
    requires Spaces(before) && text != [] && SkipSpace(text) == text && Name(text) == Scan(name, tail)
    ensures Parse(before + text) == [name] + Parse(Separator(tail))
  {
    hide Name, Separator, SkipSpace;
    SpacesSkipped(before, text);
  }

  lemma QuotedItem(name: string, quote: char, before: string, after: string, rest: string)
    requires Spaces(before) && (quote == '"' || quote == '\'')
    ensures Parse(PrintItem(Quoted(name, quote, before, after)) + rest) == [name] + Parse(Separator(after + rest))
  {
    hide Escape, Body, Name, Parse, Separator;
    var text := [quote] + (Escape(name) + ([quote] + (after + rest)));
    assert PrintItem(Quoted(name, quote, before, after)) + rest == before + text;
    QuotedRead(name, quote, after + rest);
    NameRead(before, text, name, after + rest);
  }

  lemma PlainItem(name: string, before: string, after: string, rest: string)
    requires Printable(Plain(name, before, after)) && (rest == [] || rest[0] == ',')
    ensures Parse(PrintItem(Plain(name, before, after)) + rest) == [name] + Parse(Separator(after + rest))
  {
    hide EscapePlain, Body, Name, Parse, Separator, SkipSpace;
    var text := EscapePlain(name) + (after + rest);
    assert PrintItem(Plain(name, before, after)) + rest == before + text;
    PlainStarts(name, after + rest);
    PlainRead(name, after, rest);
    NameRead(before, text, name, rest);
    SeparatorSkips(after, rest);
  }

  /** An item is read, and what lies between it and the next one. */
  lemma ItemRead(item: Item, rest: string)
    requires Printable(item) && (item.Plain? ==> rest == [] || rest[0] == ',')
    ensures Parse(PrintItem(item) + rest) == [item.name] + Parse(Separator(item.after + rest))
  {
    hide PrintItem, Parse, Separator;
    match item
    case Quoted(name, quote, before, after) => QuotedItem(name, quote, before, after, rest);
    case Plain(name, before, after) => PlainItem(name, before, after, rest);
  }

  lemma SeparatorSkips(spaces: string, rest: string)
    requires Spaces(spaces)
    ensures Separator(spaces + rest) == Separator(rest)
  {
    hide SkipSpace;
    SpacesSkipped(spaces, rest);
  }

  lemma CommaStays(rest: string)
    ensures SkipSpace([','] + rest) == [','] + rest
  {
  }

  lemma SeparatorRead(after: string, rest: string)
    requires Spaces(after)
    ensures Separator(after + [','] + rest) == SkipSpace(rest)
    ensures Separator(after) == []
  {
    CommaStays(rest);
    hide SkipSpace;
    SpacesSkipped(after, [','] + rest);
    assert after + [','] + rest == after + ([','] + rest);
    assert ([','] + rest)[1..] == rest;
    SpacesSkipped(after, []);
    assert after + [] == after && SkipSpace([]) == [];
  }

  lemma ParseSkips(s: string)
    ensures Parse(SkipSpace(s)) == Parse(s)
  {
    assert SkipSpace(SkipSpace(s)) == SkipSpace(s);
  }

  lemma ParseEmpty()
    ensures Parse([]) == []
  {
  }

  lemma PrintLast(item: Item)
    requires Printable(item)
    ensures Parse(PrintItem(item)) == [item.name]
  {
    hide Parse, PrintItem, Separator;
    ItemRead(item, []);
    assert PrintItem(item) + [] == PrintItem(item) && item.after + [] == item.after;
    SeparatorRead(item.after, []);
    ParseEmpty();
  }

  lemma PrintMore(item: Item, rest: string)
    requires Printable(item)
    ensures Parse(PrintItem(item) + [','] + rest) == [item.name] + Parse(rest)
  {
    hide Parse, PrintItem, Separator, SkipSpace;
    ItemRead(item, [','] + rest);
    assert PrintItem(item) + ([','] + rest) == PrintItem(item) + [','] + rest;
    assert item.after + ([','] + rest) == item.after + [','] + rest;
    SeparatorRead(item.after, rest);
    ParseSkips(rest);
  }

  /** Every list of names, each in quotes of either kind or without quotes, with white space around them and commas in
      between, parses back to the names. */
  lemma {:induction false} RoundTrip(items: seq<Item>)
    requires forall k :: 0 <= k < |items| ==> Printable(items[k])
    ensures Parse(Print(items)) == Names(items)
  {
    hide Parse, PrintItem, Separator, SkipSpace;
    if items == [] {
      ParseEmpty();
    } else if |items| == 1 {
      PrintLast(items[0]);
    } else {
      PrintMore(items[0], Print(items[1..]));
      RoundTrip(items[1..]);
      assert Names(items) == [items[0].name] + Names(items[1..]);
    }
  }

  /** Where nothing needs a backslash, the name alone is what is printed. */
  lemma {:induction false} NothingEscaped(name: string)
    requires ',' !in name && '\\' !in name
    ensures EscapePlainRest(name) == name
    ensures name != [] && !IsQuote(name[0]) && !White(name[0]) ==> EscapePlain(name) == name
  {
    if name != [] {
      NothingEscaped(name[1..]);
      assert [name[0]] + name[1..] == name;
    }
  }

  // ----- what else may be written -----

  /** Between two commas, or before the first, stands an empty name. */
  lemma EmptyName(rest: string)
    ensures Parse([','] + rest) == [""] + Parse(rest)
  {
    hide SkipSpace;
    CommaStays(rest);
    BodyStops([','] + rest, ',');
    assert Name([','] + rest) == Scan([], [','] + rest);
    assert ([','] + rest)[1..] == rest;
    ParseSkips(rest);
  }

  /** A quoted name needs no comma behind it. */
  lemma NoCommaNeeded(item: Item, rest: string)
    requires Printable(item) && item.Quoted? && (SkipSpace(rest) != [] ==> SkipSpace(rest)[0] != ',')
    ensures Parse(PrintItem(item) + rest) == [item.name] + Parse(rest)
  {
    hide PrintItem, SkipSpace, Parse;
    ItemRead(item, rest);
    SpacesSkipped(item.after, rest);
    ParseSkips(rest);
  }

  /** A quote that is never closed takes everything up to the end. */
  lemma UnclosedQuote(name: string, quote: char)
    requires quote == '"' || quote == '\''
    ensures Parse([quote] + Escape(name)) == [name]
  {
    hide Escape, Body, Parse;
    EscapeRead(name, quote, []);
    assert Escape(name) + [] == Escape(name);
    var text := [quote] + Escape(name);
    assert text[1..] == Escape(name);
    NameRead([], text, name, []);
    assert [] + text == text;
    ParseEmpty();
  }

  /** A backslash with nothing behind it stands for itself. */
  lemma TrailingBackslash(name: string)
    requires name != []
    ensures Parse(EscapePlain(name) + ['\\']) == [name + ['\\']]
  {
    hide EscapePlain, Parse, TrimEnd;
    var tail := ['\\'];
    LoneBackslash();
    PlainStarts(name, tail);
    PlainBody(name, tail);
    TrimEndFixed(name + tail);
    var text := EscapePlain(name) + tail;
    NameRead([], text, name + tail, []);
    assert [] + text == text;
    ParseEmpty();
  }

  lemma LoneBackslash()
    ensures Body(['\\'], ',') == Scan(['\\'], [])
  {
    BodyStep(['\\'], ',');
  }

  // ----- names without quotes -----

  function EscapeAll(name: string): string {
    if name == [] then [] else ['\\', name[0]] + EscapeAll(name[1..])
  }

  lemma {:induction false} EscapeAllRead(name: string)
    ensures Body(EscapeAll(name), ',') == Scan(name, [])
  {
    if name != [] {
      assert EscapeAll(name)[2..] == EscapeAll(name[1..]);
      EscapeAllRead(name[1..]);
      assert [name[0]] + name[1..] == name;
    }
  }

  lemma EscapeAllStarts(name: string)
    requires name != []
    ensures EscapeAll(name) != [] && EscapeAll(name)[0] == '\\' && SkipSpace(EscapeAll(name)) == EscapeAll(name)
  {
  }

  /** Outside quotes a backslash protects every character from its meaning except white space at the end: a name comes
      back exactly when it does not end in white space. */
  lemma EscapedName(name: string)
    requires name != []
    ensures Parse(EscapeAll(name)) == [TrimEnd(name)]
    ensures Parse(EscapeAll(name)) == [name] <==> !IsSpace(name[|name| - 1])
  {
    EscapeAllStarts(name);
    TrimEndFixed(name);
    hide Body, TrimEnd, Separator, EscapeAll, SkipSpace;
    EscapeAllRead(name);
    SeparatorRead([], []);
    assert Name(EscapeAll(name)) == Scan(TrimEnd(name), []);
    assert Parse(EscapeAll(name)) == [TrimEnd(name)] + Parse([]);
  }

  // ----- the loops over the buffers -----

  /** The buffer holds the name as a C string: its characters and then the terminator, within the buffer. */
  ghost predicate Holds(buffer: array<char>, name: string)
    reads buffer
  {
    |name| < buffer.Length && buffer[..|name|] == name && '\0' !in name && buffer[|name|] == '\0'
  }

  lemma {:induction false} BodyChars(s: string, stop: char, c: char)
    requires c !in s
    ensures c !in Body(s, stop).name && c !in Body(s, stop).rest
  {
    if s != [] && s[0] != stop {
      var taken := if s[0] == '\\' && |s| > 1 then 1 else 0;
      BodyChars(s[taken + 1..], stop, c);
    }
  }

  lemma {:induction false} TrimEndChars(s: string, c: char)
    requires c !in s
    ensures c !in TrimEnd(s)
  {
    if s != [] && IsSpace(s[|s| - 1]) {
      TrimEndChars(s[..|s| - 1], c);
    }
  }

  lemma BodyAdvance(input: string, p: nat, stop: char, done: string)
    requires p < |input| && input[p] != stop
    ensures
      var q := if input[p] == '\\' && p + 1 < |input| then p + 1 else p;
      && Body(input[p..], stop).rest == Body(input[q + 1..], stop).rest
      && done + Body(input[p..], stop).name == done + [input[q]] + Body(input[q + 1..], stop).name
  {
    var s, taken := input[p..], if input[p] == '\\' && p + 1 < |input| then 1 else 0;
    BodyStep(s, stop);
    hide Body;
    assert s[taken + 1..] == input[p + taken + 1..];
    var more := Body(input[p + taken + 1..], stop);
    assert Body(s, stop) == Scan([s[taken]] + more.name, more.rest);
    assert done + ([s[taken]] + more.name) == done + [s[taken]] + more.name;
  }

  lemma ParseStep(s: string)
    ensures
      var t := SkipSpace(s);
      Parse(s) == if t == [] then [] else [Name(t).name] + Parse(Separator(Name(t).rest))
  {
  }

  lemma TrimEndStep(s: string)
    ensures TrimEnd(s) == if s != [] && IsSpace(s[|s| - 1]) then TrimEnd(s[..|s| - 1]) else s
  {
  }

  /** Append one character, doubling the buffer when only the place of the terminator is left. */
  method Append(buffer: array<char>, length: nat, c: char) returns (grown: array<char>)
    requires length < buffer.Length && buffer.Length >= 2
    modifies buffer
    ensures grown == buffer || fresh(grown)
    ensures length + 1 < grown.Length && grown.Length >= 2
    ensures grown[..length + 1] == old(buffer[..length]) + [c]
  {
    grown := buffer;
    if length >= grown.Length - 1 {
      grown := new char[buffer.Length * 2];
      for i := 0 to length
        invariant grown[..i] == buffer[..i]
        modifies grown
      {
        grown[i] := buffer[i];
      }
    }
    assert grown[..length] == old(buffer[..length]);
    grown[length] := c;
    assert grown[..length + 1] == grown[..length] + [c];
  }

  method SkipWhite(input: string, start: nat) returns (p: nat)
    requires start <= |input|
    ensures start <= p <= |input| && input[p..] == SkipSpace(input[start..])
  {
    p := start;
    while p < |input| && IsSpace(input[p])
      invariant start <= p <= |input| && SkipSpace(input[p..]) == SkipSpace(input[start..])
    {
      assert input[p..][1..] == input[p + 1..];
      p := p + 1;
    }
  }

  /** The loop both kinds of name share. */
  method ReadBody(input: string, start: nat, stop: char) returns (buffer: array<char>, length: nat, p: nat)
    requires start <= |input|
    ensures fresh(buffer) && length < buffer.Length && buffer[..length] == Body(input[start..], stop).name
    ensures start <= p <= |input| && input[p..] == Body(input[start..], stop).rest
  {
    hide Body;
    ghost var all := Body(input[start..], stop);
    buffer, length, p := new char[64], 0, start;
    while p < |input| && input[p] != stop
      invariant fresh(buffer) && length < buffer.Length && buffer.Length >= 2
      invariant start <= p <= |input|
      invariant buffer[..length] + Body(input[p..], stop).name == all.name
      invariant Body(input[p..], stop).rest == all.rest
      decreases |input| - p
    {
      BodyAdvance(input, p, stop, buffer[..length]);
      if input[p] == '\\' && p + 1 < |input| {
        p := p + 1;
      }
      buffer := Append(buffer, length, input[p]);
      length := length + 1;
      p := p + 1;
    }
    BodyStops(input[p..], stop);
  }

  /** One file name, at a character that is not white space. */
  method ReadName(input: string, start: nat) returns (buffer: array<char>, p: nat)
    requires start < |input| && '\0' !in input
    ensures fresh(buffer) && Holds(buffer, Name(input[start..]).name)
    ensures start <= p <= |input| && input[p..] == Name(input[start..]).rest
  {
    hide Body, TrimEnd;
    var length: nat;
    if IsQuote(input[start]) {
      var quote := input[start];
      buffer, length, p := ReadBody(input, start + 1, quote);
      assert input[start..][1..] == input[start + 1..];
      BodyChars(input[start + 1..], quote, '\0');
      buffer[length] := '\0';
      if p < |input| && input[p] == quote {
        assert input[p..][1..] == input[p + 1..];
        p := p + 1;
      }
    } else {
      buffer, length, p := ReadBody(input, start, ',');
      BodyChars(input[start..], ',', '\0');
      TrimEndChars(buffer[..length], '\0');
      ghost var all := buffer[..length];
      while length > 0 && IsSpace(buffer[length - 1])
        invariant length < buffer.Length && TrimEnd(buffer[..length]) == TrimEnd(all)
      {
        TrimEndStep(buffer[..length]);
        assert buffer[..length][..length - 1] == buffer[..length - 1];
        length := length - 1;
      }
      TrimEndStep(buffer[..length]);
      buffer[length] := '\0';
    }
  }

  /** White space, at most one comma, and white space. */
  method SkipSeparator(input: string, start: nat) returns (p: nat)
    requires start <= |input|
    ensures start <= p <= |input| && input[p..] == Separator(input[start..])
  {
    hide SkipSpace;
    p := SkipWhite(input, start);
    if p < |input| && input[p] == ',' {
      assert input[p..][1..] == input[p + 1..];
      p := SkipWhite(input, p + 1);
    }
  }

  /** The whole parser; the array of files doubles when it is full. */
  method ParseIrFilenames(input: string) returns (files: seq<array<char>>, capacity: nat)
    requires '\0' !in input
    ensures |files| == |Parse(input)| <= capacity
    ensures forall k :: 0 <= k < |files| ==> fresh(files[k]) && Holds(files[k], Parse(input)[k])
  {
    hide Name, Parse, SkipSpace, Separator, Holds;
    files, capacity := [], 10;
    var p := 0;
    ghost var done: seq<string> := [];
    assert input[0..] == input;
    while p < |input|
      invariant 0 <= p <= |input| && |files| == |done| <= capacity && capacity > 0
      invariant done + Parse(input[p..]) == Parse(input)
      invariant forall k :: 0 <= k < |files| ==> fresh(files[k]) && Holds(files[k], done[k])
      decreases |input| - p
    {
      var from := p;
      ParseStep(input[from..]);
      p := SkipWhite(input, p);
      if p == |input| {
        assert input[p..] == [];
        ParseEmpty();
        break;
      }
      if |files| >= capacity {
        capacity := capacity * 2;
      }
      var buffer, q := ReadName(input, p);
      var r := SkipSeparator(input, q);
      ghost var name := Name(input[p..]);
      files := files + [buffer];
      done := done + [name.name];
      p := r;
    }
    assert input[p..] == [];
    ParseEmpty();
  }
}
