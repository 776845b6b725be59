/**
 A JSON reader (whitespace, literals, integers, strings without escapes, arrays, objects) and
 the proof that it takes the text of the writer back to the value written.
 */
module JsonParse {
  import opened Json

  datatype Parse<T> = Fail | Got(v: T, rest: string)

  predicate Blank(c: char) {
    c == ' ' || c == '\n' || c == '\t' || c == '\r'
  }

  function SkipBlank(s: string): (r: string)
    ensures |r| <= |s|
    ensures r == "" || !Blank(r[0])
  {
    if s == "" || !Blank(s[0]) then s else SkipBlank(s[1..])
  }

  /** The characters of a string literal behind its opening quote. */
  function ParseString(s: string): (p: Parse<string>)
    ensures p.Got? ==> |p.rest| < |s|
  {
    if s == "" then Fail
    else if s[0] == '\"' then Got("", s[1..])
    else if !Plain(s[0]) then Fail
    else
      match ParseString(s[1..])
      case Fail => Fail
      case Got(t, rest) => Got([s[0]] + t, rest)
  }

  predicate Digit(c: char) {
    '0' <= c <= '9'
  }

  /** The longest run of digits, read on from the number `n`. */
  function ParseDigits(s: string, n: nat): (nat, string)
    ensures |ParseDigits(s, n).1| <= |s|
    decreases |s|
  {
    if s == "" || !Digit(s[0]) then (n, s)
    else ParseDigits(s[1..], 10 * n + (s[0] - '0') as int)
  }

  function ParseInt(s: string): (p: Parse<Value>)
    ensures p.Got? ==> |p.rest| < |s|
  {
    var t := if s != "" && s[0] == '-' then s[1..] else s;
    if t == "" || !Digit(t[0]) then Fail
    else
      var (n, rest) := ParseDigits(t[1..], (t[0] - '0') as int);
      Got(Int(if t == s then n else 0 - n), rest)
  }

  function ParseLiteral(s: string, word: string, v: Value): (p: Parse<Value>)
    requires word != ""
    ensures p.Got? ==> |p.rest| < |s|
  {
    if word <= s then Got(v, s[|word|..]) else Fail
  }

  function ParseValue(s: string): (p: Parse<Value>)
    ensures p.Got? ==> |p.rest| < |s|
    decreases |s|, 1
  {
    var t := SkipBlank(s);
    if t == "" then Fail
    else if t[0] == '\"' then
      match ParseString(t[1..])
      case Fail => Fail
      case Got(u, rest) => Got(Str(u), rest)
    else if t[0] == '[' then
      match ParseKids(t[1..], false, true)
      case Fail => Fail
      case Got(n, rest) => Got(Arr(n), rest)
    else if t[0] == '{' then
      match ParseKids(t[1..], true, true)
      case Fail => Fail
      case Got(n, rest) => Got(Obj(n), rest)
    else if t[0] == 't' then ParseLiteral(t, "true", Bool(true))
    else if t[0] == 'f' then ParseLiteral(t, "false", Bool(false))
    else if t[0] == 'n' then ParseLiteral(t, "null", Null)
    else ParseInt(t)
  }

  /**
   What follows an opening bracket (`first`) or a value inside brackets: the closing bracket, or
   the next element, which a comma must precede unless it is the first.
   */
  function ParseKids(s: string, named: bool, first: bool): (p: Parse<Nodes>)
    ensures p.Got? ==> |p.rest| < |s|
    decreases |s|, 3
  {
    var t := SkipBlank(s);
    if t == "" then Fail
    else if t[0] == (if named then '}' else ']') then Got(Nil, t[1..])
    else if first then ParseElement(t, named)
    else if t[0] == ',' then ParseElement(t[1..], named)
    else Fail
  }

  function ParseElement(s: string, named: bool): (p: Parse<Nodes>)
    ensures p.Got? ==> |p.rest| < |s|
    decreases |s|, 2
  {
    var name := if named then ParseName(s) else Got("", s);
    if name.Fail? then Fail
    else
      var v := ParseValue(name.rest);
      if v.Fail? then Fail
      else
        match ParseKids(v.rest, named, false)
        case Fail => Fail
        case Got(n, rest) => Got(Cons(name.v, v.v, n), rest)
  }

  /** A member name and its colon. */
  function ParseName(s: string): (p: Parse<string>)
    ensures p.Got? ==> |p.rest| < |s|
  {
    var t := SkipBlank(s);
    if t == "" || t[0] != '\"' then Fail
    else
      var name := ParseString(t[1..]);
      if name.Fail? then Fail
      else
        var u := SkipBlank(name.rest);
        if u == "" || u[0] != ':' then Fail else Got(name.v, u[1..])
  }

  // ----- round trips of the parts -----

  ghost predicate AllBlank(s: string) {
    forall i :: 0 <= i < |s| ==> Blank(s[i])
  }

  lemma {:induction false} SkipBlankOver(ws: string, s: string)
    requires AllBlank(ws)
    ensures SkipBlank(ws + s) == SkipBlank(s)
  {
    if ws == "" {
      assert ws + s == s;
    } else {
      SkipBlankOver(ws[1..], s);
      assert (ws + s)[1..] == ws[1..] + s;
    }
  }

  lemma {:induction false} CleanRoundTrip(s: string, rest: string)
    ensures ParseString(s + "\"" + rest) == Got(s, rest) <==> Clean(s)
  {
    var t := s + "\"" + rest;
    if s == "" {
      assert t == "\"" + rest;
    } else {
      CleanRoundTrip(s[1..], rest);
      assert t[1..] == s[1..] + "\"" + rest;
      assert s == [s[0]] + s[1..];
      assert Clean(s) <==> Plain(s[0]) && Clean(s[1..]);
    }
  }

  /** A string literal is read back if and only if it has no quote, backslash or control character. */
  lemma StringRoundTrip(s: string, rest: string)
    ensures ParseString(s + "\"" + rest) == Got(s, rest) <==>
      forall i :: 0 <= i < |s| ==> s[i] != '\"' && s[i] != '\\' && s[i] >= ' '
  {
    hide ParseString;
    CleanRoundTrip(s, rest);
  }

  ghost predicate Stops(rest: string) {
    rest == "" || !Digit(rest[0])
  }

  lemma {:induction false} DigitsRoundTrip(n: nat, rest: string)
    ensures Digit(Digits(n)[0])
    ensures ParseDigits((Digits(n) + rest)[1..], (Digits(n)[0] - '0') as int) == ParseDigits(rest, n)
  {
    var d := (n % 10) as char + '0';
    if n < 10 {
      assert (Digits(n) + rest)[1..] == rest;
    } else {
      DigitsRoundTrip(n / 10, [d] + rest);
      assert Digits(n) + rest == Digits(n / 10) + ([d] + rest);
      assert ([d] + rest)[1..] == rest;
    }
  }

  lemma IntRoundTrip(i: int, rest: string)
    requires Stops(rest)
    ensures ParseInt(IntText(i) + rest) == Got(Int(i), rest)
  {
    hide Digits, ParseDigits;
    if i < 0 {
      MagnitudeRoundTrip(-i, rest);
      SignedText(Digits(-i), rest);
    } else {
      MagnitudeRoundTrip(i, rest);
    }
  }

  lemma SignedText(digits: string, rest: string)
    ensures var s := "-" + digits + rest; s[0] == '-' && s[1..] == digits + rest
  {
  }

  lemma MagnitudeRoundTrip(n: nat, rest: string)
    requires Stops(rest)
    ensures var t := Digits(n) + rest;
      t != "" && Digit(t[0]) && ParseDigits(t[1..], (t[0] - '0') as int) == (n, rest)
  {
    hide Digits;
    DigitsRoundTrip(n, rest);
    assert (Digits(n) + rest)[0] == Digits(n)[0];
  }

  // ----- one step of the parser -----

  /** Leading blanks do not matter to a value. */
  lemma ValueBlank(ws: string, s: string)
    requires AllBlank(ws)
    ensures ParseValue(ws + s) == ParseValue(s)
  {
    hide ParseKids, ParseString, ParseInt;
    SkipBlankOver(ws, s);
  }

  lemma ParseStr(u: string, rest: string)
    requires Clean(u)
    ensures ParseValue("\"" + u + "\"" + rest) == Got(Str(u), rest)
  {
    hide ParseKids;
    var s := "\"" + u + "\"" + rest;
    assert s[1..] == u + "\"" + rest;
    CleanRoundTrip(u, rest);
  }

  lemma ParseNumber(i: int, rest: string)
    requires Stops(rest)
    ensures ParseValue(IntText(i) + rest) == Got(Int(i), rest)
  {
    hide ParseKids, ParseInt, IntText;
    IntRoundTrip(i, rest);
    IntStart(i, rest);
  }

  lemma IntStart(i: int, rest: string)
    ensures var s := IntText(i) + rest;
      s != "" && (s[0] == '-' || Digit(s[0]))
  {
    if i >= 0 { DigitsRoundTrip(i, rest); }
  }

  lemma ParseWord(v: Value, rest: string)
    requires v.Bool? || v.Null?
    ensures ParseValue(Body(v, "") + rest) == Got(v, rest)
  {
    hide ParseKids;
    var w := Body(v, "");
    assert (w + rest)[|w|..] == rest;
  }

  lemma ParseBlock(inner: string, n: Nodes, named: bool, rest: string)
    requires ParseKids(inner, named, true) == Got(n, rest)
    ensures ParseValue([if named then '{' else '['] + inner) == Got(if named then Obj(n) else Arr(n), rest)
  {
    hide ParseKids;
    var s := [if named then '{' else '['] + inner;
    assert s[1..] == inner;
  }

  lemma NameRoundTrip(ws: string, name: string, u: string)
    requires AllBlank(ws) && Clean(name)
    ensures ParseName(ws + ("\"" + name + "\":" + u)) == Got(name, u)
  {
    hide ParseString, SkipBlank, Clean, ParseName, AllBlank;
    var t, after := "\"" + name + "\"" + (":" + u), ":" + u;
    assert "\"" + name + "\":" + u == t;
    QuotedText(name, after);
    SkipBlankOver(ws, t);
    SkipNothing(t);
    SkipNothing(after);
    CleanRoundTrip(name, after);
    ColonGivesName(ws + t, t, name, after);
    assert after[1..] == u;
  }

  lemma ColonGivesName(s: string, t: string, name: string, after: string)
    requires t != "" && t[0] == '\"' && SkipBlank(s) == t && ParseString(t[1..]) == Got(name, after)
    requires after != "" && SkipBlank(after) == after && after[0] == ':'
    ensures ParseName(s) == Got(name, after[1..])
  {
    hide ParseString, SkipBlank;
  }

  lemma NameColon(name: string, t: string)
    requires name != ""
    ensures NameText(name) + t == "\"" + name + "\":" + (" " + t)
  {
  }

  /** One member or element, given that its value and what follows it are read back. */
  lemma ElementRoundTrip(n: Nodes, named: bool, ws: string, body: string, tail: string, rest: string)
    requires n.Cons? && OkNodes(n, named) && AllBlank(ws)
    requires ParseValue(body + tail) == Got(n.v, tail)
    requires ParseKids(tail, named, false) == Got(n.rest, rest)
    ensures ParseElement(ws + (NameText(n.name) + (body + tail)), named) == Got(n, rest)
  {
    hide ParseKids, ParseValue, ParseName;
    var s := ws + (NameText(n.name) + (body + tail));
    if named {
      var u := " " + (body + tail);
      NameColon(n.name, body + tail);
      NameRoundTrip(ws, n.name, u);
      ValueBlank(" ", body + tail);
    } else {
      assert NameText(n.name) + (body + tail) == body + tail;
      ValueBlank(ws, body + tail);
    }
  }

  // ----- round trip of values -----

  /**
   The text of any value whose strings and names are clean parses back to that value, at any
   indentation and in front of anything that does not continue a number.
   */
  lemma {:induction false} ValueRoundTrip(v: Value, ident: string, rest: string)
    requires Ok(v) && AllBlank(ident) && Stops(rest)
    ensures ParseValue(Body(v, ident) + rest) == Got(v, rest)
    decreases v
  {
    hide ParseValue, ParseKids;
    match v
    case Str(u) => ParseStr(u, rest);
    case Int(i) => ParseNumber(i, rest);
    case Bool(b) => ParseWord(v, rest);
    case Null => ParseWord(v, rest);
    case Arr(kids) => BlockRoundTrip(kids, false, ident, rest);
    case Obj(kids) => BlockRoundTrip(kids, true, ident, rest);
  }

  lemma {:induction false} BlockRoundTrip(kids: Nodes, named: bool, ident: string, rest: string)
    requires OkNodes(kids, named) && AllBlank(ident)
    ensures var v := if named then Obj(kids) else Arr(kids);
      ParseValue(Body(v, ident) + rest) == Got(v, rest)
    decreases kids, 1
  {
    hide ParseValue, ParseKids;
    KidsRoundTrip(kids, named, true, ident, rest);
    ParseBlock(KidsText(kids, NEWLINE, ident, Close(named)) + rest, kids, named, rest);
    BlockSplit(kids, named, ident, rest);
  }

  /** The text of a block is its bracket and the text of its inside. */
  lemma BlockSplit(kids: Nodes, named: bool, ident: string, rest: string)
    ensures Body(if named then Obj(kids) else Arr(kids), ident) + rest
         == [if named then '{' else '['] + (KidsText(kids, NEWLINE, ident, Close(named)) + rest)
  {
    hide Kids;
  }

  function Close(named: bool): char {
    if named then '}' else ']'
  }

  /** The inside of a bracket up to its end. */
  function KidsText(n: Nodes, sep: Sep, ident: string, close: char): string {
    Kids(n, sep, ident + "  ") + ("\n" + ident + [close])
  }

  lemma {:induction false} KidsRoundTrip(n: Nodes, named: bool, first: bool, ident: string, rest: string)
    requires OkNodes(n, named) && AllBlank(ident)
    ensures ParseKids(KidsText(n, if first then NEWLINE else COMMA, ident, Close(named)) + rest, named, first)
         == Got(n, rest)
    decreases n, 0
  {
    hide ParseValue, ParseKids, ParseElement, Body;
    var sep := if first then NEWLINE else COMMA;
    var s := KidsText(n, sep, ident, Close(named)) + rest;
    if n.Nil? {
      assert s == "\n" + ident + ([Close(named)] + rest);
      KidsEnd("\n" + ident, named, first, rest);
    } else {
      var deep := ident + "  ";
      var tail := KidsText(n.rest, COMMA, ident, Close(named)) + rest;
      var ws := "\n" + deep;
      var element := NameText(n.name) + (Body(n.v, deep) + tail);
      TailStops(n.rest, ident, Close(named), rest);
      ValueRoundTrip(n.v, deep, tail);
      KidsRoundTrip(n.rest, named, false, ident, rest);
      ElementRoundTrip(n, named, ws, Body(n.v, deep), tail, rest);
      ElementRoundTrip(n, named, "", Body(n.v, deep), tail, rest);
      KidsSplit(n, sep, ident, Close(named), rest);
      BodyStart(n, named, deep, tail);
      KidsNext(ws, element, named, first);
    }
  }

  lemma KidsEnd(ws: string, named: bool, first: bool, rest: string)
    requires AllBlank(ws)
    ensures ParseKids(ws + ([Close(named)] + rest), named, first) == Got(Nil, rest)
  {
    var t := [Close(named)] + rest;
    SkipBlankOver(ws, t);
    assert t[1..] == rest;
  }

  /** The next element is reached directly behind the bracket, and behind a comma elsewhere. */
  lemma KidsNext(ws: string, element: string, named: bool, first: bool)
    requires AllBlank(ws) && element != "" && !Blank(element[0]) && element[0] != Close(named)
    ensures ParseKids((if first then "" else ",") + (ws + element), named, first)
         == ParseElement(if first then "" + element else ws + element, named)
  {
    hide ParseElement;
    assert "" + element == element;
    if first {
      assert "" + (ws + element) == ws + element;
      SkipBlankOver(ws, element);
    } else {
      var s := "," + (ws + element);
      assert s[1..] == ws + element;
    }
  }

  /** How the text of a non-empty list falls into separator, element and tail. */
  lemma KidsSplit(n: Nodes, sep: Sep, ident: string, close: char, rest: string)
    requires n.Cons? && sep != NONE
    ensures var deep := ident + "  ";
      var tail := KidsText(n.rest, COMMA, ident, close) + rest;
      KidsText(n, sep, ident, close) + rest
      == (if sep == NEWLINE then "" else ",") + ("\n" + deep + (NameText(n.name) + (Body(n.v, deep) + tail)))
  {
    hide Body, NameText;
    var deep, comma := ident + "  ", if sep == NEWLINE then "" else ",";
    assert SepText(sep) == comma + "\n";
    Regroup(comma, "\n", deep, NameText(n.name), Body(n.v, deep), Kids(n.rest, COMMA, deep),
            "\n" + ident + [close], rest);
  }

  lemma Regroup(c: string, nl: string, d: string, n: string, b: string, k: string, e: string, r: string)
    ensures (((c + nl) + (d + n)) + (b + k)) + e + r == c + ((nl + d) + (n + (b + ((k + e) + r))))
  {
    var y := b + (k + (e + r));
    var l := (c + nl) + (d + n);
    assert (l + (b + k)) + e + r == l + y;
    assert l + y == c + ((nl + d) + (n + y));
    assert (k + e) + r == k + (e + r);
  }

  lemma TailStops(n: Nodes, ident: string, close: char, rest: string)
    ensures Stops(KidsText(n, COMMA, ident, close) + rest)
  {
    if n.Cons? { KidsSplit(n, COMMA, ident, close, rest); }
  }

  lemma BodyStart(n: Nodes, named: bool, deep: string, tail: string)
    requires n.Cons?
    ensures var element := NameText(n.name) + (Body(n.v, deep) + tail);
      element != "" && !Blank(element[0]) && element[0] != Close(named)
  {
    var body := Body(n.v, deep);
    assert body != "" && !Blank(body[0]) && body[0] != ']' && body[0] != '}' by {
      if n.v.Int? { IntStart(n.v.i, ""); assert IntText(n.v.i) + "" == IntText(n.v.i); }
    }
  }

  // ----- what cannot be read back -----

  /** As `Ok`, but members may be without a name: all that a parsed value can be. */
  ghost predicate Nearly(v: Value) {
    match v
    case Str(s) => Clean(s)
    case Arr(kids) => NearlyNodes(kids, false)
    case Obj(kids) => NearlyNodes(kids, true)
    case _ => true
  }

  ghost predicate NearlyNodes(n: Nodes, named: bool) {
    n.Cons? ==> Clean(n.name) && (named || n.name == "") && Nearly(n.v) && NearlyNodes(n.rest, named)
  }

  lemma {:induction false} ParsedStringClean(s: string)
    ensures ParseString(s).Got? ==> Clean(ParseString(s).v)
  {
    if s != "" { ParsedStringClean(s[1..]); }
  }

  lemma ParsedNameClean(s: string)
    ensures ParseName(s).Got? ==> Clean(ParseName(s).v)
  {
    hide ParseString;
    var t := SkipBlank(s);
    if t != "" { ParsedStringClean(t[1..]); }
  }

  lemma {:induction false} ParsedNearly(s: string)
    ensures ParseValue(s).Got? ==> Nearly(ParseValue(s).v)
    decreases |s|, 1
  {
    hide ParseString, ParseKids;
    var t := SkipBlank(s);
    if t != "" {
      ParsedStringClean(t[1..]);
      ParsedKidsNearly(t[1..], false, true);
      ParsedKidsNearly(t[1..], true, true);
    }
  }

  lemma {:induction false} ParsedKidsNearly(s: string, named: bool, first: bool)
    ensures ParseKids(s, named, first).Got? ==> NearlyNodes(ParseKids(s, named, first).v, named)
    decreases |s|, 3
  {
    hide ParseElement;
    var t := SkipBlank(s);
    if t != "" {
      ParsedElementNearly(t, named);
      ParsedElementNearly(t[1..], named);
    }
  }

  lemma {:induction false} ParsedElementNearly(s: string, named: bool)
    ensures ParseElement(s, named).Got? ==> NearlyNodes(ParseElement(s, named).v, named)
    decreases |s|, 2
  {
    hide ParseName, ParseValue, ParseKids;
    ParsedNameClean(s);
    var name := if named then ParseName(s) else Got("", s);
    if name.Got? {
      ParsedNearly(name.rest);
      var v := ParseValue(name.rest);
      if v.Got? {
        ParsedKidsNearly(v.rest, named, false);
      }
    }
  }

  /** A value with a member without a name somewhere inside: the reader gives up on its text. */
  lemma {:induction false} NamelessFails(v: Value, ident: string, rest: string)
    requires Nearly(v) && !Ok(v) && AllBlank(ident)
    ensures ParseValue(Body(v, ident) + rest).Fail?
    decreases v
  {
    hide ParseKids, ParseValue;
    var named := v.Obj?;
    NamelessKidsFail(v.kids, named, true, ident, rest);
    BlockSplit(v.kids, named, ident, rest);
    ParseBlockFails(KidsText(v.kids, NEWLINE, ident, Close(named)) + rest, named);
  }

  lemma ParseBlockFails(inner: string, named: bool)
    requires ParseKids(inner, named, true).Fail?
    ensures ParseValue([if named then '{' else '['] + inner).Fail?
  {
    hide ParseKids;
    var s := [if named then '{' else '['] + inner;
    assert s[1..] == inner;
  }

  lemma {:induction false} NamelessKidsFail(n: Nodes, named: bool, first: bool, ident: string, rest: string)
    requires NearlyNodes(n, named) && !OkNodes(n, named) && AllBlank(ident)
    ensures ParseKids(KidsText(n, if first then NEWLINE else COMMA, ident, Close(named)) + rest, named, first).Fail?
    decreases n
  {
    hide ParseValue, ParseKids, ParseElement, Body;
    var sep := if first then NEWLINE else COMMA;
    var deep := ident + "  ";
    var tail := KidsText(n.rest, COMMA, ident, Close(named)) + rest;
    var ws := "\n" + deep;
    var element := NameText(n.name) + (Body(n.v, deep) + tail);
    TailStops(n.rest, ident, Close(named), rest);
    KidsSplit(n, sep, ident, Close(named), rest);
    BodyStart(n, named, deep, tail);
    KidsNext(ws, element, named, first);
    if named && n.name == "" {
      NamelessElementFails(n, ws, deep, ident, rest);
      NamelessElementFails(n, "", deep, ident, rest);
    } else {
      if Ok(n.v) {
        ValueRoundTrip(n.v, deep, tail);
        NamelessKidsFail(n.rest, named, false, ident, rest);
      } else {
        NamelessFails(n.v, deep, tail);
      }
      ElementFails(n, named, ws, Body(n.v, deep), tail);
      ElementFails(n, named, "", Body(n.v, deep), tail);
    }
  }

  lemma ElementFails(n: Nodes, named: bool, ws: string, body: string, tail: string)
    requires n.Cons? && Clean(n.name) && (n.name != "" <==> named) && AllBlank(ws)
    requires ParseValue(body + tail).Fail? ||
      (ParseValue(body + tail) == Got(n.v, tail) && ParseKids(tail, named, false).Fail?)
    ensures ParseElement(ws + (NameText(n.name) + (body + tail)), named).Fail?
  {
    hide ParseKids, ParseValue, ParseName;
    if named {
      NameColon(n.name, body + tail);
      NameRoundTrip(ws, n.name, " " + (body + tail));
      ValueBlank(" ", body + tail);
    } else {
      assert NameText(n.name) + (body + tail) == body + tail;
      ValueBlank(ws, body + tail);
    }
  }

  /** Where a name is expected the reader finds a bare value, and behind it no colon. */
  lemma NamelessElementFails(n: Nodes, ws: string, deep: string, ident: string, rest: string)
    requires n.Cons? && n.name == "" && Nearly(n.v) && AllBlank(ws) && AllBlank(ident)
    ensures var tail := KidsText(n.rest, COMMA, ident, '}') + rest;
      ParseElement(ws + (NameText(n.name) + (Body(n.v, deep) + tail)), true).Fail?
  {
    hide ParseName, ParseValue, ParseKids, KidsText, Body;
    var tail := KidsText(n.rest, COMMA, ident, '}') + rest;
    var t := Body(n.v, deep) + tail;
    assert NameText(n.name) + t == t;
    if n.v.Str? {
      NoColon(n.rest, ident, rest);
      StringText(n.v, deep, tail);
      BareStringIsNoName(n.v.s, ws, tail);
    } else {
      BodyStart(n, true, deep, tail);
      NoStringText(n.v, deep, tail);
      BareValueIsNoName(ws, t);
    }
  }

  lemma StringText(v: Value, deep: string, tail: string)
    requires v.Str?
    ensures Body(v, deep) + tail == "\"" + v.s + "\"" + tail
  {
  }

  lemma NoStringText(v: Value, deep: string, tail: string)
    requires !v.Str?
    ensures Body(v, deep) != "" && Body(v, deep)[0] != '\"'
  {
    if v.Int? { IntStart(v.i, ""); assert IntText(v.i) + "" == IntText(v.i); }
  }

  lemma BareStringIsNoName(u: string, ws: string, tail: string)
    requires Clean(u) && AllBlank(ws) && SkipBlank(tail) != "" && SkipBlank(tail)[0] != ':'
    ensures ParseName(ws + ("\"" + u + "\"" + tail)).Fail?
  {
    hide ParseString, SkipBlank, Clean;
    var t := "\"" + u + "\"" + tail;
    QuotedText(u, tail);
    SkipBlankOver(ws, t);
    SkipNothing(t);
    CleanRoundTrip(u, tail);
    NoColonNoName(ws + t, t, u, tail);
  }

  lemma QuotedText(u: string, tail: string)
    ensures var t := "\"" + u + "\"" + tail; t[0] == '\"' && t[1..] == u + "\"" + tail
  {
  }

  lemma SkipNothing(t: string)
    requires t != "" && !Blank(t[0])
    ensures SkipBlank(t) == t
  {
  }

  lemma NoColonNoName(s: string, t: string, u: string, tail: string)
    requires t != "" && SkipBlank(s) == t && ParseString(t[1..]) == Got(u, tail)
    requires SkipBlank(tail) != "" && SkipBlank(tail)[0] != ':'
    ensures ParseName(s).Fail?
  {
    hide ParseString, SkipBlank;
  }

  lemma BareValueIsNoName(ws: string, t: string)
    requires AllBlank(ws) && t != "" && !Blank(t[0]) && t[0] != '\"'
    ensures ParseName(ws + t).Fail?
  {
    hide ParseString, SkipBlank;
    SkipBlankOver(ws, t);
    SkipNothing(t);
  }

  lemma NoColon(n: Nodes, ident: string, rest: string)
    requires AllBlank(ident)
    ensures var u := SkipBlank(KidsText(n, COMMA, ident, '}') + rest);
      u != "" && u[0] != ':'
  {
    var s := KidsText(n, COMMA, ident, '}') + rest;
    if n.Cons? {
      KidsSplit(n, COMMA, ident, '}', rest);
      assert s[0] == ',';
    } else {
      assert s == "\n" + ident + ("}" + rest);
      SkipBlankOver("\n" + ident, "}" + rest);
    }
  }

  /**
   What a fresh writer prints for a value is JSON text for exactly that value, if and only if its
   strings and names are clean, its members have a name and its elements have none.
   */
  lemma WriterOutputParses(v: Value)
    ensures ParseValue(Lead(NONE, "", "") + Body(v, "")) == Got(v, "") <==> Ok(v)
  {
    hide ParseValue, Body;
    var s := Lead(NONE, "", "") + Body(v, "");
    assert s == Body(v, "") + "";
    if Ok(v) {
      ValueRoundTrip(v, "", "");
    } else if Nearly(v) {
      NamelessFails(v, "", "");
    } else {
      ParsedNearly(s);
    }
  }

  /**
   The text of an object with two members, and of arrays: names in quotes before a colon and a
   space, one member to a line, two spaces deeper than the brackets, commas between.
   */
  lemma BlockText(a: string, u: Value, b: string, v: Value, ident: string)
    requires a != "" && b != ""
    ensures var deep := ident + "  ";
      var first, second := "\n" + (deep + ("\"" + a + "\": ")), ",\n" + (deep + ("\"" + b + "\": "));
      Body(Obj(Cons(a, u, Cons(b, v, Nil))), ident)
      == "{" + ((first + (Body(u, deep) + (second + (Body(v, deep) + "")))) + ("\n" + ident + "}"))
    ensures var deep := ident + "  ";
      Body(Arr(Cons("", u, Nil)), ident)
      == "[" + ((("\n" + (deep + "")) + (Body(u, deep) + "")) + ("\n" + ident + "]"))
    ensures Body(Arr(Nil), ident) == "[" + ("" + ("\n" + ident + "]"))
  {
    var deep := ident + "  ";
    var inner := Cons(b, v, Nil);
    assert Kids(Nil, COMMA, deep) == "";
    assert Kids(inner, COMMA, deep) == Lead(COMMA, deep, b) + (Body(v, deep) + "");
    assert Kids(Cons(a, u, inner), NEWLINE, deep)
        == Lead(NEWLINE, deep, a) + (Body(u, deep) + Kids(inner, COMMA, deep));
    assert Kids(Cons("", u, Nil), NEWLINE, deep) == Lead(NEWLINE, deep, "") + (Body(u, deep) + "");
  }

  /** Two texts of the writer that are not JSON: an unescaped quote, a member without a name. */
  lemma WriterOutputLost(i: int)
    ensures ParseValue(Body(Str("\""), "")) != Got(Str("\""), "")
    ensures var v := Obj(Cons("", Int(i), Nil)); ParseValue(Body(v, "")) != Got(v, "")
  {
    hide ParseValue, Body;
    var u, v := Str("\""), Obj(Cons("", Int(i), Nil));
    WriterOutputParses(u);
    WriterOutputParses(v);
    assert !Ok(u) by { assert !Plain(u.s[0]); }
    assert Lead(NONE, "", "") + Body(u, "") == Body(u, "") && Lead(NONE, "", "") + Body(v, "") == Body(v, "");
  }
}
