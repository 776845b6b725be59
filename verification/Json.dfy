/**
 The JSON printer of the ASN.1 library (`json_writer`): three fields (text, indentation,
 pending separator) and a protocol of calls. The text is judged by a JSON parser.
 */
module Json {

  // ----- values -----

  /** A value; `Nodes` are the members of an object or, unnamed, the elements of an array. */
  datatype Value = Str(s: string) | Int(i: int) | Bool(b: bool) | Null | Arr(kids: Nodes) | Obj(kids: Nodes)
  datatype Nodes = Nil | Cons(name: string, v: Value, rest: Nodes)

  /** A character that a string literal may hold as it is: no quote, backslash or control. */
  predicate Plain(c: char) {
    c != '\"' && c != '\\' && ' ' <= c
  }

  predicate Clean(s: string) {
    forall i :: 0 <= i < |s| ==> Plain(s[i])
  }

  ghost predicate Ok(v: Value) {
    match v
    case Str(s) => Clean(s)
    case Arr(kids) => OkNodes(kids, false)
    case Obj(kids) => OkNodes(kids, true)
    case _ => true
  }

  /** Members have clean names that are not empty, elements have none. */
  ghost predicate OkNodes(n: Nodes, named: bool) {
    n.Cons? ==> Clean(n.name) && (n.name != "" <==> named) && Ok(n.v) && OkNodes(n.rest, named)
  }

  // ----- the text written -----

  datatype Sep = COMMA | NEWLINE | NONE

  function SepText(sep: Sep): string {
    match sep
    case COMMA => ",\n"
    case NEWLINE => "\n"
    case NONE => ""
  }

  function Lead(sep: Sep, ident: string, name: string): string {
    SepText(sep) + ((if sep != NONE then ident else "") + NameText(name))
  }

  function NameText(name: string): string {
    if name == "" then "" else "\"" + name + "\": "
  }

  function Digits(n: nat): (s: string)
    ensures s != ""
  {
    var d := (n % 10) as char + '0';
    if n < 10 then [d] else Digits(n / 10) + [d]
  }

  function IntText(i: int): string {
    if i < 0 then "-" + Digits(-i) else Digits(i)
  }

  function Body(v: Value, ident: string): string {
    match v
    case Str(s) => "\"" + s + "\""
    case Int(i) => IntText(i)
    case Bool(b) => if b then "true" else "false"
    case Null => "null"
    case Arr(kids) => "[" + (Kids(kids, NEWLINE, ident + "  ") + ("\n" + ident + "]"))
    case Obj(kids) => "{" + (Kids(kids, NEWLINE, ident + "  ") + ("\n" + ident + "}"))
  }

  function Kids(n: Nodes, sep: Sep, ident: string): string {
    if n.Nil? then ""
    else Lead(sep, ident, n.name) + (Body(n.v, ident) + Kids(n.rest, COMMA, ident))
  }

  // ----- the code -----

  class JsonWriter {
    var buffer: string
    var ident: string
    var sep: Sep

    constructor ()
      ensures buffer == "" && ident == "" && sep == NONE
    {
      buffer, ident, sep := "", "", NONE;
    }

    method WriteFieldname(name: string)
      modifies `buffer, `sep
      ensures buffer == old(buffer) + Lead(old(sep), ident, name) && sep == NONE
    {
      hide NameText;
      var start := SepText(sep);
      var indent := if sep != NONE then ident else "";
      buffer := buffer + (start + indent);
      assert old(buffer) + (start + (indent + NameText(name))) == buffer + NameText(name);
      WriteName(name);
      sep := NONE;
    }

    method WriteName(name: string)
      modifies `buffer
      ensures buffer == old(buffer) + NameText(name)
    {
      if name != "" {
        buffer := buffer + ("\"" + name + "\": ");
      }
    }

    /** `write_str`, `write_int`, `write_bool` and `write_null` differ in the text of the value only. */
    method WriteScalar(name: string, text: string)
      modifies `buffer, `sep
      ensures buffer == old(buffer) + (Lead(old(sep), ident, name) + text) && sep == COMMA
    {
      WriteFieldname(name);
      buffer := buffer + text;
      sep := COMMA;
    }

    method WriteStr(name: string, value: string)
      modifies `buffer, `sep
      ensures buffer == old(buffer) + (Lead(old(sep), ident, name) + Body(Str(value), ident)) && sep == COMMA
    {
      WriteScalar(name, "\"" + value + "\"");
    }

    method WriteInt(name: string, value: int)
      modifies `buffer, `sep
      ensures buffer == old(buffer) + (Lead(old(sep), ident, name) + Body(Int(value), ident)) && sep == COMMA
    {
      WriteScalar(name, IntText(value));
    }

    method WriteBool(name: string, value: bool)
      modifies `buffer, `sep
      ensures buffer == old(buffer) + (Lead(old(sep), ident, name) + Body(Bool(value), ident)) && sep == COMMA
    {
      WriteScalar(name, if value then "true" else "false");
    }

    method WriteNull(name: string)
      modifies `buffer, `sep
      ensures buffer == old(buffer) + (Lead(old(sep), ident, name) + Body(Null, ident)) && sep == COMMA
    {
      WriteScalar(name, "null");
    }

    /** `start_obj` and `start_array`. */
    method Start(name: string, bracket: char)
      modifies this
      ensures buffer == old(buffer) + (Lead(old(sep), old(ident), name) + [bracket])
      ensures ident == old(ident) + "  " && sep == NEWLINE
    {
      WriteFieldname(name);
      buffer := buffer + [bracket];
      ident := ident + "  ";
      sep := NEWLINE;
    }

    /** `end_obj` and `end_array`. */
    method Finish(bracket: char)
      requires |ident| >= 2
      modifies this
      ensures ident == old(ident)[..|old(ident)| - 2] && sep == COMMA
      ensures buffer == old(buffer) + ("\n" + ident + [bracket])
    {
      ident := ident[..|ident| - 2];
      buffer := buffer + ("\n" + ident + [bracket]);
      sep := COMMA;
    }

    /** The calls that print a value: the indentation is restored, a comma is pending. */
    method WriteValue(name: string, v: Value)
      modifies this
      ensures buffer == old(buffer) + (Lead(old(sep), ident, name) + Body(v, ident))
      ensures ident == old(ident) && sep == COMMA
      decreases v
    {
      match v
      case Str(s) => WriteStr(name, s);
      case Int(i) => WriteInt(name, i);
      case Bool(b) => WriteBool(name, b);
      case Null => WriteNull(name);
      case Arr(kids) => WriteBlock(name, '[', kids, ']');
      case Obj(kids) => WriteBlock(name, '{', kids, '}');
    }

    method WriteBlock(name: string, open: char, kids: Nodes, close: char)
      modifies this
      ensures buffer == old(buffer)
        + (Lead(old(sep), ident, name) + ([open] + (Kids(kids, NEWLINE, ident + "  ") + ("\n" + ident + [close]))))
      ensures ident == old(ident) && sep == COMMA
      decreases kids, 1
    {
      hide Kids, Lead;
      Start(name, open);
      WriteKids(kids);
      Finish(close);
    }

    method WriteKids(n: Nodes)
      modifies this
      ensures buffer == old(buffer) + Kids(n, old(sep), ident)
      ensures ident == old(ident) && sep == if n.Nil? then old(sep) else COMMA
      decreases n, 0
    {
      hide Body, Lead;
      if n.Cons? {
        WriteValue(n.name, n.v);
        WriteKids(n.rest);
      }
    }
  }
}
