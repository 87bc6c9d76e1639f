/**
  JSON values, a parser for JSON texts (sections 2 to 7 of RFC 8259, integers
  only and without \u escapes), and the text of a value as the writer lays it out.
 */
module Json {
  import opened Wrappers
  import opened JsonWriter

  datatype Value =
    | Null
    | Bool(b: bool)
    | Num(n: int)
    | Str(s: cstring)
    | Arr(elems: seq<Value>)
    | Obj(fields: seq<Field>)

  datatype Field = Field(name: cstring, value: Value)

  // ---------- parsing ----------

  predicate IsWs(c: char) { c == ' ' || c == '\t' || c == '\n' || c == '\r' }

  predicate IsDigit(c: char) { '0' <= c <= '9' }

  function SkipWs(s: string): (r: string)
    ensures |r| <= |s|
  {
    if s != "" && IsWs(s[0]) then SkipWs(s[1..]) else s
  }

  /** The character that follows a backslash, decoded. */
  function Unescape(c: char): Option<char> {
    if c == 't' then Some('\t')
    else if c == 'n' then Some('\n')
    else if c == 'r' then Some('\r')
    else if c == 'f' then Some(12 as char)
    else if c == 'b' then Some(8 as char)
    else if c == '\\' || c == '\"' || c == '/' then Some(c)
    else None
  }

  /** The characters up to the closing quote, decoded, and what follows it. */
  function ParseString(s: string): (r: Option<(string, string)>)
    ensures r.Some? ==> |r.value.1| < |s| && NONE !in r.value.0
  {
    if s == "" || s[0] < ' ' then None
    else if s[0] == '\"' then Some(("", s[1..]))
    else if s[0] == '\\' then
      if |s| == 1 || Unescape(s[1]) == None then None
      else ConsChar(Unescape(s[1]).value, ParseString(s[2..]))
    else ConsChar(s[0], ParseString(s[1..]))
  }

  function ConsChar(c: char, r: Option<(string, string)>): Option<(string, string)> {
    if r == None then None else Some(([c] + r.value.0, r.value.1))
  }

  function CountDigits(s: string): (n: nat)
    ensures n <= |s|
  {
    if s != "" && IsDigit(s[0]) then 1 + CountDigits(s[1..]) else 0
  }

  function NatOf(s: string): int {
    if s == "" then 0 else 10 * NatOf(s[..|s| - 1]) + (s[|s| - 1] as int - '0' as int)
  }

  function ParseNat(s: string): (r: Option<(int, string)>)
    ensures r.Some? ==> |r.value.1| < |s|
  {
    var n := CountDigits(s);
    if n == 0 || (n > 1 && s[0] == '0') then None else Some((NatOf(s[..n]), s[n..]))
  }

  function ParseNumber(s: string): (r: Option<(Value, string)>)
    ensures r.Some? ==> |r.value.1| < |s|
  {
    if s != "" && s[0] == '-' then
      match ParseNat(s[1..])
      case None => None
      case Some((n, rest)) => Some((Num(-n), rest))
    else
      match ParseNat(s)
      case None => None
      case Some((n, rest)) => Some((Num(n), rest))
  }

  function ParseWord(word: string, v: Value, s: string): (r: Option<(Value, string)>)
    requires word != ""
    ensures r.Some? ==> |r.value.1| < |s|
  {
    if |word| <= |s| && s[..|word|] == word then Some((v, s[|word|..])) else None
  }

  function ParseValue(text: string): (r: Option<(Value, string)>)
    ensures r.Some? ==> |r.value.1| < |text|
    decreases |text|, 1
  {
    var s := SkipWs(text);
    if s == "" then None
    else if s[0] == '\"' then
      match ParseString(s[1..])
      case None => None
      case Some((x, rest)) => Some((Str(x), rest))
    else if s[0] == '[' then
      var inner := SkipWs(s[1..]);
      if inner != "" && inner[0] == ']' then Some((Arr([]), inner[1..]))
      else
        match ParseElems(inner)
        case None => None
        case Some((es, rest)) => Some((Arr(es), rest))
    else if s[0] == '{' then
      var inner := SkipWs(s[1..]);
      if inner != "" && inner[0] == '}' then Some((Obj([]), inner[1..]))
      else
        match ParseFields(inner)
        case None => None
        case Some((fs, rest)) => Some((Obj(fs), rest))
    else if s[0] == 'n' then ParseWord("null", Null, s)
    else if s[0] == 't' then ParseWord("true", Bool(true), s)
    else if s[0] == 'f' then ParseWord("false", Bool(false), s)
    else ParseNumber(s)
  }

  /** Elements up to the closing bracket. */
  function ParseElems(text: string): (r: Option<(seq<Value>, string)>)
    ensures r.Some? ==> |r.value.1| < |text|
    decreases |text|, 2
  {
    match ParseValue(text)
    case None => None
    case Some((v, rest)) =>
      var s := SkipWs(rest);
      if s != "" && s[0] == ']' then Some(([v], s[1..]))
      else if s != "" && s[0] == ',' then
        match ParseElems(s[1..])
        case None => None
        case Some((vs, more)) => Some(([v] + vs, more))
      else None
  }

  /** One name and its value. */
  function ParseField(text: string): (r: Option<(Field, string)>)
    ensures r.Some? ==> |r.value.1| < |text|
    decreases |text|, 2
  {
    var s := SkipWs(text);
    if s == "" || s[0] != '\"' then None
    else
      match ParseString(s[1..])
      case None => None
      case Some((name, rest)) =>
        var colon := SkipWs(rest);
        if colon == "" || colon[0] != ':' then None
        else
          match ParseValue(colon[1..])
          case None => None
          case Some((v, more)) => Some((Field(name, v), more))
  }

  /** Fields up to the closing brace. */
  function ParseFields(text: string): (r: Option<(seq<Field>, string)>)
    ensures r.Some? ==> |r.value.1| < |text|
    decreases |text|, 3
  {
    match ParseField(text)
    case None => None
    case Some((f, rest)) =>
      var s := SkipWs(rest);
      if s != "" && s[0] == '}' then Some(([f], s[1..]))
      else if s != "" && s[0] == ',' then
        match ParseFields(s[1..])
        case None => None
        case Some((fs, more)) => Some(([f] + fs, more))
      else None
  }

  /** A whole JSON text. */
  function Parse(text: string): Option<Value> {
    match ParseValue(text)
    case None => None
    case Some((v, rest)) => if SkipWs(rest) == "" then Some(v) else None
  }

  // ---------- laying out ----------

  function NatText(n: nat): (s: string)
    ensures s != ""
  {
    if n < 10 then [('0' as int + n) as char] else NatText(n / 10) + [('0' as int + n % 10) as char]
  }

  function IntText(n: int): string { if n < 0 then "-" + NatText(-n) else NatText(n) }

  /** The text of a value at a nesting depth, without the separator before it. */
  function Doc(v: Value, pretty: bool, depth: nat): string
    decreases v, 1
  {
    match v
    case Null => "null"
    case Bool(b) => if b then "true" else "false"
    case Num(n) => IntText(n)
    case Str(s) => Quote(s)
    case Arr(es) => "[" + ElemsDoc(es, pretty, depth + 1) + (if es == [] then "" else Eol(pretty, depth)) + "]"
    case Obj(fs) => "{" + FieldsDoc(fs, pretty, depth + 1) + (if fs == [] then "" else Eol(pretty, depth)) + "}"
  }

  function ElemsDoc(es: seq<Value>, pretty: bool, depth: nat): string
    decreases es, 0
  {
    if es == [] then ""
    else Doc(es[0], pretty, depth) + (if |es| == 1 then "" else "," + ElemsDoc(es[1..], pretty, depth))
  }

  function FieldDoc(f: Field, pretty: bool, depth: nat): string
    decreases f, 2
  {
    Eol(pretty, depth) + Quote(f.name) + ":" + (if pretty then " " else "") + Doc(f.value, pretty, depth)
  }

  function FieldsDoc(fs: seq<Field>, pretty: bool, depth: nat): string
    decreases fs, 0
  {
    if fs == [] then ""
    else FieldDoc(fs[0], pretty, depth) + (if |fs| == 1 then "" else "," + FieldsDoc(fs[1..], pretty, depth))
  }

  // ---------- which values survive ----------

  /** A character that the writer prints as JSON allows: control characters need an escape. */
  predicate CleanChar(c: char) {
    c >= ' ' || c == '\t' || c == '\n' || c == '\r' || c == 12 as char || c == 8 as char
  }

  predicate CleanStr(s: string) { forall i :: 0 <= i < |s| ==> CleanChar(s[i]) }

  predicate Clean(v: Value) {
    match v
    case Str(s) => CleanStr(s)
    case Arr(es) => forall i :: 0 <= i < |es| ==> Clean(es[i])
    case Obj(fs) => forall i :: 0 <= i < |fs| ==> CleanField(fs[i])
    case _ => true
  }

  predicate CleanField(f: Field) { CleanStr(f.name) && Clean(f.value) }
}
