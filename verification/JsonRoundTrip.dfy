/**
  What the writer writes, a JSON parser reads back: for exactly the values whose
  strings hold no control character that the writer does not escape.
 */
module JsonRoundTrip {
  import opened Wrappers
  import opened JsonWriter
  import opened Json

  // ---------- strings ----------

  lemma {:induction false} EscapeParses(x: string, rest: string)
    ensures ParseString(Escape(x) + ("\"" + rest)) == if CleanStr(x) then Some((x, rest)) else None
  {
    if x == "" {
      assert Escape(x) + ("\"" + rest) == "\"" + rest;
      assert ("\"" + rest)[1..] == rest;
    } else {
      var c, tail := x[0], x[1..];
      assert x == [c] + tail;
      EscapeParses(tail, rest);
      Assoc(EscapeChar(c), Escape(tail), "\"" + rest);
      CharParses(c, Escape(tail) + ("\"" + rest));
      assert CleanStr(x) <==> CleanChar(c) && CleanStr(tail);
    }
  }

  lemma CharParses(c: char, more: string)
    ensures ParseString(EscapeChar(c) + more) == if CleanChar(c) then ConsChar(c, ParseString(more)) else None
  {
    var s := EscapeChar(c) + more;
    if |EscapeChar(c)| == 2 {
      assert s[2..] == more;
    } else {
      assert s[1..] == more;
    }
  }

  lemma QuoteParses(x: string, rest: string)
    ensures
      var s := Quote(x) + rest;
      s[0] == '\"' && ParseString(s[1..]) == if CleanStr(x) then Some((x, rest)) else None
  {
    assert (Quote(x) + rest)[1..] == Escape(x) + ("\"" + rest);
    EscapeParses(x, rest);
  }

  // ---------- numbers ----------

  predicate AllDigits(s: string) { forall i :: 0 <= i < |s| ==> IsDigit(s[i]) }

  predicate Delimited(rest: string) { rest == "" || !IsDigit(rest[0]) }

  lemma {:induction false} CountAll(s: string, rest: string)
    requires AllDigits(s) && Delimited(rest)
    ensures CountDigits(s + rest) == |s|
  {
    if s == "" {
      assert s + rest == rest;
    } else {
      CountAll(s[1..], rest);
      assert (s + rest)[1..] == s[1..] + rest;
    }
  }

  lemma {:induction false} NatTextReads(n: nat)
    ensures AllDigits(NatText(n)) && NatOf(NatText(n)) == n
    ensures n >= 10 ==> NatText(n)[0] != '0'
    ensures n < 10 ==> |NatText(n)| == 1
  {
    var s := NatText(n);
    if n < 10 {
      assert s[..|s| - 1] == "";
    } else {
      NatTextReads(n / 10);
      assert s[..|s| - 1] == NatText(n / 10);
    }
  }

  lemma NatParses(n: nat, rest: string)
    requires Delimited(rest)
    ensures ParseNat(NatText(n) + rest) == Some((n, rest))
  {
    var s := NatText(n);
    NatTextReads(n);
    CountAll(s, rest);
    assert (s + rest)[..|s|] == s && (s + rest)[|s|..] == rest;
  }

  lemma IntParses(n: int, rest: string)
    requires Delimited(rest)
    ensures ParseNumber(IntText(n) + rest) == Some((Num(n), rest))
    ensures (IntText(n) + rest)[0] == '-' || IsDigit((IntText(n) + rest)[0])
  {
    if n < 0 {
      NatParses(-n, rest);
      MinusParses(NatText(-n), -n, rest);
    } else {
      NatParses(n, rest);
      NatTextReads(n);
      PlusParses(NatText(n), n, rest);
    }
  }

  lemma MinusParses(s: string, n: int, rest: string)
    requires ParseNat(s + rest) == Some((n, rest))
    ensures ParseNumber(("-" + s) + rest) == Some((Num(-n), rest)) && (("-" + s) + rest)[0] == '-'
  {
    assert (("-" + s) + rest)[1..] == s + rest;
  }

  lemma PlusParses(s: string, n: int, rest: string)
    requires s != "" && IsDigit(s[0]) && ParseNat(s + rest) == Some((n, rest))
    ensures ParseNumber(s + rest) == Some((Num(n), rest)) && (s + rest)[0] == s[0]
  {
  }

  // ---------- white space ----------

  lemma {:induction false} SkipIndent(depth: nat, x: string)
    ensures SkipWs(Indent(depth) + x) == SkipWs(x)
  {
    if depth == 0 {
      assert Indent(0) + x == x;
    } else {
      SkipFour(x);
      SkipIndent(depth - 1, "    " + x);
      assert Indent(depth) + x == Indent(depth - 1) + ("    " + x);
    }
  }

  lemma SkipFour(x: string)
    ensures SkipWs("    " + x) == SkipWs(x)
  {
    hide SkipWs;
    SkipOne(' ', x);
    SkipOne(' ', " " + x);
    SkipOne(' ', "  " + x);
    SkipOne(' ', "   " + x);
    assert " " + ("   " + x) == "    " + x && " " + ("  " + x) == "   " + x && " " + (" " + x) == "  " + x;
  }

  lemma SkipOne(c: char, x: string)
    requires IsWs(c)
    ensures SkipWs([c] + x) == SkipWs(x)
  {
    assert ([c] + x)[1..] == x;
  }

  lemma SkipEol(pretty: bool, depth: nat, x: string)
    ensures SkipWs(Eol(pretty, depth) + x) == SkipWs(x)
  {
    if pretty {
      SkipIndent(depth, x);
      SkipOne('\n', Indent(depth) + x);
      assert Eol(pretty, depth) + x == "\n" + (Indent(depth) + x);
    } else {
      assert Eol(pretty, depth) + x == x;
    }
  }

  // ---------- steps of the parser ----------

  lemma ArrayStep(x: string)
    requires SkipWs(x) != "" && SkipWs(x)[0] != ']'
    ensures ParseValue("[" + x) ==
      match ParseElems(SkipWs(x))
      case None => None
      case Some((es, rest)) => Some((Arr(es), rest))
  {
    assert ("[" + x)[1..] == x;
  }

  lemma ObjectStep(x: string)
    requires SkipWs(x) != "" && SkipWs(x)[0] != '}'
    ensures ParseValue("{" + x) ==
      match ParseFields(SkipWs(x))
      case None => None
      case Some((fs, rest)) => Some((Obj(fs), rest))
  {
    assert ("{" + x)[1..] == x;
  }

  lemma ElemsClose(text: string, v: Value, after: string, rest: string)
    requires ParseValue(text) == Some((v, after)) && SkipWs(after) == "]" + rest
    ensures ParseElems(text) == Some(([v], rest))
  {
    assert ("]" + rest)[1..] == rest;
  }

  lemma ElemsMore(text: string, v: Value, after: string, more: string)
    requires ParseValue(text) == Some((v, after)) && SkipWs(after) == "," + more
    ensures ParseElems(text) ==
      match ParseElems(more)
      case None => None
      case Some((vs, rest)) => Some(([v] + vs, rest))
  {
    assert ("," + more)[1..] == more;
  }

  lemma FieldsClose(text: string, f: Field, after: string, rest: string)
    requires ParseField(text) == Some((f, after)) && SkipWs(after) == "}" + rest
    ensures ParseFields(text) == Some(([f], rest))
  {
    assert ("}" + rest)[1..] == rest;
  }

  lemma FieldsMore(text: string, f: Field, after: string, more: string)
    requires ParseField(text) == Some((f, after)) && SkipWs(after) == "," + more
    ensures ParseFields(text) ==
      match ParseFields(more)
      case None => None
      case Some((fs, rest)) => Some(([f] + fs, rest))
  {
    assert ("," + more)[1..] == more;
  }

  lemma FieldStep(text: string, name: string, doc: string)
    requires SkipWs(text) != "" && SkipWs(text)[0] == '\"'
    requires ParseString(SkipWs(text)[1..]) == Some((name, ":" + doc))
    ensures ParseField(text) ==
      match ParseValue(doc)
      case None => None
      case Some((v, rest)) => Some((Field(name, v), rest))
  {
    assert (":" + doc)[1..] == doc;
  }

  lemma ValueSkips(c: char, doc: string)
    requires IsWs(c)
    ensures ParseValue([c] + doc) == ParseValue(doc)
  {
    SkipOne(c, doc);
    SkipTwice(doc);
  }

  lemma {:induction false} SkipTwice(s: string)
    ensures SkipWs(SkipWs(s)) == SkipWs(s)
  {
    if s != "" && IsWs(s[0]) {
      SkipTwice(s[1..]);
    }
  }

  lemma NoWs(s: string)
    requires s != "" && !IsWs(s[0])
    ensures SkipWs(s) == s
  {
  }

  // ---------- values ----------

  /** A value's text starts with none of the characters that mean something to what surrounds it. */
  lemma DocStarts(v: Value, pretty: bool, depth: nat)
    ensures
      var s := Doc(v, pretty, depth);
      s != "" && !IsWs(s[0]) && s[0] != ']' && s[0] != '}'
  {
    if v.Num? {
      IntParses(v.n, "");
      assert IntText(v.n) + "" == IntText(v.n);
    }
  }

  lemma SkipDoc(v: Value, pretty: bool, depth: nat, rest: string)
    ensures SkipWs(Doc(v, pretty, depth) + rest) == Doc(v, pretty, depth) + rest
    ensures Doc(v, pretty, depth) + rest != "" && (Doc(v, pretty, depth) + rest)[0] == Doc(v, pretty, depth)[0]
  {
    DocStarts(v, pretty, depth);
  }

  /** Parsing the text of `v` in front of `rest`: the value and the rest, or a failure. */
  ghost predicate Reads(v: Value, pretty: bool, depth: nat, rest: string) {
    ParseValue(Doc(v, pretty, depth) + rest) == if Clean(v) then Some((v, rest)) else None
  }

  lemma ScalarReads(v: Value, pretty: bool, depth: nat, rest: string)
    requires Delimited(rest) && !v.Arr? && !v.Obj?
    ensures Reads(v, pretty, depth, rest)
  {
    var s := Doc(v, pretty, depth) + rest;
    SkipDoc(v, pretty, depth, rest);
    match v
    case Null => assert s[..4] == "null" && s[4..] == rest;
    case Bool(b) =>
      if b {
        assert s[..4] == "true" && s[4..] == rest;
      } else {
        assert s[..5] == "false" && s[5..] == rest;
      }
    case Num(n) => IntParses(n, rest);
    case Str(x) => QuoteParses(x, rest);
  }

  ghost predicate AllClean(es: seq<Value>) { forall i :: 0 <= i < |es| ==> Clean(es[i]) }

  ghost predicate AllCleanFields(fs: seq<Field>) { forall i :: 0 <= i < |fs| ==> CleanField(fs[i]) }

  lemma {:induction false} ValueReads(v: Value, pretty: bool, depth: nat, rest: string)
    requires Delimited(rest)
    ensures Reads(v, pretty, depth, rest)
    decreases v, 1
  {
    match v
    case Arr(es) =>
      if es == [] {
        EmptyReads(v, pretty, depth, rest);
      } else {
        ElemsRead(es, pretty, depth + 1, depth, rest);
        ArrReads(es, pretty, depth, rest);
      }
    case Obj(fs) =>
      if fs == [] {
        EmptyReads(v, pretty, depth, rest);
      } else {
        FieldsRead(fs, pretty, depth + 1, depth, rest);
        ObjReads(fs, pretty, depth, rest);
      }
    case _ => ScalarReads(v, pretty, depth, rest);
  }

  lemma EmptyReads(v: Value, pretty: bool, depth: nat, rest: string)
    requires v == Arr([]) || v == Obj([])
    ensures Reads(v, pretty, depth, rest)
  {
    var s := Doc(v, pretty, depth) + rest;
    SkipDoc(v, pretty, depth, rest);
    assert s[1..] == [s[1]] + rest;
    assert ([s[1]] + rest)[1..] == rest;
  }

  /** What follows the elements of a block closed at `depth`. */
  function Closing(pretty: bool, depth: nat, close: char, rest: string): string {
    Eol(pretty, depth) + ([close] + rest)
  }

  lemma ClosingSkips(pretty: bool, depth: nat, close: char, rest: string)
    requires !IsWs(close) && !IsDigit(close)
    ensures SkipWs(Closing(pretty, depth, close, rest)) == [close] + rest
    ensures Delimited(Closing(pretty, depth, close, rest))
  {
    SkipEol(pretty, depth, [close] + rest);
    if !pretty {
      assert Closing(pretty, depth, close, rest) == [close] + rest;
    }
  }

  ghost predicate ElemsReadAs(es: seq<Value>, text: string, rest: string) {
    ParseElems(text) == if AllClean(es) then Some((es, rest)) else None
  }

  lemma {:induction false} ElemsRead(es: seq<Value>, pretty: bool, depth: nat, outer: nat, rest: string)
    requires es != []
    ensures ElemsReadAs(es, ElemsDoc(es, pretty, depth) + Closing(pretty, outer, ']', rest), rest)
    decreases es, 0
  {
    var close := Closing(pretty, outer, ']', rest);
    var first := Doc(es[0], pretty, depth);
    ClosingSkips(pretty, outer, ']', rest);
    if |es| == 1 {
      ValueReads(es[0], pretty, depth, close);
      LastReads(es[0], first + close, close, rest);
      assert es == [es[0]] && ElemsDoc(es, pretty, depth) == first;
    } else {
      var more := ElemsDoc(es[1..], pretty, depth) + close;
      ElemsRead(es[1..], pretty, depth, outer, rest);
      ValueReads(es[0], pretty, depth, "," + more);
      ConsReads(es[0], es[1..], first + ("," + more), more, rest);
      ConsDoc(es, pretty, depth, close);
    }
  }

  lemma ConsDoc(es: seq<Value>, pretty: bool, depth: nat, close: string)
    requires |es| > 1
    ensures es == [es[0]] + es[1..]
    ensures ElemsDoc(es, pretty, depth) + close ==
      Doc(es[0], pretty, depth) + ("," + (ElemsDoc(es[1..], pretty, depth) + close))
  {
  }

  lemma LastReads(e: Value, text: string, close: string, rest: string)
    requires ParseValue(text) == if Clean(e) then Some((e, close)) else None
    requires SkipWs(close) == "]" + rest
    ensures ElemsReadAs([e], text, rest)
  {
    assert [e][0] == e;
    if Clean(e) {
      ElemsClose(text, e, close, rest);
    }
  }

  lemma ConsReads(e: Value, es: seq<Value>, text: string, more: string, rest: string)
    requires ParseValue(text) == if Clean(e) then Some((e, "," + more)) else None
    requires ElemsReadAs(es, more, rest)
    ensures ElemsReadAs([e] + es, text, rest)
  {
    SplitClean([e] + es);
    assert ([e] + es)[1..] == es;
    if Clean(e) {
      NoWs("," + more);
      ElemsMore(text, e, "," + more, more);
    }
  }

  lemma SplitClean(es: seq<Value>)
    requires es != []
    ensures es == [es[0]] + es[1..] && (AllClean(es) <==> Clean(es[0]) && AllClean(es[1..]))
  {
    assert forall i :: 1 <= i < |es| ==> es[i] == es[1..][i - 1];
  }

  lemma ArrReads(es: seq<Value>, pretty: bool, depth: nat, rest: string)
    requires es != []
    requires ElemsReadAs(es, ElemsDoc(es, pretty, depth + 1) + Closing(pretty, depth, ']', rest), rest)
    ensures Reads(Arr(es), pretty, depth, rest)
  {
    hide ParseValue;
    hide ParseElems;
    hide SkipWs;
    hide Doc;
    hide ElemsDoc;
    var inner := ElemsDoc(es, pretty, depth + 1) + Closing(pretty, depth, ']', rest);
    ArrText(es, pretty, depth, rest);
    NoWs(inner);
    ArrayStep(inner);
    assert Clean(Arr(es)) <==> AllClean(es);
  }

  lemma ArrText(es: seq<Value>, pretty: bool, depth: nat, rest: string)
    requires es != []
    ensures
      var inner := ElemsDoc(es, pretty, depth + 1) + Closing(pretty, depth, ']', rest);
      Doc(Arr(es), pretty, depth) + rest == "[" + inner && inner != "" && !IsWs(inner[0]) && inner[0] != ']'
  {
    var body, eol := ElemsDoc(es, pretty, depth + 1), Eol(pretty, depth);
    assert Doc(Arr(es), pretty, depth) == "[" + body + eol + "]";
    ElemsStart(es, pretty, depth + 1);
    hide ElemsDoc;
    hide Doc;
    hide Eol;
    Bracketed("[", body, eol, "]", rest);
    assert (body + Closing(pretty, depth, ']', rest))[0] == body[0];
  }

  lemma Bracketed(open: string, body: string, eol: string, close: string, rest: string)
    ensures (open + body + eol + close) + rest == open + (body + (eol + (close + rest)))
  {
  }

  lemma ElemsStart(es: seq<Value>, pretty: bool, depth: nat)
    requires es != []
    ensures
      var s := ElemsDoc(es, pretty, depth);
      s != "" && !IsWs(s[0]) && s[0] != ']'
  {
    hide Doc;
    DocStarts(es[0], pretty, depth);
    assert ElemsDoc(es, pretty, depth)[0] == Doc(es[0], pretty, depth)[0];
  }

  // ---------- objects ----------

  ghost predicate FieldReadsAs(f: Field, text: string, rest: string) {
    ParseField(text) == if CleanField(f) then Some((f, rest)) else None
  }

  lemma FieldReads(f: Field, pretty: bool, depth: nat, rest: string)
    requires Reads(f.value, pretty, depth, rest)
    ensures FieldReadsAs(f, FieldDoc(f, pretty, depth) + rest, rest)
  {
    var doc := Doc(f.value, pretty, depth) + rest;
    var spaced := if pretty then " " + doc else doc;
    var text := FieldDoc(f, pretty, depth) + rest;
    FieldSkips(f, pretty, depth, rest);
    QuoteParses(f.name, ":" + spaced);
    if CleanStr(f.name) {
      FieldStep(text, f.name, spaced);
      if pretty {
        ValueSkips(' ', doc);
      }
    }
  }

  lemma FieldSkips(f: Field, pretty: bool, depth: nat, rest: string)
    ensures
      var doc := Doc(f.value, pretty, depth) + rest;
      SkipWs(FieldDoc(f, pretty, depth) + rest) == Quote(f.name) + (":" + if pretty then " " + doc else doc)
  {
    var doc := Doc(f.value, pretty, depth) + rest;
    var colon := ":" + if pretty then " " + doc else doc;
    assert FieldDoc(f, pretty, depth) + rest == Eol(pretty, depth) + (Quote(f.name) + colon);
    SkipEol(pretty, depth, Quote(f.name) + colon);
    NoWs(Quote(f.name) + colon);
  }

  ghost predicate FieldsReadAs(fs: seq<Field>, text: string, rest: string) {
    ParseFields(text) == if AllCleanFields(fs) then Some((fs, rest)) else None
  }

  lemma {:induction false} FieldsRead(fs: seq<Field>, pretty: bool, depth: nat, outer: nat, rest: string)
    requires fs != []
    ensures FieldsReadAs(fs, FieldsDoc(fs, pretty, depth) + Closing(pretty, outer, '}', rest), rest)
    decreases fs, 0
  {
    var close := Closing(pretty, outer, '}', rest);
    var first := FieldDoc(fs[0], pretty, depth);
    ClosingSkips(pretty, outer, '}', rest);
    if |fs| == 1 {
      ValueReads(fs[0].value, pretty, depth, close);
      FieldReads(fs[0], pretty, depth, close);
      LastFieldReads(fs[0], first + close, close, rest);
      assert fs == [fs[0]] && FieldsDoc(fs, pretty, depth) == first;
    } else {
      var more := FieldsDoc(fs[1..], pretty, depth) + close;
      FieldsRead(fs[1..], pretty, depth, outer, rest);
      ValueReads(fs[0].value, pretty, depth, "," + more);
      FieldReads(fs[0], pretty, depth, "," + more);
      ConsFieldReads(fs[0], fs[1..], first + ("," + more), more, rest);
      ConsFieldsDoc(fs, pretty, depth, close);
    }
  }

  lemma ConsFieldsDoc(fs: seq<Field>, pretty: bool, depth: nat, close: string)
    requires |fs| > 1
    ensures fs == [fs[0]] + fs[1..]
    ensures FieldsDoc(fs, pretty, depth) + close ==
      FieldDoc(fs[0], pretty, depth) + ("," + (FieldsDoc(fs[1..], pretty, depth) + close))
  {
  }

  lemma LastFieldReads(f: Field, text: string, close: string, rest: string)
    requires FieldReadsAs(f, text, close) && SkipWs(close) == "}" + rest
    ensures FieldsReadAs([f], text, rest)
  {
    assert [f][0] == f;
    if CleanField(f) {
      FieldsClose(text, f, close, rest);
    }
  }

  lemma ConsFieldReads(f: Field, fs: seq<Field>, text: string, more: string, rest: string)
    requires FieldReadsAs(f, text, "," + more) && FieldsReadAs(fs, more, rest)
    ensures FieldsReadAs([f] + fs, text, rest)
  {
    SplitCleanFields([f] + fs);
    assert ([f] + fs)[1..] == fs;
    if CleanField(f) {
      NoWs("," + more);
      FieldsMore(text, f, "," + more, more);
    }
  }

  lemma SplitCleanFields(fs: seq<Field>)
    requires fs != []
    ensures fs == [fs[0]] + fs[1..] && (AllCleanFields(fs) <==> CleanField(fs[0]) && AllCleanFields(fs[1..]))
  {
    assert forall i :: 1 <= i < |fs| ==> fs[i] == fs[1..][i - 1];
  }

  /** ParseFields does not depend on the white space before the first name. */
  lemma FieldsSkip(text: string)
    ensures ParseFields(SkipWs(text)) == ParseFields(text)
  {
    SkipTwice(text);
    assert ParseField(SkipWs(text)) == ParseField(text);
  }

  lemma ObjReads(fs: seq<Field>, pretty: bool, depth: nat, rest: string)
    requires fs != []
    requires FieldsReadAs(fs, FieldsDoc(fs, pretty, depth + 1) + Closing(pretty, depth, '}', rest), rest)
    ensures Reads(Obj(fs), pretty, depth, rest)
  {
    var v := Obj(fs);
    var inner := FieldsDoc(fs, pretty, depth + 1) + Closing(pretty, depth, '}', rest);
    assert Doc(v, pretty, depth) + rest == "{" + inner;
    FieldsSkip(inner);
    FieldsStart(fs, pretty, depth + 1, Closing(pretty, depth, '}', rest));
    ObjectStep(inner);
    assert Clean(v) <==> AllCleanFields(fs);
  }

  lemma FieldsStart(fs: seq<Field>, pretty: bool, depth: nat, more: string)
    requires fs != []
    ensures SkipWs(FieldsDoc(fs, pretty, depth) + more) != "" && SkipWs(FieldsDoc(fs, pretty, depth) + more)[0] == '\"'
  {
    var tail := if |fs| == 1 then "" else "," + FieldsDoc(fs[1..], pretty, depth);
    assert FieldsDoc(fs, pretty, depth) + more == FieldDoc(fs[0], pretty, depth) + (tail + more);
    FieldSkips(fs[0], pretty, depth, tail + more);
  }

  // ---------- writing values ----------

  /** The writer after a value. */
  function Wrote(w: State, v: Value): State {
    State(w.out + Comma(w.sep) + Doc(v, w.pretty, w.depth), w.depth, w.pretty, ',')
  }

  /** The writer after some elements or some fields. */
  function WroteElems(w: State, es: seq<Value>): State {
    if es == [] then w else State(w.out + Comma(w.sep) + ElemsDoc(es, w.pretty, w.depth), w.depth, w.pretty, ',')
  }

  function WroteFields(w: State, fs: seq<Field>): State {
    if fs == [] then w else State(w.out + Comma(w.sep) + FieldsDoc(fs, w.pretty, w.depth), w.depth, w.pretty, ',')
  }

  lemma WroteCons(w: State, es: seq<Value>)
    requires es != []
    ensures WroteElems(Wrote(w, es[0]), es[1..]) == WroteElems(w, es)
  {
    if |es| > 1 {
      ConsDoc(es, w.pretty, w.depth, "");
    }
  }

  /** A name and its value. */
  lemma WroteField(w: State, f: Field)
    ensures Wrote(Step(w, Name(f.name)), f.value) ==
      State(w.out + Comma(w.sep) + FieldDoc(f, w.pretty, w.depth), w.depth, w.pretty, ',')
  {
    var pre, eol, quoted := w.out + Comma(w.sep), Eol(w.pretty, w.depth), Quote(f.name);
    var space, doc := if w.pretty then " " else "", Doc(f.value, w.pretty, w.depth);
    assert (pre + eol + quoted + ":" + space) + "" + doc == pre + (eol + quoted + ":" + space + doc);
  }

  lemma WroteConsFields(w: State, fs: seq<Field>)
    requires fs != []
    ensures WroteFields(Wrote(Step(w, Name(fs[0].name)), fs[0].value), fs[1..]) == WroteFields(w, fs)
  {
    WroteField(w, fs[0]);
    var pre, first := w.out + Comma(w.sep), FieldDoc(fs[0], w.pretty, w.depth);
    if |fs| > 1 {
      var rest := FieldsDoc(fs[1..], w.pretty, w.depth);
      assert FieldsDoc(fs, w.pretty, w.depth) == first + ("," + rest);
      assert (pre + first) + "," + rest == pre + (first + ("," + rest));
    } else {
      assert FieldsDoc(fs, w.pretty, w.depth) == first;
    }
  }

  lemma WroteArr(w: State, es: seq<Value>)
    ensures Step(WroteElems(Step(w, Begin('[')), es), End(']')) == Wrote(w, Arr(es))
  {
    var pre := w.out + Comma(w.sep);
    if es == [] {
      assert (pre + "[") + "" + "]" == pre + ("[" + "" + "" + "]");
    } else {
      var inner, eol := ElemsDoc(es, w.pretty, w.depth + 1), Eol(w.pretty, w.depth);
      assert (pre + "[") + "" + inner + eol + "]" == pre + ("[" + inner + eol + "]");
    }
  }

  lemma WroteObj(w: State, fs: seq<Field>)
    ensures Step(WroteFields(Step(w, Begin('{')), fs), End('}')) == Wrote(w, Obj(fs))
  {
    var pre := w.out + Comma(w.sep);
    if fs == [] {
      assert (pre + "{") + "" + "}" == pre + ("{" + "" + "" + "}");
    } else {
      var inner, eol := FieldsDoc(fs, w.pretty, w.depth + 1), Eol(w.pretty, w.depth);
      assert (pre + "{") + "" + inner + eol + "}" == pre + ("{" + inner + eol + "}");
    }
  }

  /** The calls for a value, in their natural order. */
  method Write(w: Writer, v: Value)
    modifies w
    ensures w.View() == Wrote(old(w.View()), v)
    decreases v, 1
  {
    match v
    case Null => w.WriteScalar("null");
    case Bool(b) => w.WriteScalar(if b then "true" else "false");
    case Num(n) => w.WriteScalar(IntText(n));
    case Str(s) => w.WriteString(s);
    case Arr(es) =>
      w.BeginBlock('[');
      WriteElems(w, es);
      w.EndBlock(']');
      WroteArr(old(w.View()), es);
    case Obj(fs) =>
      w.BeginBlock('{');
      WriteFields(w, fs);
      w.EndBlock('}');
      WroteObj(old(w.View()), fs);
  }

  method WriteElems(w: Writer, es: seq<Value>)
    modifies w
    ensures w.View() == WroteElems(old(w.View()), es)
    decreases es, 0
  {
    ghost var start := w.View();
    for i := 0 to |es|
      invariant WroteElems(w.View(), es[i..]) == WroteElems(start, es)
    {
      WroteCons(w.View(), es[i..]);
      assert es[i..][1..] == es[i + 1..];
      Write(w, es[i]);
    }
  }

  method WriteFields(w: Writer, fs: seq<Field>)
    modifies w
    ensures w.View() == WroteFields(old(w.View()), fs)
    decreases fs, 0
  {
    ghost var start := w.View();
    for i := 0 to |fs|
      invariant WroteFields(w.View(), fs[i..]) == WroteFields(start, fs)
    {
      WroteConsFields(w.View(), fs[i..]);
      assert fs[i..][1..] == fs[i + 1..];
      w.WriteName(fs[i].name);
      Write(w, fs[i].value);
    }
  }

  /** A fresh writer, one value, and the line feed of jsonw_destroy: the text parses to the value
      written if the strings are clean, and does not parse at all otherwise. */
  method WriteDocument(v: Value, pretty: bool) returns (text: string)
    ensures Parse(text) == if Clean(v) then Some(v) else None
  {
    var w := new Writer(pretty);
    Write(w, v);
    w.Put("\n");
    text := w.out;
    assert text == Doc(v, pretty, 0) + "\n";
    ValueReads(v, pretty, 0, "\n");
    SkipOne('\n', "");
    assert ['\n'] + "" == "\n";
  }
}
