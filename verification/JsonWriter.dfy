/**
  The streaming JSON writer: every call appends to the output, and one separator
  byte and a depth counter are all it remembers.
 */
module JsonWriter {

  /** A call of the writer.  `Begin` and `End` carry the bracket; `Scalar` carries the text that
      the value writers print for numbers, booleans and null. */
  datatype Call = Begin(open: char) | End(close: char) | Name(name: cstring) | Text(value: cstring) | Scalar(text: string)

  const NONE: char := '\0'

  /** A C string ends at its first NUL character, so it holds none. */
  type cstring = s: string | NONE !in s witness ""

  /** The fields of `struct json_writer`; `out` is everything written so far. */
  datatype State = State(out: string, depth: nat, pretty: bool, sep: char)

  function Indent(depth: nat): string { if depth == 0 then "" else Indent(depth - 1) + "    " }

  /** jsonw_eol */
  function Eol(pretty: bool, depth: nat): string { if pretty then "\n" + Indent(depth) else "" }

  /** What jsonw_eor prints. */
  function Comma(sep: char): string { if sep != NONE then [sep] else "" }

  function EscapeChar(c: char): string {
    if c == '\t' then "\\t"
    else if c == '\n' then "\\n"
    else if c == '\r' then "\\r"
    else if c == 12 as char then "\\f"
    else if c == 8 as char then "\\b"
    else if c == '\\' then "\\\\"
    else if c == '\"' then "\\\""
    else [c]
  }

  function Escape(s: string): string { if s == "" then "" else EscapeChar(s[0]) + Escape(s[1..]) }

  lemma Assoc(a: string, b: string, c: string)
    ensures (a + b) + c == a + (b + c)
  {
  }

  lemma {:induction false} EscapeSnoc(s: string, c: char)
    ensures Escape(s + [c]) == Escape(s) + EscapeChar(c)
  {
    if s == "" {
      assert s + [c] == [c] && [c][1..] == "";
    } else {
      EscapeSnoc(s[1..], c);
      assert (s + [c])[1..] == s[1..] + [c];
      Assoc(EscapeChar(s[0]), Escape(s[1..]), EscapeChar(c));
    }
  }

  lemma EscapeNext(before: string, s: string, i: nat)
    requires i < |s|
    ensures before + ("\"" + Escape(s[..i])) + EscapeChar(s[i]) == before + ("\"" + Escape(s[..i + 1]))
  {
    EscapeSnoc(s[..i], s[i]);
    assert s[..i] + [s[i]] == s[..i + 1];
    hide Escape;
    hide EscapeChar;
    Assoc(before, "\"" + Escape(s[..i]), EscapeChar(s[i]));
    Assoc("\"", Escape(s[..i]), EscapeChar(s[i]));
  }

  /** What jsonw_puts prints. */
  function Quote(s: string): string { "\"" + Escape(s) + "\"" }

  /** The effect of a call on the writer. */
  function Step(w: State, c: Call): State
    requires c.End? ==> w.depth > 0
  {
    match c
    case Begin(b) => State(w.out + Comma(w.sep) + [b], w.depth + 1, w.pretty, NONE)
    case End(b) =>
      State(w.out + (if w.sep != NONE then Eol(w.pretty, w.depth - 1) else "") + [b], w.depth - 1, w.pretty, ',')
    case Name(s) =>
      State(w.out + Comma(w.sep) + Eol(w.pretty, w.depth) + Quote(s) + ":" + (if w.pretty then " " else ""),
            w.depth, w.pretty, NONE)
    case Text(s) => State(w.out + Comma(w.sep) + Quote(s), w.depth, w.pretty, ',')
    case Scalar(s) => State(w.out + Comma(w.sep) + s, w.depth, w.pretty, ',')
  }

  class Writer {
    var out: string
    var depth: nat
    var pretty: bool
    var sep: char

    /** jsonw_new and jsonw_pretty */
    constructor (pretty: bool)
      ensures View() == State("", 0, pretty, NONE)
    {
      out, depth, this.pretty, sep := "", 0, pretty, NONE;
    }

    function View(): State
      reads this
    {
      State(out, depth, pretty, sep)
    }

    method Put(s: string)
      modifies this`out
      ensures out == old(out) + s
    {
      out := out + s;
    }

    /** jsonw_eol with jsonw_indent */
    method EndOfLine()
      modifies this`out
      ensures out == old(out) + Eol(pretty, depth)
    {
      if !pretty {
        return;
      }
      Put("\n");
      for i := 0 to depth
        invariant out == old(out) + ("\n" + Indent(i))
      {
        Put("    ");
      }
    }

    /** jsonw_eor */
    method EndOfRecord()
      modifies this`out, this`sep
      ensures out == old(out) + Comma(old(sep)) && sep == ','
    {
      if sep != NONE {
        Put([sep]);
      }
      sep := ',';
    }

    /** jsonw_puts */
    method PutString(s: cstring)
      modifies this`out
      ensures out == old(out) + Quote(s)
    {
      hide EscapeChar;
      Put("\"");
      var i := 0;
      while i < |s|
        invariant 0 <= i <= |s|
        invariant out == old(out) + ("\"" + Escape(s[..i]))
      {
        EscapeNext(old(out), s, i);
        Put(EscapeChar(s[i]));
        i := i + 1;
      }
      assert s[..i] == s;
      Assoc(old(out), "\"" + Escape(s), "\"");
      Put("\"");
    }

    /** jsonw_begin */
    method BeginBlock(c: char)
      modifies this
      ensures View() == Step(old(View()), Begin(c))
    {
      EndOfRecord();
      Put([c]);
      depth := depth + 1;
      sep := NONE;
    }

    /** jsonw_end */
    method EndBlock(c: char)
      requires depth > 0
      modifies this
      ensures View() == Step(old(View()), End(c))
    {
      depth := depth - 1;
      if sep != NONE {
        EndOfLine();
      }
      Put([c]);
      sep := ',';
    }

    /** jsonw_name */
    method WriteName(name: cstring)
      modifies this
      ensures View() == Step(old(View()), Name(name))
    {
      EndOfRecord();
      EndOfLine();
      sep := NONE;
      PutString(name);
      Put(":");
      if pretty {
        Put(" ");
      }
    }

    /** jsonw_string */
    method WriteString(s: cstring)
      modifies this
      ensures View() == Step(old(View()), Text(s))
    {
      EndOfRecord();
      PutString(s);
    }

    /** jsonw_printf with the text of a number, a boolean or null */
    method WriteScalar(s: string)
      modifies this
      ensures View() == Step(old(View()), Scalar(s))
    {
      EndOfRecord();
      Put(s);
    }
  }

  // ---------- one byte stands for a stack ----------

  /** A writer that remembers, for every open block, whether it has elements, and whether a name is
      waiting for its value. */
  datatype Stacked = Stacked(out: string, pretty: bool, filled: seq<bool>, named: bool)

  function Top(r: Stacked): bool { r.filled != [] && r.filled[|r.filled| - 1] }

  /** A comma is due before an element of a non-empty block, but not between a name and its value. */
  function Due(r: Stacked): string { if !r.named && Top(r) then "," else "" }

  function Fill(filled: seq<bool>): seq<bool> { if filled == [] then [] else filled[..|filled| - 1] + [true] }

  function StackedStep(r: Stacked, c: Call): Stacked
    requires r.filled != [] && (c.End? ==> |r.filled| > 1)
  {
    match c
    case Begin(b) => Stacked(r.out + Due(r) + [b], r.pretty, Fill(r.filled) + [false], false)
    case End(b) =>
      var outer := r.filled[..|r.filled| - 1];
      Stacked(r.out + (if Due(r) != "" then Eol(r.pretty, |outer| - 1) else "") + [b], r.pretty, outer, false)
    case Name(s) =>
      Stacked(r.out + Due(r) + Eol(r.pretty, |r.filled| - 1) + Quote(s) + ":" + (if r.pretty then " " else ""),
              r.pretty, Fill(r.filled), true)
    case Text(s) => Stacked(r.out + Due(r) + Quote(s), r.pretty, Fill(r.filled), false)
    case Scalar(s) => Stacked(r.out + Due(r) + s, r.pretty, Fill(r.filled), false)
  }

  /** Blocks are only closed when open. */
  predicate Balanced(calls: seq<Call>, depth: nat)
    decreases |calls|
  {
    calls == [] ||
    match calls[0]
    case Begin(_) => Balanced(calls[1..], depth + 1)
    case End(_) => depth > 0 && Balanced(calls[1..], depth - 1)
    case _ => Balanced(calls[1..], depth)
  }

  function Run(w: State, calls: seq<Call>): State
    requires Balanced(calls, w.depth)
    decreases |calls|
  {
    if calls == [] then w else Run(Step(w, calls[0]), calls[1..])
  }

  function StackedRun(r: Stacked, calls: seq<Call>): Stacked
    requires r.filled != [] && Balanced(calls, |r.filled| - 1)
    decreases |calls|
  {
    if calls == [] then r else StackedRun(StackedStep(r, calls[0]), calls[1..])
  }

  /** The separator byte is the top of the stack, hidden while a name waits; below the top every
      block has the element that is open inside it. */
  ghost predicate Agrees(w: State, r: Stacked) {
    && w.out == r.out && w.pretty == r.pretty && w.depth + 1 == |r.filled|
    && w.sep == (if !r.named && Top(r) then ',' else NONE)
    && forall i :: 0 <= i < |r.filled| - 1 ==> r.filled[i]
  }

  lemma {:induction false} SepIsStack(w: State, r: Stacked, calls: seq<Call>)
    requires Agrees(w, r) && Balanced(calls, w.depth)
    ensures Agrees(Run(w, calls), StackedRun(r, calls))
    decreases |calls|
  {
    if calls != [] {
      SepIsStackStep(w, r, calls[0]);
      SepIsStack(Step(w, calls[0]), StackedStep(r, calls[0]), calls[1..]);
    }
  }

  lemma SepIsStackStep(w: State, r: Stacked, c: Call)
    requires Agrees(w, r) && (c.End? ==> w.depth > 0)
    ensures Agrees(Step(w, c), StackedStep(r, c))
  {
  }

  // ---------- the layout ----------

  /** The number of blocks that are open after the calls. */
  function Opened(calls: seq<Call>, depth: nat): nat
    requires Balanced(calls, depth)
    decreases |calls|
  {
    if calls == [] then depth
    else Opened(calls[1..], if calls[0].Begin? then depth + 1 else if calls[0].End? then depth - 1 else depth)
  }

  lemma {:induction false} RunLast(w: State, calls: seq<Call>, c: Call)
    requires Balanced(calls, w.depth) && (c.End? ==> Opened(calls, w.depth) > 0)
    ensures Run(w, calls).depth == Opened(calls, w.depth) && Run(w, calls).pretty == w.pretty
    ensures Balanced(calls + [c], w.depth) && Run(w, calls + [c]) == Step(Run(w, calls), c)
    decreases |calls|
  {
    if calls == [] {
      assert calls + [c] == [c] && [c][1..] == [];
    } else {
      assert (calls + [c])[0] == calls[0] && (calls + [c])[1..] == calls[1..] + [c];
      RunLast(Step(w, calls[0]), calls[1..], c);
    }
  }

  function Spaces(n: nat): string { seq(n, _ => ' ') }

  lemma {:induction false} IndentIs(depth: nat)
    ensures Indent(depth) == Spaces(4 * depth)
  {
    if depth > 0 {
      IndentIs(depth - 1);
    }
  }

  predicate EndsWith(s: string, suffix: string) { |suffix| <= |s| && s[|s| - |suffix|..] == suffix }

  lemma EndsWithSuffix(a: string, b: string)
    ensures EndsWith(a + b, b)
  {
  }

  /** After any calls, a name is written on a line of its own, four spaces in for every open block, and followed by
      a space; without pretty printing it follows what is there directly. */
  lemma NameOnItsLine(w: State, calls: seq<Call>, s: cstring)
    requires Balanced(calls, w.depth)
    ensures Balanced(calls + [Name(s)], w.depth)
    ensures
      var out := Run(w, calls + [Name(s)]).out;
      if w.pretty then EndsWith(out, "\n" + Spaces(4 * Opened(calls, w.depth)) + Quote(s) + ": ")
      else EndsWith(out, Quote(s) + ":") && |out| <= |Run(w, calls).out| + 1 + |Quote(s)| + 1
  {
    RunLast(w, calls, Name(s));
    var before := Run(w, calls);
    NameStep(before, s);
    hide Run;
    hide Step;
    hide Quote;
    var lead, tail := before.out + Comma(before.sep), NameText(w.pretty, before.depth, s);
    EndsWithSuffix(lead, tail);
    hide EndsWith;
  }

  function NameText(pretty: bool, depth: nat, s: string): string {
    if pretty then "\n" + Spaces(4 * depth) + Quote(s) + ": " else Quote(s) + ":"
  }

  lemma NameStep(w: State, s: cstring)
    ensures Step(w, Name(s)).out == w.out + Comma(w.sep) + NameText(w.pretty, w.depth, s)
  {
    hide Quote;
    hide Comma;
    IndentIs(w.depth);
    var lead, line, q := w.out + Comma(w.sep), Eol(w.pretty, w.depth), Quote(s);
    if w.pretty {
      Assoc(lead, line, q);
      Assoc(lead, line + q, ":");
      Assoc(lead, line + q + ":", " ");
      Assoc(line + q, ":", " ");
      assert ":" + " " == ": ";
    } else {
      assert lead + "" == lead;
      Assoc(lead, q, ":");
      assert lead + (q + ":") + "" == lead + (q + ":");
    }
  }

  /** The bracket that closes a block with elements is on a line of its own, as far in as the line that opened it. */
  lemma CloseOnItsLine(w: State, calls: seq<Call>, close: char)
    requires Balanced(calls, w.depth) && Opened(calls, w.depth) > 0
    ensures Balanced(calls + [End(close)], w.depth)
    ensures w.pretty && Run(w, calls).sep != NONE ==>
      EndsWith(Run(w, calls + [End(close)]).out, "\n" + Spaces(4 * (Opened(calls, w.depth) - 1)) + [close])
    ensures !w.pretty || Run(w, calls).sep == NONE ==> Run(w, calls + [End(close)]).out == Run(w, calls).out + [close]
  {
    RunLast(w, calls, End(close));
    var before := Run(w, calls);
    IndentIs(before.depth - 1);
    hide Run;
    if w.pretty && before.sep != NONE {
      var tail := "\n" + Spaces(4 * (before.depth - 1)) + [close];
      assert Step(before, End(close)).out == before.out + tail;
      EndsWithSuffix(before.out, tail);
    } else {
      assert before.out + "" == before.out;
    }
  }

  /** Only these seven characters are escaped, each by a backslash and one character. */
  lemma EscapedCharacters(c: char)
    ensures c as int in {8, 9, 10, 12, 13, 34, 92} ==> |EscapeChar(c)| == 2 && EscapeChar(c)[0] == '\\'
    ensures c as int !in {8, 9, 10, 12, 13, 34, 92} ==> EscapeChar(c) == [c]
  {
  }
}
