/**
 The streaming JSON writer: every call updates a nesting depth and a pending separator and appends to
 the output.  `Writer` and `Step` state what one call does; `JsonWriter` is the object that does it.
 */
module JsonWriter {
  import opened Wrappers

  // ---------- One call at a time ----------

  datatype Writer = Writer(out: string, depth: nat, pretty: bool, sep: char)

  const NUL: char := '\0'

  const FRESH := Writer("", 0, false, NUL)

  /** The calls of the interface.  `Printf` carries text that is already formatted (numbers, literals);
      `Enquote` is the printf variant that adds quotes without escaping. */
  datatype Call =
    | Start(open: char) | End(close: char)
    | Name(name: string) | String(value: string)
    | Printf(text: string) | Enquote(text: string)
    | Pretty(on: bool) | Reset

  function Indent(depth: nat): string {
    if depth == 0 then "" else Indent(depth - 1) + "    "
  }

  /** Four blanks for each level, and nothing else. */
  lemma {:induction false} IndentExactly(depth: nat)
    ensures |Indent(depth)| == 4 * depth && forall i :: 0 <= i < |Indent(depth)| ==> Indent(depth)[i] == ' '
  {
    if depth > 0 {
      IndentExactly(depth - 1);
    }
  }

  /** End of line, when pretty printing. */
  function Eol(pretty: bool, depth: nat): string {
    if pretty then "\n" + Indent(depth) else ""
  }

  function Colon(pretty: bool): string {
    if pretty then ": " else ":"
  }

  /** The separator that is due before the next element. */
  function Sep(w: Writer): string {
    if w.sep == NUL then "" else [w.sep]
  }

  function EscapeChar(c: char): string {
    match c
    case '\t' => "\\t"
    case '\n' => "\\n"
    case '\r' => "\\r"
    case '\\' => "\\\\"
    case '"' => "\\\""
    case _ =>
      if c == FF then "\\f" else if c == BS then "\\b" else [c]
  }

  const FF: char := 12 as char
  const BS: char := 8 as char

  const SPECIAL: string := ['\t', '\n', '\r', FF, BS, '\\', '"']

  /** Seven characters are escaped, each by its letter, and all others stand for themselves, `/` among them. */
  lemma EscapesExactly(c: char)
    ensures forall i :: 0 <= i < |SPECIAL| ==> EscapeChar(SPECIAL[i]) == ['\\', "tnrfb\\\""[i]]
    ensures c !in SPECIAL ==> EscapeChar(c) == [c]
  {
    if c !in SPECIAL {
      assert SPECIAL[0] != c && SPECIAL[1] != c && SPECIAL[2] != c && SPECIAL[3] != c;
      assert SPECIAL[4] != c && SPECIAL[5] != c && SPECIAL[6] != c;
    }
  }

  function Escape(s: string): string {
    if s == "" then "" else Escape(s[..|s| - 1]) + EscapeChar(s[|s| - 1])
  }

  function Quote(s: string): string {
    "\"" + Escape(s) + "\""
  }

  /** The text that a call appends to the output. */
  function Appended(w: Writer, c: Call): string {
    match c
    case Start(open) => Sep(w) + [open]
    case End(close) => (if w.sep != NUL && w.depth > 0 then Eol(w.pretty, w.depth - 1) else "") + [close]
    case Name(name) => Sep(w) + (Eol(w.pretty, w.depth) + Quote(name) + Colon(w.pretty))
    case String(value) => Sep(w) + Quote(value)
    case Printf(text) => Sep(w) + text
    case Enquote(text) => Sep(w) + ("\"" + text + "\"")
    case Pretty(_) => ""
    case Reset => ""
  }

  lemma FirstIndents()
    ensures "\n" + Indent(1) == "\n    " && "\n" + Indent(2) == "\n        "
  {
    assert Indent(1) == "    " && Indent(2) == "        ";
  }

  /** Names as the source's self-test prints them, pretty, in the outer object, whose first member has nothing before
      it, and in that member's value. */
  lemma NamePrints(o: string, name: string)
    ensures Appended(Writer(o, 1, true, NUL), Name(name)) == "\n    " + Quote(name) + ": "
    ensures Appended(Writer(o, 2, true, ','), Name(name)) == ",\n        " + Quote(name) + ": "
  {
    FirstIndents();
    assert "" + ("\n    " + Quote(name) + ": ") == "\n    " + Quote(name) + ": ";
    assert "," + ("\n        " + Quote(name) + ": ") == ",\n        " + Quote(name) + ": ";
  }

  lemma CompactPrints(o: string, name: string)
    ensures Appended(Writer(o, 1, false, ','), Name(name)) == "," + Quote(name) + ":"
    ensures Appended(Writer(o, 1, false, ','), End('}')) == "}"
  {
    assert "," + ("" + Quote(name) + ":") == "," + Quote(name) + ":";
  }

  /** Values are printed behind the comma that is due, formatted text as it is or between quotes. */
  lemma ValuePrints(o: string, pretty: bool, text: string)
    ensures Appended(Writer(o, 1, pretty, ','), Printf(text)) == "," + text
    ensures Appended(Writer(o, 1, pretty, ','), Enquote(text)) == ",\"" + text + "\""
    ensures Appended(Writer(o, 1, pretty, NUL), String(text)) == "\"" + Escape(text) + "\""
  {
    CommaQuoted(text);
    assert "" + Quote(text) == Quote(text);
  }

  lemma CommaQuoted(text: string)
    ensures "," + ("\"" + text + "\"") == ",\"" + text + "\""
  {
    assert "," + "\"" == ",\"";
  }

  /** A closing bracket is on a line of its own, unless there is nothing between the brackets. */
  lemma ClosePrints(o: string)
    ensures Appended(Writer(o, 2, true, ','), End('}')) == "\n    }"
    ensures Appended(Writer(o, 3, true, NUL), End(']')) == "]"
  {
    FirstIndents();
    assert "\n    " + ['}'] == "\n    }";
  }

  /** The assertions of the source: an end needs a beginning, and a reset only makes sense at the top. */
  predicate Allowed(depth: nat, c: Call) {
    (c.End? ==> depth > 0) && (c.Reset? ==> depth == 0)
  }

  function DepthAfter(depth: nat, c: Call): nat
    requires Allowed(depth, c)
  {
    if c.Start? then depth + 1 else if c.End? then depth - 1 else depth
  }

  /** Nothing is due after an opening or a name; a comma is due after a finished element. */
  function SepAfter(sep: char, c: Call): char {
    if c.Start? || c.Name? || c.Reset? then NUL else if c.Pretty? then sep else ','
  }

  /** One call; None where an assertion in the source stops the program. */
  function Step(w: Writer, c: Call): Option<Writer> {
    if !Allowed(w.depth, c) then None
    else Some(Writer(w.out + Appended(w, c), DepthAfter(w.depth, c),
                if c.Pretty? then c.on else w.pretty, SepAfter(w.sep, c)))
  }

  function Run(w: Writer, calls: seq<Call>): Option<Writer>
    decreases |calls|
  {
    if calls == [] then Some(w)
    else match Step(w, calls[0])
      case None => None
      case Some(w') => Run(w', calls[1..])
  }

  lemma {:induction false} RunConcat(w: Writer, a: seq<Call>, b: seq<Call>)
    ensures Run(w, a + b) == match Run(w, a) case None => None case Some(w') => Run(w', b)
    decreases |a|
  {
    if a == [] {
      assert a + b == b;
    } else {
      assert (a + b)[1..] == a[1..] + b;
      match Step(w, a[0])
      case None =>
      case Some(w') => RunConcat(w', a[1..], b);
    }
  }

  // ---------- The object ----------

  lemma Regroup(o: string, s: string, a: string, b: string, c: string, d: string)
    ensures o + s + a + b + c + d == o + (s + (a + b + (c + d)))
    ensures o + s + a + b + c + "" == o + s + a + b + c
    ensures o + (s + (a + b + (c + ""))) == o + (s + (a + b + c))
  {
  }

  class JsonWriter {
    var out: string
    var depth: nat
    var pretty: bool
    var sep: char

    ghost function State(): Writer
      reads this
    {
      Writer(out, depth, pretty, sep)
    }

    constructor ()
      ensures State() == FRESH
    {
      out, depth, pretty, sep := "", 0, false, NUL;
    }

    method PutIndent()
      modifies this`out
      ensures out == old(out) + Indent(depth)
    {
      for i := 0 to depth
        invariant out == old(out) + Indent(i)
      {
        out := out + "    ";
        assert old(out) + Indent(i) + "    " == old(out) + Indent(i + 1);
      }
    }

    method PutEol()
      modifies this`out
      ensures out == old(out) + Eol(pretty, depth)
    {
      if !pretty {
        return;
      }
      out := out + "\n";
      PutIndent();
      assert out == old(out) + Eol(pretty, depth);
    }

    method PutEor()
      modifies this`out, this`sep
      ensures out == old(out) + Sep(old(State())) && sep == ','
    {
      if sep != NUL {
        out := out + [sep];
      }
      sep := ',';
    }

    method Puts(str: string)
      modifies this`out
      ensures out == old(out) + Quote(str)
    {
      out := out + "\"";
      for i := 0 to |str|
        invariant out == old(out) + ("\"" + Escape(str[..i]))
      {
        assert str[..i + 1][..i] == str[..i];
        assert old(out) + ("\"" + Escape(str[..i])) + EscapeChar(str[i]) == old(out) + ("\"" + Escape(str[..i + 1]));
        match str[i]
        case '\t' => out := out + "\\t";
        case '\n' => out := out + "\\n";
        case '\r' => out := out + "\\r";
        case '\\' => out := out + "\\\\";
        case '"' => out := out + "\\\"";
        case _ =>
          if str[i] == FF {
            out := out + "\\f";
          } else if str[i] == BS {
            out := out + "\\b";
          } else {
            out := out + [str[i]];
          }
      }
      assert str[..|str|] == str;
      out := out + "\"";
      assert out == old(out) + Quote(str);
    }

    method SetPretty(on: bool)
      modifies this
      ensures Step(old(State()), Pretty(on)) == Some(State())
      ensures pretty == on && sep == old(sep) && out == old(out)
    {
      pretty := on;
      assert out == out + "";
    }

    method ResetSep()
      requires depth == 0
      modifies this
      ensures Step(old(State()), Reset) == Some(State())
      ensures sep == NUL && pretty == old(pretty) && out == old(out)
    {
      sep := NUL;
      assert out == out + "";
    }

    method Begin(c: char)
      modifies this
      ensures Step(old(State()), Start(c)) == Some(State())
    {
      PutEor();
      out := out + [c];
      depth := depth + 1;
      sep := NUL;
      assert out == old(out) + (Sep(old(State())) + [c]);
    }

    method Finish(c: char)
      requires depth > 0
      modifies this
      ensures Step(old(State()), End(c)) == Some(State())
    {
      depth := depth - 1;
      if sep != NUL {
        PutEol();
      }
      out := out + [c];
      sep := ',';
      assert out == old(out) + Appended(old(State()), End(c));
    }

    method PutName(name: string)
      modifies this
      ensures Step(old(State()), Name(name)) == Some(State())
    {
      ghost var w := State();
      PutEor();
      PutEol();
      sep := NUL;
      Puts(name);
      out := out + ":";
      if pretty {
        out := out + " ";
        assert Colon(true) == ":" + " ";
      }
      Regroup(w.out, Sep(w), Eol(w.pretty, w.depth), Quote(name), ":", if pretty then " " else "");
    }

    method PutString(value: string)
      modifies this
      ensures Step(old(State()), String(value)) == Some(State())
    {
      PutEor();
      Puts(value);
      assert out == old(out) + Appended(old(State()), String(value));
    }

    method PutFormatted(text: string)
      modifies this
      ensures Step(old(State()), Printf(text)) == Some(State())
    {
      PutEor();
      out := out + text;
      assert out == old(out) + Appended(old(State()), Printf(text));
    }

    method PutEnquoted(text: string)
      modifies this
      ensures Step(old(State()), Enquote(text)) == Some(State())
    {
      PutEor();
      out := out + "\"";
      out := out + text;
      out := out + "\"";
      assert out == old(out) + Appended(old(State()), Enquote(text));
    }

    method PutBool(val: bool)
      modifies this
      ensures Step(old(State()), Printf(if val then "true" else "false")) == Some(State())
    {
      PutFormatted(if val then "true" else "false");
    }

    method PutStringField(prop: string, val: string)
      modifies this
      ensures Run(old(State()), [Name(prop), String(val)]) == Some(State())
    {
      ghost var w := State();
      assert [Name(prop), String(val)][1..] == [String(val)] && [String(val)][1..] == [];
      PutName(prop);
      ghost var w1 := State();
      PutString(val);
      assert Run(w1, [String(val)]) == Some(State());
    }

    /** `jsonw_destroy`: checks the nesting and ends the text with a newline. */
    method Destroy() returns (text: string)
      requires depth == 0
      ensures text == out + "\n"
    {
      text := out + "\n";
    }
  }
}
