/**
 Pretty printing changes only whitespace: two writers given the same calls, whatever their pretty flags, agree on
 depth and separator, and on every character that is not whitespace between tokens exactly if no line that only one
 of them breaks is broken inside a string literal.
 */
module JsonPretty {
  import opened Wrappers
  import opened JsonWriter
  import opened JsonText
  import opened JsonParse

  // ---------- Removing whitespace outside string literals ----------

  datatype Mode = Outside | Inside | Escaped

  function Next(m: Mode, c: char): Mode {
    match m
    case Outside => if c == '"' then Inside else Outside
    case Inside => if c == '"' then Outside else if c == '\\' then Escaped else Inside
    case Escaped => Inside
  }

  /** The mode after scanning s. */
  function Scan(m: Mode, s: string): Mode {
    if s == "" then m else Next(Scan(m, s[..|s| - 1]), s[|s| - 1])
  }

  /** s without the whitespace that stands outside string literals, scanned from mode m. */
  function Strip(m: Mode, s: string): string {
    if s == "" then ""
    else
      var c := s[|s| - 1];
      Strip(m, s[..|s| - 1]) + (if Scan(m, s[..|s| - 1]) == Outside && IsWs(c) then "" else [c])
  }

  lemma {:induction false} StripConcat(m: Mode, a: string, b: string)
    ensures Scan(m, a + b) == Scan(Scan(m, a), b)
    ensures Strip(m, a + b) == Strip(m, a) + Strip(Scan(m, a), b)
  {
    if b == "" {
      assert a + b == a;
    } else {
      assert (a + b)[..|a + b| - 1] == a + b[..|b| - 1];
      StripConcat(m, a, b[..|b| - 1]);
    }
  }

  /** Text that is all whitespace disappears; text with none outside strings is kept. */
  lemma {:induction false} StripsWs(s: string)
    requires forall i :: 0 <= i < |s| ==> IsWs(s[i])
    ensures Scan(Outside, s) == Outside && Strip(Outside, s) == ""
  {
    if s != "" {
      StripsWs(s[..|s| - 1]);
    }
  }

  lemma {:induction false} EscapeStays(s: string)
    ensures Scan(Inside, Escape(s)) == Inside && Strip(Inside, Escape(s)) == Escape(s)
  {
    if s != "" {
      var t, e := s[..|s| - 1], EscapeChar(s[|s| - 1]);
      EscapeStays(t);
      StripConcat(Inside, Escape(t), e);
      CharStays(s[|s| - 1]);
    }
  }

  lemma CharStays(c: char)
    ensures Scan(Inside, EscapeChar(c)) == Inside && Strip(Inside, EscapeChar(c)) == EscapeChar(c)
  {
    var e := EscapeChar(c);
    assert (|e| == 1 && e[0] != '"' && e[0] != '\\') || (|e| == 2 && e[0] == '\\');
    ScanPair(e);
  }

  lemma ScanPair(e: string)
    requires (|e| == 1 && e[0] != '"' && e[0] != '\\') || (|e| == 2 && e[0] == '\\')
    ensures Scan(Inside, e) == Inside && Strip(Inside, e) == e
  {
    OneCharScan(Inside, e[0]);
    if |e| == 2 {
      ScanEscape(e[1]);
      assert e == [e[0]] + [e[1]];
    } else {
      assert e == [e[0]];
    }
  }

  lemma ScanEscape(c: char)
    ensures Scan(Inside, "\\" + [c]) == Inside && Strip(Inside, "\\" + [c]) == "\\" + [c]
  {
    OneCharScan(Inside, '\\');
    OneCharScan(Escaped, c);
    StripConcat(Inside, "\\", [c]);
  }

  lemma OneCharScan(m: Mode, c: char)
    ensures Scan(m, [c]) == Next(m, c)
    ensures Strip(m, [c]) == if m == Outside && IsWs(c) then "" else [c]
  {
  }

  /** A quoted string is scanned as one unit and kept whole. */
  lemma QuoteStays(s: string)
    ensures Scan(Outside, Quote(s)) == Outside && Strip(Outside, Quote(s)) == Quote(s)
  {
    EscapeStays(s);
    OneCharScan(Outside, '"');
    OneCharScan(Inside, '"');
    StripConcat(Outside, "\"", Escape(s));
    StripConcat(Outside, "\"" + Escape(s), "\"");
  }

  // ---------- What the calls append ----------

  /** Text that ends outside string literals. */
  ghost predicate Whole(x: string) { Scan(Outside, x) == Outside }

  lemma WholeConcat(x: string, y: string)
    requires Whole(x)
    ensures Strip(Outside, x + y) == Strip(Outside, x) + Strip(Outside, y)
    ensures Whole(x + y) <==> Whole(y)
  {
    StripConcat(Outside, x, y);
  }

  /** The characters that the interface opens and closes containers with. */
  predicate Bracket(c: Call) {
    (c.Start? ==> c.open == '{' || c.open == '[') && (c.End? ==> c.close == '}' || c.close == ']')
  }

  /** The call breaks the line. */
  predicate Breaks(w: Writer, c: Call) {
    w.pretty && (c.Name? || (c.End? && w.sep != NUL && w.depth > 0))
  }

  lemma EolStrips(pretty: bool, d: nat)
    ensures Whole(Eol(pretty, d)) && Strip(Outside, Eol(pretty, d)) == ""
  {
    IndentIsWs(d);
    StripsWs(Eol(pretty, d));
  }

  lemma SepWhole(w: Writer)
    requires w.sep == NUL || w.sep == ','
    ensures Whole(Sep(w)) && Strip(Outside, Sep(w)) == Sep(w)
  {
  }

  /** Outside string literals, an end appends its bracket and whitespace, */
  lemma EndAppends(w: Writer, close: char)
    requires Bracket(End(close))
    ensures Whole(Appended(w, End(close))) && Strip(Outside, Appended(w, End(close))) == [close]
  {
    var d := if w.depth > 0 then w.depth - 1 else 0;
    EolStrips(w.pretty, d);
    OneCharScan(Outside, close);
    WholeConcat(Eol(w.pretty, d), [close]);
    assert "" + [close] == [close];
  }

  /** and a name appends the separator, the name, a colon and whitespace. */
  lemma NameAppends(w: Writer, name: string)
    requires w.sep == NUL || w.sep == ','
    ensures Whole(Appended(w, Name(name)))
    ensures Strip(Outside, Appended(w, Name(name))) == Sep(w) + (Quote(name) + ":")
  {
    var eol, colon := Eol(w.pretty, w.depth), Colon(w.pretty);
    SepWhole(w);
    EolStrips(w.pretty, w.depth);
    QuoteStays(name);
    ColonStrips(w.pretty);
    WholeConcat(eol, Quote(name));
    assert "" + Quote(name) == Quote(name);
    WholeConcat(eol + Quote(name), colon);
    WholeConcat(Sep(w), eol + Quote(name) + colon);
  }

  lemma ColonStrips(pretty: bool)
    ensures Whole(Colon(pretty)) && Strip(Outside, Colon(pretty)) == Strip(Outside, ":") == ":"
  {
  }

  // ---------- Two writers, one call ----------

  /** The same call, up to the argument of `Pretty`. */
  predicate SameCall(c: Call, c': Call) {
    c == c' || (c.Pretty? && c'.Pretty?)
  }

  ghost predicate SameText(x: string, y: string) {
    Scan(Outside, x) == Scan(Outside, y) && Strip(Outside, x) == Strip(Outside, y)
  }

  /** Two writers in the same state but for the pretty flag. */
  predicate SameState(a: Writer, b: Writer) {
    a.depth == b.depth && a.sep == b.sep && (a.sep == NUL || a.sep == ',')
  }

  /** No line is broken by just one of the writers inside a string literal. */
  ghost predicate BreakSafe(a: Writer, b: Writer, c: Call) {
    Breaks(a, c) == Breaks(b, c) || Whole(a.out)
  }

  lemma SameTextMore(x: string, y: string, u: string, v: string)
    requires SameText(x, y) && (u == v || (Whole(x) && SameText(u, v)))
    ensures SameText(x + u, y + v)
  {
    StripConcat(Outside, x, u);
    StripConcat(Outside, y, v);
  }

  /** What is appended differs only where a line is broken. */
  lemma SameAppended(a: Writer, b: Writer, c: Call, c': Call)
    requires SameState(a, b) && SameCall(c, c') && Bracket(c)
    ensures Breaks(a, c) == Breaks(b, c) ==> Appended(a, c) == Appended(b, c')
    ensures SameText(Appended(a, c), Appended(b, c'))
  {
    if c.Name? {
      NameAppends(a, c.name);
      NameAppends(b, c.name);
    } else if c.End? {
      EndAppends(a, c.close);
      EndAppends(b, c.close);
    }
  }

  /** The same call keeps two writers in the same state, stops both or neither, and if it is safe appends the same
      text up to whitespace. */
  lemma StepsTogether(a: Writer, b: Writer, c: Call, c': Call)
    requires SameState(a, b) && SameCall(c, c') && Bracket(c)
    ensures Step(a, c).Some? <==> Step(b, c').Some?
    ensures Step(a, c).Some? ==> SameState(Step(a, c).value, Step(b, c').value)
    ensures Step(a, c).Some? && SameText(a.out, b.out) && BreakSafe(a, b, c) ==>
              SameText(Step(a, c).value.out, Step(b, c').value.out)
  {
    if Step(a, c).Some? && SameText(a.out, b.out) && BreakSafe(a, b, c) {
      SameAppended(a, b, c, c');
      SameTextMore(a.out, b.out, Appended(a, c), Appended(b, c'));
    }
  }

  // ---------- A line broken inside a string literal ----------

  /** The texts differ, and will however they go on. */
  ghost predicate Apart(x: string, y: string) {
    exists n :: Differ(Strip(Outside, x), Strip(Outside, y), n)
  }

  predicate Differ(x: string, y: string, n: nat) { n < |x| && n < |y| && x[n] != y[n] }

  lemma ApartMore(x: string, y: string, u: string, v: string)
    requires Apart(x, y)
    ensures Apart(x + u, y + v)
  {
    var n :| Differ(Strip(Outside, x), Strip(Outside, y), n);
    StripConcat(Outside, x, u);
    StripConcat(Outside, y, v);
    assert Differ(Strip(Outside, x + u), Strip(Outside, y + v), n);
  }

  lemma AfterOpenString(x: string, c: char, z: string)
    requires !Whole(x)
    ensures var s := Strip(Outside, x + ([c] + z)); |s| > |Strip(Outside, x)| && s[|Strip(Outside, x)|] == c
  {
    var m := Scan(Outside, x);
    OneCharScan(m, c);
    StripConcat(Outside, x, [c] + z);
    StripConcat(m, [c], z);
  }

  /** What a call that may break the line appends: the separator of a name, then a line break or not, in which case
      some other character follows. */
  lemma Broken(w: Writer, c: Call) returns (lead: string, next: char, rest: string)
    requires c.Name? || (c.End? && Bracket(c) && w.sep != NUL && w.depth > 0)
    ensures Appended(w, c) == lead + ([next] + rest)
    ensures lead == (if c.Name? then Sep(w) else "")
    ensures next == (if w.pretty then '\n' else if c.Name? then '"' else c.close) && (!w.pretty ==> next != '\n')
  {
    lead := if c.Name? then Sep(w) else "";
    if c.Name? {
      var body := Quote(c.name) + Colon(w.pretty);
      assert Quote(c.name) == ['"'] + (Escape(c.name) + "\"");
      next, rest := if w.pretty then '\n' else '"', if w.pretty then Indent(w.depth) + body else body[1..];
      assert Eol(w.pretty, w.depth) + Quote(c.name) + Colon(w.pretty) == [next] + rest;
    } else {
      next, rest := if w.pretty then '\n' else c.close, if w.pretty then Indent(w.depth - 1) + [c.close] else "";
      assert Eol(w.pretty, w.depth - 1) + [c.close] == [next] + rest;
      assert lead + ([next] + rest) == [next] + rest;
    }
  }

  lemma SepKeepsOpen(w: Writer)
    requires (w.sep == NUL || w.sep == ',') && !Whole(w.out)
    ensures !Whole(w.out + Sep(w)) && !Whole(w.out + "")
  {
    StripConcat(Outside, w.out, Sep(w));
    OneCharScan(Scan(Outside, w.out), ',');
    assert w.out + "" == w.out;
  }

  /** What the call prints before it may break the line. */
  function Before(w: Writer, c: Call): string {
    w.out + (if c.Name? then Sep(w) else "")
  }

  predicate HasAt(s: string, n: nat, lineBreak: bool) { n < |s| && (s[n] == '\n' <==> lineBreak) }

  /** Inside a string literal a line break is kept, and so is what stands in its place. */
  lemma OpenBreak(w: Writer, c: Call)
    requires (w.sep == NUL || w.sep == ',') && !Whole(w.out)
    requires c.Name? || (c.End? && Bracket(c) && w.sep != NUL && w.depth > 0)
    ensures HasAt(Strip(Outside, w.out + Appended(w, c)), |Strip(Outside, Before(w, c))|, w.pretty)
  {
    var lead, next, rest := Broken(w, c);
    SepKeepsOpen(w);
    AfterOpenString(w.out + lead, next, rest);
    Assoc(w.out, lead, [next] + rest);
  }

  /** A line that only one writer breaks, inside a string literal, sets the outputs apart for good. */
  lemma UnsafeBreak(a: Writer, b: Writer, c: Call)
    requires SameState(a, b) && Bracket(c) && SameText(a.out, b.out) && !BreakSafe(a, b, c)
    ensures Apart(a.out + Appended(a, c), b.out + Appended(b, c))
  {
    OpenBreak(a, c);
    OpenBreak(b, c);
    SameTextMore(a.out, b.out, if c.Name? then Sep(a) else "", if c.Name? then Sep(b) else "");
    var n := |Strip(Outside, Before(a, c))|;
    assert Differ(Strip(Outside, a.out + Appended(a, c)), Strip(Outside, b.out + Appended(b, c)), n);
  }

  // ---------- Two writers, many calls ----------

  ghost predicate SameCalls(cs: seq<Call>, cs': seq<Call>) {
    |cs| == |cs'| && forall i :: 0 <= i < |cs| ==> Bracket(cs[i]) && SameCall(cs[i], cs'[i])
  }

  lemma SameCallsTail(cs: seq<Call>, cs': seq<Call>)
    requires SameCalls(cs, cs') && cs != []
    ensures Bracket(cs[0]) && SameCall(cs[0], cs'[0]) && SameCalls(cs[1..], cs'[1..])
  {
  }

  /** Every call is safe when it is made. */
  ghost predicate BreaksSafe(a: Writer, b: Writer, cs: seq<Call>, cs': seq<Call>)
    requires |cs| == |cs'|
    decreases |cs|
  {
    cs != [] && Step(a, cs[0]).Some? && Step(b, cs'[0]).Some? ==>
      BreakSafe(a, b, cs[0]) && BreaksSafe(Step(a, cs[0]).value, Step(b, cs'[0]).value, cs[1..], cs'[1..])
  }

  /** Outputs that are apart stay apart. */
  lemma {:induction false} StayApart(a: Writer, b: Writer, cs: seq<Call>, cs': seq<Call>)
    requires SameState(a, b) && SameCalls(cs, cs') && Apart(a.out, b.out)
    ensures Run(a, cs).Some? <==> Run(b, cs').Some?
    ensures Run(a, cs).Some? ==> SameState(Run(a, cs).value, Run(b, cs').value)
    ensures Run(a, cs).Some? ==> Apart(Run(a, cs).value.out, Run(b, cs').value.out)
    decreases |cs|
  {
    if cs != [] {
      SameCallsTail(cs, cs');
      StepsTogether(a, b, cs[0], cs'[0]);
      if Step(a, cs[0]).Some? {
        ApartMore(a.out, b.out, Appended(a, cs[0]), Appended(b, cs'[0]));
        StayApart(Step(a, cs[0]).value, Step(b, cs'[0]).value, cs[1..], cs'[1..]);
      }
    }
  }

  /** Whatever the pretty flags and whenever they change, the same calls leave two writers in the same state, and with
      outputs that differ only in whitespace if and only if every line break was safe. */
  lemma {:induction false} RunsTogether(a: Writer, b: Writer, cs: seq<Call>, cs': seq<Call>)
    requires SameState(a, b) && SameText(a.out, b.out) && SameCalls(cs, cs')
    ensures Run(a, cs).Some? <==> Run(b, cs').Some?
    ensures Run(a, cs).Some? ==>
              var p, q := Run(a, cs).value, Run(b, cs').value;
              && SameState(p, q)
              && (Strip(Outside, p.out) == Strip(Outside, q.out) <==> BreaksSafe(a, b, cs, cs'))
    decreases |cs|
  {
    if cs != [] {
      var c, c' := cs[0], cs'[0];
      SameCallsTail(cs, cs');
      StepsTogether(a, b, c, c');
      if Step(a, c).Some? {
        var a', b' := Step(a, c).value, Step(b, c').value;
        if BreakSafe(a, b, c) {
          RunsTogether(a', b', cs[1..], cs'[1..]);
        } else {
          UnsafeBreak(a, b, c);
          StayApart(a', b', cs[1..], cs'[1..]);
        }
      }
    }
  }

  // ---------- A writer that never pretty-prints ----------

  /** The calls without the request to be pretty. */
  function Compact(cs: seq<Call>): (r: seq<Call>)
    ensures |r| == |cs|
  {
    seq(|cs|, i requires 0 <= i < |cs| => if cs[i].Pretty? then Pretty(false) else cs[i])
  }

  /** Whenever the writer breaks the line, what it has written so far ends outside string literals. */
  ghost predicate BreaksOutside(w: Writer, cs: seq<Call>)
    decreases |cs|
  {
    cs != [] && Step(w, cs[0]).Some? ==>
      (Breaks(w, cs[0]) ==> Whole(w.out)) && BreaksOutside(Step(w, cs[0]).value, cs[1..])
  }

  /** Calls that do not ask to be pretty. */
  predicate Plain(cs: seq<Call>) { forall i :: 0 <= i < |cs| && cs[i].Pretty? ==> !cs[i].on }

  lemma {:induction false} AgainstCompact(a: Writer, b: Writer, cs: seq<Call>, cs': seq<Call>)
    requires SameState(a, b) && SameCalls(cs, cs') && !b.pretty
    requires Plain(cs')
    ensures BreaksSafe(a, b, cs, cs') <==> BreaksOutside(a, cs)
    decreases |cs|
  {
    if cs != [] {
      SameCallsTail(cs, cs');
      StepsTogether(a, b, cs[0], cs'[0]);
      if Step(a, cs[0]).Some? {
        AgainstCompact(Step(a, cs[0]).value, Step(b, cs'[0]).value, cs[1..], cs'[1..]);
      }
    }
  }

  /** No call prints whitespace that stands outside string literals. */
  ghost predicate PrintsTight(w: Writer, cs: seq<Call>)
    decreases |cs|
  {
    cs != [] && Step(w, cs[0]).Some? ==>
      && Strip(Scan(Outside, w.out), Appended(w, cs[0])) == Appended(w, cs[0])
      && PrintsTight(Step(w, cs[0]).value, cs[1..])
  }

  lemma {:induction false} StripShortens(m: Mode, s: string)
    ensures |Strip(m, s)| <= |s|
  {
    if s != "" {
      StripShortens(m, s[..|s| - 1]);
    }
  }

  lemma {:induction false} StripTwice(m: Mode, s: string)
    ensures Scan(m, Strip(m, s)) == Scan(m, s) && Strip(m, Strip(m, s)) == Strip(m, s)
  {
    if s != "" {
      var t, c := s[..|s| - 1], s[|s| - 1];
      StripTwice(m, t);
      OneCharScan(Scan(m, t), c);
      StripConcat(m, Strip(m, t), [c]);
      assert Strip(m, t) + "" == Strip(m, t);
    }
  }

  lemma TightParts(m: Mode, a: string, b: string)
    ensures Strip(m, a + b) == a + b <==> Strip(m, a) == a && Strip(Scan(m, a), b) == b
  {
    StripConcat(m, a, b);
    StripShortens(m, a);
    StripShortens(Scan(m, a), b);
    var x, y := Strip(m, a), Strip(Scan(m, a), b);
    if x + y == a + b {
      assert |x| == |a| && |y| == |b|;
      assert x == (x + y)[..|x|] && y == (x + y)[|x|..] && a == (a + b)[..|a|] && b == (a + b)[|a|..];
    }
  }

  lemma {:induction false} TightExactly(w: Writer, cs: seq<Call>)
    requires Run(w, cs).Some?
    ensures var out := Run(w, cs).value.out;
            Strip(Outside, out) == out <==> Strip(Outside, w.out) == w.out && PrintsTight(w, cs)
    decreases |cs|
  {
    if cs != [] {
      TightExactly(Step(w, cs[0]).value, cs[1..]);
      TightParts(Outside, w.out, Appended(w, cs[0]));
    }
  }

  // ---------- The claim, and exactly when it holds ----------

  /** For every sequence of calls: a writer and one that is never asked to be pretty stop at the same assertions and
      agree on depth and separator.  What they write differs only in whitespace outside string literals if and only if
      the first writer breaks lines only there; and removing that whitespace gives exactly what the second one writes
      if and only if, moreover, the second writes none. */
  lemma PrettyExactly(cs: seq<Call>)
    requires forall i :: 0 <= i < |cs| ==> Bracket(cs[i])
    ensures var p, q := Run(FRESH, cs), Run(FRESH, Compact(cs));
            && (p.Some? <==> q.Some?)
            && (p.Some? ==>
                  && p.value.depth == q.value.depth && p.value.sep == q.value.sep
                  && (Strip(Outside, p.value.out) == Strip(Outside, q.value.out) <==> BreaksOutside(FRESH, cs))
                  && (Strip(Outside, p.value.out) == q.value.out
                      <==> BreaksOutside(FRESH, cs) && PrintsTight(FRESH, Compact(cs))))
  {
    var r := Compact(cs);
    RunsTogether(FRESH, FRESH, cs, r);
    AgainstCompact(FRESH, FRESH, cs, r);
    if Run(FRESH, cs).Some? {
      TightExactly(FRESH, r);
      StripTwice(Outside, Run(FRESH, cs).value.out);
    }
  }

  // ---------- Calls that are fine on their own ----------

  /** Preformatted text that opens no string literal it does not close. */
  ghost predicate Balanced(c: Call) {
    match c
    case Printf(text) => Whole(text)
    case Enquote(text) => Scan(Inside, text) == Inside
    case _ => Bracket(c)
  }

  /** Preformatted text with no whitespace of its own between tokens. */
  ghost predicate Tight(c: Call) {
    match c
    case Printf(text) => Strip(Outside, text) == text
    case Enquote(text) => Strip(Inside, text) == text
    case _ => true
  }

  lemma EnquoteBody(text: string)
    requires Scan(Inside, text) == Inside
    ensures var b := "\"" + text + "\"";
            Whole(b) && (Strip(Inside, text) == text ==> Strip(Outside, b) == b)
  {
    OneCharScan(Outside, '"');
    OneCharScan(Inside, '"');
    StripConcat(Outside, "\"", text);
    StripConcat(Outside, "\"" + text, "\"");
  }

  lemma AfterSep(w: Writer, x: string)
    requires (w.sep == NUL || w.sep == ',') && Whole(x)
    ensures Whole(Sep(w) + x) && (Strip(Outside, x) == x ==> Strip(Outside, Sep(w) + x) == Sep(w) + x)
  {
    SepWhole(w);
    WholeConcat(Sep(w), x);
  }

  lemma BalancedAppends(w: Writer, c: Call)
    requires Balanced(c) && (w.sep == NUL || w.sep == ',')
    ensures Whole(Appended(w, c))
    ensures Tight(c) && !w.pretty ==> Strip(Outside, Appended(w, c)) == Appended(w, c)
  {
    match c
    case Start(open) =>
      OneCharScan(Outside, open);
      AfterSep(w, [open]);
    case End(close) =>
      EndAppends(w, close);
      assert "" + [close] == [close];
    case Name(name) =>
      NameAppends(w, name);
      assert "" + Quote(name) == Quote(name);
    case String(value) =>
      QuoteStays(value);
      AfterSep(w, Quote(value));
    case Printf(text) => AfterSep(w, text);
    case Enquote(text) =>
      EnquoteBody(text);
      AfterSep(w, "\"" + text + "\"");
    case Pretty(_) =>
    case Reset =>
  }

  /** Calls that are fine on their own. */
  ghost predicate Fine(cs: seq<Call>) { forall i :: 0 <= i < |cs| ==> Balanced(cs[i]) && Tight(cs[i]) }

  lemma CompactFine(cs: seq<Call>)
    requires Fine(cs)
    ensures Fine(Compact(cs)) && Plain(Compact(cs))
  {
  }

  lemma {:induction false} BalancedBreaks(w: Writer, cs: seq<Call>)
    requires Whole(w.out) && (w.sep == NUL || w.sep == ',') && Fine(cs)
    ensures BreaksOutside(w, cs) && (!w.pretty && Plain(cs) ==> PrintsTight(w, cs))
    decreases |cs|
  {
    if cs != [] && Step(w, cs[0]).Some? {
      BalancedAppends(w, cs[0]);
      WholeConcat(w.out, Appended(w, cs[0]));
      BalancedBreaks(Step(w, cs[0]).value, cs[1..]);
    }
  }

  /** So calls with balanced and tight text always do: removing the whitespace outside string literals gives exactly
      the compact output. */
  lemma PrettyChangesOnlyWhitespace(cs: seq<Call>)
    requires Fine(cs)
    ensures var p, q := Run(FRESH, cs), Run(FRESH, Compact(cs));
            && (p.Some? <==> q.Some?)
            && (p.Some? ==> && Strip(Outside, p.value.out) == q.value.out
                            && p.value.depth == q.value.depth && p.value.sep == q.value.sep)
  {
    assert BreaksOutside(FRESH, cs) by {
      BalancedBreaks(FRESH, cs);
    }
    assert PrintsTight(FRESH, Compact(cs)) by {
      CompactFine(cs);
      BalancedBreaks(FRESH, Compact(cs));
    }
    PrettyExactly(cs);
  }

  lemma {:induction false} TokenStays(t: string)
    requires TokenChars(t)
    ensures Whole(t) && Strip(Outside, t) == t
  {
    if t != "" {
      TokenStays(t[..|t| - 1]);
      assert t == t[..|t| - 1] + [t[|t| - 1]];
    }
  }

  /** Numbers and literal names are balanced and tight. */
  lemma ScalarFine(t: string)
    requires IsScalar(t)
    ensures Balanced(Printf(t)) && Tight(Printf(t))
  {
    ScalarIsToken(t);
    TokenStays(t);
  }

  lemma {:induction false} TreeFine(v: Value)
    requires Wf(v)
    ensures Fine(Calls(v)) && Plain(Calls(v))
  {
    match v
    case Obj(ms) => MembersFine(ms);
    case Arr(vs) => ItemsFine(vs);
    case Str(_) =>
    case Scalar(token) => ScalarFine(token);
  }

  lemma {:induction false} MembersFine(ms: Members)
    requires WfMembers(ms)
    ensures Fine(MemberCalls(ms)) && Plain(MemberCalls(ms))
  {
    if ms.Member? {
      TreeFine(ms.value);
      MembersFine(ms.rest);
    }
  }

  lemma {:induction false} ItemsFine(vs: Values)
    requires WfItems(vs)
    ensures Fine(ItemCalls(vs)) && Plain(ItemCalls(vs))
  {
    if vs.Item? {
      TreeFine(vs.value);
      ItemsFine(vs.rest);
    }
  }

  /** The indented text of a tree, without the whitespace outside string literals, is its compact text. */
  lemma TreeTextStrips(v: Value)
    requires Wf(v)
    ensures Strip(Outside, Text(v, true, 0)) == Text(v, false, 0)
  {
    var cs, a, b := Calls(v), FRESH.(pretty := true), FRESH;
    TreeFine(v);
    WriteThenParse(v, true);
    WriteThenParse(v, false);
    RunsTogether(a, b, cs, cs);
    AgainstCompact(a, b, cs, cs);
    BalancedBreaks(a, cs);
    BalancedBreaks(b, cs);
    TightExactly(b, cs);
  }

  // ---------- A call for which the claim fails ----------

  lemma Peel(w: Writer, c: Call, cs: seq<Call>)
    requires Step(w, c).Some?
    ensures Run(w, [c] + cs) == Run(Step(w, c).value, cs)
    ensures BreaksOutside(w, [c] + cs) ==> (Breaks(w, c) ==> Whole(w.out)) && BreaksOutside(Step(w, c).value, cs)
  {
    assert ([c] + cs)[0] == c && ([c] + cs)[1..] == cs;
  }

  /** Text that leaves a string literal open, at the end of a container. */
  lemma OpenAtEnd(w: Writer, text: string, close: char)
    requires w.pretty && w.sep == NUL && w.depth > 0 && Whole(w.out) && !Whole(text)
    ensures var w1 := Step(w, Printf(text)).value;
            Step(w1, End(close)).Some? && Breaks(w1, End(close)) && !Whole(w1.out)
  {
    assert w.out + ("" + text) == w.out + text;
    WholeConcat(w.out, text);
  }

  lemma ThreeQuotes()
    ensures !Whole("\"\"\"")
  {
    OneCharScan(Outside, '"');
    OneCharScan(Inside, '"');
    StripConcat(Outside, "\"", "\"");
    StripConcat(Outside, "\"" + "\"", "\"");
    assert "\"" + "\"" + "\"" == "\"\"\"";
  }

  /** The dumper of C values prints a character between quotes as it is.  For a quote character that is three quotes,
      which leave a string literal open, and the line break before the closing bracket falls into it. */
  lemma QuoteCharacterDiffers(name: string)
    ensures var cs := [Pretty(true), Start('{'), Name(name), Printf("\"\"\""), End('}')];
            var p, q := Run(FRESH, cs), Run(FRESH, Compact(cs));
            p.Some? && q.Some? && Strip(Outside, p.value.out) != Strip(Outside, q.value.out)
  {
    var text := "\"\"\"";
    var cs := [Pretty(true), Start('{'), Name(name), Printf(text), End('}')];
    PrettyExactly(cs);
    ThreeQuotes();
    NameThenOpen(name, text, '}');
  }

  /** An object with one name begun by a pretty writer. */
  function Begun(name: string): Writer {
    Step(Step(Step(FRESH, Pretty(true)).value, Start('{')).value, Name(name)).value
  }

  lemma BegunWhole(name: string)
    ensures var w := Begun(name); w.pretty && w.sep == NUL && w.depth == 1 && Whole(w.out)
  {
    var w2 := Step(Step(FRESH, Pretty(true)).value, Start('{')).value;
    assert w2.out == ['{'];
    OneCharScan(Outside, '{');
    NameAppends(w2, name);
    WholeConcat(w2.out, Appended(w2, Name(name)));
  }

  lemma PeelBegin(name: string, cs: seq<Call>)
    ensures var all := [Pretty(true)] + ([Start('{')] + ([Name(name)] + cs));
            Run(FRESH, all) == Run(Begun(name), cs) && (BreaksOutside(FRESH, all) ==> BreaksOutside(Begun(name), cs))
  {
    var w1 := Step(FRESH, Pretty(true)).value;
    var w2 := Step(w1, Start('{')).value;
    Peel(w2, Name(name), cs);
    Peel(w1, Start('{'), [Name(name)] + cs);
    Peel(FRESH, Pretty(true), [Start('{')] + ([Name(name)] + cs));
  }

  lemma NameThenOpen(name: string, text: string, close: char)
    requires !Whole(text)
    ensures var cs := [Pretty(true), Start('{'), Name(name), Printf(text), End(close)];
            Run(FRESH, cs).Some? && !BreaksOutside(FRESH, cs)
  {
    var w := Begun(name);
    BegunWhole(name);
    OpenAtEnd(w, text, close);
    Peel(Step(w, Printf(text)).value, End(close), []);
    Peel(w, Printf(text), [End(close)]);
    PeelBegin(name, [Printf(text), End(close)]);
    ListShapes(name, text, close);
  }

  lemma ListShapes(name: string, text: string, close: char)
    ensures [End(close)] + [] == [End(close)]
    ensures [Printf(text)] + [End(close)] == [Printf(text), End(close)]
    ensures [Name(name)] + [Printf(text), End(close)] == [Name(name), Printf(text), End(close)]
    ensures [Start('{')] + [Name(name), Printf(text), End(close)] == [Start('{'), Name(name), Printf(text), End(close)]
    ensures [Pretty(true)] + [Start('{'), Name(name), Printf(text), End(close)]
         == [Pretty(true), Start('{'), Name(name), Printf(text), End(close)]
  {
  }
}
