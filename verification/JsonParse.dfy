/**
 A reference parser for the JSON grammar of RFC 8259 (sections 2 to 7, without \u escapes), and the proof
 that it reads the writer's output back.
 */
module JsonParse {
  import opened Wrappers
  import opened JsonWriter
  import opened JsonText

  // ---------- Tokens (RFC 8259, sections 2, 3 and 6) ----------

  predicate IsWs(c: char) { c == ' ' || c == '\t' || c == '\n' || c == '\r' }

  predicate IsDigit(c: char) { '0' <= c <= '9' }

  predicate IsTokenChar(c: char) {
    IsDigit(c) || 'a' <= c <= 'z' || 'A' <= c <= 'Z' || c == '+' || c == '-' || c == '.'
  }

  predicate Digits(s: string) { s != "" && forall i :: 0 <= i < |s| ==> IsDigit(s[i]) }

  predicate IsInt(s: string) { s == "0" || (Digits(s) && s[0] != '0') }

  predicate IsSignedInt(s: string) { IsInt(s) || (s != "" && s[0] == '-' && IsInt(s[1..])) }

  predicate IsFrac(s: string) { s == "" || (s[0] == '.' && Digits(s[1..])) }

  predicate IsExp(s: string) {
    s == "" || ((s[0] == 'e' || s[0] == 'E')
                && (Digits(s[1..]) || (|s| > 1 && (s[1] == '+' || s[1] == '-') && Digits(s[2..]))))
  }

  predicate NumberParts(t: string, a: string, b: string, c: string) {
    IsSignedInt(a) && IsFrac(b) && IsExp(c) && t == a + b + c
  }

  ghost predicate IsNumber(t: string) { exists a, b, c :: NumberParts(t, a, b, c) }

  /** A number, or one of the three literal names. */
  ghost predicate IsScalar(t: string) {
    t == "true" || t == "false" || t == "null" || IsNumber(t)
  }

  predicate TokenChars(t: string) { forall i :: 0 <= i < |t| ==> IsTokenChar(t[i]) }

  lemma ScalarIsToken(t: string)
    requires IsScalar(t)
    ensures t != "" && TokenChars(t)
  {
  }

  function SkipWs(s: string): (r: string)
    ensures |r| <= |s|
  {
    if s != "" && IsWs(s[0]) then SkipWs(s[1..]) else s
  }

  predicate Starts(s: string, c: char) { s != "" && s[0] == c }

  /** The length of the longest run of token characters. */
  function TokenLen(s: string): (n: nat)
    ensures n <= |s|
  {
    if s != "" && IsTokenChar(s[0]) then 1 + TokenLen(s[1..]) else 0
  }

  // ---------- The parser ----------

  datatype Parsed<T> = Fail | Done(value: T, rest: string)

  /** The character that `\e` stands for. */
  function Unescape(e: char): Option<char> {
    match e
    case '"' => Some('"')
    case '\\' => Some('\\')
    case '/' => Some('/')
    case 'b' => Some(BS)
    case 'f' => Some(FF)
    case 'n' => Some('\n')
    case 'r' => Some('\r')
    case 't' => Some('\t')
    case _ => None
  }

  /** A string, after its opening quote (section 7): control characters must not appear raw. */
  function ParseBody(s: string): (p: Parsed<string>)
    ensures p.Done? ==> |p.rest| < |s|
    decreases |s|
  {
    if s == "" then Fail
    else if s[0] == '"' then Done("", s[1..])
    else if s[0] == '\\' then
      if |s| == 1 || Unescape(s[1]) == None then Fail else Prepend(Unescape(s[1]).value, ParseBody(s[2..]))
    else if s[0] < ' ' then Fail
    else Prepend(s[0], ParseBody(s[1..]))
  }

  function Prepend(c: char, p: Parsed<string>): Parsed<string> {
    match p case Fail => Fail case Done(t, rest) => Done([c] + t, rest)
  }

  ghost function ParseValue(s0: string): (p: Parsed<Value>)
    ensures p.Done? ==> |p.rest| < |s0|
    decreases |s0|, 0
  {
    var s := SkipWs(s0);
    if s == "" then Fail
    else if s[0] == '{' then
      var t := SkipWs(s[1..]);
      if Starts(t, '}') then Done(Obj(NoMembers), t[1..])
      else match ParseMembers(s[1..]) case Fail => Fail case Done(ms, rest) => Done(Obj(ms), rest)
    else if s[0] == '[' then
      var t := SkipWs(s[1..]);
      if Starts(t, ']') then Done(Arr(NoValues), t[1..])
      else match ParseItems(s[1..]) case Fail => Fail case Done(vs, rest) => Done(Arr(vs), rest)
    else if s[0] == '"' then
      match ParseBody(s[1..]) case Fail => Fail case Done(t, rest) => Done(Str(t), rest)
    else
      var n := TokenLen(s);
      if n > 0 && IsScalar(s[..n]) then Done(Scalar(s[..n]), s[n..]) else Fail
  }

  /** One or more members and the closing brace. */
  ghost function ParseMembers(s: string): (p: Parsed<Members>)
    ensures p.Done? ==> |p.rest| < |s|
    decreases |s|, 1
  {
    var s1 := SkipWs(s);
    if !Starts(s1, '"') then Fail
    else match ParseBody(s1[1..])
      case Fail => Fail
      case Done(name, r) =>
        var r1 := SkipWs(r);
        if !Starts(r1, ':') then Fail
        else match ParseValue(r1[1..])
          case Fail => Fail
          case Done(v, r2) => MoreMembers(name, v, SkipWs(r2), |s|)
  }

  /** What follows a member: a comma and more members, or the end. */
  ghost function MoreMembers(name: string, v: Value, r: string, limit: nat): (p: Parsed<Members>)
    requires |r| < limit
    ensures p.Done? ==> |p.rest| < limit
    decreases limit, 0
  {
    if Starts(r, ',') then
      match ParseMembers(r[1..]) case Fail => Fail case Done(ms, rest) => Done(Member(name, v, ms), rest)
    else if Starts(r, '}') then Done(Member(name, v, NoMembers), r[1..])
    else Fail
  }

  /** One or more array elements and the closing bracket. */
  ghost function ParseItems(s: string): (p: Parsed<Values>)
    ensures p.Done? ==> |p.rest| < |s|
    decreases |s|, 1
  {
    match ParseValue(s)
    case Fail => Fail
    case Done(v, r) =>
      var r1 := SkipWs(r);
      if Starts(r1, ',') then
        match ParseItems(r1[1..]) case Fail => Fail case Done(vs, rest) => Done(Item(v, vs), rest)
      else if Starts(r1, ']') then Done(Item(v, NoValues), r1[1..])
      else Fail
  }

  /** A whole JSON text: one value and nothing else but whitespace. */
  ghost function Parse(s: string): Option<Value> {
    match ParseValue(s)
    case Fail => None
    case Done(v, rest) => if SkipWs(rest) == "" then Some(v) else None
  }

  // ---------- Strings read back ----------

  /** The writer has an escape for the character, or it may stand for itself. */
  predicate CleanChar(c: char) {
    c >= ' ' || c == '\t' || c == '\n' || c == '\r' || c == FF || c == BS
  }

  predicate Clean(s: string) { forall i :: 0 <= i < |s| ==> CleanChar(s[i]) }

  lemma {:induction false} EscapeCons(s: string)
    requires s != ""
    ensures Escape(s) == EscapeChar(s[0]) + Escape(s[1..])
  {
    if |s| > 1 {
      var t := s[..|s| - 1];
      EscapeCons(t);
      assert t[1..] == s[1..][..|s[1..]| - 1];
    } else {
      assert s[..0] == s[1..] == "";
    }
  }

  lemma OneChar(c: char, z: string)
    ensures ParseBody(EscapeChar(c) + z) == if CleanChar(c) then Prepend(c, ParseBody(z)) else Fail
  {
  }

  lemma CleanCons(s: string)
    requires s != ""
    ensures Clean(s) <==> CleanChar(s[0]) && Clean(s[1..])
    ensures [s[0]] + s[1..] == s
  {
  }

  /** A quoted string reads back as itself exactly when it has no other control character. */
  lemma {:induction false} StringReadsBack(s: string, rest: string)
    ensures ParseBody(Escape(s) + ("\"" + rest)) == if Clean(s) then Done(s, rest) else Fail
  {
    if s == "" {
      Assoc("\"" + rest, "", "");
      assert ("\"" + rest)[1..] == rest;
    } else {
      var z := Escape(s[1..]) + ("\"" + rest);
      StringReadsBack(s[1..], rest);
      EscapeCons(s);
      OneChar(s[0], z);
      CleanCons(s);
      Assoc(EscapeChar(s[0]), Escape(s[1..]), "\"" + rest);
    }
  }

  // ---------- Trees read back ----------

  /** Every scalar in the tree is a number or a literal name. */
  ghost predicate Wf(v: Value) {
    match v
    case Obj(ms) => WfMembers(ms)
    case Arr(vs) => WfItems(vs)
    case Str(_) => true
    case Scalar(token) => IsScalar(token)
  }

  ghost predicate WfMembers(ms: Members) { ms.Member? ==> Wf(ms.value) && WfMembers(ms.rest) }

  ghost predicate WfItems(vs: Values) { vs.Item? ==> Wf(vs.value) && WfItems(vs.rest) }

  /** No string or member name in the tree has a control character without an escape. */
  predicate CleanValue(v: Value) {
    match v
    case Obj(ms) => CleanMembers(ms)
    case Arr(vs) => CleanItems(vs)
    case Str(s) => Clean(s)
    case Scalar(_) => true
  }

  predicate CleanMembers(ms: Members) { ms.Member? ==> Clean(ms.name) && CleanValue(ms.value) && CleanMembers(ms.rest) }

  predicate CleanItems(vs: Values) { vs.Item? ==> CleanValue(vs.value) && CleanItems(vs.rest) }

  /** What may follow a scalar without becoming part of it. */
  predicate Stops(rest: string) { rest == "" || !IsTokenChar(rest[0]) }

  lemma {:induction false} SkipsWs(a: string, z: string)
    requires forall i :: 0 <= i < |a| ==> IsWs(a[i])
    ensures SkipWs(a + z) == SkipWs(z)
  {
    if a == "" {
      assert a + z == z;
    } else {
      assert (a + z)[1..] == a[1..] + z;
      SkipsWs(a[1..], z);
    }
  }

  lemma {:induction false} IndentIsWs(d: nat)
    ensures forall i :: 0 <= i < |Indent(d)| ==> IsWs(Indent(d)[i])
  {
    if d > 0 {
      IndentIsWs(d - 1);
    }
  }

  lemma SkipsEol(pretty: bool, d: nat, z: string)
    ensures SkipWs(Eol(pretty, d) + z) == SkipWs(z)
  {
    IndentIsWs(d);
    SkipsWs(Eol(pretty, d), z);
  }

  lemma {:induction false} TokenRun(t: string, rest: string)
    requires TokenChars(t) && Stops(rest)
    ensures TokenLen(t + rest) == |t|
  {
    if t == "" {
      assert t + rest == rest;
    } else {
      assert (t + rest)[1..] == t[1..] + rest;
      TokenRun(t[1..], rest);
    }
  }

  /** What is read where a token begins. */
  lemma TokenReads(s: string, n: nat)
    requires s != "" && IsTokenChar(s[0]) && 0 < TokenLen(s) == n <= |s| && IsScalar(s[..n])
    ensures ParseValue(s) == Done(Scalar(s[..n]), s[n..])
  {
    var c := s[0];
    assert !IsWs(c) && c != '{' && c != '[' && c != '"';
    assert SkipWs(s) == s;
  }

  lemma ScalarReadsBack(t: string, rest: string)
    requires IsScalar(t) && Stops(rest)
    ensures ParseValue(t + rest) == Done(Scalar(t), rest)
  {
    var s := t + rest;
    assert t != "" && IsTokenChar(t[0]) && TokenLen(s) == |t| by {
      ScalarIsToken(t);
      TokenRun(t, rest);
    }
    assert s[..|t|] == t && s[|t|..] == rest;
    TokenReads(s, |t|);
  }

  /** What is read where a string begins. */
  lemma QuoteReads(s: string)
    requires s != "" && s[0] == '"'
    ensures ParseValue(s) == match ParseBody(s[1..]) case Fail => Fail case Done(t, rest) => Done(Str(t), rest)
  {
    assert SkipWs(s) == s;
  }

  lemma AfterQuote(text: string, rest: string)
    ensures Starts(Quote(text) + rest, '"') && (Quote(text) + rest)[1..] == Escape(text) + ("\"" + rest)
  {
  }

  lemma StringValueReadsBack(text: string, rest: string)
    ensures ParseValue(Quote(text) + rest) == if Clean(text) then Done(Str(text), rest) else Fail
    ensures Starts(Quote(text) + rest, '"') && (Quote(text) + rest)[1..] == Escape(text) + ("\"" + rest)
  {
    AfterQuote(text, rest);
    StringReadsBack(text, rest);
    QuoteReads(Quote(text) + rest);
  }

  lemma ObjectReads(body: string)
    ensures ParseValue("{" + body) ==
              if Starts(SkipWs(body), '}') then Done(Obj(NoMembers), SkipWs(body)[1..])
              else match ParseMembers(body) case Fail => Fail case Done(ms, rest) => Done(Obj(ms), rest)
  {
  }

  lemma ArrayReads(body: string)
    ensures ParseValue("[" + body) ==
              if Starts(SkipWs(body), ']') then Done(Arr(NoValues), SkipWs(body)[1..])
              else match ParseItems(body) case Fail => Fail case Done(vs, rest) => Done(Arr(vs), rest)
  {
  }

  lemma Around(open: string, t: string, closing: string, rest: string)
    ensures open + t + closing + rest == open + (t + (closing + rest))
    ensures "" + (closing + rest) == closing + rest
    ensures ("}" + rest)[1..] == rest && ("]" + rest)[1..] == rest
  {
  }

  /** The text of a tree reads back as the tree exactly when all its strings are clean, whatever follows it. */
  lemma {:induction false} ReadsBack(v: Value, pretty: bool, d: nat, rest: string)
    requires Wf(v) && Stops(rest)
    ensures ParseValue(Text(v, pretty, d) + rest) == if CleanValue(v) then Done(v, rest) else Fail
    decreases v, 1
  {
    match v
    case Obj(ms) =>
      var t, closing := MembersText(ms, pretty, d + 1), Closing(ms == NoMembers, pretty, d, '}');
      ClosingReads(ms == NoMembers, pretty, d, '}', rest);
      Around("{", t, closing, rest);
      ObjectReads(t + (closing + rest));
      if ms.Member? {
        MembersReadBack(ms, pretty, d + 1, closing + rest, rest);
      }
    case Arr(vs) =>
      var t, closing := ItemsText(vs, pretty, d + 1), Closing(vs == NoValues, pretty, d, ']');
      ClosingReads(vs == NoValues, pretty, d, ']', rest);
      Around("[", t, closing, rest);
      ArrayReads(t + (closing + rest));
      if vs.Item? {
        ItemsReadBack(vs, pretty, d + 1, closing + rest, rest);
      }
    case Str(s) => StringValueReadsBack(s, rest);
    case Scalar(token) => ScalarReadsBack(token, rest);
  }

  lemma ClosingReads(empty: bool, pretty: bool, d: nat, close: char, rest: string)
    requires close == '}' || close == ']'
    ensures SkipWs(Closing(empty, pretty, d, close) + rest) == [close] + rest
    ensures Stops(Closing(empty, pretty, d, close) + rest)
  {
    var e := if empty then "" else Eol(pretty, d);
    assert Closing(empty, pretty, d, close) + rest == e + ([close] + rest);
    SkipsEol(pretty, d, [close] + rest);
    assert "" + ([close] + rest) == [close] + rest;
  }

  /** The text after a member. */
  function Rest(ms: Members, pretty: bool, d: nat, tail: string): string {
    if ms == NoMembers then tail else "," + (MembersText(ms, pretty, d) + tail)
  }

  /** Reading one member whose name is followed by `value`. */
  lemma MemberReads(s: string, name: string, pretty: bool, value: string)
    requires SkipWs(s) == Quote(name) + (Colon(pretty) + value)
    ensures ParseMembers(s) ==
              if !Clean(name) then Fail
              else match ParseValue(value) case Fail => Fail case Done(v, r2) => MoreMembers(name, v, SkipWs(r2), |s|)
  {
    StringValueReadsBack(name, Colon(pretty) + value);
    StringReadsBack(name, Colon(pretty) + value);
    ColonReads(pretty, value);
  }

  lemma {:induction false} MembersReadBack(ms: Members, pretty: bool, d: nat, tail: string, rest: string)
    requires ms.Member? && WfMembers(ms) && SkipWs(tail) == "}" + rest && Stops(tail)
    ensures ParseMembers(MembersText(ms, pretty, d) + tail) == if CleanMembers(ms) then Done(ms, rest) else Fail
    ensures Starts(SkipWs(MembersText(ms, pretty, d) + tail), '"')
    decreases ms, 1
  {
    var Member(name, v, more) := ms;
    var after := Rest(more, pretty, d, tail);
    MemberShape(ms, pretty, d, tail);
    MemberReads(MembersText(ms, pretty, d) + tail, name, pretty, Text(v, pretty, d) + after);
    ReadsBack(v, pretty, d, after);
    if more.Member? {
      assert SkipWs(after) == after && after[1..] == MembersText(more, pretty, d) + tail;
      MembersReadBack(more, pretty, d, tail, rest);
    } else {
      assert ("}" + rest)[1..] == rest;
    }
  }

  lemma MemberShape(ms: Members, pretty: bool, d: nat, tail: string)
    requires ms.Member?
    ensures SkipWs(MembersText(ms, pretty, d) + tail)
         == Quote(ms.name) + (Colon(pretty) + (Text(ms.value, pretty, d) + Rest(ms.rest, pretty, d, tail)))
    ensures Starts(SkipWs(MembersText(ms, pretty, d) + tail), '"')
  {
    var Member(name, v, more) := ms;
    var f := if more == NoMembers then "" else "," + MembersText(more, pretty, d);
    assert f + tail == Rest(more, pretty, d, tail);
    Regroup4(Eol(pretty, d), Quote(name), Colon(pretty), Text(v, pretty, d), f, tail);
    SkipsEol(pretty, d, Quote(name) + (Colon(pretty) + (Text(v, pretty, d) + (f + tail))));
  }

  lemma Regroup4(a: string, b: string, c: string, e: string, f: string, g: string)
    ensures a + b + c + e + f + g == a + (b + (c + (e + (f + g))))
  {
  }

  lemma ColonReads(pretty: bool, value: string)
    ensures Starts(Colon(pretty) + value, ':') && SkipWs(Colon(pretty) + value) == Colon(pretty) + value
    ensures ParseValue((Colon(pretty) + value)[1..]) == ParseValue(value)
  {
  }

  lemma {:induction false} ItemsReadBack(vs: Values, pretty: bool, d: nat, tail: string, rest: string)
    requires vs.Item? && WfItems(vs) && SkipWs(tail) == "]" + rest && Stops(tail)
    ensures ParseItems(ItemsText(vs, pretty, d) + tail) == if CleanItems(vs) then Done(vs, rest) else Fail
    ensures !Starts(SkipWs(ItemsText(vs, pretty, d) + tail), ']')
    decreases vs, 1
  {
    var Item(v, more) := vs;
    var after := if more == NoValues then tail else "," + (ItemsText(more, pretty, d) + tail);
    assert ItemsText(vs, pretty, d) + tail == Text(v, pretty, d) + after;
    TextStarts(v, pretty, d, after);
    ReadsBack(v, pretty, d, after);
    if CleanValue(v) {
      if more.Item? {
        assert after[1..] == ItemsText(more, pretty, d) + tail;
        ItemsReadBack(more, pretty, d, tail, rest);
      } else {
        assert ("]" + rest)[1..] == rest;
      }
    }
  }

  lemma TextStarts(v: Value, pretty: bool, d: nat, after: string)
    requires Wf(v)
    ensures var s := Text(v, pretty, d) + after;
            s != "" && !IsWs(s[0]) && s[0] != ']'
  {
  }

  /** The whole journey: a fresh writer, pretty or not, driven through a tree, ends at depth 0 with the
      tree's text; and the text, with or without the final newline, parses back to the tree exactly when
      the tree has no unescapable control character. */
  lemma WriteThenParse(v: Value, pretty: bool)
    requires Wf(v)
    ensures var text := Text(v, pretty, 0);
            && Run(FRESH.(pretty := pretty), Calls(v)) == Some(Writer(text, 0, pretty, ','))
            && Parse(text) == Parse(text + "\n") == if CleanValue(v) then Some(v) else None
  {
    var w, text := FRESH.(pretty := pretty), Text(v, pretty, 0);
    EmitsText(w, v);
    assert w.out + (Sep(w) + text) == text;
    ReadsBack(v, pretty, 0, "");
    ReadsBack(v, pretty, 0, "\n");
    assert text + "" == text;
    assert SkipWs("\n") == "" && SkipWs("") == "";
  }
}
