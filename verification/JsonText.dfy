/**
 JSON value trees, the text each stands for, and the proof that driving the writer through a tree emits
 exactly that text.
 */
module JsonText {
  import opened Wrappers
  import opened JsonWriter

  /** A value tree.  A scalar is an already formatted number or literal. */
  datatype Value = Obj(members: Members) | Arr(items: Values) | Str(text: string) | Scalar(token: string)
  datatype Members = NoMembers | Member(name: string, value: Value, rest: Members)
  datatype Values = NoValues | Item(value: Value, rest: Values)

  // ---------- The text of a tree, at nesting depth `d` ----------

  function Text(v: Value, pretty: bool, d: nat): string
    decreases v, 0
  {
    match v
    case Obj(ms) => "{" + MembersText(ms, pretty, d + 1) + Closing(ms == NoMembers, pretty, d, '}')
    case Arr(vs) => "[" + ItemsText(vs, pretty, d + 1) + Closing(vs == NoValues, pretty, d, ']')
    case Str(s) => Quote(s)
    case Scalar(token) => token
  }

  /** The end of a container: on a line of its own unless the container is empty. */
  function Closing(empty: bool, pretty: bool, d: nat, close: char): string {
    (if empty then "" else Eol(pretty, d)) + [close]
  }

  function MemberText(name: string, v: Value, pretty: bool, d: nat): string
    decreases v, 1
  {
    Eol(pretty, d) + Quote(name) + Colon(pretty) + Text(v, pretty, d)
  }

  function MembersText(ms: Members, pretty: bool, d: nat): string {
    match ms
    case NoMembers => ""
    case Member(name, v, rest) =>
      MemberText(name, v, pretty, d) + (if rest == NoMembers then "" else "," + MembersText(rest, pretty, d))
  }

  function ItemsText(vs: Values, pretty: bool, d: nat): string {
    match vs
    case NoValues => ""
    case Item(v, rest) => Text(v, pretty, d) + (if rest == NoValues then "" else "," + ItemsText(rest, pretty, d))
  }

  // ---------- The calls that a caller makes for a tree ----------

  function Calls(v: Value): seq<Call> {
    match v
    case Obj(ms) => [Start('{')] + MemberCalls(ms) + [End('}')]
    case Arr(vs) => [Start('[')] + ItemCalls(vs) + [End(']')]
    case Str(s) => [String(s)]
    case Scalar(token) => [Printf(token)]
  }

  function MemberCalls(ms: Members): seq<Call> {
    match ms
    case NoMembers => []
    case Member(name, v, rest) => [Name(name)] + Calls(v) + MemberCalls(rest)
  }

  function ItemCalls(vs: Values): seq<Call> {
    match vs
    case NoValues => []
    case Item(v, rest) => Calls(v) + ItemCalls(rest)
  }

  // ---------- Emission ----------

  function Grown(w: Writer, text: string): Writer {
    Writer(w.out + text, w.depth, w.pretty, ',')
  }

  /** The effect of one more call after a run that is already known. */
  lemma Then(w: Writer, a: seq<Call>, w1: Writer, c: Call)
    requires Run(w, a) == Some(w1)
    ensures Run(w, a + [c]) == Step(w1, c)
    ensures Run(w, [c]) == Step(w, c)
  {
    RunConcat(w, a, [c]);
    assert [c][1..] == [];
    assert forall u :: Run(u, []) == Some(u);
  }

  lemma GrownTwice(w: Writer, x: string, y: string)
    ensures Grown(Grown(w, x), Sep(Grown(w, x)) + y) == Grown(w, x + ("," + y))
  {
  }

  lemma Assoc(a: string, b: string, c: string)
    ensures a + (b + c) == (a + b) + c
    ensures "" + a == a + "" == a
  {
  }

  /** Emitting a tree appends the separator that is due and the tree's text, and nothing else: the depth is
      back where it was and the next element will be separated by a comma. */
  lemma {:induction false} EmitsText(w: Writer, v: Value)
    ensures Run(w, Calls(v)) == Some(Grown(w, Sep(w) + Text(v, w.pretty, w.depth)))
    decreases v, 1
  {
    match v
    case Obj(ms) =>
      var w1, t := Opened(w, '{'), MembersText(ms, w.pretty, w.depth + 1);
      BodyEnd(w, '{', t, '}');
      if ms.Member? {
        EmitsMembers(w1, ms);
      }
      Wrapped(w, '{', MemberCalls(ms), if ms.Member? then Grown(w1, Sep(w1) + t) else w1, t, '}',
              Closing(ms == NoMembers, w.pretty, w.depth, '}'));
    case Arr(vs) =>
      var w1, t := Opened(w, '['), ItemsText(vs, w.pretty, w.depth + 1);
      BodyEnd(w, '[', t, ']');
      if vs.Item? {
        EmitsItems(w1, vs);
      }
      Wrapped(w, '[', ItemCalls(vs), if vs.Item? then Grown(w1, Sep(w1) + t) else w1, t, ']',
              Closing(vs == NoValues, w.pretty, w.depth, ']'));
    case Str(s) => Then(w, [], w, String(s));
    case Scalar(token) => Then(w, [], w, Printf(token));
  }

  function Opened(w: Writer, open: char): Writer {
    Writer(w.out + (Sep(w) + [open]), w.depth + 1, w.pretty, NUL)
  }

  /** A container around a body that is known to emit `text`, with `z` to close it. */
  lemma Wrapped(w: Writer, open: char, body: seq<Call>, w2: Writer, text: string, close: char, z: string)
    requires Run(Opened(w, open), body) == Some(w2) && Appended(w2, End(close)) == z
    requires w2.depth == w.depth + 1 && w2.pretty == w.pretty && w2.out == w.out + (Sep(w) + [open]) + text
    ensures Run(w, [Start(open)] + body + [End(close)]) == Some(Grown(w, Sep(w) + ([open] + text + z)))
  {
    WrappedRun(w, open, body, w2, close);
    RegroupBody(w.out, Sep(w), [open], text, z);
  }

  /** What the body of a container leaves behind, and how the container then closes. */
  lemma BodyEnd(w: Writer, open: char, text: string, close: char)
    ensures var w1 := Opened(w, open);
            var w2 := Grown(w1, Sep(w1) + text);
            && w2.out == w.out + (Sep(w) + [open]) + text
            && w1.out + "" == w1.out
            && Appended(w1, End(close)) == Closing(true, w.pretty, w.depth, close)
            && Appended(w2, End(close)) == Closing(false, w.pretty, w.depth, close)
  {
  }

  lemma WrappedRun(w: Writer, open: char, body: seq<Call>, w2: Writer, close: char)
    requires Run(Opened(w, open), body) == Some(w2)
    ensures Run(w, [Start(open)] + body + [End(close)]) == Step(w2, End(close))
  {
    Then(w, [], w, Start(open));
    RunConcat(w, [Start(open)], body);
    Then(w, [Start(open)] + body, w2, End(close));
  }

  lemma RegroupBody(o: string, s: string, a: string, t: string, z: string)
    ensures o + (s + a) + t + z == o + (s + (a + t + z))
  {
  }

  lemma {:induction false} EmitsMembers(w: Writer, ms: Members)
    requires ms.Member?
    ensures Run(w, MemberCalls(ms)) == Some(Grown(w, Sep(w) + MembersText(ms, w.pretty, w.depth)))
    decreases ms, 1
  {
    var Member(name, v, rest) := ms;
    var t := MemberText(name, v, w.pretty, w.depth);
    EmitsText(Step(w, Name(name)).value, v);
    EmitsMember(w, name, v);
    RunConcat(w, [Name(name)] + Calls(v), MemberCalls(rest));
    if rest.Member? {
      EmitsMembers(Grown(w, Sep(w) + t), rest);
      GrownTwice(w, Sep(w) + t, MembersText(rest, w.pretty, w.depth));
      Assoc(Sep(w), t, "," + MembersText(rest, w.pretty, w.depth));
    } else {
      Assoc(t, "", "");
    }
  }

  lemma EmitsMember(w: Writer, name: string, v: Value)
    requires var w1 := Step(w, Name(name)).value;
             Run(w1, Calls(v)) == Some(Grown(w1, Sep(w1) + Text(v, w1.pretty, w1.depth)))
    ensures Run(w, [Name(name)] + Calls(v)) == Some(Grown(w, Sep(w) + MemberText(name, v, w.pretty, w.depth)))
  {
    Then(w, [], w, Name(name));
    RunConcat(w, [Name(name)], Calls(v));
    var heading := Eol(w.pretty, w.depth) + Quote(name) + Colon(w.pretty);
    var t := Text(v, w.pretty, w.depth);
    Assoc(t, "", "");
    Assoc(Sep(w), heading, t);
    Assoc(w.out, Sep(w) + heading, t);
  }

  lemma {:induction false} EmitsItems(w: Writer, vs: Values)
    requires vs.Item?
    ensures Run(w, ItemCalls(vs)) == Some(Grown(w, Sep(w) + ItemsText(vs, w.pretty, w.depth)))
    decreases vs, 1
  {
    var Item(v, rest) := vs;
    var t := Text(v, w.pretty, w.depth);
    EmitsText(w, v);
    RunConcat(w, Calls(v), ItemCalls(rest));
    if rest.Item? {
      EmitsItems(Grown(w, Sep(w) + t), rest);
      GrownTwice(w, Sep(w) + t, ItemsText(rest, w.pretty, w.depth));
      Assoc(Sep(w), t, "," + ItemsText(rest, w.pretty, w.depth));
    } else {
      Assoc(t, "", "");
    }
  }
}
