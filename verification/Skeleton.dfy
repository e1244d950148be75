/**
 The struct that describes a data section in a generated skeleton: padding is emitted so that, whatever alignment
 the compiler gives the variables, each lands on the offset recorded for it.
 */
module Skeleton {
  import opened Wrappers

  /** A variable of a data section as recorded in BTF.  `align` is what `btf__align_of` answers, not positive if it
      cannot tell, and `dumpErr` what printing the declaration does, 0 if it succeeds. */
  datatype Var = Var(offset: nat, size: nat, align: int, isStatic: bool, dumpErr: int)

  /** A field of the emitted struct: `char __pad<number>[bytes]`, or variable k. */
  datatype Field = Pad(number: nat, bytes: nat) | Data(k: nat, v: Var)

  type Pos = x: int | 0 < x witness 1

  // ---------- Rounding up ----------

  /** The first multiple of a from x on. */
  function RoundUp(x: nat, a: Pos): nat { if x % a == 0 then x else x + (a - x % a) }

  lemma DivMod(x: int, a: Pos)
    ensures x == a * (x / a) + x % a
  {
  }

  lemma ModUnique(q: int, a: int, r: int)
    requires 0 <= r < a
    ensures (a * q + r) % a == r
  {
    var x := a * q + r;
    DivMod(x, a);
    var d := q - x / a;
    assert a * d == a * q - a * (x / a);
    MultiplesApart(d, a);
  }

  lemma MultiplesApart(d: int, a: int)
    requires a > 0
    ensures (d > 0 ==> a * d >= a) && (d < 0 ==> a * d <= -a)
  {
  }

  lemma RoundUpMultiple(x: nat, a: Pos)
    ensures RoundUp(x, a) % a == 0
  {
    DivMod(x, a);
    if x % a != 0 {
      assert RoundUp(x, a) == a * (x / a + 1) + 0;
      ModUnique(x / a + 1, a, 0);
    }
  }

  /** Of the numbers from x on and closer than a, only the rounded one is a multiple of a. */
  lemma RoundUpUnique(x: nat, a: Pos, y: int)
    requires x <= y < x + a
    ensures RoundUp(x, a) == y <==> y % a == 0
  {
    RoundUpMultiple(x, a);
    if y % a == 0 {
      var z := RoundUp(x, a);
      DivMod(y, a);
      DivMod(z, a);
      var d := y / a - z / a;
      assert a * d == a * (y / a) - a * (z / a);
      MultiplesApart(d, a);
    }
  }

  /** How the source rounds up. */
  lemma RoundUpByDivision(x: nat, a: Pos)
    requires a <= 4
    ensures (x + a - 1) / a * a == RoundUp(x, a)
  {
  }

  // ---------- The generator ----------

  function Min(x: int, y: int): int { if x < y then x else y }

  function Capped(align: Pos): Pos { Min(align, 4) }

  predicate NeedsPad(off: nat, v: Var) {
    v.align > 0 && RoundUp(off, Capped(v.align)) != v.offset
  }

  datatype State = State(off: nat, pads: nat, fields: seq<Field>, err: int) {
    predicate Ok() { err == 0 }
  }

  function Padded(s: State, v: Var): State {
    if s.off <= v.offset && NeedsPad(s.off, v) then
      s.(fields := s.fields + [Pad(s.pads, v.offset - s.off)], pads := s.pads + 1)
    else s
  }

  function Next(s: State, k: nat, v: Var): State {
    if s.off > v.offset || v.align <= 0 then s.(err := -EINVAL)
    else
      var p := Padded(s, v);
      if v.dumpErr != 0 then p.(err := v.dumpErr)
      else State(v.offset + v.size, p.pads, p.fields + [Data(k, v)], 0)
  }

  /** The state after the first n variables. */
  function Emitted(vars: seq<Var>, n: nat): State
    requires n <= |vars|
  {
    if n == 0 then State(0, 0, [], 0)
    else
      var s := Emitted(vars, n - 1);
      if !s.Ok() || vars[n - 1].isStatic then s else Next(s, n - 1, vars[n - 1])
  }

  /** `known` says whether the section has a place in the skeleton at all. */
  method CodegenDatasecDef(known: bool, vars: seq<Var>) returns (err: int, fields: seq<Field>)
    ensures !known ==> err == 0 && fields == []
    ensures known ==> err == Emitted(vars, |vars|).err && fields == Emitted(vars, |vars|).fields
  {
    if !known {
      return 0, [];
    }
    var off: nat, padCnt: nat, i := 0, 0, 0;
    fields, err := [], 0;
    while i < |vars|
      invariant i <= |vars| && err == 0 && Emitted(vars, i) == State(off, padCnt, fields, 0)
    {
      if !vars[i].isStatic {
        off, padCnt, fields, err := EmitVar(i, vars[i], off, padCnt, fields);
        if err != 0 {
          FailsForGood(vars, i + 1, |vars|);
          return;
        }
      }
      i := i + 1;
    }
  }

  /** The body of the loop, for a variable that is not static. */
  method EmitVar(k: nat, v: Var, off: nat, padCnt: nat, fields: seq<Field>)
    returns (off': nat, padCnt': nat, fields': seq<Field>, err: int)
    ensures State(off', padCnt', fields', err) == Next(State(off, padCnt, fields, 0), k, v)
  {
    off', padCnt', fields', err := off, padCnt, fields, 0;
    var needOff := v.offset;
    if off > needOff {
      return off, padCnt, fields, -EINVAL;
    }
    var align := v.align;
    if align <= 0 {
      return off, padCnt, fields, -EINVAL;
    }
    if align > 4 {
      align := 4;
    }
    var alignOff := (off + align - 1) / align * align;
    RoundUpByDivision(off, align);
    if alignOff != needOff {
      fields' := fields' + [Pad(padCnt, needOff - off)];
      padCnt' := padCnt' + 1;
    }
    err := v.dumpErr;
    if err == 0 {
      fields' := fields' + [Data(k, v)];
      off' := v.offset + v.size;
    }
  }

  lemma {:induction false} FailsForGood(vars: seq<Var>, m: nat, n: nat)
    requires m <= n <= |vars| && !Emitted(vars, m).Ok()
    ensures Emitted(vars, n) == Emitted(vars, m)
  {
    if m < n {
      FailsForGood(vars, m, n - 1);
    }
  }

  // ---------- When it succeeds ----------

  /** Where the last variable before n that is not static ends. */
  function EndBefore(vars: seq<Var>, n: nat): nat
    requires n <= |vars|
  {
    if n == 0 then 0
    else if vars[n - 1].isStatic then EndBefore(vars, n - 1)
    else vars[n - 1].offset + vars[n - 1].size
  }

  predicate Ordered(vars: seq<Var>, k: nat)
    requires k < |vars|
  {
    vars[k].isStatic
    || (EndBefore(vars, k) <= vars[k].offset && vars[k].align > 0 && vars[k].dumpErr == 0)
  }

  /** The generator succeeds exactly if the variables that are not static do not overlap, come in order, have a known
      alignment, and can be declared. */
  lemma {:induction false} SucceedsExactly(vars: seq<Var>, n: nat)
    requires n <= |vars|
    ensures Emitted(vars, n).Ok() <==> forall k :: 0 <= k < n ==> Ordered(vars, k)
    ensures Emitted(vars, n).Ok() ==> Emitted(vars, n).off == EndBefore(vars, n)
  {
    if n > 0 {
      SucceedsExactly(vars, n - 1);
      assert (forall k :: 0 <= k < n ==> Ordered(vars, k)) <==>
             (forall k :: 0 <= k < n - 1 ==> Ordered(vars, k)) && Ordered(vars, n - 1);
    }
  }

  /** If it fails, the first variable that is not in order says why. */
  lemma ErrorIs(vars: seq<Var>, k: nat)
    requires k < |vars| && !Ordered(vars, k) && forall j :: 0 <= j < k ==> Ordered(vars, j)
    ensures var v := vars[k];
            Emitted(vars, |vars|).err ==
              if EndBefore(vars, k) > v.offset || v.align <= 0 then -EINVAL else v.dumpErr
  {
    SucceedsExactly(vars, k);
    NextFails(Emitted(vars, k), k, vars[k]);
    FailsForGood(vars, k + 1, |vars|);
  }

  lemma NextFails(s: State, k: nat, v: Var)
    requires s.Ok() && !(s.off <= v.offset && v.align > 0 && v.dumpErr == 0)
    ensures !Next(s, k, v).Ok()
    ensures Next(s, k, v).err == if s.off > v.offset || v.align <= 0 then -EINVAL else v.dumpErr
  {
  }

  /** Where no padding is needed: the variable's offset is a multiple of its alignment, capped at 4, and no such
      multiple lies in the gap before it. */
  lemma PadsExactly(off: nat, v: Var)
    requires off <= v.offset && v.align > 0
    ensures NeedsPad(off, v) <==>
            var a := if v.align > 4 then 4 else v.align; !(v.offset % a == 0 && v.offset - a < off)
  {
    var a := Capped(v.align);
    if v.offset < off + a {
      RoundUpUnique(off, a, v.offset);
    }
  }

  /** The fields of one variable: itself, behind just the bytes from where the last one ended, unless none are
      needed. */
  lemma VariableFields(vars: seq<Var>, k: nat)
    requires k < |vars| && !vars[k].isStatic && Emitted(vars, k + 1).Ok()
    ensures Emitted(vars, k).Ok() && EndBefore(vars, k) <= vars[k].offset && vars[k].align > 0
    ensures var v, s := vars[k], Emitted(vars, k);
            var a := if v.align > 4 then 4 else v.align;
            Emitted(vars, k + 1).fields ==
              s.fields + (if v.offset % a == 0 && v.offset - a < EndBefore(vars, k) then []
                          else [Pad(s.pads, v.offset - EndBefore(vars, k))]) + [Data(k, v)]
  {
    SucceedsExactly(vars, k);
    PadsExactly(EndBefore(vars, k), vars[k]);
  }

  // ---------- What a compiler makes of the struct ----------

  /** The alignment an ABI gives each variable. */
  type Abi = nat -> Pos

  /** The end of a struct, and the variables with the offsets they get. */
  datatype Placing = Placing(end: nat, at: seq<(nat, nat)>)

  /** The C rule: every field goes to the first multiple of its alignment that is free. */
  function Place(abi: Abi, fields: seq<Field>): Placing {
    if fields == [] then Placing(0, [])
    else
      var p := Place(abi, fields[..|fields| - 1]);
      match fields[|fields| - 1]
      case Pad(_, bytes) => Placing(p.end + bytes, p.at)
      case Data(k, v) =>
        var x := RoundUp(p.end, abi(k));
        Placing(x + v.size, p.at + [(k, x)])
  }

  lemma PlaceData(abi: Abi, fields: seq<Field>, k: nat, v: Var)
    ensures var p := Place(abi, fields);
            var x := RoundUp(p.end, abi(k));
            Place(abi, fields + [Data(k, v)]) == Placing(x + v.size, p.at + [(k, x)])
  {
  }

  lemma PlacePad(abi: Abi, fields: seq<Field>, number: nat, bytes: nat, k: nat, v: Var)
    ensures var p := Place(abi, fields);
            var x := RoundUp(p.end + bytes, abi(k));
            Place(abi, fields + [Pad(number, bytes)] + [Data(k, v)]) == Placing(x + v.size, p.at + [(k, x)])
  {
    var padded := fields + [Pad(number, bytes)];
    assert padded[..|padded| - 1] == fields;
    PlaceData(abi, padded, k, v);
  }

  /** The variables that are not static with the offsets recorded for them, in order. */
  function Recorded(vars: seq<Var>, n: nat): seq<(nat, nat)>
    requires n <= |vars|
  {
    if n == 0 then []
    else if vars[n - 1].isStatic then Recorded(vars, n - 1)
    else Recorded(vars, n - 1) + [(n - 1, vars[n - 1].offset)]
  }

  /** What it takes for variable k to be placed well: its offset suits the alignment, and the gap before it is
      padded or is what alignment alone leaves. */
  predicate Fits(vars: seq<Var>, abi: Abi, k: nat)
    requires k < |vars|
  {
    vars[k].isStatic || FitsAfter(EndBefore(vars, k), vars[k], abi(k))
  }

  predicate FitsAfter(off: nat, v: Var, a: Pos) {
    v.offset % a == 0 && (NeedsPad(off, v) || v.offset - off < a)
  }

  lemma RoundsIfFits(off: nat, v: Var, a: Pos)
    requires off <= v.offset
    ensures RoundUp(if NeedsPad(off, v) then v.offset else off, a) == v.offset <==> FitsAfter(off, v, a)
  {
    if NeedsPad(off, v) {
      RoundUpUnique(v.offset, a, v.offset);
    } else if v.offset < off + a {
      RoundUpUnique(off, a, v.offset);
    }
  }

  /** Variable n goes to x, which, if the struct so far ends where it should, is the recorded offset just if the
      variable fits. */
  lemma AppendsOne(vars: seq<Var>, abi: Abi, n: nat) returns (x: nat)
    requires n < |vars| && !vars[n].isStatic && Emitted(vars, n + 1).Ok()
    ensures Emitted(vars, n).Ok()
    ensures var p := Place(abi, Emitted(vars, n).fields);
            && Place(abi, Emitted(vars, n + 1).fields) == Placing(x + vars[n].size, p.at + [(n, x)])
            && (p.end == EndBefore(vars, n) ==> (x == vars[n].offset <==> Fits(vars, abi, n)))
  {
    var s, v := Emitted(vars, n), vars[n];
    assert s.off == EndBefore(vars, n) by {
      SucceedsExactly(vars, n);
    }
    x := PlaceNext(abi, s, n, v);
    RoundsIfFits(s.off, v, abi(n));
  }

  /** Where the compiler puts the next variable. */
  lemma PlaceNext(abi: Abi, s: State, n: nat, v: Var) returns (x: nat)
    requires s.off <= v.offset
    ensures var p := Place(abi, s.fields);
            && x == RoundUp(p.end + (if NeedsPad(s.off, v) then v.offset - s.off else 0), abi(n))
            && Place(abi, Padded(s, v).fields + [Data(n, v)]) == Placing(x + v.size, p.at + [(n, x)])
  {
    var end := Place(abi, s.fields).end;
    if NeedsPad(s.off, v) {
      PlacePad(abi, s.fields, s.pads, v.offset - s.off, n, v);
      x := RoundUp(end + (v.offset - s.off), abi(n));
    } else {
      PlaceData(abi, s.fields, n, v);
      x := RoundUp(end, abi(n));
    }
  }

  lemma LastAgrees(s: seq<(nat, nat)>, x: (nat, nat), t: seq<(nat, nat)>, y: (nat, nat))
    ensures s + [x] == t + [y] <==> s == t && x == y
  {
    if s + [x] == t + [y] {
      assert s == (s + [x])[..|s|] && t == (t + [y])[..|t|];
      assert x == (s + [x])[|s|] && y == (t + [y])[|t|];
    }
  }

  predicate AllFit(vars: seq<Var>, abi: Abi, n: nat)
    requires n <= |vars|
  {
    n == 0 || (AllFit(vars, abi, n - 1) && Fits(vars, abi, n - 1))
  }

  lemma {:induction false} AllFitMeans(vars: seq<Var>, abi: Abi, n: nat)
    requires n <= |vars|
    ensures AllFit(vars, abi, n) <==> forall k :: 0 <= k < n ==> Fits(vars, abi, k)
  {
    if n > 0 {
      AllFitMeans(vars, abi, n - 1);
    }
  }

  lemma {:induction false} PlacedPrefix(vars: seq<Var>, abi: Abi, n: nat)
    requires n <= |vars| && Emitted(vars, n).Ok()
    ensures var p := Place(abi, Emitted(vars, n).fields);
            && (AllFit(vars, abi, n) ==> p == Placing(EndBefore(vars, n), Recorded(vars, n)))
            && (p.at == Recorded(vars, n) ==> AllFit(vars, abi, n))
  {
    if n > 0 {
      if vars[n - 1].isStatic {
        PlacedPrefix(vars, abi, n - 1);
      } else {
        var x := AppendsOne(vars, abi, n - 1);
        PlacedPrefix(vars, abi, n - 1);
        LastAgrees(Place(abi, Emitted(vars, n - 1).fields).at, (n - 1, x),
                    Recorded(vars, n - 1), (n - 1, vars[n - 1].offset));
      }
    }
  }

  /** The struct that is emitted puts every variable that is not static at the offset recorded for it if and only if
      each offset suits the variable's alignment and each gap is padded or left by alignment. */
  lemma PlacedExactly(vars: seq<Var>, abi: Abi)
    requires Emitted(vars, |vars|).Ok()
    ensures Place(abi, Emitted(vars, |vars|).fields).at == Recorded(vars, |vars|) <==>
            forall k :: 0 <= k < |vars| ==> Fits(vars, abi, k)
  {
    PlacedPrefix(vars, abi, |vars|);
    AllFitMeans(vars, abi, |vars|);
  }

  /** An ABI under which every offset suits its variable and no variable is aligned less than the generator
      supposes. */
  ghost predicate Suits(vars: seq<Var>, abi: Abi) {
    forall k :: 0 <= k < |vars| && !vars[k].isStatic ==>
      vars[k].offset % abi(k) == 0 && abi(k) >= Min(vars[k].align, 4)
  }

  /** The guess of at most 4 is safe for every ABI that aligns the same or more. */
  lemma PlacedUnderEveryAbi(vars: seq<Var>, abi: Abi)
    requires Emitted(vars, |vars|).Ok() && Suits(vars, abi)
    ensures Place(abi, Emitted(vars, |vars|).fields).at == Recorded(vars, |vars|)
  {
    forall k | 0 <= k < |vars| ensures Fits(vars, abi, k) {
      SucceedsExactly(vars, |vars|);
      assert Ordered(vars, k);
      if !vars[k].isStatic && !NeedsPad(EndBefore(vars, k), vars[k]) {
        assert RoundUp(EndBefore(vars, k), Capped(vars[k].align)) == vars[k].offset;
      }
    }
    PlacedExactly(vars, abi);
  }

  function Natural(vars: seq<Var>): Abi {
    (k: nat) => if k < |vars| && vars[k].align > 0 then vars[k].align else 1
  }

  function ThirtyTwoBit(vars: seq<Var>): Abi {
    (k: nat) => if k < |vars| && vars[k].align > 0 then Capped(vars[k].align) else 1
  }

  lemma MultipleOfFour(x: nat, a: Pos)
    requires x % a == 0 && a % 4 == 0
    ensures x % 4 == 0
  {
    var b, q := a / 4, x / a;
    DivMod(x, a);
    assert a * q == (4 * b) * q == 4 * (b * q);
    ModUnique(b * q, 4, 0);
  }

  /** A recorded section whose offsets are multiples of their variables' alignments (1, 2, 4, 8) is laid out
      as recorded both where alignments are natural and where they are capped at 4. */
  lemma {:induction false} PlacedUnderBothAbis(vars: seq<Var>)
    requires forall k :: 0 <= k < |vars| ==> Ordered(vars, k)
    requires forall k :: 0 <= k < |vars| && !vars[k].isStatic ==>
               vars[k].align > 0 && (vars[k].align <= 4 || vars[k].align % 4 == 0) &&
               vars[k].offset % vars[k].align == 0
    ensures Emitted(vars, |vars|).Ok()
    ensures Place(Natural(vars), Emitted(vars, |vars|).fields).at == Recorded(vars, |vars|)
    ensures Place(ThirtyTwoBit(vars), Emitted(vars, |vars|).fields).at == Recorded(vars, |vars|)
  {
    SucceedsExactly(vars, |vars|);
    PlacedUnderEveryAbi(vars, Natural(vars));
    forall k | 0 <= k < |vars| && !vars[k].isStatic ensures vars[k].offset % Capped(vars[k].align) == 0 {
      if vars[k].align > 4 {
        MultipleOfFour(vars[k].offset, vars[k].align);
      }
    }
    PlacedUnderEveryAbi(vars, ThirtyTwoBit(vars));
  }

  // ---------- Names ----------

  function PadCount(fields: seq<Field>): nat {
    if fields == [] then 0 else PadCount(fields[..|fields| - 1]) + if fields[|fields| - 1].Pad? then 1 else 0
  }

  /** The padding fields, of which there are `pads`, are numbered upwards, from 0 and without gaps. */
  ghost predicate Numbered(fields: seq<Field>, pads: nat) {
    && pads == PadCount(fields)
    && (forall i :: 0 <= i < |fields| && fields[i].Pad? ==> fields[i].number < pads)
    && forall i, j :: 0 <= i < j < |fields| && fields[i].Pad? && fields[j].Pad? ==> fields[i].number < fields[j].number
  }

  lemma NumberedMore(fields: seq<Field>, pads: nat, f: Field)
    requires Numbered(fields, pads) && (f.Pad? ==> f.number == pads)
    ensures Numbered(fields + [f], if f.Pad? then pads + 1 else pads)
  {
    assert (fields + [f])[..|fields|] == fields;
  }

  /** No two padding fields have the same name. */
  lemma {:induction false} PadsNumbered(vars: seq<Var>, n: nat)
    requires n <= |vars|
    ensures Numbered(Emitted(vars, n).fields, Emitted(vars, n).pads)
  {
    if n > 0 {
      PadsNumbered(vars, n - 1);
      var s, v := Emitted(vars, n - 1), vars[n - 1];
      if s.Ok() && !v.isStatic && s.off <= v.offset && v.align > 0 {
        NumberedPadded(s, v);
        NumberedMore(Padded(s, v).fields, Padded(s, v).pads, Data(n - 1, v));
      }
    }
  }

  lemma NumberedPadded(s: State, v: Var)
    requires Numbered(s.fields, s.pads)
    ensures Numbered(Padded(s, v).fields, Padded(s, v).pads)
  {
    if s.off <= v.offset && NeedsPad(s.off, v) {
      NumberedMore(s.fields, s.pads, Pad(s.pads, v.offset - s.off));
    }
  }
}
