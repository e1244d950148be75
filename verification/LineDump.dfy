/**
 The listing of a program with its source lines: a cursor over the line records moves on at every hit.
 */
module LineDump {
  import opened Wrappers
  import opened LineInfo

  /** Line record `rec` was printed before instruction `insn`. */
  datatype Shown = Shown(insn: nat, rec: nat)

  datatype Dump = Dump(nrSkip: nat, double: bool, shown: seq<Shown>)

  /** The state before instruction n.  `double` says of each instruction whether it takes up the next one too. */
  function DumpTo(off: seq<nat>, double: seq<bool>, n: nat): Dump
    requires n <= |double|
  {
    if n == 0 then Dump(0, false, [])
    else
      var d := DumpTo(off, double, n - 1);
      if d.double then d.(double := false)
      else
        match FindLast(off, d.nrSkip, |off|, n - 1)
        case None => d.(double := double[n - 1])
        case Some(r) => Dump(d.nrSkip + 1, double[n - 1], d.shown + [Shown(n - 1, r)])
  }

  method DumpXlatedPlain(linfo: ProgLinfo, double: seq<bool>) returns (shown: seq<Shown>)
    ensures shown == DumpTo(linfo.insnOff, double, |double|).shown
  {
    var nrSkip, doubleInsn, i := 0, false, 0;
    shown := [];
    while i < |double|
      invariant i <= |double| && DumpTo(linfo.insnOff, double, i) == Dump(nrSkip, doubleInsn, shown)
    {
      if doubleInsn {
        doubleInsn := false;
      } else {
        var r := linfo.Lfind(i, nrSkip);
        if r.Some? {
          shown := shown + [Shown(i, r.value)];
          nrSkip := nrSkip + 1;
        }
        doubleInsn := double[i];
      }
      i := i + 1;
    }
  }

  // ---------- What every listing keeps ----------

  /** Instruction i is not the second half of a double instruction. */
  predicate Whole(double: seq<bool>, i: nat)
    requires i <= |double|
  {
    i == 0 || !Whole(double, i - 1) || !double[i - 1]
  }

  /** The t-th line printed was looked up with t records skipped. */
  ghost predicate LookedUp(off: seq<nat>, double: seq<bool>, n: nat, shown: seq<Shown>, t: nat)
    requires n <= |double| && t < |shown|
  {
    && shown[t].insn < n && Whole(double, shown[t].insn)
    && FindLast(off, t, |off|, shown[t].insn) == Some(shown[t].rec)
    && (t > 0 ==> shown[t - 1].insn < shown[t].insn)
  }

  lemma {:induction false} EachLookedUp(off: seq<nat>, double: seq<bool>, n: nat)
    requires n <= |double|
    ensures var d := DumpTo(off, double, n);
            && d.nrSkip == |d.shown| && d.double == !Whole(double, n)
            && forall t :: 0 <= t < |d.shown| ==> LookedUp(off, double, n, d.shown, t)
  {
    if n > 0 {
      EachLookedUp(off, double, n - 1);
      var d, e := DumpTo(off, double, n - 1), DumpTo(off, double, n);
      forall t | 0 <= t < |e.shown| ensures LookedUp(off, double, n, e.shown, t) {
        if t < |d.shown| {
          StillLookedUp(off, double, n, d.shown, e.shown, t);
        } else if t > 0 {
          assert LookedUp(off, double, n - 1, d.shown, t - 1);
        }
      }
    }
  }

  lemma StillLookedUp(off: seq<nat>, double: seq<bool>, n: nat, shown: seq<Shown>, more: seq<Shown>, t: nat)
    requires 0 < n <= |double| && t < |shown| && shown <= more && LookedUp(off, double, n - 1, shown, t)
    ensures LookedUp(off, double, n, more, t)
  {
  }

  // ---------- Which records are shown ----------

  /** Every record of an instruction in the program is printed once and at its own instruction, and nothing else
      is. */
  ghost predicate Faithful(off: seq<nat>, len: nat, shown: seq<Shown>) {
    && (forall t :: 0 <= t < |shown| ==> shown[t].rec < |off| && off[shown[t].rec] == shown[t].insn)
    && (forall t, u :: 0 <= t < u < |shown| ==> shown[t].rec != shown[u].rec)
    && forall r :: 0 <= r < |off| && off[r] < len ==> exists t :: 0 <= t < |shown| && shown[t].rec == r
  }

  /** The records of instructions in the program are the first m ones, in strictly increasing order, and none is of
      the second half of a double instruction. */
  ghost predicate Orderly(off: seq<nat>, double: seq<bool>, m: nat) {
    && m <= |off|
    && (forall r :: 0 <= r < m ==> off[r] < |double| && Whole(double, off[r]))
    && (forall r, s :: 0 <= r < s < m ==> off[r] < off[s])
    && forall r :: m <= r < |off| ==> off[r] >= |double|
  }

  /** Before instruction n the listing shows the records so far, and the cursor is at the next. */
  ghost predicate Tracks(off: seq<nat>, m: nat, n: nat, d: Dump)
    requires m <= |off|
  {
    && d.nrSkip == |d.shown| <= m && (d.nrSkip < m ==> off[d.nrSkip] >= n)
    && forall t :: 0 <= t < |d.shown| ==> off[t] < n && d.shown[t] == Shown(off[t], t)
  }

  lemma {:induction false} OrderlyTo(off: seq<nat>, double: seq<bool>, m: nat, n: nat)
    requires Orderly(off, double, m) && n <= |double|
    ensures Tracks(off, m, n, DumpTo(off, double, n))
  {
    if n > 0 {
      OrderlyTo(off, double, m, n - 1);
      var d := DumpTo(off, double, n - 1);
      assert d.double == !Whole(double, n - 1) by {
        EachLookedUp(off, double, n - 1);
      }
      TracksNext(off, double, m, n, d);
    }
  }

  lemma TracksNext(off: seq<nat>, double: seq<bool>, m: nat, n: nat, d: Dump)
    requires Orderly(off, double, m) && 0 < n <= |double| && Tracks(off, m, n - 1, d)
    requires d == DumpTo(off, double, n - 1) && d.double == !Whole(double, n - 1)
    ensures Tracks(off, m, n, DumpTo(off, double, n))
  {
  }

  lemma OrderlyIsFaithful(off: seq<nat>, double: seq<bool>, m: nat)
    requires Orderly(off, double, m)
    ensures Faithful(off, |double|, DumpTo(off, double, |double|).shown)
  {
    var shown := DumpTo(off, double, |double|).shown;
    OrderlyTo(off, double, m, |double|);
    assert |shown| == m;
    forall r | 0 <= r < |off| && off[r] < |double| ensures exists t :: 0 <= t < |shown| && shown[t].rec == r {
      assert r < m;
      assert shown[r].rec == r;
    }
  }

  /** In a faithful listing the t-th line printed is record t. */
  lemma {:induction false} RecordsInOrder(off: seq<nat>, double: seq<bool>, t: nat)
    requires var shown := DumpTo(off, double, |double|).shown;
             Faithful(off, |double|, shown) && t < |shown|
    ensures DumpTo(off, double, |double|).shown[t].rec == t
  {
    var shown := DumpTo(off, double, |double|).shown;
    EachLookedUp(off, double, |double|);
    assert LookedUp(off, double, |double|, shown, t);
    assert t < |off| && off[t] < |double|;
    var u :| 0 <= u < |shown| && shown[u].rec == t;
    assert LookedUp(off, double, |double|, shown, u);
    if u < t {
      RecordsInOrder(off, double, u);
    }
  }

  lemma {:induction false} InsnsIncrease(off: seq<nat>, double: seq<bool>, n: nat, shown: seq<Shown>, t: nat, u: nat)
    requires n <= |double| && t < u < |shown|
    requires forall x :: 0 <= x < |shown| ==> LookedUp(off, double, n, shown, x)
    ensures shown[t].insn < shown[u].insn
    decreases u
  {
    assert LookedUp(off, double, n, shown, u);
    if t < u - 1 {
      InsnsIncrease(off, double, n, shown, t, u - 1);
    }
  }

  lemma InPlace(off: seq<nat>, double: seq<bool>, t: nat)
    requires var shown := DumpTo(off, double, |double|).shown;
             Faithful(off, |double|, shown) && t < |shown|
    ensures t < |off| && off[t] == DumpTo(off, double, |double|).shown[t].insn
    ensures off[t] < |double| && Whole(double, off[t])
  {
    RecordsInOrder(off, double, t);
    EachLookedUp(off, double, |double|);
    assert LookedUp(off, double, |double|, DumpTo(off, double, |double|).shown, t);
  }

  lemma FaithfulIsOrderly(off: seq<nat>, double: seq<bool>)
    requires Faithful(off, |double|, DumpTo(off, double, |double|).shown)
    ensures Orderly(off, double, |DumpTo(off, double, |double|).shown|)
  {
    var shown := DumpTo(off, double, |double|).shown;
    var m := |shown|;
    if m > 0 {
      InPlace(off, double, m - 1);
    }
    forall r | 0 <= r < m ensures off[r] < |double| && Whole(double, off[r]) {
      InPlace(off, double, r);
    }
    forall r, s | 0 <= r < s < m ensures off[r] < off[s] {
      InPlace(off, double, r);
      InPlace(off, double, s);
      EachLookedUp(off, double, |double|);
      InsnsIncrease(off, double, |double|, shown, r, s);
    }
    forall r | m <= r < |off| ensures off[r] >= |double| {
      if off[r] < |double| {
        var t :| 0 <= t < m && shown[t].rec == r;
        RecordsInOrder(off, double, t);
      }
    }
  }

  /** The listing shows every record of an instruction in the program exactly once, at its own instruction, if and
      only if those records come first, strictly increase, and none is of the second half of a double instruction. */
  lemma FaithfulExactly(off: seq<nat>, double: seq<bool>)
    ensures Faithful(off, |double|, DumpTo(off, double, |double|).shown) <==> exists m :: Orderly(off, double, m)
  {
    if m :| Orderly(off, double, m) {
      OrderlyIsFaithful(off, double, m);
    } else if Faithful(off, |double|, DumpTo(off, double, |double|).shown) {
      FaithfulIsOrderly(off, double);
    }
  }
}
