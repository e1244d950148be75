/**
 The line-info index of a program: the flat list of addresses of translated instructions is cut into functions, and
 queries ask for the last record at or before an address or an instruction.
 */
module LineInfo {
  import opened Wrappers

  const TWO_64 := 0x1_0000_0000_0000_0000

  type u64 = x: int | 0 <= x < TWO_64
  type u32 = x: int | 0 <= x < 0x1_0000_0000

  /** Subtraction and addition as C does them on 64 bits. */
  function Sub64(a: u64, b: u64): u64 { if a >= b then a - b else a - b + TWO_64 }

  function Succ64(a: u64): u64 { if a == TWO_64 - 1 then 0 else a + 1 }

  // ---------- Cutting the list into functions ----------

  /** The records that the functions begin at. */
  ghost predicate Begins(jited: seq<u64>, ksym: seq<u64>, idx: seq<nat>) {
    && 0 < |idx| <= |ksym| && |jited| > 0
    && idx[0] == 0
    && (forall f :: 0 <= f < |idx| ==> idx[f] < |jited| && jited[idx[f]] == ksym[f])
    && forall f, g :: 0 <= f < g < |idx| ==> idx[f] < idx[g]
  }

  /** Record i still belongs to the function before f. */
  predicate Onward(jited: seq<u64>, ksym: seq<u64>, f: nat, i: int)
    requires f < |ksym| && 0 < i < |jited|
  {
    jited[i - 1] < jited[i] && jited[i] != ksym[f]
  }

  /** Between the first record of function f - 1 and that of f: addresses increase, and none is f's. */
  ghost predicate Inner(jited: seq<u64>, ksym: seq<u64>, f: nat, lo: int, hi: int)
    requires f < |ksym| && 0 <= lo && hi <= |jited|
  {
    forall i :: lo < i < hi ==> Onward(jited, ksym, f, i)
  }

  /** The last address of a function is within its length, as the source computes it. */
  predicate LengthChecked(jited: seq<u64>, ksym: seq<u64>, len: seq<u32>, f: nat, next: nat)
    requires f < |ksym| && f < |len| && 0 < next <= |jited|
  {
    Succ64(Sub64(jited[next - 1], ksym[f])) <= len[f]
  }

  /** Function f - 1 goes up to the beginning of f. */
  ghost predicate Separates(jited: seq<u64>, ksym: seq<u64>, len: seq<u32>, idx: seq<nat>, f: nat)
    requires |len| == |ksym| && Begins(jited, ksym, idx) && 0 < f < |idx|
  {
    Inner(jited, ksym, f, idx[f - 1], idx[f]) && LengthChecked(jited, ksym, len, f - 1, idx[f])
  }

  /** What it is to cut off the functions before the last of `idx`. */
  ghost predicate Cut(jited: seq<u64>, ksym: seq<u64>, len: seq<u32>, idx: seq<nat>) {
    && |len| == |ksym| && Begins(jited, ksym, idx)
    && forall f :: 0 < f < |idx| ==> Separates(jited, ksym, len, idx, f)
  }

  /** A dissection has a beginning for every function. */
  ghost predicate Dissection(jited: seq<u64>, ksym: seq<u64>, len: seq<u32>, idx: seq<nat>) {
    Cut(jited, ksym, len, idx) && |idx| == |ksym|
  }

  /** There is at most one dissection. */
  lemma {:induction false} CutsAgree(jited: seq<u64>, ksym: seq<u64>, len: seq<u32>, a: seq<nat>, b: seq<nat>, f: nat)
    requires Cut(jited, ksym, len, a) && Cut(jited, ksym, len, b) && f < |a| && f < |b|
    ensures a[f] == b[f]
  {
    if f > 0 {
      CutsAgree(jited, ksym, len, a, b, f - 1);
      assert Separates(jited, ksym, len, a, f) && Separates(jited, ksym, len, b, f);
      assert a[f] < b[f] ==> Onward(jited, ksym, f, a[f]);
      assert b[f] < a[f] ==> Onward(jited, ksym, f, b[f]);
    }
  }

  lemma CutAt(jited: seq<u64>, ksym: seq<u64>, len: seq<u32>, idx: seq<nat>, f: nat)
    requires Cut(jited, ksym, len, idx) && 0 < f < |idx|
    ensures idx[f - 1] < idx[f] < |jited| && jited[idx[f]] == ksym[f]
    ensures Inner(jited, ksym, f, idx[f - 1], idx[f]) && LengthChecked(jited, ksym, len, f - 1, idx[f])
  {
    assert Separates(jited, ksym, len, idx, f);
  }

  /** The scan has passed the records before i, and is looking for the beginning of the next function. */
  ghost predicate Scanned(jited: seq<u64>, ksym: seq<u64>, len: seq<u32>, idx: seq<nat>, i: int) {
    && Cut(jited, ksym, len, idx) && idx[|idx| - 1] < i <= |jited|
    && (|idx| < |ksym| ==> Inner(jited, ksym, |idx|, idx[|idx| - 1], i))
  }

  lemma ScannedFirst(jited: seq<u64>, ksym: seq<u64>, len: seq<u32>)
    requires |jited| > 0 && |ksym| == |len| && |ksym| > 0 && jited[0] == ksym[0]
    ensures Scanned(jited, ksym, len, [0], 1)
  {
  }

  lemma ScannedPast(jited: seq<u64>, ksym: seq<u64>, len: seq<u32>, idx: seq<nat>, i: int)
    requires Scanned(jited, ksym, len, idx, i) && |idx| < |ksym| && i < |jited|
    requires jited[i] != ksym[|idx|] && jited[i - 1] < jited[i]
    ensures Scanned(jited, ksym, len, idx, i + 1)
  {
  }

  lemma ScannedFound(jited: seq<u64>, ksym: seq<u64>, len: seq<u32>, idx: seq<nat>, i: int)
    requires Scanned(jited, ksym, len, idx, i) && |idx| < |ksym| && i < |jited|
    requires jited[i] == ksym[|idx|] && LengthChecked(jited, ksym, len, |idx| - 1, i)
    ensures Scanned(jited, ksym, len, idx + [i], i + 1)
  {
    var more := idx + [i];
    assert Begins(jited, ksym, more);
    forall f | 0 < f < |more| ensures Separates(jited, ksym, len, more, f) {
      if f < |idx| {
        CutAt(jited, ksym, len, idx, f);
      }
    }
  }

  /** Record i is neither inside function f - 1 nor a good beginning of f. */
  ghost predicate Stuck(jited: seq<u64>, ksym: seq<u64>, len: seq<u32>, f: nat, i: int)
    requires 0 < f < |ksym| == |len| && 0 < i < |jited|
  {
    if jited[i] == ksym[f] then !LengthChecked(jited, ksym, len, f - 1, i) else jited[i] <= jited[i - 1]
  }

  /** A dissection goes on from wherever the scan has come. */
  lemma DissectionGoesOn(jited: seq<u64>, ksym: seq<u64>, len: seq<u32>, done: seq<nat>, i: int, idx: seq<nat>)
    requires Scanned(jited, ksym, len, done, i) && |done| < |ksym| && Dissection(jited, ksym, len, idx)
    ensures i < |jited| && !Stuck(jited, ksym, len, |done|, i)
  {
    var f := |done|;
    CutsAgree(jited, ksym, len, done, idx, f - 1);
    CutAt(jited, ksym, len, idx, f);
    assert idx[f] < i ==> Onward(jited, ksym, f, idx[f]);
    assert i < idx[f] ==> Onward(jited, ksym, f, i);
  }

  // ---------- What a dissection is good for ----------

  /** The first record after function f. */
  function EndOf(idx: seq<nat>, n: nat, f: nat): nat
    requires f < |idx|
  {
    if f + 1 < |idx| then idx[f + 1] else n
  }

  /** Record i is of the last function that begins at or before it. */
  lemma {:induction false} FuncOf(jited: seq<u64>, ksym: seq<u64>, idx: seq<nat>, i: nat, g: nat) returns (f: nat)
    requires Begins(jited, ksym, idx) && i < |jited| && g < |idx| && i < EndOf(idx, |jited|, g)
    ensures f <= g && idx[f] <= i < EndOf(idx, |jited|, f)
  {
    if idx[g] <= i {
      f := g;
    } else {
      f := FuncOf(jited, ksym, idx, i, g - 1);
    }
  }

  /** Every record is of exactly one function, and every function has a record, at its own address. */
  lemma RangesPartition(jited: seq<u64>, ksym: seq<u64>, len: seq<u32>, idx: seq<nat>, i: nat) returns (f: nat)
    requires Dissection(jited, ksym, len, idx) && i < |jited|
    ensures f < |idx| && idx[f] <= i < EndOf(idx, |jited|, f)
    ensures forall g :: 0 <= g < |idx| && idx[g] <= i < EndOf(idx, |jited|, g) ==> g == f
    ensures idx[f] < |jited| && jited[idx[f]] == ksym[f]
  {
    f := FuncOf(jited, ksym, idx, i, |idx| - 1);
  }

  function Sum(counts: seq<nat>): nat {
    if counts == [] then 0 else Sum(counts[..|counts| - 1]) + counts[|counts| - 1]
  }

  /** Counts that lead from each beginning to the next add up to the beginning. */
  lemma {:induction false} CountsAddUp(counts: seq<nat>, idx: seq<nat>, n: nat, f: nat)
    requires |counts| == |idx| > 0 && idx[0] == 0 && f <= |idx|
    requires forall g :: 0 <= g < |idx| ==> idx[g] + counts[g] == EndOf(idx, n, g)
    ensures Sum(counts[..f]) == if f < |idx| then idx[f] else n
  {
    if f > 0 {
      CountsAddUp(counts, idx, n, f - 1);
      assert counts[..f][..f - 1] == counts[..f - 1];
      assert idx[f - 1] + counts[f - 1] == EndOf(idx, n, f - 1);
    }
  }

  /** In every function but the last, addresses increase. */
  lemma {:induction false} IncreasesWithin(jited: seq<u64>, ksym: seq<u64>, len: seq<u32>, idx: seq<nat>, f: nat,
                                           i: nat, j: nat)
    requires Dissection(jited, ksym, len, idx) && f + 1 < |idx| && idx[f] <= i < j < idx[f + 1]
    ensures j < |jited| && jited[i] < jited[j]
    decreases j
  {
    CutAt(jited, ksym, len, idx, f + 1);
    assert Onward(jited, ksym, f + 1, j);
    if i < j - 1 {
      IncreasesWithin(jited, ksym, len, idx, f, i, j - 1);
    }
  }

  /** In every function but the last, addresses lie between the first and the last one. */
  lemma BetweenEnds(jited: seq<u64>, ksym: seq<u64>, len: seq<u32>, idx: seq<nat>, f: nat, i: nat)
    requires Dissection(jited, ksym, len, idx) && f + 1 < |idx| && idx[f] <= i < idx[f + 1]
    ensures idx[f + 1] <= |jited| && ksym[f] <= jited[i] <= jited[idx[f + 1] - 1]
  {
    CutAt(jited, ksym, len, idx, f + 1);
    assert jited[idx[f]] == ksym[f];
    if idx[f] < i {
      IncreasesWithin(jited, ksym, len, idx, f, idx[f], i);
    }
    if i < idx[f + 1] - 1 {
      IncreasesWithin(jited, ksym, len, idx, f, i, idx[f + 1] - 1);
    }
  }

  lemma LengthArithmetic(last: u64, ksym: u64, len: u32)
    requires ksym <= last
    ensures Succ64(Sub64(last, ksym)) <= len <==> last < ksym + len || (ksym == 0 && last == TWO_64 - 1)
    ensures ksym == 0 && last == TWO_64 - 1 ==> last >= ksym + len
  {
  }

  /** In every function but the last, every address lies within the function's length of its address, with one
      exception: the length of a function from address 0 to the very last address wraps to 0 and passes the check. */
  lemma WithinLength(jited: seq<u64>, ksym: seq<u64>, len: seq<u32>, idx: seq<nat>, f: nat)
    requires Dissection(jited, ksym, len, idx) && f + 1 < |idx|
    ensures idx[f] < idx[f + 1] <= |jited|
    ensures (forall i :: idx[f] <= i < idx[f + 1] ==> ksym[f] <= jited[i] < ksym[f] + len[f]) <==>
            !(ksym[f] == 0 && jited[idx[f + 1] - 1] == TWO_64 - 1)
  {
    CutAt(jited, ksym, len, idx, f + 1);
    var last := idx[f + 1] - 1;
    assert jited[last] < ksym[f] + len[f] <==> !(ksym[f] == 0 && jited[last] == TWO_64 - 1) by {
      BetweenEnds(jited, ksym, len, idx, f, last);
      LengthArithmetic(jited[last], ksym[f], len[f]);
    }
    forall i | idx[f] <= i < idx[f + 1] ensures ksym[f] <= jited[i] <= jited[last] {
      BetweenEnds(jited, ksym, len, idx, f, i);
    }
  }

  /** The exception occurs: two functions, the first of which is said to be empty, and is not. */
  lemma LengthMayWrap()
    ensures var jited: seq<u64>, ksym: seq<u64>, len: seq<u32> := [0, TWO_64 - 1, 7], [0, 7], [0, 1];
            var idx: seq<nat> := [0, 2];
            Dissection(jited, ksym, len, idx) && !(jited[0] < ksym[0] + len[0]) && !(jited[1] < ksym[0] + len[0])
  {
    var jited: seq<u64>, ksym: seq<u64>, len: seq<u32> := [0, TWO_64 - 1, 7], [0, 7], [0, 1];
    var idx: seq<nat> := [0, 2];
    assert Begins(jited, ksym, idx);
    assert Onward(jited, ksym, 1, 1);
    assert Separates(jited, ksym, len, idx, 1);
  }

  /** Function f has the records from lo to hi: their addresses increase, the next function's is not among them, and
      they lie within the function's length, or else go from address 0 to the very last one. */
  predicate HasRecords(jited: seq<u64>, ksym: seq<u64>, len: seq<u32>, f: nat, lo: nat, hi: nat)
    requires f + 1 < |ksym| == |len|
  {
    && lo < hi <= |jited|
    && (forall i, j :: lo <= i < j < hi ==> jited[i] < jited[j])
    && (forall i :: lo < i < hi ==> jited[i] != ksym[f + 1])
    && var last := jited[hi - 1];
       last < ksym[f] + len[f] || (ksym[f] == 0 && last == TWO_64 - 1)
  }

  predicate NextRecords(jited: seq<u64>, ksym: seq<u64>, len: seq<u32>, idx: seq<nat>, f: nat)
    requires f + 1 < |idx| == |ksym| == |len|
  {
    HasRecords(jited, ksym, len, f, idx[f], idx[f + 1])
  }

  /** The functions begin at these records, each at its own address, and each has the records up to the next. */
  predicate Divides(jited: seq<u64>, ksym: seq<u64>, len: seq<u32>, idx: seq<nat>) {
    && |idx| == |ksym| == |len| && |ksym| > 0 && idx[0] == 0
    && (forall f :: 0 <= f < |idx| ==> idx[f] < |jited| && jited[idx[f]] == ksym[f])
    && forall f :: 0 <= f < |idx| - 1 ==> NextRecords(jited, ksym, len, idx, f)
  }

  lemma {:induction false} DividesInOrder(jited: seq<u64>, ksym: seq<u64>, len: seq<u32>, idx: seq<nat>, f: nat, g: nat)
    requires Divides(jited, ksym, len, idx) && f < g < |idx|
    ensures idx[f] < idx[g]
  {
    assert NextRecords(jited, ksym, len, idx, g - 1);
    if f < g - 1 {
      DividesInOrder(jited, ksym, len, idx, f, g - 1);
    }
  }

  lemma SeparatesExactly(jited: seq<u64>, ksym: seq<u64>, len: seq<u32>, idx: seq<nat>, f: nat)
    requires |idx| == |ksym| == |len| && Begins(jited, ksym, idx) && f + 1 < |idx|
    requires NextRecords(jited, ksym, len, idx, f)
    ensures Separates(jited, ksym, len, idx, f + 1)
  {
    LengthArithmetic(jited[idx[f + 1] - 1], ksym[f], len[f]);
  }

  lemma RecordsFollow(jited: seq<u64>, ksym: seq<u64>, len: seq<u32>, idx: seq<nat>, f: nat)
    requires Dissection(jited, ksym, len, idx) && f + 1 < |idx|
    ensures NextRecords(jited, ksym, len, idx, f)
  {
    CutAt(jited, ksym, len, idx, f + 1);
    BetweenEnds(jited, ksym, len, idx, f, idx[f + 1] - 1);
    LengthArithmetic(jited[idx[f + 1] - 1], ksym[f], len[f]);
    forall i, j | idx[f] <= i < j < idx[f + 1] ensures jited[i] < jited[j] {
      IncreasesWithin(jited, ksym, len, idx, f, i, j);
    }
    forall i | idx[f] < i < idx[f + 1] ensures jited[i] != ksym[f + 1] {
      assert Onward(jited, ksym, f + 1, i);
    }
  }

  /** What a dissection is, without the source's arithmetic on 64 bits. */
  lemma DissectionExactly(jited: seq<u64>, ksym: seq<u64>, len: seq<u32>, idx: seq<nat>)
    ensures Dissection(jited, ksym, len, idx) <==> Divides(jited, ksym, len, idx)
  {
    if Dissection(jited, ksym, len, idx) {
      forall f | 0 <= f < |idx| - 1 ensures NextRecords(jited, ksym, len, idx, f) {
        RecordsFollow(jited, ksym, len, idx, f);
      }
    }
    if Divides(jited, ksym, len, idx) {
      forall f, g | 0 <= f < g < |idx| ensures idx[f] < idx[g] {
        DividesInOrder(jited, ksym, len, idx, f, g);
      }
      forall f | 0 < f < |idx| ensures Separates(jited, ksym, len, idx, f) {
        assert NextRecords(jited, ksym, len, idx, f - 1);
        SeparatesExactly(jited, ksym, len, idx, f - 1);
      }
    }
  }

  // ---------- Queries ----------

  /** Where a scan from lo for something greater than x stops. */
  function ScanEnd(s: seq<nat>, lo: nat, hi: nat, x: nat): (r: nat)
    requires lo <= hi <= |s|
    ensures lo <= r <= hi && (r < hi ==> x < s[r]) && forall j :: lo <= j < r ==> s[j] <= x
    decreases hi - lo
  {
    if lo == hi || x < s[lo] then lo else ScanEnd(s, lo + 1, hi, x)
  }

  function FindLast(s: seq<nat>, lo: nat, hi: nat, x: nat): (r: Option<nat>)
    requires hi <= |s|
    ensures r.Some? <==> lo < hi && s[lo] <= x
    ensures r.Some? ==> lo <= r.value < hi
  {
    if lo >= hi || x < s[lo] then None else Some(ScanEnd(s, lo, hi, x) - 1)
  }

  /** Among increasing records the answer is the last one at or before x. */
  lemma FindLastIsLast(s: seq<nat>, lo: nat, hi: nat, x: nat)
    requires hi <= |s| && forall i, j :: lo <= i < j < hi ==> s[i] < s[j]
    ensures var r := FindLast(s, lo, hi, x);
            forall j :: lo <= j < hi ==> (s[j] <= x <==> r.Some? && j <= r.value)
  {
  }

  class ProgLinfo {
    /** The instruction each record belongs to, and the address of its translation. */
    const insnOff: seq<nat>
    const jited: seq<u64>

    /** For each translated function, the first record and the number of records. */
    const funcIdx: array<nat>
    const nrPerFunc: array<nat>

    constructor (insnOff: seq<nat>, jited: seq<u64>, nrFunc: nat)
      ensures this.insnOff == insnOff && this.jited == jited
      ensures fresh(funcIdx) && fresh(nrPerFunc) && funcIdx != nrPerFunc
      ensures funcIdx.Length == nrPerFunc.Length == nrFunc
    {
      this.insnOff, this.jited := insnOff, jited;
      funcIdx, nrPerFunc := new nat[nrFunc], new nat[nrFunc];
    }

    /** The counts of the functions before f are what their beginnings leave. */
    ghost predicate Counted(f: int)
      reads funcIdx, nrPerFunc
    {
      && f < funcIdx.Length == nrPerFunc.Length
      && forall g :: 0 <= g < f ==> funcIdx[g] + nrPerFunc[g] == funcIdx[g + 1]
    }

    /** The functions are indexed: they begin as a dissection has it, and their counts cover all records. */
    ghost predicate Indexed(ksym: seq<u64>, len: seq<u32>)
      reads funcIdx, nrPerFunc
    {
      && Dissection(jited, ksym, len, funcIdx[..]) && Counted(|ksym| - 1)
      && funcIdx[|ksym| - 1] + nrPerFunc[|ksym| - 1] == |jited|
    }

    ghost predicate Answered(ksym: seq<u64>, len: seq<u32>, ok: bool)
      reads funcIdx, nrPerFunc
    {
      if ok then Indexed(ksym, len) && Divides(jited, ksym, len, funcIdx[..])
      else forall idx :: !Divides(jited, ksym, len, idx)
    }

    ghost predicate Scanning(ksym: seq<u64>, len: seq<u32>, done: seq<nat>, prevI: nat, i: int, f: int)
      reads funcIdx, nrPerFunc
    {
      && 0 < f == |done| <= |ksym| == funcIdx.Length && Scanned(jited, ksym, len, done, i)
      && funcIdx[..f] == done && prevI == done[f - 1] && Counted(f - 1)
    }

    /** Finds where the functions begin; fails just if there is no dissection. */
    method DissectJitedFunc(ksym: seq<u64>, len: seq<u32>) returns (ok: bool)
      requires |jited| > 0 && |ksym| == |len| == funcIdx.Length == nrPerFunc.Length && |ksym| > 0
      requires funcIdx != nrPerFunc
      modifies funcIdx, nrPerFunc
      ensures Answered(ksym, len, ok)
    {
      if ksym[0] != jited[0] {
        NoStart(ksym, len);
        return false;
      }
      funcIdx[0] := 0;
      ghost var done: seq<nat> := [0];
      ScannedFirst(jited, ksym, len);
      var prevI, i, f := 0, 1, 1;
      while i < |jited| && f < |ksym|
        invariant Scanning(ksym, len, done, prevI, i, f)
        decreases |jited| - i
      {
        var lastJited, cur := jited[i - 1], jited[i];
        if ksym[f] == cur {
          if Succ64(Sub64(lastJited, ksym[f - 1])) > len[f - 1] {
            GiveUp(ksym, len, done, i);
            return false;
          }
          Found(ksym, len, done, prevI, i, f);
          done := done + [i];
          prevI := i;
          f := f + 1;
        } else if cur <= lastJited {
          GiveUp(ksym, len, done, i);
          return false;
        } else {
          ScannedPast(jited, ksym, len, done, i);
        }
        i := i + 1;
      }
      if f != |ksym| {
        GiveUp(ksym, len, done, i);
        return false;
      }
      Finish(ksym, len, done, prevI, i);
      DissectionExactly(jited, ksym, len, funcIdx[..]);
      ok := true;
    }

    /** Function f begins at record i. */
    method Found(ksym: seq<u64>, len: seq<u32>, ghost done: seq<nat>, prevI: nat, i: int, f: int)
      requires Scanning(ksym, len, done, prevI, i, f) && i < |jited| && f < |ksym| && funcIdx != nrPerFunc
      requires jited[i] == ksym[f] && LengthChecked(jited, ksym, len, f - 1, i)
      modifies funcIdx, nrPerFunc
      ensures Scanning(ksym, len, done + [i], i, i + 1, f + 1)
    {
      ScannedFound(jited, ksym, len, done, i);
      funcIdx[f] := i;
      nrPerFunc[f - 1] := i - prevI;
      assert funcIdx[f - 1] == done[f - 1];
    }

    /** The last function has the remaining records. */
    method Finish(ksym: seq<u64>, len: seq<u32>, ghost done: seq<nat>, prevI: nat, i: int)
      requires Scanning(ksym, len, done, prevI, i, |ksym|) && funcIdx != nrPerFunc
      modifies nrPerFunc
      ensures Indexed(ksym, len)
    {
      nrPerFunc[|ksym| - 1] := |jited| - prevI;
      assert funcIdx[..] == done && funcIdx[|ksym| - 1] == done[|ksym| - 1];
    }

    /** The last record of function f, past the skipped ones, whose address is at or before `addr`. */
    method LfindAddrFunc(addr: nat, f: nat, nrSkip: nat) returns (r: Option<nat>)
      requires funcIdx.Length == nrPerFunc.Length
      requires f < funcIdx.Length ==> funcIdx[f] + nrPerFunc[f] <= |jited|
      ensures r == if f < funcIdx.Length
                   then FindLast(jited, funcIdx[f] + nrSkip, funcIdx[f] + nrPerFunc[f], addr)
                   else None
    {
      if f >= funcIdx.Length {
        return None;
      }
      var nrLinfo := nrPerFunc[f];
      if nrSkip >= nrLinfo {
        return None;
      }
      var start := funcIdx[f] + nrSkip;
      if addr < jited[start] {
        return None;
      }
      nrLinfo := nrLinfo - nrSkip;
      var i := 0;
      while i < nrLinfo
        invariant 0 <= i <= nrLinfo
        invariant ScanEnd(jited, start, start + nrLinfo, addr) == ScanEnd(jited, start + i, start + nrLinfo, addr)
      {
        if addr < jited[start + i] {
          break;
        }
        i := i + 1;
      }
      return Some(start + i - 1);
    }

    /** The last record, past the skipped ones, at or before instruction `insn`. */
    method Lfind(insn: nat, nrSkip: nat) returns (r: Option<nat>)
      ensures r == FindLast(insnOff, nrSkip, |insnOff|, insn)
    {
      var nrLinfo := |insnOff|;
      if nrSkip >= nrLinfo {
        return None;
      }
      if insn < insnOff[nrSkip] {
        return None;
      }
      nrLinfo := nrLinfo - nrSkip;
      var i := 0;
      while i < nrLinfo
        invariant 0 <= i <= nrLinfo
        invariant ScanEnd(insnOff, nrSkip, |insnOff|, insn) == ScanEnd(insnOff, nrSkip + i, |insnOff|, insn)
      {
        if insn < insnOff[nrSkip + i] {
          break;
        }
        i := i + 1;
      }
      return Some(nrSkip + i - 1);
    }

    lemma NoStart(ksym: seq<u64>, len: seq<u32>)
      requires |jited| > 0 && |ksym| > 0 && ksym[0] != jited[0]
      ensures forall idx :: !Divides(jited, ksym, len, idx)
    {
    }

    lemma GiveUp(ksym: seq<u64>, len: seq<u32>, done: seq<nat>, i: int)
      requires Scanned(jited, ksym, len, done, i) && |done| < |ksym|
      requires i < |jited| ==> Stuck(jited, ksym, len, |done|, i)
      ensures forall idx :: !Divides(jited, ksym, len, idx)
    {
      forall idx ensures !Divides(jited, ksym, len, idx) {
        DissectionExactly(jited, ksym, len, idx);
        if Dissection(jited, ksym, len, idx) {
          DissectionGoesOn(jited, ksym, len, done, i, idx);
        }
      }
    }
  }

  lemma CountsLead(p: ProgLinfo, ksym: seq<u64>, len: seq<u32>, idx: seq<nat>, counts: seq<nat>)
    requires p.Indexed(ksym, len) && idx == p.funcIdx[..] && counts == p.nrPerFunc[..]
    ensures forall g :: 0 <= g < |idx| ==> idx[g] + counts[g] == EndOf(idx, |p.jited|, g)
  {
  }

  /** After a dissection the counts add up to the number of records. */
  lemma CountsCoverAll(p: ProgLinfo, ksym: seq<u64>, len: seq<u32>)
    requires p.Indexed(ksym, len)
    ensures Sum(p.nrPerFunc[..]) == |p.jited|
  {
    var idx, counts := p.funcIdx[..], p.nrPerFunc[..];
    CountsLead(p, ksym, len, idx, counts);
    CountsAddUp(counts, idx, |p.jited|, |idx|);
    assert counts[..|idx|] == counts;
  }

  /** A query in any function but the last answers the function's last record at or before the address. */
  lemma AddrQuery(jited: seq<u64>, ksym: seq<u64>, len: seq<u32>, idx: seq<nat>, f: nat, nrSkip: nat, addr: nat)
    requires Dissection(jited, ksym, len, idx) && f + 1 < |idx|
    ensures idx[f + 1] <= |jited|
    ensures var r := FindLast(jited, idx[f] + nrSkip, idx[f + 1], addr);
            forall j :: idx[f] + nrSkip <= j < idx[f + 1] ==> (jited[j] <= addr <==> r.Some? && j <= r.value)
  {
    CutAt(jited, ksym, len, idx, f + 1);
    forall i, j | idx[f] + nrSkip <= i < j < idx[f + 1] ensures jited[i] < jited[j] {
      IncreasesWithin(jited, ksym, len, idx, f, i, j);
    }
    FindLastIsLast(jited, idx[f] + nrSkip, idx[f + 1], addr);
  }
}
