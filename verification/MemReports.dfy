/** What a memory test reports, and where a full test stops. */
module MemReports {
  import opened Bits
  import opened MemTest
  import opened MemCoverage
  import opened MemVerdict

  /** The report of a mismatch: the index, the word expected there, and the word read. */
  ghost predicate Reported(f: Fabric, c: seq<nat>, p: Pattern, n: nat, r: Report)
    requires f.Valid() && |c| == |f.stuckAt0| && n <= |f.decode|
  {
    && r.index < n && r.expected == p.At(f, r.index)
    && r.got == f.Sense(f.decode[r.index], c[f.decode[r.index]]) != r.expected
  }

  /** Reading back finds exactly the mismatches, in ascending order of the indices. */
  lemma {:induction false} MismatchesAre(f: Fabric, c: seq<nat>, p: Pattern, n: nat)
    requires f.Valid() && |c| == |f.stuckAt0| && n <= |f.decode|
    ensures forall r: Report :: r in Mismatches(f, c, p, n) <==> Reported(f, c, p, n, r)
    ensures forall i, j :: 0 <= i < j < |Mismatches(f, c, p, n)| ==>
              Mismatches(f, c, p, n)[i].index < Mismatches(f, c, p, n)[j].index
  {
    hide Pattern.At, Fabric.Sense;
    if n > 0 {
      MismatchesAre(f, c, p, n - 1);
      var before := Mismatches(f, c, p, n - 1);
      forall i | 0 <= i < |before|
        ensures before[i].index < n - 1
      {
        assert before[i] in before;
      }
    }
  }

  /** A subtest that stops at its first mismatch fails with -1 and reports that one alone. */
  lemma FirstReported(f: Fabric, c: seq<nat>, p: Pattern, n: nat)
    requires f.Valid() && |c| == |f.stuckAt0| && n <= |f.decode|
    ensures var o := Pass(f, c, p, n);
            && o.cells == Fill(f, c, p, n) && (o.status == 0 || o.status == -1)
            && (o.status == -1 ==> |o.log| == 1 && Reported(f, o.cells, p, n, o.log[0]))
            && (o.status == -1 ==> forall i :: 0 <= i < o.log[0].index ==>
                  f.Sense(f.decode[i], o.cells[f.decode[i]]) == p.At(f, i))
  {
    hide Fill, Mismatches, Pattern.At, Fabric.Sense;
    var filled := Fill(f, c, p, n);
    var bad := Mismatches(f, filled, p, n);
    MismatchesAre(f, filled, p, n);
    if bad != [] {
      assert bad[0] in bad;
      forall i | 0 <= i < bad[0].index
        ensures f.Sense(f.decode[i], filled[f.decode[i]]) == p.At(f, i)
      {
        var r := Report(i, p.At(f, i), f.Sense(f.decode[i], filled[f.decode[i]]));
        assert r !in bad;
      }
    }
  }

  /** The incrementing subtest at 32 bits reports every mismatch, in ascending order. */
  lemma AllReported(f: Fabric, c: seq<nat>, words: nat)
    requires f.Valid() && |c| == |f.stuckAt0| && words <= |f.decode| && f.width.W32?
    ensures var o := CountRun(f, c, words);
            && o.status == 0 && o.cells == Fill(f, c, Counting, words)
            && (forall r: Report :: r in o.log <==> Reported(f, o.cells, Counting, words, r))
            && (forall i, j :: 0 <= i < j < |o.log| ==> o.log[i].index < o.log[j].index)
  {
    hide Fill, Mismatches, Reported;
    MismatchesAre(f, Fill(f, c, Counting, words), Counting, words);
  }

  lemma {:induction false} WalkStatus(f: Fabric, c: seq<nat>, zeros: bool, row: nat)
    requires f.Valid() && |c| == |f.stuckAt0| && row <= f.width.Bits() <= |f.decode|
    ensures var o := WalkRun(f, c, zeros, row);
            (o.status == 0 && o.log == []) || (o.status == -1 && |o.log| == 1)
    decreases f.width.Bits() - row
  {
    hide Pass, Width.Bits;
    if row < f.width.Bits() {
      FirstReported(f, c, Walking(zeros, row), f.width.Bits());
      NoLogWhenPassed(f, c, Walking(zeros, row), f.width.Bits());
      WalkStatus(f, Pass(f, c, Walking(zeros, row), f.width.Bits()).cells, zeros, row + 1);
    }
  }

  /** A walking subtest takes its rows in ascending order and fails in the first whose pattern
      the faults disturb: `before` is what the rows until then left in memory. */
  lemma {:induction false} WalkStopsAt(f: Fabric, c: seq<nat>, zeros: bool, row: nat, r: nat) returns (before: seq<nat>)
    requires f.Valid() && |c| == |f.stuckAt0| && row <= r < f.width.Bits() <= |f.decode|
    requires forall q :: row <= q < r ==> Undetected(f, Walking(zeros, q), f.width.Bits())
    requires !Undetected(f, Walking(zeros, r), f.width.Bits())
    ensures |before| == |c| && (r == row ==> before == c)
    ensures WalkRun(f, c, zeros, row) == Pass(f, before, Walking(zeros, r), f.width.Bits())
    ensures WalkRun(f, c, zeros, row).status == -1
    decreases r - row
  {
    hide Pass, Undetected, Width.Bits;
    var p := Walking(zeros, row);
    PassVerdict(f, c, p, f.width.Bits());
    FirstReported(f, c, p, f.width.Bits());
    if row == r {
      before := c;
    } else {
      before := WalkStopsAt(f, Pass(f, c, p, f.width.Bits()).cells, zeros, row + 1, r);
    }
  }

  lemma NoLogWhenPassed(f: Fabric, c: seq<nat>, p: Pattern, n: nat)
    requires f.Valid() && |c| == |f.stuckAt0| && n <= |f.decode|
    ensures Pass(f, c, p, n).status == 0 ==> Pass(f, c, p, n).log == []
  {
  }

  /** A single subtest: status 0 or -1, and one report exactly on failure, but for the 32-bit
      incrementing one. A number that names no subtest fails and touches nothing. */
  lemma SubtestStatus(f: Fabric, c: seq<nat>, words: nat, pattern: nat, k: nat)
    requires Fits(f, c, words)
    ensures var o := Subtest(f, c, words, pattern, k);
            && (o.status == 0 || o.status == -1)
            && (1 <= k <= 5 && !(k == 1 && f.width.W32?) ==> |o.log| == if o.status == 0 then 0 else 1)
            && (k == 0 || k > 5 ==> o == Outcome(-1, c, []))
  {
    hide Pass, WalkRun;
    WalkStatus(f, c, k == WALKZEROS, 0);
    var p := if k == INCREMENT then Counting else if k == INVERSEADDR then InverseAddress
             else Constant(FixedValue(f.width, pattern));
    FirstReported(f, c, p, words);
    NoLogWhenPassed(f, c, p, words);
  }

  /** What the subtests before number `k` leave in the log of a full test that reaches it: the
      reports of the 32-bit incrementing one. */
  function Earlier(f: Fabric, c: seq<nat>, words: nat, k: nat): seq<Report>
    requires Fits(f, c, words)
  {
    if k > INCREMENT && f.width.W32? then CountRun(f, c, words).log else []
  }

  lemma {:induction false} LogSoFar(f: Fabric, c: seq<nat>, words: nat, pattern: nat, k: nat)
    requires Fits(f, c, words) && pattern < f.width.Span() && 1 <= k <= 6
    requires forall j :: 1 <= j < k ==> Accepts(f, words, pattern, j)
    ensures var o := UpTo(f, c, words, pattern, k - 1);
            o.status == 0 && o.log == Earlier(f, c, words, k)
  {
    hide Accepts, Subtest;
    if k > 1 {
      LogSoFar(f, c, words, pattern, k - 1);
      var o := UpTo(f, c, words, pattern, k - 2);
      SubtestVerdict(f, o.cells, words, pattern, k - 1);
      SubtestStatus(f, o.cells, words, pattern, k - 1);
      if k == 2 {
        assert UpTo(f, c, words, pattern, 0) == Outcome(0, c, []);
        FirstSubtest(f, c, words, pattern);
      }
    }
  }

  lemma FirstSubtest(f: Fabric, c: seq<nat>, words: nat, pattern: nat)
    requires Fits(f, c, words)
    ensures Subtest(f, c, words, pattern, 1) == CountRun(f, c, words)
  {
  }

  /** The full test runs the subtests in the order of their numbers and stops at the first
      that the faults fail, with what that one reports and leaves in memory. */
  lemma FullTestStops(f: Fabric, c: seq<nat>, words: nat, pattern: nat, k: nat)
    requires Fits(f, c, words) && pattern < f.width.Span() && 1 <= k <= 5
    requires forall j :: 1 <= j < k ==> Accepts(f, words, pattern, j)
    requires !Accepts(f, words, pattern, k)
    ensures var o := Run(f, c, words, pattern, ALLMEMTESTS);
            var s := Subtest(f, UpTo(f, c, words, pattern, k - 1).cells, words, pattern, k);
            o.status == s.status == -1 && o.cells == s.cells && o.log == Earlier(f, c, words, k) + s.log
  {
    hide Accepts, Subtest;
    LogSoFar(f, c, words, pattern, k);
    SubtestVerdict(f, UpTo(f, c, words, pattern, k - 1).cells, words, pattern, k);
    SubtestStatus(f, UpTo(f, c, words, pattern, k - 1).cells, words, pattern, k);
    Stopped(f, c, words, pattern, k, FIXEDPATTERN);
    hide UpTo;
    AllIsUpTo(f, c, words, pattern);
  }
}
