/** The verdict of a whole memory test, and what a passing test leaves in memory. */
module MemVerdict {
  import opened Bits
  import opened MemTest
  import opened MemCoverage

  /** What subtest `k` passing says about the memory; the contents before play no part. */
  ghost predicate Accepts(f: Fabric, words: nat, pattern: nat, k: nat)
    requires f.Valid() && words <= |f.decode| && f.width.Bits() <= |f.decode|
  {
    if k == INCREMENT then f.width.W32? || Undetected(f, Counting, words)
    else if k == WALKONES || k == WALKZEROS then f.Injective(f.width.Bits()) && f.NoStuck(f.width.Bits())
    else if k == INVERSEADDR then Undetected(f, InverseAddress, words)
    else k == FIXEDPATTERN && AllSpared(f, Constant(FixedValue(f.width, pattern)), words)
  }

  lemma FixedCoverage(f: Fabric, n: nat, v: nat)
    requires f.Valid() && n <= |f.decode| && v < f.width.Span()
    ensures Undetected(f, Constant(v), n) <==> AllSpared(f, Constant(v), n)
    ensures AllSpared(f, Constant(v), n) <==> forall i :: 0 <= i < n ==> Spared(f, f.decode[i], v)
  {
    hide Fabric.Sense, Spared;
    AllSparedIff(f, Constant(v), n);
  }

  /** Every subtest's verdict is a property of the memory's faults alone. */
  lemma SubtestVerdict(f: Fabric, c: seq<nat>, words: nat, pattern: nat, k: nat)
    requires Fits(f, c, words) && pattern < f.width.Span()
    ensures Subtest(f, c, words, pattern, k).status == 0 <==> Accepts(f, words, pattern, k)
  {
    hide Undetected, Pass, WalkRun, AllSpared, Fabric.Injective, Fabric.NoStuck;
    if k == INCREMENT {
      PassVerdict(f, c, Counting, words);
    } else if k == WALKONES || k == WALKZEROS {
      WalkCoverage(f, c, k == WALKZEROS);
    } else if k == INVERSEADDR {
      PassVerdict(f, c, InverseAddress, words);
    } else if k == FIXEDPATTERN {
      PassVerdict(f, c, Constant(FixedValue(f.width, pattern)), words);
      FixedCoverage(f, words, FixedValue(f.width, pattern));
    }
  }

  /** The 32-bit incrementing subtest always passes; what it finds shows in its reports only. */
  lemma Increment32Reports(f: Fabric, c: seq<nat>, words: nat)
    requires f.Valid() && |c| == |f.stuckAt0| && words <= |f.decode| && f.width.W32?
    ensures CountRun(f, c, words).status == 0
    ensures CountRun(f, c, words).log == [] <==> Undetected(f, Counting, words)
  {
    FillReadsBack(f, c, Counting, words);
  }

  lemma {:induction false} UpToVerdict(f: Fabric, c: seq<nat>, words: nat, pattern: nat, n: nat)
    requires Fits(f, c, words) && pattern < f.width.Span()
    ensures UpTo(f, c, words, pattern, n).status == 0
            <==> forall k :: 1 <= k <= n ==> Accepts(f, words, pattern, k)
  {
    hide Subtest, Accepts;
    if n > 0 {
      UpToVerdict(f, c, words, pattern, n - 1);
      SubtestVerdict(f, UpTo(f, c, words, pattern, n - 1).cells, words, pattern, n);
    }
  }

  /** The full test passes exactly when each subtest passes on its own, from any contents. */
  lemma AllTestsIffEach(f: Fabric, c: seq<nat>, words: nat, pattern: nat)
    requires Fits(f, c, words) && pattern < f.width.Span()
    ensures Run(f, c, words, pattern, ALLMEMTESTS).status == 0
            <==> forall k, before: seq<nat> :: 1 <= k <= FIXEDPATTERN && |before| == |c| ==>
                   Run(f, before, words, pattern, k).status == 0
  {
    hide Subtest, Accepts, UpTo;
    UpToVerdict(f, c, words, pattern, FIXEDPATTERN);
    forall k, before: seq<nat> | 1 <= k <= FIXEDPATTERN && |before| == |c|
      ensures Run(f, before, words, pattern, k).status == 0 <==> Accepts(f, words, pattern, k)
    {
      SubtestVerdict(f, before, words, pattern, k);
    }
    if forall k, before: seq<nat> :: 1 <= k <= FIXEDPATTERN && |before| == |c| ==>
         Run(f, before, words, pattern, k).status == 0
    {
      forall k | 1 <= k <= FIXEDPATTERN
        ensures Accepts(f, words, pattern, k)
      {
        assert Run(f, c, words, pattern, k).status == 0;
      }
    }
  }

  /** The distance in words at which aliases escape the full test. */
  function BlindPeriod(w: Width): (p: nat)
    ensures p > 0
  {
    match w case W8 => 0x100 case W16 => 0x1_0000 case W32 => 0x4000_0000
  }

  lemma BlindPeriods(w: Width, d: nat)
    ensures d % BlindPeriod(w) == 0
            <==> (w.W32? || d % w.Span() == 0) && d % AddressPeriod(w) == 0
  {
    if w.W16? && d % 0x1_0000 == 0 {
      DivUnique(d, 0x8000, 2 * (d / 0x1_0000), 0);
    }
  }

  /** The verdict of the full test for every combination of faults: it passes exactly when
      the walked words are sound, all other aliases are a multiple of the blind period apart,
      and no stuck bit contradicts any word that is checked there. */
  lemma FullTestVerdict(f: Fabric, c: seq<nat>, words: nat, pattern: nat)
    requires Fits(f, c, words) && pattern < f.width.Span()
    ensures Run(f, c, words, pattern, ALLMEMTESTS).status == 0
            <==> && f.Injective(f.width.Bits()) && f.NoStuck(f.width.Bits())
                 && AliasesRepeat(f, words, BlindPeriod(f.width))
                 && (f.width.W32? || AllSpared(f, Counting, words))
                 && AllSpared(f, InverseAddress, words)
                 && AllSpared(f, Constant(FixedValue(f.width, pattern)), words)
  {
    assert f.Valid() && words <= |f.decode| && f.width.Bits() <= |f.decode|;
    hide *;
    UpToVerdict(f, c, words, pattern, FIXEDPATTERN);
    AllIsUpTo(f, c, words, pattern);
    FiveVerdicts(f, words, pattern);
    IncrementVerdict(f, words);
    InverseAddrVerdict(f, words);
    AliasPeriods(f, words);
  }

  /** The decoder faults the full test misses are exactly these: two words a multiple of
      the blind period apart, not both among the walked ones. */
  lemma FullTestCoverage(f: Fabric, c: seq<nat>, words: nat, pattern: nat)
    requires Fits(f, c, words) && pattern < f.width.Span() && f.NoStuck(words)
    ensures Run(f, c, words, pattern, ALLMEMTESTS).status == 0
            <==> && f.Injective(f.width.Bits()) && f.NoStuck(f.width.Bits())
                 && AliasesRepeat(f, words, BlindPeriod(f.width))
  {
    FullTestVerdict(f, c, words, pattern);
    hide *;
    NoStuckSpares(f, Counting, words);
    NoStuckSpares(f, InverseAddress, words);
    NoStuckSpares(f, Constant(FixedValue(f.width, pattern)), words);
  }

  /** Where no two words share a cell, the stuck bits missed are exactly those beyond the
      walked words that agree with every word checked there: the count from one, the inverted
      byte address and the fixed word. */
  lemma StuckCoverage(f: Fabric, c: seq<nat>, words: nat, pattern: nat)
    requires Fits(f, c, words) && pattern < f.width.Span()
    requires f.Injective(Max(words, f.width.Bits()))
    ensures Run(f, c, words, pattern, ALLMEMTESTS).status == 0
            <==> && f.NoStuck(f.width.Bits())
                 && forall i :: f.width.Bits() <= i < words ==>
                      && (f.width.W32? || Spared(f, f.decode[i], i + 1))
                      && FacesAddress(f, i)
                      && Spared(f, f.decode[i], FixedValue(f.width, pattern))
  {
    hide Run, Pattern.At, Spared, FacesAddress, Width.Bits;
    FullTestVerdict(f, c, words, pattern);
    forall i | 0 <= i < words
      ensures Spared(f, f.decode[i], Counting.At(f, i)) <==> Spared(f, f.decode[i], i + 1)
      ensures Spared(f, f.decode[i], InverseAddress.At(f, i)) <==> FacesAddress(f, i)
    {
      CountSpared(f, i);
      AddressSpared(f, i);
    }
    if f.NoStuck(f.width.Bits()) {
      var n := f.width.Bits();
      NoStuckSpares(f, Counting, n);
      NoStuckSpares(f, InverseAddress, n);
      NoStuckSpares(f, Constant(FixedValue(f.width, pattern)), n);
      FixedCoverage(f, n, FixedValue(f.width, pattern));
      FixedCoverage(f, words, FixedValue(f.width, pattern));
    }
  }

  lemma AllIsUpTo(f: Fabric, c: seq<nat>, words: nat, pattern: nat)
    requires Fits(f, c, words)
    ensures Run(f, c, words, pattern, ALLMEMTESTS) == UpTo(f, c, words, pattern, FIXEDPATTERN)
  {
  }

  lemma AliasPeriods(f: Fabric, n: nat)
    requires n <= |f.decode|
    ensures AliasesRepeat(f, n, BlindPeriod(f.width))
            <==> && (f.width.W32? || AliasesRepeat(f, n, f.width.Span()))
                 && AliasesRepeat(f, n, AddressPeriod(f.width))
  {
    hide Width.Span, BlindPeriod, AddressPeriod;
    forall i, j | 0 <= i < j < n && f.decode[i] == f.decode[j]
      ensures (j - i) % BlindPeriod(f.width) == 0
              <==> && (f.width.W32? || (j - i) % f.width.Span() == 0)
                   && (j - i) % AddressPeriod(f.width) == 0
    {
      BlindPeriods(f.width, j - i);
    }
  }

  lemma FiveVerdicts(f: Fabric, words: nat, pattern: nat)
    requires f.Valid() && words <= |f.decode| && f.width.Bits() <= |f.decode|
    ensures (forall k :: 1 <= k <= FIXEDPATTERN ==> Accepts(f, words, pattern, k))
            <==> && f.Injective(f.width.Bits()) && f.NoStuck(f.width.Bits())
                 && (f.width.W32? || Undetected(f, Counting, words))
                 && Undetected(f, InverseAddress, words)
                 && AllSpared(f, Constant(FixedValue(f.width, pattern)), words)
  {
    hide Undetected, AllSpared, Fabric.Injective, Fabric.NoStuck, Width.Bits;
    if forall k :: 1 <= k <= FIXEDPATTERN ==> Accepts(f, words, pattern, k) {
      assert Accepts(f, words, pattern, INCREMENT);
      assert Accepts(f, words, pattern, WALKONES);
      assert Accepts(f, words, pattern, INVERSEADDR);
      assert Accepts(f, words, pattern, FIXEDPATTERN);
    }
  }

  // ----- contents after a passing test -----

  lemma {:induction false} FillAt(f: Fabric, c: seq<nat>, p: Pattern, n: nat, i: nat, m: nat)
    requires f.Valid() && |c| == |f.stuckAt0| && n <= m && i < m <= |f.decode| && f.Injective(m)
    ensures Fill(f, c, p, n)[f.decode[i]] == if i < n then p.At(f, i) else c[f.decode[i]]
  {
    hide Pattern.At;
    if n > 0 {
      FillAt(f, c, p, n - 1, i, m);
    }
  }

  lemma {:induction false} WalkAt(f: Fabric, c: seq<nat>, zeros: bool, row: nat, i: nat, m: nat)
    requires f.Valid() && |c| == |f.stuckAt0| && row <= f.width.Bits() <= m && i < m <= |f.decode|
    requires f.Injective(m) && WalkRun(f, c, zeros, row).status == 0
    ensures WalkRun(f, c, zeros, row).cells[f.decode[i]]
            == if row < f.width.Bits() && i < f.width.Bits()
               then Walking(zeros, f.width.Bits() - 1).At(f, i) else c[f.decode[i]]
    decreases f.width.Bits() - row
  {
    hide Pattern.At, Pass, Width.Bits;
    if row < f.width.Bits() {
      var p := Walking(zeros, row);
      PassVerdict(f, c, p, f.width.Bits());
      FillAt(f, c, p, f.width.Bits(), i, m);
      WalkAt(f, Pass(f, c, p, f.width.Bits()).cells, zeros, row + 1, i, m);
    }
  }

  lemma {:induction false} WalkFrame(f: Fabric, c: seq<nat>, zeros: bool, row: nat, cell: nat)
    requires f.Valid() && |c| == |f.stuckAt0| && row <= f.width.Bits() <= |f.decode| && cell < |c|
    requires cell !in f.decode[..f.width.Bits()]
    ensures WalkRun(f, c, zeros, row).cells[cell] == c[cell]
    decreases f.width.Bits() - row
  {
    hide Pattern.At, Pass, Width.Bits;
    if row < f.width.Bits() {
      var p := Walking(zeros, row);
      PassVerdict(f, c, p, f.width.Bits());
      FillFrame(f, c, p, f.width.Bits(), cell);
      WalkFrame(f, Pass(f, c, p, f.width.Bits()).cells, zeros, row + 1, cell);
    }
  }

  /** The word a passing subtest leaves at an index of its range. */
  function LastWord(f: Fabric, pattern: nat, k: nat, i: nat): nat {
    if k == INCREMENT then Counting.At(f, i)
    else if k == WALKONES || k == WALKZEROS then Walking(k == WALKZEROS, f.width.Bits() - 1).At(f, i)
    else if k == INVERSEADDR then InverseAddress.At(f, i)
    else FixedValue(f.width, pattern)
  }

  /** The same, bit by bit: the count from one, a single one or zero, the inverted byte
      address, or the pattern given, 0xA5, 0xDEAD or 0xDEADBEEF if none is. */
  lemma LastWordBits(f: Fabric, pattern: nat, k: nat, i: nat, b: nat)
    requires 1 <= k <= 5 && b < f.width.Bits() && pattern < f.width.Span()
    ensures LastWord(f, pattern, k, i) < f.width.Span()
    ensures Bit(LastWord(f, pattern, k, i), b)
            <==> if k == 1 then Bit(i + 1, b)
                 else if k == 2 then b == (f.width.Bits() - 1 + i) % f.width.Bits()
                 else if k == 3 then b != (f.width.Bits() - 1 + i) % f.width.Bits()
                 else if k == 4 then !Bit(f.base + f.width.Bits() / 8 * i, b)
                 else if pattern != 0 then Bit(pattern, b)
                 else if f.width.Bits() == 8 then Bit(0xA5, b)
                 else if f.width.Bits() == 16 then Bit(0xDEAD, b)
                 else Bit(0xDEAD_BEEF, b)
  {
    assert Counting.At(f, i) < f.width.Span() && InverseAddress.At(f, i) < f.width.Span();
    WalkingAt(f, k == WALKZEROS, f.width.Bits() - 1, i);
    hide Pattern.At, Bit;
    CountingBits(f, i, b);
    WalkingBits(f, false, f.width.Bits() - 1, i, b);
    WalkingBits(f, true, f.width.Bits() - 1, i, b);
    InverseAddressBits(f, i, b);
  }

  /** Subtest `k` on memory whose touched cells are distinct: what each index then holds. */
  lemma SubtestAt(f: Fabric, c: seq<nat>, words: nat, pattern: nat, k: nat, i: nat)
    requires Fits(f, c, words) && 1 <= k <= FIXEDPATTERN && Subtest(f, c, words, pattern, k).status == 0
    requires f.Injective(Max(words, f.width.Bits())) && i < Max(words, f.width.Bits())
    ensures Subtest(f, c, words, pattern, k).cells[f.decode[i]]
            == if i < (if k == WALKONES || k == WALKZEROS then f.width.Bits() else words)
               then LastWord(f, pattern, k, i) else c[f.decode[i]]
  {
    var m := Max(words, f.width.Bits());
    hide Pass, WalkRun, Fill;
    if k == INCREMENT {
      PassVerdict(f, c, Counting, words);
      FillAt(f, c, Counting, words, i, m);
    } else if k == WALKONES || k == WALKZEROS {
      WalkAt(f, c, k == WALKZEROS, 0, i, m);
    } else if k == INVERSEADDR {
      PassVerdict(f, c, InverseAddress, words);
      FillAt(f, c, InverseAddress, words, i, m);
    } else {
      var p := Constant(FixedValue(f.width, pattern));
      PassVerdict(f, c, p, words);
      FillAt(f, c, p, words, i, m);
    }
  }

  lemma SubtestFrame(f: Fabric, c: seq<nat>, words: nat, pattern: nat, k: nat, cell: nat)
    requires Fits(f, c, words) && cell < |c|
    requires cell !in f.decode[..Max(words, f.width.Bits())]
    ensures Subtest(f, c, words, pattern, k).cells[cell] == c[cell]
  {
    var m := Max(words, f.width.Bits());
    assert f.decode[..words] == f.decode[..m][..words];
    assert f.decode[..f.width.Bits()] == f.decode[..m][..f.width.Bits()];
    hide Pass, WalkRun, Fill;
    if k == INCREMENT {
      PassVerdict(f, c, Counting, words);
      FillFrame(f, c, Counting, words, cell);
    } else if k == WALKONES || k == WALKZEROS {
      WalkFrame(f, c, k == WALKZEROS, 0, cell);
    } else if k == INVERSEADDR {
      PassVerdict(f, c, InverseAddress, words);
      FillFrame(f, c, InverseAddress, words, cell);
    } else if k == FIXEDPATTERN {
      PassVerdict(f, c, Constant(FixedValue(f.width, pattern)), words);
      FillFrame(f, c, Constant(FixedValue(f.width, pattern)), words, cell);
    }
  }

  lemma {:induction false} RunFrame(f: Fabric, c: seq<nat>, words: nat, pattern: nat, n: nat, cell: nat)
    requires Fits(f, c, words) && cell < |c|
    requires cell !in f.decode[..Max(words, f.width.Bits())]
    ensures UpTo(f, c, words, pattern, n).cells[cell] == c[cell]
  {
    hide Subtest;
    if n > 0 {
      RunFrame(f, c, words, pattern, n - 1, cell);
      SubtestFrame(f, UpTo(f, c, words, pattern, n - 1).cells, words, pattern, n, cell);
    }
  }

  /** On healthy memory the full test passes and leaves the fixed pattern in the block, the
      last walking-zeros row in the walked words beyond it, and all other cells as they were. */
  lemma HealthyRun(f: Fabric, c: seq<nat>, words: nat, pattern: nat)
    requires Fits(f, c, words) && pattern < f.width.Span()
    requires f.Injective(Max(words, f.width.Bits())) && f.NoStuck(Max(words, f.width.Bits()))
    ensures var o := Run(f, c, words, pattern, ALLMEMTESTS);
            && o.status == 0
            && (forall i :: 0 <= i < words ==> o.cells[f.decode[i]] == LastWord(f, pattern, FIXEDPATTERN, i))
            && (forall i :: words <= i < f.width.Bits() ==> o.cells[f.decode[i]] == LastWord(f, pattern, WALKZEROS, i))
            && (forall x :: 0 <= x < |c| && x !in f.decode[..Max(words, f.width.Bits())] ==> o.cells[x] == c[x])
  {
    FullTestCoverage(f, c, words, pattern);
    AllIsUpTo(f, c, words, pattern);
    var o := Run(f, c, words, pattern, ALLMEMTESTS);
    forall i | 0 <= i < Max(words, f.width.Bits())
      ensures o.cells[f.decode[i]] == if i < words then FixedValue(f.width, pattern) else LastWord(f, pattern, WALKZEROS, i)
    {
      HealthyAt(f, c, words, pattern, i);
    }
    forall x | 0 <= x < |c| && x !in f.decode[..Max(words, f.width.Bits())]
      ensures o.cells[x] == c[x]
    {
      RunFrame(f, c, words, pattern, FIXEDPATTERN, x);
    }
  }

  lemma HealthyAt(f: Fabric, c: seq<nat>, words: nat, pattern: nat, i: nat)
    requires Fits(f, c, words)
    requires f.Injective(Max(words, f.width.Bits())) && i < Max(words, f.width.Bits())
    requires UpTo(f, c, words, pattern, FIXEDPATTERN).status == 0
    ensures UpTo(f, c, words, pattern, FIXEDPATTERN).cells[f.decode[i]]
            == if i < words then FixedValue(f.width, pattern) else LastWord(f, pattern, WALKZEROS, i)
  {
    hide Subtest, UpTo;
    Continue(f, c, words, pattern, FIXEDPATTERN);
    Continue(f, c, words, pattern, INVERSEADDR);
    Continue(f, c, words, pattern, WALKZEROS);
    SubtestAt(f, UpTo(f, c, words, pattern, 4).cells, words, pattern, FIXEDPATTERN, i);
    if i >= words {
      SubtestAt(f, UpTo(f, c, words, pattern, 3).cells, words, pattern, INVERSEADDR, i);
      SubtestAt(f, UpTo(f, c, words, pattern, 2).cells, words, pattern, WALKZEROS, i);
    }
  }
}
