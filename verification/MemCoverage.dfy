/** Which faults each memory subtest detects, exactly, whatever the memory held before. */
module MemCoverage {
  import opened Bits
  import opened MemTest

  /** Neither aliasing nor stuck bits disturb the pattern over the first `n` indices. */
  ghost predicate Undetected(f: Fabric, p: Pattern, n: nat)
    requires f.Valid() && n <= |f.decode|
  {
    && (forall i, j :: 0 <= i < j < n && f.decode[i] == f.decode[j] ==> p.At(f, i) == p.At(f, j))
    && (forall i :: 0 <= i < n ==> f.Sense(f.decode[i], p.At(f, i)) == p.At(f, i))
  }

  /** A cell selected by a filled index holds the pattern word of its last alias. */
  lemma {:induction false} FillCell(f: Fabric, c: seq<nat>, p: Pattern, n: nat, i: nat) returns (j: nat)
    requires f.Valid() && |c| == |f.stuckAt0| && i < n <= |f.decode|
    ensures i <= j < n && f.decode[j] == f.decode[i] && f.decode[i] !in f.decode[j + 1..n]
    ensures Fill(f, c, p, n)[f.decode[i]] == p.At(f, j)
  {
    if f.decode[n - 1] == f.decode[i] {
      j := n - 1;
    } else {
      j := FillCell(f, c, p, n - 1, i);
      assert f.decode[j + 1..n] == f.decode[j + 1..n - 1] + [f.decode[n - 1]];
    }
  }

  lemma {:induction false} FillFrame(f: Fabric, c: seq<nat>, p: Pattern, n: nat, cell: nat)
    requires f.Valid() && |c| == |f.stuckAt0| && n <= |f.decode| && cell < |c|
    requires cell !in f.decode[..n]
    ensures Fill(f, c, p, n)[cell] == c[cell]
  {
    if n > 0 {
      assert f.decode[n - 1] == f.decode[..n][n - 1];
      assert f.decode[..n - 1] == f.decode[..n][..n - 1];
      FillFrame(f, c, p, n - 1, cell);
    }
  }

  lemma {:induction false} NoMismatch(f: Fabric, c: seq<nat>, p: Pattern, n: nat)
    requires f.Valid() && |c| == |f.stuckAt0| && n <= |f.decode|
    ensures Mismatches(f, c, p, n) == []
            <==> forall i :: 0 <= i < n ==> f.Sense(f.decode[i], c[f.decode[i]]) == p.At(f, i)
  {
    hide Fabric.Sense, Pattern.At;
    if n > 0 {
      NoMismatch(f, c, p, n - 1);
    }
  }

  /** Filling and reading back finds no mismatch exactly when nothing disturbs the pattern. */
  lemma FillReadsBack(f: Fabric, c: seq<nat>, p: Pattern, n: nat)
    requires f.Valid() && |c| == |f.stuckAt0| && n <= |f.decode|
    ensures Mismatches(f, Fill(f, c, p, n), p, n) == [] <==> Undetected(f, p, n)
  {
    hide Fabric.Sense, Pattern.At, Mismatches, Fill;
    var filled := Fill(f, c, p, n);
    NoMismatch(f, filled, p, n);
    forall i | 0 <= i < n
      ensures HoldsAlias(f, filled, p, n, i)
    {
      var j := FillCell(f, c, p, n, i);
    }
    if Mismatches(f, filled, p, n) == [] {
      AgreeingAliases(f, filled, p, n);
    } else if Undetected(f, p, n) {
      NothingDisturbed(f, filled, p, n);
    }
  }

  /** The cell of index `i` holds the pattern word of some index selecting it too. */
  ghost predicate HoldsAlias(f: Fabric, c: seq<nat>, p: Pattern, n: nat, i: nat)
    requires f.Valid() && |c| == |f.stuckAt0| && i < n <= |f.decode|
  {
    exists j :: i <= j < n && f.decode[j] == f.decode[i] && c[f.decode[i]] == p.At(f, j)
  }

  lemma AgreeingAliases(f: Fabric, c: seq<nat>, p: Pattern, n: nat)
    requires f.Valid() && |c| == |f.stuckAt0| && n <= |f.decode|
    requires forall i :: 0 <= i < n ==> f.Sense(f.decode[i], c[f.decode[i]]) == p.At(f, i)
    requires forall i :: 0 <= i < n ==> HoldsAlias(f, c, p, n, i)
    ensures Undetected(f, p, n)
  {
    hide Fabric.Sense, Pattern.At, HoldsAlias;
    forall i, j | 0 <= i < j < n && f.decode[i] == f.decode[j]
      ensures p.At(f, i) == p.At(f, j)
    {
      assert f.Sense(f.decode[j], c[f.decode[j]]) == p.At(f, j);
    }
    forall i | 0 <= i < n
      ensures f.Sense(f.decode[i], p.At(f, i)) == p.At(f, i)
    {
      assert HoldsAlias(f, c, p, n, i);
      var j := Alias(f, c, p, n, i);
      assert f.Sense(f.decode[j], c[f.decode[j]]) == p.At(f, j);
    }
  }

  lemma NothingDisturbed(f: Fabric, c: seq<nat>, p: Pattern, n: nat)
    requires f.Valid() && |c| == |f.stuckAt0| && n <= |f.decode|
    requires Undetected(f, p, n)
    requires forall i :: 0 <= i < n ==> HoldsAlias(f, c, p, n, i)
    ensures forall i :: 0 <= i < n ==> f.Sense(f.decode[i], c[f.decode[i]]) == p.At(f, i)
  {
    hide Fabric.Sense, Pattern.At, HoldsAlias;
    forall i | 0 <= i < n
      ensures f.Sense(f.decode[i], c[f.decode[i]]) == p.At(f, i)
    {
      assert HoldsAlias(f, c, p, n, i);
      var j := Alias(f, c, p, n, i);
    }
  }

  lemma Alias(f: Fabric, c: seq<nat>, p: Pattern, n: nat, i: nat) returns (j: nat)
    requires f.Valid() && |c| == |f.stuckAt0| && i < n <= |f.decode|
    requires HoldsAlias(f, c, p, n, i)
    ensures i <= j < n && f.decode[j] == f.decode[i] && c[f.decode[i]] == p.At(f, j)
  {
    j :| i <= j < n && f.decode[j] == f.decode[i] && c[f.decode[i]] == p.At(f, j);
  }

  lemma PassVerdict(f: Fabric, c: seq<nat>, p: Pattern, n: nat)
    requires f.Valid() && |c| == |f.stuckAt0| && n <= |f.decode|
    ensures Pass(f, c, p, n).status == 0 <==> Undetected(f, p, n)
    ensures Pass(f, c, p, n).cells == Fill(f, c, p, n)
  {
    FillReadsBack(f, c, p, n);
  }

  // ----- stuck bits -----

  /** No one bit of `v` is stuck at zero in the cell, and no zero bit is stuck at one. */
  ghost predicate Spared(f: Fabric, cell: nat, v: nat)
    requires f.Valid() && cell < |f.stuckAt0|
  {
    forall b: nat :: b < f.width.Bits() ==>
      if Bit(v, b) then !Bit(f.stuckAt0[cell], b)
      else Bit(f.stuckAt0[cell], b) || !Bit(f.stuckAt1[cell], b)
  }

  lemma SenseSpared(f: Fabric, cell: nat, v: nat)
    requires f.Valid() && cell < |f.stuckAt0| && v < f.width.Span()
    ensures f.Sense(cell, v) == v <==> Spared(f, cell, v)
  {
    hide Bit, Fabric.Sense;
    var got := f.Sense(cell, v);
    forall b: nat
      ensures Bit(got, b)
              <==> b < f.width.Bits() && (Bit(v, b) || Bit(f.stuckAt1[cell], b)) && !Bit(f.stuckAt0[cell], b)
    {
      SenseBit(f, cell, v, b);
    }
    SpanIsPow2(f.width);
    if Spared(f, cell, v) {
      assert got < f.width.Span() by { SenseBound(f, cell, v); }
      SameBits(got, v, f.width.Bits());
    }
  }

  lemma NoStuckSense(f: Fabric, cell: nat, v: nat)
    requires f.Valid() && cell < |f.stuckAt0| && v < f.width.Span()
    requires f.stuckAt0[cell] == 0 && f.stuckAt1[cell] == 0
    ensures f.Sense(cell, v) == v
  {
    SenseSpared(f, cell, v);
    forall b: nat
      ensures !Bit(0, b)
    {
      BitZero(b);
    }
  }

  ghost function WalkWord(w: Width, zeros: bool, b: nat): nat
    requires b < w.Bits()
  {
    SpanIsPow2(w);
    Pow2Strict(b, w.Bits());
    if zeros then w.Span() - 1 - Pow2(b) else Pow2(b)
  }

  lemma WalkWordBits(w: Width, zeros: bool, b: nat, k: nat)
    requires b < w.Bits() && k < w.Bits()
    ensures Pow2(b) < w.Span() && WalkWord(w, zeros, b) < w.Span()
    ensures Bit(WalkWord(w, zeros, b), k) <==> (b == k) != zeros
  {
    SpanIsPow2(w);
    Pow2Strict(b, w.Bits());
    BitPow2(b, k);
    BitComplement(Pow2(b), w.Bits(), k);
  }

  lemma WalkingAt(f: Fabric, zeros: bool, row: nat, i: nat)
    ensures Walking(zeros, row).At(f, i) == WalkWord(f.width, zeros, (row + i) % f.width.Bits())
    ensures Walking(zeros, row).At(f, i) < f.width.Span()
  {
    var at := (row + i) % f.width.Bits();
    WalkWordBits(f.width, zeros, at, 0);
    ComplementLow(f.width, Pow2(at));
  }

  /** A cell that reads back every word of a walking test has no stuck bit. */
  lemma WalkFindsStuck(f: Fabric, cell: nat, zeros: bool)
    requires f.Valid() && cell < |f.stuckAt0|
    requires forall b: nat :: b < f.width.Bits() ==> Spared(f, cell, WalkWord(f.width, zeros, b))
    ensures f.stuckAt0[cell] == 0 && f.stuckAt1[cell] == 0
  {
    SpanIsPow2(f.width);
    forall k: nat | k < f.width.Bits()
      ensures !Bit(f.stuckAt0[cell], k) && !Bit(f.stuckAt1[cell], k) && !Bit(0, k)
    {
      var other := if k == 0 then 1 else 0;
      WalkWordBits(f.width, zeros, k, k);
      WalkWordBits(f.width, zeros, other, k);
      assert Spared(f, cell, WalkWord(f.width, zeros, k));
      assert Spared(f, cell, WalkWord(f.width, zeros, other));
      BitZero(k);
    }
    SameBits(f.stuckAt0[cell], 0, f.width.Bits());
    SameBits(f.stuckAt1[cell], 0, f.width.Bits());
  }

  // ----- the walking subtests -----

  lemma {:induction false} WalkVerdict(f: Fabric, c: seq<nat>, zeros: bool, row: nat)
    requires f.Valid() && |c| == |f.stuckAt0| && row <= f.width.Bits() <= |f.decode|
    ensures WalkRun(f, c, zeros, row).status == 0
            <==> forall r :: row <= r < f.width.Bits() ==> Undetected(f, Walking(zeros, r), f.width.Bits())
    decreases f.width.Bits() - row
  {
    hide Pass, Undetected, Width.Bits;
    if row < f.width.Bits() {
      var p := Walking(zeros, row);
      PassVerdict(f, c, p, f.width.Bits());
      WalkVerdict(f, Pass(f, c, p, f.width.Bits()).cells, zeros, row + 1);
    }
  }

  lemma RowReaching(n: nat, i: nat, b: nat) returns (row: nat)
    requires i < n && b < n
    ensures row < n && (row + i) % n == b
  {
    if b >= i {
      row := b - i;
      DivUnique(row + i, n, 0, b);
    } else {
      row := b + n - i;
      DivUnique(row + i, n, 1, b);
    }
  }

  lemma WalksFindAliases(f: Fabric, zeros: bool)
    requires f.Valid() && f.width.Bits() <= |f.decode|
    requires Undetected(f, Walking(zeros, 0), f.width.Bits())
    ensures f.Injective(f.width.Bits())
  {
    hide Fabric.Sense, Pattern.At, WalkWord, Bit, Width.Bits;
    var n := f.width.Bits();
    forall i, j | 0 <= i < j < n
      ensures f.decode[i] != f.decode[j]
    {
      WalkingAt(f, zeros, 0, i);
      WalkingAt(f, zeros, 0, j);
      DivUnique(i, n, 0, i);
      DivUnique(j, n, 0, j);
      WalkWordBits(f.width, zeros, i, i);
      WalkWordBits(f.width, zeros, j, i);
    }
  }

  lemma WalksFindStuck(f: Fabric, zeros: bool)
    requires f.Valid() && f.width.Bits() <= |f.decode|
    requires forall r :: 0 <= r < f.width.Bits() ==> Undetected(f, Walking(zeros, r), f.width.Bits())
    ensures f.NoStuck(f.width.Bits())
  {
    hide Fabric.Sense, Pattern.At, WalkWord, Bit, Width.Bits, Spared;
    var n := f.width.Bits();
    forall i | 0 <= i < n
      ensures f.stuckAt0[f.decode[i]] == 0 && f.stuckAt1[f.decode[i]] == 0
    {
      forall b: nat | b < n
        ensures Spared(f, f.decode[i], WalkWord(f.width, zeros, b))
      {
        var row := RowReaching(n, i, b);
        assert Undetected(f, Walking(zeros, row), n);
        WalkingAt(f, zeros, row, i);
        SenseSpared(f, f.decode[i], WalkWord(f.width, zeros, b));
      }
      WalkFindsStuck(f, f.decode[i], zeros);
    }
  }

  lemma WalksPassIf(f: Fabric, zeros: bool, row: nat)
    requires f.Valid() && row < f.width.Bits() <= |f.decode|
    requires f.Injective(f.width.Bits()) && f.NoStuck(f.width.Bits())
    ensures Undetected(f, Walking(zeros, row), f.width.Bits())
  {
    forall i | 0 <= i < f.width.Bits()
      ensures f.Sense(f.decode[i], Walking(zeros, row).At(f, i)) == Walking(zeros, row).At(f, i)
    {
      WalkingAt(f, zeros, row, i);
      NoStuckSense(f, f.decode[i], Walking(zeros, row).At(f, i));
    }
  }

  /** Walking ones and walking zeros pass exactly when the first words, one per data bit,
      select distinct cells without a stuck bit. */
  lemma WalkCoverage(f: Fabric, c: seq<nat>, zeros: bool)
    requires f.Valid() && |c| == |f.stuckAt0| && f.width.Bits() <= |f.decode|
    ensures WalkRun(f, c, zeros, 0).status == 0
            <==> f.Injective(f.width.Bits()) && f.NoStuck(f.width.Bits())
  {
    hide Undetected, Width.Bits, WalkRun;
    WalkVerdict(f, c, zeros, 0);
    if WalkRun(f, c, zeros, 0).status == 0 {
      assert Undetected(f, Walking(zeros, 0), f.width.Bits());
      WalksFindAliases(f, zeros);
      WalksFindStuck(f, zeros);
    } else if f.Injective(f.width.Bits()) && f.NoStuck(f.width.Bits()) {
      forall r | 0 <= r < f.width.Bits()
        ensures Undetected(f, Walking(zeros, r), f.width.Bits())
      {
        WalksPassIf(f, zeros, r);
      }
    }
  }

  // ----- the address-dependent subtests -----

  /** Aliased indices below `n` differ by a multiple of `period`. */
  ghost predicate AliasesRepeat(f: Fabric, n: nat, period: nat)
    requires n <= |f.decode| && period > 0
  {
    forall i, j :: 0 <= i < j < n && f.decode[i] == f.decode[j] ==> (j - i) % period == 0
  }

  /** The period of the inverse-address pattern, in words. */
  function AddressPeriod(w: Width): (p: nat)
    ensures p > 0
  {
    match w case W8 => 0x100 case W16 => 0x8000 case W32 => 0x4000_0000
  }

  lemma CountingRepeats(f: Fabric, i: nat, j: nat)
    requires i < j
    ensures Counting.At(f, i) == Counting.At(f, j) <==> (j - i) % f.width.Span() == 0
  {
    SameMod(1 + i, 1 + j, f.width.Span());
  }

  lemma AddressRepeats(f: Fabric, i: nat, j: nat)
    requires i < j
    ensures InverseAddress.At(f, i) == InverseAddress.At(f, j) <==> (j - i) % AddressPeriod(f.width) == 0
  {
    var x, y := f.base + f.width.Bytes() * i, f.base + f.width.Bytes() * j;
    assert InverseAddress.At(f, i) == Truncate(f.width, Not32(x % TWO32));
    assert InverseAddress.At(f, j) == Truncate(f.width, Not32(y % TWO32));
    assert x <= y && y - x == f.width.Bytes() * (j - i) by {
      match f.width case W8 => case W16 => case W32 =>
    }
    hide Pattern.At, Not32, Truncate, Width.Span, Width.Bytes;
    InverseLow(f.width, x);
    InverseLow(f.width, y);
    SameMod(x, y, f.width.Span());
    Scaled(f.width, j - i);
  }

  lemma Scaled(w: Width, k: nat)
    ensures (w.Bytes() * k) % w.Span() == 0 <==> k % AddressPeriod(w) == 0
  {
    match w case W8 => case W16 => case W32 =>
  }

  lemma InverseLow(w: Width, x: nat)
    ensures Truncate(w, Not32(x % TWO32)) == w.Span() - 1 - x % w.Span()
  {
    CutTwice(w, x);
    NotLow(w, x % TWO32);
  }

  lemma NotLow(w: Width, r: u32)
    ensures Truncate(w, Not32(r)) == w.Span() - 1 - r % w.Span()
  {
    var q, b := r / w.Span(), r % w.Span();
    match w
    case W8 => DivUnique(TWO32 - 1 - r, w.Span(), 0xFF_FFFF - q, 0xFF - b);
    case W16 => DivUnique(TWO32 - 1 - r, w.Span(), 0xFFFF - q, 0xFFFF - b);
    case W32 => DivUnique(TWO32 - 1 - r, w.Span(), 0, TWO32 - 1 - r);
  }

  lemma CutTwice(w: Width, x: nat)
    ensures x % TWO32 % w.Span() == x % w.Span()
  {
    var q, r := x / TWO32, x % TWO32;
    var a, b := r / w.Span(), r % w.Span();
    match w
    case W8 => DivUnique(x, w.Span(), q * 0x100_0000 + a, b);
    case W16 => DivUnique(x, w.Span(), q * 0x1_0000 + a, b);
    case W32 =>
  }

  /** Every word of the pattern survives the stuck bits of the cell it is written to. */
  ghost predicate AllSpared(f: Fabric, p: Pattern, n: nat)
    requires f.Valid() && n <= |f.decode|
  {
    forall i :: 0 <= i < n ==> Spared(f, f.decode[i], p.At(f, i))
  }

  lemma AllSparedIff(f: Fabric, p: Pattern, n: nat)
    requires f.Valid() && n <= |f.decode| && forall i :: 0 <= i < n ==> p.At(f, i) < f.width.Span()
    ensures AllSpared(f, p, n) <==> forall i :: 0 <= i < n ==> f.Sense(f.decode[i], p.At(f, i)) == p.At(f, i)
  {
    hide Fabric.Sense, Pattern.At, Spared, Width.Span;
    forall i | 0 <= i < n
      ensures f.Sense(f.decode[i], p.At(f, i)) == p.At(f, i) <==> Spared(f, f.decode[i], p.At(f, i))
    {
      SenseSpared(f, f.decode[i], p.At(f, i));
    }
  }

  lemma NoStuckSpares(f: Fabric, p: Pattern, n: nat)
    requires f.Valid() && n <= |f.decode| && f.NoStuck(n)
    ensures AllSpared(f, p, n)
  {
    hide Pattern.At;
    forall b: nat
      ensures !Bit(0, b)
    {
      BitZero(b);
    }
  }

  /** The counting pattern finds exactly the aliases not a multiple of two to the width
      apart, and the stuck bits that contradict it. */
  lemma IncrementVerdict(f: Fabric, n: nat)
    requires f.Valid() && n <= |f.decode|
    ensures Undetected(f, Counting, n) <==> AliasesRepeat(f, n, f.width.Span()) && AllSpared(f, Counting, n)
  {
    assert forall i :: 0 <= i < n ==> Counting.At(f, i) < f.width.Span();
    hide Fabric.Sense, Pattern.At, Width.Span, AllSpared;
    AllSparedIff(f, Counting, n);
    forall i, j | 0 <= i < j < n
      ensures Counting.At(f, i) == Counting.At(f, j) <==> (j - i) % f.width.Span() == 0
    {
      CountingRepeats(f, i, j);
    }
  }

  lemma InverseAddrVerdict(f: Fabric, n: nat)
    requires f.Valid() && n <= |f.decode|
    ensures Undetected(f, InverseAddress, n)
            <==> AliasesRepeat(f, n, AddressPeriod(f.width)) && AllSpared(f, InverseAddress, n)
  {
    assert forall i :: 0 <= i < n ==> InverseAddress.At(f, i) < f.width.Span();
    hide Fabric.Sense, Pattern.At, Width.Span, AddressPeriod, AllSpared;
    AllSparedIff(f, InverseAddress, n);
    forall i, j | 0 <= i < j < n
      ensures InverseAddress.At(f, i) == InverseAddress.At(f, j) <==> (j - i) % AddressPeriod(f.width) == 0
    {
      AddressRepeats(f, i, j);
    }
  }

  /** Without stuck bits the counting pattern misses exactly the aliases a multiple of
      two to the width apart. */
  lemma IncrementCoverage(f: Fabric, n: nat)
    requires f.Valid() && n <= |f.decode| && f.NoStuck(n)
    ensures Undetected(f, Counting, n) <==> AliasesRepeat(f, n, f.width.Span())
  {
    hide Undetected, AliasesRepeat, AllSpared;
    IncrementVerdict(f, n);
    NoStuckSpares(f, Counting, n);
  }

  lemma InverseAddrCoverage(f: Fabric, n: nat)
    requires f.Valid() && n <= |f.decode| && f.NoStuck(n)
    ensures Undetected(f, InverseAddress, n) <==> AliasesRepeat(f, n, AddressPeriod(f.width))
  {
    hide Undetected, AliasesRepeat, AllSpared;
    InverseAddrVerdict(f, n);
    NoStuckSpares(f, InverseAddress, n);
  }

  /** A 32-bit block fits the address space only up to 2^30 words, and there every
      alias is found. */
  lemma InverseAddr32Complete(f: Fabric, n: nat)
    requires f.Valid() && n <= |f.decode| && f.NoStuck(n) && f.width.W32? && n <= 0x4000_0000
    ensures Undetected(f, InverseAddress, n) <==> f.Injective(n)
  {
    InverseAddrCoverage(f, n);
    hide Undetected;
    forall i, j | 0 <= i < j < n && f.decode[i] == f.decode[j]
      ensures (j - i) % AddressPeriod(f.width) != 0
    {
      DivUnique(j - i, 0x4000_0000, 0, j - i);
    }
  }

  // ----- the words themselves, bit by bit -----

  /** Index `i` is written the count i + 1, cut to the width ... */
  lemma CountingBits(f: Fabric, i: nat, b: nat)
    ensures Bit(Counting.At(f, i), b) <==> b < f.width.Bits() && Bit(i + 1, b)
  {
    SpanIsPow2(f.width);
    assert Counting.At(f, i) == (i + 1) % Pow2(f.width.Bits());
    hide *;
    BitMod(i + 1, f.width.Bits(), b);
  }

  /** ... or a single one (zero) at a place that moves up with the row and the index ... */
  lemma WalkingBits(f: Fabric, zeros: bool, row: nat, i: nat, b: nat)
    ensures Bit(Walking(zeros, row).At(f, i), b)
            <==> b < f.width.Bits() && ((b == (row + i) % f.width.Bits()) != zeros)
  {
    var at := (row + i) % f.width.Bits();
    WalkingAt(f, zeros, row, i);
    if b < f.width.Bits() {
      WalkWordBits(f.width, zeros, at, b);
    } else {
      SpanIsPow2(f.width);
      BitHigh(Walking(zeros, row).At(f, i), f.width.Bits(), b);
    }
  }

  /** ... or every bit of its byte address inverted. */
  lemma InverseAddressBits(f: Fabric, i: nat, b: nat)
    ensures Bit(InverseAddress.At(f, i), b)
            <==> b < f.width.Bits() && !Bit(f.base + f.width.Bits() / 8 * i, b)
  {
    var x := f.base + f.width.Bytes() * i;
    assert f.width.Bits() / 8 == f.width.Bytes();
    assert InverseAddress.At(f, i) == Truncate(f.width, Not32(x % TWO32));
    SpanIsPow2(f.width);
    hide Pattern.At, Not32, Truncate, Pow2, Bit, Width.Bits, Width.Bytes;
    InverseLow(f.width, x);
    BitComplement(x % f.width.Span(), f.width.Bits(), b);
    BitMod(x, f.width.Bits(), b);
  }

  /** So a counting word survives exactly where the bare count does. */
  lemma CountSpared(f: Fabric, i: nat)
    requires f.Valid() && i < |f.decode|
    ensures Spared(f, f.decode[i], Counting.At(f, i)) <==> Spared(f, f.decode[i], i + 1)
  {
    hide Pattern.At, Bit, Width.Bits;
    forall b: nat | b < f.width.Bits()
      ensures Bit(Counting.At(f, i), b) <==> Bit(i + 1, b)
    {
      CountingBits(f, i, b);
    }
  }

  /** No bit stuck at zero faces a zero of the byte address, and none stuck at one a one. */
  ghost predicate FacesAddress(f: Fabric, i: nat)
    requires f.Valid() && i < |f.decode|
  {
    forall b: nat :: b < f.width.Bits() ==>
      && (Bit(f.stuckAt0[f.decode[i]], b) ==> Bit(f.base + f.width.Bits() / 8 * i, b))
      && (Bit(f.stuckAt1[f.decode[i]], b) && !Bit(f.stuckAt0[f.decode[i]], b) ==>
            !Bit(f.base + f.width.Bits() / 8 * i, b))
  }

  /** That is exactly when the inverse-address word at the index survives. */
  lemma AddressSpared(f: Fabric, i: nat)
    requires f.Valid() && i < |f.decode|
    ensures Spared(f, f.decode[i], InverseAddress.At(f, i)) <==> FacesAddress(f, i)
  {
    hide Pattern.At, Bit, Width.Bits;
    forall b: nat | b < f.width.Bits()
      ensures Bit(InverseAddress.At(f, i), b) <==> !Bit(f.base + f.width.Bits() / 8 * i, b)
    {
      InverseAddressBits(f, i, b);
    }
    AgreeingWords(f, i, InverseAddress.At(f, i));
  }

  lemma AgreeingWords(f: Fabric, i: nat, v: nat)
    requires f.Valid() && i < |f.decode|
    requires forall b: nat :: b < f.width.Bits() ==> (Bit(v, b) <==> !Bit(f.base + f.width.Bits() / 8 * i, b))
    ensures Spared(f, f.decode[i], v) <==> FacesAddress(f, i)
  {
    hide Bit, Width.Bits;
    var x := f.base + f.width.Bits() / 8 * i;
    if Spared(f, f.decode[i], v) {
      forall b: nat | b < f.width.Bits()
        ensures (Bit(f.stuckAt0[f.decode[i]], b) ==> Bit(x, b))
             && (Bit(f.stuckAt1[f.decode[i]], b) && !Bit(f.stuckAt0[f.decode[i]], b) ==> !Bit(x, b))
      {
        assert Bit(v, b) <==> !Bit(x, b);
      }
    }
    if FacesAddress(f, i) {
      forall b: nat | b < f.width.Bits()
        ensures if Bit(v, b) then !Bit(f.stuckAt0[f.decode[i]], b)
                else Bit(f.stuckAt0[f.decode[i]], b) || !Bit(f.stuckAt1[f.decode[i]], b)
      {
        assert Bit(v, b) <==> !Bit(x, b);
      }
    }
  }
}
