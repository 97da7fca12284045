/** The destructive memory test, run on a memory with decoder and data-line faults. */
module MemTest {
  import opened Bits
  import opened Rotate

  datatype Width = W8 | W16 | W32 {
    function Bits(): (n: nat)
      ensures 8 <= n <= 32
    {
      match this case W8 => 8 case W16 => 16 case W32 => 32
    }

    function Bytes(): nat {
      match this case W8 => 1 case W16 => 2 case W32 => 4
    }

    /** The number of values a word of this width can hold. */
    function Span(): (n: nat)
      ensures n >= 0x100
    {
      match this case W8 => 0x100 case W16 => 0x1_0000 case W32 => TWO32
    }

    function DefaultPattern(): nat {
      match this case W8 => 0xA5 case W16 => 0xDEAD case W32 => 0xDEAD_BEEF
    }
  }

  /** A memory under test: `decode` takes a word index to the physical cell it selects,
      and each cell has bits that always read as zero or, failing that, as one. */
  datatype Fabric = Fabric(width: Width, base: u32, decode: seq<nat>, stuckAt0: seq<nat>, stuckAt1: seq<nat>) {
    ghost predicate Valid() {
      && |stuckAt0| == |stuckAt1|
      && (forall i :: 0 <= i < |decode| ==> decode[i] < |stuckAt0|)
      && (forall c :: 0 <= c < |stuckAt0| ==> stuckAt0[c] < width.Span() && stuckAt1[c] < width.Span())
    }

    /** What reading cell `c` returns when it was last written with `v`. */
    function Sense(c: nat, v: nat): nat
      requires Valid() && c < |stuckAt0|
    {
      And(Or(v, stuckAt1[c]), width.Span() - 1 - stuckAt0[c])
    }

    /** No two of the first `n` indices select the same cell. */
    ghost predicate Injective(n: nat)
      requires n <= |decode|
    {
      forall i, j :: 0 <= i < j < n ==> decode[i] != decode[j]
    }

    /** No cell selected by the first `n` indices has a stuck bit. */
    ghost predicate NoStuck(n: nat)
      requires Valid() && n <= |decode|
    {
      forall i :: 0 <= i < n ==> stuckAt0[decode[i]] == 0 && stuckAt1[decode[i]] == 0
    }
  }

  /** The word each subtest writes at index `i`, as a function of the index alone. */
  datatype Pattern =
    | Counting
    | Walking(zeros: bool, row: nat)
    | InverseAddress
    | Constant(value: nat)
  {
    function At(f: Fabric, i: nat): nat {
      match this
      case Counting => (1 + i) % f.width.Span()
      case Walking(zeros, row) =>
        var one := Pow2((row + i) % f.width.Bits());
        if zeros then Complement(f.width, one) else one
      case InverseAddress => Truncate(f.width, Not32((f.base + f.width.Bytes() * i) % TWO32))
      case Constant(value) => value
    }
  }

  function Truncate(w: Width, v: nat): (r: nat)
    ensures r < w.Span()
  {
    v % w.Span()
  }

  /** One's complement as the code computes it: in 32 bits, then cut to the data width. */
  function Complement(w: Width, v: nat): nat {
    Truncate(w, Not32(v % TWO32))
  }

  /** The cells after writing the pattern to indices `0..n` in ascending order. */
  function Fill(f: Fabric, c: seq<nat>, p: Pattern, n: nat): (r: seq<nat>)
    requires f.Valid() && |c| == |f.stuckAt0| && n <= |f.decode|
    ensures |r| == |c|
  {
    if n == 0 then c else Fill(f, c, p, n - 1)[f.decode[n - 1] := p.At(f, n - 1)]
  }

  datatype Report = Report(index: nat, expected: nat, got: nat)

  /** The mismatches reading indices `0..n` back would find, in order. */
  function Mismatches(f: Fabric, c: seq<nat>, p: Pattern, n: nat): (r: seq<Report>)
    requires f.Valid() && |c| == |f.stuckAt0| && n <= |f.decode|
  {
    if n == 0 then []
    else
      var got := f.Sense(f.decode[n - 1], c[f.decode[n - 1]]);
      var want := p.At(f, n - 1);
      Mismatches(f, c, p, n - 1) + if got != want then [Report(n - 1, want, got)] else []
  }

  datatype Outcome = Outcome(status: int, cells: seq<nat>, log: seq<Report>)

  /** Fill, read back and stop at the first mismatch. */
  function Pass(f: Fabric, c: seq<nat>, p: Pattern, n: nat): (o: Outcome)
    requires f.Valid() && |c| == |f.stuckAt0| && n <= |f.decode|
    ensures |o.cells| == |c|
    ensures o.status == 0 <==> o.log == []
  {
    var filled := Fill(f, c, p, n);
    var bad := Mismatches(f, filled, p, n);
    if bad == [] then Outcome(0, filled, []) else Outcome(-1, filled, bad[..1])
  }

  /** The incrementing subtest; at 32 bits it reports every mismatch and passes all the same. */
  function CountRun(f: Fabric, c: seq<nat>, words: nat): (o: Outcome)
    requires f.Valid() && |c| == |f.stuckAt0| && words <= |f.decode|
    ensures |o.cells| == |c|
  {
    if f.width.W32? then
      var filled := Fill(f, c, Counting, words);
      Outcome(0, filled, Mismatches(f, filled, Counting, words))
    else
      Pass(f, c, Counting, words)
  }

  /** A walking subtest from row `row` on. */
  function WalkRun(f: Fabric, c: seq<nat>, zeros: bool, row: nat): (o: Outcome)
    requires f.Valid() && |c| == |f.stuckAt0| && row <= f.width.Bits() <= |f.decode|
    ensures |o.cells| == |c|
    decreases f.width.Bits() - row
  {
    if row == f.width.Bits() then Outcome(0, c, [])
    else
      var o := Pass(f, c, Walking(zeros, row), f.width.Bits());
      if o.status != 0 then o else WalkRun(f, o.cells, zeros, row + 1)
  }

  const INCREMENT: nat := 1
  const WALKONES: nat := 2
  const WALKZEROS: nat := 3
  const INVERSEADDR: nat := 4
  const FIXEDPATTERN: nat := 5
  const ALLMEMTESTS: nat := 0

  function FixedValue(w: Width, pattern: nat): nat {
    if pattern == 0 then w.DefaultPattern() else pattern
  }

  /** Memory large enough for a run: the walking subtests use the first words of the
      block, one per data bit, however short the block is. */
  ghost predicate Fits(f: Fabric, c: seq<nat>, words: nat) {
    f.Valid() && |c| == |f.stuckAt0| && words <= |f.decode| && f.width.Bits() <= |f.decode|
  }

  function Subtest(f: Fabric, c: seq<nat>, words: nat, pattern: nat, k: nat): (o: Outcome)
    requires Fits(f, c, words)
    ensures |o.cells| == |c|
  {
    if k == INCREMENT then CountRun(f, c, words)
    else if k == WALKONES then WalkRun(f, c, false, 0)
    else if k == WALKZEROS then WalkRun(f, c, true, 0)
    else if k == INVERSEADDR then Pass(f, c, InverseAddress, words)
    else if k == FIXEDPATTERN then Pass(f, c, Constant(FixedValue(f.width, pattern)), words)
    else Outcome(-1, c, [])
  }

  /** Continue a run that has not failed with subtest `k`. */
  function After(f: Fabric, o: Outcome, words: nat, pattern: nat, k: nat): (r: Outcome)
    requires Fits(f, o.cells, words)
    ensures |r.cells| == |o.cells|
  {
    if o.status != 0 then o
    else
      var next := Subtest(f, o.cells, words, pattern, k);
      next.(log := o.log + next.log)
  }

  /** The first `k` subtests in order, stopping at the first failure. */
  function UpTo(f: Fabric, c: seq<nat>, words: nat, pattern: nat, k: nat): (o: Outcome)
    requires Fits(f, c, words)
    ensures |o.cells| == |c|
  {
    if k == 0 then Outcome(0, c, []) else After(f, UpTo(f, c, words, pattern, k - 1), words, pattern, k)
  }

  function Run(f: Fabric, c: seq<nat>, words: nat, pattern: nat, subtest: nat): (o: Outcome)
    requires Fits(f, c, words)
  {
    if subtest == ALLMEMTESTS then UpTo(f, c, words, pattern, FIXEDPATTERN)
    else Subtest(f, c, words, pattern, subtest)
  }

  /** Once a subtest has failed the later ones are not run. */
  lemma {:induction false} Stopped(f: Fabric, c: seq<nat>, words: nat, pattern: nat, k: nat, n: nat)
    requires Fits(f, c, words) && k <= n
    requires UpTo(f, c, words, pattern, k).status != 0
    ensures UpTo(f, c, words, pattern, n) == UpTo(f, c, words, pattern, k)
  {
    if k < n {
      Stopped(f, c, words, pattern, k, n - 1);
    }
  }

  lemma SpanIsPow2(w: Width)
    ensures w.Span() == Pow2(w.Bits())
  {
    Pow2Values();
  }

  lemma SenseBit(f: Fabric, cell: nat, v: nat, b: nat)
    requires f.Valid() && cell < |f.stuckAt0|
    ensures Bit(f.Sense(cell, v), b)
            <==> b < f.width.Bits() && (Bit(v, b) || Bit(f.stuckAt1[cell], b)) && !Bit(f.stuckAt0[cell], b)
  {
    SpanIsPow2(f.width);
    BitAnd(Or(v, f.stuckAt1[cell]), f.width.Span() - 1 - f.stuckAt0[cell], b);
    BitOr(v, f.stuckAt1[cell], b);
    BitComplement(f.stuckAt0[cell], f.width.Bits(), b);
  }

  lemma SenseBound(f: Fabric, cell: nat, v: nat)
    requires f.Valid() && cell < |f.stuckAt0|
    ensures f.Sense(cell, v) < f.width.Span()
  {
    AndBound(Or(v, f.stuckAt1[cell]), f.width.Span() - 1 - f.stuckAt0[cell]);
  }

  lemma {:induction false} FirstMismatch(f: Fabric, c: seq<nat>, p: Pattern, m: nat, n: nat)
    requires f.Valid() && |c| == |f.stuckAt0| && m <= n <= |f.decode|
    ensures Mismatches(f, c, p, m) <= Mismatches(f, c, p, n)
    decreases n - m
  {
    if m < n {
      FirstMismatch(f, c, p, m, n - 1);
    }
  }

  lemma CountStep(f: Fabric, i: nat)
    ensures Counting.At(f, 0) == 1
    ensures Counting.At(f, i + 1) == (Counting.At(f, i) + 1) % f.width.Span()
  {
    assert Counting.At(f, i) == (1 + i) % f.width.Span();
    assert Counting.At(f, i + 1) == (1 + i + 1) % f.width.Span();
    assert Counting.At(f, 0) == 1 by { Unchanged(f.width, 1); }
    hide *;
    ModSucc(1 + i, f.width.Span());
  }

  /** The tester: the memory it drives and the mismatches it has printed. */
  class Tester {
    const f: Fabric
    var cells: array<nat>
    var log: seq<Report>

    ghost predicate Valid()
      reads this
    {
      f.Valid() && cells.Length == |f.stuckAt0| && f.width.Bits() <= |f.decode|
    }

    constructor (f: Fabric, initial: seq<nat>)
      requires f.Valid() && |initial| == |f.stuckAt0| && f.width.Bits() <= |f.decode|
      ensures Valid() && fresh(cells) && this.f == f && cells[..] == initial && log == []
    {
      this.f := f;
      var store := new nat[|initial|](i requires 0 <= i < |initial| => initial[i]);
      cells := store;
      log := [];
    }

    method Write(i: nat, v: nat)
      requires Valid() && i < |f.decode|
      modifies cells
      ensures cells[..] == old(cells[..])[f.decode[i] := v]
    {
      cells[f.decode[i]] := v;
    }

    method Read(i: nat) returns (v: nat)
      requires Valid() && i < |f.decode|
      ensures v == f.Sense(f.decode[i], cells[f.decode[i]]) < f.width.Span()
      ensures forall b: nat :: Bit(v, b)
                <==> && b < f.width.Bits()
                     && (Bit(cells[f.decode[i]], b) || Bit(f.stuckAt1[f.decode[i]], b))
                     && !Bit(f.stuckAt0[f.decode[i]], b)
    {
      hide Bit, Fabric.Sense, Width.Span, Width.Bits;
      v := f.Sense(f.decode[i], cells[f.decode[i]]);
      SenseBound(f, f.decode[i], cells[f.decode[i]]);
      forall b: nat
        ensures Bit(v, b)
                <==> && b < f.width.Bits()
                     && (Bit(cells[f.decode[i]], b) || Bit(f.stuckAt1[f.decode[i]], b))
                     && !Bit(f.stuckAt0[f.decode[i]], b)
      {
        SenseBit(f, f.decode[i], cells[f.decode[i]], b);
      }
    }

    method Increment(words: nat) returns (status: int)
      requires Valid() && words <= |f.decode|
      modifies this`log, cells
      ensures Valid() && cells == old(cells)
      ensures var o := CountRun(f, old(cells[..]), words);
              status == o.status && cells[..] == o.cells && log == old(log) + o.log
    {
      hide And, Or, Pattern.At, Width.Span, Fabric.Sense;
      CountStep(f, 0);
      var val := 1;
      for i := 0 to words
        invariant val == Counting.At(f, i)
        invariant log == old(log)
        invariant cells[..] == Fill(f, old(cells[..]), Counting, i)
      {
        CountStep(f, i);
        Write(i, val);
        val := (val + 1) % f.width.Span();
      }
      ghost var filled := cells[..];
      val := 1;
      for i := 0 to words
        invariant val == Counting.At(f, i)
        invariant cells[..] == filled
        invariant log == old(log) + Mismatches(f, filled, Counting, i)
        invariant !f.width.W32? ==> Mismatches(f, filled, Counting, i) == []
      {
        var word := Read(i);
        if word != val {
          if !f.width.W32? {
            log := log + [Report(i, val, word)];
            FirstMismatch(f, filled, Counting, i + 1, words);
            return -1;
          }
          Retry(i, val, word);
        }
        CountStep(f, i);
        val := (val + 1) % f.width.Span();
      }
      return 0;
    }

    /** Read a mismatching word again, up to 20 times, reporting it the first time. */
    method Retry(i: nat, val: nat, first: nat)
      requires Valid() && i < |f.decode|
      requires first == f.Sense(f.decode[i], cells[f.decode[i]]) != val
      modifies this`log
      ensures log == old(log) + [Report(i, val, first)]
    {
      hide Fabric.Sense;
      var word, tries := first, 0;
      while tries < 20 && word != val
        invariant tries <= 20 && word == first
        invariant log == old(log) + if tries == 0 then [] else [Report(i, val, first)]
      {
        if tries == 0 {
          log := log + [Report(i, val, word)];
        }
        word := Read(i);
        tries := tries + 1;
      }
    }

    method Walk(zeros: bool) returns (status: int)
      requires Valid()
      modifies this`log, cells
      ensures Valid() && cells == old(cells)
      ensures var o := WalkRun(f, old(cells[..]), zeros, 0);
              status == o.status && cells[..] == o.cells && log == old(log) + o.log
    {
      hide Pass, Width.Span, Width.Bits;
      for row := 0 to f.width.Bits()
        invariant cells == old(cells) && log == old(log)
        invariant WalkRun(f, old(cells[..]), zeros, 0) == WalkRun(f, cells[..], zeros, row)
      {
        status := WalkRow(zeros, row);
        if status != 0 { return; }
      }
      return 0;
    }

    /** One row of a walking subtest: write the rotating word, read it back. */
    method WalkRow(zeros: bool, row: nat) returns (status: int)
      requires Valid() && row < f.width.Bits()
      modifies this`log, cells
      ensures Valid() && cells == old(cells)
      ensures var o := Pass(f, old(cells[..]), Walking(zeros, row), f.width.Bits());
              status == o.status && cells[..] == o.cells && log == old(log) + o.log
    {
      hide And, Or, Pow2, Pattern.At, Width.Span, Width.Bits, Fabric.Sense, Shl, Complement;
      var n := f.width.Bits();
      ghost var p := Walking(zeros, row);
      var first := if zeros then Complement(f.width, Shl(1, row)) else Shl(1, row);
      WalkStart(f, zeros, row);
      var val := first;
      for i := 0 to n
        invariant val == p.At(f, i)
        invariant log == old(log) && cells[..] == Fill(f, old(cells[..]), p, i)
      {
        Write(i, val);
        val := NextWalk(val, zeros, i, row);
      }
      ghost var filled := cells[..];
      val := first;
      for i := 0 to n
        invariant val == p.At(f, i)
        invariant log == old(log) && cells[..] == filled
        invariant Mismatches(f, filled, p, i) == []
      {
        var word := Read(i);
        if word != val {
          log := log + [Report(i, val, word)];
          FirstMismatch(f, filled, p, i + 1, n);
          return -1;
        }
        val := NextWalk(val, zeros, i, row);
      }
      return 0;
    }

    /** Step the walking word: rotate it, or rotate its complement and complement back. */
    method NextWalk(val: nat, zeros: bool, ghost i: nat, ghost row: nat) returns (next: nat)
      requires row < f.width.Bits() && i < f.width.Bits()
      requires val == Walking(zeros, row).At(f, i)
      ensures next == Walking(zeros, row).At(f, i + 1)
    {
      WalkStep(f, zeros, row, i);
      var n := f.width.Bits();
      if zeros {
        next := Complement(f.width, Truncate(f.width, RotateLeft(Not32(val), n)));
      } else {
        next := Truncate(f.width, RotateLeft(val, n));
      }
    }

    method InverseAddr(words: nat) returns (status: int)
      requires Valid() && words <= |f.decode|
      modifies this`log, cells
      ensures Valid() && cells == old(cells)
      ensures var o := Pass(f, old(cells[..]), InverseAddress, words);
              status == o.status && cells[..] == o.cells && log == old(log) + o.log
    {
      hide And, Or, Bit, Width.Span, Width.Bits, Fabric.Sense, Not32, Truncate, Width.Bytes;
      for i := 0 to words
        invariant log == old(log)
        invariant cells[..] == Fill(f, old(cells[..]), InverseAddress, i)
      {
        var val := Truncate(f.width, Not32((f.base + f.width.Bytes() * i) % TWO32));
        Write(i, val);
      }
      ghost var filled := cells[..];
      for i := 0 to words
        invariant cells[..] == filled && log == old(log)
        invariant Mismatches(f, filled, InverseAddress, i) == []
      {
        var word := Read(i);
        var val := Truncate(f.width, Not32((f.base + f.width.Bytes() * i) % TWO32));
        XorZero(word, val);
        if Xor(word, val) != 0 {
          log := log + [Report(i, val, word)];
          FirstMismatch(f, filled, InverseAddress, i + 1, words);
          return -1;
        }
      }
      return 0;
    }

    method FixedPattern(words: nat, pattern: nat) returns (status: int)
      requires Valid() && words <= |f.decode|
      modifies this`log, cells
      ensures Valid() && cells == old(cells)
      ensures var o := Pass(f, old(cells[..]), Constant(FixedValue(f.width, pattern)), words);
              status == o.status && cells[..] == o.cells && log == old(log) + o.log
    {
      hide And, Or, Width.Span, Fabric.Sense;
      var val := if pattern == 0 then f.width.DefaultPattern() else pattern;
      ghost var p := Constant(val);
      for i := 0 to words
        invariant log == old(log)
        invariant cells[..] == Fill(f, old(cells[..]), p, i)
      {
        Write(i, val);
      }
      ghost var filled := cells[..];
      for i := 0 to words
        invariant cells[..] == filled && log == old(log)
        invariant Mismatches(f, filled, p, i) == []
      {
        var word := Read(i);
        if word != val {
          log := log + [Report(i, val, word)];
          FirstMismatch(f, filled, p, i + 1, words);
          return -1;
        }
      }
      return 0;
    }

    method TestMem(words: nat, pattern: nat, subtest: nat) returns (status: int)
      requires Valid() && 0 < words <= |f.decode| && pattern < f.width.Span()
      modifies this`log, cells
      ensures Valid() && cells == old(cells)
      ensures var o := Run(f, old(cells[..]), words, pattern, subtest);
              status == o.status && cells[..] == o.cells && log == old(log) + o.log
    {
      hide CountRun, WalkRun, Pass, Width.Span, Fabric.Valid, UpTo;
      if subtest > FIXEDPATTERN { return -1; }
      ghost var c := cells[..];
      if subtest <= INCREMENT {
        Begin(f, c, words, pattern);
        status := Increment(words);
        if status != 0 && subtest == ALLMEMTESTS { Stopped(f, c, words, pattern, 1, FIXEDPATTERN); }
        if status != 0 || subtest != ALLMEMTESTS { return; }
      }
      if subtest == ALLMEMTESTS || subtest == WALKONES {
        Continue(f, c, words, pattern, WALKONES);
        status := Walk(false);
        if status != 0 && subtest == ALLMEMTESTS { Stopped(f, c, words, pattern, 2, FIXEDPATTERN); }
        if status != 0 || subtest != ALLMEMTESTS { return; }
      }
      if subtest == ALLMEMTESTS || subtest == WALKZEROS {
        Continue(f, c, words, pattern, WALKZEROS);
        status := Walk(true);
        if status != 0 && subtest == ALLMEMTESTS { Stopped(f, c, words, pattern, 3, FIXEDPATTERN); }
        if status != 0 || subtest != ALLMEMTESTS { return; }
      }
      if subtest == ALLMEMTESTS || subtest == INVERSEADDR {
        Continue(f, c, words, pattern, INVERSEADDR);
        status := InverseAddr(words);
        if status != 0 && subtest == ALLMEMTESTS { Stopped(f, c, words, pattern, 4, FIXEDPATTERN); }
        if status != 0 || subtest != ALLMEMTESTS { return; }
      }
      Continue(f, c, words, pattern, FIXEDPATTERN);
      status := FixedPattern(words, pattern);
    }
  }

  lemma Begin(f: Fabric, c: seq<nat>, words: nat, pattern: nat)
    requires Fits(f, c, words)
    ensures UpTo(f, c, words, pattern, 0) == Outcome(0, c, [])
    ensures UpTo(f, c, words, pattern, INCREMENT) == Subtest(f, c, words, pattern, INCREMENT)
  {
    assert UpTo(f, c, words, pattern, 1) == After(f, UpTo(f, c, words, pattern, 0), words, pattern, 1);
    hide Subtest;
    var o := Subtest(f, c, words, pattern, INCREMENT);
    assert [] + o.log == o.log;
  }

  lemma Continue(f: Fabric, c: seq<nat>, words: nat, pattern: nat, k: nat)
    requires Fits(f, c, words) && k > 0
    ensures UpTo(f, c, words, pattern, k) == After(f, UpTo(f, c, words, pattern, k - 1), words, pattern, k)
  {
  }

  lemma {:induction false} XorZero(a: nat, b: nat)
    ensures Xor(a, b) == 0 <==> a == b
    decreases a + b
  {
    if a != 0 || b != 0 {
      XorZero(a / 2, b / 2);
    }
  }

  lemma WalkStart(f: Fabric, zeros: bool, row: nat)
    requires row < f.width.Bits()
    ensures Walking(zeros, row).At(f, 0) == if zeros then Complement(f.width, Shl(1, row)) else Shl(1, row)
  {
  }

  /** One step of the walking word, through the 32-bit intermediates of the code. */
  lemma WalkStep(f: Fabric, zeros: bool, row: nat, i: nat)
    requires row < f.width.Bits() && i < f.width.Bits()
    ensures var n, val, next := f.width.Bits(), Walking(zeros, row).At(f, i), Walking(zeros, row).At(f, i + 1);
            && val < f.width.Span()
            && next == if zeros then Complement(f.width, Truncate(f.width, RotateLeft(Not32(val), n)))
                       else Truncate(f.width, RotateLeft(val, n))
  {
    hide RotateLeft, Pow2, Complement, Truncate, And, Or, Width.Bits, Width.Span;
    var n, at := f.width.Bits(), (row + i) % f.width.Bits();
    ModStep(row + i, n);
    SpanIsPow2(f.width);
    RotateOneHot(at, n);
    Pow2Strict(at, n);
    Pow2Strict(Up(at, n), n);
    assert Walking(zeros, row).At(f, i) == if zeros then Complement(f.width, Pow2(at)) else Pow2(at);
    assert Walking(zeros, row).At(f, i + 1)
        == if zeros then Complement(f.width, Pow2(Up(at, n))) else Pow2(Up(at, n));
    hide *;
    ComplementTwice(f.width, Pow2(at));
    Unchanged(f.width, Pow2(Up(at, n)));
  }

  lemma Unchanged(w: Width, v: nat)
    requires v < w.Span()
    ensures Truncate(w, v) == v
  {
    match w case W8 => case W16 => case W32 =>
  }

  lemma RotateSameLow(a: u32, b: u32, width: nat)
    requires 1 <= width <= 32 && a % Pow2(width) == b % Pow2(width)
    ensures RotateLeft(a, width) == RotateLeft(b, width)
  {
    Masks(width);
    AndLow(a, width);
    AndLow(b, width);
  }

  /** Complementing in 32 bits and rotating in the low bits is rotating the complement. */
  lemma ComplementTwice(w: Width, v: nat)
    requires v < w.Span()
    ensures Complement(w, v) == w.Span() - 1 - v
    ensures RotateLeft(Not32(Complement(w, v)), w.Bits()) == RotateLeft(v, w.Bits())
  {
    ComplementLow(w, v);
    SpanIsPow2(w);
    hide *;
    RotateSameLow(Not32(Complement(w, v)), v, w.Bits());
  }

  lemma ComplementLow(w: Width, v: nat)
    requires v < w.Span()
    ensures Complement(w, v) == w.Span() - 1 - v
    ensures Not32(Complement(w, v)) % w.Span() == v == v % w.Span()
  {
    match w case W8 => case W16 => case W32 =>
  }
}
