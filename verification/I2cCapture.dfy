/** Decoding of a captured I2C bit stream through a 64-bit window on 32-bit words. */
module I2cCapture {
  import opened Bits

  /** The capture memory: 32-bit words, bit 0 of word 0 captured first. */
  type Capture = nat -> u32

  const TWO64: nat := 0x1_0000_0000_0000_0000

  type u64 = n: nat | n < TWO64

  predicate CaptureBit(cap: Capture, a: nat) {
    Bit(cap(a / 32), a % 32)
  }

  /** `n` captured bits from address `a`, the first one most significant. */
  function MsbFirst(cap: Capture, a: nat, n: nat): nat {
    if n == 0 then 0 else 2 * MsbFirst(cap, a, n - 1) + B2N(CaptureBit(cap, a + n - 1))
  }

  datatype Token = Byte(value: nat) | Ack(nak: bool) | Rest(value: nat, n: nat) | Start | Stop

  /** The split of the bits from `a` to `target`: bytes each with its acknowledge bit, then
      what is left over. */
  function Split(cap: Capture, a: nat, target: nat): seq<Token>
    decreases target - a
  {
    if target > a + 8 then
      [Byte(MsbFirst(cap, a, 8)), Ack(CaptureBit(cap, a + 8))] + Split(cap, a + 9, target)
    else if target > a then [Rest(MsbFirst(cap, a, target - a), target - a)]
    else []
  }

  ghost predicate IsLine(l: seq<Token>) {
    l != [] && l[|l| - 1] == Stop && Stop !in l[..|l| - 1]
  }

  lemma {:induction false} SplitHasNoStop(cap: Capture, a: nat, target: nat)
    ensures Stop !in Split(cap, a, target)
    decreases target - a
  {
    if target > a + 8 {
      SplitHasNoStop(cap, a + 9, target);
    }
  }

  /** The window on the capture that serves reads at address `a`. */
  function Window(cap: Capture, a: nat): nat {
    cap(a / 32) + TWO32 * cap(a / 32 + 1)
  }

  lemma WindowBit(cap: Capture, a: nat, i: nat)
    requires i <= 32
    ensures Bit(Window(cap, a), a % 32 + i) <==> CaptureBit(cap, a + i)
  {
    Pow2Values();
    BitJoin(cap(a / 32 + 1), cap(a / 32), 32, a % 32 + i);
    if a % 32 + i < 32 {
      DivUnique(a + i, 32, a / 32, a % 32 + i);
    } else if a % 32 + i < 64 {
      DivUnique(a + i, 32, a / 32 + 1, a % 32 + i - 32);
    }
  }

  /** The crossing test of the reader: the low address bits come out below the length of the
      read exactly when the read ended in another word than it began in. */
  lemma CrossingTest(a: nat, nb: nat)
    requires 1 <= nb <= 32
    ensures (a + nb) % 32 < nb <==> (a + nb) / 32 != a / 32
    ensures (a + nb) / 32 == a / 32 + B2N((a + nb) % 32 < nb)
  {
  }

  class I2CBus {
    const cap: Capture
    var addr: u32
    var data: u64
    var line: seq<Token>
    var printed: seq<seq<Token>>

    /** The data register is the window on the word holding the current address, and the
        text is broken into lines after each stop. */
    ghost predicate Valid()
      reads this
    {
      && data == Window(cap, addr)
      && Stop !in line
      && forall i :: 0 <= i < |printed| ==> IsLine(printed[i])
    }

    constructor (cap: Capture)
      ensures Valid() && this.cap == cap && addr == 0 && line == [] && printed == []
    {
      this.cap := cap;
      addr, line, printed := 0, [], [];
      var v0, v1 := cap(0), cap(1);
      Pow2Values();
      OrJoin(v1, v0, 32);
      data := Or(Shl(v1, 32), v0);
    }

    /** Slide the window up one word. */
    method Load()
      modifies this`data
      ensures data == Shl(cap(addr / 32 + 1), 32) + Shr(old(data), 32)
    {
      hide Or, Shr, Shl;
      var v := cap(addr / 32 + 1);
      SlideDisjoint(v, data);
      data := Or(Shl(v, 32), Shr(data, 32));
    }

    method Read(nb: nat) returns (v: nat)
      requires data == Window(cap, addr) && nb <= 32 && addr + nb < TWO32
      modifies this`addr, this`data
      ensures data == Window(cap, addr)
      ensures v == MsbFirst(cap, old(addr), nb)
      ensures addr == old(addr) + nb
    {
      hide Shl, Shr, And, Or, MsbFirst, Window, B2N;
      if nb == 0 { EmptyRead(cap, addr); return 0; }
      v := 0;
      EmptyRead(cap, addr);
      ZeroShift(MsbFirst(cap, addr, 0), nb);
      for i := 0 to nb
        invariant addr == old(addr) && data == old(data)
        invariant v == Shl(MsbFirst(cap, addr, i), nb - i)
      {
        ReadStep(cap, addr, data, i, nb, v);
        v := Or(v, Shl(And(Shr(data, addr % 32 + i), 1), nb - i - 1));
      }
      ZeroShift(MsbFirst(cap, addr, nb), 0);
      CrossingTest(addr, nb);
      addr := addr + nb;
      if addr % 32 < nb {
        Load();
        SlideWindow(cap, old(addr), addr);
      } else {
        SameWindow(cap, old(addr), addr);
      }
    }

    method Insert(target: u32)
      requires Valid()
      modifies this`addr, this`data, this`line
      ensures Valid()
      ensures addr == Max(old(addr), target)
      ensures line == old(line) + Split(cap, old(addr), target)
    {
      hide Split, MsbFirst, Window, CaptureBit;
      SplitHasNoStop(cap, addr, target);
      while target > addr + 8
        invariant data == Window(cap, addr) && old(addr) <= addr <= Max(old(addr), target)
        invariant line + Split(cap, addr, target) == old(line) + Split(cap, old(addr), target)
        decreases target - addr
      {
        ghost var a, before := addr, line;
        SplitStep(cap, a, target);
        var v := Read(8);
        line := line + [Byte(v)];
        if target > addr {
          var nak := Read(1);
          line := line + [Ack(nak != 0)];
          OneBit(cap, a + 8);
        }
        assert line == before + [Byte(MsbFirst(cap, a, 8)), Ack(CaptureBit(cap, a + 8))];
      }
      SplitStep(cap, addr, target);
      if target > addr {
        var n := target - addr;
        var v := Read(n);
        line := line + [Rest(v, n)];
      }
      assert line == old(line) + Split(cap, old(addr), target);
    }

    method StartAt(target: u32)
      requires Valid()
      modifies this`addr, this`data, this`line
      ensures Valid()
      ensures addr == Max(old(addr), target)
      ensures line == old(line) + Split(cap, old(addr), target) + [Start]
    {
      Insert(target);
      line := line + [Start];
    }

    method StopAt(target: u32)
      requires Valid()
      modifies this`addr, this`data, this`line, this`printed
      ensures Valid() && line == []
      ensures addr == Max(old(addr), target)
      ensures printed == old(printed) + [old(line) + Split(cap, old(addr), target) + [Stop]]
    {
      Insert(target);
      assert (line + [Stop])[..|line|] == line;
      line := line + [Stop];
      printed := printed + [line];
      line := [];
    }

    /** Play a list of captured start and stop words: bit 15 marks a start, bit 14 a stop,
        the rest is the bit address. */
    method Dump(cmds: seq<u32>)
      requires Valid()
      modifies this`addr, this`data, this`line, this`printed
      ensures Valid()
      ensures addr == Farthest(old(addr), cmds)
      ensures Flat(printed) + line == Flat(old(printed)) + old(line) + Played(cap, old(addr), cmds)
      ensures |printed| == |old(printed)| + Stops(cmds)
    {
      hide Split, Window, Flat, Played, Farthest, IsStart, IsStop, Address, Stops, Bit;
      PlayedNone(cap, addr, cmds[..0]);
      StopsNone(cmds[..0]);
      for k := 0 to |cmds|
        invariant Valid()
        invariant addr == Farthest(old(addr), cmds[..k])
        invariant Flat(printed) + line == Flat(old(printed)) + old(line) + Played(cap, old(addr), cmds[..k])
        invariant |printed| == |old(printed)| + Stops(cmds[..k])
      {
        var v := cmds[k];
        CommandWord(v);
        StopsStep(cmds, k);
        ghost var a, shown, text := addr, printed, line;
        PlayedStep(cap, old(addr), cmds, k);
        if IsStart(v) {
          StartAt(Address(v));
        } else if IsStop(v) {
          StopAt(Address(v));
          FlatAppend(shown, text + Split(cap, a, Address(v)) + [Stop]);
        }
        assert Flat(printed) + line == Flat(shown) + text + Command(cap, a, v);
      }
      assert cmds[..|cmds|] == cmds;
    }
  }

  predicate IsStart(v: u32) {
    And(v, 0x8000) != 0
  }

  predicate IsStop(v: u32) {
    And(v, 0x4000) != 0
  }

  function Address(v: u32): (a: u32)
  {
    AndBound(v, 0x3FFF);
    And(v, 0x3FFF)
  }

  /** Which bits of a command word are read: bit 15 marks a start, bit 14 a stop, and the
      fourteen below are the address. */
  lemma CommandWord(v: u32)
    ensures IsStart(v) <==> Bit(v, 15)
    ensures IsStop(v) <==> Bit(v, 14)
    ensures Address(v) == v % 0x4000
  {
    assert Pow2(15) == 0x8000 && Pow2(14) == 0x4000 by { Pow2Values(); }
    hide And, Bit, Pow2;
    AndPow2(v, 15);
    AndPow2(v, 14);
    AndLow(v, 14);
  }

  /** The marks a command list asks for, in order. */
  function MarksOf(cmds: seq<u32>): seq<Token> {
    if cmds == [] then []
    else
      var v := cmds[|cmds| - 1];
      MarksOf(cmds[..|cmds| - 1])
      + if Bit(v, 15) then [Start] else if Bit(v, 14) then [Stop] else []
  }

  /** The number of stops among them. */
  function Stops(cmds: seq<u32>): nat {
    if cmds == [] then 0
    else
      var v := cmds[|cmds| - 1];
      Stops(cmds[..|cmds| - 1]) + if !Bit(v, 15) && Bit(v, 14) then 1 else 0
  }

  lemma StopsNone(cmds: seq<u32>)
    requires cmds == []
    ensures Stops(cmds) == 0
  {
  }

  lemma StopsStep(cmds: seq<u32>, k: nat)
    requires k < |cmds|
    ensures Stops(cmds[..k + 1]) == Stops(cmds[..k]) + if !Bit(cmds[k], 15) && Bit(cmds[k], 14) then 1 else 0
  {
    assert cmds[..k + 1][..k] == cmds[..k];
  }

  /** The marks among the tokens of a text. */
  function Marks(ts: seq<Token>): seq<Token> {
    if ts == [] then [] else Mark(ts[0]) + Marks(ts[1..])
  }

  function Mark(t: Token): seq<Token> {
    if t.Start? || t.Stop? then [t] else []
  }

  lemma {:induction false} MarksAppend(s: seq<Token>, t: seq<Token>)
    ensures Marks(s + t) == Marks(s) + Marks(t)
  {
    hide Mark;
    if s == [] {
      assert s + t == t;
    } else {
      assert (s + t)[1..] == s[1..] + t;
      MarksAppend(s[1..], t);
      assert Mark(s[0]) + (Marks(s[1..]) + Marks(t)) == Mark(s[0]) + Marks(s[1..]) + Marks(t);
    }
  }

  lemma {:induction false} SplitHasNoMark(cap: Capture, a: nat, target: nat)
    ensures Marks(Split(cap, a, target)) == []
    decreases target - a
  {
    if target > a + 8 {
      SplitHasNoMark(cap, a + 9, target);
      var head := [Byte(MsbFirst(cap, a, 8)), Ack(CaptureBit(cap, a + 8))];
      MarksAppend(head, Split(cap, a + 9, target));
      assert head[1..][1..] == [];
      assert Marks(head) == [];
    }
  }

  /** For every command list, the marks of the text in order are a start for each word with
      bit 15 and a stop for each with bit 14 only. */
  lemma {:induction false} PlayedMarks(cap: Capture, a: nat, cmds: seq<u32>)
    ensures Marks(Played(cap, a, cmds)) == MarksOf(cmds)
  {
    hide IsStart, IsStop, Address, Farthest, Split, Bit;
    if cmds != [] {
      var before, v := cmds[..|cmds| - 1], cmds[|cmds| - 1];
      var at := Farthest(a, before);
      PlayedMarks(cap, a, before);
      CommandWord(v);
      MarksAppend(Played(cap, a, before), Command(cap, at, v));
      SplitHasNoMark(cap, at, Address(v));
      MarksAppend(Split(cap, at, Address(v)), [Start]);
      MarksAppend(Split(cap, at, Address(v)), [Stop]);
    }
  }

  /** The mark of the k-th command stands behind exactly the bits up to the farthest address
      reached by then. */
  lemma MarkPlace(cap: Capture, a: nat, cmds: seq<u32>, k: nat)
    requires k < |cmds| && (Bit(cmds[k], 15) || Bit(cmds[k], 14))
    ensures var t := Played(cap, a, cmds[..k + 1]);
            && t <= Played(cap, a, cmds) && t != []
            && t[|t| - 1] == (if Bit(cmds[k], 15) then Start else Stop)
            && a <= Farthest(a, cmds[..k + 1]) == Max(Farthest(a, cmds[..k]), cmds[k] % 0x4000)
            && Meaning(t[..|t| - 1]) == Slice(cap, a, Farthest(a, cmds[..k + 1]))
  {
    hide IsStart, IsStop, Address, Farthest, Split, Bit, Played, Slice, Meaning;
    var v, at := cmds[k], Farthest(a, cmds[..k]);
    CommandWord(v);
    PlayedStep(cap, a, cmds, k);
    PlayedPrefix(cap, a, cmds, k + 1);
    PlayedMeaning(cap, a, cmds[..k]);
    var t, text := Played(cap, a, cmds[..k + 1]), Played(cap, a, cmds[..k]);
    assert t[..|t| - 1] == text + Split(cap, at, Address(v));
    MeaningAppend(text, Split(cap, at, Address(v)));
    SplitMeaning(cap, at, Address(v));
    SliceJoin(cap, a, at, Max(at, Address(v)));
  }

  /** What one command word adds to the text. */
  function Command(cap: Capture, a: nat, v: u32): seq<Token> {
    if IsStart(v) then Split(cap, a, Address(v)) + [Start]
    else if IsStop(v) then Split(cap, a, Address(v)) + [Stop]
    else []
  }

  function Farthest(a: nat, cmds: seq<u32>): nat {
    if cmds == [] then a
    else
      var at, v := Farthest(a, cmds[..|cmds| - 1]), cmds[|cmds| - 1];
      if IsStart(v) || IsStop(v) then Max(at, Address(v)) else at
  }

  function Played(cap: Capture, a: nat, cmds: seq<u32>): seq<Token> {
    if cmds == [] then []
    else
      var before := cmds[..|cmds| - 1];
      Played(cap, a, before) + Command(cap, Farthest(a, before), cmds[|cmds| - 1])
  }

  function Flat(lines: seq<seq<Token>>): seq<Token> {
    if lines == [] then [] else Flat(lines[..|lines| - 1]) + lines[|lines| - 1]
  }

  lemma PlayedNone(cap: Capture, a: nat, cmds: seq<u32>)
    requires cmds == []
    ensures Played(cap, a, cmds) == [] && Farthest(a, cmds) == a
  {
  }

  lemma PlayedStep(cap: Capture, a: nat, cmds: seq<u32>, k: nat)
    requires k < |cmds|
    ensures var at, v := Farthest(a, cmds[..k]), cmds[k];
            && Farthest(a, cmds[..k + 1]) == (if IsStart(v) || IsStop(v) then Max(at, Address(v)) else at)
            && Played(cap, a, cmds[..k + 1]) == Played(cap, a, cmds[..k]) + Command(cap, at, v)
  {
    assert cmds[..k + 1][..k] == cmds[..k];
  }

  lemma SplitStep(cap: Capture, a: nat, target: nat)
    ensures Split(cap, a, target)
            == if target > a + 8 then
                 [Byte(MsbFirst(cap, a, 8)), Ack(CaptureBit(cap, a + 8))] + Split(cap, a + 9, target)
               else if target > a then [Rest(MsbFirst(cap, a, target - a), target - a)]
               else []
  {
  }

  lemma EmptyRead(cap: Capture, a: nat)
    ensures MsbFirst(cap, a, 0) == 0
  {
  }

  lemma ZeroShift(x: nat, n: nat)
    ensures x == 0 ==> Shl(x, n) == 0
    ensures n == 0 ==> Shl(x, n) == x
  {
  }

  /** One step of the read loop appends one captured bit. */
  lemma ReadStep(cap: Capture, a: nat, data: nat, i: nat, nb: nat, v: nat)
    requires i < nb <= 32 && data == Window(cap, a) && v == Shl(MsbFirst(cap, a, i), nb - i)
    ensures Or(v, Shl(And(Shr(data, a % 32 + i), 1), nb - i - 1)) == Shl(MsbFirst(cap, a, i + 1), nb - i - 1)
  {
    var x, k := MsbFirst(cap, a, i), nb - i - 1;
    var bit := And(Shr(data, a % 32 + i), 1);
    assert MsbFirst(cap, a, i + 1) == 2 * x + B2N(CaptureBit(cap, a + i));
    assert bit == B2N(Bit(Shr(data, a % 32 + i), 0)) by {
      AndLow(Shr(data, a % 32 + i), 1);
    }
    assert B2N(true) == 1 && B2N(false) == 0;
    hide *;
    BitShr(data, a % 32 + i, 0);
    WindowBit(cap, a, i);
    AppendBit(x, bit, k);
  }

  lemma SameWindow(cap: Capture, a: nat, b: nat)
    requires b / 32 == a / 32
    ensures Window(cap, b) == Window(cap, a)
  {
  }

  lemma FlatAppend(lines: seq<seq<Token>>, l: seq<Token>)
    ensures Flat(lines + [l]) == Flat(lines) + l
  {
    assert (lines + [l])[..|lines|] == lines;
  }

  lemma SlideDisjoint(v: u32, data: u64)
    ensures Or(Shl(v, 32), Shr(data, 32)) == Shl(v, 32) + Shr(data, 32) < TWO64
  {
    Pow2Values();
    ShlShr(data, 32);
    OrJoin(v, Shr(data, 32), 32);
  }

  lemma SlideWindow(cap: Capture, a: nat, b: nat)
    requires b / 32 == a / 32 + 1 && Window(cap, a) < TWO64
    ensures Shl(cap(b / 32 + 1), 32) + Shr(Window(cap, a), 32) == Window(cap, b)
  {
    Pow2Values();
    ShlShr(Window(cap, a), 32);
    DivUnique(Window(cap, a), TWO32, cap(a / 32 + 1), cap(a / 32));
  }

  lemma AppendBit(x: nat, bit: nat, k: nat)
    requires bit <= 1
    ensures Or(Shl(x, k + 1), Shl(bit, k)) == Shl(2 * x + bit, k)
  {
    assert Pow2(k + 1) == 2 * Pow2(k);
    BelowDouble(bit, Pow2(k));
    Distribute(x, bit, Pow2(k));
    hide Or, Pow2;
    OrJoin(x, bit * Pow2(k), k + 1);
  }

  lemma BelowDouble(bit: nat, p: nat)
    requires bit <= 1 && p > 0
    ensures 0 <= bit * p < 2 * p
  {
    if bit == 1 {
      assert bit * p == p;
    }
  }

  lemma Distribute(x: nat, bit: nat, p: nat)
    ensures x * (2 * p) + bit * p == (2 * x + bit) * p
  {
  }

  lemma OneBit(cap: Capture, a: nat)
    ensures MsbFirst(cap, a, 1) != 0 <==> CaptureBit(cap, a)
  {
    assert MsbFirst(cap, a, 0) == 0;
  }

  // ----- what the text says -----

  /** The captured bits from `a` up to `b`. */
  function Slice(cap: Capture, a: nat, b: nat): (r: seq<bool>)
    requires a <= b
    ensures |r| == b - a
  {
    seq(b - a, i requires 0 <= i < b - a => CaptureBit(cap, a + i))
  }

  /** The low `n` bits of a value, most significant first. */
  function Digits(v: nat, n: nat): (r: seq<bool>)
    ensures |r| == n
  {
    if n == 0 then [] else Digits(v / 2, n - 1) + [v % 2 == 1]
  }

  /** The bits the tokens stand for. */
  function Meaning(ts: seq<Token>): seq<bool> {
    if ts == [] then []
    else
      (match ts[0]
       case Byte(v) => Digits(v, 8)
       case Ack(nak) => [nak]
       case Rest(v, n) => Digits(v, n)
       case Start => []
       case Stop => []) + Meaning(ts[1..])
  }

  lemma {:induction false} MeaningAppend(s: seq<Token>, t: seq<Token>)
    ensures Meaning(s + t) == Meaning(s) + Meaning(t)
  {
    if s == [] {
      assert s + t == t;
    } else {
      assert (s + t)[1..] == s[1..] + t;
      MeaningAppend(s[1..], t);
    }
  }

  lemma {:induction false} DigitsOfSlice(cap: Capture, a: nat, n: nat)
    ensures Digits(MsbFirst(cap, a, n), n) == Slice(cap, a, a + n)
  {
    if n > 0 {
      DigitsOfSlice(cap, a, n - 1);
      assert MsbFirst(cap, a, n) / 2 == MsbFirst(cap, a, n - 1);
    }
  }

  lemma {:induction false} SplitMeaning(cap: Capture, a: nat, target: nat)
    ensures Meaning(Split(cap, a, target)) == Slice(cap, a, Max(a, target))
    decreases target - a
  {
    hide Meaning, Slice, MsbFirst, CaptureBit;
    if target > a + 8 {
      SplitMeaning(cap, a + 9, target);
      var head := [Byte(MsbFirst(cap, a, 8)), Ack(CaptureBit(cap, a + 8))];
      MeaningAppend(head, Split(cap, a + 9, target));
      ByteMeaning(cap, a);
      SliceJoin(cap, a, a + 9, target);
    } else if target > a {
      RestMeaning(cap, a, target - a);
    } else {
      NothingMeant(cap, a);
    }
  }

  /** Counted out: a byte and an acknowledge for every nine bits, and one token for what is
      left over, if anything is. */
  lemma {:induction false} SplitShape(cap: Capture, a: nat, q: nat, r: nat, i: nat)
    requires r < 9 && i <= q
    ensures var ts := Split(cap, a, a + 9 * q + r);
            && |ts| == 2 * q + (if r > 0 then 1 else 0)
            && (i < q ==> ts[2 * i] == Byte(MsbFirst(cap, a + 9 * i, 8))
                          && ts[2 * i + 1] == Ack(CaptureBit(cap, a + 9 * i + 8)))
            && (r > 0 ==> ts[2 * q] == Rest(MsbFirst(cap, a + 9 * q, r), r))
    decreases q
  {
    hide MsbFirst, CaptureBit;
    if q > 0 {
      assert a + 9 * q + r == (a + 9) + 9 * (q - 1) + r;
      SplitShape(cap, a + 9, q - 1, r, if i == 0 then 0 else i - 1);
    }
  }

  lemma ByteMeaning(cap: Capture, a: nat)
    ensures Meaning([Byte(MsbFirst(cap, a, 8)), Ack(CaptureBit(cap, a + 8))]) == Slice(cap, a, a + 9)
  {
    var head := [Byte(MsbFirst(cap, a, 8)), Ack(CaptureBit(cap, a + 8))];
    DigitsOfSlice(cap, a, 8);
    hide MsbFirst, CaptureBit, Digits;
    assert head[1..] == [Ack(CaptureBit(cap, a + 8))];
    assert head[1..][1..] == [];
    assert Meaning(head[1..]) == [CaptureBit(cap, a + 8)] + Meaning([]);
    assert Meaning(head) == Digits(MsbFirst(cap, a, 8), 8) + [CaptureBit(cap, a + 8)];
  }

  lemma RestMeaning(cap: Capture, a: nat, n: nat)
    ensures Meaning([Rest(MsbFirst(cap, a, n), n)]) == Slice(cap, a, a + n)
  {
    DigitsOfSlice(cap, a, n);
    hide MsbFirst, CaptureBit, Digits, Slice;
    var ts := [Rest(MsbFirst(cap, a, n), n)];
    assert ts[1..] == [];
    assert Meaning(ts) == Digits(MsbFirst(cap, a, n), n) + [];
  }

  lemma SliceJoin(cap: Capture, a: nat, b: nat, c: nat)
    requires a <= b <= c
    ensures Slice(cap, a, b) + Slice(cap, b, c) == Slice(cap, a, c)
  {
  }

  lemma CommandMeaning(cap: Capture, a: nat, v: u32)
    ensures Meaning(Command(cap, a, v))
            == Slice(cap, a, if IsStart(v) || IsStop(v) then Max(a, Address(v)) else a)
  {
    if IsStart(v) || IsStop(v) {
      SplitMeaning(cap, a, Address(v));
      MeaningAppend(Split(cap, a, Address(v)), [if IsStart(v) then Start else Stop]);
    }
  }

  /** The address ends at the farthest start or stop. */
  lemma {:induction false} FarthestIsMaximum(a: nat, cmds: seq<u32>)
    ensures a <= Farthest(a, cmds)
    ensures forall k :: 0 <= k < |cmds| && (IsStart(cmds[k]) || IsStop(cmds[k])) ==>
              Address(cmds[k]) <= Farthest(a, cmds)
    ensures Farthest(a, cmds) == a
            || exists k :: 0 <= k < |cmds| && (IsStart(cmds[k]) || IsStop(cmds[k])) && Address(cmds[k]) == Farthest(a, cmds)
  {
    hide IsStart, IsStop, Address;
    if cmds != [] {
      var n := |cmds| - 1;
      FarthestIsMaximum(a, cmds[..n]);
      assert forall k :: 0 <= k < n ==> cmds[..n][k] == cmds[k];
    }
  }

  /** The printed tokens stand for exactly the captured bits passed over: none is lost,
      repeated or read beyond the farthest mark. */
  lemma {:induction false} PlayedMeaning(cap: Capture, a: nat, cmds: seq<u32>)
    ensures a <= Farthest(a, cmds)
    ensures Meaning(Played(cap, a, cmds)) == Slice(cap, a, Farthest(a, cmds))
  {
    hide Slice, Command, IsStart, IsStop, Address, Meaning;
    FarthestIsMaximum(a, cmds);
    if cmds != [] {
      var before, v := cmds[..|cmds| - 1], cmds[|cmds| - 1];
      var at := Farthest(a, before);
      PlayedMeaning(cap, a, before);
      CommandMeaning(cap, at, v);
      MeaningAppend(Played(cap, a, before), Command(cap, at, v));
      SliceJoin(cap, a, at, Farthest(a, cmds));
    } else {
      assert Meaning([]) == Slice(cap, a, a) by { NothingMeant(cap, a); }
    }
  }

  lemma NothingMeant(cap: Capture, a: nat)
    ensures Meaning([]) == Slice(cap, a, a)
  {
  }

  /** The k-th mark in the text stands where its command's address fell: cutting the text
      after any number of commands cuts the bits at the address reached by then. */
  lemma {:induction false} PlayedPrefix(cap: Capture, a: nat, cmds: seq<u32>, k: nat)
    requires k <= |cmds|
    ensures Played(cap, a, cmds[..k]) <= Played(cap, a, cmds)
    ensures a <= Farthest(a, cmds[..k])
    ensures Meaning(Played(cap, a, cmds[..k])) == Slice(cap, a, Farthest(a, cmds[..k]))
    decreases |cmds|
  {
    PlayedMeaning(cap, a, cmds[..k]);
    if k == |cmds| {
      assert cmds[..k] == cmds;
    } else {
      var before := cmds[..|cmds| - 1];
      PlayedPrefix(cap, a, before, k);
      assert before[..k] == cmds[..k];
    }
  }
}
