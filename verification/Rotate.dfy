/** The rotation helpers of the memory test, in 32-bit registers at any data width. */
module Rotate {
  import opened Bits

  function MsbMask(width: nat): u32
    requires 1 <= width <= 32
  {
    Shl(1, width - 1) % TWO32
  }

  /** At width 32 the shifted mask drops out of the register and the subtraction
      wraps round to all ones. */
  function WidthMask(width: nat): u32
    requires 1 <= width <= 32
  {
    (Shl(MsbMask(width), 1) % TWO32 + TWO32 - 1) % TWO32
  }

  function RotateLeft(input: u32, width: nat): nat
    requires 1 <= width <= 32
  {
    var inp := And(input, WidthMask(width));
    var msb := And(inp, MsbMask(width));
    var shifted := Shl(inp, 1) % TWO32;
    var filled := if msb != 0 then Or(shifted, 1) else shifted;
    And(filled, WidthMask(width))
  }

  function RotateRight(input: u32, width: nat): nat
    requires 1 <= width <= 32
  {
    var inp := And(input, WidthMask(width));
    var shifted := Shr(inp, 1);
    var lsb := And(inp, 1);
    var filled := if lsb != 0 then Or(shifted, MsbMask(width)) else shifted;
    And(filled, WidthMask(width))
  }

  /** The bit place next below, round a word of `width` bits. */
  function Down(k: nat, width: nat): nat
    requires width > 0
  {
    if k == 0 then width - 1 else k - 1
  }

  lemma Masks(width: nat)
    requires 1 <= width <= 32
    ensures MsbMask(width) == Pow2(width - 1)
    ensures WidthMask(width) == Pow2(width) - 1
  {
    var p := Pow2(width - 1);
    assert p <= 0x8000_0000 by {
      Pow2Mono(width - 1, 31);
      Pow2Values();
    }
    assert Pow2(width) == 2 * p && Pow2(1) == 2;
    hide Pow2;
    assert MsbMask(width) == p;
    assert Shl(p, 1) == 2 * p;
    assert p < 0x8000_0000 ==> WidthMask(width) == 2 * p - 1;
  }

  lemma {:induction false} Doubled(w: nat, k: nat)
    ensures Bit(2 * w, k) <==> k > 0 && Bit(w, k - 1)
  {
    if k > 0 {
      assert 2 * w / 2 == w;
    }
  }

  /** Bit `k` of the rotated word is the bit below it, cyclically, in `width` bits. */
  lemma RotateLeftBits(w: u32, width: nat, k: nat)
    requires 1 <= width <= 32
    ensures Bit(RotateLeft(w, width), k) <==> k < width && Bit(w, Down(k, width))
  {
    Masks(width);
    AndLow(w, width);
    AndPow2(w % Pow2(width), width - 1);
    BitMod(w, width, width - 1);
    LeftBits(w % Pow2(width), width, k);
    if 0 < k {
      BitMod(w, width, k - 1);
    }
  }

  lemma LeftBits(inp: nat, width: nat, k: nat)
    requires 1 <= width <= 32 && inp < Pow2(width)
    ensures var shifted := Shl(inp, 1) % TWO32;
            && (Bit(And(shifted, Pow2(width) - 1), k) <==> 0 < k < width && Bit(inp, k - 1))
            && (Bit(And(Or(shifted, 1), Pow2(width) - 1), k) <==> k < width && (k == 0 || Bit(inp, k - 1)))
  {
    var shifted := Shl(inp, 1) % TWO32;
    assert TWO32 == Pow2(32) by { Pow2Values(); }
    assert Shl(inp, 1) == 2 * inp && 1 == Pow2(0);
    hide *;
    AndLow(shifted, width);
    AndLow(Or(shifted, 1), width);
    BitMod(shifted, width, k);
    BitMod(Or(shifted, 1), width, k);
    BitOr(shifted, 1, k);
    BitPow2(0, k);
    BitMod(Shl(inp, 1), 32, k);
    Doubled(inp, k);
  }

  lemma RotateRightBits(w: u32, width: nat, k: nat)
    requires 1 <= width <= 32
    ensures Bit(RotateRight(w, width), k) <==> k < width && Bit(w, Up(k, width))
  {
    Masks(width);
    AndLow(w, width);
    AndPow2(w % Pow2(width), 0);
    BitMod(w, width, 0);
    RightBits(w % Pow2(width), width, k);
    BitMod(w, width, k + 1);
  }

  lemma RightBits(inp: nat, width: nat, k: nat)
    requires 1 <= width <= 32 && inp < Pow2(width)
    ensures var shifted := Shr(inp, 1);
            && (Bit(And(shifted, Pow2(width) - 1), k) <==> k < width && Bit(inp, k + 1))
            && (Bit(And(Or(shifted, Pow2(width - 1)), Pow2(width) - 1), k)
                <==> k < width && (k == width - 1 || Bit(inp, k + 1)))
  {
    var shifted := Shr(inp, 1);
    AndLow(shifted, width);
    AndLow(Or(shifted, Pow2(width - 1)), width);
    BitMod(shifted, width, k);
    BitMod(Or(shifted, Pow2(width - 1)), width, k);
    BitOr(shifted, Pow2(width - 1), k);
    BitPow2(width - 1, k);
    BitShr(inp, 1, k);
  }

  lemma RotateLeftBound(w: u32, width: nat)
    requires 1 <= width <= 32
    ensures RotateLeft(w, width) < Pow2(width) <= TWO32
  {
    Masks(width);
    Pow2Mono(width, 32);
    Pow2Values();
    AndBound(if And(And(w, WidthMask(width)), MsbMask(width)) != 0
             then Or(Shl(And(w, WidthMask(width)), 1) % TWO32, 1)
             else Shl(And(w, WidthMask(width)), 1) % TWO32, WidthMask(width));
  }

  lemma RotateRightBound(w: u32, width: nat)
    requires 1 <= width <= 32
    ensures RotateRight(w, width) < Pow2(width) <= TWO32
  {
    Masks(width);
    Pow2Mono(width, 32);
    Pow2Values();
    AndBound(if And(And(w, WidthMask(width)), 1) != 0
             then Or(Shr(And(w, WidthMask(width)), 1), MsbMask(width))
             else Shr(And(w, WidthMask(width)), 1), WidthMask(width));
  }

  lemma LowBitsDecide(w: nat, x: nat, width: nat)
    requires x < Pow2(width)
    requires forall k: nat :: k < width ==> Bit(x, k) == Bit(w, k)
    ensures x == w % Pow2(width)
  {
    var low := w % Pow2(width);
    forall k: nat | k < width
      ensures Bit(low, k) == Bit(x, k)
    {
      BitMod(w, width, k);
    }
    SameBits(low, x, width);
  }

  /** The two rotations undo each other on the low `width` bits. */
  lemma RotateRightUndoesLeft(w: u32, width: nat)
    requires 1 <= width <= 32
    ensures RotateLeft(w, width) < TWO32
    ensures RotateRight(RotateLeft(w, width), width) == w % Pow2(width)
  {
    hide RotateLeft, RotateRight, Bit;
    RotateLeftBound(w, width);
    var l := RotateLeft(w, width);
    RotateRightBound(l, width);
    forall k: nat | k < width
      ensures Bit(RotateRight(l, width), k) == Bit(w, k)
    {
      RotateRightBits(l, width, k);
      RotateLeftBits(w, width, Up(k, width));
    }
    LowBitsDecide(w, RotateRight(l, width), width);
  }

  lemma RotateLeftUndoesRight(w: u32, width: nat)
    requires 1 <= width <= 32
    ensures RotateRight(w, width) < TWO32
    ensures RotateLeft(RotateRight(w, width), width) == w % Pow2(width)
  {
    hide RotateLeft, RotateRight, Bit;
    RotateRightBound(w, width);
    var r := RotateRight(w, width);
    RotateLeftBound(r, width);
    forall k: nat | k < width
      ensures Bit(RotateLeft(r, width), k) == Bit(w, k)
    {
      RotateLeftBits(r, width, k);
      RotateRightBits(w, width, Down(k, width));
    }
    LowBitsDecide(w, RotateLeft(r, width), width);
  }

  /** Rotating a single set bit moves it one place up, and from the top to the bottom. */
  lemma RotateOneHot(j: nat, width: nat)
    requires j < width <= 32
    ensures Pow2(j) < Pow2(width) <= TWO32
    ensures RotateLeft(Pow2(j), width) == Pow2(Up(j, width))
  {
    Pow2Strict(j, width);
    Pow2Mono(width, 32);
    Pow2Values();
    RotateLeftBound(Pow2(j), width);
    Pow2Strict(Up(j, width), width);
    forall k: nat | k < width
      ensures Bit(RotateLeft(Pow2(j), width), k) == Bit(Pow2(Up(j, width)), k)
    {
      RotateLeftBits(Pow2(j), width, k);
      BitPow2(j, Down(k, width));
      BitPow2(Up(j, width), k);
    }
    SameBits(RotateLeft(Pow2(j), width), Pow2(Up(j, width)), width);
  }

  function RotateLeftTimes(w: u32, width: nat, times: nat): u32
    requires 1 <= width <= 32
  {
    if times == 0 then w
    else
      RotateLeftBound(RotateLeftTimes(w, width, times - 1), width);
      RotateLeft(RotateLeftTimes(w, width, times - 1), width)
  }

  /** `times` rotations take bit `j` to place `j + times`, counted round the word. */
  lemma {:induction false} RotateOneHotTimes(j: nat, width: nat, times: nat)
    requires j < width <= 32
    ensures Pow2(j) < TWO32
    ensures RotateLeftTimes(Pow2(j), width, times) == Pow2((j + times) % width)
  {
    RotateOneHot(j, width);
    if times == 0 {
      assert j % width == j by { DivUnique(j, width, 0, j); }
    } else {
      hide *;
      var at := (j + times - 1) % width;
      RotateOneHotTimes(j, width, times - 1);
      RotateOneHot(at, width);
      ModStep(j + times - 1, width);
      assert RotateLeftTimes(Pow2(j), width, times) == RotateLeft(Pow2(at), width) by {
        StepTimes(Pow2(j), width, times);
      }
    }
  }

  lemma StepTimes(w: u32, width: nat, times: nat)
    requires 1 <= width <= 32 && times > 0
    ensures RotateLeftTimes(w, width, times) == RotateLeft(RotateLeftTimes(w, width, times - 1), width)
  {
  }
}
