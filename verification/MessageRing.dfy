/** The boot-time message ring and the hexadecimal printing on top of it. */
module MessageRing {
  import opened Bits

  const NUL: char := '\0'

  /** The cell `k` places behind `w` in a ring of `size` cells. */
  function Behind(w: nat, k: nat, size: nat): nat
    requires w < size && k < size
  {
    if k <= w then w - k else w + size - k
  }

  function HexDigit(d: nat): char
    requires d < 16
  {
    "0123456789abcdef"[d]
  }

  /** The low `n` hexadecimal digits of `v`, most significant first. */
  function HexDigits(v: nat, n: nat): (r: string)
    ensures |r| == n
  {
    if n == 0 then "" else HexDigits(v / 16, n - 1) + [HexDigit(v % 16)]
  }

  lemma {:induction false} HexDigitsNoNul(v: nat, n: nat)
    ensures NUL !in HexDigits(v, n)
  {
    if n > 0 {
      HexDigitsNoNul(v / 16, n - 1);
    }
  }

  /** Digit by digit: the i-th character is that of the four bits it stands for. */
  lemma {:induction false} HexDigitsAt(v: nat, n: nat, i: nat)
    requires i < n
    ensures HexDigits(v, n)[i] == "0123456789abcdef"[v / Pow2(4 * (n - 1 - i)) % 16]
  {
    if i == n - 1 {
      assert Pow2(0) == 1;
    } else {
      var m := 4 * (n - 2 - i);
      HexDigitsAt(v / 16, n - 1, i);
      assert Pow2(m + 4) == 16 * Pow2(m) by {
        assert Pow2(m + 2) == 2 * Pow2(m + 1) && Pow2(m + 4) == 2 * Pow2(m + 3);
      }
      DivSixteen(v, Pow2(m));
    }
  }

  lemma DivSixteen(v: nat, d: nat)
    requires d > 0
    ensures v / 16 / d == v / (16 * d)
  {
    var q := v / 16;
    DivSixteenAt(v, d, q / d, q % d, v % 16);
  }

  lemma DivSixteenAt(v: nat, d: nat, u: nat, w: nat, r: nat)
    requires w < d && r < 16 && v == 16 * (u * d + w) + r
    ensures v / (16 * d) == u
  {
    assert v == u * (16 * d) + (16 * w + r);
    hide *;
    DivUnique(v, 16 * d, u, 16 * w + r);
  }

  /** The last `n` characters of a text. */
  function Last(text: seq<char>, n: nat): seq<char>
    requires n <= |text|
  {
    text[|text| - n..]
  }

  function Min(a: nat, b: nat): nat {
    if a < b then a else b
  }

  class Printer {
    const buffer: array<char>
    var w: nat
    var uart: seq<char>

    ghost predicate Valid()
      reads this, buffer
    {
      && 0 < buffer.Length
      && w == |uart| % buffer.Length
      && (uart != [] ==> buffer[w] == NUL)
      && forall k :: 1 <= k < buffer.Length && k <= |uart| ==>
           buffer[Behind(w, k, buffer.Length)] == uart[|uart| - k]
    }

    constructor (area: array<char>)
      requires area.Length > 0
      ensures Valid() && buffer == area && uart == []
    {
      buffer := area;
      w, uart := 0, [];
    }

    /** One character goes to the UART and into the ring, and the cell after it is cleared. */
    method Put(c: char)
      requires Valid()
      modifies this, buffer
      ensures Valid() && uart == old(uart) + [c]
    {
      ModStep(|uart|, buffer.Length);
      ghost var from, size := w, buffer.Length;
      uart := uart + [c];
      buffer[w] := c;
      w := w + 1;
      if w >= buffer.Length {
        w := 0;
      }
      buffer[w] := NUL;
      forall k | 1 <= k < size && k <= |uart|
        ensures buffer[Behind(w, k, size)] == uart[|uart| - k]
      {
        BehindStep(from, k, size);
      }
    }

    method Print(str: string)
      requires Valid() && NUL !in str
      modifies this, buffer
      ensures Valid() && uart == old(uart) + str
    {
      for i := 0 to |str|
        invariant Valid() && uart == old(uart) + str[..i]
      {
        Put(str[i]);
      }
      assert str[..|str|] == str;
    }

    /** Fill the digits from the back, four bits at a time. */
    method PrintX(n: nat, val: u32)
      requires Valid() && n <= 8
      modifies this, buffer
      ensures Valid() && uart == old(uart) + HexDigits(val, n)
    {
      var digits, v := "", val;
      for i := n downto 0
        invariant Valid() && uart == old(uart)
        invariant HexDigits(val, n) == HexDigits(v, i) + digits
      {
        NibbleOf(v);
        digits := [HexDigit(And(v, 0xf))] + digits;
        v := Shr(v, 4);
      }
      HexDigitsNoNul(val, n);
      Print(digits);
    }

    method Println(str: string, width: nat, value: u32, nl: string)
      requires Valid() && NUL !in str && NUL !in nl && width <= 8
      modifies this, buffer
      ensures Valid() && uart == old(uart) + str + HexDigits(value, width) + nl
    {
      Print(str);
      PrintX(width, value);
      Print(nl);
    }

    /** What the ring shows, read backwards from the cleared cell: the end of all that was
        printed, as much as fits beside that cell. */
    method Tail() returns (text: seq<char>)
      requires Valid()
      ensures |text| == Min(|uart|, buffer.Length - 1) && text == uart[|uart| - |text|..]
      ensures uart != [] ==> buffer[w] == NUL
    {
      text := [];
      var n := Min(|uart|, buffer.Length - 1);
      for k := 0 to n
        invariant text == Last(uart, k)
      {
        text := [buffer[Behind(w, k + 1, buffer.Length)]] + text;
      }
    }
  }

  /** Seen from the next cell, everything is one place further behind. */
  lemma BehindStep(w: nat, k: nat, size: nat)
    requires w < size && 1 <= k < size
    ensures var next := if w + 1 >= size then 0 else w + 1;
            && Behind(next, k, size) == Behind(w, k - 1, size) != next
            && (k > 1 ==> Behind(next, k, size) != w)
  {
  }

  lemma NibbleOf(v: nat)
    ensures And(v, 0xf) == v % 16 && Shr(v, 4) == v / 16
  {
    assert Pow2(4) == 16;
    AndLow(v, 4);
    ShlShr(v, 4);
  }
}
