/** Reading 32-bit hexadecimal words back from the parameter file. */
module HexReader {
  import opened Bits
  import opened MessageRing

  predicate IsDigit(c: char) {
    '0' <= c <= '9' || 'A' <= c <= 'F' || 'a' <= c <= 'f'
  }

  function DigitValue(c: char): (d: nat)
    requires IsDigit(c)
    ensures d < 16
  {
    if '0' <= c <= '9' then c as nat - '0' as nat
    else if 'A' <= c <= 'F' then c as nat - 'A' as nat + 10
    else c as nat - 'a' as nat + 10
  }

  /** The number of digits a text ends in, and their value. */
  function Trailing(t: string): (n: nat)
    ensures n <= |t|
  {
    if t == "" || !IsDigit(t[|t| - 1]) then 0 else 1 + Trailing(t[..|t| - 1])
  }

  function TrailingValue(t: string): nat {
    if t == "" || !IsDigit(t[|t| - 1]) then 0
    else 16 * TrailingValue(t[..|t| - 1]) + DigitValue(t[|t| - 1])
  }

  /** A text on which the reader is satisfied: 8 digits from its start, or 7 after a
      non-digit, since a reset still counts the character it was caused by. */
  predicate Complete(t: string) {
    if Trailing(t) == |t| then |t| == 8 else Trailing(t) == 7
  }

  /** The reader takes exactly `n` characters: the shortest complete prefix. */
  ghost predicate Takes(s: string, n: nat) {
    n <= |s| && Complete(s[..n]) && forall k: nat :: k < n ==> !Complete(s[..k])
  }

  /** The reader's digit count after a text it is not satisfied with. */
  function Count(t: string): nat {
    if Trailing(t) == |t| then |t| else Trailing(t) + 1
  }

  lemma {:induction false} TrailingBound(t: string)
    ensures TrailingValue(t) < Pow2(4 * Trailing(t))
  {
    if t != "" && IsDigit(t[|t| - 1]) {
      TrailingBound(t[..|t| - 1]);
      Pow2Four(4 * Trailing(t[..|t| - 1]));
    }
  }

  lemma Pow2Four(n: nat)
    ensures Pow2(n + 4) == 16 * Pow2(n)
  {
    assert Pow2(n + 4) == 2 * Pow2(n + 3);
    assert Pow2(n + 2) == 2 * Pow2(n + 1);
  }

  class ParameterFile {
    const text: string
    var pos: nat

    ghost predicate Valid()
      reads this
    {
      pos <= |text|
    }

    constructor (text: string)
      ensures Valid() && this.text == text && pos == 0
    {
      this.text := text;
      pos := 0;
    }

    /** One word. At the end of the file the read succeeds all the same, with the caller's
        value left as it was. */
    method ReadHex(buf: u32) returns (value: u32)
      requires Valid()
      modifies this
      ensures Valid() && pos >= old(pos)
      ensures (exists n :: Takes(text[old(pos)..], n)) ==>
                && Takes(text[old(pos)..], pos - old(pos))
                && value == TrailingValue(text[old(pos)..pos])
      ensures !(exists n :: Takes(text[old(pos)..], n)) ==> pos == |text| && value == buf
    {
      hide Complete, Trailing, TrailingValue, IsDigit, Count, Or;
      ghost var start, s := pos, text[pos..];
      var n, v: u32 := 0, 0;
      EmptyText();
      while true
        invariant start <= pos <= |text|
        invariant n == Count(s[..pos - start]) < 8 && v == TrailingValue(s[..pos - start])
        invariant forall k: nat :: k <= pos - start ==> !Complete(s[..k])
        decreases |text| - pos
      {
        ghost var t := s[..pos - start];
        if pos == |text| {
          NoneTaken(s);
          return buf;
        }
        var c := text[pos];
        pos := pos + 1;
        assert s[..pos - start] == t + [c];
        ReadStep(t, c);
        v := Shl(v, 4) % TWO32;
        if IsDigit(c) {
          v := Or(v, DigitValue(c));
        } else {
          n, v := 0, 0;
        }
        n := n + 1;
        if n >= 8 {
          assert text[start..pos] == s[..pos - start];
          assert Takes(s, pos - start);
          return v;
        }
      }
    }

    /** The two reads that load the parameters: two printed words one after the other come
        back as they were, and two with anything but digits between them do not, unless the
        second is zero. */
    method LoadPair(first: u32, second: u32) returns (a: u32, b: u32)
      requires Valid()
      modifies this
      ensures forall x: u32, y: u32, sep: string ::
                NoDigits(sep) && HexDigits(x, 8) + sep + HexDigits(y, 8) <= text[old(pos)..] ==>
                  a == x && b == (if sep == "" then y else y / 16) && (b == y <==> sep == "" || y == 0)
    {
      ghost var start := pos;
      a := ReadHex(first);
      ghost var mid := pos;
      b := ReadHex(second);
      hide Takes, HexDigits, TrailingValue, NoDigits;
      forall x: u32, y: u32, sep: string | NoDigits(sep) && HexDigits(x, 8) + sep + HexDigits(y, 8) <= text[start..]
        ensures a == x && b == if sep == "" then y else y / 16
      {
        var n := PairReads(text[start..], x, sep, y);
        TakesOnce(text[start..], 8, mid - start);
        assert text[start..][8..] == text[mid..];
        TakesOnce(text[mid..], n, pos - mid);
        assert text[start..mid] == text[start..][..8];
        assert text[mid..pos] == text[mid..][..n];
      }
    }
  }

  /** What the two reads take and get from a word, a separation and another word. */
  lemma PairReads(s: string, x: u32, sep: string, y: u32) returns (n: nat)
    requires NoDigits(sep) && HexDigits(x, 8) + sep + HexDigits(y, 8) <= s
    ensures |s| >= 8 && Takes(s, 8) && Takes(s[8..], n)
    ensures TrailingValue(s[..8]) == x
    ensures TrailingValue(s[8..][..n]) == if sep == "" then y else y / 16
  {
    hide Takes, HexDigits, TrailingValue, NoDigits;
    var d, e := HexDigits(x, 8), HexDigits(y, 8);
    var rest := s[|d + sep + e|..];
    assert s == d + (sep + e + rest) && s[8..] == sep + e + rest;
    WordReads(x, sep + e + rest);
    if sep == "" {
      n := 8;
      assert sep + e + rest == e + rest;
      WordReads(y, rest);
    } else {
      n := |sep| + 7;
      SeparatedWordLosesDigit(sep, y, rest);
    }
  }

  lemma EmptyText()
    ensures Count("") == 0 && TrailingValue("") == 0 && !Complete("")
  {
  }

  lemma NoneTaken(s: string)
    requires forall k: nat :: k <= |s| ==> !Complete(s[..k])
    ensures !exists n :: Takes(s, n)
  {
  }

  lemma TakesOnce(s: string, m: nat, n: nat)
    requires Takes(s, m) && Takes(s, n)
    ensures m == n
  {
  }

  /** What one more character does to the reader's count and value. */
  lemma ReadStep(t: string, c: char)
    requires Count(t) < 8
    ensures Count(t + [c]) == (if IsDigit(c) then Count(t) else 0) + 1
    ensures TrailingValue(t + [c]) == if IsDigit(c) then 16 * TrailingValue(t) + DigitValue(c) else 0
    ensures TrailingValue(t + [c]) < TWO32
    ensures IsDigit(c) ==> Or(Shl(TrailingValue(t), 4) % TWO32, DigitValue(c)) == TrailingValue(t + [c])
    ensures Complete(t + [c]) <==> Count(t + [c]) == 8
  {
    TrailStep(t, c);
    TrailingBound(t + [c]);
    hide Trailing, TrailingValue, IsDigit;
    Pow2Mono(4 * Trailing(t + [c]), 32);
    Pow2Values();
    assert Pow2(4) == 16;
    if IsDigit(c) {
      hide Pow2, Or;
      ShiftedIn(TrailingValue(t), DigitValue(c));
    }
  }

  lemma TrailStep(t: string, c: char)
    ensures Trailing(t + [c]) == if IsDigit(c) then 1 + Trailing(t) else 0
    ensures TrailingValue(t + [c]) == if IsDigit(c) then 16 * TrailingValue(t) + DigitValue(c) else 0
  {
    assert (t + [c])[..|t|] == t;
  }

  lemma ShiftedIn(v: nat, d: nat)
    requires 16 * v + d < TWO32 && d < 16
    ensures Or(Shl(v, 4) % TWO32, d) == 16 * v + d
  {
    assert Pow2(4) == 16;
    assert Shl(v, 4) % TWO32 == v * Pow2(4) == 16 * v;
    hide *;
    OrJoin(v, d, 4);
  }

  lemma {:induction false} DigitsRead(v: nat, n: nat)
    requires v < Pow2(4 * n)
    ensures Trailing(HexDigits(v, n)) == n
    ensures TrailingValue(HexDigits(v, n)) == v
  {
    if n > 0 {
      Pow2Four(4 * (n - 1));
      DigitsRead(v / 16, n - 1);
      var s := HexDigits(v, n);
      assert s[..n - 1] == HexDigits(v / 16, n - 1);
      HexDigitReads(v % 16);
    }
  }

  lemma HexDigitReads(d: nat)
    requires d < 16
    ensures IsDigit(HexDigit(d)) && DigitValue(HexDigit(d)) == d
  {
  }

  lemma {:induction false} AllDigits(t: string, k: nat)
    requires Trailing(t) == |t| && k <= |t|
    ensures Trailing(t[..k]) == k
    decreases |t|
  {
    if k < |t| {
      assert t[..|t| - 1][..k] == t[..k];
      AllDigits(t[..|t| - 1], k);
    } else {
      assert t[..k] == t;
    }
  }

  /** A printed word is read back, whatever follows it. */
  lemma WordReads(v: u32, rest: string)
    ensures Takes(HexDigits(v, 8) + rest, 8)
    ensures TrailingValue((HexDigits(v, 8) + rest)[..8]) == v
  {
    Pow2Values();
    DigitsRead(v, 8);
    var d := HexDigits(v, 8);
    var s := d + rest;
    assert s[..8] == d;
    forall k: nat | k < 8
      ensures !Complete(s[..k])
    {
      assert s[..k] == d[..k];
      AllDigits(d, k);
    }
  }

  ghost predicate NoDigits(sep: string) {
    forall i :: 0 <= i < |sep| ==> !IsDigit(sep[i])
  }

  lemma {:induction false} DigitsAfter(sep: string, v: nat, n: nat)
    requires NoDigits(sep) && v < Pow2(4 * n)
    ensures Trailing(sep + HexDigits(v, n)) == n
    ensures TrailingValue(sep + HexDigits(v, n)) == v
  {
    var t := sep + HexDigits(v, n);
    if n == 0 {
      assert t == sep;
    } else {
      Pow2Four(4 * (n - 1));
      DigitsAfter(sep, v / 16, n - 1);
      assert t[..|t| - 1] == sep + HexDigits(v / 16, n - 1);
      HexDigitReads(v % 16);
    }
  }

  /** The first `k` of `n` digits are the digits of the value with the others shifted out. */
  lemma {:induction false} LeadingDigits(v: nat, n: nat, k: nat)
    requires k <= n && v < Pow2(4 * n)
    ensures exists u: nat :: u < Pow2(4 * k) && HexDigits(v, n)[..k] == HexDigits(u, k)
    decreases n
  {
    if k == n {
      assert HexDigits(v, n)[..k] == HexDigits(v, n);
    } else {
      Pow2Four(4 * (n - 1));
      LeadingDigits(v / 16, n - 1, k);
      assert HexDigits(v, n)[..k] == HexDigits(v / 16, n - 1)[..k];
    }
  }

  /** A word after separators that are not digits loses its last digit: the reader takes the
      separators and seven digits, and returns the word shifted right by four. */
  lemma SeparatedWordLosesDigit(sep: string, v: u32, rest: string)
    requires sep != "" && NoDigits(sep)
    ensures var s := sep + HexDigits(v, 8) + rest;
            Takes(s, |sep| + 7) && TrailingValue(s[..|sep| + 7]) == v / 16
  {
    hide HexDigits, Trailing, TrailingValue, IsDigit;
    var s := sep + HexDigits(v, 8) + rest;
    assert Pow2(4 * 7) == 0x1000_0000 && Pow2(4 * 8) == TWO32 by { Pow2Four(28); Pow2Values(); }
    DigitsAfter(sep, v / 16, 7);
    assert s[..|sep| + 7] == sep + HexDigits(v / 16, 7) by { FirstSeven(v); }
    forall k: nat | k < |sep| + 7
      ensures Trailing(s[..k]) == if k <= |sep| then 0 else k - |sep|
    {
      SeparatedPrefix(sep, v, rest, k);
    }
  }

  lemma SeparatedPrefix(sep: string, v: u32, rest: string, k: nat)
    requires NoDigits(sep) && k <= |sep| + 8
    ensures Trailing((sep + HexDigits(v, 8) + rest)[..k]) == if k <= |sep| then 0 else k - |sep|
  {
    Pow2Values();
    hide HexDigits, Trailing, TrailingValue, IsDigit;
    var d, s := HexDigits(v, 8), sep + HexDigits(v, 8) + rest;
    if k <= |sep| {
      assert HexDigits(0, 0) == "";
      assert s[..k] == sep[..k] + HexDigits(0, 0);
      DigitsAfter(sep[..k], 0, 0);
    } else {
      LeadingDigits(v, 8, k - |sep|);
      var u: nat :| u < Pow2(4 * (k - |sep|)) && d[..k - |sep|] == HexDigits(u, k - |sep|);
      assert s[..k] == sep + HexDigits(u, k - |sep|);
      DigitsAfter(sep, u, k - |sep|);
    }
  }

  lemma FirstSeven(v: u32)
    ensures HexDigits(v, 8)[..7] == HexDigits(v / 16, 7)
  {
  }

  /** So a word behind any run of non-digits reads back exactly when there is none of them,
      or the word is zero. */
  lemma ReadBackIff(sep: string, v: u32, rest: string, n: nat)
    requires NoDigits(sep) && Takes(sep + HexDigits(v, 8) + rest, n)
    ensures TrailingValue((sep + HexDigits(v, 8) + rest)[..n]) == v <==> sep == "" || v == 0
  {
    hide Takes, HexDigits, TrailingValue;
    var s := sep + HexDigits(v, 8) + rest;
    if sep == "" {
      assert s == HexDigits(v, 8) + rest;
      WordReads(v, rest);
      TakesOnce(s, 8, n);
    } else {
      SeparatedWordLosesDigit(sep, v, rest);
      TakesOnce(s, |sep| + 7, n);
    }
  }

  // ----- what is read, character by character -----

  const LOWER: string := "0123456789abcdef"
  const UPPER: string := "0123456789ABCDEF"

  /** The digits are the sixteen of either case, in order, and no other character. */
  lemma DigitChars(c: char)
    ensures IsDigit(c) <==> c in LOWER || c in UPPER
    ensures forall d :: 0 <= d < 16 && (c == LOWER[d] || c == UPPER[d]) ==> DigitValue(c) == d
  {
    if IsDigit(c) {
      var d := DigitValue(c);
      assert c == LOWER[d] || c == UPPER[d];
    }
  }

  /** A text that spells these digits, in either case. */
  ghost predicate Spells(t: string, ds: seq<nat>) {
    |t| == |ds| && forall i :: 0 <= i < |t| ==> ds[i] < 16 && (t[i] == LOWER[ds[i]] || t[i] == UPPER[ds[i]])
  }

  /** The number with these digits, the first one most significant. */
  function Positional(ds: seq<nat>): nat {
    if ds == [] then 0 else ds[0] * Pow2(4 * (|ds| - 1)) + Positional(ds[1..])
  }

  lemma {:induction false} PositionalStep(ds: seq<nat>, d: nat)
    ensures Positional(ds + [d]) == 16 * Positional(ds) + d
  {
    if ds == [] {
      assert ([] + [d])[1..] == [];
      assert Pow2(4 * 0) == 1;
    } else {
      var n := |ds| - 1;
      assert (ds + [d])[1..] == ds[1..] + [d];
      PositionalStep(ds[1..], d);
      Pow2Four(4 * n);
      hide Pow2, Positional;
      Shifted(ds[0], Pow2(4 * n), Positional(ds[1..]), d);
    }
  }

  lemma Shifted(x: nat, p: nat, m: nat, d: nat)
    ensures x * (16 * p) + (16 * m + d) == 16 * (x * p + m) + d
  {
  }

  /** Behind the start of the text or a character that is no digit, the reader holds the
      number the digits spell. */
  lemma {:induction false} SpelledValue(p: string, t: string, ds: seq<nat>)
    requires Spells(t, ds) && (p == "" || !IsDigit(p[|p| - 1]))
    ensures Trailing(p + t) == |t| && TrailingValue(p + t) == Positional(ds)
    decreases |t|
  {
    hide IsDigit, DigitValue;
    if t == "" {
      assert p + t == p;
    } else {
      hide Positional, Trailing, TrailingValue, Pow2;
      var n := |t| - 1;
      assert Spells(t[..n], ds[..n]);
      SpelledValue(p, t[..n], ds[..n]);
      PositionalStep(ds[..n], ds[n]);
      assert ds == ds[..n] + [ds[n]];
      assert p + t == (p + t[..n]) + [t[n]];
      TrailStep(p + t[..n], t[n]);
      DigitChars(t[n]);
    }
  }

  lemma {:induction false} TrailingAre(t: string, k: nat)
    ensures k <= Trailing(t) <==> k <= |t| && forall i :: |t| - k <= i < |t| ==> t[i] in LOWER || t[i] in UPPER
    decreases k
  {
    if k > 0 && t != "" {
      var n := |t| - 1;
      DigitChars(t[n]);
      TrailingAre(t[..n], k - 1);
      assert forall i :: 0 <= i < n ==> t[..n][i] == t[i];
    }
  }

  /** Exactly when the reader is satisfied: eight digits and nothing else, or seven behind a
      character that is none. Whatever came before that character has no bearing. */
  lemma CompleteIff(t: string)
    ensures Complete(t)
            <==> && |t| >= 8
                 && (forall i :: |t| - 7 <= i < |t| ==> t[i] in LOWER || t[i] in UPPER)
                 && (t[|t| - 8] in LOWER || t[|t| - 8] in UPPER ==> |t| == 8)
  {
    TrailingAre(t, 7);
    TrailingAre(t, 8);
    TrailingAre(t, |t|);
    hide Trailing;
  }

  /** Eight digits in either case are taken, as the number they spell. */
  lemma EightDigits(s: string, ds: seq<nat>)
    requires |s| >= 8 && Spells(s[..8], ds)
    ensures Takes(s, 8) && TrailingValue(s[..8]) == Positional(ds)
  {
    hide Trailing, TrailingValue, Positional;
    SpelledValue("", s[..8], ds);
    assert "" + s[..8] == s[..8];
    forall k: nat | k < 8
      ensures !Complete(s[..k])
    {
      hide Complete;
      CompleteIff(s[..k]);
    }
  }

  /** Any other character resets the reader: from then on it takes seven digits, as the number
      they spell, whatever it had read before. */
  lemma SevenDigits(p: string, c: char, t: string, ds: seq<nat>, rest: string)
    requires forall k: nat :: k <= |p| ==> !Complete(p[..k])
    requires c !in LOWER && c !in UPPER && |t| == 7 && Spells(t, ds)
    ensures var s := p + [c] + t + rest;
            Takes(s, |p| + 8) && TrailingValue(s[..|p| + 8]) == Positional(ds)
  {
    hide Trailing, TrailingValue, Positional, Complete;
    var s := p + [c] + t + rest;
    DigitChars(c);
    SpelledValue(p + [c], t, ds);
    assert s[..|p| + 8] == p + [c] + t;
    CompleteIff(s[..|p| + 8]);
    forall k: nat | k < |p| + 8
      ensures !Complete(s[..k])
    {
      if k <= |p| {
        assert s[..k] == p[..k];
      } else {
        CompleteIff(s[..k]);
        assert s[..k][|p|] == c;
      }
    }
  }

  /** The number a file with one upper-case digit holds. */
  lemma UpperCaseExample()
    ensures Takes("0000000A", 8) && TrailingValue("0000000A") == 10
  {
    var s, ds := "0000000A", [0, 0, 0, 0, 0, 0, 0, 10];
    assert s[..8] == s;
    EightDigits(s, ds);
    PositionalZero(ds);
  }

  lemma {:induction false} PositionalZero(ds: seq<nat>)
    requires ds != [] && forall i :: 0 <= i < |ds| - 1 ==> ds[i] == 0
    ensures Positional(ds) == ds[|ds| - 1]
  {
    if |ds| > 1 {
      PositionalZero(ds[1..]);
    } else {
      assert Pow2(0) == 1;
    }
  }
}
