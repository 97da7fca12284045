/** The console log ring: NUL-terminated records laid end to end in a fixed buffer, with a
    mark where the previous lap ended. */
module DtmLog {

  const NUL: char := '\0'

  // ----- strings in a buffer -----

  predicate IsRecord(m: string) {
    m != "" && NUL !in m
  }

  ghost predicate AreRecords(rs: seq<string>) {
    forall i :: 0 <= i < |rs| ==> IsRecord(rs[i])
  }

  /** Records as they lie in memory, each with its terminator. */
  function Flat(rs: seq<string>): seq<char> {
    if rs == [] then [] else rs[0] + [NUL] + Flat(rs[1..])
  }

  predicate Live(b: seq<char>, p: nat) {
    p < |b| && b[p] != NUL
  }

  function StringAt(b: seq<char>, p: nat): string
    decreases |b| - p
  {
    if Live(b, p) then [b[p]] + StringAt(b, p + 1) else ""
  }

  lemma {:induction false} FlatAppend(r: seq<string>, s: seq<string>)
    ensures Flat(r + s) == Flat(r) + Flat(s)
  {
    if r == [] {
      assert r + s == s;
    } else {
      assert (r + s)[1..] == r[1..] + s;
      FlatAppend(r[1..], s);
      assert r[0] + [NUL] + (Flat(r[1..]) + Flat(s)) == r[0] + [NUL] + Flat(r[1..]) + Flat(s);
    }
  }

  lemma FlatOne(m: string)
    ensures Flat([m]) == m + [NUL]
  {
    assert [m][1..] == [];
  }

  lemma FlatStep(rs: seq<string>, j: nat)
    requires j < |rs|
    ensures Flat(rs[..j + 1]) == Flat(rs[..j]) + rs[j] + [NUL]
  {
    hide Flat;
    assert rs[..j + 1] == rs[..j] + [rs[j]];
    FlatAppend(rs[..j], [rs[j]]);
    FlatOne(rs[j]);
  }

  lemma FlatSplit(rs: seq<string>, j: nat)
    requires j <= |rs|
    ensures Flat(rs) == Flat(rs[..j]) + Flat(rs[j..])
  {
    hide Flat;
    assert rs == rs[..j] + rs[j..];
    FlatAppend(rs[..j], rs[j..]);
  }

  lemma SamePrefix(b: seq<char>, n: nat, f: seq<char>)
    requires n <= |b| && b[..n] == f
    ensures forall k :: 0 <= k < n ==> b[k] == f[k]
  {
    forall k | 0 <= k < n
      ensures b[k] == f[k]
    {
      assert b[..n][k] == f[k];
    }
  }

  lemma {:induction false} ReadString(b: seq<char>, p: nat, m: string)
    requires p + |m| < |b| && b[p..p + |m|] == m && NUL !in m && b[p + |m|] == NUL
    ensures StringAt(b, p) == m
    decreases |m|
  {
    if m != "" {
      assert b[p] == m[0];
      assert b[p + 1..p + |m|] == m[1..];
      ReadString(b, p + 1, m[1..]);
    }
  }

  lemma StringStep(b: seq<char>, p: nat)
    ensures StringAt(b, p) == if Live(b, p) then [b[p]] + StringAt(b, p + 1) else ""
  {
  }

  /** A string ends at the first terminator. */
  lemma {:induction false} StringEnds(b: seq<char>, p: nat, e: nat)
    requires p <= e < |b| && b[e] == NUL
    ensures var s := StringAt(b, p);
            && p + |s| <= e && b[p + |s|] == NUL
            && forall i :: 0 <= i < |s| ==> s[i] == b[p + i] != NUL
    decreases e - p
  {
    hide StringAt;
    StringStep(b, p);
    if b[p] != NUL {
      StringEnds(b, p + 1, e);
      var rest := StringAt(b, p + 1);
      forall i | 0 <= i < |rest| + 1
        ensures ([b[p]] + rest)[i] == b[p + i] != NUL
      {
        if i > 0 { assert rest[i - 1] == b[p + 1 + (i - 1)]; }
      }
    }
  }

  lemma FirstRecordLive(rs: seq<string>, i: nat)
    requires AreRecords(rs) && i < |Flat(rs)|
    ensures i < |rs[0]| ==> Flat(rs)[i] != NUL
  {
    assert IsRecord(rs[0]);
  }

  /** In a run of records, a terminator is never followed by another one. */
  lemma {:induction false} NoEmptyRecord(rs: seq<string>, i: nat)
    requires AreRecords(rs) && i + 1 < |Flat(rs)| && Flat(rs)[i] == NUL
    ensures Flat(rs)[i + 1] != NUL
  {
    var n := |rs[0]|;
    if i == n {
      var rest := rs[1..];
      assert IsRecord(rest[0]);
      assert Flat(rs)[i + 1] == Flat(rest)[0] == rest[0][0];
    } else {
      FirstRecordLive(rs, i);
      NoEmptyRecord(rs[1..], i - n - 1);
    }
  }

  lemma {:induction false} FlatEnds(rs: seq<string>)
    requires rs != []
    ensures Flat(rs) != [] && Flat(rs)[|Flat(rs)| - 1] == NUL
  {
    if rs[1..] != [] {
      FlatEnds(rs[1..]);
    }
  }

  // ----- layout of the ring -----

  /** The buffer of a log: `lap` holds the records since the last wrap and fills the front;
      `prev` holds those of the lap before, of which what lies past `next` and below `last`
      is still there, followed by the beginning of the record that did not fit. `last` is 0
      until the first wrap. */
  ghost predicate Layout(b: seq<char>, next: nat, last: nat, lap: seq<string>, prev: seq<string>) {
    && next < |b| && b[|b| - 1] == NUL && b[next] == NUL
    && AreRecords(lap) && AreRecords(prev)
    && b[..next] == Flat(lap)
    && last == |Flat(prev)| < |b|
    && (next < last ==> b[next + 1..last] == Flat(prev)[next + 1..] && CutShort(b, last, lap))
  }

  /** The first record of the lap, as much of it as fitted above `last`. */
  ghost predicate CutShort(b: seq<char>, last: nat, lap: seq<string>)
    requires last < |b|
  {
    && lap != [] && |b| - 1 - last <= |lap[0]|
    && b[last..|b| - 1] == lap[0][..|b| - 1 - last]
  }

  // ----- the walk of a dump -----

  /** Where the dump goes after the string at `p`. */
  function StepFrom(b: seq<char>, last: nat, p: nat): nat {
    var q := p + |StringAt(b, p)| + 1;
    if last != 0 && q >= last then 0 else q
  }

  function Position(b: seq<char>, last: nat, p: nat, n: nat): nat
    decreases n
  {
    if n == 0 then p else Position(b, last, StepFrom(b, last, p), n - 1)
  }

  function Said(b: seq<char>, last: nat, p: nat, n: nat): seq<string>
    decreases n
  {
    if n == 0 then [] else [StringAt(b, p)] + Said(b, last, StepFrom(b, last, p), n - 1)
  }

  /** The walk from `p` stops after exactly `n` strings. */
  ghost predicate StopsAfter(b: seq<char>, last: nat, p: nat, n: nat) {
    && Position(b, last, p, n) < |b| && b[Position(b, last, p, n)] == NUL
    && forall k: nat :: k < n ==> Live(b, Position(b, last, p, k))
  }

  function StartOf(next: nat, last: nat): nat {
    if last != 0 then next + 1 else 0
  }

  /** Where the `j`-th record of the current lap starts. */
  function Mark(lap: seq<string>, j: nat): nat
    requires j <= |lap|
  {
    |Flat(lap[..j])|
  }

  lemma {:induction false} WalkExtend(b: seq<char>, last: nat, p: nat, n: nat)
    ensures Position(b, last, p, n + 1) == StepFrom(b, last, Position(b, last, p, n))
    ensures Said(b, last, p, n + 1) == Said(b, last, p, n) + [StringAt(b, Position(b, last, p, n))]
    decreases n
  {
    if n > 0 {
      WalkExtend(b, last, StepFrom(b, last, p), n - 1);
    }
  }

  /** One string, then a walk that stops. */
  lemma StopsOneLater(b: seq<char>, last: nat, p: nat, n: nat)
    requires Live(b, p) && StopsAfter(b, last, StepFrom(b, last, p), n)
    ensures StopsAfter(b, last, p, n + 1)
    ensures Said(b, last, p, n + 1) == [StringAt(b, p)] + Said(b, last, StepFrom(b, last, p), n)
  {
    forall k: nat | k < n + 1
      ensures Live(b, Position(b, last, p, k))
    {
      if k > 0 {
        assert Position(b, last, p, k) == Position(b, last, StepFrom(b, last, p), k - 1);
      }
    }
  }

  lemma StopsNow(b: seq<char>, last: nat, p: nat)
    requires p < |b| && b[p] == NUL
    ensures StopsAfter(b, last, p, 0) && Said(b, last, p, 0) == []
  {
  }

  /** The records of the current lap from the `j`-th on. */
  lemma {:induction false} WalkLap(b: seq<char>, next: nat, last: nat, lap: seq<string>, prev: seq<string>, j: nat)
    requires Layout(b, next, last, lap, prev) && j <= |lap| && (last == 0 || next < last)
    ensures Mark(lap, j) <= next
    ensures StopsAfter(b, last, Mark(lap, j), |lap| - j)
    ensures Said(b, last, Mark(lap, j), |lap| - j) == lap[j..]
    decreases |lap| - j
  {
    var p := Mark(lap, j);
    hide Layout, Flat, Mark, StringAt, StopsAfter, Live, Position, Said, StepFrom;
    if j == |lap| {
      LapFills(b, next, last, lap, prev);
      LayoutEnds(b, next, last, lap, prev);
      StopsNow(b, last, p);
      assert lap[j..] == [];
    } else {
      LapRecord(b, next, last, lap, prev, j);
      WalkLap(b, next, last, lap, prev, j + 1);
      StepIs(b, last, p);
      StopsOneLater(b, last, p, |lap| - j - 1);
      assert lap[j..] == [lap[j]] + lap[j + 1..];
    }
  }

  lemma LapRecord(b: seq<char>, next: nat, last: nat, lap: seq<string>, prev: seq<string>, j: nat)
    requires Layout(b, next, last, lap, prev) && j < |lap|
    ensures Live(b, Mark(lap, j)) && StringAt(b, Mark(lap, j)) == lap[j]
    ensures Mark(lap, j + 1) == Mark(lap, j) + |lap[j]| + 1 <= next
  {
    var p, m := Mark(lap, j), lap[j];
    FlatStep(lap, j);
    FlatSplit(lap, j + 1);
    assert IsRecord(m);
    assert Flat(lap)[p..p + |m|] == m && Flat(lap)[p + |m|] == NUL;
    SamePrefix(b, next, Flat(lap));
    assert b[p] == m[0] && m[0] in m;
    ReadString(b, p, m);
  }

  /** What is left of the previous lap, from `p` on, and then the current lap. */
  lemma {:induction false} WalkPrevious(b: seq<char>, next: nat, last: nat, lap: seq<string>, prev: seq<string>, p: nat)
    returns (tail: seq<string>)
    requires Layout(b, next, last, lap, prev) && next < p < last && Live(b, p)
    ensures Flat(tail) == Flat(prev)[p..]
    ensures StopsAfter(b, last, p, |tail| + |lap|)
    ensures Said(b, last, p, |tail| + |lap|) == tail + lap
    decreases last - p
  {
    var m, q := StringAt(b, p), StepFrom(b, last, p);
    OldString(b, next, last, lap, prev, p);
    var end := p + |m| + 1;
    if end >= last {
      tail := [m];
      FlatOne(m);
      WalkLap(b, next, last, lap, prev, 0);
    } else {
      var rest := WalkPrevious(b, next, last, lap, prev, end);
      tail := [m] + rest;
      FlatAppend([m], rest);
      FlatOne(m);
    }
    hide Layout, StringAt, StopsAfter;
    assert Flat(prev)[p..] == m + [NUL] + Flat(prev)[end..];
    StopsOneLater(b, last, p, |tail| + |lap| - 1);
  }

  lemma OldBytes(b: seq<char>, next: nat, last: nat, lap: seq<string>, prev: seq<string>)
    requires Layout(b, next, last, lap, prev) && next < last
    ensures |Flat(prev)| == last < |b| && AreRecords(prev)
    ensures forall i :: next < i < last ==> b[i] == Flat(prev)[i]
    ensures Flat(prev)[last - 1] == NUL
  {
    hide AreRecords;
    var f := Flat(prev);
    forall i | next < i < last
      ensures b[i] == f[i]
    {
      assert b[next + 1..last][i - next - 1] == f[next + 1..][i - next - 1];
    }
    FlatEnds(prev);
  }

  /** A string read in the rest of the previous lap ends within it, at a record's end. */
  lemma OldString(b: seq<char>, next: nat, last: nat, lap: seq<string>, prev: seq<string>, p: nat)
    requires Layout(b, next, last, lap, prev) && next < p < last && Live(b, p)
    ensures var m := StringAt(b, p);
            && p + |m| + 1 <= last
            && Flat(prev)[p..p + |m| + 1] == m + [NUL]
            && (p + |m| + 1 < last ==> Live(b, p + |m| + 1))
  {
    hide Layout, StringAt, Flat, AreRecords;
    OldBytes(b, next, last, lap, prev);
    StringEnds(b, p, last - 1);
    var m := StringAt(b, p);
    if p + |m| + 1 < last {
      NoEmptyRecord(prev, p + |m|);
    }
  }

  /** The whole dump of a log that has not wrapped, or that has and whose new lap is still
      short of the old one's end. */
  lemma DumpWalk(b: seq<char>, next: nat, last: nat, lap: seq<string>, prev: seq<string>)
    returns (tail: seq<string>)
    requires Layout(b, next, last, lap, prev)
    requires last == 0 || (next < last && Live(b, next + 1))
    ensures last == 0 ==> tail == []
    ensures last != 0 ==> tail != []
    ensures next + 1 < last ==> Flat(tail) == Flat(prev)[next + 1..]
    ensures next + 1 == last ==> CutShort(b, last, lap) && tail == [lap[0][..|b| - 1 - last]]
    ensures StopsAfter(b, last, StartOf(next, last), |tail| + |lap|)
    ensures Said(b, last, StartOf(next, last), |tail| + |lap|) == tail + lap
  {
    if last == 0 {
      WalkLap(b, next, last, lap, prev, 0);
      tail := [];
    } else if next + 1 < last {
      tail := WalkPrevious(b, next, last, lap, prev, next + 1);
    } else {
      CutRecord(b, next, last, lap, prev);
      tail := [lap[0][..|b| - 1 - last]];
      WalkLap(b, next, last, lap, prev, 0);
      hide Layout, StringAt, StopsAfter;
      StopsOneLater(b, last, last, |lap|);
    }
  }

  lemma CutRecord(b: seq<char>, next: nat, last: nat, lap: seq<string>, prev: seq<string>)
    requires Layout(b, next, last, lap, prev) && next < last
    ensures CutShort(b, last, lap) && StringAt(b, last) == lap[0][..|b| - 1 - last]
  {
    var cut := lap[0][..|b| - 1 - last];
    assert IsRecord(lap[0]);
    hide Layout, StringAt;
    LayoutEnds(b, next, last, lap, prev);
    ReadString(b, last, cut);
  }

  /** One string further along the lap, or back to its start at the mark. */
  lemma CircleStep(b: seq<char>, next: nat, last: nat, lap: seq<string>, prev: seq<string>, i: nat)
    returns (j: nat)
    requires Layout(b, next, last, lap, prev) && last != 0 && last <= next && i < |lap| && Mark(lap, i) < last
    ensures j < |lap| && StepFrom(b, last, Mark(lap, i)) == Mark(lap, j) < last && Live(b, Mark(lap, j))
  {
    hide Layout, Flat, Mark, StringAt, Live;
    LapFills(b, next, last, lap, prev);
    LapRecord(b, next, last, lap, prev, i);
    j := if Mark(lap, i + 1) < last then i + 1 else 0;
    LapRecord(b, next, last, lap, prev, j);
  }

  /** Once the new lap has caught up with the mark, the walk goes round the front of the
      buffer for ever. */
  lemma {:induction false} DumpCircles(b: seq<char>, next: nat, last: nat, lap: seq<string>, prev: seq<string>, n: nat)
    returns (j: nat)
    requires Layout(b, next, last, lap, prev) && last != 0 && last <= next && Live(b, next + 1)
    ensures Live(b, Position(b, last, next + 1, n))
    ensures n > 0 ==> j < |lap| && Position(b, last, next + 1, n) == Mark(lap, j) < last
    decreases n
  {
    j := 0;
    if n == 1 {
      LapFills(b, next, last, lap, prev);
      LapRecord(b, next, last, lap, prev, 0);
    } else if n > 1 {
      hide Layout, Mark, Live, Position, StepFrom;
      j := DumpCircles(b, next, last, lap, prev, n - 1);
      WalkExtend(b, last, next + 1, n - 1);
      j := CircleStep(b, next, last, lap, prev, j);
    }
  }

  lemma LapFills(b: seq<char>, next: nat, last: nat, lap: seq<string>, prev: seq<string>)
    requires Layout(b, next, last, lap, prev)
    ensures Mark(lap, 0) == 0 && Mark(lap, |lap|) == next
    ensures next > 0 ==> lap != []
  {
    assert lap[..|lap|] == lap;
  }

  /** The dump of any log ends exactly when it has not wrapped, or its new lap is still below
      the mark, or nothing follows the write position. */
  lemma DumpEndsIff(b: seq<char>, next: nat, last: nat, lap: seq<string>, prev: seq<string>)
    requires Layout(b, next, last, lap, prev) && (last == 0 || next + 1 < |b|)
    ensures (exists n: nat :: StopsAfter(b, last, StartOf(next, last), n))
            <==> last == 0 || next < last || b[next + 1] == NUL
  {
    if last == 0 || (next < last && b[next + 1] != NUL) {
      var tail := DumpWalk(b, next, last, lap, prev);
    } else if b[next + 1] == NUL {
      assert StopsAfter(b, last, StartOf(next, last), 0);
    } else {
      forall n: nat
        ensures !StopsAfter(b, last, StartOf(next, last), n)
      {
        var j := DumpCircles(b, next, last, lap, prev, n);
      }
    }
  }

  // ----- the log -----

  /** `s` and a terminator written into the buffer at `at`. */
  function Written(b: seq<char>, at: nat, s: string): (r: seq<char>)
    requires at + |s| < |b|
    ensures |r| == |b|
  {
    b[..at] + s + [NUL] + b[at + |s| + 1..]
  }

  /** The buffer after a record that fits, and after one that starts a new lap: that one is
      first written, cut short, where the old lap ends. */
  function Fitted(b: seq<char>, next: nat, m: string): (r: seq<char>)
    requires next + |m| + 1 < |b|
    ensures |r| == |b|
    ensures forall k :: next + |m| + 1 < k < |b| ==> r[k] == b[k]
  {
    Written(b, next, m)[next + |m| + 1 := NUL]
  }

  function Wrapped(b: seq<char>, next: nat, m: string): (r: seq<char>)
    requires next < |b| && |m| + 1 < |b|
    ensures |r| == |b|
  {
    var cut := if |m| < |b| - next then m else m[..|b| - next - 1];
    Written(Written(b, next, cut), 0, m)[|m| + 1 := NUL]
  }

  class Log {
    var buffer: array<char>
    var next: nat
    var last: nat
    ghost var lap: seq<string>
    ghost var prev: seq<string>
    ghost var logged: seq<string>

    /** Of all that was logged, the buffer still knows the end: the last two laps. */
    ghost predicate Valid()
      reads this, buffer
    {
      Layout(buffer[..], next, last, lap, prev) && Remembers(logged, prev, lap)
    }

    constructor (size: nat)
      requires size > 0
      ensures Valid() && fresh(buffer) && buffer.Length == size && lap == [] && last == 0 && logged == []
    {
      var b := new char[size](_ => NUL);
      buffer := b;
      next, last, lap, prev, logged := 0, 0, [], [], [];
    }

    /** The C library's bounded print: as much of `s` as `room` allows, and a terminator. */
    method Format(at: nat, room: nat, s: string)
      requires 0 < room && at + room <= buffer.Length
      modifies buffer
      ensures buffer[..] == Written(old(buffer[..]), at, if |s| < room then s else s[..room - 1])
    {
      var n := if |s| < room then |s| else room - 1;
      for i := 0 to n
        invariant forall k :: 0 <= k < buffer.Length ==>
          buffer[k] == if at <= k < at + i then s[k - at] else old(buffer[k])
      {
        buffer[at + i] := s[i];
      }
      buffer[at + n] := NUL;
      assert s[..n] == if |s| < room then s else s[..room - 1];
    }

    /** Append a record; when it does not fit, mark where the lap ended and start over. */
    method Printv(m: string)
      requires Valid() && IsRecord(m) && |m| + 1 < buffer.Length
      modifies this, buffer
      ensures Valid() && buffer == old(buffer) && logged == old(logged) + [m]
      ensures old(next) + |m| + 1 < buffer.Length ==>
                && lap == old(lap) + [m] && prev == old(prev) && last == old(last)
                && next == old(next) + |m| + 1
                && buffer[..] == Fitted(old(buffer[..]), old(next), m)
      ensures old(next) + |m| + 1 >= buffer.Length ==>
                && lap == [m] && prev == old(lap) != [] && last == old(next)
                && next == |m| + 1 && old(next) < old(buffer.Length)
                && buffer[..] == Wrapped(old(buffer[..]), old(next), m)
    {
      hide Layout, IsRecord, Flat, AreRecords, Written, Fitted, Wrapped, Remembers;
      ghost var before := buffer[..];
      LayoutEnds(before, next, last, lap, prev);
      var p := next + |m| + 1;
      Format(next, buffer.Length - next, m);
      if p >= buffer.Length {
        WrapLayout(before, next, last, lap, prev, m);
        WrittenIn(before, next, m);
        prev, lap := lap, [m];
        last := next;
        Format(0, buffer.Length, m);
        p := |m| + 1;
      } else {
        FitLayout(before, next, last, lap, prev, m);
        WrittenIn(before, next, m);
        lap := lap + [m];
      }
      Remembered(logged, old(prev), old(lap), m);
      logged := logged + [m];
      next := p;
      buffer[next] := NUL;
    }

    /** The string at `p`, up to its terminator. */
    method TextAt(p: nat) returns (s: string)
      requires p < buffer.Length && buffer[buffer.Length - 1] == NUL
      ensures s == StringAt(buffer[..], p) && p + |s| < buffer.Length
    {
      ghost var b := buffer[..];
      StringEnds(b, p, buffer.Length - 1);
      var n := 0;
      while buffer[p + n] != NUL
        invariant p + n < buffer.Length
        invariant n + |StringAt(b, p + n)| == |StringAt(b, p)|
        decreases buffer.Length - n
      {
        n := n + 1;
        StringEnds(b, p + n, buffer.Length - 1);
      }
      s := buffer[p..p + n];
      assert s == StringAt(b, p);
    }

    /** Print strings from `p` on until a terminator comes where a string should start. */
    method PrintFrom(p: nat, ghost n: nat) returns (out: seq<string>)
      requires Valid() && StopsAfter(buffer[..], last, p, n)
      ensures out == Said(buffer[..], last, p, n)
    {
      hide Layout, StringAt, Flat, Position, Said, StopsAfter, Live, StepFrom, AreRecords, CutShort, Remembers;
      ghost var b, k := buffer[..], 0;
      LayoutEnds(b, next, last, lap, prev);
      WalkBegins(b, last, p);
      WalkState(b, last, p, n, 0);
      var q := p;
      out := [];
      while buffer[q] != NUL
        invariant k <= n && q == Position(b, last, p, k) < |b|
        invariant b[q] == NUL <==> k == n
        invariant out == Said(b, last, p, k)
        decreases n - k
      {
        var text := TextAt(q);
        out := out + [text];
        q := q + |text| + 1;
        if last != 0 && q >= last {
          q := 0;
        }
        WalkExtend(b, last, p, k);
        StepIs(b, last, Position(b, last, p, k));
        k := k + 1;
        WalkState(b, last, p, n, k);
      }
    }

    /** Print the log, oldest first. */
    method Dump() returns (out: seq<string>, ghost tail: seq<string>)
      requires Valid()
      requires last == 0 || next < last || (next + 1 < buffer.Length && buffer[next + 1] == NUL)
      ensures last == 0 ==> out == lap
      ensures last != 0 && buffer[next + 1] != NUL ==> out == tail + lap && tail != []
      ensures last != 0 && buffer[next + 1] != NUL && next + 1 < last ==> Flat(tail) == Flat(prev)[next + 1..]
      ensures last != 0 && buffer[next + 1] != NUL && next + 1 == last ==>
                CutShort(buffer[..], last, lap) && tail == [lap[0][..buffer.Length - 1 - last]]
      ensures last != 0 && buffer[next + 1] == NUL ==> out == []
    {
      hide StringAt, Flat, Position, AreRecords, CutShort, Remembers;
      ghost var b := buffer[..];
      ghost var n := 0;
      tail := [];
      if last == 0 || b[next + 1] != NUL {
        tail := DumpWalk(b, next, last, lap, prev);
        n := |tail| + |lap|;
      } else {
        WalkBegins(b, last, next + 1);
      }
      out := PrintFrom(if last != 0 then next + 1 else 0, n);
    }
  }

  /** The history ends in the last two laps. */
  ghost predicate Remembers(logged: seq<string>, prev: seq<string>, lap: seq<string>) {
    |prev + lap| <= |logged| && logged[|logged| - |prev + lap|..] == prev + lap
  }

  /** That stays so whether or not a new record starts a lap. */
  lemma Remembered(logged: seq<string>, prev: seq<string>, lap: seq<string>, m: string)
    requires Remembers(logged, prev, lap)
    ensures Remembers(logged + [m], prev, lap + [m])
    ensures Remembers(logged + [m], lap, [m])
  {
    var k := |logged| - |prev + lap|;
    assert logged[k..][|prev|..] == lap;
    assert logged[|logged| - |lap|..] == lap;
  }

  lemma WrittenIn(b: seq<char>, next: nat, m: string)
    requires next < |b| && |m| + 1 < |b|
    ensures next + |m| + 1 < |b| ==> Fitted(b, next, m) == Written(b, next, m)[next + |m| + 1 := NUL]
    ensures var cut := if |m| < |b| - next then m else m[..|b| - next - 1];
            Wrapped(b, next, m) == Written(Written(b, next, cut), 0, m)[|m| + 1 := NUL]
  {
  }

  lemma LayoutEnds(b: seq<char>, next: nat, last: nat, lap: seq<string>, prev: seq<string>)
    requires Layout(b, next, last, lap, prev)
    ensures next < |b| && b[|b| - 1] == NUL && b[next] == NUL
  {
  }

  lemma WalkState(b: seq<char>, last: nat, p: nat, n: nat, k: nat)
    requires StopsAfter(b, last, p, n) && k <= n
    ensures Position(b, last, p, k) < |b|
    ensures b[Position(b, last, p, k)] == NUL <==> k == n
  {
    if k < n {
      assert Live(b, Position(b, last, p, k));
    }
  }

  lemma StepIs(b: seq<char>, last: nat, p: nat)
    ensures var q := p + |StringAt(b, p)| + 1;
            StepFrom(b, last, p) == if last != 0 && q >= last then 0 else q
  {
  }

  lemma WalkBegins(b: seq<char>, last: nat, p: nat)
    ensures Position(b, last, p, 0) == p && Said(b, last, p, 0) == []
  {
  }

  lemma RecordsAppend(lap: seq<string>, m: string)
    requires AreRecords(lap) && IsRecord(m)
    ensures AreRecords(lap + [m]) && AreRecords([m])
    ensures Flat(lap + [m]) == Flat(lap) + (m + [NUL]) && Flat([m]) == m + [NUL]
  {
    FlatAppend(lap, [m]);
    FlatOne(m);
  }

  lemma FitLayout(b: seq<char>, next: nat, last: nat, lap: seq<string>, prev: seq<string>, m: string)
    requires Layout(b, next, last, lap, prev) && IsRecord(m) && next + |m| + 1 < |b|
    ensures Layout(Fitted(b, next, m), next + |m| + 1, last, lap + [m], prev)
  {
    hide Flat, AreRecords, IsRecord;
    RecordsAppend(lap, m);
    var w, p := Fitted(b, next, m), next + |m| + 1;
    assert w[..p] == b[..next] + (m + [NUL]);
    if p < last {
      assert w[p + 1..last] == b[next + 1..last][p - next..];
      assert w[last..|b| - 1] == b[last..|b| - 1];
    }
  }

  lemma WrapLayout(b: seq<char>, next: nat, last: nat, lap: seq<string>, prev: seq<string>, m: string)
    requires Layout(b, next, last, lap, prev) && IsRecord(m)
    requires |m| + 1 < |b| <= next + |m| + 1
    ensures lap != []
    ensures Layout(Wrapped(b, next, m), |m| + 1, next, [m], lap)
  {
    assert |Flat(lap)| == next > 0;
    hide Flat, AreRecords, IsRecord, Written, Wrapped;
    RecordsAppend(lap, m);
    WrappedSlices(b, next, m);
    if |m| + 1 < next {
      assert b[|m| + 2..next] == b[..next][|m| + 2..];
    }
  }

  lemma WrappedSlices(b: seq<char>, next: nat, m: string)
    requires |m| + 1 < |b| <= next + |m| + 1 && next < |b|
    ensures var v := Wrapped(b, next, m);
            && v[..|m| + 1] == m + [NUL] && v[|m| + 1] == v[|b| - 1] == NUL
            && (|m| + 1 < next ==> v[|m| + 2..next] == b[|m| + 2..next]
                                   && v[next..|b| - 1] == m[..|b| - 1 - next])
  {
    hide Wrapped;
    WrappedBytes(b, next, m);
  }

  /** The buffer after a record that fits, byte by byte. */
  lemma FittedBytes(b: seq<char>, next: nat, m: string)
    requires next + |m| + 1 < |b|
    ensures var v := Fitted(b, next, m);
            && (forall k :: next <= k < next + |m| ==> v[k] == m[k - next])
            && v[next + |m|] == v[next + |m| + 1] == NUL
            && (forall k :: 0 <= k < |b| && !(next <= k <= next + |m| + 1) ==> v[k] == b[k])
  {
  }

  /** The buffer after a wrap, byte by byte. */
  lemma WrappedBytes(b: seq<char>, next: nat, m: string)
    requires |m| + 1 < |b| <= next + |m| + 1 && next < |b|
    ensures var v := Wrapped(b, next, m);
            && (forall k :: 0 <= k < |m| ==> v[k] == m[k])
            && v[|m|] == v[|m| + 1] == NUL && v[|b| - 1] == NUL
            && (forall k :: |m| + 1 < k < next ==> v[k] == b[k])
            && (forall k :: |m| + 1 < k < |b| - 1 && next <= k ==> v[k] == m[k - next])
  {
  }

  /** The buffer after records that all fit. */
  function LogAll(b: seq<char>, next: nat, rs: seq<string>): (r: seq<char>)
    requires next + |Flat(rs)| < |b|
    ensures |r| == |b|
    ensures forall k :: next + |Flat(rs)| < k < |b| ==> r[k] == b[k]
    decreases |rs|
  {
    if rs == [] then b else LogAll(Fitted(b, next, rs[0]), next + |rs[0]| + 1, rs[1..])
  }

  lemma {:induction false} LogAllLayout(b: seq<char>, next: nat, last: nat, lap: seq<string>, prev: seq<string>, rs: seq<string>)
    requires Layout(b, next, last, lap, prev) && AreRecords(rs) && next + |Flat(rs)| < |b|
    ensures Layout(LogAll(b, next, rs), next + |Flat(rs)|, last, lap + rs, prev)
    decreases |rs|
  {
    hide Layout, Fitted;
    if rs == [] {
      assert lap + rs == lap;
    } else {
      FitLayout(b, next, last, lap, prev, rs[0]);
      LogAllLayout(Fitted(b, next, rs[0]), next + |rs[0]| + 1, last, lap + [rs[0]], prev, rs[1..]);
      assert lap + [rs[0]] + rs[1..] == lap + rs;
    }
  }

  /** Whatever was logged before: when a record wraps the log and further ones carry the new
      lap to the old one's end, with a byte to spare before the buffer's last, the dump never
      ends. */
  lemma LongLapCircles(b: seq<char>, next: nat, last: nat, lap: seq<string>, prev: seq<string>,
                       m: string, xs: seq<string>, n: nat)
    requires Layout(b, next, last, lap, prev) && IsRecord(m) && AreRecords(xs)
    requires |m| + 1 < |b| <= next + |m| + 1
    requires next <= |m| + 1 + |Flat(xs)| && |m| + 2 + |Flat(xs)| < |b| - 1
    ensures var c := LogAll(Wrapped(b, next, m), |m| + 1, xs);
            !StopsAfter(c, next, StartOf(|m| + 1 + |Flat(xs)|, next), n)
  {
    hide Layout, Wrapped, Flat, LogAll, StopsAfter, Live;
    var w, e := Wrapped(b, next, m), |m| + 1 + |Flat(xs)|;
    WrapLayout(b, next, last, lap, prev, m);
    LayoutEnds(b, next, last, lap, prev);
    LayoutMarks(w, |m| + 1, next, [m], lap);
    LogAllLayout(w, |m| + 1, next, [m], lap, xs);
    CutByteLives(b, next, m, e + 1);
    LiveIs(w, LogAll(w, |m| + 1, xs), e + 1);
    DumpEndsIff(LogAll(w, |m| + 1, xs), e, next, [m] + xs, lap);
  }

  lemma CutByteLives(b: seq<char>, next: nat, m: string, k: nat)
    requires IsRecord(m) && |m| + 1 < |b| <= next + |m| + 1 && next < |b|
    requires |m| + 1 < k && next <= k < |b| - 1
    ensures Live(Wrapped(b, next, m), k)
  {
    hide Wrapped;
    WrappedBytes(b, next, m);
    assert m[k - next] in m;
  }

  lemma LiveIs(b: seq<char>, c: seq<char>, k: nat)
    requires Live(b, k) && |b| == |c| && b[k] == c[k]
    ensures Live(c, k) && c[k] != NUL
  {
  }

  /** A marked lap end lies above the start. */
  lemma LayoutMarks(b: seq<char>, next: nat, last: nat, lap: seq<string>, prev: seq<string>)
    requires Layout(b, next, last, lap, prev) && prev != []
    ensures last > 0
  {
    FlatEnds(prev);
  }

  lemma {:induction false} TerminatorIsMark(rs: seq<string>, i: nat)
    requires AreRecords(rs) && i < |Flat(rs)| && Flat(rs)[i] == NUL
    ensures exists j: nat :: 1 <= j <= |rs| && Mark(rs, j) == i + 1
  {
    FirstRecordLive(rs, i);
    var n := |rs[0]|;
    if i == n {
      FlatOne(rs[0]);
      assert rs[..1] == [rs[0]];
      assert Mark(rs, 1) == i + 1;
    } else {
      TerminatorIsMark(rs[1..], i - n - 1);
      var j: nat :| 1 <= j <= |rs[1..]| && Mark(rs[1..], j) == i - n;
      assert rs[..j + 1] == [rs[0]] + rs[1..][..j];
      FlatAppend([rs[0]], rs[1..][..j]);
      FlatOne(rs[0]);
      assert Mark(rs, j + 1) == i + 1;
    }
  }

  /** The dump of a wrapped log is silent exactly when its write position comes to lie just
      before the end of one of the old records, records of the current lap or not. */
  lemma SilentIff(b: seq<char>, next: nat, last: nat, lap: seq<string>, prev: seq<string>)
    requires Layout(b, next, last, lap, prev) && next + 1 < last
    ensures StopsAfter(b, last, StartOf(next, last), 0)
            <==> exists j: nat :: 1 <= j <= |prev| && Mark(prev, j) == next + 2
  {
    assert b[next + 1..last][0] == Flat(prev)[next + 1..][0];
    if b[next + 1] == NUL {
      TerminatorIsMark(prev, next + 1);
    }
    forall j: nat | 1 <= j <= |prev| && Mark(prev, j) == next + 2
      ensures b[next + 1] == NUL
    {
      FlatStep(prev, j - 1);
      FlatSplit(prev, j);
    }
  }

  // ----- two 4096-byte logs -----

  const STAMP: string := "[1400000000.000000000]"

  /** A record as the code forms it: the time in brackets, then the message. */
  function Stamped(n: nat): (m: string)
    ensures |m| == 22 + n && IsRecord(m)
  {
    STAMP + seq(n, _ => 'x')
  }

  function Repeated(m: string, k: nat): (rs: seq<string>)
    ensures |rs| == k && forall i :: 0 <= i < k ==> rs[i] == m
  {
    seq(k, _ => m)
  }

  lemma {:induction false} RepeatedLength(m: string, k: nat)
    ensures |Flat(Repeated(m, k))| == k * (|m| + 1)
  {
    if k > 0 {
      assert Repeated(m, k)[1..] == Repeated(m, k - 1);
      RepeatedLength(m, k - 1);
      assert |Flat(Repeated(m, k))| == |m| + 1 + |Flat(Repeated(m, k - 1))|;
      hide *;
      OneMore(k, |m| + 1);
    }
  }

  lemma OneMore(k: nat, size: nat)
    ensures (k - 1) * size + size == k * size
  {
  }

  /** The records of a first lap, and the 4096-byte buffer they leave. */
  function FirstRecords(): seq<string> {
    Repeated(Stamped(17), 102)
  }

  lemma FirstRecordsLength()
    ensures |Flat(FirstRecords())| == 4080 && AreRecords(FirstRecords())
  {
    hide Flat, Repeated, Stamped;
    RepeatedLength(Stamped(17), 102);
  }

  function Empty(): (b: seq<char>)
    ensures |b| == 4096
  {
    seq(4096, _ => NUL)
  }

  lemma EmptyLayout()
    ensures Layout(Empty(), 0, 0, [], [])
  {
  }

  function FirstLap(): (b: seq<char>)
    ensures |b| == 4096
  {
    FirstRecordsLength();
    LogAll(Empty(), 0, FirstRecords())
  }

  lemma FirstLapLayout()
    ensures Layout(FirstLap(), 4080, 0, FirstRecords(), [])
  {
    hide Flat, Repeated, Stamped, AreRecords, LogAll, Layout, FirstRecords, Empty;
    EmptyLayout();
    FirstRecordsLength();
    LogAllLayout(Empty(), 0, 0, [], [], FirstRecords());
    assert [] + FirstRecords() == FirstRecords();
  }

  /** The next record wraps it, and after 101 more a dump never ends. */
  lemma CirclingExample(n: nat)
    ensures var xs := Repeated(Stamped(17), 100) + [Stamped(2)];
            |Flat(xs)| == 4025
            && !StopsAfter(LogAll(Wrapped(FirstLap(), 4080, Stamped(38)), 61, xs), 4080, StartOf(4086, 4080), n)
  {
    hide Flat, LogAll, Wrapped, FirstLap, StopsAfter, Layout;
    FirstLapLayout();
    var rs := Repeated(Stamped(17), 100);
    RepeatedLength(Stamped(17), 100);
    FlatAppend(rs, [Stamped(2)]);
    FlatOne(Stamped(2));
    LongLapCircles(FirstLap(), 4080, 0, FirstRecords(), [], Stamped(38), rs + [Stamped(2)], n);
  }

  /** A record with a 15-character message wraps it instead, and a dump then prints nothing. */
  lemma SilentExample()
    ensures StopsAfter(Wrapped(FirstLap(), 4080, Stamped(15)), 4080, StartOf(38, 4080), 0)
  {
    hide Wrapped, FirstLap, StopsAfter, Layout, Stamped;
    FirstLapLayout();
    var old' := FirstRecords();
    WrapLayout(FirstLap(), 4080, 0, old', [], Stamped(15));
    assert old'[..1] == [Stamped(17)];
    FlatOne(Stamped(17));
    assert Mark(old', 1) == 38 + 2;
    SilentIff(Wrapped(FirstLap(), 4080, Stamped(15)), 38, 4080, [Stamped(15)], old');
  }
}
