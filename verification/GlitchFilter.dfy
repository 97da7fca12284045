/** The port monitor: the filter against single glitched counter readings, and the table it
    prints, which does not clear the entries of ports that did not rise. */
module GlitchFilter {
  import opened Bits

  const PORTS: nat := 25
  const GLOBALS: nat := 28

  // ----- the filter -----

  /** A rise from `a` to `b` is believed when the next reading `c` has not fallen back. */
  function Delta(a: nat, b: nat, c: nat): nat {
    if b > a && c >= b then b - a else 0
  }

  /** What update `t` reports on a counter read as `x[0]`, `x[1]`, ...: the first reading
      stands for the one before it. */
  function Reported(x: seq<nat>, t: nat): nat
    requires 1 <= t < |x|
  {
    Delta(if t == 1 then x[0] else x[t - 2], x[t - 1], x[t])
  }

  /** The sum of the first `t` reports. */
  function Total(x: seq<nat>, t: nat): nat
    requires t < |x|
  {
    if t == 0 then 0 else Total(x, t - 1) + Reported(x, t)
  }

  // ----- one counter on all ports -----

  /** One reading of a switch: its counters by number and port, and its global counters. */
  datatype Snapshot = Snapshot(ports: (nat, nat) -> nat, globals: nat -> nat)

  function Rise(a: Snapshot, b: Snapshot, c: Snapshot, counter: nat, k: nat): nat {
    Delta(a.ports(counter, k), b.ports(counter, k), c.ports(counter, k))
  }

  /** The value of a table row: the counter it shows, the ports that rose at the last
      update, and an entry for every port. */
  datatype Ref = Ref(counter: nat, mask: nat, ports: seq<nat>)

  function RiseMask(a: Snapshot, b: Snapshot, c: Snapshot, counter: nat, n: nat): nat {
    if n == 0 then 0
    else if Rise(a, b, c, counter, n - 1) > 0 then Or(RiseMask(a, b, c, counter, n - 1), Pow2(n - 1))
    else RiseMask(a, b, c, counter, n - 1)
  }

  lemma {:induction false} RiseMaskBits(a: Snapshot, b: Snapshot, c: Snapshot, counter: nat, n: nat, k: nat)
    ensures Bit(RiseMask(a, b, c, counter, n), k) <==> k < n && Rise(a, b, c, counter, k) > 0
  {
    hide Rise;
    if n == 0 {
      BitZero(k);
    } else {
      RiseMaskBits(a, b, c, counter, n - 1, k);
      BitOr(RiseMask(a, b, c, counter, n - 1), Pow2(n - 1), k);
      BitPow2(n - 1, k);
    }
  }

  /** The row after an update: an entry is overwritten only where the counter rose. */
  function SetRef(r: Ref, a: Snapshot, b: Snapshot, c: Snapshot): (s: Ref)
    requires |r.ports| == PORTS
    ensures |s.ports| == PORTS && s.counter == r.counter
  {
    Ref(r.counter, RiseMask(a, b, c, r.counter, PORTS),
        seq(PORTS, k requires 0 <= k < PORTS =>
          if Rise(a, b, c, r.counter, k) > 0 then Rise(a, b, c, r.counter, k) else r.ports[k]))
  }

  /** The ports below `n` that are in a mask, in ascending order. */
  function Ports(mask: nat, n: nat): seq<nat> {
    if n == 0 then [] else Ports(mask, n - 1) + if Bit(mask, n - 1) then [n - 1] else []
  }

  lemma {:induction false} PortsIn(mask: nat, n: nat, k: nat)
    ensures k in Ports(mask, n) <==> k < n && Bit(mask, k)
  {
    if n > 0 {
      PortsIn(mask, n - 1, k);
    }
  }

  /** A printed row has one value under each heading; a row without a rise is not printed. */
  datatype Row = Hidden | Shown(counter: nat, values: seq<nat>)

  /** The entries of the ports below `n` that are in a mask. */
  function Entries(ports: seq<nat>, mask: nat, n: nat): (v: seq<nat>)
    requires n <= |ports|
    ensures |v| == |Ports(mask, n)|
  {
    if n == 0 then [] else Entries(ports, mask, n - 1) + if Bit(mask, n - 1) then [ports[n - 1]] else []
  }

  lemma {:induction false} PortsAscend(mask: nat, n: nat)
    ensures forall i :: 0 <= i < |Ports(mask, n)| ==> Ports(mask, n)[i] < n
    ensures forall i, j :: 0 <= i < j < |Ports(mask, n)| ==> Ports(mask, n)[i] < Ports(mask, n)[j]
  {
    if n > 0 {
      PortsAscend(mask, n - 1);
    }
  }

  /** Each value printed is the entry of the port whose heading it stands under. */
  lemma {:induction false} EntryAt(ports: seq<nat>, mask: nat, n: nat, j: nat)
    requires n <= |ports| && j < |Ports(mask, n)|
    ensures Ports(mask, n)[j] < n && Entries(ports, mask, n)[j] == ports[Ports(mask, n)[j]]
  {
    if n > 0 && j < |Ports(mask, n - 1)| {
      EntryAt(ports, mask, n - 1, j);
    }
  }

  function RowOf(r: Ref, mask: nat): Row
    requires |r.ports| == PORTS
  {
    if r.mask == 0 then Hidden else Shown(r.counter, Entries(r.ports, mask, PORTS))
  }

  class PortCounterRef {
    const counter: nat
    const ports: array<nat>
    var mask: nat

    /** The entries are not initialised, so they start with whatever the memory holds. */
    constructor (counter: nat, memory: seq<nat>)
      requires |memory| == PORTS
      ensures Valid() && fresh(ports) && Value() == Ref(counter, 0, memory)
    {
      this.counter := counter;
      var store := new nat[PORTS](k requires 0 <= k < PORTS => memory[k]);
      ports := store;
      mask := 0;
      new;
      assert ports[..] == memory;
    }

    predicate Valid() {
      ports.Length == PORTS
    }

    function Value(): (r: Ref)
      reads this, ports
      requires Valid()
      ensures |r.ports| == PORTS
    {
      Ref(counter, mask, ports[..])
    }

    method Set(a: Snapshot, b: Snapshot, c: Snapshot) returns (m: nat)
      requires Valid()
      modifies this, ports
      ensures Value() == SetRef(old(Value()), a, b, c) && m == mask
    {
      hide Or, Pow2;
      mask := 0;
      for k := 0 to PORTS
        invariant mask == RiseMask(a, b, c, counter, k)
        invariant forall j :: 0 <= j < PORTS ==>
                    ports[j] == if j < k && Rise(a, b, c, counter, j) > 0
                                then Rise(a, b, c, counter, j) else old(ports[j])
      {
        if b.ports(counter, k) > a.ports(counter, k) && c.ports(counter, k) >= b.ports(counter, k) {
          ports[k] := b.ports(counter, k) - a.ports(counter, k);
          mask := Or(mask, Pow2(k));
        }
      }
      m := mask;
      assert ports[..] == SetRef(old(Value()), a, b, c).ports;
    }

    method Report(shown: nat) returns (row: Row)
      requires Valid()
      ensures row == RowOf(Value(), shown)
    {
      row := Hidden;
      if mask != 0 {
        var values := [];
        for k := 0 to PORTS
          invariant values == Entries(ports[..], shown, k)
        {
          if Bit(shown, k) {
            values := values + [ports[k]];
          }
        }
        row := Shown(counter, values);
      }
    }
  }

  // ----- the table -----

  datatype Table = Silent | Table(heads: seq<nat>, rows: seq<Row>)

  function UnionMask(refs: seq<Ref>, n: nat): nat
    requires n <= |refs|
  {
    if n == 0 then 0 else Or(UnionMask(refs, n - 1), refs[n - 1].mask)
  }

  lemma {:induction false} UnionBits(refs: seq<Ref>, n: nat, k: nat)
    requires n <= |refs|
    ensures Bit(UnionMask(refs, n), k) <==> exists i :: 0 <= i < n && Bit(refs[i].mask, k)
  {
    hide Bit;
    if n == 0 {
      BitZero(k);
    } else {
      UnionBits(refs, n - 1, k);
      BitOr(UnionMask(refs, n - 1), refs[n - 1].mask, k);
      assert 0 <= n - 1 < n;
    }
  }

  ghost predicate Whole(refs: seq<Ref>) {
    forall i :: 0 <= i < |refs| ==> |refs[i].ports| == PORTS
  }

  function SetAll(refs: seq<Ref>, a: Snapshot, b: Snapshot, c: Snapshot): (r: seq<Ref>)
    requires Whole(refs)
    ensures Whole(r) && |r| == |refs|
  {
    seq(|refs|, i requires 0 <= i < |refs| => SetRef(refs[i], a, b, c))
  }

  /** The ports of the table: those up on which some counter rose. */
  function Reporting(refs: seq<Ref>, up: nat): nat {
    And(UnionMask(refs, |refs|), up)
  }

  function TableOf(refs: seq<Ref>, up: nat): Table
    requires Whole(refs)
  {
    ShowAll(refs, Reporting(refs, up))
  }

  function ShowAll(refs: seq<Ref>, mask: nat): Table
    requires Whole(refs)
  {
    if mask == 0 then Silent
    else Table(Ports(mask, PORTS), seq(|refs|, i requires 0 <= i < |refs| => RowOf(refs[i], mask)))
  }

  class PortCounters {
    var list: seq<PortCounterRef>

    constructor ()
      ensures Valid() && list == []
    {
      list := [];
    }

    ghost function Arrays(): set<object>
      reads this
    {
      set i | 0 <= i < |list| :: list[i].ports
    }

    ghost predicate Valid()
      reads this
    {
      && (forall i :: 0 <= i < |list| ==> list[i].Valid())
      && (forall i, j :: 0 <= i < j < |list| ==> list[i] != list[j] && list[i].ports != list[j].ports)
    }

    ghost function Values(): (r: seq<Ref>)
      reads this, list, Arrays()
      requires Valid()
      ensures |r| == |list| && Whole(r)
    {
      seq(|list|, i requires 0 <= i < |list| reads this, list, Arrays() requires Valid() => list[i].Value())
    }

    method Add(ref: PortCounterRef)
      requires Valid() && ref.Valid() && ref !in list && ref.ports !in Arrays()
      modifies this
      ensures Valid() && list == old(list) + [ref] && Values() == old(Values()) + [ref.Value()]
    {
      list := list + [ref];
    }

    /** The first half of a report: set every row and join their masks. */
    method SetRefs(a: Snapshot, b: Snapshot, c: Snapshot) returns (mask: nat)
      requires Valid()
      modifies list, Arrays()
      ensures Valid() && Values() == SetAll(old(Values()), a, b, c)
      ensures mask == UnionMask(Values(), |Values()|)
    {
      hide Or, SetRef;
      mask := 0;
      ghost var was := Values();
      ghost var now := SetAll(was, a, b, c);
      for i := 0 to |list|
        invariant mask == UnionMask(now, i)
        invariant forall j :: 0 <= j < |list| ==> list[j].Value() == if j < i then now[j] else was[j]
      {
        var m := list[i].Set(a, b, c);
        mask := Or(mask, m);
      }
      assert Values() == now;
    }

    /** The second half: nothing for an empty mask, else the headings and the rows. */
    method Show(mask: nat) returns (t: Table)
      requires Valid()
      ensures t == ShowAll(Values(), mask)
    {
      hide RowOf;
      if mask == 0 { return Silent; }
      var heads := [];
      for k := 0 to PORTS
        invariant heads == Ports(mask, k)
      {
        if Bit(mask, k) {
          heads := heads + [k];
        }
      }
      var rows := [];
      for i := 0 to |list|
        invariant |rows| == i && forall j :: 0 <= j < i ==> rows[j] == RowOf(list[j].Value(), mask)
      {
        var row := list[i].Report(mask);
        rows := rows + [row];
      }
      t := Table(heads, rows);
    }

    method Report(a: Snapshot, b: Snapshot, c: Snapshot, up: nat) returns (t: Table)
      requires Valid()
      modifies list, Arrays()
      ensures Valid() && Values() == SetAll(old(Values()), a, b, c)
      ensures t == TableOf(Values(), up)
    {
      hide Or, And, SetRef, RowOf;
      var mask := SetRefs(a, b, c);
      t := Show(And(mask, up));
    }
  }

  // ----- the global counters -----

  datatype Line = Line(global: nat, value: nat)

  function GlobalRise(a: Snapshot, b: Snapshot, c: Snapshot, g: nat): nat {
    Delta(a.globals(g), b.globals(g), c.globals(g))
  }

  function GlobalLines(a: Snapshot, b: Snapshot, c: Snapshot, n: nat): seq<Line> {
    if n == 0 then []
    else
      var v := GlobalRise(a, b, c, n - 1);
      GlobalLines(a, b, c, n - 1) + if v != 0 then [Line(n - 1, v)] else []
  }

  lemma {:induction false} GlobalLineIn(a: Snapshot, b: Snapshot, c: Snapshot, n: nat, l: Line)
    ensures l in GlobalLines(a, b, c, n)
            <==> l.global < n && l.value == GlobalRise(a, b, c, l.global) > 0
  {
    hide GlobalRise;
    if n > 0 {
      GlobalLineIn(a, b, c, n - 1, l);
    }
  }

  lemma {:induction false} GlobalLinesAscend(a: Snapshot, b: Snapshot, c: Snapshot, n: nat)
    ensures forall i :: 0 <= i < |GlobalLines(a, b, c, n)| ==> GlobalLines(a, b, c, n)[i].global < n
    ensures forall i, j :: 0 <= i < j < |GlobalLines(a, b, c, n)| ==>
              GlobalLines(a, b, c, n)[i].global < GlobalLines(a, b, c, n)[j].global
  {
    hide GlobalRise;
    if n > 0 {
      GlobalLinesAscend(a, b, c, n - 1);
    }
  }

  method ReportGlobals(a: Snapshot, b: Snapshot, c: Snapshot) returns (lines: seq<Line>)
    ensures lines == GlobalLines(a, b, c, GLOBALS)
  {
    lines := [];
    for g := 0 to GLOBALS
      invariant lines == GlobalLines(a, b, c, g)
    {
      var v := Delta(a.globals(g), b.globals(g), c.globals(g));
      if v != 0 {
        lines := lines + [Line(g, v)];
      }
    }
  }

  // ----- the monitor -----

  /** A periodic update: the switch it reads, and what it reads. */
  datatype Sample = Sample(fm: nat, reading: Snapshot)

  /** All the readings of one switch, from the one before the first update. */
  function Readings(first: seq<Snapshot>, log: seq<Sample>, fm: nat): (h: seq<Snapshot>)
    requires fm < |first|
    ensures |h| >= if log != [] && log[|log| - 1].fm == fm then 2 else 1
  {
    if log == [] then [first[fm]]
    else
      Readings(first, log[..|log| - 1], fm)
      + if log[|log| - 1].fm == fm then [log[|log| - 1].reading] else []
  }

  function Newest(h: seq<Snapshot>): Snapshot
    requires h != []
  {
    h[|h| - 1]
  }

  function Older(h: seq<Snapshot>): Snapshot
    requires h != []
  {
    h[if |h| == 1 then 0 else |h| - 2]
  }

  function Column(h: seq<Snapshot>, counter: nat, k: nat): (x: seq<nat>)
    ensures |x| == |h|
  {
    seq<nat>(|h|, i requires 0 <= i < |h| => h[i].ports(counter, k))
  }

  function GlobalColumn(h: seq<Snapshot>, g: nat): (x: seq<nat>)
    ensures |x| == |h|
  {
    seq<nat>(|h|, i requires 0 <= i < |h| => h[i].globals(g))
  }

  ghost predicate OfSwitches(first: seq<Snapshot>, log: seq<Sample>) {
    forall i :: 0 <= i < |log| ==> log[i].fm < |first|
  }

  /** The filtered rise of a counter on a port at the last update. */
  function Risen(first: seq<Snapshot>, log: seq<Sample>, counter: nat, k: nat): nat
    requires log != [] && log[|log| - 1].fm < |first|
  {
    var h := Readings(first, log, log[|log| - 1].fm);
    Reported(Column(h, counter, k), |h| - 1)
  }

  function GlobalRisen(first: seq<Snapshot>, log: seq<Sample>, g: nat): nat
    requires log != [] && log[|log| - 1].fm < |first|
  {
    var h := Readings(first, log, log[|log| - 1].fm);
    Reported(GlobalColumn(h, g), |h| - 1)
  }

  /** A global counter is printed, once and in its turn, if and only if the filter reports a
      rise, and that is it. */
  ghost predicate GlobalsAsReported(lines: seq<Line>, first: seq<Snapshot>, log: seq<Sample>)
    requires log != [] && log[|log| - 1].fm < |first|
  {
    && (forall l: Line :: l in lines <==> l.global < GLOBALS && l.value == GlobalRisen(first, log, l.global) > 0)
    && forall i, j :: 0 <= i < j < |lines| ==> lines[i].global < lines[j].global
  }

  /** The rows after the updates so far. One table serves both switches. */
  function Refs(start: seq<Ref>, first: seq<Snapshot>, log: seq<Sample>): (r: seq<Ref>)
    requires Whole(start) && OfSwitches(first, log)
    ensures |r| == |start| && Whole(r)
  {
    if log == [] then start
    else
      var s := log[|log| - 1];
      var h := Readings(first, log[..|log| - 1], s.fm);
      SetAll(Refs(start, first, log[..|log| - 1]), Older(h), Newest(h), s.reading)
  }

  /** What an update compares is the last three readings of its switch. */
  lemma {:induction false} RiseIsReported(first: seq<Snapshot>, log: seq<Sample>, counter: nat, k: nat)
    requires log != [] && log[|log| - 1].fm < |first|
    ensures var s := log[|log| - 1];
            var h := Readings(first, log[..|log| - 1], s.fm);
            && Risen(first, log, counter, k) == Rise(Older(h), Newest(h), s.reading, counter, k)
            && GlobalRisen(first, log, counter) == GlobalRise(Older(h), Newest(h), s.reading, counter)
  {
    hide Delta;
    var s := log[|log| - 1];
    var h := Readings(first, log[..|log| - 1], s.fm);
    var x := Readings(first, log, s.fm);
    assert x == h + [s.reading];
    assert Older(h) == x[if |x| == 2 then 0 else |x| - 3] && Newest(h) == x[|x| - 2];
    hide Readings;
    assert Column(x, counter, k)[|x| - 1] == s.reading.ports(counter, k);
  }

  lemma {:induction false} ReadingsMove(first: seq<Snapshot>, log: seq<Sample>, s: Sample)
    requires s.fm < |first|
    ensures forall fm :: 0 <= fm < |first| ==>
              var h := Readings(first, log, fm);
              var g := Readings(first, log + [s], fm);
              && Newest(g) == (if fm == s.fm then s.reading else Newest(h))
              && Older(g) == (if fm == s.fm then Newest(h) else Older(h))
  {
    forall fm | 0 <= fm < |first|
      ensures Readings(first, log + [s], fm) == Readings(first, log, fm) + if fm == s.fm then [s.reading] else []
    {
      assert (log + [s])[..|log|] == log;
    }
    hide Readings;
  }

  /** One more update of switch `s.fm`: the rows move on, and its global counters are printed
      as the filter reports them. */
  lemma {:induction false} OneUpdate(start: seq<Ref>, first: seq<Snapshot>, log: seq<Sample>, s: Sample)
    requires Whole(start) && OfSwitches(first, log) && s.fm < |first|
    ensures OfSwitches(first, log + [s])
    ensures var h := Readings(first, log, s.fm);
            && Refs(start, first, log + [s]) == SetAll(Refs(start, first, log), Older(h), Newest(h), s.reading)
            && GlobalsAsReported(GlobalLines(Older(h), Newest(h), s.reading, GLOBALS), first, log + [s])
  {
    hide SetAll, GlobalRise, GlobalRisen, GlobalLines, Readings, Older, Newest;
    assert (log + [s])[..|log|] == log;
    var h := Readings(first, log, s.fm);
    GlobalLinesAscend(Older(h), Newest(h), s.reading, GLOBALS);
    forall l: Line
      ensures l in GlobalLines(Older(h), Newest(h), s.reading, GLOBALS)
              <==> l.global < GLOBALS && l.value == GlobalRisen(first, log + [s], l.global) > 0
    {
      GlobalLineIn(Older(h), Newest(h), s.reading, GLOBALS, l);
      RiseIsReported(first, log + [s], l.global, 0);
    }
  }

  class PortMonitor {
    const table: PortCounters
    var counters: seq<Snapshot>
    var delayed: seq<Snapshot>
    ghost const start: seq<Ref>
    ghost const first: seq<Snapshot>
    ghost var log: seq<Sample>

    ghost predicate Valid()
      reads this, table, table.list, table.Arrays()
    {
      && table.Valid() && |counters| == |delayed| == |first|
      && Whole(start) && OfSwitches(first, log)
      && (forall fm :: 0 <= fm < |first| ==> counters[fm] == Newest(Readings(first, log, fm)))
      && (forall fm :: 0 <= fm < |first| ==> delayed[fm] == Older(Readings(first, log, fm)))
      && table.Values() == Refs(start, first, log)
    }

    /** Both snapshots of a switch start as its first reading. */
    constructor (table: PortCounters, first: seq<Snapshot>)
      requires table.Valid()
      ensures Valid() && this.table == table && this.first == first && log == [] && start == table.Values()
    {
      this.table := table;
      counters, delayed := first, first;
      start, this.first, log := table.Values(), first, [];
    }

    method UpdateCounters(fm: nat, c: Snapshot, up: nat) returns (t: Table, lines: seq<Line>)
      requires Valid() && fm < |first|
      modifies this, table.list, table.Arrays()
      ensures Valid() && log == old(log) + [Sample(fm, c)]
      ensures t == TableOf(Refs(start, first, log), up)
      ensures GlobalsAsReported(lines, first, log)
    {
      hide TableOf, SetAll, GlobalLines, GlobalRisen, Readings, Refs, Newest, Older;
      t := table.Report(delayed[fm], counters[fm], c, up);
      lines := ReportGlobals(delayed[fm], counters[fm], c);
      ReadingsMove(first, log, Sample(fm, c));
      OneUpdate(start, first, log, Sample(fm, c));
      log := log + [Sample(fm, c)];
      delayed := delayed[fm := counters[fm]];
      counters := counters[fm := c];
    }
  }

  /** The entry of one counter and port after the updates so far, from an initial value. */
  function Stored(init: nat, first: seq<Snapshot>, log: seq<Sample>, counter: nat, k: nat): nat
    requires OfSwitches(first, log)
  {
    if log == [] then init
    else if Risen(first, log, counter, k) > 0 then Risen(first, log, counter, k)
    else Stored(init, first, log[..|log| - 1], counter, k)
  }

  lemma {:induction false} RefsStored(start: seq<Ref>, first: seq<Snapshot>, log: seq<Sample>, i: nat, k: nat)
    requires Whole(start) && OfSwitches(first, log) && i < |start|
    ensures var r := Refs(start, first, log)[i];
            && r.counter == start[i].counter
            && (k < PORTS ==> r.ports[k] == Stored(start[i].ports[k], first, log, r.counter, k))
            && (log != [] ==> (Bit(r.mask, k) <==> k < PORTS && Risen(first, log, r.counter, k) > 0))
  {
    hide Risen, Rise, RiseMask, Bit;
    if log != [] {
      var s := log[|log| - 1];
      var h := Readings(first, log[..|log| - 1], s.fm);
      RefsStored(start, first, log[..|log| - 1], i, k);
      RiseIsReported(first, log, start[i].counter, k);
      RiseMaskBits(Older(h), Newest(h), s.reading, start[i].counter, PORTS, k);
    }
  }

  // ----- what the table shows -----

  ghost predicate NeverRisen(first: seq<Snapshot>, log: seq<Sample>, counter: nat, k: nat)
    requires OfSwitches(first, log)
  {
    forall n :: 1 <= n <= |log| ==> Risen(first, log[..n], counter, k) == 0
  }

  /** An entry is the last rise of its counter and port on either switch ... */
  lemma {:induction false} StoredLast(init: nat, first: seq<Snapshot>, log: seq<Sample>, counter: nat, k: nat, n: nat)
    requires OfSwitches(first, log) && 1 <= n <= |log| && Risen(first, log[..n], counter, k) > 0
    requires forall m :: n < m <= |log| ==> Risen(first, log[..m], counter, k) == 0
    ensures Stored(init, first, log, counter, k) == Risen(first, log[..n], counter, k)
  {
    hide Risen;
    if n == |log| {
      assert log[..n] == log;
    } else {
      var was := log[..|log| - 1];
      assert log[..|log|] == log;
      forall m | n <= m <= |was|
        ensures was[..m] == log[..m]
      {
      }
      StoredLast(init, first, was, counter, k, n);
    }
  }

  /** ... or, before there is one, what the memory held; it is zero only then. */
  lemma {:induction false} StoredZeroIff(init: nat, first: seq<Snapshot>, log: seq<Sample>, counter: nat, k: nat)
    requires OfSwitches(first, log)
    ensures NeverRisen(first, log, counter, k) ==> Stored(init, first, log, counter, k) == init
    ensures Stored(init, first, log, counter, k) == 0 <==> init == 0 && NeverRisen(first, log, counter, k)
  {
    hide Risen;
    if log != [] {
      var was := log[..|log| - 1];
      assert log[..|log|] == log;
      forall m | 1 <= m <= |was|
        ensures was[..m] == log[..m]
      {
      }
      StoredZeroIff(init, first, was, counter, k);
      assert NeverRisen(first, log, counter, k)
        <==> NeverRisen(first, was, counter, k) && Risen(first, log, counter, k) == 0;
    }
  }

  ghost predicate RisesOn(start: seq<Ref>, first: seq<Snapshot>, log: seq<Sample>, k: nat)
    requires log != [] && log[|log| - 1].fm < |first|
  {
    exists r :: 0 <= r < |start| && Risen(first, log, start[r].counter, k) > 0
  }

  ghost predicate RisesSomewhere(first: seq<Snapshot>, log: seq<Sample>, counter: nat)
    requires log != [] && log[|log| - 1].fm < |first|
  {
    exists k :: 0 <= k < PORTS && Risen(first, log, counter, k) > 0
  }

  lemma {:induction false} ReportingBits(start: seq<Ref>, first: seq<Snapshot>, log: seq<Sample>, up: nat, k: nat)
    requires Whole(start) && OfSwitches(first, log) && log != []
    ensures Bit(Reporting(Refs(start, first, log), up), k)
            <==> k < PORTS && Bit(up, k) && RisesOn(start, first, log, k)
  {
    hide Bit, Risen, Refs, And;
    var refs := Refs(start, first, log);
    forall i | 0 <= i < |start|
      ensures Bit(refs[i].mask, k) <==> k < PORTS && Risen(first, log, start[i].counter, k) > 0
    {
      RefsStored(start, first, log, i, k);
    }
    UnionBits(refs, |refs|, k);
    BitAnd(UnionMask(refs, |refs|), up, k);
  }

  lemma {:induction false} RowShownIff(start: seq<Ref>, first: seq<Snapshot>, log: seq<Sample>, i: nat)
    requires Whole(start) && OfSwitches(first, log) && log != [] && i < |start|
    ensures Refs(start, first, log)[i].mask != 0 <==> RisesSomewhere(first, log, start[i].counter)
  {
    hide Bit, Risen, Refs;
    var refs := Refs(start, first, log);
    forall k: nat
      ensures Bit(refs[i].mask, k) <==> k < PORTS && Risen(first, log, start[i].counter, k) > 0
    {
      RefsStored(start, first, log, i, k);
    }
    if refs[i].mask != 0 {
      var k := SomeBit(refs[i].mask);
      assert Risen(first, log, start[i].counter, k) > 0;
    } else if RisesSomewhere(first, log, start[i].counter) {
      var k :| 0 <= k < PORTS && Risen(first, log, start[i].counter, k) > 0;
      BitZero(k);
    }
  }

  /** The table has value `v` in its i-th row, titled with a counter, under the heading of
      port `k`. */
  ghost predicate Prints(t: Table, i: nat, counter: nat, k: nat, v: nat) {
    t.Table? && i < |t.rows| && t.rows[i].Shown? && t.rows[i].counter == counter
    && exists j :: 0 <= j < |t.heads| && j < |t.rows[i].values| && t.heads[j] == k && t.rows[i].values[j] == v
  }

  /** Exactly what a table prints: for every port that is up and on which any counter rose,
      the entry of every counter that rose on any port, up or not, under that counter's title. */
  lemma {:induction false} PrintsIff(start: seq<Ref>, first: seq<Snapshot>, log: seq<Sample>, up: nat,
                                     i: nat, counter: nat, k: nat, v: nat)
    requires Whole(start) && OfSwitches(first, log) && log != [] && i < |start|
    ensures Prints(TableOf(Refs(start, first, log), up), i, counter, k, v)
            <==> counter == start[i].counter && k < PORTS && Bit(up, k) && RisesOn(start, first, log, k)
                 && RisesSomewhere(first, log, start[i].counter)
                 && v == Stored(start[i].ports[k], first, log, start[i].counter, k)
  {
    hide Bit, Refs, Reporting, RisesOn, RisesSomewhere, Stored, Ports, Entries;
    var refs := Refs(start, first, log);
    var mask := Reporting(refs, up);
    ReportingBits(start, first, log, up, k);
    RowShownIff(start, first, log, i);
    RefsStored(start, first, log, i, k);
    PortsIn(mask, PORTS, k);
    if mask == 0 {
      BitZero(k);
    }
    forall j | 0 <= j < |Ports(mask, PORTS)|
      ensures Ports(mask, PORTS)[j] < PORTS
      ensures Entries(refs[i].ports, mask, PORTS)[j] == refs[i].ports[Ports(mask, PORTS)[j]]
    {
      EntryAt(refs[i].ports, mask, PORTS, j);
    }
  }

  /** The shape of every table: each port heads one column, in ascending order, and each row
      stands in the place of its counter, bears its title and has a value for every column. */
  lemma {:induction false} TableShape(start: seq<Ref>, first: seq<Snapshot>, log: seq<Sample>, up: nat, i: nat)
    requires Whole(start) && OfSwitches(first, log) && log != [] && i < |start|
    requires TableOf(Refs(start, first, log), up).Table?
    ensures var t := TableOf(Refs(start, first, log), up);
            && |t.rows| == |start|
            && (forall j, l :: 0 <= j < l < |t.heads| ==> t.heads[j] < t.heads[l])
            && (t.rows[i].Shown? <==> RisesSomewhere(first, log, start[i].counter))
            && (t.rows[i].Shown? ==> t.rows[i].counter == start[i].counter && |t.rows[i].values| == |t.heads|)
  {
    hide Bit, Refs, Reporting, RisesSomewhere;
    PortsAscend(Reporting(Refs(start, first, log), up), PORTS);
    RefsStored(start, first, log, i, 0);
    RowShownIff(start, first, log, i);
  }

  /** A printed entry is the filtered rise of this update if and only if the counter rose on
      that port now, or it never did on either switch and the memory held zero. */
  lemma {:induction false} PrintsRiseIff(start: seq<Ref>, first: seq<Snapshot>, log: seq<Sample>, up: nat,
                                         i: nat, counter: nat, k: nat, v: nat)
    requires Whole(start) && OfSwitches(first, log) && log != [] && i < |start|
    requires Prints(TableOf(Refs(start, first, log), up), i, counter, k, v)
    ensures k < PORTS
    ensures v == Risen(first, log, counter, k)
            <==> || Risen(first, log, counter, k) > 0
                 || (start[i].ports[k] == 0 && NeverRisen(first, log, counter, k))
  {
    hide Risen, Refs, TableOf, Prints, RisesOn, RisesSomewhere;
    PrintsIff(start, first, log, up, i, counter, k, v);
    StoredZeroIff(start[i].ports[k], first, log, start[i].counter, k);
  }

  /** Nothing is printed if and only if no counter rose on a port that is up. */
  lemma {:induction false} SilentIff(start: seq<Ref>, first: seq<Snapshot>, log: seq<Sample>, up: nat)
    requires Whole(start) && OfSwitches(first, log) && log != []
    ensures TableOf(Refs(start, first, log), up) == Silent
            <==> forall k :: 0 <= k < PORTS && Bit(up, k) ==> !RisesOn(start, first, log, k)
  {
    hide Bit, Refs, Reporting, RisesOn;
    var mask := Reporting(Refs(start, first, log), up);
    if mask != 0 {
      var k := SomeBit(mask);
      ReportingBits(start, first, log, up, k);
    } else {
      forall k | 0 <= k < PORTS && Bit(up, k)
        ensures !RisesOn(start, first, log, k)
      {
        BitZero(k);
        ReportingBits(start, first, log, up, k);
      }
    }
  }

  // ----- the order of the updates -----

  /** The two switches are read in turn. */
  ghost predicate Alternating(first: seq<Snapshot>, log: seq<Sample>) {
    |first| == 2 && forall i :: 0 <= i < |log| ==> log[i].fm == i % 2
  }

  /** The reading of update `i`, or of a switch before its first update. */
  function At(first: seq<Snapshot>, log: seq<Sample>, i: int, fm: nat): Snapshot
    requires fm < |first| && i < |log|
  {
    if i < 0 then first[fm] else log[i].reading
  }

  lemma {:induction false} AlternateReadings(first: seq<Snapshot>, log: seq<Sample>, n: nat)
    requires Alternating(first, log) && n <= |log|
    ensures var h := Readings(first, log[..n], n % 2);
            Newest(h) == At(first, log, n - 2, n % 2) && Older(h) == At(first, log, n - 4, n % 2)
    ensures var h := Readings(first, log[..n], (n + 1) % 2);
            Newest(h) == At(first, log, n - 1, (n + 1) % 2) && Older(h) == At(first, log, n - 3, (n + 1) % 2)
  {
    if n > 0 {
      AlternateReadings(first, log, n - 1);
      ReadingsMove(first, log[..n - 1], log[n - 1]);
      assert log[..n] == log[..n - 1] + [log[n - 1]];
      hide Readings;
    }
  }

  /** As the monitor runs, an update reports on the readings two and four updates back. */
  lemma {:induction false} AlternateRise(first: seq<Snapshot>, log: seq<Sample>, n: nat, counter: nat, k: nat)
    requires Alternating(first, log) && 1 <= n <= |log|
    ensures var fm := (n - 1) % 2;
            Risen(first, log[..n], counter, k)
            == Rise(At(first, log, n - 5, fm), At(first, log, n - 3, fm), log[n - 1].reading, counter, k)
  {
    AlternateReadings(first, log, n - 1);
    assert log[..n][..n - 1] == log[..n - 1];
    RiseIsReported(first, log[..n], counter, k);
  }

  // ----- a table with stale entries -----

  /** Counter 0 on ports 1 and 2, counter 1 on port 1, and zero everywhere else. */
  function Reads(a1: nat, a2: nat, b1: nat): Snapshot {
    Snapshot((counter, k) => if counter == 0 && k == 1 then a1
                             else if counter == 0 && k == 2 then a2
                             else if counter == 1 && k == 1 then b1
                             else 0,
             g => 0)
  }

  const FIRST: seq<Snapshot> := [Reads(0, 0, 0), Reads(0, 0, 0)]

  /** Three rounds over both switches; on the second one counter 0 never moves on port 1. */
  const ROUNDS: seq<Sample> :=
    [Sample(0, Reads(5, 0, 0)), Sample(1, Reads(0, 0, 0)),
     Sample(0, Reads(5, 3, 4)), Sample(1, Reads(0, 3, 4)),
     Sample(0, Reads(5, 3, 4)), Sample(1, Reads(0, 3, 4))]

  lemma {:induction false} RoundsRisen()
    ensures Alternating(FIRST, ROUNDS)
    ensures Risen(FIRST, ROUNDS[..3], 0, 1) == 5
    ensures forall n :: 1 <= n <= 6 && n != 3 ==> Risen(FIRST, ROUNDS[..n], 0, 1) == 0
    ensures forall n :: 5 <= n <= 6 ==>
              Risen(FIRST, ROUNDS[..n], 0, 2) == 3 && Risen(FIRST, ROUNDS[..n], 1, 1) == 4
  {
    hide Risen;
    forall n, c: nat, k: nat | 1 <= n <= 6
      ensures Risen(FIRST, ROUNDS[..n], c, k)
              == Rise(At(FIRST, ROUNDS, n - 5, (n - 1) % 2), At(FIRST, ROUNDS, n - 3, (n - 1) % 2), ROUNDS[n - 1].reading, c, k)
    {
      AlternateRise(FIRST, ROUNDS, n, c, k);
    }
  }

  /** With both ports up, the entry of counter 0 on port 1 is its rise of 5 when that is
      reported, again in the next round when counter 1 rises there, and then also in the table
      of the other switch, on which the counter never moved. */
  lemma {:induction false} StaleExample(start: seq<Ref>, v: nat)
    requires |start| == 2 && Whole(start) && start[0].counter == 0 && start[1].counter == 1
    ensures OfSwitches(FIRST, ROUNDS) && OfSwitches(FIRST, ROUNDS[..3]) && OfSwitches(FIRST, ROUNDS[..5])
    ensures Risen(FIRST, ROUNDS[..3], 0, 1) == 5 && Risen(FIRST, ROUNDS[..5], 0, 1) == 0 && Risen(FIRST, ROUNDS, 0, 1) == 0
    ensures Prints(TableOf(Refs(start, FIRST, ROUNDS[..3]), 6), 0, 0, 1, v) <==> v == 5
    ensures Prints(TableOf(Refs(start, FIRST, ROUNDS[..5]), 6), 0, 0, 1, v) <==> v == 5
    ensures Prints(TableOf(Refs(start, FIRST, ROUNDS), 6), 0, 0, 1, v) <==> v == 5
  {
    hide Risen, Refs, TableOf, Prints, Stored;
    RoundsRisen();
    assert ROUNDS[..6] == ROUNDS;
    assert Bit(6, 1);
    forall n | n == 3 || n == 5 || n == 6
      ensures OfSwitches(FIRST, ROUNDS[..n]) && (Prints(TableOf(Refs(start, FIRST, ROUNDS[..n]), 6), 0, 0, 1, v) <==> v == 5)
    {
      var log := ROUNDS[..n];
      assert forall m :: 1 <= m <= n ==> log[..m] == ROUNDS[..m];
      PrintsIff(start, FIRST, log, 6, 0, 0, 1, v);
      StoredLast(start[0].ports[1], FIRST, log, 0, 1, 3);
    }
  }

  // ----- what the reports add up to -----

  lemma {:induction false} SteadyTotal(x: seq<nat>, t: nat)
    requires 1 <= t < |x| && forall i :: 0 <= i < |x| - 1 ==> x[i] <= x[i + 1]
    ensures x[0] <= x[t - 1] && Total(x, t) == x[t - 1] - x[0]
  {
    if t == 1 {
      assert Total(x, 0) == 0;
    } else {
      SteadyTotal(x, t - 1);
      assert x[t - 1] <= x[t - 1 + 1];
      assert x[t - 2] <= x[t - 2 + 1];
    }
  }

  datatype Kind = Good | Spike | Dip

  /** Readings that never fall but for single glitches, marked in `g`: a spike is above both
      neighbours and a dip below both, with good readings on either side that do not fall. */
  ghost predicate Glitchy(x: seq<nat>, g: seq<Kind>) {
    && |g| == |x| > 0 && g[0].Good?
    && (forall i :: 1 <= i < |x| && !g[i].Good? ==> g[i - 1].Good?)
    && (forall i :: 1 <= i < |x| && g[i].Spike? ==> x[i - 1] < x[i])
    && (forall i :: 1 <= i < |x| && g[i].Dip? ==> x[i] < x[i - 1])
    && (forall i :: 1 <= i < |x| - 1 && g[i].Spike? ==> x[i - 1] <= x[i + 1] < x[i])
    && (forall i :: 1 <= i < |x| - 1 && g[i].Dip? ==> x[i - 1] <= x[i + 1])
    && (forall i :: 1 <= i < |x| && g[i - 1].Good? && g[i].Good? ==> x[i - 1] <= x[i])
  }

  /** The reading at `t`, or the one before a glitch there. */
  function Genuine(x: seq<nat>, g: seq<Kind>, t: nat): nat
    requires t < |x| == |g| && g[0].Good?
  {
    if g[t].Good? then x[t] else x[t - 1]
  }

  /** What the reports up to update `t` leave out: the rise to a good reading after a spike
      or before a dip. */
  ghost function Lost(x: seq<nat>, g: seq<Kind>, t: nat): nat
    requires t < |x| && Glitchy(x, g)
  {
    if t <= 1 then 0
    else Lost(x, g, t - 1)
         + if g[t - 1].Good? && (g[t - 2].Spike? || g[t].Dip?) then x[t - 1] - Genuine(x, g, t - 2) else 0
  }

  /** What they add: the depth of each dip, unless another dip follows its good reading. */
  ghost function Excess(x: seq<nat>, g: seq<Kind>, t: nat): nat
    requires t < |x| && Glitchy(x, g)
  {
    if t <= 1 then 0
    else Excess(x, g, t - 1) + if g[t - 2].Dip? && !g[t].Dip? then x[t - 3] - x[t - 2] else 0
  }

  /** The reports add up to the true rise, short of what is lost next to glitches and in
      excess by the depths of the dips. */
  lemma {:induction false} GlitchyTotal(x: seq<nat>, g: seq<Kind>, t: nat)
    requires 1 <= t < |x| && Glitchy(x, g)
    ensures Total(x, t) + Lost(x, g, t) + x[0] == Genuine(x, g, t - 1) + Excess(x, g, t)
  {
    if t == 1 {
      assert Total(x, 0) == 0;
    } else {
      GlitchyTotal(x, g, t - 1);
    }
  }

  /** Without dips nothing is added, so the reports never exceed the true rise. */
  lemma {:induction false} SpikyTotal(x: seq<nat>, g: seq<Kind>, t: nat)
    requires 1 <= t < |x| && Glitchy(x, g) && forall i :: 0 <= i < |g| ==> !g[i].Dip?
    ensures Excess(x, g, t) == 0 && Total(x, t) + Lost(x, g, t) + x[0] == Genuine(x, g, t - 1)
  {
    GlitchyTotal(x, g, t);
    NoExcess(x, g, t);
  }

  lemma {:induction false} NoExcess(x: seq<nat>, g: seq<Kind>, t: nat)
    requires t < |x| && Glitchy(x, g) && forall i :: 0 <= i < |g| ==> !g[i].Dip?
    ensures Excess(x, g, t) == 0
  {
    if t > 1 {
      NoExcess(x, g, t - 1);
    }
  }

  /** Exactly when a rise is reported: to a good reading above the one before, which may be a
      dip but not a spike, and not followed by a dip. So no spike is ever reported. */
  lemma SpikesUnreported(x: seq<nat>, g: seq<Kind>, t: nat)
    requires 1 <= t < |x| && Glitchy(x, g)
    ensures Reported(x, t) > 0
            <==> t >= 2 && g[t - 1].Good? && !g[t - 2].Spike? && !g[t].Dip? && x[t - 2] < x[t - 1]
    ensures Reported(x, t) > 0 ==> Reported(x, t) == x[t - 1] - x[t - 2]
  {
  }

  /** A single low reading is not filtered: it shows up two updates later as a rise larger
      than the true one, by its whole depth, exactly when the reading after has not fallen. */
  lemma DipReported(x: seq<nat>, i: nat)
    requires 1 <= i && i + 2 < |x| && x[i] < x[i - 1] <= x[i + 1]
    ensures Reported(x, i + 1) == 0
    ensures Reported(x, i + 2) > x[i + 1] - x[i - 1] <==> x[i + 2] >= x[i + 1]
    ensures x[i + 2] >= x[i + 1] ==>
              Reported(x, i + 2) == (x[i + 1] - x[i - 1]) + (x[i - 1] - x[i])
  {
  }

  /** A counter that stands still, read low once, is reported to have moved. */
  lemma DipExample()
    ensures Reported([10, 0, 10, 10], 3) == 10
  {
  }
}
