/** Forwarding masks of the switch: the port cycle of a scan, cut-through classes, and the
    snake that threads traffic through a list of ports. */
module Switch {
  import opened Bits

  const MAX_PORT: nat := 24
  const ALL_PORTS: u32 := 0x1FF_FFFF

  // ----- scan -----

  function MaskOf(ports: seq<nat>): nat {
    if ports == [] then 0 else Or(MaskOf(ports[..|ports| - 1]), Pow2(ports[|ports| - 1]))
  }

  /** The position of the first occurrence of `p`. */
  function IndexOf(ports: seq<nat>, p: nat): (i: nat)
    requires p in ports
    ensures i < |ports| && ports[i] == p && p !in ports[..i]
  {
    if ports[0] == p then 0
    else
      var i := 1 + IndexOf(ports[1..], p);
      assert ports[..i] == [ports[0]] + ports[1..][..i - 1];
      i
  }

  /** The mask a scan gives port `k`: its successor in the list, or all the unlisted ports. */
  function ScanMask(ports: seq<nat>, k: nat): nat {
    if k in ports then Pow2(ports[Up(IndexOf(ports, k), |ports|)])
    else Xor(ALL_PORTS, MaskOf(ports))
  }

  lemma {:induction false} MaskBits(ports: seq<nat>, b: nat)
    ensures Bit(MaskOf(ports), b) <==> b in ports
  {
    if ports == [] {
      BitZero(b);
    } else {
      var n := |ports| - 1;
      MaskBits(ports[..n], b);
      BitOr(MaskOf(ports[..n]), Pow2(ports[n]), b);
      BitPow2(ports[n], b);
      assert ports == ports[..n] + [ports[n]];
    }
  }

  lemma AllPortsBits(b: nat)
    ensures Bit(ALL_PORTS, b) <==> b <= MAX_PORT
  {
    Pow2Values();
    BitComplement(0, 25, b);
    BitZero(b);
  }

  /** A listed port forwards to its successor only, an unlisted one to exactly the unlisted;
      listed numbers above the last port leave their bits set in the rows of the unlisted. */
  lemma ScanBits(ports: seq<nat>, k: nat, b: nat)
    ensures Bit(ScanMask(ports, k), b)
            <==> if k in ports then b == ports[Up(IndexOf(ports, k), |ports|)]
                 else (b <= MAX_PORT) != (b in ports)
  {
    if k in ports {
      BitPow2(ports[Up(IndexOf(ports, k), |ports|)], b);
    } else {
      BitXor(ALL_PORTS, MaskOf(ports), b);
      AllPortsBits(b);
      MaskBits(ports, b);
    }
  }

  method Z2Scan(cfg: array<nat>, ports: seq<nat>)
    requires cfg.Length == MAX_PORT + 1
    requires forall i :: 0 <= i < |ports| ==> ports[i] <= 30
    modifies cfg
    ensures forall k :: 0 <= k <= MAX_PORT ==> cfg[k] == ScanMask(ports, k) < TWO32
  {
    hide Or, Xor, Pow2;
    var mask := 0;
    for i := 0 to |ports|
      invariant mask == MaskOf(ports[..i])
    {
      assert ports[..i + 1][..i] == ports[..i];
      mask := Or(mask, Pow2(ports[i]));
    }
    assert ports[..|ports|] == ports;
    for k := 0 to MAX_PORT + 1
      invariant forall j :: 0 <= j < k ==> cfg[j] == ScanMask(ports, j)
    {
      MaskBits(ports, k);
      var m := Xor(ALL_PORTS, mask);
      if Bit(mask, k) {
        var i := 0;
        while ports[i] != k
          invariant i <= IndexOf(ports, k)
          decreases |ports| - i
        {
          i := i + 1;
        }
        m := Pow2(ports[if i + 1 == |ports| then 0 else i + 1]);
      }
      cfg[k] := m;
    }
    forall k | 0 <= k <= MAX_PORT
      ensures ScanMask(ports, k) < TWO32
    {
      ScanFits(ports, k);
    }
  }

  lemma {:induction false} MaskFits(ports: seq<nat>)
    requires forall i :: 0 <= i < |ports| ==> ports[i] <= 30
    ensures MaskOf(ports) < Pow2(32)
  {
    hide Or, Pow2;
    if ports != [] {
      var n := |ports| - 1;
      MaskFits(ports[..n]);
      Pow2Strict(ports[n], 32);
      OrBound(MaskOf(ports[..n]), Pow2(ports[n]), 32);
    }
  }

  lemma ScanFits(ports: seq<nat>, k: nat)
    requires forall i :: 0 <= i < |ports| ==> ports[i] <= 30
    ensures ScanMask(ports, k) < TWO32
  {
    Pow2Values();
    hide Xor, Pow2, MaskOf;
    if k in ports {
      Pow2Strict(ports[Up(IndexOf(ports, k), |ports|)], 32);
    } else {
      MaskFits(ports);
      XorBound(ALL_PORTS, MaskOf(ports), 32);
    }
  }

  // ----- reachability -----

  /** The forwarding masks a scan leaves. */
  function Scanned(ports: seq<nat>): (cfg: seq<nat>)
    ensures |cfg| == MAX_PORT + 1
  {
    seq(MAX_PORT + 1, k requires 0 <= k <= MAX_PORT => ScanMask(ports, k))
  }

  predicate Forwards(cfg: seq<nat>, a: nat, b: nat) {
    a < |cfg| && b < |cfg| && Bit(cfg[a], b)
  }

  /** Some way of `n` hops leads from `a` to `b`. */
  ghost predicate Hops(cfg: seq<nat>, a: nat, b: nat, n: nat)
    decreases n
  {
    if n == 0 then a == b
    else exists c: nat :: Forwards(cfg, a, c) && Hops(cfg, c, b, n - 1)
  }

  ghost predicate Distinct(ports: seq<nat>) {
    forall i, j :: 0 <= i < j < |ports| ==> ports[i] != ports[j]
  }

  lemma NextInCycle(ports: seq<nat>, i: nat, c: nat)
    requires Distinct(ports) && i < |ports|
    requires forall k :: 0 <= k < |ports| ==> ports[k] <= MAX_PORT
    ensures Forwards(Scanned(ports), ports[i], c) <==> c == ports[Up(i, |ports|)]
  {
    assert IndexOf(ports, ports[i]) == i;
    if c <= MAX_PORT {
      ScanBits(ports, ports[i], c);
    }
  }

  /** The listed ports form one cycle: `j` hops from the i-th lead to the (i+j)-th, counted
      round the list, and nowhere else. */
  lemma {:induction false} ScanIsCycle(ports: seq<nat>, i: nat, j: nat, b: nat)
    requires Distinct(ports) && i < |ports|
    requires forall k :: 0 <= k < |ports| ==> ports[k] <= MAX_PORT
    ensures Hops(Scanned(ports), ports[i], b, j) <==> b == ports[(i + j) % |ports|]
    decreases j
  {
    hide Scanned, Forwards;
    var n := |ports|;
    if j == 0 {
      DivUnique(i, n, 0, i);
    } else {
      var next := Up(i, n);
      forall c: nat
        ensures Forwards(Scanned(ports), ports[i], c) <==> c == ports[next]
      {
        NextInCycle(ports, i, c);
      }
      assert Forwards(Scanned(ports), ports[i], ports[next]);
      ScanIsCycle(ports, next, j - 1, b);
      WrapIndex(i, j, n);
    }
  }

  /** Distinct ports form such a cycle if and only if the switch has them all: a row is written
      for the ports up to the last one only, so the cycle is cut at any higher number. */
  lemma {:induction false} ScanIsCycleIff(ports: seq<nat>)
    requires Distinct(ports)
    ensures (forall i: nat, j: nat, b: nat :: i < |ports| ==>
               (Hops(Scanned(ports), ports[i], b, j) <==> b == ports[(i + j) % |ports|]))
            <==> forall k :: 0 <= k < |ports| ==> ports[k] <= MAX_PORT
  {
    hide Scanned;
    if forall k :: 0 <= k < |ports| ==> ports[k] <= MAX_PORT {
      forall i: nat, j: nat, b: nat | i < |ports|
        ensures Hops(Scanned(ports), ports[i], b, j) <==> b == ports[(i + j) % |ports|]
      {
        ScanIsCycle(ports, i, j, b);
      }
    } else {
      var i :| 0 <= i < |ports| && ports[i] > MAX_PORT;
      assert !Hops(Scanned(ports), ports[i], ports[(i + 1) % |ports|], 1);
    }
  }

  lemma WrapIndex(i: nat, j: nat, n: nat)
    requires i < n && j > 0
    ensures (Up(i, n) + (j - 1)) % n == (i + j) % n
  {
    if i + 1 == n {
      DivUnique(i + j, n, 1 + (j - 1) / n, (j - 1) % n);
    }
  }

  lemma OneSide(ports: seq<nat>, a: nat, b: nat)
    requires Forwards(Scanned(ports), a, b)
    ensures a in ports <==> b in ports
  {
    ScanBits(ports, a, b);
  }

  /** The scan splits the switch: no number of hops leads from a listed port to an unlisted
      one or back, whatever the list. */
  lemma {:induction false} ScanSeparates(ports: seq<nat>, a: nat, b: nat, n: nat)
    requires Hops(Scanned(ports), a, b, n)
    ensures a in ports <==> b in ports
    decreases n
  {
    hide Scanned, Forwards;
    if n > 0 {
      var c: nat :| Forwards(Scanned(ports), a, c) && Hops(Scanned(ports), c, b, n - 1);
      OneSide(ports, a, c);
      ScanSeparates(ports, c, b, n - 1);
    }
  }

  // ----- cut-through -----

  const PORTS: nat := 24

  /** The ports of speed class `c` among the first `n`, each at the bit above its number. */
  function ClassMask(ds: seq<nat>, c: nat, n: nat): nat
    requires n <= |ds|
  {
    if n == 0 then 0
    else if ds[n - 1] == c then Or(ClassMask(ds, c, n - 1), Pow2(n))
    else ClassMask(ds, c, n - 1)
  }

  lemma {:induction false} ClassBits(ds: seq<nat>, c: nat, n: nat, b: nat)
    requires n <= |ds|
    ensures Bit(ClassMask(ds, c, n), b) <==> 1 <= b <= n && ds[b - 1] == c
  {
    if n == 0 {
      BitZero(b);
    } else {
      ClassBits(ds, c, n - 1, b);
      BitOr(ClassMask(ds, c, n - 1), Pow2(n), b);
      BitPow2(n, b);
    }
  }

  lemma {:induction false} ClassFits(ds: seq<nat>, c: nat, n: nat)
    requires n <= |ds| && n < 32
    ensures ClassMask(ds, c, n) < TWO32
  {
    Pow2Values();
    if n > 0 {
      ClassFits(ds, c, n - 1);
      Pow2Strict(n, 32);
      OrBound(ClassMask(ds, c, n - 1), Pow2(n), 32);
    }
  }

  /** Set the store-and-forward rows: a frame is cut through between ports of one class. */
  method CutThru(saf: array<u32>, ds: seq<nat>, state: u32)
    requires saf.Length == PORTS + 1 && |ds| == PORTS
    requires forall k :: 0 <= k < PORTS ==> ds[k] < 4
    modifies saf
    ensures saf[0] == old(saf[0])
    ensures forall k :: 0 <= k < PORTS ==>
              saf[k + 1] == if state != 0 then SafRow(ds, k) else 0xFFFF_FFFF
  {
    hide Or, Pow2, ClassMask;
    if state != 0 {
      var classes := new u32[4](_ => 0);
      ClassStart(ds);
      for k := 0 to PORTS
        invariant saf[..] == old(saf[..])
        invariant forall c :: 0 <= c < 4 ==> classes[c] == ClassMask(ds, c, k)
      {
        ClassStep(ds, k);
        classes[ds[k]] := Or(classes[ds[k]], Pow2(k + 1));
      }
      for k := 0 to PORTS
        invariant saf[0] == old(saf[0])
        invariant forall c :: 0 <= c < 4 ==> classes[c] == ClassMask(ds, c, PORTS)
        invariant forall j :: 0 <= j < k ==> saf[j + 1] == SafRow(ds, j)
      {
        saf[k + 1] := Not32(classes[ds[k]]);
      }
    } else {
      for k := 0 to PORTS
        invariant saf[0] == old(saf[0])
        invariant forall r :: 1 <= r <= k ==> saf[r] == 0xFFFF_FFFF
      {
        saf[k + 1] := 0xFFFF_FFFF;
      }
    }
  }

  lemma ClassStart(ds: seq<nat>)
    ensures forall c :: ClassMask(ds, c, 0) == 0
  {
  }

  lemma ClassStep(ds: seq<nat>, k: nat)
    requires k < |ds| && k + 1 < 32
    ensures forall c :: ClassMask(ds, c, k + 1)
                     == (if ds[k] == c then Or(ClassMask(ds, c, k), Pow2(k + 1)) else ClassMask(ds, c, k))
                     < TWO32
  {
    hide Or, Pow2;
    var n := k + 1;
    forall c
      ensures ClassMask(ds, c, n) < TWO32
    {
      ClassFits(ds, c, n);
    }
  }

  function SafRow(ds: seq<nat>, k: nat): u32
    requires k < |ds| == PORTS
  {
    ClassFits(ds, ds[k], PORTS);
    Not32(ClassMask(ds, ds[k], PORTS))
  }

  /** Frames from port `j` to port `k` are cut through. */
  predicate CutThrough(ds: seq<nat>, j: nat, k: nat)
    requires j < |ds| == PORTS && k < PORTS
  {
    !Bit(SafRow(ds, k), j + 1)
  }

  /** The row bit of two ports is clear exactly when they are of one speed class. */
  lemma CutThroughIffSameClass(ds: seq<nat>, j: nat, k: nat)
    requires j < |ds| == PORTS && k < PORTS
    ensures CutThrough(ds, j, k) <==> ds[j] == ds[k]
  {
    Pow2Values();
    ClassFits(ds, ds[k], PORTS);
    BitComplement(ClassMask(ds, ds[k], PORTS), 32, j + 1);
    ClassBits(ds, ds[k], PORTS, j + 1);
  }

  /** Every bit of a row: those of the ports say whether they are of another class, and the
      CPU bit and those above the last port are set. */
  lemma SafRowBits(ds: seq<nat>, k: nat, b: nat)
    requires k < |ds| == PORTS
    ensures Bit(SafRow(ds, k), b) <==> b < 32 && (b == 0 || b > PORTS || ds[b - 1] != ds[k])
  {
    Pow2Values();
    ClassFits(ds, ds[k], PORTS);
    BitComplement(ClassMask(ds, ds[k], PORTS), 32, b);
    ClassBits(ds, ds[k], PORTS, b);
  }

  lemma CutThroughIsEquivalence(ds: seq<nat>, i: nat, j: nat, k: nat)
    requires i < |ds| == PORTS && j < PORTS && k < PORTS
    ensures CutThrough(ds, i, i)
    ensures CutThrough(ds, i, j) ==> CutThrough(ds, j, i)
    ensures CutThrough(ds, i, j) && CutThrough(ds, j, k) ==> CutThrough(ds, i, k)
  {
    hide CutThrough;
    CutThroughIffSameClass(ds, i, i);
    CutThroughIffSameClass(ds, i, j);
    CutThroughIffSameClass(ds, j, i);
    CutThroughIffSameClass(ds, j, k);
    CutThroughIffSameClass(ds, i, k);
  }

  // ----- snake -----

  const AUX_REGISTER: nat := 0x18

  /** The registers a snake through `ports` has set when its first `n` links are made. */
  function Snake(cfg: seq<nat>, ports: seq<nat>, n: nat): (r: seq<nat>)
    requires |cfg| == MAX_PORT + 1 && n < |ports|
    requires forall i :: 0 <= i < |ports| ==> ports[i] < MAX_PORT
    ensures |r| == |cfg|
  {
    if n == 0 then cfg[AUX_REGISTER := Or(Pow2(ports[0] + 1), 1)]
    else Snake(cfg, ports, n - 1)[ports[n - 1] + 1 := Pow2(ports[n] + 1)]
  }

  ghost predicate Linked(ports: seq<nat>, n: nat, reg: nat)
    requires n <= |ports|
  {
    reg == AUX_REGISTER || exists i :: 0 <= i < n && reg == ports[i] + 1
  }

  /** The registers after a snake of `n` links is disabled. */
  ghost function Unsnake(cfg: seq<nat>, ports: seq<nat>, n: nat): (r: seq<nat>)
    requires n <= |ports|
    ensures |r| == |cfg|
  {
    seq(|cfg|, reg requires 0 <= reg < |cfg| => if Linked(ports, n, reg) then ALL_PORTS else cfg[reg])
  }

  class SnakeConsole {
    const cfg: array<nat>
    var ports: seq<nat>
    var links: nat

    ghost predicate Valid()
      reads this
    {
      && cfg.Length == MAX_PORT + 1 && links <= |ports|
      && forall i :: 0 <= i < |ports| ==> ports[i] < MAX_PORT
    }

    constructor (cfg: array<nat>)
      requires cfg.Length == MAX_PORT + 1
      ensures Valid() && this.cfg == cfg && links == 0
    {
      this.cfg := cfg;
      ports, links := [], 0;
    }

    method Enable(args: seq<nat>)
      requires Valid() && forall i :: 0 <= i < |args| ==> args[i] < MAX_PORT
      modifies this, cfg
      ensures Valid() && ports == args && links == if args == [] then 0 else |args| - 1
      ensures cfg[..] == if args == [] then old(cfg[..]) else Snake(old(cfg[..]), args, |args| - 1)
    {
      hide Or, Pow2;
      ports, links := args, |args|;
      if links == 0 { return; }
      links := links - 1;
      cfg[AUX_REGISTER] := Or(Pow2(ports[0] + 1), 1);
      for k := 0 to links
        invariant Valid() && ports == args && links == |args| - 1
        invariant cfg[..] == Snake(old(cfg[..]), args, k)
      {
        cfg[ports[k] + 1] := Pow2(ports[k + 1] + 1);
      }
    }

    method Disable()
      requires Valid()
      modifies this, cfg
      ensures Valid() && ports == old(ports) && links == 0
      ensures cfg[..] == Unsnake(old(cfg[..]), ports, old(links))
    {
      cfg[AUX_REGISTER] := ALL_PORTS;
      for k := 0 to links
        invariant Valid() && ports == old(ports) && links == old(links)
        invariant forall reg :: 0 <= reg <= MAX_PORT ==>
                    cfg[reg] == if Linked(ports, k, reg) then ALL_PORTS else old(cfg[reg])
      {
        cfg[ports[k] + 1] := ALL_PORTS;
      }
      links := 0;
    }
  }

  /** A snake sets only the registers that disabling it resets. */
  lemma {:induction false} SnakeFrame(cfg: seq<nat>, ports: seq<nat>, n: nat, reg: nat)
    requires |cfg| == MAX_PORT + 1 && n < |ports| && reg <= MAX_PORT
    requires forall i :: 0 <= i < |ports| ==> ports[i] < MAX_PORT
    requires !Linked(ports, n, reg)
    ensures Snake(cfg, ports, n)[reg] == cfg[reg]
  {
    hide Or, Pow2;
    if n > 0 {
      assert reg != ports[n - 1] + 1;
      SnakeFrame(cfg, ports, n - 1, reg);
    }
  }

  /** Disabling a snake opens the ports it linked and its entry port to all, whatever they
      were before, and leaves every other register as it was before the snake. */
  lemma SnakeDisabled(cfg: seq<nat>, ports: seq<nat>, n: nat, reg: nat)
    requires |cfg| == MAX_PORT + 1 && n < |ports| && reg <= MAX_PORT
    requires forall i :: 0 <= i < |ports| ==> ports[i] < MAX_PORT
    ensures Unsnake(Snake(cfg, ports, n), ports, n)[reg]
            == if reg == 0x18 || (exists i :: 0 <= i < n && ports[i] == reg - 1) then 0x1FF_FFFF else cfg[reg]
  {
    hide Snake;
    if !Linked(ports, n, reg) {
      SnakeFrame(cfg, ports, n, reg);
    }
  }

  /** Disabling a snake laid over open ports leaves every port as open as before. */
  lemma SnakeUndone(cfg: seq<nat>, ports: seq<nat>, n: nat)
    requires |cfg| == MAX_PORT + 1 && n < |ports|
    requires forall i :: 0 <= i < |ports| ==> ports[i] < MAX_PORT
    requires forall reg :: 0 <= reg <= MAX_PORT ==> cfg[reg] == ALL_PORTS
    ensures Unsnake(Snake(cfg, ports, n), ports, n) == cfg
  {
    hide Snake, Unsnake;
    forall reg | 0 <= reg <= MAX_PORT
      ensures Unsnake(Snake(cfg, ports, n), ports, n)[reg] == cfg[reg]
    {
      SnakeDisabled(cfg, ports, n, reg);
    }
  }

  /** Along a snake each port sends to the one after its last place among the linked ones
      alone, and the entry port, unless it is linked itself, to the first port and the host. */
  lemma {:induction false} SnakeLink(cfg: seq<nat>, ports: seq<nat>, n: nat, i: nat, b: nat)
    requires |cfg| == MAX_PORT + 1 && n < |ports|
    requires forall k :: 0 <= k < |ports| ==> ports[k] < MAX_PORT
    ensures i < n && (forall k :: i < k < n ==> ports[k] != ports[i]) ==>
              (Bit(Snake(cfg, ports, n)[ports[i] + 1], b) <==> b == ports[i + 1] + 1)
    ensures (forall k :: 0 <= k < n ==> ports[k] + 1 != AUX_REGISTER) ==>
              (Bit(Snake(cfg, ports, n)[AUX_REGISTER], b) <==> b == ports[0] + 1 || b == 0)
  {
    hide Or;
    if n == 0 {
      SnakeEntry(cfg, ports, b);
    } else {
      SnakeLink(cfg, ports, n - 1, i, b);
    }
    BitPow2(ports[n] + 1, b);
  }

  lemma SnakeEntry(cfg: seq<nat>, ports: seq<nat>, b: nat)
    requires |cfg| == MAX_PORT + 1 && ports != []
    requires forall k :: 0 <= k < |ports| ==> ports[k] < MAX_PORT
    ensures Bit(Snake(cfg, ports, 0)[AUX_REGISTER], b) <==> b == ports[0] + 1 || b == 0
  {
    BitOr(Pow2(ports[0] + 1), 1, b);
    BitPow2(ports[0] + 1, b);
    BitPow2(0, b);
  }
}
