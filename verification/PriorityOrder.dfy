/** Spanning-tree priority vectors and bridge identifiers (IEEE 802.1D-2004, sections 9.2.5,
    17.5 and 17.6) and the order the code gives them. */
module PriorityOrder {
  import opened Bits

  type byte = n: nat | n < 256

  type u16 = n: nat | n < 0x1_0000

  // ----- byte strings -----

  /** The sign of the first difference, as the C library compares memory. */
  function MemCmp(a: seq<byte>, b: seq<byte>): int
    requires |a| == |b|
  {
    if a == [] then 0
    else if a[0] != b[0] then (if a[0] < b[0] then -1 else 1)
    else MemCmp(a[1..], b[1..])
  }

  /** Bytes as one number, the first byte most significant. */
  function Number(a: seq<byte>): nat {
    if a == [] then 0 else Number(a[..|a| - 1]) * 256 + a[|a| - 1]
  }

  function Pow256(n: nat): nat {
    if n == 0 then 1 else 256 * Pow256(n - 1)
  }

  lemma {:induction false} NumberFront(a: seq<byte>)
    requires a != []
    ensures Number(a) == a[0] * Pow256(|a| - 1) + Number(a[1..])
    ensures Number(a[1..]) < Pow256(|a| - 1)
  {
    var n := |a| - 1;
    if n == 0 {
      assert a[..n] == [] && a[1..] == [];
    } else {
      NumberFront(a[..n]);
      var p, m := Pow256(n - 1), Number(a[..n][1..]);
      assert a[1..][..n - 1] == a[..n][1..];
      assert Number(a[1..]) == m * 256 + a[n];
      assert Number(a) == Number(a[..n]) * 256 + a[n];
      PowerStep(n);
      hide *;
      Shifted(a[0], p, m, a[n]);
    }
  }

  lemma Shifted(x: nat, p: nat, m: nat, y: nat)
    ensures (x * p + m) * 256 + y == x * (256 * p) + (m * 256 + y)
  {
  }

  lemma PowerStep(n: nat)
    requires n > 0
    ensures Pow256(n) == 256 * Pow256(n - 1)
  {
  }

  /** Memory order is numeric order. */
  lemma {:induction false} MemCmpIsNumeric(a: seq<byte>, b: seq<byte>)
    requires |a| == |b|
    ensures MemCmp(a, b) < 0 <==> Number(a) < Number(b)
    ensures MemCmp(a, b) == 0 <==> Number(a) == Number(b)
    ensures MemCmp(a, b) == 0 <==> a == b
    decreases |a|
  {
    if a != [] {
      NumberFront(a);
      NumberFront(b);
      MemCmpIsNumeric(a[1..], b[1..]);
      LeadingWins(a[0], Number(a[1..]), b[0], Number(b[1..]), Pow256(|a| - 1));
      assert a == [a[0]] + a[1..] && b == [b[0]] + b[1..];
    }
  }

  lemma LeadingWins(x: nat, r: nat, y: nat, s: nat, p: nat)
    requires r < p && s < p
    ensures x * p + r < y * p + s <==> x < y || (x == y && r < s)
    ensures x * p + r == y * p + s <==> x == y && r == s
  {
    if x < y {
      AtLeast(y - x, p);
      assert y * p == x * p + (y - x) * p;
    } else if y < x {
      AtLeast(x - y, p);
      assert x * p == y * p + (x - y) * p;
    }
  }

  // ----- bridge identifiers -----

  type BridgeId = a: seq<byte> | |a| == 8 witness [0, 0, 0, 0, 0, 0, 0, 0]

  type EtherAddr = a: seq<byte> | |a| == 6 witness [0, 0, 0, 0, 0, 0]

  /** Four bits of priority over the local identifier's upper bits, cut to a byte. */
  function FirstByte(priority: u32, localid: u32): byte {
    Or(Shl(And(priority, 0xf), 4), Shr(localid, 8)) % 256
  }

  function SecondByte(localid: u32): byte {
    AndBound(localid, 0xff);
    And(localid, 0xff)
  }

  function NewBridgeId(hw: EtherAddr, priority: u32, localid: u32): BridgeId {
    [FirstByte(priority, localid), SecondByte(localid)] + hw
  }

  function HwAddr(id: BridgeId): EtherAddr {
    id[2..]
  }

  function SixteenBits(priority: u32, localid: u32): nat {
    (priority % 16) * 0x1000 + localid
  }

  /** Two nibbles packed by shift and or. */
  lemma PackedNibbles(p: nat, l: nat)
    requires p < 16 && l < 16
    ensures Or(Shl(p, 4), l) == p * 16 + l < 256
  {
    assert Pow2(4) == 16;
    hide Or;
    OrJoin(p, l, 4);
  }

  lemma FirstByteParts(priority: u32, localid: u32)
    ensures And(priority, 0xf) == priority % 16
    ensures Shr(localid, 8) == localid / 256
  {
    assert Pow2(4) == 16 && Pow2(8) == 256;
    hide And, Shr;
    AndLow(priority, 4);
    ShlShr(localid, 8);
  }

  lemma FirstBytes(priority: u32, localid: u32)
    requires localid < 0x1000
    ensures FirstByte(priority, localid) == (priority % 16) * 16 + localid / 256
  {
    hide And, Or, Shr, Shl;
    FirstByteParts(priority, localid);
    PackedNibbles(priority % 16, localid / 256);
  }

  lemma SecondByteIs(localid: u32)
    ensures SecondByte(localid) == localid % 256
  {
    assert Pow2(8) == 256;
    AndLow(localid, 8);
  }

  lemma TwoBytesAhead(x: byte, y: byte, hw: EtherAddr)
    ensures Number([x, y] + hw) == (x * 256 + y) * Pow256(6) + Number(hw)
    ensures Number(hw) < Pow256(6)
  {
    var id := [x, y] + hw;
    NumberFront(id);
    assert id[1..] == [y] + hw;
    NumberFront([y] + hw);
    assert ([y] + hw)[1..] == hw;
    NumberFront(hw);
    assert Pow256(7) == 256 * Pow256(6);
    var p := Pow256(6);
    assert x * (256 * p) + (y * p + Number(hw)) == (x * 256 + y) * p + Number(hw);
    assert Number(hw) < p by {
      AtLeastNumber(hw);
    }
  }

  lemma {:induction false} AtLeastNumber(a: seq<byte>)
    ensures Number(a) < Pow256(|a|)
  {
    if a != [] {
      AtLeastNumber(a[..|a| - 1]);
    }
  }

  /** With a 12-bit local identifier the bridge identifier is the concatenation of 4 bits of
      priority, the local identifier and the hardware address. */
  lemma BridgeNumber(hw: EtherAddr, priority: u32, localid: u32)
    requires localid < 0x1000
    ensures Number(NewBridgeId(hw, priority, localid)) == SixteenBits(priority, localid) * Pow256(6) + Number(hw)
    ensures HwAddr(NewBridgeId(hw, priority, localid)) == hw
  {
    hide Number, Pow256, FirstByte, SecondByte;
    FirstBytes(priority, localid);
    SecondByteIs(localid);
    var x: nat, y: nat := FirstByte(priority, localid), SecondByte(localid);
    assert x * 256 + y == SixteenBits(priority, localid);
    TwoBytesAhead(x, y, hw);
  }

  /** Identifiers with local identifiers below `bound` compare as (priority, local identifier,
      address), each in turn. */
  ghost predicate OrderKept(bound: nat) {
    forall hw: EtherAddr, priority: u32, localid: u32, hw': EtherAddr, priority': u32, localid': u32 ::
      localid < bound && localid' < bound ==>
        Ordered(hw, priority, localid, hw', priority', localid')
  }

  ghost predicate Ordered(hw: EtherAddr, priority: u32, localid: u32, hw': EtherAddr, priority': u32, localid': u32) {
    MemCmp(NewBridgeId(hw, priority, localid), NewBridgeId(hw', priority', localid')) < 0
    <==> || priority % 16 < priority' % 16
         || (priority % 16 == priority' % 16 && localid < localid')
         || (priority % 16 == priority' % 16 && localid == localid' && MemCmp(hw, hw') < 0)
  }

  lemma TwelveBitsOrdered(hw: EtherAddr, priority: u32, localid: u32, hw': EtherAddr, priority': u32, localid': u32)
    requires localid < 0x1000 && localid' < 0x1000
    ensures Ordered(hw, priority, localid, hw', priority', localid')
  {
    hide NewBridgeId, MemCmp, Number, Pow256;
    BridgeNumber(hw, priority, localid);
    BridgeNumber(hw', priority', localid');
    MemCmpIsNumeric(NewBridgeId(hw, priority, localid), NewBridgeId(hw', priority', localid'));
    MemCmpIsNumeric(hw, hw');
    TwoBytesAhead(0, 0, hw);
    TwoBytesAhead(0, 0, hw');
    LeadingWins(SixteenBits(priority, localid), Number(hw), SixteenBits(priority', localid'), Number(hw'), Pow256(6));
  }

  /** The first two bytes for any local identifier, bit by bit: its sixteen low bits, with the
      four of the priority laid over the top ones. */
  lemma HeadBits(priority: u32, localid: u32, b: nat)
    ensures Bit(FirstByte(priority, localid), b)
            <==> b < 8 && (Bit(localid, b + 8) || (b >= 4 && Bit(priority, b - 4)))
    ensures Bit(SecondByte(localid), b) <==> b < 8 && Bit(localid, b)
  {
    assert Pow2(8) == 256 && Pow2(4) == 16;
    var high := Shl(And(priority, 0xf), 4);
    assert Bit(high, b) <==> b >= 4 && Bit(And(priority, 0xf), b - 4) by {
      BitJoin(And(priority, 0xf), 0, 4, b);
      BitZero(b);
    }
    hide Bit, And, Or, Shr, Shl, Pow2;
    AndLow(priority, 4);
    AndLow(localid, 8);
    if b >= 4 {
      BitMod(priority, 4, b - 4);
    }
    BitMod(localid, 8, b);
    BitShr(localid, 8, b);
    BitOr(high, Shr(localid, 8), b);
    BitMod(Or(high, Shr(localid, 8)), 8, b);
  }

  lemma SpilledByte()
    ensures FirstByte(0, 0x1000) == 16
  {
    assert Pow2(8) == 256;
    ShlShr(0x1000, 8);
    assert Shl(And(0, 0xf), 4) == 0;
    hide Or, Shr;
    OrZeroLeft(16);
  }

  lemma SpilledBytes(hw: EtherAddr)
    ensures NewBridgeId(hw, 0, 0x1000) == [16, 0] + hw
    ensures NewBridgeId(hw, 1, 0) == [16, 0] + hw
  {
    hide FirstByte, SecondByte;
    SpilledByte();
    FirstBytes(1, 0);
    SecondByteIs(0x1000);
    SecondByteIs(0);
  }

  lemma WideLocalIdBreaks(hw: EtherAddr)
    ensures !Ordered(hw, 0, 0x1000, hw, 1, 0)
  {
    SpilledBytes(hw);
    hide NewBridgeId, MemCmp;
    MemCmpIsNumeric([16, 0] + hw, [16, 0] + hw);
  }

  lemma {:induction false} OrZeroLeft(a: nat)
    ensures Or(0, a) == a
  {
    if a != 0 {
      OrZeroLeft(a / 2);
    }
  }

  /** The intended order holds over a range of local identifiers exactly when they have at
      most 12 bits; beyond, they spill into the priority. */
  lemma OrderKeptIff(bound: nat)
    ensures OrderKept(bound) <==> bound <= 0x1000
  {
    hide Ordered;
    if bound <= 0x1000 {
      forall hw: EtherAddr, priority: u32, localid: u32, hw': EtherAddr, priority': u32, localid': u32 |
        localid < bound && localid' < bound
        ensures Ordered(hw, priority, localid, hw', priority', localid')
      {
        TwelveBitsOrdered(hw, priority, localid, hw', priority', localid');
      }
    } else {
      var hw: EtherAddr := [0, 0, 0, 0, 0, 0];
      WideLocalIdBreaks(hw);
      assert !Ordered(hw, 0, 0x1000, hw, 1, 0);
    }
  }

  // ----- priority vectors -----

  datatype PriorityVector = PriorityVector(
    rootBridgeId: BridgeId, rootPathCost: u32, designatedBridgeId: BridgeId, designatedPortId: u16, bridgePortId: u16)
  {
    /** The comparison named `<` in the code; it holds of equal vectors too. */
    predicate NotWorse(b: PriorityVector) {
      || MemCmp(rootBridgeId, b.rootBridgeId) < 0
      || (&& MemCmp(rootBridgeId, b.rootBridgeId) == 0
          && (|| rootPathCost < b.rootPathCost
              || (&& rootPathCost == b.rootPathCost
                  && (|| MemCmp(designatedBridgeId, b.designatedBridgeId) < 0
                      || (&& MemCmp(designatedBridgeId, b.designatedBridgeId) == 0
                          && designatedPortId <= b.designatedPortId)))))
    }

    predicate Same(b: PriorityVector) {
      && MemCmp(rootBridgeId, b.rootBridgeId) == 0
      && rootPathCost == b.rootPathCost
      && MemCmp(designatedBridgeId, b.designatedBridgeId) == 0
      && designatedPortId == b.designatedPortId
    }

    /** The four compared fields side by side as one number. */
    function Key(): nat {
      ((Number(rootBridgeId) * TWO32 + rootPathCost) * Pow256(8) + Number(designatedBridgeId)) * 0x1_0000
      + designatedPortId
    }
  }

  /** The comparison is numeric order on the concatenated fields, equality included. */
  lemma NotWorseIsNumeric(a: PriorityVector, b: PriorityVector)
    ensures a.NotWorse(b) <==> a.Key() <= b.Key()
    ensures a.Same(b) <==> a.Key() == b.Key()
  {
    hide MemCmp, Number, Pow256;
    var p := Pow256(8);
    MemCmpIsNumeric(a.rootBridgeId, b.rootBridgeId);
    MemCmpIsNumeric(a.designatedBridgeId, b.designatedBridgeId);
    AtLeastNumber(a.designatedBridgeId);
    AtLeastNumber(b.designatedBridgeId);
    var x, y := Number(a.rootBridgeId) * TWO32 + a.rootPathCost, Number(b.rootBridgeId) * TWO32 + b.rootPathCost;
    LeadingWins(x, Number(a.designatedBridgeId), y, Number(b.designatedBridgeId), p);
  }

  /** So it is a total preorder, and vectors each not worse than the other are equal to `==`. */
  lemma NotWorseIsTotalPreorder(a: PriorityVector, b: PriorityVector, c: PriorityVector)
    ensures a.NotWorse(a)
    ensures a.NotWorse(b) || b.NotWorse(a)
    ensures a.NotWorse(b) && b.NotWorse(c) ==> a.NotWorse(c)
    ensures a.NotWorse(b) && b.NotWorse(a) <==> a.Same(b)
  {
    hide PriorityVector.NotWorse, PriorityVector.Same, PriorityVector.Key;
    NotWorseIsNumeric(a, a);
    NotWorseIsNumeric(a, b);
    NotWorseIsNumeric(b, a);
    NotWorseIsNumeric(b, c);
    NotWorseIsNumeric(a, c);
  }
}
