/** The golden-image search of the boot loader and the header check it relies on. */
module ImageSearch {
  import opened Bits

  /** Flash contents: the 32-bit word read at a byte address. */
  type Flash = nat -> u32

  const IMAGE_HEADER_CHECKSUM_COUNT: nat := 10
  const IMAGE_WIDTH_CHECK_OFFSET: nat := 0x20
  const IMAGE_IDENT_OFFSET: nat := 0x24
  const IMAGE_CHECKSUM_OFFSET: nat := 0x48
  const IMAGE_IDENT: u32 := 0x584C_4E58

  const REBOOT_OFFSET_MASK: u32 := 0x1FFF
  const SLOTS: nat := 0x2000
  const GOLDEN_IMAGE_OFFSET: nat := 0x8000

  /** The largest flash whose end the masked register can reach. */
  const REACH: nat := 0x1FFF * 0x8000

  // ----- header checksum -----

  function Sum(words: seq<u32>): nat {
    if words == [] then 0 else Sum(words[..|words| - 1]) + words[|words| - 1]
  }

  function HeaderWords(flash: Flash, offset: nat, n: nat): (r: seq<u32>)
    ensures |r| == n
  {
    if n == 0 then []
    else HeaderWords(flash, offset, n - 1) + [flash(offset + IMAGE_WIDTH_CHECK_OFFSET + 4 * (n - 1))]
  }

  /** The words and the stored checksum add up to all ones. */
  predicate ChecksumHolds(words: seq<u32>, stored: u32) {
    (Sum(words) + stored) % TWO32 == 0xFFFF_FFFF
  }

  predicate HeaderGood(flash: Flash, offset: nat) {
    ChecksumHolds(HeaderWords(flash, offset, IMAGE_HEADER_CHECKSUM_COUNT), flash(offset + IMAGE_CHECKSUM_OFFSET))
  }

  lemma XorOnes(v: u32)
    ensures Xor(v, 0xFFFF_FFFF) == TWO32 - 1 - v
  {
    Pow2Values();
    XorBound(v, 0xFFFF_FFFF, 32);
    forall k: nat | k < 32
      ensures Bit(Xor(v, 0xFFFF_FFFF), k) == Bit(TWO32 - 1 - v, k)
    {
      BitXor(v, 0xFFFF_FFFF, k);
      BitComplement(v, 32, k);
      BitComplement(0, 32, k);
      BitZero(k);
    }
    SameBits(Xor(v, 0xFFFF_FFFF), TWO32 - 1 - v, 32);
  }

  lemma HeaderStep(flash: Flash, offset: nat, n: nat)
    ensures Sum(HeaderWords(flash, offset, 0)) == 0
    ensures Sum(HeaderWords(flash, offset, n + 1))
            == Sum(HeaderWords(flash, offset, n)) + flash(offset + IMAGE_WIDTH_CHECK_OFFSET + n * 4)
  {
    assert HeaderWords(flash, offset, n + 1)[..n] == HeaderWords(flash, offset, n);
  }

  lemma ChecksumTest(flash: Flash, offset: nat, sum: u32)
    requires sum == Sum(HeaderWords(flash, offset, IMAGE_HEADER_CHECKSUM_COUNT)) % TWO32
    ensures flash(offset + IMAGE_CHECKSUM_OFFSET) == TWO32 - 1 - sum <==> HeaderGood(flash, offset)
  {
    hide Sum, HeaderWords;
  }

  method HeaderChecksum(flash: Flash, offset: nat) returns (ok: bool)
    requires offset + IMAGE_CHECKSUM_OFFSET < TWO32
    ensures ok <==> HeaderGood(flash, offset)
  {
    hide Xor, HeaderWords, Sum, HeaderGood;
    HeaderStep(flash, offset, 0);
    var checksum: u32 := 0;
    for count := 0 to IMAGE_HEADER_CHECKSUM_COUNT
      invariant checksum == Sum(HeaderWords(flash, offset, count)) % TWO32
    {
      var word := flash(offset + IMAGE_WIDTH_CHECK_OFFSET + count * 4);
      HeaderStep(flash, offset, count);
      checksum := (checksum + word) % TWO32;
    }
    XorOnes(checksum);
    ChecksumTest(flash, offset, checksum);
    checksum := Xor(checksum, 0xFFFF_FFFF);
    var stored := flash(offset + IMAGE_CHECKSUM_OFFSET);
    return stored == checksum;
  }

  lemma {:induction false} SumUpdate(words: seq<u32>, k: nat, v: u32)
    requires k < |words|
    ensures Sum(words[k := v]) == Sum(words) - words[k] + v
  {
    var n := |words| - 1;
    if k == n {
      assert words[k := v][..n] == words[..n];
    } else {
      assert words[k := v][..n] == words[..n][k := v];
      SumUpdate(words[..n], k, v);
    }
  }

  /** A change to any one word of a header of any length, or to its stored checksum,
      turns a passing header into a failing one. */
  lemma SingleWordDetected(words: seq<u32>, stored: u32, k: nat, v: u32)
    requires k < |words| ==> v != words[k]
    requires k >= |words| ==> v != stored
    requires ChecksumHolds(words, stored)
    ensures if k < |words| then !ChecksumHolds(words[k := v], stored) else !ChecksumHolds(words, v)
  {
    if k < |words| {
      SumUpdate(words, k, v);
    }
  }

  // ----- search -----

  /** The image slot a register value selects. */
  function Slot(reg: u32): nat {
    And(reg, REBOOT_OFFSET_MASK)
  }

  function Offset(reg: u32): nat {
    Slot(reg) * GOLDEN_IMAGE_OFFSET
  }

  /** The register after `k` increments. */
  function Plus(reg: u32, k: nat): u32 {
    (reg + k) % TWO32
  }

  predicate ValidImage(flash: Flash, offset: nat) {
    flash(offset + IMAGE_IDENT_OFFSET) == IMAGE_IDENT && HeaderGood(flash, offset)
  }

  /** The search ends at a register value past the flash or on a valid image. */
  predicate Stops(flash: Flash, size: nat, reg: u32) {
    Offset(reg) >= size || ValidImage(flash, Offset(reg))
  }

  /** The search from `reg` ends after exactly `k` increments. */
  ghost predicate EndsAfter(flash: Flash, size: nat, reg: u32, k: nat) {
    && Stops(flash, size, Plus(reg, k))
    && forall j: nat :: j < k ==> !Stops(flash, size, Plus(reg, j))
  }

  /** The flash ends within the register's reach, or holds an image to be found. */
  ghost predicate SearchEnds(flash: Flash, size: nat) {
    size <= REACH || exists s: nat :: s < SLOTS && ValidImage(flash, s * GOLDEN_IMAGE_OFFSET)
  }

  lemma SlotIsLow(reg: u32)
    ensures Slot(reg) == reg % SLOTS
  {
    Pow2Values();
    AndLow(reg, 13);
  }

  lemma SlotPlus(reg: u32, k: nat)
    ensures Slot(Plus(reg, k)) == (Slot(reg) + k) % SLOTS
  {
    hide Slot;
    SlotIsLow(reg);
    SlotIsLow(Plus(reg, k));
    SlotSum(reg, k);
    LowOfWrapped(reg + k);
  }

  lemma LowOfWrapped(n: nat)
    ensures n % TWO32 % SLOTS == n % SLOTS
  {
    var q, r := n / TWO32, n % TWO32;
    DivUnique(n, SLOTS, q * 0x8_0000 + r / SLOTS, r % SLOTS);
  }

  lemma SlotSum(reg: nat, k: nat)
    ensures (reg % SLOTS + k) % SLOTS == (reg + k) % SLOTS
  {
    var a := reg % SLOTS + k;
    DivUnique(reg + k, SLOTS, reg / SLOTS + a / SLOTS, a % SLOTS);
  }

  /** Counting up from `reg` reaches every slot. */
  lemma Reaches(reg: u32, s: nat) returns (k: nat)
    requires s < SLOTS
    ensures Slot(Plus(reg, k)) == s && k < SLOTS
    ensures k == if Slot(reg) <= s then s - Slot(reg) else s + SLOTS - Slot(reg)
  {
    hide Slot, Plus;
    SlotIsLow(reg);
    k := if Slot(reg) <= s then s - Slot(reg) else s + SLOTS - Slot(reg);
    SlotPlus(reg, k);
    DivUnique(Slot(reg) + k, SLOTS, if Slot(reg) <= s then 0 else 1, s);
  }

  lemma {:induction false} LeastStop(flash: Flash, size: nat, reg: u32, n: nat) returns (k: nat)
    requires Stops(flash, size, Plus(reg, n))
    ensures EndsAfter(flash, size, reg, k) && k <= n
  {
    hide Stops, Plus;
    if m: nat :| m < n && Stops(flash, size, Plus(reg, m)) {
      k := LeastStop(flash, size, reg, m);
    } else {
      k := n;
    }
  }

  /** The search ends, from any register value, exactly when the flash ends within reach or
      some slot holds a valid image. */
  lemma SearchEndsIff(flash: Flash, size: nat, reg: u32)
    ensures (exists k: nat :: EndsAfter(flash, size, reg, k)) <==> SearchEnds(flash, size)
  {
    if SearchEnds(flash, size) {
      var s := if size <= REACH then SLOTS - 1
               else var s: nat :| s < SLOTS && ValidImage(flash, s * GOLDEN_IMAGE_OFFSET); s;
      var n := Reaches(reg, s);
      var k := LeastStop(flash, size, reg, n);
    }
    forall k: nat | EndsAfter(flash, size, reg, k)
      ensures SearchEnds(flash, size)
    {
      StopNeedsEnd(flash, size, Plus(reg, k));
    }
  }

  lemma StopNeedsEnd(flash: Flash, size: nat, reg: u32)
    requires Stops(flash, size, reg)
    ensures SearchEnds(flash, size)
  {
    SlotIsLow(reg);
    hide ValidImage, Slot;
    if size > REACH {
      assert Slot(reg) < SLOTS && ValidImage(flash, Slot(reg) * GOLDEN_IMAGE_OFFSET);
    }
  }

  ghost function Steps(flash: Flash, size: nat, reg: u32): (k: nat)
    requires SearchEnds(flash, size)
    ensures EndsAfter(flash, size, reg, k)
  {
    SearchEndsIff(flash, size, reg);
    var k: nat :| EndsAfter(flash, size, reg, k);
    k
  }

  lemma EndsOnce(flash: Flash, size: nat, reg: u32, j: nat, k: nat)
    requires EndsAfter(flash, size, reg, j) && EndsAfter(flash, size, reg, k)
    ensures j == k
  {
  }

  /** The register value the search stops at. */
  ghost function StopAt(flash: Flash, size: nat, reg: u32): u32
    requires SearchEnds(flash, size)
  {
    Plus(reg, Steps(flash, size, reg))
  }

  ghost predicate Found(flash: Flash, size: nat, reg: u32)
    requires SearchEnds(flash, size)
  {
    Offset(StopAt(flash, size, reg)) < size
  }

  /** With the flash end in reach, the search succeeds exactly when a slot from the current
      one up holds a valid image, and stops on the least such slot. */
  lemma SearchFindsLeast(flash: Flash, size: nat, reg: u32)
    requires size <= REACH
    ensures Found(flash, size, reg)
            <==> exists s: nat :: Candidate(flash, size, reg, s)
    ensures Found(flash, size, reg) ==>
              && Candidate(flash, size, reg, Slot(StopAt(flash, size, reg)))
              && forall s: nat :: Candidate(flash, size, reg, s) ==> Slot(StopAt(flash, size, reg)) <= s
  {
    hide Slot, Plus, ValidImage, Steps;
    var k, s0, at := Steps(flash, size, reg), Slot(reg), StopAt(flash, size, reg);
    assert Slot(at) == s0 + k by {
      SlotIsLow(reg);
      StepsStayInRange(flash, size, reg);
      SlotPlus(reg, k);
    }
    if Found(flash, size, reg) {
      assert Candidate(flash, size, reg, s0 + k);
    }
    forall s: nat | Candidate(flash, size, reg, s)
      ensures s0 + k <= s
    {
      CandidateStops(flash, size, reg, s);
    }
  }

  /** The whole register at the stop: the slot found, and the bits above the field as they were. */
  lemma StopKeepsRest(flash: Flash, size: nat, reg: u32)
    requires size <= REACH
    ensures StopAt(flash, size, reg) == reg - reg % 0x2000 + Slot(StopAt(flash, size, reg))
  {
    hide Slot, Steps, ValidImage;
    var k, r := Steps(flash, size, reg), reg % 0x2000;
    StepsStayInRange(flash, size, reg);
    SlotIsLow(reg);
    NoCarry(reg, k);
    SlotIsLow(StopAt(flash, size, reg));
    DivUnique(reg + k, 0x2000, reg / 0x2000, r + k);
  }

  lemma NoCarry(reg: u32, k: nat)
    requires reg % 0x2000 + k < 0x2000
    ensures Plus(reg, k) == reg + k
  {
  }

  lemma CandidateStops(flash: Flash, size: nat, reg: u32, s: nat)
    requires size <= REACH && Candidate(flash, size, reg, s)
    ensures Steps(flash, size, reg) <= s - Slot(reg)
  {
    hide ValidImage, Slot, Steps, Plus;
    SlotIsLow(reg);
    SlotPlus(reg, s - Slot(reg));
    assert Stops(flash, size, Plus(reg, s - Slot(reg)));
  }

  ghost predicate Candidate(flash: Flash, size: nat, reg: u32, s: nat) {
    Slot(reg) <= s && s * GOLDEN_IMAGE_OFFSET < size && ValidImage(flash, s * GOLDEN_IMAGE_OFFSET)
  }

  lemma StepsStayInRange(flash: Flash, size: nat, reg: u32)
    requires size <= REACH
    ensures Slot(reg) + Steps(flash, size, reg) < SLOTS
  {
    hide ValidImage, Slot, Steps, Plus;
    SlotIsLow(reg);
    var j := SLOTS - 1 - Slot(reg);
    SlotPlus(reg, j);
    assert Stops(flash, size, Plus(reg, j));
  }

  /** How many increments take the register to slot `s`, round the field if need be. */
  function Distance(reg: u32, s: nat): nat
    requires s < SLOTS
  {
    SlotIsLow(reg);
    if Slot(reg) <= s then s - Slot(reg) else s + SLOTS - Slot(reg)
  }

  /** With a flash that outreaches the register, the search always succeeds if it ends, and
      stops on the first valid slot met going up from the current one and round. */
  lemma SearchWrapsRound(flash: Flash, size: nat, reg: u32)
    requires size > REACH && SearchEnds(flash, size)
    ensures Found(flash, size, reg)
    ensures var at := Slot(StopAt(flash, size, reg));
            && at < SLOTS && ValidImage(flash, at * GOLDEN_IMAGE_OFFSET)
            && forall s: nat :: s < SLOTS && ValidImage(flash, s * GOLDEN_IMAGE_OFFSET) ==>
                 Distance(reg, at) <= Distance(reg, s)
  {
    hide ValidImage, Slot, Plus, Steps;
    var k, stop := Steps(flash, size, reg), StopAt(flash, size, reg);
    SlotIsLow(stop);
    var at := Slot(stop);
    forall s: nat | s < SLOTS && ValidImage(flash, s * GOLDEN_IMAGE_OFFSET)
      ensures k <= Distance(reg, s)
    {
      var n := Reaches(reg, s);
      assert Stops(flash, size, Plus(reg, n));
    }
    assert at == (Slot(reg) + k) % SLOTS by { SlotPlus(reg, k); }
    SlotIsLow(reg);
    assert k <= Distance(reg, at) < SLOTS;
  }

  /** Past the register's reach and without a valid image, the search never ends. */
  lemma SearchNeverEnds(flash: Flash, size: nat, reg: u32, k: nat)
    requires size > REACH
    requires forall s: nat :: s < SLOTS ==> !ValidImage(flash, s * GOLDEN_IMAGE_OFFSET)
    ensures !EndsAfter(flash, size, reg, k)
  {
    hide ValidImage, Slot, Plus;
    SlotIsLow(Plus(reg, k));
  }

  function Erased(address: nat): u32 {
    0xFFFF_FFFF
  }

  /** A pair of erased 1 Gbit QSPI parts is such a flash. */
  lemma ErasedDualFlash(reg: u32, k: nat)
    ensures !EndsAfter(Erased, 0x1000_0000, reg, k)
  {
    SearchNeverEnds(Erased, 0x1000_0000, reg, k);
  }

  // ----- which flash words are read -----

  /** An image is valid exactly when the word at 0x24 identifies it and the ten words from 0x20
      on and the one at 0x48 sum to all ones modulo 2^32. */
  lemma ValidImageIff(flash: Flash, o: nat)
    ensures ValidImage(flash, o)
            <==> && flash(o + 0x24) == 0x584C_4E58
                 && (flash(o + 0x20) + flash(o + 0x24) + flash(o + 0x28) + flash(o + 0x2C) + flash(o + 0x30)
                     + flash(o + 0x34) + flash(o + 0x38) + flash(o + 0x3C) + flash(o + 0x40) + flash(o + 0x44)
                     + flash(o + 0x48)) % 0x1_0000_0000 == 0xFFFF_FFFF
  {
    hide Sum, HeaderWords;
    HeaderStep(flash, o, 0);
    HeaderStep(flash, o, 1);
    HeaderStep(flash, o, 2);
    HeaderStep(flash, o, 3);
    HeaderStep(flash, o, 4);
    HeaderStep(flash, o, 5);
    HeaderStep(flash, o, 6);
    HeaderStep(flash, o, 7);
    HeaderStep(flash, o, 8);
    HeaderStep(flash, o, 9);
  }

  /** So a change of one flash word leaves a valid image valid exactly when it is not one of
      these eleven. */
  lemma OneWordChanged(flash: Flash, changed: Flash, o: nat, at: nat)
    requires ValidImage(flash, o)
    requires forall a: nat :: changed(a) != flash(a) <==> a == at
    ensures ValidImage(changed, o)
            <==> !(o + 0x20 <= at <= o + 0x44 && (at - o) % 4 == 0) && at != o + 0x48
  {
    hide ValidImage;
    ValidImageIff(flash, o);
    ValidImageIff(changed, o);
  }

  /** The flash offset a register value selects. */
  lemma OffsetIs(reg: u32)
    ensures Offset(reg) == reg % 0x2000 * 0x8000
  {
    SlotIsLow(reg);
  }
}
