/** The boot loader's fallback: increment the multiboot register, search, load, hand off,
    and fall back again on any failure. */
module Fallback {
  import opened Bits
  import opened ImageSearch

  datatype Option<T> = None | Some(value: T)

  datatype Device = Qspi(flashSize: u32) | Nand | Nor | Other {
    function MaxSize(): u32 {
      match this case Qspi(n) => n case Nand => 0x800_0000 case Nor => 0x200_0000 case Other => 0
    }
  }

  /** What is fixed for a run. `holder` is the image address 1.0 silicon always loads from. */
  datatype Config = Config(device: Device, silicon1: bool, efuse: bool, initDone: bool, flash: Flash, holder: u32)

  /** What one attempt at an image meets: the load gives an execution address or fails, the
      handoff hook succeeds or not, the loaded code returns or not. */
  datatype Attempt = Attempt(load: Option<u32>, hookOk: bool, exitReturns: bool)

  type Environment = nat -> Attempt

  datatype Outcome = Halted | Reset | HandedOff(address: u32)

  /** The registers, and the flash offsets of the images loaded so far. */
  datatype State = State(multiBoot: u32, status: u32, tried: seq<nat>)

  datatype Step = Done(outcome: Outcome, final: State) | Again(next: State)

  const FSBL_FAIL_MASK: u32 := 0xF000_0000

  function SetFail(status: u32): (r: u32)
  {
    Pow2Values();
    OrBound(status, FSBL_FAIL_MASK, 32);
    Or(status, FSBL_FAIL_MASK)
  }

  function ClearFail(status: u32): (r: u32)
  {
    AndBound(status, Not32(FSBL_FAIL_MASK));
    And(status, Not32(FSBL_FAIL_MASK))
  }

  ghost predicate FailBitsSet(status: u32) {
    forall b: nat :: 28 <= b < 32 ==> Bit(status, b)
  }

  ghost predicate FailBitsClear(status: u32) {
    forall b: nat :: 28 <= b < 32 ==> !Bit(status, b)
  }

  lemma FailMask(b: nat)
    ensures Bit(FSBL_FAIL_MASK, b) <==> 28 <= b < 32
  {
    assert Pow2(28) == 0x1000_0000 by {
      Pow2Values();
      assert Pow2(25) == 0x200_0000;
    }
    BitJoin(15, 0, 28, b);
    BitZero(b);
    if b >= 28 {
      BitComplement(0, 4, b - 28);
      BitZero(b - 28);
    }
  }

  lemma FailMarks(status: u32)
    ensures FailBitsSet(SetFail(status)) && FailBitsClear(ClearFail(status))
    ensures forall b: nat :: b < 28 ==> Bit(SetFail(status), b) == Bit(ClearFail(status), b) == Bit(status, b)
  {
    hide Bit, And, Or;
    forall b: nat | b < 32
      ensures Bit(SetFail(status), b) <==> Bit(status, b) || 28 <= b
      ensures Bit(ClearFail(status), b) <==> Bit(status, b) && b < 28
    {
      BitOr(status, FSBL_FAIL_MASK, b);
      BitAnd(status, Not32(FSBL_FAIL_MASK), b);
      Pow2Values();
      BitComplement(FSBL_FAIL_MASK, 32, b);
      FailMask(b);
    }
  }

  /** The fallback comes to searching for images. */
  ghost predicate Searches(cfg: Config) {
    !cfg.device.Other? && cfg.efuse && cfg.initDone
  }

  /** Whenever the fallback searches, the search ends. */
  ghost predicate Sound(cfg: Config) {
    Searches(cfg) ==> SearchEnds(cfg.flash, cfg.device.MaxSize())
  }

  /** The register the search starts from. */
  function Bumped(cfg: Config, reg: u32): u32 {
    if cfg.silicon1 then reg else Plus(reg, 1)
  }

  /** Start of a load: the image address is noted; 1.0 silicon clears an earlier failure mark. */
  function Loading(cfg: Config, s: State): State {
    State(s.multiBoot,
          if cfg.silicon1 && And(s.status, FSBL_FAIL_MASK) == FSBL_FAIL_MASK then ClearFail(s.status) else s.status,
          s.tried + [if cfg.silicon1 then cfg.holder else Offset(s.multiBoot)])
  }

  function HandoffStep(env: Environment, s: State, address: u32): Step
    requires s.tried != []
  {
    var a := env(|s.tried| - 1);
    if !a.hookOk then Again(s)
    else
      var cleared := s.(status := ClearFail(s.status));
      if a.exitReturns then Again(cleared) else Done(HandedOff(address), cleared)
  }

  /** Load the selected image and hand off to it. */
  function Attempted(cfg: Config, env: Environment, s: State): Step {
    var loading := Loading(cfg, s);
    match env(|s.tried|).load
    case None => Again(loading)
    case Some(address) => HandoffStep(env, loading, address)
  }

  /** One call of the fallback, up to the next. */
  ghost function Round(cfg: Config, env: Environment, s: State): Step
    requires Sound(cfg)
  {
    if cfg.device.Other? then Done(Halted, s.(status := ClearFail(s.status)))
    else
      var reg := Bumped(cfg, s.multiBoot);
      var failed := State(reg, SetFail(s.status), s.tried);
      if !cfg.efuse then Done(Reset, failed)
      else if !cfg.initDone || !Found(cfg.flash, cfg.device.MaxSize(), reg) then
        Done(Halted, failed.(status := ClearFail(failed.status)))
      else
        Attempted(cfg, env, failed.(multiBoot := StopAt(cfg.flash, cfg.device.MaxSize(), reg)))
  }

  /** `n` calls of the fallback in a row, or fewer when the run ends. */
  ghost function Rounds(cfg: Config, env: Environment, s: State, n: nat): Step
    requires Sound(cfg)
  {
    if n == 0 then Again(s)
    else match Rounds(cfg, env, s, n - 1)
         case Done(o, final) => Done(o, final)
         case Again(next) => Round(cfg, env, next)
  }

  /** The run from the next fallback on comes to an end: each search does, and after some
      number of fallbacks no further one is made. */
  ghost predicate RunEnds(cfg: Config, env: Environment, s: State) {
    Sound(cfg) && exists n: nat :: Rounds(cfg, env, s, n).Done?
  }

  /** The run takes exactly `n` fallbacks. */
  ghost predicate DoneAfter(cfg: Config, env: Environment, s: State, n: nat)
    requires Sound(cfg)
  {
    Rounds(cfg, env, s, n).Done? && forall j: nat :: j < n ==> Rounds(cfg, env, s, j).Again?
  }

  lemma {:induction false} FirstDone(cfg: Config, env: Environment, s: State, n: nat)
    requires Sound(cfg) && Rounds(cfg, env, s, n).Done?
    ensures exists k: nat :: DoneAfter(cfg, env, s, k)
  {
    hide Rounds;
    if m: nat :| m < n && Rounds(cfg, env, s, m).Done? {
      FirstDone(cfg, env, s, m);
    } else {
      assert DoneAfter(cfg, env, s, n);
    }
  }

  /** The number of fallbacks in a run that ends. */
  ghost function RunLength(cfg: Config, env: Environment, s: State): (n: nat)
    requires RunEnds(cfg, env, s)
    ensures DoneAfter(cfg, env, s, n)
  {
    var m: nat :| Rounds(cfg, env, s, m).Done?;
    FirstDone(cfg, env, s, m);
    var k: nat :| DoneAfter(cfg, env, s, k);
    k
  }

  ghost predicate StepEnds(cfg: Config, env: Environment, step: Step) {
    Sound(cfg) && (step.Again? ==> RunEnds(cfg, env, step.next))
  }

  /** The number of fallbacks still to come after a step. */
  ghost function Rest(cfg: Config, env: Environment, step: Step): nat {
    if step.Again? && RunEnds(cfg, env, step.next) then RunLength(cfg, env, step.next) else 0
  }

  lemma RunShrinks(cfg: Config, env: Environment, s: State)
    requires RunEnds(cfg, env, s)
    ensures StepEnds(cfg, env, Round(cfg, env, s))
    ensures Rest(cfg, env, Round(cfg, env, s)) < RunLength(cfg, env, s)
  {
    hide Round;
    var n := RunLength(cfg, env, s);
    assert Rounds(cfg, env, s, 0).Again?;
    if Round(cfg, env, s).Again? {
      RoundsAppend(cfg, env, s, n - 1);
    }
  }

  // ----- the loader -----

  class Fsbl {
    const cfg: Config
    const env: Environment
    var multiBoot: u32
    var status: u32
    var tried: seq<nat>

    ghost function Now(): State
      reads this
    {
      State(multiBoot, status, tried)
    }

    constructor (cfg: Config, env: Environment, multiBoot: u32, status: u32)
      ensures this.cfg == cfg && this.env == env && Now() == State(multiBoot, status, [])
    {
      this.cfg, this.env := cfg, env;
      this.multiBoot, this.status, tried := multiBoot, status, [];
    }

    method ImageCheckID(offset: nat) returns (ok: bool)
      ensures ok <==> cfg.flash(offset + IMAGE_IDENT_OFFSET) == IMAGE_IDENT
    {
      return cfg.flash(offset + IMAGE_IDENT_OFFSET) == IMAGE_IDENT;
    }

    method UpdateMultiBootRegister()
      modifies this`multiBoot
      ensures Slot(multiBoot) == if cfg.silicon1 then Slot(old(multiBoot)) else Up(Slot(old(multiBoot)), SLOTS)
      ensures multiBoot == if cfg.silicon1 then old(multiBoot) else (old(multiBoot) + 1) % TWO32
      ensures multiBoot == Bumped(cfg, old(multiBoot))
    {
      hide Slot;
      SlotAfter(multiBoot);
      if !cfg.silicon1 {
        multiBoot := (multiBoot + 1) % TWO32;
      }
    }

    method NextValidImageCheck() returns (found: bool)
      requires SearchEnds(cfg.flash, cfg.device.MaxSize())
      modifies this`multiBoot
      ensures found <==> Found(cfg.flash, cfg.device.MaxSize(), old(multiBoot))
      ensures multiBoot == if found then StopAt(cfg.flash, cfg.device.MaxSize(), old(multiBoot)) else old(multiBoot)
    {
      hide HeaderGood, ValidImage, Slot, Offset, Steps, Plus, And, EndsAfter, StopAt, Found, SearchEnds;
      var size := cfg.device.MaxSize();
      var reg := multiBoot;
      ghost var start, k := reg, 0;
      SearchStep(start, 0);
      while And(reg, REBOOT_OFFSET_MASK) * GOLDEN_IMAGE_OFFSET < size
        invariant multiBoot == start
        invariant k <= Steps(cfg.flash, size, start) && reg == Plus(start, k)
        decreases Steps(cfg.flash, size, start) - k
      {
        SlotOf(reg);
        var offset := And(reg, REBOOT_OFFSET_MASK) * GOLDEN_IMAGE_OFFSET;
        var ok := ImageCheckID(offset);
        if ok {
          ok := HeaderChecksum(cfg.flash, offset);
        }
        ImageTest(cfg.flash, offset);
        SearchProgress(cfg.flash, size, start, k);
        if ok {
          multiBoot := reg;
          return true;
        }
        SearchStep(start, k);
        k := k + 1;
        reg := (reg + 1) % TWO32;
      }
      SlotOf(reg);
      SearchProgress(cfg.flash, size, start, k);
      return false;
    }

    method ClearFsblIn()
      modifies this`status
      ensures FailBitsClear(status)
      ensures forall b: nat :: b < 28 ==> Bit(status, b) == Bit(old(status), b)
      ensures status == ClearFail(old(status))
    {
      FailMarks(status);
      status := ClearFail(status);
    }

    /** Runs to the end of the boot; `n` counts the fallbacks made. */
    method FsblFallback() returns (o: Outcome, ghost n: nat)
      requires RunEnds(cfg, env, Now())
      modifies this
      ensures Rounds(cfg, env, old(Now()), n) == Done(o, Now())
      decreases RunLength(cfg, env, Now()), 0
    {
      hide Rounds, RunEnds, RunLength, StopAt, Found, SetFail, ClearFail, Offset, SearchEnds, Bumped, Attempted;
      ghost var s := Now();
      EndsSoundly(cfg, env, s);
      OneRound(cfg, env, s);
      RunShrinks(cfg, env, s);
      if cfg.device.Other? {
        ClearFsblIn();
        return Halted, 1;
      }
      UpdateMultiBootRegister();
      status := SetFail(status);
      if !cfg.efuse {
        return Reset, 1;
      }
      if !cfg.initDone {
        ClearFsblIn();
        return Halted, 1;
      }
      var found := NextValidImageCheck();
      if !found {
        ClearFsblIn();
        return Halted, 1;
      }
      o, n := LoadAndHandOff();
      if Round(cfg, env, s).Again? {
        RoundsAppend(cfg, env, s, n);
        n := n + 1;
      } else {
        n := 1;
      }
    }

    method LoadBootImage() returns (ended: Option<Outcome>, address: u32, ghost n: nat)
      requires StepEnds(cfg, env, Attempted(cfg, env, Now()))
      modifies this
      ensures var loading := Loading(cfg, old(Now()));
              match env(|old(tried)|).load
              case None => ended.Some? && Rounds(cfg, env, loading, n) == Done(ended.value, Now())
              case Some(a) => ended.None? && address == a && Now() == loading
      decreases Rest(cfg, env, Attempted(cfg, env, Now())), 1
    {
      hide Rounds, RunEnds, RunLength, SetFail, ClearFail, Offset;
      ended, address, n := None, 0, 0;
      var offset := if cfg.silicon1 then cfg.holder else Offset(multiBoot);
      if cfg.silicon1 && And(status, FSBL_FAIL_MASK) == FSBL_FAIL_MASK {
        status := ClearFail(status);
      }
      tried := tried + [offset];
      match env(|tried| - 1).load {
        case None =>
          var o;
          o, n := FsblFallback();
          ended := Some(o);
        case Some(a) =>
          address := a;
      }
    }

    method FsblHandoff(address: u32) returns (o: Outcome, ghost n: nat)
      requires tried != [] && StepEnds(cfg, env, HandoffStep(env, Now(), address))
      modifies this
      ensures match HandoffStep(env, old(Now()), address)
              case Done(o', final) => o == o' && Now() == final
              case Again(next) => Rounds(cfg, env, next, n) == Done(o, Now())
      decreases Rest(cfg, env, HandoffStep(env, Now(), address)), 1
    {
      hide Rounds, RunEnds, RunLength, SetFail, ClearFail;
      var a := env(|tried| - 1);
      n := 0;
      if !a.hookOk {
        o, n := FsblFallback();
        return;
      }
      ClearFsblIn();
      if !a.exitReturns {
        return HandedOff(address), 0;
      }
      o, n := FsblFallback();
    }

    /** The last two steps of the main program and of a fallback. */
    method LoadAndHandOff() returns (o: Outcome, ghost n: nat)
      requires StepEnds(cfg, env, Attempted(cfg, env, Now()))
      modifies this
      ensures match Attempted(cfg, env, old(Now()))
              case Done(o', final) => o == o' && Now() == final
              case Again(next) => Rounds(cfg, env, next, n) == Done(o, Now())
      decreases Rest(cfg, env, Attempted(cfg, env, Now())), 2
    {
      hide Rounds, RunEnds, RunLength, SetFail, ClearFail, Loading;
      LoadingTries(cfg, Now());
      var ended, address;
      ended, address, n := LoadBootImage();
      if ended.Some? {
        return ended.value, n;
      }
      o, n := FsblHandoff(address);
    }
  }

  lemma LoadingTries(cfg: Config, s: State)
    ensures |Loading(cfg, s).tried| == |s.tried| + 1
    ensures Loading(cfg, s).multiBoot == s.multiBoot
  {
  }

  lemma SlotAfter(reg: u32)
    ensures Slot(Plus(reg, 1)) == Up(Slot(reg), SLOTS)
  {
    hide Slot;
    SlotPlus(reg, 1);
    SlotIsLow(reg);
  }

  lemma EndsSoundly(cfg: Config, env: Environment, s: State)
    requires RunEnds(cfg, env, s)
    ensures Sound(cfg)
  {
  }

  lemma SlotOf(reg: u32)
    ensures And(reg, REBOOT_OFFSET_MASK) == Slot(reg) < SLOTS
    ensures And(reg, REBOOT_OFFSET_MASK) * GOLDEN_IMAGE_OFFSET == Offset(reg)
  {
    SlotIsLow(reg);
  }

  lemma ImageTest(flash: Flash, offset: nat)
    ensures ValidImage(flash, offset)
            <==> flash(offset + IMAGE_IDENT_OFFSET) == IMAGE_IDENT && HeaderGood(flash, offset)
  {
  }

  /** A search that has not yet passed its stop is at it or has further to go. */
  lemma SearchProgress(flash: Flash, size: nat, reg: u32, k: nat)
    requires SearchEnds(flash, size) && k <= Steps(flash, size, reg)
    ensures Stops(flash, size, Plus(reg, k)) ==>
              && StopAt(flash, size, reg) == Plus(reg, k)
              && (Found(flash, size, reg) <==> Offset(Plus(reg, k)) < size)
    ensures !Stops(flash, size, Plus(reg, k)) ==> k < Steps(flash, size, reg)
  {
    hide Stops, Plus, Offset, Steps;
    var n := Steps(flash, size, reg);
  }

  lemma SearchStep(reg: u32, k: nat)
    ensures Plus(reg, 0) == reg
    ensures (Plus(reg, k) + 1) % TWO32 == Plus(reg, k + 1)
  {
  }

  lemma OneRound(cfg: Config, env: Environment, s: State)
    requires Sound(cfg)
    ensures Rounds(cfg, env, s, 1) == Round(cfg, env, s)
  {
    assert Rounds(cfg, env, s, 0) == Again(s);
  }

  /** A run of rounds after a first one. */
  lemma {:induction false} RoundsAppend(cfg: Config, env: Environment, s: State, n: nat)
    requires Sound(cfg) && Round(cfg, env, s).Again?
    ensures Rounds(cfg, env, s, n + 1) == Rounds(cfg, env, Round(cfg, env, s).next, n)
  {
    hide Round;
    if n == 0 {
      OneRound(cfg, env, s);
    } else {
      RoundsAppend(cfg, env, s, n - 1);
    }
  }
}
