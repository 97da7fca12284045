/** How fallbacks end: the outcome, the registers and the attempts made, for every run. */
module BootEnds {
  import opened Bits
  import opened ImageSearch
  import opened Fallback
  import opened BootRuns

  // ----- one attempt -----

  lemma MaskHeld(status: u32)
    ensures And(status, FSBL_FAIL_MASK) == FSBL_FAIL_MASK <==> FailBitsSet(status)
  {
    hide Bit, And, FSBL_FAIL_MASK;
    AndBound(status, FSBL_FAIL_MASK);
    Pow2Values();
    forall b: nat
      ensures Bit(And(status, FSBL_FAIL_MASK), b) <==> Bit(status, b) && 28 <= b < 32
    {
      BitAnd(status, FSBL_FAIL_MASK, b);
      FailMask(b);
    }
    forall b: nat
      ensures Bit(FSBL_FAIL_MASK, b) <==> 28 <= b < 32
    {
      FailMask(b);
    }
    if FailBitsSet(status) {
      SameBits(And(status, FSBL_FAIL_MASK), FSBL_FAIL_MASK, 32);
    }
  }

  /** What the start of a load does: the image is the register's, or on 1.0 silicon the fixed
      one; there a failure mark, if all of it is set, is cleared, and nothing else changes. */
  lemma LoadingParts(cfg: Config, s: State)
    ensures var l := Loading(cfg, s);
            && l.multiBoot == s.multiBoot
            && l.tried == s.tried + [if cfg.silicon1 then cfg.holder else s.multiBoot % 0x2000 * 0x8000]
            && (if cfg.silicon1 && FailBitsSet(s.status) then FailBitsClear(l.status) else l.status == s.status)
            && LowBitsKept(s.status, l.status)
  {
    hide Bit, Slot, And, SetFail, ClearFail;
    MaskHeld(s.status);
    FailMarks(s.status);
    OffsetIs(s.multiBoot);
  }

  ghost predicate LowBitsKept(before: u32, after: u32) {
    forall b: nat :: b < 28 ==> Bit(before, b) == Bit(after, b)
  }

  /** An attempt fails: the load, the hook, or the program handed off to. */
  predicate Fails(a: Attempt) {
    a.load == None || !a.hookOk || a.exitReturns
  }

  /** An attempt ends the run exactly when it does not fail, with a handoff to the address
      loaded. */
  lemma AttemptEnds(cfg: Config, env: Environment, s: State)
    ensures var a, step := env(|s.tried|), Attempted(cfg, env, s);
            && StateOf(step).tried == Loading(cfg, s).tried
            && StateOf(step).multiBoot == s.multiBoot
            && LowBitsKept(s.status, StateOf(step).status)
            && (step.Again? <==> Fails(a))
            && (step.Done? ==> step.outcome.HandedOff? && a.load == Some(step.outcome.address))
  {
    hide Bit, Slot, And, SetFail, ClearFail, Offset;
    LoadingParts(cfg, s);
    FailMarks(Loading(cfg, s).status);
  }

  // ----- one fallback -----

  /** The slot a fallback starts from. */
  function NextSlot(cfg: Config, reg: u32): nat {
    if cfg.silicon1 then reg % 0x2000 else (reg + 1) % 0x2000
  }

  lemma BumpedSlot(cfg: Config, reg: u32)
    ensures Slot(Bumped(cfg, reg)) == Bumped(cfg, reg) % 0x2000 == NextSlot(cfg, reg)
  {
    hide Slot;
    SlotIsLow(reg);
    SlotIsLow(Bumped(cfg, reg));
    LowOfWrapped(reg + 1);
  }

  /** A fallback that ends the run without an attempt: which outcome, and the registers and
      images it leaves. */
  lemma EndsWithoutAttempt(cfg: Config, env: Environment, s: State)
    requires Sound(cfg)
    requires !Searches(cfg) || !Found(cfg.flash, cfg.device.MaxSize(), Bumped(cfg, s.multiBoot))
    ensures var r := Round(cfg, env, s);
            && r.Done? && r.final.tried == s.tried && LowBitsKept(s.status, r.final.status)
            && r.outcome == (if !cfg.device.Other? && !cfg.efuse then Reset else Halted)
            && (if r.outcome == Reset then FailBitsSet(r.final.status) else FailBitsClear(r.final.status))
            && r.final.multiBoot
               == (if cfg.device.Other? || cfg.silicon1 then s.multiBoot else (s.multiBoot + 1) % 0x1_0000_0000)
            && (!cfg.device.Other? ==> r.final.multiBoot % 0x2000 == NextSlot(cfg, s.multiBoot))
  {
    hide Bit, Slot, SetFail, ClearFail, Found, SearchEnds, FailBitsSet, FailBitsClear, NextSlot;
    BumpedSlot(cfg, s.multiBoot);
    FailMarks(s.status);
    FailMarks(SetFail(s.status));
  }

  /** A fallback that makes an attempt makes it at the image the search stopped on, or on 1.0
      silicon at the fixed one. */
  lemma MakesAttempt(cfg: Config, env: Environment, s: State)
    requires Sound(cfg) && Searches(cfg)
    requires Found(cfg.flash, cfg.device.MaxSize(), Bumped(cfg, s.multiBoot))
    ensures var r, a := Round(cfg, env, s), env(|s.tried|);
            var f := StateOf(r);
            && f.multiBoot == StopAt(cfg.flash, cfg.device.MaxSize(), Bumped(cfg, s.multiBoot))
            && f.tried == s.tried + [if cfg.silicon1 then cfg.holder else f.multiBoot % 0x2000 * 0x8000]
            && LowBitsKept(s.status, f.status)
            && (r.Again? <==> Fails(a))
            && (r.Done? ==> r.outcome.HandedOff? && a.load == Some(r.outcome.address))
  {
    hide Bit, Slot, SetFail, ClearFail, Found, StopAt, SearchEnds, Bumped, Attempted, Loading;
    var at := State(StopAt(cfg.flash, cfg.device.MaxSize(), Bumped(cfg, s.multiBoot)), SetFail(s.status), s.tried);
    FailMarks(s.status);
    AttemptEnds(cfg, env, at);
    LoadingParts(cfg, at);
  }

  // ----- whole runs -----

  /** What every run keeps: the low 28 status bits; every image tried, past 1.0 silicon the last
      one the register selects, on 1.0 silicon the fixed one; and an attempt that succeeds is
      the last one and handed off to. */
  ghost predicate Told(cfg: Config, env: Environment, s: State, step: Step) {
    var f, t := StateOf(step), StateOf(step).tried;
    && s.tried <= t && LowBitsKept(s.status, f.status)
    && (forall i :: |s.tried| <= i < |t| ==>
          (Fails(env(i)) <==> !(step.Done? && step.outcome.HandedOff? && i == |t| - 1)))
    && (step.Done? && step.outcome.HandedOff? ==>
          |t| > |s.tried| && env(|t| - 1).load == Some(step.outcome.address))
    && (cfg.silicon1 ==> forall i :: |s.tried| <= i < |t| ==> t[i] == cfg.holder)
    && (step.Again? || step.outcome.HandedOff? ==>
          if |t| == |s.tried| then f.multiBoot == s.multiBoot
          else cfg.silicon1 || f.multiBoot % 0x2000 * 0x8000 == t[|t| - 1])
  }

  lemma {:induction false} RunTold(cfg: Config, env: Environment, s: State, n: nat)
    requires Sound(cfg)
    ensures Told(cfg, env, s, Rounds(cfg, env, s, n))
  {
    hide Round, Told, Bit;
    if n == 0 {
      ToldAtFirst(cfg, env, s);
    } else {
      RunTold(cfg, env, s, n - 1);
      var before := Rounds(cfg, env, s, n - 1);
      if before.Again? {
        ToldNext(cfg, env, s, before.next);
      }
    }
  }

  lemma ToldAtFirst(cfg: Config, env: Environment, s: State)
    ensures Told(cfg, env, s, Again(s))
  {
  }

  lemma ToldNext(cfg: Config, env: Environment, s: State, before: State)
    requires Sound(cfg) && Told(cfg, env, s, Again(before))
    ensures Told(cfg, env, s, Round(cfg, env, before))
  {
    hide Round, Bit, Found, StopAt, Bumped, Fails, SearchEnds, NextSlot, FailBitsClear, FailBitsSet;
    if Searches(cfg) && Found(cfg.flash, cfg.device.MaxSize(), Bumped(cfg, before.multiBoot)) {
      MakesAttempt(cfg, env, before);
    } else {
      EndsWithoutAttempt(cfg, env, before);
    }
  }

  /** A run ends in a reset exactly when the device supports fallback and encryption is not by
      e-fuse; then nothing has been tried, the mark is set for the boot ROM, and the register
      selects the slot after the one it did, or the same one on 1.0 silicon. */
  lemma ResetIff(cfg: Config, env: Environment, s: State, n: nat)
    requires Sound(cfg) && Rounds(cfg, env, s, n).Done?
    ensures var end := Rounds(cfg, env, s, n);
            && (end.outcome == Reset <==> !cfg.device.Other? && !cfg.efuse)
            && (end.outcome == Reset ==>
                  && end.final.tried == s.tried && FailBitsSet(end.final.status)
                  && LowBitsKept(s.status, end.final.status)
                  && end.final.multiBoot == (if cfg.silicon1 then s.multiBoot else (s.multiBoot + 1) % 0x1_0000_0000)
                  && Slot(end.final.multiBoot)
                     == if cfg.silicon1 then Slot(s.multiBoot) else (Slot(s.multiBoot) + 1) % SLOTS)
  {
    hide Bit, Round, Rounds, Found, Slot, SearchEnds, StopAt;
    var last := LastRound(cfg, env, s, n);
    if Searches(cfg) {
      if Found(cfg.flash, cfg.device.MaxSize(), Bumped(cfg, last.multiBoot)) {
        MakesAttempt(cfg, env, last);
      } else {
        EndsWithoutAttempt(cfg, env, last);
      }
    } else {
      NoRound(cfg, env, s);
      EndsWithoutAttempt(cfg, env, s);
      EndsAtOnce(cfg, env, s, n);
      var end := Rounds(cfg, env, s, n);
      SlotIsLow(end.final.multiBoot);
      SlotIsLow(s.multiBoot);
      SlotSum(s.multiBoot, 1);
    }
  }

  lemma {:induction false} EndsAtOnce(cfg: Config, env: Environment, s: State, n: nat)
    requires Sound(cfg) && n > 0 && Round(cfg, env, s).Done?
    ensures Rounds(cfg, env, s, n) == Round(cfg, env, s)
  {
    hide Round;
    OneRound(cfg, env, s);
    if n > 1 {
      EndsAtOnce(cfg, env, s, n - 1);
    }
  }

  /** A run that halts: at once and with the register as it was on a device without fallback, at
      once and one slot on where the system was not initialised, and otherwise one slot on from
      the last image tried, where the search finds nothing more. */
  lemma HaltedAt(cfg: Config, env: Environment, s: State, n: nat)
    requires Sound(cfg) && Rounds(cfg, env, s, n).Done? && Rounds(cfg, env, s, n).outcome == Halted
    ensures var f := Rounds(cfg, env, s, n).final;
            && FailBitsClear(f.status) && LowBitsKept(s.status, f.status)
            && (cfg.device.Other? ==> f.multiBoot == s.multiBoot && f.tried == s.tried)
            && (!Searches(cfg) ==> f.tried == s.tried)
            && (Searches(cfg) ==> !Found(cfg.flash, cfg.device.MaxSize(), f.multiBoot))
            && (!cfg.device.Other? && f.tried == s.tried ==> f.multiBoot % 0x2000 == NextSlot(cfg, s.multiBoot))
            && (!cfg.silicon1 && s.tried < f.tried ==>
                  f.multiBoot % 0x2000 == (f.tried[|f.tried| - 1] / 0x8000 + 1) % 0x2000)
  {
    hide Bit, Round, Rounds, Found, Slot, SearchEnds, StopAt, NextSlot, Told, LowBitsKept, Bumped, FailBitsClear, FailBitsSet;
    var before := BeforeEnd(cfg, env, s, n);
    if Searches(cfg) && Found(cfg.flash, cfg.device.MaxSize(), Bumped(cfg, before.multiBoot)) {
      MakesAttempt(cfg, env, before);
    } else {
      EndsWithoutAttempt(cfg, env, before);
      if !Searches(cfg) {
        NoRound(cfg, env, s);
        EndsWithoutAttempt(cfg, env, s);
        EndsAtOnce(cfg, env, s, n);
      } else {
        NothingFoundAt(cfg, env, before);
      }
      ToldFacts(cfg, env, s, before);
      KeptTwice(s.status, before.status, Rounds(cfg, env, s, n).final.status);
      NextAfter(cfg, before.multiBoot);
    }
  }

  /** The state the last fallback of a run started from. */
  lemma {:induction false} BeforeEnd(cfg: Config, env: Environment, s: State, n: nat) returns (before: State)
    requires Sound(cfg) && Rounds(cfg, env, s, n).Done?
    ensures Round(cfg, env, before) == Rounds(cfg, env, s, n)
    ensures Told(cfg, env, s, Again(before)) && Told(cfg, env, s, Rounds(cfg, env, s, n))
  {
    hide Round, Told;
    RunTold(cfg, env, s, n);
    if Rounds(cfg, env, s, n - 1).Done? {
      before := BeforeEnd(cfg, env, s, n - 1);
    } else {
      RunTold(cfg, env, s, n - 1);
      before := Rounds(cfg, env, s, n - 1).next;
    }
  }

  lemma NothingFoundAt(cfg: Config, env: Environment, s: State)
    requires Sound(cfg) && Searches(cfg)
    requires !Found(cfg.flash, cfg.device.MaxSize(), Bumped(cfg, s.multiBoot))
    ensures Round(cfg, env, s).Done? && Round(cfg, env, s).final.multiBoot == Bumped(cfg, s.multiBoot)
  {
  }

  lemma ToldFacts(cfg: Config, env: Environment, s: State, before: State)
    requires Told(cfg, env, s, Again(before))
    ensures s.tried <= before.tried && LowBitsKept(s.status, before.status)
    ensures before.tried == s.tried ==> before.multiBoot == s.multiBoot
    ensures before.tried != s.tried && !cfg.silicon1 ==>
              before.multiBoot % 0x2000 * 0x8000 == before.tried[|before.tried| - 1]
  {
  }

  lemma NextAfter(cfg: Config, reg: u32)
    ensures !cfg.silicon1 ==> NextSlot(cfg, reg) == (reg % 0x2000 * 0x8000 / 0x8000 + 1) % 0x2000
  {
  }

  lemma KeptTwice(a: u32, b: u32, c: u32)
    requires LowBitsKept(a, b) && LowBitsKept(b, c)
    ensures LowBitsKept(a, c)
  {
    hide Bit;
  }

  /** What a search finds on each device: a NOR flash is searched up to 32 MB, a NAND flash up
      to 128 MB and a QSPI flash up to its size, in steps of 32 KB. */
  lemma FindsOnDevice(cfg: Config, reg: u32)
    requires cfg.device.MaxSize() <= REACH
    ensures var size := match cfg.device
                        case Nor => 32 * 1024 * 1024
                        case Nand => 128 * 1024 * 1024
                        case Qspi(n) => n
                        case Other => 0;
            Found(cfg.flash, cfg.device.MaxSize(), reg)
            <==> exists t: nat :: reg % 0x2000 <= t && t * (32 * 1024) < size && ValidImage(cfg.flash, t * (32 * 1024))
  {
    hide ValidImage, Found, Slot;
    SearchFindsLeast(cfg.flash, cfg.device.MaxSize(), reg);
    SlotIsLow(reg);
    if t: nat :| Candidate(cfg.flash, cfg.device.MaxSize(), reg, t) {
      assert ValidImage(cfg.flash, t * (32 * 1024));
    }
    if t: nat :| reg % 0x2000 <= t && t * (32 * 1024) < cfg.device.MaxSize() && ValidImage(cfg.flash, t * (32 * 1024)) {
      assert Candidate(cfg.flash, cfg.device.MaxSize(), reg, t);
    }
  }
}
