/** Properties of whole boots: which images a run tries, whether it ends, and how. */
module BootRuns {
  import opened Bits
  import opened ImageSearch
  import opened Fallback

  function StateOf(step: Step): State {
    match step case Done(_, final) => final case Again(next) => next
  }

  ghost predicate Ascending(t: seq<nat>) {
    forall i, j :: 0 <= i < j < |t| ==> t[i] < t[j]
  }

  /** The images tried since `s`: valid ones, at ever higher offsets, all above the one
      selected in `s` unless that was the last slot of all. */
  ghost predicate TriedUpwards(cfg: Config, s: State, t: seq<nat>) {
    && Ascending(t)
    && (forall i :: 0 <= i < |t| ==> ValidImage(cfg.flash, t[i]) && t[i] < cfg.device.MaxSize())
    && (Slot(s.multiBoot) < SLOTS - 1 ==> forall i :: 0 <= i < |t| ==> Offset(s.multiBoot) < t[i])
  }

  /** Retries are bounded: silicon past 1.0, and the flash within the register's reach. */
  predicate Bounded(cfg: Config) {
    !cfg.silicon1 && cfg.device.MaxSize() <= REACH
  }

  /** The number of valid images from slot `s` up to the end of the flash. */
  function Images(flash: Flash, size: nat, s: nat): nat
    decreases SLOTS - s
  {
    if s >= SLOTS || s * GOLDEN_IMAGE_OFFSET >= size then 0
    else Images(flash, size, s + 1) + if ValidImage(flash, s * GOLDEN_IMAGE_OFFSET) then 1 else 0
  }

  /** The number of valid images a fallback from this register value can still come to. */
  function ImagesLeft(cfg: Config, reg: u32): nat {
    Images(cfg.flash, cfg.device.MaxSize(), Up(Slot(reg), SLOTS))
  }

  lemma {:induction false} ImagesSkip(flash: Flash, size: nat, s: nat, t: nat)
    requires s <= t < SLOTS && t * GOLDEN_IMAGE_OFFSET < size
    requires forall i: nat :: s <= i < t ==> !ValidImage(flash, i * GOLDEN_IMAGE_OFFSET)
    ensures Images(flash, size, s) == Images(flash, size, t)
    decreases t - s
  {
    hide ValidImage;
    if s < t {
      ImagesSkip(flash, size, s + 1, t);
    }
  }

  lemma {:induction false} NoImages(flash: Flash, size: nat, s: nat)
    requires forall i: nat :: s <= i && i * GOLDEN_IMAGE_OFFSET < size ==> !ValidImage(flash, i * GOLDEN_IMAGE_OFFSET)
    ensures Images(flash, size, s) == 0
    decreases SLOTS - s
  {
    hide ValidImage;
    if s < SLOTS {
      NoImages(flash, size, s + 1);
    }
  }

  /** A fallback finds an image exactly when one is left, a valid one further up, and leaves
      one fewer. */
  lemma SearchTakesOne(cfg: Config, reg: u32)
    requires Bounded(cfg)
    ensures Found(cfg.flash, cfg.device.MaxSize(), Plus(reg, 1)) <==> ImagesLeft(cfg, reg) > 0
    ensures Found(cfg.flash, cfg.device.MaxSize(), Plus(reg, 1)) ==>
              var at := StopAt(cfg.flash, cfg.device.MaxSize(), Plus(reg, 1));
              && ImagesLeft(cfg, at) == ImagesLeft(cfg, reg) - 1
              && Slot(at) < SLOTS - 1
              && (Slot(reg) < SLOTS - 1 ==> Slot(reg) < Slot(at))
              && ValidImage(cfg.flash, Offset(at)) && Offset(at) < cfg.device.MaxSize()
  {
    hide Slot, Plus, ValidImage, StopAt, Found;
    var flash, size, first := cfg.flash, cfg.device.MaxSize(), Plus(reg, 1);
    SearchFindsLeast(flash, size, first);
    SlotAfter(reg);
    SlotIsLow(reg);
    SlotIsLow(first);
    if Found(flash, size, first) {
      var at := Slot(StopAt(flash, size, first));
      forall i: nat | Slot(first) <= i < at
        ensures !ValidImage(flash, i * GOLDEN_IMAGE_OFFSET)
      {
        assert !Candidate(flash, size, first, i);
      }
      ImagesSkip(flash, size, Slot(first), at);
    } else {
      forall i: nat | Slot(first) <= i && i * GOLDEN_IMAGE_OFFSET < size
        ensures !ValidImage(flash, i * GOLDEN_IMAGE_OFFSET)
      {
        assert !Candidate(flash, size, first, i);
      }
      NoImages(flash, size, Slot(first));
    }
  }

  /** A round tries at most one image, the next valid one upwards, and ends the run unless it
      tried one. */
  lemma RoundTries(cfg: Config, env: Environment, s: State)
    requires Searches(cfg) && Bounded(cfg)
    ensures var r := Round(cfg, env, s);
            && (r.Again? || StateOf(r).tried != s.tried ==>
                  && StateOf(r).tried == s.tried + [Offset(StateOf(r).multiBoot)]
                  && Slot(StateOf(r).multiBoot) < SLOTS - 1
                  && (Slot(s.multiBoot) < SLOTS - 1 ==> Slot(s.multiBoot) < Slot(StateOf(r).multiBoot))
                  && ValidImage(cfg.flash, Offset(StateOf(r).multiBoot))
                  && Offset(StateOf(r).multiBoot) < cfg.device.MaxSize())
            && (r.Again? ==> ImagesLeft(cfg, r.next.multiBoot) == ImagesLeft(cfg, s.multiBoot) - 1)
            && (ImagesLeft(cfg, s.multiBoot) == 0 ==> r.Done?)
  {
    hide Slot, ValidImage, SetFail, ClearFail, StopAt, Found, ImagesLeft;
    SearchTakesOne(cfg, s.multiBoot);
  }

  /** What holds at every point of a run since `s`: the images tried go upwards, and the
      register selects the last of them. */
  ghost predicate Upwards(cfg: Config, s: State, step: Step) {
    && s.tried <= StateOf(step).tried
    && TriedUpwards(cfg, s, StateOf(step).tried[|s.tried|..])
    && (step.Again? ==>
          var t := StateOf(step).tried[|s.tried|..];
          if t == [] then step.next == s else Offset(step.next.multiBoot) == t[|t| - 1])
  }

  lemma TriedMore(cfg: Config, s: State, t: seq<nat>, at: nat)
    requires TriedUpwards(cfg, s, t) && ValidImage(cfg.flash, at) && at < cfg.device.MaxSize()
    requires t != [] ==> t[|t| - 1] < at
    requires t == [] && Slot(s.multiBoot) < SLOTS - 1 ==> Offset(s.multiBoot) < at
    ensures TriedUpwards(cfg, s, t + [at])
  {
    hide Slot, Offset, ValidImage;
  }

  lemma OneMoreTried(cfg: Config, s: State, before: State, last: State)
    requires Bounded(cfg) && Upwards(cfg, s, Again(before))
    requires last.tried == before.tried + [Offset(last.multiBoot)]
    requires Slot(before.multiBoot) < SLOTS - 1 ==> Slot(before.multiBoot) < Slot(last.multiBoot)
    requires ValidImage(cfg.flash, Offset(last.multiBoot)) && Offset(last.multiBoot) < cfg.device.MaxSize()
    ensures Upwards(cfg, s, Again(last)) && forall o :: Upwards(cfg, s, Done(o, last))
  {
    var t := before.tried[|s.tried|..];
    assert last.tried[|s.tried|..] == t + [Offset(last.multiBoot)];
    assert t != [] ==> t[|t| - 1] < REACH;
    hide Slot, ValidImage, TriedUpwards;
    TriedMore(cfg, s, t, Offset(last.multiBoot));
  }

  lemma NoneMoreTried(cfg: Config, s: State, before: State, last: State)
    requires Upwards(cfg, s, Again(before)) && last.tried == before.tried
    ensures forall o :: Upwards(cfg, s, Done(o, last))
  {
    hide TriedUpwards;
  }

  /** On silicon past 1.0, over any number of fallbacks and in any environment, the images
      tried are valid and strictly ascending, so none is tried twice. */
  lemma {:induction false} FallbackTriesUpwards(cfg: Config, env: Environment, s: State, n: nat)
    requires Searches(cfg) && Bounded(cfg)
    ensures Upwards(cfg, s, Rounds(cfg, env, s, n))
  {
    hide Slot, Offset, ValidImage, Round, Upwards;
    if n == 0 {
      NothingTried(cfg, s);
    } else {
      FallbackTriesUpwards(cfg, env, s, n - 1);
      var before := Rounds(cfg, env, s, n - 1);
      if before.Again? {
        RoundTries(cfg, env, before.next);
        var last := StateOf(Round(cfg, env, before.next));
        if last.tried != before.next.tried {
          OneMoreTried(cfg, s, before.next, last);
        } else {
          NoneMoreTried(cfg, s, before.next, last);
        }
      }
    }
  }

  lemma NothingTried(cfg: Config, s: State)
    ensures Upwards(cfg, s, Again(s))
  {
    assert s.tried[|s.tried|..] == [];
  }

  /** Every attempt fails: the load, the hook, or the program handed off to. */
  ghost predicate AllFail(env: Environment) {
    forall k: nat :: env(k).load == None || !env(k).hookOk || env(k).exitReturns
  }

  lemma FailingRound(cfg: Config, env: Environment, s: State)
    requires Searches(cfg) && Bounded(cfg) && AllFail(env)
    ensures Round(cfg, env, s).Again? <==> ImagesLeft(cfg, s.multiBoot) > 0
  {
    hide Slot, ValidImage, SetFail, ClearFail, StopAt, Found, ImagesLeft;
    SearchTakesOne(cfg, s.multiBoot);
  }

  /** Such a run ends with at most one fallback more than there are valid images left to try,
      and with exactly that many when every attempt fails: none is passed over. */
  lemma {:induction false} BoundedRunEnds(cfg: Config, env: Environment, s: State) returns (n: nat)
    requires Searches(cfg) && Bounded(cfg)
    ensures DoneAfter(cfg, env, s, n)
    ensures n <= ImagesLeft(cfg, s.multiBoot) + 1
    ensures AllFail(env) ==> n == ImagesLeft(cfg, s.multiBoot) + 1
    decreases ImagesLeft(cfg, s.multiBoot)
  {
    hide Slot, ValidImage, Round, ImagesLeft, Rounds, AllFail;
    OneRound(cfg, env, s);
    NoRound(cfg, env, s);
    RoundTries(cfg, env, s);
    if AllFail(env) {
      FailingRound(cfg, env, s);
    }
    if Round(cfg, env, s).Done? {
      n := 1;
    } else {
      var next := Round(cfg, env, s).next;
      n := BoundedRunEnds(cfg, env, next);
      forall j: nat | j < n + 1
        ensures Rounds(cfg, env, s, j).Again?
      {
        if j > 0 {
          RoundsAppend(cfg, env, s, j - 1);
        }
      }
      RoundsAppend(cfg, env, s, n);
      n := n + 1;
    }
  }

  lemma NoRound(cfg: Config, env: Environment, s: State)
    requires Sound(cfg)
    ensures Rounds(cfg, env, s, 0) == Again(s)
  {
  }

  // ----- exactly when a run is bound to end -----

  function NothingLoads(k: nat): Attempt {
    Attempt(None, false, false)
  }

  ghost predicate FindsNext(cfg: Config, s: State)
    requires Searches(cfg) && Sound(cfg)
  {
    Found(cfg.flash, cfg.device.MaxSize(), Bumped(cfg, s.multiBoot))
  }

  lemma FoundAgain(cfg: Config, reg: u32)
    requires Searches(cfg) && Sound(cfg) && !Bounded(cfg)
    requires Found(cfg.flash, cfg.device.MaxSize(), reg)
    ensures Found(cfg.flash, cfg.device.MaxSize(),
                  Bumped(cfg, StopAt(cfg.flash, cfg.device.MaxSize(), reg)))
  {
    hide ValidImage, Slot, Plus, Steps, SearchEnds;
    var size := cfg.device.MaxSize();
    var at := StopAt(cfg.flash, size, reg);
    if cfg.silicon1 {
      SearchStep(at, 0);
      EndsOnce(cfg.flash, size, at, 0, Steps(cfg.flash, size, at));
    } else {
      SlotIsLow(StopAt(cfg.flash, size, Bumped(cfg, at)));
    }
  }

  lemma RetryRound(cfg: Config, s: State)
    requires Searches(cfg) && Sound(cfg) && !Bounded(cfg) && FindsNext(cfg, s)
    ensures Round(cfg, NothingLoads, s).Again?
    ensures FindsNext(cfg, Round(cfg, NothingLoads, s).next)
  {
    hide Found, StopAt, Bumped, SearchEnds, SetFail, ClearFail, Offset;
    FoundAgain(cfg, Bumped(cfg, s.multiBoot));
  }

  /** Where retries are not bounded, an image found once is retried for as long as no load
      succeeds. */
  lemma {:induction false} RetriesForever(cfg: Config, s: State, n: nat)
    requires Searches(cfg) && Sound(cfg) && !Bounded(cfg) && FindsNext(cfg, s)
    ensures Rounds(cfg, NothingLoads, s, n).Again?
    ensures FindsNext(cfg, Rounds(cfg, NothingLoads, s, n).next)
  {
    hide Round, FindsNext, SearchEnds;
    if n > 0 {
      RetriesForever(cfg, s, n - 1);
      RetryRound(cfg, Rounds(cfg, NothingLoads, s, n - 1).next);
    }
  }

  /** The first search finds something: there is an image from the bumped register up, or
      the flash outreaches the register and so any image will do. */
  lemma FindsNextIff(cfg: Config, s: State)
    requires Searches(cfg) && Sound(cfg)
    ensures FindsNext(cfg, s)
            <==> || cfg.device.MaxSize() > REACH
                 || exists t: nat :: Candidate(cfg.flash, cfg.device.MaxSize(), Bumped(cfg, s.multiBoot), t)
  {
    hide Candidate, Found, SearchEnds, Bumped;
    if cfg.device.MaxSize() > REACH {
      SearchWrapsRound(cfg.flash, cfg.device.MaxSize(), Bumped(cfg, s.multiBoot));
    } else {
      SearchFindsLeast(cfg.flash, cfg.device.MaxSize(), Bumped(cfg, s.multiBoot));
    }
  }

  /** Under e-fuse encryption the run is bound to end, whatever loads and handoffs do, exactly
      when retries are bounded, or the flash is within reach and holds no valid image from
      the first slot searched up. */
  lemma EndsAlwaysIff(cfg: Config, s: State)
    requires Searches(cfg)
    ensures (forall env: Environment :: RunEnds(cfg, env, s))
            <==> || Bounded(cfg)
                 || (&& cfg.device.MaxSize() <= REACH
                     && !exists t: nat :: Candidate(cfg.flash, cfg.device.MaxSize(), Bumped(cfg, s.multiBoot), t))
    ensures Sound(cfg)
            <==> exists k: nat :: EndsAfter(cfg.flash, cfg.device.MaxSize(), Bumped(cfg, s.multiBoot), k)
  {
    hide Round, Found, SearchEnds, Rounds, EndsAfter, Candidate, Bumped, FindsNext, DoneAfter;
    SearchEndsIff(cfg.flash, cfg.device.MaxSize(), Bumped(cfg, s.multiBoot));
    if Bounded(cfg) {
      forall env: Environment
        ensures RunEnds(cfg, env, s)
      {
        BoundedRuns(cfg, env, s);
      }
    } else if !Sound(cfg) {
      InReachIsSound(cfg);
      assert !RunEnds(cfg, NothingLoads, s);
    } else {
      FindsNextIff(cfg, s);
      if !FindsNext(cfg, s) {
        forall env: Environment
          ensures RunEnds(cfg, env, s)
        {
          OneRound(cfg, env, s);
          NothingFound(cfg, env, s);
        }
      } else {
        forall n: nat
          ensures Rounds(cfg, NothingLoads, s, n).Again?
        {
          RetriesForever(cfg, s, n);
        }
        assert !RunEnds(cfg, NothingLoads, s);
      }
    }
  }

  lemma InReachIsSound(cfg: Config)
    ensures cfg.device.MaxSize() <= REACH ==> Sound(cfg)
  {
  }

  lemma BoundedRuns(cfg: Config, env: Environment, s: State)
    requires Searches(cfg) && Bounded(cfg)
    ensures RunEnds(cfg, env, s)
  {
    InReachIsSound(cfg);
    var n := BoundedRunEnds(cfg, env, s);
  }

  lemma NothingFound(cfg: Config, env: Environment, s: State)
    requires Searches(cfg) && Sound(cfg) && !FindsNext(cfg, s)
    ensures Round(cfg, env, s).Done?
  {
  }

  /** A flash with one image, at its very start: a header of zeros but for the identification
      and the checksum. */
  function OneImage(address: nat): u32 {
    if address == IMAGE_IDENT_OFFSET then IMAGE_IDENT
    else if address == IMAGE_CHECKSUM_OFFSET then 0xFFFF_FFFF - IMAGE_IDENT
    else 0
  }

  lemma {:induction false} OneImageSum(n: nat)
    requires n <= IMAGE_HEADER_CHECKSUM_COUNT
    ensures Sum(HeaderWords(OneImage, 0, n)) == if n >= 2 then IMAGE_IDENT else 0
  {
    hide Sum, HeaderWords;
    HeaderStep(OneImage, 0, 0);
    if n > 0 {
      OneImageSum(n - 1);
      HeaderStep(OneImage, 0, n - 1);
    }
  }

  lemma OneImageIsValid()
    ensures ValidImage(OneImage, 0 * GOLDEN_IMAGE_OFFSET)
  {
    OneImageSum(IMAGE_HEADER_CHECKSUM_COUNT);
    hide Sum, HeaderWords;
  }

  /** Two boards that retry the image for ever while it does not load: 1.0 silicon with a NOR
      flash, and later silicon with two 1 Gbit QSPI parts. */
  lemma RetryExamples(n: nat)
    ensures var cfg := Config(Nor, true, true, true, OneImage, 0);
            Sound(cfg) && Rounds(cfg, NothingLoads, State(0, 0, []), n).Again?
    ensures var cfg := Config(Qspi(0x1000_0000), false, true, true, OneImage, 0);
            Sound(cfg) && Rounds(cfg, NothingLoads, State(0, 0, []), n).Again?
  {
    var s := State(0, 0, []);
    var nor := Config(Nor, true, true, true, OneImage, 0);
    var qspi := Config(Qspi(0x1000_0000), false, true, true, OneImage, 0);
    OneImageIsValid();
    hide ValidImage, Rounds, Found, FindsNext;
    SlotIsLow(0);
    assert Bumped(nor, 0) == 0;
    assert Candidate(OneImage, nor.device.MaxSize(), 0, 0);
    FindsNextIff(nor, s);
    RetriesForever(nor, s, n);
    FindsNextIff(qspi, s);
    RetriesForever(qspi, s, n);
  }

  // ----- how a run ends -----

  lemma {:induction false} LastRound(cfg: Config, env: Environment, s: State, n: nat) returns (last: State)
    requires Sound(cfg) && Rounds(cfg, env, s, n).Done?
    ensures Round(cfg, env, last) == Rounds(cfg, env, s, n)
  {
    hide Round;
    if Rounds(cfg, env, s, n - 1).Done? {
      last := LastRound(cfg, env, s, n - 1);
    } else {
      last := Rounds(cfg, env, s, n - 1).next;
    }
  }

  /** However a run ends: a reset happens only without e-fuse encryption and leaves the
      failure mark for the boot ROM; a halt or a handoff leaves it clear; and control goes
      only to the address the last image tried was loaded with, its hook having succeeded. */
  lemma RunOutcome(cfg: Config, env: Environment, s: State, n: nat)
    requires Sound(cfg) && Rounds(cfg, env, s, n).Done?
    ensures var end := Rounds(cfg, env, s, n);
            match end.outcome
            case Reset => !cfg.efuse && FailBitsSet(end.final.status)
            case Halted => FailBitsClear(end.final.status)
            case HandedOff(a) =>
              && FailBitsClear(end.final.status) && cfg.efuse && end.final.tried != []
              && var last := env(|end.final.tried| - 1);
                 last.load == Some(a) && last.hookOk && !last.exitReturns
  {
    hide Rounds, Round, FailBitsSet, FailBitsClear, ClearFail;
    var last := LastRound(cfg, env, s, n);
    RoundOutcome(cfg, env, last);
  }

  lemma RoundOutcome(cfg: Config, env: Environment, s: State)
    requires Sound(cfg) && Round(cfg, env, s).Done?
    ensures var end := Round(cfg, env, s);
            match end.outcome
            case Reset => !cfg.efuse && FailBitsSet(end.final.status)
            case Halted => FailBitsClear(end.final.status)
            case HandedOff(a) =>
              && FailBitsClear(end.final.status) && cfg.efuse && end.final.tried != []
              && var last := env(|end.final.tried| - 1);
                 last.load == Some(a) && last.hookOk && !last.exitReturns
  {
    hide SetFail, ClearFail, StopAt, Found, FailBitsSet, FailBitsClear, SearchEnds, Loading, Bumped, Slot, Offset;
    FailMarks(s.status);
    FailMarks(SetFail(s.status));
    if Round(cfg, env, s).outcome.HandedOff? {
      var at := State(StopAt(cfg.flash, cfg.device.MaxSize(), Bumped(cfg, s.multiBoot)),
                      SetFail(s.status), s.tried);
      LoadingTries(cfg, at);
      FailMarks(Loading(cfg, at).status);
    }
  }

  /** A whole boot from the main program: the image the boot ROM chose comes first, and the
      complete list of images tried is strictly ascending. */
  lemma WholeBootTriesUpwards(cfg: Config, env: Environment, s: State, n: nat) returns (t: seq<nat>)
    requires Searches(cfg) && Bounded(cfg) && s.tried == [] && Slot(s.multiBoot) < SLOTS - 1
    ensures t == StateOf(if Attempted(cfg, env, s).Done? then Attempted(cfg, env, s)
                         else Rounds(cfg, env, Attempted(cfg, env, s).next, n)).tried
    ensures t != [] && t[0] == Offset(s.multiBoot) && Ascending(t)
    ensures forall i :: 1 <= i < |t| ==> ValidImage(cfg.flash, t[i])
  {
    var first := Attempted(cfg, env, s);
    if first.Done? {
      t := first.final.tried;
    } else {
      FallbackTriesUpwards(cfg, env, first.next, n);
      hide Rounds, ValidImage, SearchEnds, Slot;
      t := StateOf(Rounds(cfg, env, first.next, n)).tried;
      assert t == [Offset(s.multiBoot)] + t[1..];
    }
  }
}
