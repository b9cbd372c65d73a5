/** The restart policy of the connector supervisor (`RestartPolicy` in `supervisor.rs`). */
module RestartPolicies {
  import opened Common

  /** `Duration::MAX` in nanoseconds; every duration below is counted in nanoseconds. */
  const DURATION_MAX: nat := U64_MAX * 1_000_000_000 + 999_999_999

  datatype RestartPolicy = RestartPolicy(
    restartOnCleanExit: bool,
    maxRestarts: Option<nat>,
    initialBackoff: nat,
    maximumBackoff: nat,
    backoffMultiplier: nat,
    healthInterval: nat,
    unhealthyThreshold: nat,
    shutdownTimeout: nat)

  /** The widths of the fields. */
  ghost predicate Typed(p: RestartPolicy) {
    && (p.maxRestarts.Some? ==> p.maxRestarts.value <= U32_MAX)
    && p.initialBackoff <= DURATION_MAX && p.maximumBackoff <= DURATION_MAX
    && p.backoffMultiplier <= U32_MAX && p.unhealthyThreshold <= U32_MAX
  }

  /** `RestartPolicy::validate`. */
  predicate Validate(p: RestartPolicy) {
    !(p.initialBackoff == 0
      || p.maximumBackoff < p.initialBackoff
      || p.backoffMultiplier < 1
      || p.healthInterval == 0
      || p.unhealthyThreshold < 1
      || p.shutdownTimeout == 0)
  }

  /** A valid policy: backoff bounds in order, and no zero where one would make no sense. */
  lemma ValidateMeans(p: RestartPolicy)
    ensures Validate(p) <==>
      && 0 < p.initialBackoff <= p.maximumBackoff && p.backoffMultiplier >= 1
      && p.healthInterval > 0 && p.unhealthyThreshold >= 1 && p.shutdownTimeout > 0
  {
  }

  function SaturatingInc(n: nat): nat {
    if n >= U32_MAX then U32_MAX else n + 1
  }

  function Pow(base: nat, exponent: nat): nat {
    if exponent == 0 then 1 else base * Pow(base, exponent - 1)
  }

  /** `u32::saturating_pow`. */
  function SaturatingPow(base: nat, exponent: nat): nat {
    Min(Pow(base, exponent), U32_MAX)
  }

  /** `delay_for_restart`. */
  function DelayForRestart(p: RestartPolicy, restart: nat): nat {
    var exponent := Min(if restart == 0 then 0 else restart - 1, 31);
    var factor := SaturatingPow(p.backoffMultiplier, exponent);
    Min(Min(p.initialBackoff * factor, DURATION_MAX), p.maximumBackoff)
  }

  /** `permits_restart`. */
  predicate PermitsRestart(p: RestartPolicy, restarts: nat) {
    p.maxRestarts.None? || restarts <= p.maxRestarts.value
  }

  // ---- The delay -------------------------------------------------------------------------------

  /** Exponential backoff without machine limits, for a restart counted from one. */
  function IdealDelay(p: RestartPolicy, restart: nat): nat
    requires restart >= 1
  {
    Min(p.maximumBackoff, p.initialBackoff * Pow(p.backoffMultiplier, restart - 1))
  }

  lemma {:induction false} PowGrows(base: nat, low: nat, high: nat)
    requires base >= 1 && low <= high
    ensures 1 <= Pow(base, low) <= Pow(base, high)
    decreases high
  {
    if low < high {
      PowGrows(base, low, high - 1);
      MulGrows(Pow(base, high - 1), 1, base);
    } else if low > 0 {
      PowGrows(base, low - 1, low - 1);
    }
  }

  lemma {:induction false} PowGrowsInBase(low: nat, high: nat, exponent: nat)
    requires low <= high
    ensures Pow(low, exponent) <= Pow(high, exponent)
  {
    if exponent > 0 {
      PowGrowsInBase(low, high, exponent - 1);
      MulGrows(low, Pow(low, exponent - 1), Pow(high, exponent - 1));
      MulGrows(Pow(high, exponent - 1), low, high);
    }
  }

  lemma {:induction false} PowOfOne(exponent: nat)
    ensures Pow(1, exponent) == 1
  {
    if exponent > 0 {
      PowOfOne(exponent - 1);
    }
  }

  lemma MulGrows(a: nat, low: nat, high: nat)
    requires low <= high
    ensures a * low <= a * high
    ensures a > 0 && low < high ==> a * low < a * high
  {
  }

  lemma TwoToThe32()
    ensures Pow(2, 32) == U32_MAX + 1
  {
    assert Pow(2, 8) == 0x100;
    assert Pow(2, 16) == 0x1_0000;
    assert Pow(2, 24) == 0x100_0000;
  }

  /** A power that fits into 32 bits is never cut off by the cap on the exponent. */
  lemma FittingPower(base: nat, restart: nat)
    requires base >= 1 && restart >= 1
    ensures Pow(base, restart - 1) <= U32_MAX ==> SaturatingPow(base, Min(restart - 1, 31)) == Pow(base, restart - 1)
    ensures Pow(base, restart - 1) > U32_MAX ==> SaturatingPow(base, Min(restart - 1, 31)) == SaturatingPow(base, 31)
    ensures SaturatingPow(base, Min(restart - 1, 31)) <= Pow(base, restart - 1)
  {
    hide Pow;
    if restart - 1 <= 31 {
      PowGrows(base, restart - 1, 31);
    } else {
      PowGrows(base, 31, restart - 1);
      if base == 1 {
        PowOfOne(31);
        PowOfOne(restart - 1);
      } else {
        PowGrows(base, 32, restart - 1);
        PowGrowsInBase(2, base, 32);
        TwoToThe32();
      }
    }
  }

  /** Between the configured bounds, never shorter after more restarts. */
  lemma DelayBounded(p: RestartPolicy, restart: nat, later: nat)
    requires Typed(p) && Validate(p) && restart <= later
    ensures p.initialBackoff <= DelayForRestart(p, restart) <= DelayForRestart(p, later) <= p.maximumBackoff
  {
    var e := Min(if restart == 0 then 0 else restart - 1, 31);
    var f := Min(if later == 0 then 0 else later - 1, 31);
    PowGrows(p.backoffMultiplier, e, f);
    var low, high := SaturatingPow(p.backoffMultiplier, e), SaturatingPow(p.backoffMultiplier, f);
    MulGrows(p.initialBackoff, 1, low);
    MulGrows(p.initialBackoff, low, high);
  }

  /**
   Never longer than ideal exponential backoff, and equal to it exactly when the power fits
   into 32 bits or the largest factor the code can use already reaches the maximum.
   */
  lemma DelayIdealExactly(p: RestartPolicy, restart: nat)
    requires Typed(p) && Validate(p) && restart >= 1
    ensures DelayForRestart(p, restart) <= IdealDelay(p, restart)
    ensures DelayForRestart(p, restart) == IdealDelay(p, restart) <==>
      || Pow(p.backoffMultiplier, restart - 1) <= U32_MAX
      || p.initialBackoff * SaturatingPow(p.backoffMultiplier, 31) >= p.maximumBackoff
  {
    var ideal := Pow(p.backoffMultiplier, restart - 1);
    var factor := SaturatingPow(p.backoffMultiplier, Min(restart - 1, 31));
    FittingPower(p.backoffMultiplier, restart);
    MulGrows(p.initialBackoff, factor, ideal);
  }

  /** Counting restarts in 32 bits changes no delay. */
  lemma DelayOfCounter(p: RestartPolicy, restarts: nat)
    ensures DelayForRestart(p, Min(restarts, U32_MAX)) == DelayForRestart(p, restarts)
  {
  }
}
