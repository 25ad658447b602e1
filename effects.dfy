// Transient visual feedback of a hit: a red tint and a screen shake, each
// with a frame counter (gameplay.js, `DAMAGE_EFFECTS`, `damageEffect`, the
// second half of `takeDamage` and `updateDamageEffects`).

module Effects {
  import opened Damage

  const PassiveTintAlpha: int := 3
  const RockTintAlpha: int := 7
  const LandTintAlpha: int := 10
  const TintDuration: int := 4
  const RockShakeAmount: real := 2.0
  const LandShakeAmount: real := 3.0
  const ShakeDuration: int := 4
  const ShakeFalloff: real := 0.7
  const ShakeSnap: real := 0.1  // a decayed shake below this snaps to 0

  datatype EffectState = EffectState(tintAlpha: int, tintDuration: int, shakeAmount: real, shakeDuration: int)

  const Cleared: EffectState := EffectState(0, 0, 0.0, 0)

  predicate WellFormed(e: EffectState) {
    e.tintAlpha >= 0 && e.tintDuration >= 0 && e.shakeAmount >= 0.0 && e.shakeDuration >= 0
  }

  /** Both the tint and the shake have died out. */
  predicate Settled(e: EffectState) {
    e.tintAlpha == 0 && e.shakeAmount == 0.0
  }

  /** The effect a hit from `source` starts. Every hit restarts the tint;
      land hits tint harder than rock hits and rock hits harder than passive
      ones; collisions restart the shake, passive damage leaves it alone. */
  function Trigger(e: EffectState, source: Source): (r: EffectState)
    ensures r.tintDuration == TintDuration && r.tintAlpha > 0
    ensures source == Passive ==> r.shakeAmount == e.shakeAmount && r.shakeDuration == e.shakeDuration
    ensures source != Passive ==> r.shakeDuration == ShakeDuration && r.shakeAmount > 0.0
    ensures WellFormed(e) ==> WellFormed(r)
  {
    match source
    case Land => EffectState(LandTintAlpha, TintDuration, LandShakeAmount, ShakeDuration)
    case Rock => EffectState(RockTintAlpha, TintDuration, RockShakeAmount, ShakeDuration)
    case Passive => e.(tintAlpha := PassiveTintAlpha, tintDuration := TintDuration)
  }

  /** The per-source table of a hit: tint 10 / 7 / 3 for land / rock /
      passive, shake 3 / 2 for land / rock, and 4 frames for both counters;
      so land hits tint and shake harder than rock hits, which tint harder
      than passive damage. */
  lemma TriggerTable(e: EffectState)
    ensures Trigger(e, Land) == EffectState(10, 4, 3.0, 4)
    ensures Trigger(e, Rock) == EffectState(7, 4, 2.0, 4)
    ensures Trigger(e, Passive) == e.(tintAlpha := 3, tintDuration := 4)
    ensures Trigger(e, Land).tintAlpha > Trigger(e, Rock).tintAlpha > Trigger(e, Passive).tintAlpha
    ensures Trigger(e, Land).shakeAmount > Trigger(e, Rock).shakeAmount
  {
  }

  /** One frame of `updateDamageEffects`: a running counter loses exactly
      one frame, an expired one forces its amount to 0, and the shake only
      ever shrinks towards 0. */
  function Decay(e: EffectState): (r: EffectState)
    ensures e.tintDuration > 0 ==> r.tintDuration == e.tintDuration - 1 && r.tintAlpha == e.tintAlpha
    ensures e.tintDuration <= 0 ==> r.tintDuration == e.tintDuration && r.tintAlpha == 0
    ensures e.shakeDuration > 0 ==> r.shakeDuration == e.shakeDuration - 1
    ensures e.shakeDuration <= 0 ==> r.shakeDuration == e.shakeDuration && r.shakeAmount == 0.0
    ensures e.shakeAmount >= 0.0 ==> 0.0 <= r.shakeAmount <= e.shakeAmount
    ensures e.shakeAmount > 0.0 ==> r.shakeAmount < e.shakeAmount
    ensures WellFormed(e) ==> WellFormed(r)
  {
    var tint := if e.tintDuration > 0 then e.(tintDuration := e.tintDuration - 1) else e.(tintAlpha := 0);
    var shake := if tint.shakeDuration > 0 then tint.(shakeDuration := tint.shakeDuration - 1)
                 else tint.(shakeAmount := 0.0);
    if shake.shakeAmount > 0.0 then
      var amount := shake.shakeAmount * ShakeFalloff;
      shake.(shakeAmount := if amount < ShakeSnap then 0.0 else amount)
    else
      shake
  }

  /** `n` frames of decay with no new hit. */
  function DecayN(e: EffectState, n: nat): EffectState
    decreases n
  {
    if n == 0 then e else DecayN(Decay(e), n - 1)
  }

  /** Once its counter has run out, the tint is gone for good: more than
      `tintDuration` frames without a hit leave no tint. */
  lemma {:induction false} TintSettles(e: EffectState, n: nat)
    requires e.tintDuration >= 0 && n > e.tintDuration
    ensures DecayN(e, n).tintAlpha == 0 && DecayN(e, n).tintDuration == 0
    decreases n
  {
    if n > 1 {
      TintSettles(Decay(e), n - 1);
    }
  }

  /** Likewise the shake: more than `shakeDuration` frames without a hit
      leave no shake, however large it was. */
  lemma {:induction false} ShakeSettles(e: EffectState, n: nat)
    requires e.shakeDuration >= 0 && e.shakeAmount >= 0.0 && n > e.shakeDuration
    ensures DecayN(e, n).shakeAmount == 0.0 && DecayN(e, n).shakeDuration == 0
    decreases n
  {
    if n > 1 {
      ShakeSettles(Decay(e), n - 1);
    }
  }

  /** With no new damage, every effect is over within one frame more than
      its longest counter. */
  lemma EffectsSettle(e: EffectState, n: nat)
    requires WellFormed(e) && n > e.tintDuration && n > e.shakeDuration
    ensures Settled(DecayN(e, n)) && WellFormed(DecayN(e, n))
  {
    TintSettles(e, n);
    ShakeSettles(e, n);
    DecayNWellFormed(e, n);
  }

  lemma {:induction false} DecayNWellFormed(e: EffectState, n: nat)
    requires WellFormed(e)
    ensures WellFormed(DecayN(e, n))
    decreases n
  {
    if n > 0 {
      DecayNWellFormed(Decay(e), n - 1);
    }
  }
}
