// Damage model of the boat: health and shield, and how one hit is split
// between them (gameplay.js, `BOAT_STATS` and the first half of `takeDamage`).

module Damage {

  const MaxHealth: int := 100
  const MaxShield: int := 100
  const StartingHealth: int := 100
  const StartingShield: int := 10
  const PassiveDamageInterval: int := 60  // frames between two passive hits
  const LandDamage: int := 10
  const RockDamage: int := 2

  /** Where a hit comes from; the source passes these as the strings
      'land', 'rock' and 'passive'. */
  datatype Source = Land | Rock | Passive

  datatype Vitals = Vitals(health: int, shield: int)

  /** The per-source immunity and edge-detection flags (`damageImmunity`). */
  datatype Immunity = Immunity(land: bool, rock: bool, lastLand: bool, lastRock: bool)

  const NoImmunity: Immunity := Immunity(false, false, false, false)

  predicate InBounds(v: Vitals) {
    0 <= v.health <= MaxHealth && 0 <= v.shield <= MaxShield
  }

  function Min(a: int, b: int): int { if a <= b then a else b }
  function Max(a: int, b: int): int { if a >= b then a else b }

  /** The health/shield part of `takeDamage`, step by step as the source does
      it. The contract is its closed form: a shield that is up on entry takes
      the whole hit and any overflow is discarded (health untouched); only a
      hit that arrives with no shield reaches health, which stops at 0. */
  function Absorb(v: Vitals, amount: int): (r: Vitals)
    requires amount > 0
    ensures v.shield > 0 ==> r.health == v.health && r.shield == Max(0, v.shield - amount)
    ensures v.shield <= 0 ==> r.shield == v.shield && r.health == Max(0, v.health - amount)
    ensures InBounds(v) ==> InBounds(r)
    ensures r.shield <= v.shield && (v.health >= 0 ==> r.health <= v.health)
  {
    var shieldHit := if v.shield > 0 then Min(v.shield, amount) else 0;
    var shield := v.shield - shieldHit;
    var remaining := amount - shieldHit;
    // a shield that was up blocks the overflow of the hit that empties it
    var remaining' := if v.shield > 0 && shield <= 0 && remaining > 0 then 0 else remaining;
    var health := if remaining' > 0 then Max(0, v.health - remaining') else v.health;
    Vitals(health, shield)
  }
}
