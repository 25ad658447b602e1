// The game session as gameplay.js keeps it: mutable state updated in place
// by the frame tick and the input handlers. Each method is proved to leave
// the session in the state the matching function of module Session
// computes, so everything proved there holds of these methods.

module Gameplay {
  import opened Damage
  import opened Effects
  import opened Shop
  import opened Session

  class GameSession {
    var phase: Phase
    var initialized: bool
    var health: int
    var shield: int
    var passiveCounter: int
    var immunity: Immunity
    var damageEffect: EffectState
    var deathScreenAlpha: int
    var speed: int             // boat.speed
    var score: int
    var boosterPurchased: int  // SHOP_ITEMS.SPEED_BOOSTER.purchased
    var shopExpanded: bool
    var purchaseMessage: string
    var purchaseMessageTimer: int
    var shopArrowArea: Option<Rect>
    var buttonAreas: seq<Option<ButtonArea>>

    /** The session as a value. */
    function Snapshot(): State
      reads this
    {
      State(phase, initialized, Vitals(health, shield), passiveCounter, immunity, damageEffect,
            deathScreenAlpha, speed, score, boosterPurchased, shopExpanded, purchaseMessage,
            purchaseMessageTimer, shopArrowArea, buttonAreas)
    }

    predicate Valid()
      reads this
    {
      Inv(Snapshot())
    }

    /** The module-level initial values, in the Start phase and not yet
        initialised. */
    constructor (boatSpeed: int)
      ensures Snapshot() == Initial(boatSpeed) && Valid()
    {
      phase := Start;
      initialized := false;
      health := StartingHealth;
      shield := StartingShield;
      passiveCounter := 0;
      immunity := NoImmunity;
      damageEffect := Cleared;
      deathScreenAlpha := 0;
      speed := boatSpeed;
      score := 0;
      boosterPurchased := 0;
      shopExpanded := false;
      purchaseMessage := "";
      purchaseMessageTimer := 0;
      shopArrowArea := None;
      buttonAreas := [None, None, None];
      InitialIsValid(boatSpeed);
    }

    /** `takeDamage`. */
    method TakeDamage(amount: int, source: Source)
      modifies this
      ensures Snapshot() == Session.TakeDamage(old(Snapshot()), amount, source)
      ensures old(Valid()) ==> Valid()
    {
      if amount <= 0 {
        return;
      }
      var remainingDamage := amount;
      if shield > 0 {
        var shieldDamage := Min(shield, remainingDamage);
        shield := shield - shieldDamage;
        remainingDamage := remainingDamage - shieldDamage;
        if shield <= 0 && remainingDamage > 0 {
          remainingDamage := 0;  // the emptied shield blocks the overflow
        }
      }
      if remainingDamage > 0 {
        health := health - remainingDamage;
        health := Max(0, health);
      }
      match source {
        case Land =>
          damageEffect := damageEffect.(tintAlpha := LandTintAlpha, tintDuration := TintDuration);
          damageEffect := damageEffect.(shakeAmount := LandShakeAmount, shakeDuration := ShakeDuration);
        case Rock =>
          damageEffect := damageEffect.(tintAlpha := RockTintAlpha, tintDuration := TintDuration);
          damageEffect := damageEffect.(shakeAmount := RockShakeAmount, shakeDuration := ShakeDuration);
        case Passive =>
          damageEffect := damageEffect.(tintAlpha := PassiveTintAlpha, tintDuration := TintDuration);
      }
    }

    /** `updateDamageEffects`. */
    method UpdateDamageEffects()
      modifies this
      ensures Snapshot() == old(Snapshot()).(effects := Decay(old(damageEffect)))
      ensures old(Valid()) ==> Valid()
    {
      if damageEffect.tintDuration > 0 {
        damageEffect := damageEffect.(tintDuration := damageEffect.tintDuration - 1);
      } else {
        damageEffect := damageEffect.(tintAlpha := 0);
      }
      if damageEffect.shakeDuration > 0 {
        damageEffect := damageEffect.(shakeDuration := damageEffect.shakeDuration - 1);
      } else {
        damageEffect := damageEffect.(shakeAmount := 0.0);
      }
      if damageEffect.shakeAmount > 0.0 {
        damageEffect := damageEffect.(shakeAmount := damageEffect.shakeAmount * ShakeFalloff);
        if damageEffect.shakeAmount < ShakeSnap {
          damageEffect := damageEffect.(shakeAmount := 0.0);
        }
      }
    }

    /** `updateGameplay`, the per-frame tick. */
    method UpdateGameplay()
      modifies this
      ensures Snapshot() == Tick(old(Snapshot()))
      ensures old(Valid()) ==> Valid()
    {
      if phase != Playing {
        return;
      }
      ApplyPassiveDamage();
      if purchaseMessageTimer > 0 {
        purchaseMessageTimer := purchaseMessageTimer - 1;
      }
      UpdateDamageEffects();
      if health <= 0 {
        phase := Death;
        deathScreenAlpha := 0;
      }
    }

    /** The passive-damage part of `updateGameplay`. */
    method ApplyPassiveDamage()
      modifies this
      ensures Snapshot() == PassiveStep(old(Snapshot()))
    {
      passiveCounter := passiveCounter + 1;
      if passiveCounter >= PassiveDamageInterval {
        TakeDamage(1, Passive);
        passiveCounter := 0;
      }
    }

    /** `initializeGameplay`. */
    method InitializeGameplay()
      modifies this
      ensures Snapshot() == Initialize(old(Snapshot()))
      ensures Valid()
    {
      ResetBoat();
      if initialized {
        speed := DefaultSpeed;
      }
      ResetShop();
      initialized := true;
    }

    /** The first part of `initializeGameplay`: vitals, passive counter,
        immunity flags and visual effects. */
    method ResetBoat()
      modifies this
      ensures Snapshot() == old(Snapshot()).(vitals := Vitals(StartingHealth, StartingShield), passiveCounter := 0,
                                             immunity := NoImmunity, effects := Cleared, deathScreenAlpha := 0)
    {
      health := StartingHealth;
      shield := StartingShield;
      passiveCounter := 0;
      immunity := NoImmunity;
      damageEffect := Cleared;
      deathScreenAlpha := 0;
    }

    /** The last part of `initializeGameplay`: score and shop. */
    method ResetShop()
      modifies this
      ensures Snapshot() == old(Snapshot()).(score := 0, boosterPurchased := 0, shopExpanded := false,
                                             message := "", messageTimer := 0)
    {
      score := 0;
      boosterPurchased := 0;
      shopExpanded := false;
      purchaseMessage := "";
      purchaseMessageTimer := 0;
    }

    /** `handleKeyPress`. */
    method HandleKeyPress()
      modifies this
      ensures Snapshot() == KeyPress(old(Snapshot()))
      ensures old(Valid()) ==> Valid()
    {
      if phase == Start {
        if initialized {
          phase := Playing;
        }
      } else if phase == Death {
        InitializeGameplay();
        phase := Playing;
      }
    }

    /** The effect of a catalog item, run on the session (the closures of
        `SHOP_ITEMS`). */
    method RunEffect(effect: ItemEffect)
      modifies this
      ensures Snapshot() == ApplyEffect(effect, old(Snapshot()))
    {
      match effect {
        case RestoreHealth(amount) =>
          health := Min(MaxHealth, health + amount);
        case RestoreShield(amount) =>
          shield := Min(MaxShield, shield + amount);
        case IncreaseSpeed(amount, limit) =>
          if boosterPurchased < limit {
            speed := speed + amount;
            boosterPurchased := boosterPurchased + 1;
          }
      }
    }

    /** One call of the callback that `handleShopClick` runs for each
        catalog key: buy item `k` if its stored area was available and holds
        the click, and the score still covers the cost. */
    method TryPurchase(k: nat, x: real, y: real)
      requires k < |Catalog|
      modifies this
      ensures Snapshot() == ItemClick(old(Snapshot()), k, x, y)
    {
      var item := Catalog[k];
      var area := AreaOf(Snapshot(), k);
      if area.Some? && area.value.available && Contains(area.value.rect, x, y) {
        if score >= item.cost {
          score := score - item.cost;
          RunEffect(item.effect);
          purchaseMessage := PurchasedMessage(item);
          purchaseMessageTimer := PurchaseMessageFrames;
        }
      }
    }

    /** `handleShopClick`: returns whether the click toggled the shop. */
    method HandleShopClick(x: real, y: real) returns (handled: bool)
      modifies this
      ensures (Snapshot(), handled) == ShopClick(old(Snapshot()), x, y)
      ensures old(Valid()) ==> Valid()
    {
      if phase != Playing {
        return false;
      }
      if shopArrowArea.Some? && Contains(shopArrowArea.value, x, y) {
        shopExpanded := !shopExpanded;
        return true;
      }
      if shopExpanded {
        ghost var before := Snapshot();
        var k := 0;
        while k < |Catalog|
          invariant 0 <= k <= |Catalog|
          invariant Snapshot() == ClickItems(before, x, y, k)
        {
          TryPurchase(k, x, y);
          k := k + 1;
        }
      }
      return false;
    }

    /** The click areas that rendering the shop stores for the next click
        (the only state `drawShop` writes). */
    method RecordShopLayout(width: real, height: real)
      modifies this
      ensures Snapshot() == Layout(old(Snapshot()), width, height)
      ensures old(Valid()) ==> Valid()
    {
      if phase != Playing {
        return;
      }
      var shopX := if shopExpanded then width - ShopWidth else width - ShopCollapsedWidth;
      if shopExpanded {
        var areas: seq<Option<ButtonArea>> := [];
        var k := 0;
        while k < |Catalog|
          invariant 0 <= k <= |Catalog| && |areas| == k
          invariant forall j :: 0 <= j < k ==> areas[j] == Some(ItemArea(Snapshot(), shopX, j))
        {
          areas := areas + [Some(ItemArea(Snapshot(), shopX, k))];
          k := k + 1;
        }
        buttonAreas := areas;
      }
      var arrowX := if shopExpanded then shopX + 15.0 else shopX + ShopCollapsedWidth / 2.0;
      var arrowY := height / 2.0;
      shopArrowArea := Some(Rect(arrowX - ArrowSize / 2.0, arrowY - ArrowSize / 2.0, ArrowSize, ArrowSize));
    }
  }
}
