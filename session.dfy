// The game session as a value: every piece of module-level state that
// gameplay.js mutates, and each of its operations as a function from the
// state before to the state after. The class in gameplay.dfy performs the
// same operations in place and is proved to agree with these functions.

module Session {
  import opened Damage
  import opened Effects
  import opened Shop

  datatype Phase = Start | Playing | Death

  const DefaultSpeed: int := 3  // boat.speed after a restart

  // shop geometry used by the renderer when it stores the click areas
  const ShopWidth: real := 250.0
  const ShopCollapsedWidth: real := 30.0
  const ItemTop: real := 60.0
  const ItemHeight: real := 75.0
  const ItemMargin: real := 10.0
  const ArrowSize: real := 30.0

  datatype State = State(
    phase: Phase,
    initialized: bool,
    vitals: Vitals,
    passiveCounter: int,
    immunity: Immunity,
    effects: EffectState,
    deathScreenAlpha: int,
    speed: int,                          // boat.speed
    score: int,
    boosterPurchased: int,               // SHOP_ITEMS.SPEED_BOOSTER.purchased
    shopExpanded: bool,
    message: string,
    messageTimer: int,
    arrowArea: Option<Rect>,             // shopArrowArea of the last render
    buttonAreas: seq<Option<ButtonArea>>) // each item's _buttonArea, in catalog order

  /** The values the module starts with, before any initialisation. */
  function Initial(speed: int): State {
    State(Start, false, Vitals(StartingHealth, StartingShield), 0, NoImmunity, Cleared, 0,
          speed, 0, 0, false, "", 0, None, [None, None, None])
  }

  /** What every reachable session satisfies. */
  predicate Inv(s: State) {
    InBounds(s.vitals) &&
    0 <= s.passiveCounter < PassiveDamageInterval &&
    WellFormed(s.effects) &&
    s.score >= 0 &&
    0 <= s.boosterPurchased <= BoosterLimit &&
    s.messageTimer >= 0 &&
    (s.phase != Start ==> s.initialized)
  }

  lemma InitialIsValid(speed: int)
    ensures Inv(Initial(speed)) && Initial(speed).phase == Start && !Initial(speed).initialized
  {
  }

  // ---------------------------------------------------------------- damage

  /** `takeDamage(amount, source)`: a non-positive amount is ignored;
      otherwise the shield and health absorb the hit and the per-source
      effect starts. Nothing but the vitals and the effect changes. */
  function TakeDamage(s: State, amount: int, source: Source): (r: State)
    ensures amount <= 0 ==> r == s
    ensures r == s.(vitals := r.vitals, effects := r.effects)
    ensures amount > 0 ==> r.effects.tintDuration == TintDuration
    ensures Inv(s) ==> Inv(r)
  {
    if amount <= 0 then s
    else s.(vitals := Absorb(s.vitals, amount), effects := Trigger(s.effects, source))
  }

  // ------------------------------------------------------------------ tick

  /** The passive-damage counter of one frame: one point of passive damage
      every `PassiveDamageInterval` frames. */
  function PassiveStep(s: State): State {
    var counter := s.passiveCounter + 1;
    if counter >= PassiveDamageInterval then TakeDamage(s, 1, Passive).(passiveCounter := 0)
    else s.(passiveCounter := counter)
  }

  /** `updateGameplay`: nothing happens outside Playing. In Playing the
      passive counter advances modulo the interval and the passive hit lands
      exactly when it wraps; the message timer steps towards 0; the effects
      decay; and the phase becomes Death in this very frame exactly when
      health, after the passive hit, is 0 or less. */
  function Tick(s: State): (r: State)
    ensures s.phase != Playing ==> r == s
    ensures s.phase == Playing && 0 <= s.passiveCounter < PassiveDamageInterval ==>
              r.passiveCounter == (s.passiveCounter + 1) % PassiveDamageInterval
    ensures s.phase == Playing ==>
              var fired := s.passiveCounter + 1 >= PassiveDamageInterval;
              r.vitals == (if fired then Absorb(s.vitals, 1) else s.vitals) &&
              r.effects == Decay(if fired then Trigger(s.effects, Passive) else s.effects)
    ensures s.phase == Playing && s.messageTimer >= 0 ==> r.messageTimer == Max(0, s.messageTimer - 1)
    ensures s.phase == Playing ==> (r.phase == Death <==> r.vitals.health <= 0)
    ensures s.phase == Playing ==> (r.phase == Playing <==> r.vitals.health > 0)
    ensures s.phase == Playing ==> r.deathScreenAlpha == (if r.phase == Death then 0 else s.deathScreenAlpha)
    ensures r.score == s.score && r.speed == s.speed && r.boosterPurchased == s.boosterPurchased
    ensures r.shopExpanded == s.shopExpanded && r.arrowArea == s.arrowArea && r.buttonAreas == s.buttonAreas
    ensures r == s.(phase := r.phase, vitals := r.vitals, passiveCounter := r.passiveCounter, effects := r.effects,
                    deathScreenAlpha := r.deathScreenAlpha, messageTimer := r.messageTimer)
    ensures Inv(s) ==> Inv(r)
  {
    if s.phase != Playing then s
    else
      var counted := PassiveStep(s);
      var timed := counted.(messageTimer := if counted.messageTimer > 0 then counted.messageTimer - 1
                                            else counted.messageTimer);
      var decayed := timed.(effects := Decay(timed.effects));
      if decayed.vitals.health <= 0 then decayed.(phase := Death, deathScreenAlpha := 0)
      else decayed
  }

  /** `n` consecutive frames. */
  function TickN(s: State, n: nat): State
    decreases n
  {
    if n == 0 then s else TickN(Tick(s), n - 1)
  }

  /** Frames outside Playing change nothing, however many there are. */
  lemma {:induction false} IdleTicks(s: State, n: nat)
    requires s.phase != Playing
    ensures TickN(s, n) == s
    decreases n
  {
    if n > 0 {
      IdleTicks(Tick(s), n - 1);
    }
  }

  /** The passive cadence: as long as the game is still being played after
      `n` frames, the counter stands at (counter + n) mod 60, so the passive
      hit lands on exactly every 60th frame. */
  lemma PassiveCadence(s: State, n: nat)
    requires Inv(s) && s.phase == Playing
    requires TickN(s, n).phase == Playing
    ensures TickN(s, n).passiveCounter == (s.passiveCounter + n) % PassiveDamageInterval
    ensures Inv(TickN(s, n))
  {
    CounterCadence(s, n);
    TickNKeepsInv(s, n);
  }

  /** The counter half of the cadence, proved frame by frame. */
  lemma {:induction false} CounterCadence(s: State, n: nat)
    requires 0 <= s.passiveCounter < PassiveDamageInterval && s.phase == Playing
    requires TickN(s, n).phase == Playing
    ensures TickN(s, n).passiveCounter == (s.passiveCounter + n) % PassiveDamageInterval
    decreases n
  {
    if n > 0 {
      var next := Tick(s);
      StillPlaying(s, n);
      CounterCadence(next, n - 1);
      CounterWraps(s.passiveCounter, next.passiveCounter, n - 1);
    }
  }

  /** Any number of frames keeps the session invariant. */
  lemma {:induction false} TickNKeepsInv(s: State, n: nat)
    requires Inv(s)
    ensures Inv(TickN(s, n))
    decreases n
  {
    if n > 0 {
      TickNKeepsInv(Tick(s), n - 1);
    }
  }

  /** A session that is Playing after `n > 0` frames was Playing after the
      first of them, since no frame leaves Death or Start. */
  lemma StillPlaying(s: State, n: nat)
    requires n > 0 && TickN(s, n).phase == Playing
    ensures TickN(s, n) == TickN(Tick(s), n - 1) && Tick(s).phase == Playing
  {
    if Tick(s).phase != Playing {
      IdleTicks(Tick(s), n - 1);
    }
  }

  lemma CounterWraps(c: int, c': int, m: nat)
    requires 0 <= c < PassiveDamageInterval && c' == (c + 1) % PassiveDamageInterval
    ensures (c' + m) % PassiveDamageInterval == (c + 1 + m) % PassiveDamageInterval
  {
    if c + 1 == PassiveDamageInterval {
      assert (c + 1 + m) % PassiveDamageInterval == m % PassiveDamageInterval;
    }
  }

  // ------------------------------------------------------- phase controller

  /** `initializeGameplay`: vitals, counter, immunity, effects, score, the
      booster count and the shop display go back to their starting values;
      the boat's speed is reset only once the game has been initialised
      before; the phase and the last render's click areas are left alone. */
  function Initialize(s: State): (r: State)
    ensures Inv(r) && r.initialized
    ensures r.vitals == Vitals(StartingHealth, StartingShield) && r.passiveCounter == 0 &&
            r.immunity == NoImmunity && r.effects == Cleared && r.deathScreenAlpha == 0
    ensures r.score == 0 && r.boosterPurchased == 0 && !r.shopExpanded && r.message == "" && r.messageTimer == 0
    ensures r.phase == s.phase && r.arrowArea == s.arrowArea && r.buttonAreas == s.buttonAreas
    ensures r.speed == (if s.initialized then DefaultSpeed else s.speed)
  {
    s.(initialized := true,
       vitals := Vitals(StartingHealth, StartingShield),
       passiveCounter := 0,
       immunity := NoImmunity,
       effects := Cleared,
       deathScreenAlpha := 0,
       speed := if s.initialized then DefaultSpeed else s.speed,
       score := 0,
       boosterPurchased := 0,
       shopExpanded := false,
       message := "",
       messageTimer := 0)
  }

  /** `handleKeyPress`: Start moves to Playing only once initialised; Death
      restarts the session from its starting values into Playing; Playing
      ignores the key. */
  function KeyPress(s: State): (r: State)
    ensures s.phase == Start ==> r == s.(phase := r.phase) && (r.phase == Playing <==> s.initialized)
    ensures s.phase == Playing ==> r == s
    ensures s.phase == Death ==>
              r.phase == Playing && r.initialized &&
              r.vitals == Vitals(StartingHealth, StartingShield) && r.passiveCounter == 0 &&
              r.immunity == NoImmunity && r.effects == Cleared && r.deathScreenAlpha == 0 && r.score == 0 &&
              r.boosterPurchased == 0 && !r.shopExpanded && r.message == "" && r.messageTimer == 0
    ensures Inv(s) ==> Inv(r)
  {
    match s.phase
    case Start => if s.initialized then s.(phase := Playing) else s
    case Playing => s
    case Death => Initialize(s).(phase := Playing)
  }

  /** A restart forgets the session it ends: two dead sessions that differ in
      anything but the last render's click areas restart into the same
      state. */
  lemma RestartForgetsSession(s: State, t: State)
    requires Inv(s) && Inv(t) && s.phase == Death && t.phase == Death
    requires s.arrowArea == t.arrowArea && s.buttonAreas == t.buttonAreas
    ensures KeyPress(s) == KeyPress(t)
  {
  }

  // ------------------------------------------------------------------- shop

  /** The click area item `k` was given at the last render, if any. */
  function AreaOf(s: State, k: nat): Option<ButtonArea> {
    if k < |s.buttonAreas| then s.buttonAreas[k] else None
  }

  /** The click lands on item `k`, which was shown as available. */
  predicate Hit(s: State, k: nat, x: real, y: real) {
    AreaOf(s, k).Some? && AreaOf(s, k).value.available && Contains(AreaOf(s, k).value.rect, x, y)
  }

  predicate ArrowHit(s: State, x: real, y: real) {
    s.arrowArea.Some? && Contains(s.arrowArea.value, x, y)
  }

  /** The item effects. Health and shield go up by the amount but never past
      their maximum; the speed boost lands only while the booster count is
      below its limit, and then counts one more purchase. Only the vitals,
      the speed and the booster count can change. */
  function ApplyEffect(effect: ItemEffect, s: State): (r: State)
    ensures r == s.(vitals := r.vitals, speed := r.speed, boosterPurchased := r.boosterPurchased)
    ensures effect.RestoreHealth? ==>
              r.vitals.shield == s.vitals.shield && r.speed == s.speed &&
              (s.vitals.health + effect.amount <= MaxHealth ==> r.vitals.health == s.vitals.health + effect.amount) &&
              (s.vitals.health + effect.amount > MaxHealth ==> r.vitals.health == MaxHealth)
    ensures effect.RestoreHealth? && effect.amount >= 0 && s.vitals.health <= MaxHealth ==>
              s.vitals.health <= r.vitals.health <= MaxHealth
    ensures effect.RestoreShield? ==>
              r.vitals.health == s.vitals.health && r.speed == s.speed &&
              (s.vitals.shield + effect.amount <= MaxShield ==> r.vitals.shield == s.vitals.shield + effect.amount) &&
              (s.vitals.shield + effect.amount > MaxShield ==> r.vitals.shield == MaxShield)
    ensures effect.RestoreShield? && effect.amount >= 0 && s.vitals.shield <= MaxShield ==>
              s.vitals.shield <= r.vitals.shield <= MaxShield
    ensures effect.IncreaseSpeed? ==>
              r.vitals == s.vitals &&
              (s.boosterPurchased < effect.limit ==>
                 r.speed == s.speed + effect.amount && r.boosterPurchased == s.boosterPurchased + 1) &&
              (s.boosterPurchased >= effect.limit ==> r == s)
  {
    match effect
    case RestoreHealth(amount) => s.(vitals := s.vitals.(health := Min(MaxHealth, s.vitals.health + amount)))
    case RestoreShield(amount) => s.(vitals := s.vitals.(shield := Min(MaxShield, s.vitals.shield + amount)))
    case IncreaseSpeed(amount, limit) =>
      if s.boosterPurchased < limit then
        s.(speed := s.speed + amount, boosterPurchased := s.boosterPurchased + 1)
      else s
  }

  /** Every catalog effect keeps the session invariant. */
  lemma CatalogEffectsKeepInv(s: State, k: nat)
    requires Inv(s) && k < |Catalog|
    ensures Inv(ApplyEffect(Catalog[k].effect, s))
  {
  }

  /** The body of the click loop once item `k` is hit and affordable: the
      cost is taken first, then the effect runs, then the message is shown. */
  function Purchase(s: State, k: nat): (r: State)
    requires k < |Catalog|
    ensures r.score == s.score - Catalog[k].cost
    ensures r.messageTimer == PurchaseMessageFrames && r.message == PurchasedMessage(Catalog[k])
    ensures r.phase == s.phase && r.shopExpanded == s.shopExpanded
    ensures r.arrowArea == s.arrowArea && r.buttonAreas == s.buttonAreas
  {
    var item := Catalog[k];
    ApplyEffect(item.effect, s.(score := s.score - item.cost))
      .(message := PurchasedMessage(item), messageTimer := PurchaseMessageFrames)
  }

  /** One iteration of the click loop over the catalog: the purchase happens
      exactly when the stored area of item `k` was available and holds the
      click, and the score still covers the cost. */
  function ItemClick(s: State, k: nat, x: real, y: real): (r: State)
    requires k < |Catalog|
    ensures r.score != s.score <==> Hit(s, k, x, y) && s.score >= Catalog[k].cost
    ensures r.score != s.score ==> r == Purchase(s, k)
    ensures r.score == s.score ==> r == s
    ensures Inv(s) ==> Inv(r)
  {
    if Hit(s, k, x, y) && s.score >= Catalog[k].cost then Purchase(s, k) else s
  }

  /** The first `n` iterations of the click loop. */
  function ClickItems(s: State, x: real, y: real, n: nat): (r: State)
    requires n <= |Catalog|
    ensures r.score <= s.score
    ensures r.score == s.score ==> r == s
    ensures r.score < s.score ==>
              r.messageTimer == PurchaseMessageFrames && exists k :: 0 <= k < n && Hit(s, k, x, y)
    ensures r.phase == s.phase && r.shopExpanded == s.shopExpanded
    ensures r.arrowArea == s.arrowArea && r.buttonAreas == s.buttonAreas
    ensures Inv(s) ==> Inv(r)
    decreases n
  {
    if n == 0 then s
    else
      var before := ClickItems(s, x, y, n - 1);
      assert Hit(before, n - 1, x, y) == Hit(s, n - 1, x, y);
      ItemClick(before, n - 1, x, y)
  }

  /** `handleShopClick`: outside Playing nothing happens; a click on the
      arrow toggles the shop and reports the click as handled; otherwise, in
      an expanded shop, the click runs the loop over the catalog. The score
      drops only through a purchase of an item whose stored area holds the
      click, and only when neither the phase nor the arrow stopped it. */
  function ShopClick(s: State, x: real, y: real): (r: (State, bool))
    ensures r.1 <==> s.phase == Playing && ArrowHit(s, x, y)
    ensures r.1 ==> r.0 == s.(shopExpanded := !s.shopExpanded)
    ensures !r.1 ==> r.0.shopExpanded == s.shopExpanded
    ensures r.0.score <= s.score
    ensures r.0.score < s.score ==>
              s.phase == Playing && !ArrowHit(s, x, y) && s.shopExpanded &&
              r.0.messageTimer == PurchaseMessageFrames &&
              exists k :: 0 <= k < |Catalog| && Hit(s, k, x, y)
    ensures !r.1 && r.0.score == s.score ==> r.0 == s
    ensures Inv(s) ==> Inv(r.0)
  {
    if s.phase != Playing then (s, false)
    else if ArrowHit(s, x, y) then (s.(shopExpanded := !s.shopExpanded), true)
    else if s.shopExpanded then (ClickItems(s, x, y, |Catalog|), false)
    else (s, false)
  }

  // ------------------------------------------------- click areas of a render

  /** The click area the renderer stores for row `k` of an expanded shop,
      with the availability of that moment. */
  function ItemArea(s: State, shopX: real, k: nat): ButtonArea
    requires k < |Catalog|
  {
    ButtonArea(Rect(shopX + 10.0, ItemTop + k as real * (ItemHeight + ItemMargin), ShopWidth - 20.0, ItemHeight),
               Available(Catalog[k], s.score, s.boosterPurchased))
  }

  /** What rendering the shop leaves behind for the click handler: nothing
      outside Playing; the arrow's area always; the item areas only while the
      shop is expanded (a collapsed shop keeps the old ones). The stored
      `available` flags are exact at the moment of the render. */
  function Layout(s: State, width: real, height: real): (r: State)
    ensures r == s.(arrowArea := r.arrowArea, buttonAreas := r.buttonAreas)
    ensures s.phase != Playing ==> r == s
    ensures s.phase == Playing ==> r.arrowArea.Some?
    ensures s.phase == Playing && !s.shopExpanded ==> r.buttonAreas == s.buttonAreas
    ensures s.phase == Playing && s.shopExpanded ==>
              |r.buttonAreas| == |Catalog| &&
              forall k :: 0 <= k < |Catalog| ==>
                AreaOf(r, k).Some? &&
                (AreaOf(r, k).value.available <==> Available(Catalog[k], s.score, s.boosterPurchased))
  {
    if s.phase != Playing then s
    else
      var shopX := if s.shopExpanded then width - ShopWidth else width - ShopCollapsedWidth;
      var areas := if s.shopExpanded then [Some(ItemArea(s, shopX, 0)), Some(ItemArea(s, shopX, 1)), Some(ItemArea(s, shopX, 2))]
                   else s.buttonAreas;
      var arrowX := if s.shopExpanded then shopX + 15.0 else shopX + ShopCollapsedWidth / 2.0;
      var arrowY := height / 2.0;
      s.(buttonAreas := areas,
         arrowArea := Some(Rect(arrowX - ArrowSize / 2.0, arrowY - ArrowSize / 2.0, ArrowSize, ArrowSize)))
  }

  /** The rows of a rendered shop do not overlap, so one click hits at most
      one item. */
  lemma RowsDisjoint(s: State, width: real, height: real, j: nat, k: nat, x: real, y: real)
    requires s.phase == Playing && s.shopExpanded
    requires Hit(Layout(s, width, height), j, x, y) && Hit(Layout(s, width, height), k, x, y)
    ensures j == k
  {
    var t := Layout(s, width, height);
    var shopX := width - ShopWidth;
    assert j < |Catalog| && k < |Catalog|;
    assert t.buttonAreas[j] == Some(ItemArea(s, shopX, j));
    assert t.buttonAreas[k] == Some(ItemArea(s, shopX, k));
  }

  /** When no item but `hit` can be hit, the click loop does exactly what
      its iteration for `hit` does. */
  lemma SingleHitClick(t: State, x: real, y: real, hit: nat)
    requires hit < |Catalog|
    requires forall k :: 0 <= k < |Catalog| && k != hit ==> !Hit(t, k, x, y)
    ensures ClickItems(t, x, y, |Catalog|) == ItemClick(t, hit, x, y)
  {
    var c1 := ClickItems(t, x, y, 1);
    var c2 := ClickItems(t, x, y, 2);
    var c3 := ClickItems(t, x, y, 3);
    assert c1 == ItemClick(t, 0, x, y);
    assert c2 == ItemClick(c1, 1, x, y);
    assert c3 == ItemClick(c2, 2, x, y);
    // the loop never changes the stored areas, so every iteration sees the
    // hits that `t` has
    assert AreaOf(c1, 1) == AreaOf(t, 1) && AreaOf(c1, 2) == AreaOf(t, 2) && AreaOf(c2, 2) == AreaOf(t, 2);
    if hit == 0 {
      assert !Hit(t, 1, x, y) && !Hit(t, 2, x, y);
      assert !Hit(c1, 1, x, y) && !Hit(c2, 2, x, y);
    } else if hit == 1 {
      assert !Hit(t, 0, x, y) && !Hit(t, 2, x, y);
      assert c1 == t;
      assert !Hit(c2, 2, x, y);
    } else {
      assert !Hit(t, 0, x, y) && !Hit(t, 1, x, y);
      assert c1 == t;
      assert c2 == t;
    }
  }

  /** A click handled right after a render is all-or-nothing: either nothing
      changes, or exactly one item is bought, the player could afford it and
      was under its limit, its full cost is paid and its full effect
      applied. */
  lemma FreshClickIsAtomic(s: State, width: real, height: real, x: real, y: real)
    requires Inv(s) && s.phase == Playing
    requires !ArrowHit(Layout(s, width, height), x, y)
    ensures var t := Layout(s, width, height);
            var r := ShopClick(t, x, y).0;
            r == t ||
            exists k :: 0 <= k < |Catalog| && Hit(t, k, x, y) &&
              Available(Catalog[k], s.score, s.boosterPurchased) && r == Purchase(t, k)
  {
    var t := Layout(s, width, height);
    var r := ShopClick(t, x, y).0;
    if r != t {
      assert s.shopExpanded && r == ClickItems(t, x, y, |Catalog|);
      var hit :| 0 <= hit < |Catalog| && Hit(t, hit, x, y);
      forall k | 0 <= k < |Catalog| && k != hit
        ensures !Hit(t, k, x, y)
      {
        if Hit(t, k, x, y) {
          RowsDisjoint(s, width, height, hit, k, x, y);
        }
      }
      SingleHitClick(t, x, y, hit);
      assert AreaOf(t, hit).value.available;
      assert Available(Catalog[hit], s.score, s.boosterPurchased);
      assert r == Purchase(t, hit);
    }
  }

  /** What an available purchase does in full. */
  lemma AvailablePurchaseTakesEffect(s: State, k: nat)
    requires Inv(s) && k < |Catalog| && Available(Catalog[k], s.score, s.boosterPurchased)
    ensures var r := Purchase(s, k);
            r.score == s.score - Catalog[k].cost && r.score >= 0 &&
            (k == 0 ==> r.vitals == Vitals(Min(MaxHealth, s.vitals.health + 20), s.vitals.shield)) &&
            (k == 1 ==> r.vitals == Vitals(s.vitals.health, Min(MaxShield, s.vitals.shield + 20))) &&
            (k == BoosterIndex ==> r.vitals == s.vitals &&
                                   r.speed == s.speed + 2 && r.boosterPurchased == s.boosterPurchased + 1) &&
            (k != BoosterIndex ==> r.speed == s.speed && r.boosterPurchased == s.boosterPurchased) &&
            Inv(r)
  {
  }

  /** The purchase is not atomic once the stored flag is stale: a booster
      click whose stored area still says `available` while the limit has been
      reached is charged in full and has no effect. */
  lemma StaleBoosterClickIsCharged(s: State, x: real, y: real)
    requires s.phase == Playing && s.shopExpanded && !ArrowHit(s, x, y)
    requires !Hit(s, 0, x, y) && !Hit(s, 1, x, y) && Hit(s, BoosterIndex, x, y)
    requires s.boosterPurchased >= BoosterLimit && s.score >= SpeedBooster.cost
    ensures var r := ShopClick(s, x, y).0;
            r.score == s.score - SpeedBooster.cost && r.speed == s.speed &&
            r.boosterPurchased == s.boosterPurchased && r.messageTimer == PurchaseMessageFrames
  {
    var c1 := ClickItems(s, x, y, 1);
    var c2 := ClickItems(s, x, y, 2);
    assert c1 == s && c2 == s;
  }

  /** The stale flag arises with no render between two clicks: from four
      boosters and enough coins for two, two clicks on the booster row of
      one render buy the fifth booster and then pay for a sixth that never
      arrives. */
  lemma DoubleClickPaysForNothing(s: State, width: real, height: real, x: real, y: real)
    requires Inv(s) && s.phase == Playing && s.shopExpanded
    requires s.boosterPurchased == BoosterLimit - 1 && s.score >= 2 * SpeedBooster.cost
    requires Hit(Layout(s, width, height), BoosterIndex, x, y) && !ArrowHit(Layout(s, width, height), x, y)
    ensures var once := ShopClick(Layout(s, width, height), x, y).0;
            var twice := ShopClick(once, x, y).0;
            once.boosterPurchased == BoosterLimit && once.speed == s.speed + 2 &&
            twice.boosterPurchased == BoosterLimit && twice.speed == once.speed &&
            twice.score == once.score - SpeedBooster.cost
  {
    var t := Layout(s, width, height);
    var once := ShopClick(t, x, y).0;
    FreshClickIsAtomic(s, width, height, x, y);
    forall k | 0 <= k < |Catalog| && k != BoosterIndex
      ensures !Hit(t, k, x, y)
    {
      if Hit(t, k, x, y) {
        RowsDisjoint(s, width, height, BoosterIndex, k, x, y);
      }
    }
    assert once == Purchase(t, BoosterIndex);
    assert once.buttonAreas == t.buttonAreas && once.arrowArea == t.arrowArea;
    assert !Hit(t, 0, x, y) && !Hit(t, 1, x, y);
    assert AreaOf(once, 0) == AreaOf(t, 0) && AreaOf(once, 1) == AreaOf(t, 1) && AreaOf(once, 2) == AreaOf(t, 2);
    StaleBoosterClickIsCharged(once, x, y);
  }

  // -------------------------------------------------------------- scenarios

  /** A rock hit of 15 on a fresh boat (health 100, shield 10) empties the
      shield, leaves health at 100 and starts the rock tint and shake. */
  lemma RockHitOnFreshShield(s: State)
    requires s.vitals == Vitals(StartingHealth, StartingShield)
    ensures var r := TakeDamage(s, 15, Rock);
            r.vitals == Vitals(100, 0) && r.effects.tintAlpha == 7 && r.effects.shakeAmount == 2.0
  {
  }

  /** The 60th frame of a boat with 1 health and no shield kills it in that
      same frame. */
  lemma FatalPassiveFrame(s: State)
    requires s.phase == Playing && s.passiveCounter == PassiveDamageInterval - 1
    requires s.vitals == Vitals(1, 0)
    ensures Tick(s).vitals.health == 0 && Tick(s).phase == Death
  {
  }

  /** With 12 coins, a click on an available Health Potion row buys it and
      leaves 2 coins and a 120-frame message; with 5 coins the same click
      changes nothing. */
  lemma PotionPurchase(s: State, x: real, y: real)
    requires s.phase == Playing && s.shopExpanded && !ArrowHit(s, x, y)
    requires Hit(s, 0, x, y) && !Hit(s, 1, x, y) && !Hit(s, BoosterIndex, x, y)
    ensures s.score == 12 ==> ShopClick(s, x, y).0.score == 2 && ShopClick(s, x, y).0.messageTimer == 120
    ensures s.score == 5 ==> ShopClick(s, x, y).0 == s
  {
    var c1 := ClickItems(s, x, y, 1);
    var c2 := ClickItems(s, x, y, 2);
    assert AreaOf(c1, 1) == AreaOf(s, 1) && AreaOf(c1, 2) == AreaOf(s, 2) && AreaOf(c2, 2) == AreaOf(s, 2);
    assert !Hit(c1, 1, x, y) && !Hit(c2, 2, x, y);
  }
}
