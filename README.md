# Boat game session: damage, effects, shop and phases

A Dafny model of the gameplay state machine of a small top-down boat game
(`gameplay.js`). The session holds:

- the boat's health and shield;
- a passive-damage counter;
- the transient red tint and screen shake that follow a hit;
- the coin score and the shop catalog (Health Potion, Shield Device, Speed Booster);
- the shop's purchase message and its timer;
- the game phase (Start, Playing, Death).

The frame tick (`updateGameplay`), damage (`takeDamage`), the key handler
(`handleKeyPress`), restart (`initializeGameplay`) and the shop click handler
(`handleShopClick`) change that state in place.

The files:

- `damage.dfy` (module `Damage`): the boat constants and `Absorb`, the health/shield
  half of `takeDamage`.
- `effects.dfy` (module `Effects`): the tint/shake state, the effect a hit starts
  (`Trigger`), one frame of decay (`Decay`), and lemmas that every effect dies out.
- `shop.dfy` (module `Shop`): the catalog, with item effects as a tagged datatype
  instead of closures, the click rectangles and the inclusive hit-test.
- `session.dfy` (module `Session`): the whole session as a value `State`, with every
  operation as a function from the old state to the new one. It also holds the
  invariant `Inv` and the lemmas about several steps: passive cadence, restart,
  purchase atomicity right after a render, and the stale-flag purchase.
- `gameplay.dfy` (module `Gameplay`): class `GameSession`, with one field per piece
  of mutable state. Each method does what the matching source function does, step
  by step, and proves that it leaves `Snapshot()` equal to the matching `Session`
  function of the old snapshot. So everything proved in `Session` holds for the
  methods too.

Notes on what the code does, which the model follows:

- A purchase is not atomic. The click handler trusts the `available` flag the
  last render stored. It re-checks only the score. The Speed Booster's limit is
  checked inside its effect, after the cost has been deducted. Two clicks with no
  render between them can therefore pay for a sixth booster that never arrives
  (`Session.DoubleClickPaysForNothing`).
- Restart resets the boat's speed only when the game has been initialised before.
- Restart does not clear the click areas of the last render.

## Model

| member | source | states |
|---|---|---|
| `Damage.Absorb` | gameplay.js:201-219 | a shield that is up on entry takes the hit: health unchanged, shield max(0, shield − amount), overflow discarded; with no shield, health becomes max(0, health − amount) and the shield is untouched; health and shield stay in [0, 100] |
| `Effects.Trigger` | gameplay.js:221-239 | every hit sets the tint counter to 4 with a positive tint; land and rock set the shake counter to 4 with a positive shake; passive damage leaves both shake fields untouched; well-formed effects stay well-formed |
| `Effects.TriggerTable` | gameplay.js:23-35 | tint 10/7/3 for land/rock/passive, shake 3/2 for land/rock, both counters 4; land > rock > passive |
| `Effects.Decay` | gameplay.js:172-196 | a positive counter drops by exactly 1, and the tint keeps its amount; an expired counter stays put and forces its amount to 0; the shake never grows, strictly shrinks while positive, and never goes negative |
| `Effects.TintSettles` | gameplay.js:174-178 | after more than `tintDuration` frames without a hit the tint is 0 and its counter 0 |
| `Effects.ShakeSettles` | gameplay.js:181-195 | after more than `shakeDuration` frames without a hit the shake is 0 and its counter 0 |
| `Effects.EffectsSettle` | gameplay.js:172-196 | with no new hit, both tint and shake are 0 within one frame more than the longer counter |
| `Effects.DecayNWellFormed` | gameplay.js:172-196 | any number of decay frames keeps counters and amounts non-negative |
| `Session.InitialIsValid` | gameplay.js:8-92 | the module's initial values satisfy the session invariant, in Start and not yet initialised |
| `Session.TakeDamage` | gameplay.js:198-240 | a non-positive amount changes nothing; otherwise only vitals and effects change, the tint restarts, and the session invariant (health, shield in [0, 100]) is kept |
| `Session.Tick` | gameplay.js:147-170 | outside Playing nothing changes; in Playing the counter becomes (counter + 1) mod 60, the passive hit lands exactly when it wraps, the message timer becomes max(0, timer − 1), effects decay, the phase is Death exactly when health ≤ 0 after the passive hit, and then the death-screen alpha is 0; nothing else changes: score, speed, booster count, shop display, message, immunity flags, `initialized` and click areas stay as they were |
| `Session.IdleTicks` | gameplay.js:148 | any number of frames outside Playing leave the session unchanged |
| `Session.PassiveCadence` | gameplay.js:150-155 | while still Playing after n frames, the counter equals (counter + n) mod 60, so the passive hit lands on exactly every 60th frame, and the invariant holds |
| `Session.CounterCadence` | gameplay.js:150-155 | from a counter in [0, 60), while still Playing after n frames the counter stands at (counter + n) mod 60 |
| `Session.TickNKeepsInv` | gameplay.js:147-170 | any number of frames keeps the session invariant |
| `Session.Initialize` | gameplay.js:94-145 | health 100, shield 10, counter 0, immunity and effects cleared, death-screen alpha 0, score 0, booster count 0, shop collapsed, message empty and timer 0; the result is initialised and satisfies the invariant; phase and stored click areas are kept; speed is reset to 3 only if the game was initialised before |
| `Session.KeyPress` | gameplay.js:542-552 | Start moves to Playing iff initialised and changes nothing else; Playing is unchanged; Death restarts into Playing with health 100, shield 10, counter 0, immunity and effects cleared, death-screen alpha 0, score 0, booster count 0, shop collapsed, message empty and timer 0 |
| `Session.RestartForgetsSession` | gameplay.js:547-551 | two valid dead sessions with the same stored click areas restart into the same state |
| `Session.ApplyEffect` | gameplay.js:59-82 | health (shield) becomes health + amount when that is at most 100, and 100 otherwise, leaving the other vital and the speed alone; it never falls; the speed boost adds its amount and counts a purchase only below the limit, otherwise changes nothing; nothing but vitals, speed and booster count changes |
| `Session.CatalogEffectsKeepInv` | gameplay.js:54-84 | every catalog effect keeps the session invariant, including booster count ≤ 5 |
| `Session.Purchase` | gameplay.js:573-577 | a purchase lowers the score by exactly the item's cost, shows "<name> purchased!" for 120 frames, and leaves phase, shop state and click areas alone |
| `Session.ItemClick` | gameplay.js:567-580 | the score changes iff the item's stored area is available and holds the click and the score covers the cost; then the result is that purchase, otherwise nothing changes; the invariant is kept |
| `Session.ClickItems` | gameplay.js:566-582 | the loop never raises the score; if the score is unchanged nothing changed; a lower score means a stored available area holds the click and the timer is 120; the invariant is kept |
| `Session.ShopClick` | gameplay.js:554-585 | reports a click as handled iff Playing and on the arrow, and then only toggles the shop; a lower score requires Playing, no arrow hit, an expanded shop and an available stored area holding the click; otherwise nothing changes; the invariant (score ≥ 0, booster count ≤ 5) is kept |
| `Session.Layout` | gameplay.js:372-511 | a render changes only the stored click areas; nothing outside Playing; the arrow area always; item areas only when expanded, and their `available` flags equal the eligibility at that moment |
| `Session.RowsDisjoint` | gameplay.js:393-399 | the item rows of a render do not overlap, so one click hits at most one item |
| `Session.SingleHitClick` | gameplay.js:566-582 | when only one item can be hit, the click loop equals that item's iteration |
| `Session.FreshClickIsAtomic` | gameplay.js:566-580 | right after a render, a click either changes nothing or buys exactly one item that was affordable and under its limit, with full cost and full effect |
| `Session.AvailablePurchaseTakesEffect` | gameplay.js:573-576 | an available purchase costs exactly its price and keeps score ≥ 0; the potion sets health to min(100, health + 20), the shield device sets the shield to min(100, shield + 20), the booster leaves the vitals and adds 2 speed and one purchase; the other items leave speed and count alone; the invariant is kept |
| `Session.StaleBoosterClickIsCharged` | gameplay.js:569-575 | a booster click on a stale `available` flag with the limit reached costs 50 coins and shows the message, but adds no speed and no purchase |
| `Session.DoubleClickPaysForNothing` | gameplay.js:461-467 | with 4 boosters and 100+ coins, two clicks on one render's booster row buy the fifth and then charge 50 more for nothing |
| `Session.RockHitOnFreshShield` | gameplay.js:204-233 | a rock hit of 15 on health 100, shield 10 gives shield 0, health 100, tint 7, shake 2 |
| `Session.FatalPassiveFrame` | gameplay.js:151-169 | the 60th frame at health 1 and no shield brings health to 0 and the phase to Death in that frame |
| `Session.PotionPurchase` | gameplay.js:566-579 | with 12 coins a hit on the potion row leaves 2 coins and a 120-frame message; with 5 coins nothing changes |
| `Gameplay.GameSession.constructor` | gameplay.js:8-92 | builds the module's initial state, which is valid |
| `Gameplay.GameSession.TakeDamage` | gameplay.js:198-240 | performs `takeDamage` in place, leaving `Session.TakeDamage` of the old state, and keeps the invariant |
| `Gameplay.GameSession.UpdateDamageEffects` | gameplay.js:172-196 | performs the decay in place: only the effect fields change, to `Decay` of the old ones |
| `Gameplay.GameSession.UpdateGameplay` | gameplay.js:147-170 | performs one frame in place, leaving `Session.Tick` of the old state, and keeps the invariant |
| `Gameplay.GameSession.ApplyPassiveDamage` | gameplay.js:150-155 | advances the passive counter in place and lands the passive hit when it reaches 60 |
| `Gameplay.GameSession.InitializeGameplay` | gameplay.js:94-145 | performs the reset in place, leaving `Session.Initialize` of the old state, which is valid |
| `Gameplay.GameSession.ResetBoat` | gameplay.js:95-117 | resets vitals, counter, immunity, effects and death-screen alpha, and nothing else |
| `Gameplay.GameSession.ResetShop` | gameplay.js:135-142 | resets score, booster count, shop expansion and the message, and nothing else |
| `Gameplay.GameSession.HandleKeyPress` | gameplay.js:542-552 | performs the phase transition in place, leaving `Session.KeyPress` of the old state, and keeps the invariant |
| `Gameplay.GameSession.RunEffect` | gameplay.js:59-82 | runs an item effect in place, leaving `Session.ApplyEffect` of the old state |
| `Gameplay.GameSession.TryPurchase` | gameplay.js:567-580 | runs one iteration of the click loop in place, leaving `Session.ItemClick` of the old state |
| `Gameplay.GameSession.HandleShopClick` | gameplay.js:554-585 | runs the handler with its loop over the catalog, returning and leaving what `Session.ShopClick` gives, and keeps the invariant |
| `Gameplay.GameSession.RecordShopLayout` | gameplay.js:372-511 | stores the click areas a render of the shop leaves, as `Session.Layout` computes them |

## Left out

- Drawing (gameplay.js:242-540): canvas calls only. The one exception is the
  click-area snapshot that `drawShop` stores, modelled by `Session.Layout`.
- The death-screen fade increment (gameplay.js:278) and `startScreenAlpha`: they
  happen inside drawing. Only the resets of `deathScreenAlpha` to 0 are modelled.
- Boat position, direction, camera and `ensureBoatSpawnOnWater` (gameplay.js:121-133):
  they belong to other parts of the game. Only `boat.speed` is kept, as an integer.
- Collision edge detection: the code that sets the immunity flags and calls
  `takeDamage` with land or rock damage is not part of this model. The flags are
  only declared and reset here.
- Score accrual from coin pickups (and `totalScore`): it is external. The score is
  state that starts at 0 and may be any non-negative value when a click arrives.
- `console.log` (gameplay.js:578): it has no effect on state.
- `score`, `damageEffect` and `boat` are declared outside gameplay.js. The
  constructor starts with score 0, cleared effects and a given boat speed.
- Floating point: the ×0.7 shake falloff and the 0.1 snap use exact `real`
  arithmetic, not IEEE-754 doubles. Click coordinates and rectangles are reals too.
- JavaScript numbers: health, shield, score, counters and speed are unbounded
  integers. Every value here stays small.
- Source strings: `takeDamage` with a source other than 'land', 'rock' or 'passive'
  applies the damage and starts no effect. `Damage.Source` has only the three
  strings the code uses.
- Session.Tick: the message-timer clause is stated for a non-negative timer, the
  only timer a valid session has.
