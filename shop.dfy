// The shop catalog, the rectangles the last rendered frame left behind for
// click detection, and the purchase-eligibility test (gameplay.js,
// `SHOP_ITEMS`, `_buttonArea`, `shopArrowArea`, `handleShopClick`).

module Shop {

  datatype Option<T> = None | Some(value: T)

  /** An axis-aligned rectangle in canvas pixels. */
  datatype Rect = Rect(x: real, y: real, width: real, height: real)

  /** What the last render stored for one item: its rectangle and whether it
      was shown as purchasable at that moment. */
  datatype ButtonArea = ButtonArea(rect: Rect, available: bool)

  /** The rectangle hit-test: both edges are inclusive. */
  predicate Contains(r: Rect, px: real, py: real) {
    r.x <= px <= r.x + r.width && r.y <= py <= r.y + r.height
  }

  /** The item effects, in place of the source's closures. */
  datatype ItemEffect =
    | RestoreHealth(amount: int)
    | RestoreShield(amount: int)
    | IncreaseSpeed(amount: int, limit: int)  // guarded by the booster's purchase count

  datatype ShopItem = ShopItem(name: string, description: string, cost: int,
                               maxPurchases: Option<int>, effect: ItemEffect)

  const BoosterLimit: int := 5
  const PurchaseMessageFrames: int := 120

  const HealthPotion: ShopItem := ShopItem("Health Potion", "Restore 20 health", 10, None, RestoreHealth(20))
  const ShieldDevice: ShopItem := ShopItem("Shield Device", "Restore 20 shield", 15, None, RestoreShield(20))
  const SpeedBooster: ShopItem :=
    ShopItem("Speed Booster", "Increase speed by 2", 50, Some(BoosterLimit), IncreaseSpeed(2, BoosterLimit))

  /** `SHOP_ITEMS` in its key order, which is the order of the click loop and
      of the rendered rows. */
  const Catalog: seq<ShopItem> := [HealthPotion, ShieldDevice, SpeedBooster]
  const BoosterIndex: nat := 2

  /** The text of the purchase message for `item`. */
  function PurchasedMessage(item: ShopItem): string {
    item.name + " purchased!"
  }

  /** The `available` flag the renderer stores: the player can afford the
      item and, for a limited item, has not yet bought it `maxPurchases`
      times (`purchased` is the Speed Booster's counter, the only one kept). */
  predicate Available(item: ShopItem, score: int, purchased: int) {
    var canAfford := score >= item.cost;
    var canPurchase := item.maxPurchases.None? || purchased < item.maxPurchases.value;
    canAfford && canPurchase
  }
}
