/** The value types and entities of the herblore aspect registry: aspects, their tiers
    and types, item keys, per-item rules, aspect definitions and computed item aspects. */
module Aspects {

  datatype Option<+T> = None | Some(value: T)

  /** The fourteen aspect singletons the registry declares. Aspects are only ever
      compared by identity, which for these constants is datatype equality. */
  datatype Aspect =
    | Azuwynn | Armaniis | Byariis | Byrginaz | Celawynn | Dayuniis | Fergalaz
    | Firnalaz | Freiwynn | Geoliirgaz | Ordaniis | Yeowynn | Yunugaz | Yihinren

  datatype AspectTier = Common | Uncommon | Rare

  datatype AspectType = Herb

  /** A game item; only its identity is observed. */
  datatype Item = Item(id: nat)

  /** A stack of a game item with its damage (variant) value. */
  datatype ItemStack = ItemStack(item: Item, damage: int)

  /** The key under which an item's rules and results are stored. A damage of -1
      is the "any damage" pattern, but only MatchItemStack treats it so. */
  datatype ItemEntry = ItemEntry(item: Item, damage: int) {

    /** Key equality: same item and same damage, with no wildcard. */
    predicate Equals(other: ItemEntry) {
      other.item == item && other.damage == damage
    }

    predicate MatchItemStack(stack: ItemStack) {
      stack.item == item && (damage == -1 || stack.damage == damage)
    }

    predicate MatchItem(other: Item) {
      item == other
    }
  }

  /** The key for every damage value of an item. */
  function AnyDamage(item: Item): ItemEntry {
    ItemEntry(item, -1)
  }

  /** The key of a concrete stack. */
  function OfStack(stack: ItemStack): ItemEntry {
    ItemEntry(stack.item, stack.damage)
  }

  /** Key equality is plain value equality: a wildcard key equals only itself. */
  lemma EqualsIsValueEquality(a: ItemEntry, b: ItemEntry)
    ensures a.Equals(b) <==> a == b
    ensures a.Equals(b) <==> b.Equals(a)
  {
  }

  /** A stack match is either key equality with the stack's own key or a wildcard
      key on the same item. */
  lemma MatchItemStackIsEqualsOrWildcard(e: ItemEntry, stack: ItemStack)
    ensures e.MatchItemStack(stack) <==> e.Equals(OfStack(stack)) || (e.damage == -1 && e.MatchItem(stack.item))
  {
  }

  /** The wildcard key matches every stack of its item but equals only the key with damage -1. */
  lemma WildcardOnlyMatchesStacks(item: Item, damage: int)
    ensures AnyDamage(item).MatchItemStack(ItemStack(item, damage))
    ensures AnyDamage(item).Equals(ItemEntry(item, damage)) <==> damage == -1
  {
  }

  /** One rule of an item: the tier and type of aspect it accepts, with the amount
      multiplier and variation applied to a drawn aspect. */
  datatype ItemEntryAspects = ItemEntryAspects(
    item: ItemEntry,
    tier: AspectTier,
    aspectType: AspectType,
    amountMultiplier: real,
    amountVariation: real)

  /** A registered aspect definition. Definitions are objects: two registrations with
      equal fields are still different candidates for the draw. */
  class AspectEntry {
    const aspect: Aspect
    const tier: AspectTier
    const aspectType: AspectType
    const baseAmount: real

    constructor (aspect: Aspect, tier: AspectTier, aspectType: AspectType, baseAmount: real)
      ensures this.aspect == aspect && this.tier == tier
      ensures this.aspectType == aspectType && this.baseAmount == baseAmount
    {
      this.aspect := aspect;
      this.tier := tier;
      this.aspectType := aspectType;
      this.baseAmount := baseAmount;
    }

    /** A definition fits a rule when tier and type agree. */
    predicate MatchEntry(itemEntry: ItemEntryAspects) {
      itemEntry.tier == tier && itemEntry.aspectType == aspectType
    }
  }

  /** An aspect assigned to an item with its computed amount. */
  class ItemAspect {
    const aspect: Aspect
    const amount: real

    constructor (aspect: Aspect, amount: real)
      ensures this.aspect == aspect && this.amount == amount
    {
      this.aspect := aspect;
      this.amount := amount;
    }
  }
}
