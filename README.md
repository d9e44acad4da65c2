# Herblore aspect registry — a Dafny model

This project models the aspect allocator of the Betweenlands herblore system,
`AspectRegistry`. The registry holds three kinds of data:

- the registered aspect definitions (`AspectEntry`: an aspect, a tier, a type and a
  base amount);
- per item, an insertion-ordered list of rules (`ItemEntryAspects`: a tier, a type,
  an amount multiplier and a variation), one rule per aspect slot;
- after a load, the merged aspects computed for each item (`ItemAspect`).

`loadAspects(seed)` walks the items in insertion order. All items share one pool,
which starts as a copy of every registered definition. For each item:

1. Fill one slot per rule. Each slot draws a random definition from the pool
   definitions that fit some rule. A definition leaves the candidate list once it is
   drawn, and the list is rebuilt when it runs dry.
2. If nothing in the pool fits, fill the slots from every registered definition
   instead.
3. Take out of the pool every definition of an aspect the item received.
4. Merge the item's draws by aspect, summing the amounts.

Modules:

| module | file | contents |
|---|---|---|
| `Aspects` | `aspects.dfy` | The value types and objects: the fourteen aspects, tiers and types, item keys, rules, and the `AspectEntry` and `ItemAspect` classes. |
| `ItemMap` | `item_map.dfy` | The insertion-ordered maps, as sequences of bindings that are searched for the first key equal to the given one. |
| `JavaRandom` | `random.dfy` | The seeded generator (`nextInt`, `nextFloat`) and `Collections.shuffle`. |
| `Pool` | `pool.dfy` | The candidate list as a function (`PossibleAspects`), and the depletion of the pool by aspect (`Without`, `RemoveAll`). |
| `Merging` | `merge.dfy` | The merge by aspect as a function over value snapshots (`Portion`). |
| `Loading` | `loading.dfy` | One item's turn as methods with loops (`FillItemAspects`, `FillPossibleAspects`, `MergeAspects`, `RemoveAvailableAspect`). Each method is proved against the functions above. |
| `Registry` | `registry.dfy` | The `AspectRegistry` class: registration, the load, the lookups, and the invariant the load keeps across items (`Allocation`). |

The methods of `Loading` and `Registry` are proved against functions and predicates
that say what they compute:

- `FillPossibleAspects` against `PossibleAspects`;
- `RemoveAvailableAspect` against `Without`, and `RemoveDrawnAspects` against `RemoveAll`;
- `MergeAspects` against `Merge`;
- `FillItemAspects` against the draws it made (`Draw`, `Portions`, `DistinctRound`) and `AnyMatch`;
- `FillOrFallback` and `LoadItem` against `ItemLoaded`;
- `AddAspectsToItem` against `KeyIndex` and `Copies`;
- `RegisterAspect` against the previous state;
- `LoadAspects` against the invariant `Allocation`;
- `GetItemAspects` and `GetAspects` against `ValueOr`.

The lemmas about those functions prove what the allocator promises:

- each item's result has one record per aspect, and each record's amount is the sum
  of all draws of its aspect;
- the result is never longer than the item's rule list;
- the result is empty exactly when no registered definition fits any of the item's
  rules;
- after an item's turn the pool holds exactly the definitions whose aspect the item
  did not receive;
- an item served from the pool shares no aspect with any item before it;
- a drawn definition leaves the candidate list, so while the first candidate list
  lasts no definition is drawn twice.

Small helper functions, used where the methods above need them:

- `View` gives the aspect and amount of each item aspect, in order. `MergeAspects`
  states its result through it.
- `Portions` gives the aspect and amount each draw produces. `FillItemAspects` and
  `MergeAspects` use it.
- `DrawnAspects` and `AspectsOf` list the aspects of draws and of item aspects.
  `RemoveDrawnAspects` and `GetAspects` use them.
- `RemoveAt`, `ViewConcat`, `ViewSlices`, `MergeStepNew`, `MergeStepFound`,
  `AppendFrom` and `AppendDraw` are proof steps for the loops of `MergeAspects` and
  `FillItemAspects`.

Behaviours of the code the model keeps:

- **Key equality.** Damage -1 reads like an "any damage" pattern, but only
  `matchItemStack` treats it so (`Aspects.MatchItemStackIsEqualsOrWildcard`,
  `Aspects.WildcardOnlyMatchesStacks`). `equals` is strict: same item and same
  damage. Registration and lookup use `equals`.
- **Merge order.** The merge does not keep first-seen order. A repeated aspect's record
  is removed and the summed record is appended at the end
  (`Merging.MergeMovesRepeatsToEnd`).
- **Refill filter.** The refill of the candidate list passes the item's aspects as an
  exclusion list only when the item has fewer slots than first-round candidates. In
  that case the list never runs dry, so no refill happens. `Loading.FillItemAspects`
  asserts that every refill passes no exclusion list. The filter would exclude nothing
  even if it were applied. The list holds `ItemAspect` objects and is searched for an
  `AspectEntry`, and objects of two different classes are never equal.
  `Loading.FillPossibleAspects` returns the same list with or without it.
- **Multiplicity.** A non-positive multiplicity in `addAspectsToItem` is not rejected.
  It still adds the key, with no rules.
- **Amounts.** Amounts are not clamped. A variation above one can make an amount
  negative (`Loading.AmountCanBeNegative`).

## Model

| member | source | states |
|---|---|---|
| Aspects.ItemEntry.Equals | java/thebetweenlands/herblore/aspects/AspectRegistry.java:112-118 | Defines key equality: same item and same damage. `EqualsIsValueEquality` proves it is plain value equality. |
| Aspects.ItemEntry.MatchItemStack | java/thebetweenlands/herblore/aspects/AspectRegistry.java:103-105 | Defines the stack match, where damage -1 accepts any damage. `MatchItemStackIsEqualsOrWildcard` relates it to `Equals`. |
| Aspects.ItemEntry.MatchItem | java/thebetweenlands/herblore/aspects/AspectRegistry.java:107-109 | Defines the item match: the same item, whatever the damage. |
| Aspects.AnyDamage | java/thebetweenlands/herblore/aspects/AspectRegistry.java:95-97 | The key built from an item alone, with damage -1. `WildcardOnlyMatchesStacks` proves it matches every stack of the item but equals only itself. |
| Aspects.OfStack | java/thebetweenlands/herblore/aspects/AspectRegistry.java:99-101 | The key built from a stack: its item and its damage. `MatchItemStackIsEqualsOrWildcard` states the stack match through it. |
| Aspects.EqualsIsValueEquality | java/thebetweenlands/herblore/aspects/AspectRegistry.java:111-118 | Key equality holds exactly when item and damage are both equal, and it is symmetric. A wildcard key equals only itself. |
| Aspects.MatchItemStackIsEqualsOrWildcard | java/thebetweenlands/herblore/aspects/AspectRegistry.java:103-105 | A key matches a stack exactly when it equals the stack's own key, or when it has damage -1 and the same item. |
| Aspects.WildcardOnlyMatchesStacks | java/thebetweenlands/herblore/aspects/AspectRegistry.java:95-105 | The any-damage key of an item matches every stack of that item, but equals a key only when that key's damage is -1. |
| Aspects.AspectEntry.constructor | java/thebetweenlands/herblore/aspects/AspectRegistry.java:59-64 | A definition stores its aspect, tier, type and base amount. |
| Aspects.AspectEntry.MatchEntry | java/thebetweenlands/herblore/aspects/AspectRegistry.java:66-68 | Defines when a definition fits a rule: same tier and same type. `Pool.PossibleAspectsMembers` and `Loading.Draw.From` build on it. |
| ItemMap.KeyIndex | java/thebetweenlands/herblore/aspects/AspectRegistry.java:139-144 | The entry-set scan finds the first key equal to the given one. No earlier key is equal, and it finds nothing exactly when no key is equal. |
| ItemMap.KeyIndexUnique | java/thebetweenlands/herblore/aspects/AspectRegistry.java:122-123 | With distinct keys, looking up a stored key finds that binding and its value. |
| ItemMap.ValueOr | java/thebetweenlands/herblore/aspects/AspectRegistry.java:244-251 | Defines the value under the first equal key, or a default. `GetItemAspects` and `GetAspects` are proved against it. |
| JavaRandom.Random.constructor | java/thebetweenlands/herblore/aspects/AspectRegistry.java:156-157 | A fresh generator is seeded with the load's seed and has drawn nothing. |
| JavaRandom.Random.NextInt | java/thebetweenlands/herblore/aspects/AspectRegistry.java:215 | A draw for a positive bound lies in [0, bound) and consumes one value of the stream. |
| JavaRandom.Random.NextFloat | java/thebetweenlands/herblore/aspects/AspectRegistry.java:226 | A float draw lies in [0, 1) and consumes one value of the stream. |
| JavaRandom.Shuffle | java/thebetweenlands/herblore/aspects/AspectRegistry.java:218 | Shuffling keeps the length and is a permutation of the rule list. |
| JavaRandom.Swap | java/thebetweenlands/herblore/aspects/AspectRegistry.java:218 | One step of the shuffle exchanges two positions, leaves the rest alone and keeps the multiset. |
| Pool.Scan | java/thebetweenlands/herblore/aspects/AspectRegistry.java:235-239 | Defines the inner loop over the pool for one rule. `ScanFacts` states what it adds. |
| Pool.Sweep | java/thebetweenlands/herblore/aspects/AspectRegistry.java:234-240 | Defines the outer loop over the rules. `SweepFacts` and `SweepSplit` state what it adds. |
| Pool.PossibleAspects | java/thebetweenlands/herblore/aspects/AspectRegistry.java:232-242 | Defines the candidate list. `PossibleAspectsMembers`, `PossibleAspectsRuleMajor`, `PossibleAspectsPoolOrder`, `PossibleAspectsEmpty` and `PossibleAspectsCount` prove its properties. |
| Pool.ScanFacts | java/thebetweenlands/herblore/aspects/AspectRegistry.java:235-239 | The inner loop adds exactly the pool definitions that fit the rule and are not already present. It keeps the list free of repeats and extends it without changing what was there. |
| Pool.ScanOrder | java/thebetweenlands/herblore/aspects/AspectRegistry.java:235-239 | What the inner loop appends is in the pool, fits the rule and was not there before, and it comes in pool order. |
| Pool.SweepFacts | java/thebetweenlands/herblore/aspects/AspectRegistry.java:234-240 | The outer loop adds exactly the pool definitions that fit some rule. It keeps the list free of repeats and extends it without changing what was there. |
| Pool.SweepSplit | java/thebetweenlands/herblore/aspects/AspectRegistry.java:234 | Running the rules in two parts gives the same list as running them all. |
| Pool.PossibleAspectsMembers | java/thebetweenlands/herblore/aspects/AspectRegistry.java:232-242 | A candidate is exactly a pool definition that fits some rule, and no definition appears twice. |
| Pool.PossibleAspectsRuleMajor | java/thebetweenlands/herblore/aspects/AspectRegistry.java:234-235 | The candidates of the first k rules form a prefix of the candidate list. |
| Pool.PossibleAspectsPoolOrder | java/thebetweenlands/herblore/aspects/AspectRegistry.java:234-237 | Rule k's candidates sit between those of the earlier and the later rules. Each fits rule k, and they come in pool order. |
| Pool.PossibleAspectsEmpty | java/thebetweenlands/herblore/aspects/AspectRegistry.java:209-213 | The candidate list is empty exactly when nothing in the pool fits any rule, and reordering the rules does not change that. |
| Pool.MatchesReordered | java/thebetweenlands/herblore/aspects/AspectRegistry.java:218-223 | Whether a definition fits some rule does not depend on the order of the rules. |
| Pool.AnyMatchReordered | java/thebetweenlands/herblore/aspects/AspectRegistry.java:170-171 | Whether anything in a pool fits does not depend on the order of the rules. |
| Pool.AnyMatchNeedsRules | java/thebetweenlands/herblore/aspects/AspectRegistry.java:209-211 | If some definition fits, the item has at least one rule, so at least one slot is filled. |
| Pool.PossibleAspectFits | java/thebetweenlands/herblore/aspects/AspectRegistry.java:236 | Every candidate is in the pool and fits some rule. |
| Pool.PossibleAspectsCount | java/thebetweenlands/herblore/aspects/AspectRegistry.java:218 | The number of candidates does not depend on the order of the rules, so a reshuffle does not change it. |
| Pool.IndexOf | java/thebetweenlands/herblore/aspects/AspectRegistry.java:216 | Finds the first occurrence of an element that is in the list: no earlier position holds it. |
| Pool.RemoveFirst | java/thebetweenlands/herblore/aspects/AspectRegistry.java:216 | `List.remove` drops the first occurrence and keeps the rest in order, or leaves the list alone when the element is absent. |
| Pool.RemoveFirstMembers | java/thebetweenlands/herblore/aspects/AspectRegistry.java:216 | What stays after a removal was in the list before. |
| Pool.RemoveFirstDistinct | java/thebetweenlands/herblore/aspects/AspectRegistry.java:215-216 | Removing a drawn candidate from a list without repeats leaves a list without repeats, one shorter, that no longer holds it. |
| Pool.Without | java/thebetweenlands/herblore/aspects/AspectRegistry.java:196-204 | Defines the pool with every definition of one aspect deleted. `WithoutMembers`, `WithoutShrinks`, `WithoutAbsent` and `WithoutAppend` prove its properties. |
| Pool.WithoutMembers | java/thebetweenlands/herblore/aspects/AspectRegistry.java:196-204 | After a removal the pool holds exactly the definitions of other aspects. |
| Pool.WithoutShrinks | java/thebetweenlands/herblore/aspects/AspectRegistry.java:196-204 | A removal never grows the pool, and it shrinks the pool when the aspect was present. |
| Pool.WithoutAbsent | java/thebetweenlands/herblore/aspects/AspectRegistry.java:196-204 | Removing an aspect the pool lacks leaves the pool unchanged. |
| Pool.WithoutAppend | java/thebetweenlands/herblore/aspects/AspectRegistry.java:196-204 | A removal keeps the order of what stays: it distributes over concatenation. |
| Pool.RemoveAll | java/thebetweenlands/herblore/aspects/AspectRegistry.java:173-175 | Defines the pool after the removal loop: one `Without` per drawn aspect, in draw order. `RemoveAllFacts` states what remains. |
| Pool.RemoveAllFacts | java/thebetweenlands/herblore/aspects/AspectRegistry.java:173-175 | After the removal loop the pool holds exactly the definitions whose aspect was not drawn, and it is no longer than before. |
| Merging.MergeInto | java/thebetweenlands/herblore/aspects/AspectRegistry.java:179-190 | Defines one merge step: append a new aspect, or remove the aspect's record and append the sum. `MergeIntoFacts`, `MergeIntoAspects` and `MergeIntoTotal` prove its properties. |
| Merging.Merge | java/thebetweenlands/herblore/aspects/AspectRegistry.java:176-191 | Defines the merge of a list of draws. `MergeShape`, `MergeKeepsTotals`, `MergedAmountIsSum` and `MergeMovesRepeatsToEnd` prove its properties. |
| Merging.IndexOfAspect | java/thebetweenlands/herblore/aspects/AspectRegistry.java:179-184 | The search finds the first merged record of the aspect, and finds nothing exactly when no record has it. |
| Merging.MergeIntoFacts | java/thebetweenlands/herblore/aspects/AspectRegistry.java:185-190 | One merge step keeps one record per aspect, grows the list by at most one and leaves it non-empty. |
| Merging.MergeIntoAspects | java/thebetweenlands/herblore/aspects/AspectRegistry.java:185-190 | One merge step adds the drawn aspect to the set of aspects present. |
| Merging.MergeIntoTotal | java/thebetweenlands/herblore/aspects/AspectRegistry.java:185-190 | One merge step adds the drawn amount to its aspect's total and leaves every other total alone. |
| Merging.TotalAppend | java/thebetweenlands/herblore/aspects/AspectRegistry.java:189 | The total of an aspect over two lists placed end to end is the sum of their totals. |
| Merging.MergeShape | java/thebetweenlands/herblore/aspects/AspectRegistry.java:176-191 | The merged list has one record per aspect, the same aspects as the draws, and is never longer than the draws. |
| Merging.MergeKeepsTotals | java/thebetweenlands/herblore/aspects/AspectRegistry.java:176-191 | Merging keeps each aspect's total amount. |
| Merging.TotalAbsent | java/thebetweenlands/herblore/aspects/AspectRegistry.java:189 | An aspect that is absent from a list has total zero. |
| Merging.TotalOfDistinct | java/thebetweenlands/herblore/aspects/AspectRegistry.java:189 | In a list with one record per aspect, a record's amount is its aspect's total. |
| Merging.MergedAmountIsSum | java/thebetweenlands/herblore/aspects/AspectRegistry.java:176-191 | Each merged record carries the sum of all drawn amounts of its aspect. |
| Merging.MergeMovesRepeatsToEnd | java/thebetweenlands/herblore/aspects/AspectRegistry.java:185-190 | For draws a, b, a the merge yields b, then a with the summed amount. First-seen order is not kept. |
| Loading.Amount | java/thebetweenlands/herblore/aspects/AspectRegistry.java:225-226 | Defines the amount formula: base amount times multiplier, moved by the variation times a roll mapped to [-1, 1). Its lemmas follow. |
| Loading.AmountWithoutVariation | java/thebetweenlands/herblore/aspects/AspectRegistry.java:225-226 | With zero variation the amount is base amount times multiplier. |
| Loading.AmountWithinVariation | java/thebetweenlands/herblore/aspects/AspectRegistry.java:225-226 | For a non-negative base and variation, the amount stays within base ± base × variation. |
| Loading.AmountCanBeNegative | java/thebetweenlands/herblore/aspects/AspectRegistry.java:225-226 | A variation of 2 with the lowest roll gives amount -1: nothing clamps amounts. |
| Loading.PortionAspects | java/thebetweenlands/herblore/aspects/AspectRegistry.java:173-177 | The aspects of the draws' portions are exactly the drawn aspects. |
| Loading.DrawFromRound | java/thebetweenlands/herblore/aspects/AspectRegistry.java:215-216 | Drawing a candidate and taking it off the list keeps the first round's draws pairwise different. |
| Loading.LoadedItemFacts | java/thebetweenlands/herblore/aspects/AspectRegistry.java:166-192 | An item's result after its turn has one record per aspect, each with the sum of its draws. It has no more records than rules, holds exactly the drawn aspects, and is non-empty exactly when some registered definition fits a rule. When there are at least as many candidates as rules, no definition is drawn twice. |
| Loading.PoolLosesDrawnAspects | java/thebetweenlands/herblore/aspects/AspectRegistry.java:173-175 | After an item's turn the pool keeps exactly the definitions whose aspect is not in the item's result. |
| Loading.PrimaryDrawsAvoid | java/thebetweenlands/herblore/aspects/AspectRegistry.java:170-175 | An item served from a pool that lacks some aspects receives none of them. |
| Loading.MergePrefix | java/thebetweenlands/herblore/aspects/AspectRegistry.java:177 | Merging one more draw is one merge step on the merge of the earlier draws. |
| Loading.LoadItem | java/thebetweenlands/herblore/aspects/AspectRegistry.java:167-192 | One item's turn reorders its rules and leaves the item loaded as `ItemLoaded` says, including that the first round of draws has no repeats. The new pool is the old one less every drawn aspect and holds no aspect of the result. |
| Loading.FillOrFallback | java/thebetweenlands/herblore/aspects/AspectRegistry.java:170-172 | The item is served from the pool exactly when something there fits. Otherwise it is served from every registered definition if something fits there, and else gets no slots. Every draw comes from the pool used and fits a rule. While that pool's first candidate list lasts, no definition is drawn twice. |
| Loading.RemoveDrawnAspects | java/thebetweenlands/herblore/aspects/AspectRegistry.java:173-175 | The removal loop leaves `RemoveAll` of the pool and the drawn aspects. |
| Loading.RemoveAvailableAspect | java/thebetweenlands/herblore/aspects/AspectRegistry.java:196-204 | The iterator removal leaves the pool without every definition of the aspect, the rest in order. |
| Loading.ShuffleKeepsMatches | java/thebetweenlands/herblore/aspects/AspectRegistry.java:218 | Shuffling the rules keeps every candidate fitting and every earlier draw's rule present. |
| Loading.DrawSlot | java/thebetweenlands/herblore/aspects/AspectRegistry.java:215-226 | One slot draws a candidate, removes its first occurrence from the list and reshuffles the rules. It records the drawn aspect with `Amount` for the first rule of the reshuffled list that the definition fits. The rest of the list still fits. |
| Loading.FillItemAspects | java/thebetweenlands/herblore/aspects/AspectRegistry.java:206-230 | It fills exactly one slot per rule when something in the pool fits, and otherwise returns false with nothing changed. The rules end up reordered. Every draw is a pool definition that fits a rule, and each recorded amount is `Amount` of its draw. The first draws, up to the number of candidates, are all different definitions. |
| Loading.FillPossibleAspects | java/thebetweenlands/herblore/aspects/AspectRegistry.java:232-242 | The candidate list is `PossibleAspects` of rules and pool, whatever the exclusion list, and the count is its length. |
| Loading.MergeAspects | java/thebetweenlands/herblore/aspects/AspectRegistry.java:176-191 | The merge loop yields `Merge` of the draws. |
| Loading.Taken | java/thebetweenlands/herblore/aspects/AspectRegistry.java:236 | The exclusion test never holds: an item aspect is never the same object as a definition. |
| Registry.Copies | java/thebetweenlands/herblore/aspects/AspectRegistry.java:150-152 | Defines the rules the append loop adds. `CopiesFacts` states how many and which. |
| Registry.CopiesFacts | java/thebetweenlands/herblore/aspects/AspectRegistry.java:150-152 | The append loop adds `aspectCount` copies of the rule, or none when `aspectCount` is not positive. |
| Registry.AddKey | java/thebetweenlands/herblore/aspects/AspectRegistry.java:145-149 | Adding a key equal to no existing key keeps the keys distinct and every rule under its own key. |
| Registry.AppendRules | java/thebetweenlands/herblore/aspects/AspectRegistry.java:150-152 | Appending copies of a rule under the rule's own key keeps the map well formed. |
| Registry.ReshuffleOne | java/thebetweenlands/herblore/aspects/AspectRegistry.java:218 | Writing back one item's shuffled rules keeps the keys, each rule multiset, and every rule under its own key. |
| Registry.EachLoadedExtends | java/thebetweenlands/herblore/aspects/AspectRegistry.java:166-192 | Each loaded item keeps its record when one more item takes its turn. |
| Registry.PoolAvoidsExtends | java/thebetweenlands/herblore/aspects/AspectRegistry.java:173-175 | The new pool holds no aspect of any item loaded so far, including the latest. |
| Registry.SeparatedExtends | java/thebetweenlands/herblore/aspects/AspectRegistry.java:170 | If the new item was served from the pool and shares no aspect with earlier items, the separation property still holds. |
| Registry.AllocationExtends | java/thebetweenlands/herblore/aspects/AspectRegistry.java:166-193 | One more item's turn keeps the whole load invariant `Allocation`. |
| Registry.AspectRegistry.constructor | java/thebetweenlands/herblore/aspects/AspectRegistry.java:121-123 | A new registry has no definitions, no rules and no results. |
| Registry.AspectRegistry.GetMatchedAspects | java/thebetweenlands/herblore/aspects/AspectRegistry.java:125-127 | Returns the results of the last load, with distinct keys. |
| Registry.AspectRegistry.RegisterAspect | java/thebetweenlands/herblore/aspects/AspectRegistry.java:129-131 | Appends the definition and changes nothing else. |
| Registry.AspectRegistry.AddAspectToItem | java/thebetweenlands/herblore/aspects/AspectRegistry.java:133-135 | Appends one copy of the rule under the key equal to its item, or adds that key at the end. |
| Registry.AspectRegistry.AddAspectsToItem | java/thebetweenlands/herblore/aspects/AspectRegistry.java:137-153 | Appends `aspectCount` copies of the rule to the list of the first key equal to its item. When there is none, it adds the rule's own key at the end, even for a non-positive count. Keys stay distinct and every rule sits under its own key. |
| Registry.AspectRegistry.LoadAspects | java/thebetweenlands/herblore/aspects/AspectRegistry.java:155-194 | The load keeps the definitions and the item keys and only reorders each rule list. It stores one result per item, in item order, and leaves the `Allocation` invariant holding over every item. |
| Registry.AspectRegistry.LoadedResults | java/thebetweenlands/herblore/aspects/AspectRegistry.java:166-193 | After a load, item i's result sits under i's key. It has one record per aspect with summed amounts, no more records than rules, and is non-empty exactly when a registered definition fits. If it was served from the pool, it shares no aspect with any earlier item. When it had at least as many candidates as rules, its draws were all different definitions. |
| Registry.AspectRegistry.GetItemAspects | java/thebetweenlands/herblore/aspects/AspectRegistry.java:244-251 | Returns the result under the first key equal to the item, or an empty list. |
| Registry.AspectRegistry.GetAspects | java/thebetweenlands/herblore/aspects/AspectRegistry.java:253-264 | Returns the aspects of that result, in the same order, or an empty list. |

## Left out

- Floating point: `float` amounts, multipliers, variations and base amounts are real
  numbers. Rounding in the amount formula and in the merge sums is not modelled.
- The bit-level generator: `java.util.Random`'s linear congruential generator is
  replaced by a stream of raw values fixed by the seed, which each call consumes in
  order. `nextInt` reduces the raw value modulo the bound, and `nextFloat` takes a
  multiple of 2^-24 in [0, 1). Only the ranges are relied on, plus the fact that the
  stream and the order of calls determine a run.
- JavaRandom.Shuffle: only states that the result is a permutation. It does not state
  which permutation the JDK swap loop produces for given random values; the loop itself
  follows that algorithm.
- Registry.AspectRegistry.LoadAspects: the model does not state as a lemma that two
  loads with the same seed and registrations produce the same results. Determinism
  follows from the stream being a function, but it is not proved.
- `removeAvailableAspect` stops its iteration at a null element. Null definitions are
  not modelled: a registered definition is always an object.
- Hash lookups: `LinkedHashMap.get` and `put` are modelled as the first key that equals
  the given one. `ItemEntry` does not override `hashCode`, so the Java `get` hashes by
  identity. In `addAspectsToItem` the key looked up was taken from the map itself, so
  the result is the same.
- `IAspect`, `ItemAspect`, `Item` and `ItemStack` are used by the registry but their
  source classes are not part of this model. The model stands in for each of them:
  - aspects are the fourteen singleton constants, compared by identity;
  - items are values compared by an id;
  - a stack is an item with a damage value;
  - `ItemAspect` is an object with an aspect and an amount.
- `AspectEntry.baseAmount` is a public mutable field. The registry never writes it,
  so the model makes it a constant.
- Registry.AspectRegistry.GetItemAspects: `getItemAspects` returns the stored result
  list itself. A caller that changes that list changes what later `getItemAspects` and
  `getAspects` calls return, until the next load. The same holds for the lists inside
  the map that `getMatchedAspects` returns. The model returns values, so it does not
  capture this aliasing.
- Registry.AspectRegistry.GetMatchedAspects: `Collections.unmodifiableMap` returns a
  read-only view that tracks later loads. The model returns the current value instead.
- `loadAspects` shuffles the stored rule lists in place. The model writes each
  shuffled list back into the registry's map instead. No caller can hold one of these
  lists, so only the new order is observable.
