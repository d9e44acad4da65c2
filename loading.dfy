/** One load turn: drawing definitions for an item's slots from a pool, taking the
    drawn aspects out of the pool, and merging the draws by aspect. */
module Loading {
  import opened Aspects
  import opened Pool
  import opened Merging
  import opened JavaRandom

  /** The amount given for a drawn definition: the base amount times the rule's
      multiplier, moved by up to the rule's variation of itself either way. */
  function Amount(entry: AspectEntry, rule: ItemEntryAspects, roll: real): real {
    var base := entry.baseAmount * rule.amountMultiplier;
    base + base * rule.amountVariation * (roll * 2.0 - 1.0)
  }

  /** With no variation the amount is exactly base amount times multiplier. */
  lemma AmountWithoutVariation(entry: AspectEntry, rule: ItemEntryAspects, roll: real)
    requires rule.amountVariation == 0.0
    ensures Amount(entry, rule, roll) == entry.baseAmount * rule.amountMultiplier
  {
  }

  /** For a non-negative product and variation the amount stays within the variation
      band around it; nothing clamps it otherwise. */
  lemma AmountWithinVariation(entry: AspectEntry, rule: ItemEntryAspects, roll: real)
    requires 0.0 <= roll < 1.0 && 0.0 <= rule.amountVariation
    requires entry.baseAmount * rule.amountMultiplier >= 0.0
    ensures var base := entry.baseAmount * rule.amountMultiplier;
      base - base * rule.amountVariation <= Amount(entry, rule, roll) <= base + base * rule.amountVariation
  {
    var base := entry.baseAmount * rule.amountMultiplier;
    var band := base * rule.amountVariation;
    var d := roll * 2.0 - 1.0;
    assert band >= 0.0;
    assert 0.0 <= 1.0 - d && 0.0 <= d + 1.0;
    NonNegativeProduct(band, 1.0 - d);
    NonNegativeProduct(band, d + 1.0);
    assert band * (1.0 - d) == band - band * d;
    assert band * (d + 1.0) == band * d + band;
    assert Amount(entry, rule, roll) == base + band * d;
  }

  lemma NonNegativeProduct(x: real, y: real)
    requires 0.0 <= x && 0.0 <= y
    ensures 0.0 <= x * y
  {
  }

  /** A variation above one can make an amount negative. */
  lemma AmountCanBeNegative(entry: AspectEntry, rule: ItemEntryAspects)
    requires entry.baseAmount == 1.0 && rule.amountMultiplier == 1.0 && rule.amountVariation == 2.0
    ensures Amount(entry, rule, 0.0) == -1.0
  {
  }

  /** One draw of the slot-filling loop: the definition taken, the rule chosen for it,
      and the nextFloat value that varied its amount. */
  datatype Draw = Draw(entry: AspectEntry, rule: ItemEntryAspects, roll: real) {
    predicate From(rules: seq<ItemEntryAspects>, pool: seq<AspectEntry>) {
      entry in pool && rule in rules && entry.MatchEntry(rule) && 0.0 <= roll < 1.0
    }

    function Result(): Portion {
      Portion(entry.aspect, Amount(entry, rule, roll))
    }
  }

  function Portions(draws: seq<Draw>): seq<Portion>
  {
    seq(|draws|, k requires 0 <= k < |draws| => draws[k].Result())
  }

  /** The aspects of the draws, in draw order. */
  function DrawnAspects(draws: seq<Draw>): seq<Aspect>
  {
    seq(|draws|, k requires 0 <= k < |draws| => draws[k].entry.aspect)
  }

  /** The first `n` draws take `n` different definitions. */
  predicate DistinctRound(draws: seq<Draw>, n: int) {
    forall k, l :: 0 <= k < l < |draws| && l < n ==> draws[k].entry != draws[l].entry
  }

  /** While fewer than `n` draws were made, the candidate list holds `n` less that many
      definitions, none twice and none drawn already. */
  predicate RoundOpen(draws: seq<Draw>, possible: seq<AspectEntry>, n: int) {
    |draws| < n ==>
      && |possible| + |draws| == n
      && Distinct(possible)
      && forall k :: 0 <= k < |draws| ==> draws[k].entry !in possible
  }

  /** Drawing a candidate and taking it off the list keeps the round open and its
      draws different. */
  lemma DrawFromRound(draws: seq<Draw>, possible: seq<AspectEntry>, n: int, draw: Draw)
    requires RoundOpen(draws, possible, n) && DistinctRound(draws, n)
    requires draw.entry in possible
    ensures RoundOpen(draws + [draw], RemoveFirst(possible, draw.entry), n)
    ensures DistinctRound(draws + [draw], n)
  {
    var draws' := draws + [draw];
    if |draws| < n {
      RemoveFirstDistinct(possible, draw.entry);
      forall k, l | 0 <= k < l < |draws'| && l < n ensures draws'[k].entry != draws'[l].entry {
        if l == |draws| {
          assert draws'[k].entry !in possible;
        } else {
          assert draws'[k] == draws[k] && draws'[l] == draws[l];
        }
      }
    } else {
      forall k, l | 0 <= k < l < |draws'| && l < n ensures draws'[k].entry != draws'[l].entry {
        assert draws'[k] == draws[k] && draws'[l] == draws[l];
      }
    }
  }

  /** What one load did for one item with the (final) rule list `rules`: `pool` was the
      shared pool when the item's turn came, `primary` says whether the first attempt
      found a fitting definition there, `draws` are the slots filled (from the pool,
      or on fallback from every registered definition), and `merged` is the result. */
  ghost predicate ItemLoaded(rules: seq<ItemEntryAspects>, registered: seq<AspectEntry>, pool: seq<AspectEntry>,
                             primary: bool, draws: seq<Draw>, merged: seq<ItemAspect>)
  {
    && (forall e :: e in pool ==> e in registered)
    && (primary <==> AnyMatch(rules, pool))
    && |draws| == (if primary || AnyMatch(rules, registered) then |rules| else 0)
    && (forall k :: 0 <= k < |draws| ==> draws[k].From(rules, if primary then pool else registered))
    && DistinctRound(draws, |PossibleAspects(rules, if primary then pool else registered)|)
    && View(merged) == Merge(Portions(draws))
  }

  lemma PortionAspects(draws: seq<Draw>)
    ensures forall a :: a in AspectSet(Portions(draws)) <==> a in DrawnAspects(draws)
  {
    var p := Portions(draws);
    forall a ensures a in AspectSet(p) <==> a in DrawnAspects(draws) {
      if a in AspectSet(p) {
        var x :| x in p && x.aspect == a;
        var k :| 0 <= k < |p| && p[k] == x;
        assert DrawnAspects(draws)[k] == a;
      }
      if a in DrawnAspects(draws) {
        var k :| 0 <= k < |draws| && DrawnAspects(draws)[k] == a;
        assert p[k] in p;
      }
    }
  }

  /** An item's result after a load: one record per aspect, each with the summed amount
      of its draws, no more records than rules, and non-empty exactly when some
      registered definition fits one of its rules. */
  lemma LoadedItemFacts(rules: seq<ItemEntryAspects>, registered: seq<AspectEntry>, pool: seq<AspectEntry>,
                        primary: bool, draws: seq<Draw>, merged: seq<ItemAspect>)
    requires ItemLoaded(rules, registered, pool, primary, draws, merged)
    ensures DistinctAspects(View(merged))
    ensures |merged| <= |rules|
    ensures forall a :: a in AspectSet(View(merged)) <==> a in DrawnAspects(draws)
    ensures forall k :: 0 <= k < |merged| ==> merged[k].amount == Total(Portions(draws), merged[k].aspect)
    ensures merged != [] <==> AnyMatch(rules, registered)
    ensures |PossibleAspects(rules, if primary then pool else registered)| >= |rules| ==>
      forall k, l :: 0 <= k < l < |draws| ==> draws[k].entry != draws[l].entry
  {
    var p := Portions(draws);
    MergeShape(p);
    MergedAmountIsSum(p);
    PortionAspects(draws);
    if primary {
      var e :| e in pool && Matches(e, rules);
      assert e in registered;
    }
    if AnyMatch(rules, registered) {
      AnyMatchNeedsRules(rules, registered);
      assert p[0] in p;
      assert p[0].aspect in AspectSet(Merge(p));
      assert |View(merged)| > 0;
    }
    if merged != [] {
      assert |draws| > 0;
    }
    forall k | 0 <= k < |merged| ensures merged[k].amount == Total(p, merged[k].aspect) {
      assert View(merged)[k] == Merge(p)[k];
    }
  }

  /** After an item's turn the pool keeps exactly the definitions whose aspect the item
      did not receive. */
  lemma PoolLosesDrawnAspects(rules: seq<ItemEntryAspects>, registered: seq<AspectEntry>, pool: seq<AspectEntry>,
                              primary: bool, draws: seq<Draw>, merged: seq<ItemAspect>)
    requires ItemLoaded(rules, registered, pool, primary, draws, merged)
    ensures forall e :: e in RemoveAll(pool, DrawnAspects(draws)) <==>
      e in pool && e.aspect !in AspectSet(View(merged))
  {
    LoadedItemFacts(rules, registered, pool, primary, draws, merged);
    RemoveAllFacts(pool, DrawnAspects(draws));
  }

  /** A primary item's aspects come from the pool it saw; if no definition in that
      pool has an aspect an earlier item received, the two share no aspect. */
  lemma PrimaryDrawsAvoid(rules: seq<ItemEntryAspects>, registered: seq<AspectEntry>, pool: seq<AspectEntry>,
                          draws: seq<Draw>, merged: seq<ItemAspect>, earlier: set<Aspect>)
    requires ItemLoaded(rules, registered, pool, true, draws, merged)
    requires forall e :: e in pool ==> e.aspect !in earlier
    ensures AspectSet(View(merged)) !! earlier
  {
    LoadedItemFacts(rules, registered, pool, true, draws, merged);
    forall a | a in AspectSet(View(merged)) ensures a !in earlier {
      var k :| 0 <= k < |draws| && DrawnAspects(draws)[k] == a;
      assert draws[k].entry in pool;
    }
  }

  /** The aspects of a list of item aspects, in order. */
  function AspectsOf(s: seq<ItemAspect>): seq<Aspect>
  {
    seq(|s|, k requires 0 <= k < |s| => s[k].aspect)
  }

  lemma MergePrefix(s: seq<ItemAspect>, i: nat)
    requires i < |s|
    ensures Merge(View(s[..i + 1])) == MergeInto(Merge(View(s[..i])), Portion(s[i].aspect, s[i].amount))
  {
    assert View(s[..i + 1]) == View(s[..i]) + [Portion(s[i].aspect, s[i].amount)];
    assert View(s[..i + 1])[..i] == View(s[..i]);
  }

  /** A record of an aspect not yet present goes to the end. */
  lemma MergeStepNew(m: seq<ItemAspect>, x: ItemAspect)
    requires forall k :: 0 <= k < |m| ==> m[k].aspect != x.aspect
    ensures View(m + [x]) == MergeInto(View(m), Portion(x.aspect, x.amount))
  {
    assert IndexOfAspect(View(m), x.aspect).None?;
    assert View(m + [x]) == View(m) + [Portion(x.aspect, x.amount)];
  }

  lemma ViewConcat(a: seq<ItemAspect>, b: seq<ItemAspect>)
    ensures View(a + b) == View(a) + View(b)
  {
  }

  lemma ViewSlices(m: seq<ItemAspect>, j: nat)
    requires j < |m|
    ensures View(m[..j]) == View(m)[..j] && View(m[j + 1..]) == View(m)[j + 1..]
  {
  }

  /** A record of an aspect present at j replaces it by the sum, at the end. */
  lemma MergeStepFound(m: seq<ItemAspect>, x: ItemAspect, j: nat, sum: ItemAspect)
    requires j < |m| && m[j].aspect == x.aspect && forall k :: 0 <= k < j ==> m[k].aspect != x.aspect
    requires sum.aspect == x.aspect && sum.amount == m[j].amount + x.amount
    ensures View(m[..j] + m[j + 1..] + [sum]) == MergeInto(View(m), Portion(x.aspect, x.amount))
  {
    var v := View(m);
    var merged := Portion(x.aspect, v[j].amount + x.amount);
    assert MergeInto(v, Portion(x.aspect, x.amount)) == v[..j] + v[j + 1..] + [merged] by {
      assert IndexOfAspect(v, x.aspect) == Some(j);
    }
    assert View(m[..j] + m[j + 1..] + [sum]) == v[..j] + v[j + 1..] + [merged] by {
      ViewConcat(m[..j], m[j + 1..]);
      ViewConcat(m[..j] + m[j + 1..], [sum]);
      ViewSlices(m, j);
      assert View([sum]) == [merged];
    }
  }

  /** One turn of the load for one item's rules: fill from the pool, or from every
      registered definition when nothing in the pool fits; take out of the pool every
      definition of an aspect drawn; merge the draws by aspect. */
  method LoadItem(itemEntries: seq<ItemEntryAspects>, availableAspects: seq<AspectEntry>,
                  registered: seq<AspectEntry>, rnd: Random)
    returns (entries: seq<ItemEntryAspects>, mergedAspects: seq<ItemAspect>, remaining: seq<AspectEntry>,
             ghost primary: bool, ghost draws: seq<Draw>)
    requires forall e :: e in availableAspects ==> e in registered
    modifies rnd
    ensures multiset(entries) == multiset(itemEntries)
    ensures ItemLoaded(entries, registered, availableAspects, primary, draws, mergedAspects)
    ensures remaining == RemoveAll(availableAspects, DrawnAspects(draws))
    ensures forall e :: e in remaining ==> e in availableAspects && e.aspect !in AspectSet(View(mergedAspects))
  {
    var itemAspects;
    entries, itemAspects, primary, draws := FillOrFallback(itemEntries, availableAspects, registered, rnd);
    remaining := RemoveDrawnAspects(itemAspects, availableAspects);
    assert DrawnAspects(draws) == AspectsOf(itemAspects) by {
      assert |View(itemAspects)| == |itemAspects| && |Portions(draws)| == |draws|;
      forall k | 0 <= k < |draws| ensures DrawnAspects(draws)[k] == AspectsOf(itemAspects)[k] {
        assert View(itemAspects)[k] == Portions(draws)[k];
      }
    }
    mergedAspects := MergeAspects(itemAspects);
    PoolLosesDrawnAspects(entries, registered, availableAspects, primary, draws, mergedAspects);
  }

  /** Fills an item's slots from the pool, or from every registered definition when
      nothing in the pool fits; `primary` says whether the pool served. */
  method FillOrFallback(itemEntries: seq<ItemEntryAspects>, availableAspects: seq<AspectEntry>,
                        registered: seq<AspectEntry>, rnd: Random)
    returns (entries: seq<ItemEntryAspects>, itemAspects: seq<ItemAspect>, ghost primary: bool, ghost draws: seq<Draw>)
    modifies rnd
    ensures multiset(entries) == multiset(itemEntries)
    ensures primary <==> AnyMatch(entries, availableAspects)
    ensures |draws| == (if primary || AnyMatch(entries, registered) then |entries| else 0)
    ensures forall k :: 0 <= k < |draws| ==> draws[k].From(entries, if primary then availableAspects else registered)
    ensures DistinctRound(draws, |PossibleAspects(entries, if primary then availableAspects else registered)|)
    ensures View(itemAspects) == Portions(draws)
  {
    itemAspects := [];
    var possibleAspects: seq<AspectEntry> := [];
    var found: bool;
    found, itemAspects, entries, possibleAspects, draws :=
      FillItemAspects(itemAspects, |itemEntries|, itemEntries, possibleAspects, availableAspects, rnd);
    primary := found;
    PossibleAspectsCount(itemEntries, entries, availableAspects);
    if !found {
      found, itemAspects, entries, possibleAspects, draws :=
        FillItemAspects(itemAspects, |itemEntries|, itemEntries, possibleAspects, registered, rnd);
      AnyMatchReordered(itemEntries, entries, availableAspects);
      PossibleAspectsCount(itemEntries, entries, registered);
    }
    assert |entries| == |multiset(entries)| == |multiset(itemEntries)| == |itemEntries|;
  }

  /** Takes every drawn aspect out of the pool, one item aspect after another. */
  method RemoveDrawnAspects(itemAspects: seq<ItemAspect>, availableAspects: seq<AspectEntry>)
    returns (remaining: seq<AspectEntry>)
    ensures remaining == RemoveAll(availableAspects, AspectsOf(itemAspects))
  {
    remaining := availableAspects;
    for m := 0 to |itemAspects|
      invariant RemoveAll(remaining, AspectsOf(itemAspects)[m..]) == RemoveAll(availableAspects, AspectsOf(itemAspects))
    {
      assert AspectsOf(itemAspects)[m..] == [itemAspects[m].aspect] + AspectsOf(itemAspects)[m + 1..];
      remaining := RemoveAvailableAspect(itemAspects[m], remaining);
    }
    assert AspectsOf(itemAspects)[|itemAspects|..] == [];
  }

  /** Deletes from the pool every definition of the item aspect's aspect. */
  method RemoveAvailableAspect(itemAspect: ItemAspect, availableAspects: seq<AspectEntry>)
    returns (remaining: seq<AspectEntry>)
    ensures remaining == Without(availableAspects, itemAspect.aspect)
  {
    remaining := [];
    for i := 0 to |availableAspects|
      invariant remaining == Without(availableAspects[..i], itemAspect.aspect)
    {
      assert availableAspects[..i + 1][..i] == availableAspects[..i];
      if availableAspects[i].aspect != itemAspect.aspect {
        remaining := remaining + [availableAspects[i]];
      }
    }
    assert availableAspects[..|availableAspects|] == availableAspects;
  }

  /** Reordering the rules keeps every candidate fitting and every draw's rule present. */
  lemma ShuffleKeepsMatches(rules: seq<ItemEntryAspects>, rules': seq<ItemEntryAspects>, candidates: seq<AspectEntry>,
                            draws: seq<Draw>, pool: seq<AspectEntry>)
    requires multiset(rules') == multiset(rules)
    requires forall e :: e in candidates ==> Matches(e, rules)
    requires forall k :: 0 <= k < |draws| ==> draws[k].From(rules, pool)
    ensures forall e :: e in candidates ==> Matches(e, rules')
    ensures forall k :: 0 <= k < |draws| ==> draws[k].From(rules', pool)
  {
    forall e | e in candidates ensures Matches(e, rules') {
      MatchesReordered(e, rules, rules');
    }
    forall k | 0 <= k < |draws| ensures draws[k].rule in rules' {
      assert draws[k].rule in multiset(rules);
    }
  }

  lemma AppendFrom(draws: seq<Draw>, draw: Draw, rules: seq<ItemEntryAspects>, pool: seq<AspectEntry>)
    requires forall k :: 0 <= k < |draws| ==> draws[k].From(rules, pool)
    requires draw.From(rules, pool)
    ensures forall k :: 0 <= k < |draws + [draw]| ==> (draws + [draw])[k].From(rules, pool)
  {
  }

  /** Recording one more item aspect records its draw's portion. */
  lemma AppendDraw(itemAspects: seq<ItemAspect>, aspects: seq<ItemAspect>, draws: seq<Draw>, x: ItemAspect, draw: Draw)
    requires View(aspects) == View(itemAspects) + Portions(draws)
    requires x.aspect == draw.entry.aspect && x.amount == Amount(draw.entry, draw.rule, draw.roll)
    ensures View(aspects + [x]) == View(itemAspects) + Portions(draws + [draw])
  {
    assert View(aspects + [x]) == View(aspects) + [draw.Result()];
    assert Portions(draws + [draw]) == Portions(draws) + [draw.Result()];
  }

  /** One slot: draws a candidate, takes it off the list, reshuffles the rules and
      records the drawn definition with the amount of the first rule it fits. */
  method DrawSlot(possible: seq<AspectEntry>, itemEntries: seq<ItemEntryAspects>,
                  availableAspects: seq<AspectEntry>, rnd: Random)
    returns (remaining: seq<AspectEntry>, entries: seq<ItemEntryAspects>, itemAspect: ItemAspect, ghost draw: Draw)
    requires |possible| > 0
    requires forall e :: e in possible ==> e in availableAspects && Matches(e, itemEntries)
    modifies rnd
    ensures multiset(entries) == multiset(itemEntries)
    ensures draw.entry in possible && remaining == RemoveFirst(possible, draw.entry)
    ensures draw.From(entries, availableAspects)
    ensures exists m ::
      0 <= m < |entries| && entries[m] == draw.rule && forall k :: 0 <= k < m ==> !draw.entry.MatchEntry(entries[k])
    ensures forall e :: e in remaining ==> e in availableAspects && Matches(e, entries)
    ensures itemAspect.aspect == draw.entry.aspect && itemAspect.amount == Amount(draw.entry, draw.rule, draw.roll)
  {
    var index := rnd.NextInt(|possible|);
    var randomAspect := possible[index];
    remaining := RemoveFirst(possible, randomAspect);
    RemoveFirstMembers(possible, randomAspect);
    entries := Shuffle(itemEntries, rnd);
    ShuffleKeepsMatches(itemEntries, entries, possible, [], availableAspects);
    assert Matches(randomAspect, entries);
    ghost var fits :| fits in entries && randomAspect.MatchEntry(fits);
    ghost var w :| 0 <= w < |entries| && entries[w] == fits;
    var m := 0;
    while !randomAspect.MatchEntry(entries[m])
      invariant 0 <= m <= w
      invariant forall k :: 0 <= k < m ==> !randomAspect.MatchEntry(entries[k])
      decreases w - m
    {
      m := m + 1;
    }
    var matchingItemEntry := entries[m];
    var roll := rnd.NextFloat();
    itemAspect := new ItemAspect(randomAspect.aspect, Amount(randomAspect, matchingItemEntry, roll));
    draw := Draw(randomAspect, matchingItemEntry, roll);
  }

  /** Fills `itemAspectsSize` slots for one item from `availableAspects`, or fills none
      and answers false when nothing there fits the rules. */
  method FillItemAspects(itemAspects: seq<ItemAspect>, itemAspectsSize: int, itemEntries: seq<ItemEntryAspects>,
                         possibleAspects: seq<AspectEntry>, availableAspects: seq<AspectEntry>, rnd: Random)
    returns (foundMatches: bool, aspects: seq<ItemAspect>, entries: seq<ItemEntryAspects>,
             possible: seq<AspectEntry>, ghost draws: seq<Draw>)
    requires itemAspectsSize == |itemEntries|
    modifies rnd
    ensures multiset(entries) == multiset(itemEntries)
    ensures foundMatches <==> AnyMatch(entries, availableAspects)
    ensures !foundMatches ==> aspects == itemAspects && entries == itemEntries
    ensures |draws| == (if foundMatches then itemAspectsSize else 0)
    ensures |aspects| == |itemAspects| + |draws| && aspects[..|itemAspects|] == itemAspects
    ensures View(aspects) == View(itemAspects) + Portions(draws)
    ensures forall k :: 0 <= k < |draws| ==> draws[k].From(entries, availableAspects)
    ensures DistinctRound(draws, |PossibleAspects(itemEntries, availableAspects)|)
  {
    foundMatches := false;
    aspects, entries, draws := itemAspects, itemEntries, [];
    var possibleAspectCount;
    possible, possibleAspectCount := FillPossibleAspects(entries, possibleAspects, availableAspects, None);
    PossibleAspectsEmpty(itemEntries, itemEntries, availableAspects);
    if possibleAspectCount == 0 {
      return;
    }
    AnyMatchNeedsRules(itemEntries, availableAspects);
    PossibleAspectsMembers(entries, availableAspects);
    assert possibleAspectCount == |PossibleAspects(itemEntries, availableAspects)|;
    for i := 0 to itemAspectsSize
      invariant multiset(entries) == multiset(itemEntries)
      invariant |draws| == i && foundMatches == (i > 0)
      invariant |aspects| == |itemAspects| + i && aspects[..|itemAspects|] == itemAspects
      invariant View(aspects) == View(itemAspects) + Portions(draws)
      invariant forall k :: 0 <= k < i ==> draws[k].From(entries, availableAspects)
      invariant forall e :: e in possible ==> e in availableAspects && Matches(e, entries)
      invariant AnyMatch(itemEntries, availableAspects)
      invariant RoundOpen(draws, possible, possibleAspectCount) && DistinctRound(draws, possibleAspectCount)
    {
      if |possible| == 0 {
        assert |draws| >= possibleAspectCount;
        // a refill needs more slots than first-round candidates, so no exclusion list is passed
        assert !(itemAspectsSize < possibleAspectCount);
        var refilled;
        possible, refilled := FillPossibleAspects(entries, possible, availableAspects,
                                           if itemAspectsSize < possibleAspectCount then Some(aspects) else None);
        assert |possible| > 0 && forall e :: e in possible ==> e in availableAspects && Matches(e, entries) by {
          PossibleAspectsEmpty(itemEntries, entries, availableAspects);
          PossibleAspectsMembers(entries, availableAspects);
        }
      }
      ghost var before, candidates := entries, possible;
      var itemAspect;
      ghost var draw;
      possible, entries, itemAspect, draw := DrawSlot(possible, entries, availableAspects, rnd);
      ShuffleKeepsMatches(before, entries, [], draws, availableAspects);
      AppendDraw(itemAspects, aspects, draws, itemAspect, draw);
      AppendFrom(draws, draw, entries, availableAspects);
      DrawFromRound(draws, candidates, possibleAspectCount, draw);
      aspects := aspects + [itemAspect];
      draws := draws + [draw];
      foundMatches := true;
    }
    AnyMatchReordered(itemEntries, entries, availableAspects);
  }

  /** The definitions of the pool that fit at least one rule, each once, in rule-major
      then pool order. The exclusion list compares item aspects with definitions,
      objects of different classes that are never equal, so it excludes nothing. */
  method FillPossibleAspects(itemEntries: seq<ItemEntryAspects>, possibleAspects: seq<AspectEntry>,
                             availableAspects: seq<AspectEntry>, takenAspects: Option<seq<ItemAspect>>)
    returns (possible: seq<AspectEntry>, count: int)
    ensures possible == PossibleAspects(itemEntries, availableAspects)
    ensures count == |possible|
  {
    possible := [];
    for i := 0 to |itemEntries|
      invariant Sweep(possible, itemEntries[i..], availableAspects) == PossibleAspects(itemEntries, availableAspects)
    {
      assert itemEntries[i..][1..] == itemEntries[i + 1..];
      for j := 0 to |availableAspects|
        invariant Sweep(Scan(possible, itemEntries[i], availableAspects[j..]), itemEntries[i + 1..], availableAspects)
                  == PossibleAspects(itemEntries, availableAspects)
      {
        assert availableAspects[j..][1..] == availableAspects[j + 1..];
        var availableAspect := availableAspects[j];
        if availableAspect.MatchEntry(itemEntries[i]) && availableAspect !in possible
           && (takenAspects.None? || !Taken(takenAspects.value, availableAspect))
        {
          possible := possible + [availableAspect];
        }
      }
    }
    count := |possible|;
  }

  /** The merge of an item's draws, by aspect identity. */
  method MergeAspects(itemAspects: seq<ItemAspect>) returns (mergedAspects: seq<ItemAspect>)
    ensures View(mergedAspects) == Merge(View(itemAspects))
  {
    mergedAspects := [];
    for i := 0 to |itemAspects|
      invariant View(mergedAspects) == Merge(View(itemAspects[..i]))
    {
      var aspect := itemAspects[i];
      var j := 0;
      while j < |mergedAspects| && mergedAspects[j].aspect != aspect.aspect
        invariant 0 <= j <= |mergedAspects|
        invariant forall k :: 0 <= k < j ==> mergedAspects[k].aspect != aspect.aspect
      {
        j := j + 1;
      }
      MergePrefix(itemAspects, i);
      if j == |mergedAspects| {
        MergeStepNew(mergedAspects, aspect);
        mergedAspects := mergedAspects + [aspect];
      } else {
        var mergedAspect := mergedAspects[j];
        var sum := new ItemAspect(mergedAspect.aspect, mergedAspect.amount + aspect.amount);
        MergeStepFound(mergedAspects, aspect, j, sum);
        mergedAspects := mergedAspects[..j] + mergedAspects[j + 1..] + [sum];
      }
    }
    assert itemAspects[..|itemAspects|] == itemAspects;
  }

  /** List.contains on the exclusion list: a definition is looked for among item
      aspects by reference. An item aspect is never the same object as a definition,
      so nothing is ever taken. */
  function Taken(takenAspects: seq<ItemAspect>, candidate: AspectEntry): (taken: bool)
    ensures !taken
  {
    exists k :: 0 <= k < |takenAspects| && takenAspects[k] as object == candidate as object
  }
}
