/** The aspect registry: aspect definitions, per-item rule lists in insertion order,
    and the seeded load that hands definitions out to items from one shared,
    shrinking pool. */
module Registry {
  import opened Aspects
  import opened ItemMap
  import opened Pool
  import opened Merging
  import opened JavaRandom
  import opened Loading

  /** `n` copies of a rule; none when n is not positive. */
  function Copies(rule: ItemEntryAspects, n: int): seq<ItemEntryAspects>
    decreases n
  {
    if n <= 0 then [] else Copies(rule, n - 1) + [rule]
  }

  lemma {:induction false} CopiesFacts(rule: ItemEntryAspects, n: int)
    ensures |Copies(rule, n)| == if n <= 0 then 0 else n
    ensures forall r :: r in Copies(rule, n) ==> r == rule
    decreases n
  {
    if n > 0 {
      CopiesFacts(rule, n - 1);
    }
  }

  /** Every rule is stored under the key of its own item. */
  ghost predicate RulesUnderOwnKey(m: seq<Binding<seq<ItemEntryAspects>>>) {
    forall i, r :: 0 <= i < |m| && r in m[i].value ==> r.item == m[i].key
  }

  /** A key equal to no existing key, added with no rules, keeps the map well formed. */
  lemma AddKey(items: seq<Binding<seq<ItemEntryAspects>>>, key: ItemEntry)
    requires DistinctKeys(items) && RulesUnderOwnKey(items)
    requires forall j :: 0 <= j < |items| ==> !items[j].key.Equals(key)
    ensures DistinctKeys(items + [Binding(key, [])]) && RulesUnderOwnKey(items + [Binding(key, [])])
  {
    forall j | 0 <= j < |items| ensures items[j].key != key {
      EqualsIsValueEquality(items[j].key, key);
    }
  }

  /** Appending copies of a rule to the list under the rule's own key keeps the map
      well formed. */
  lemma AppendRules(items: seq<Binding<seq<ItemEntryAspects>>>, idx: nat, entry: ItemEntryAspects, n: int)
    requires DistinctKeys(items) && RulesUnderOwnKey(items)
    requires idx < |items| && items[idx].key == entry.item
    ensures var items' := items[idx := Binding(items[idx].key, items[idx].value + Copies(entry, n))];
      DistinctKeys(items') && RulesUnderOwnKey(items')
  {
    var items' := items[idx := Binding(items[idx].key, items[idx].value + Copies(entry, n))];
    CopiesFacts(entry, n);
    forall j, r | 0 <= j < |items'| && r in items'[j].value ensures r.item == items'[j].key {
      if j == idx && r !in items[idx].value {
        assert r in Copies(entry, n);
      }
    }
  }

  /** The same keys in the same order, each rule list a reordering of the old one. */
  ghost predicate Reshuffled(items: seq<Binding<seq<ItemEntryAspects>>>, original: seq<Binding<seq<ItemEntryAspects>>>) {
    && SameKeys(items, original)
    && forall k :: 0 <= k < |items| ==> multiset(items[k].value) == multiset(original[k].value)
  }

  /** Writing back a reordering of one item's rules keeps the keys, the rule multisets
      and every rule under its own key. */
  lemma ReshuffleOne(items: seq<Binding<seq<ItemEntryAspects>>>, original: seq<Binding<seq<ItemEntryAspects>>>,
                     i: nat, entries: seq<ItemEntryAspects>)
    requires Reshuffled(items, original) && RulesUnderOwnKey(items) && i < |items|
    requires multiset(entries) == multiset(items[i].value)
    ensures var items' := items[i := Binding(items[i].key, entries)];
      Reshuffled(items', original) && RulesUnderOwnKey(items')
  {
    var items' := items[i := Binding(items[i].key, entries)];
    forall k, r | 0 <= k < |items'| && r in items'[k].value ensures r.item == items'[k].key {
      if k == i {
        assert r in multiset(items[i].value);
      }
    }
  }

  /** Each pool is the previous one less every definition of an aspect drawn in between. */
  ghost predicate PoolChain(pools: seq<seq<AspectEntry>>, draws: seq<seq<Draw>>) {
    |pools| == |draws| + 1 && forall k :: 0 <= k < |draws| ==> pools[k + 1] == RemoveAll(pools[k], DrawnAspects(draws[k]))
  }

  /** Item k was loaded from pools[k], with the rules it now holds and the result stored for it. */
  ghost predicate EachLoaded(items: seq<Binding<seq<ItemEntryAspects>>>, registered: seq<AspectEntry>,
                             matched: seq<Binding<seq<ItemAspect>>>,
                             pools: seq<seq<AspectEntry>>, primary: seq<bool>, draws: seq<seq<Draw>>)
  {
    && |matched| <= |items| && |matched| <= |pools| && |primary| == |matched| && |draws| == |matched|
    && forall k :: 0 <= k < |matched| ==>
      && matched[k].key == items[k].key
      && ItemLoaded(items[k].value, registered, pools[k], primary[k], draws[k], matched[k].value)
  }

  /** The pool holds no definition of an aspect any item already received. */
  ghost predicate PoolAvoids(pool: seq<AspectEntry>, matched: seq<Binding<seq<ItemAspect>>>) {
    forall k, e :: 0 <= k < |matched| && e in pool ==> e.aspect !in AspectSet(View(matched[k].value))
  }

  /** An item that drew from the pool shares no aspect with any earlier item. */
  ghost predicate Separated(matched: seq<Binding<seq<ItemAspect>>>, primary: seq<bool>) {
    |primary| == |matched| &&
    forall k, j :: 0 <= k < j < |matched| && primary[j] ==>
      AspectSet(View(matched[k].value)) !! AspectSet(View(matched[j].value))
  }

  /** The state of a load after the first |matched| items of `items` had their turn:
      each of them was loaded from the pool it saw, each pool is the previous one less
      the aspects drawn, the current pool holds no aspect any earlier item received,
      and every item that drew from the pool shares no aspect with an earlier item. */
  ghost predicate Allocation(items: seq<Binding<seq<ItemEntryAspects>>>, registered: seq<AspectEntry>,
                             matched: seq<Binding<seq<ItemAspect>>>,
                             pools: seq<seq<AspectEntry>>, primary: seq<bool>, draws: seq<seq<Draw>>)
  {
    && PoolChain(pools, draws) && pools[0] == registered
    && EachLoaded(items, registered, matched, pools, primary, draws)
    && (forall e :: e in pools[|matched|] ==> e in registered)
    && PoolAvoids(pools[|matched|], matched)
    && Separated(matched, primary)
  }

  lemma EachLoadedExtends(items: seq<Binding<seq<ItemEntryAspects>>>, registered: seq<AspectEntry>,
                          matched: seq<Binding<seq<ItemAspect>>>,
                          pools: seq<seq<AspectEntry>>, primary: seq<bool>, draws: seq<seq<Draw>>,
                          entries: seq<ItemEntryAspects>, merged: seq<ItemAspect>, pool: seq<AspectEntry>,
                          p: bool, d: seq<Draw>)
    requires EachLoaded(items, registered, matched, pools, primary, draws) && |matched| < |items| && |matched| < |pools|
    requires ItemLoaded(entries, registered, pools[|matched|], p, d, merged)
    ensures var i := |matched|;
      EachLoaded(items[i := Binding(items[i].key, entries)], registered, matched + [Binding(items[i].key, merged)],
                 pools + [pool], primary + [p], draws + [d])
  {
    var i := |matched|;
    var items', matched' := items[i := Binding(items[i].key, entries)], matched + [Binding(items[i].key, merged)];
    var pools', primary', draws' := pools + [pool], primary + [p], draws + [d];
    forall k | 0 <= k < i + 1
      ensures matched'[k].key == items'[k].key
      ensures ItemLoaded(items'[k].value, registered, pools'[k], primary'[k], draws'[k], matched'[k].value)
    {
      if k < i {
        assert items'[k] == items[k] && matched'[k] == matched[k] && pools'[k] == pools[k];
        assert primary'[k] == primary[k] && draws'[k] == draws[k];
      }
    }
  }

  lemma PoolAvoidsExtends(pool: seq<AspectEntry>, matched: seq<Binding<seq<ItemAspect>>>,
                          remaining: seq<AspectEntry>, key: ItemEntry, merged: seq<ItemAspect>)
    requires PoolAvoids(pool, matched)
    requires forall e :: e in remaining ==> e in pool && e.aspect !in AspectSet(View(merged))
    ensures PoolAvoids(remaining, matched + [Binding(key, merged)])
  {
    var matched' := matched + [Binding(key, merged)];
    forall k, e | 0 <= k < |matched'| && e in remaining ensures e.aspect !in AspectSet(View(matched'[k].value)) {
      if k < |matched| {
        assert matched'[k] == matched[k];
      }
    }
  }

  lemma SeparatedExtends(matched: seq<Binding<seq<ItemAspect>>>, primary: seq<bool>,
                         key: ItemEntry, merged: seq<ItemAspect>, p: bool)
    requires Separated(matched, primary)
    requires p ==> forall k :: 0 <= k < |matched| ==> AspectSet(View(matched[k].value)) !! AspectSet(View(merged))
    ensures Separated(matched + [Binding(key, merged)], primary + [p])
  {
    var matched', primary' := matched + [Binding(key, merged)], primary + [p];
    forall k, j | 0 <= k < j < |matched'| && primary'[j]
      ensures AspectSet(View(matched'[k].value)) !! AspectSet(View(matched'[j].value))
    {
      assert matched'[k] == matched[k];
      if j < |matched| {
        assert matched'[j] == matched[j] && primary'[j] == primary[j];
      }
    }
  }

  /** One more item's turn keeps the allocation invariant. */
  lemma AllocationExtends(items: seq<Binding<seq<ItemEntryAspects>>>, registered: seq<AspectEntry>,
                          matched: seq<Binding<seq<ItemAspect>>>,
                          pools: seq<seq<AspectEntry>>, primary: seq<bool>, draws: seq<seq<Draw>>,
                          entries: seq<ItemEntryAspects>, merged: seq<ItemAspect>, pool: seq<AspectEntry>,
                          p: bool, d: seq<Draw>)
    requires Allocation(items, registered, matched, pools, primary, draws) && |matched| < |items|
    requires ItemLoaded(entries, registered, pools[|matched|], p, d, merged)
    requires pool == RemoveAll(pools[|matched|], DrawnAspects(d))
    requires forall e :: e in pool ==> e in pools[|matched|] && e.aspect !in AspectSet(View(merged))
    ensures var i := |matched|;
      Allocation(items[i := Binding(items[i].key, entries)], registered, matched + [Binding(items[i].key, merged)],
                 pools + [pool], primary + [p], draws + [d])
  {
    var i := |matched|;
    var key := items[i].key;
    EachLoadedExtends(items, registered, matched, pools, primary, draws, entries, merged, pool, p, d);
    PoolAvoidsExtends(pools[i], matched, pool, key, merged);
    if p {
      forall k | 0 <= k < i ensures AspectSet(View(matched[k].value)) !! AspectSet(View(merged)) {
        PrimaryDrawsAvoid(entries, registered, pools[i], d, merged, AspectSet(View(matched[k].value)));
      }
    }
    SeparatedExtends(matched, primary, key, merged, p);
    assert (pools + [pool])[i + 1] == pool;
  }

  class AspectRegistry {
    var registeredAspects: seq<AspectEntry>
    var registeredItems: seq<Binding<seq<ItemEntryAspects>>>
    var matchedAspects: seq<Binding<seq<ItemAspect>>>

    ghost predicate Valid()
      reads this
    {
      && DistinctKeys(registeredItems)
      && RulesUnderOwnKey(registeredItems)
      && DistinctKeys(matchedAspects)
    }

    constructor ()
      ensures Valid()
      ensures registeredAspects == [] && registeredItems == [] && matchedAspects == []
    {
      registeredAspects := [];
      registeredItems := [];
      matchedAspects := [];
    }

    /** A read-only view of the results of the last load. */
    method GetMatchedAspects() returns (view: seq<Binding<seq<ItemAspect>>>)
      requires Valid()
      ensures view == matchedAspects && DistinctKeys(view)
    {
      view := matchedAspects;
    }

    /** Appends a definition; repeats are allowed and make it likelier to be drawn. */
    method RegisterAspect(entry: AspectEntry)
      requires Valid()
      modifies this
      ensures Valid()
      ensures registeredAspects == old(registeredAspects) + [entry]
      ensures registeredItems == old(registeredItems) && matchedAspects == old(matchedAspects)
    {
      registeredAspects := registeredAspects + [entry];
    }

    method AddAspectToItem(entry: ItemEntryAspects)
      requires Valid()
      modifies this
      ensures Valid()
      ensures registeredAspects == old(registeredAspects) && matchedAspects == old(matchedAspects)
      ensures match KeyIndex(old(registeredItems), entry.item)
        case Some(i) => registeredItems == old(registeredItems)[i := Binding(old(registeredItems)[i].key, old(registeredItems)[i].value + [entry])]
        case None => registeredItems == old(registeredItems) + [Binding(entry.item, [entry])]
    {
      AddAspectsToItem(entry, 1);
      assert Copies(entry, 1) == [entry];
    }

    /** Appends `aspectCount` copies of a rule to the list of the key equal to the rule's
        item, adding that key at the end when there is none. */
    method AddAspectsToItem(entry: ItemEntryAspects, aspectCount: int)
      requires Valid()
      modifies this
      ensures Valid()
      ensures registeredAspects == old(registeredAspects) && matchedAspects == old(matchedAspects)
      ensures match KeyIndex(old(registeredItems), entry.item)
        case Some(i) => registeredItems == old(registeredItems)[i := Binding(old(registeredItems)[i].key, old(registeredItems)[i].value + Copies(entry, aspectCount))]
        case None => registeredItems == old(registeredItems) + [Binding(entry.item, Copies(entry, aspectCount))]
    {
      var idx := 0;
      while idx < |registeredItems| && !registeredItems[idx].key.Equals(entry.item)
        invariant 0 <= idx <= |registeredItems|
        invariant forall j :: 0 <= j < idx ==> !registeredItems[j].key.Equals(entry.item)
      {
        idx := idx + 1;
      }
      ghost var before := registeredItems;
      if idx == |registeredItems| {
        assert KeyIndex(before, entry.item) == None;
        AddKey(registeredItems, entry.item);
        registeredItems := registeredItems + [Binding(entry.item, [])];
      } else {
        assert KeyIndex(before, entry.item) == Some(idx);
        EqualsIsValueEquality(registeredItems[idx].key, entry.item);
      }
      ghost var start := registeredItems;
      assert start[idx := Binding(start[idx].key, start[idx].value + Copies(entry, 0))] == start by {
        assert start[idx].value + [] == start[idx].value;
      }
      var i := 0;
      while i < aspectCount
        invariant 0 <= i && (aspectCount > 0 ==> i <= aspectCount) && (aspectCount <= 0 ==> i == 0)
        invariant registeredItems == start[idx := Binding(start[idx].key, start[idx].value + Copies(entry, i))]
        invariant registeredAspects == old(registeredAspects) && matchedAspects == old(matchedAspects)
      {
        assert start[idx].value + Copies(entry, i) + [entry] == start[idx].value + Copies(entry, i + 1);
        registeredItems := registeredItems[idx := Binding(registeredItems[idx].key, registeredItems[idx].value + [entry])];
        i := i + 1;
      }
      assert Copies(entry, i) == Copies(entry, aspectCount);
      AppendRules(start, idx, entry, aspectCount);
      if idx == |before| {
        assert start[idx].value + Copies(entry, aspectCount) == Copies(entry, aspectCount);
      }
    }

    /** Runs the allocation with a generator seeded by `seed`: every item, in insertion
        order, gets its slots filled from the shared pool (or, when nothing there fits,
        from every registered definition), the pool loses every definition of an aspect
        the item received, and the item's draws are merged by aspect. */
    method LoadAspects(seed: int, stream: (int, nat) -> nat)
      returns (ghost pools: seq<seq<AspectEntry>>, ghost primary: seq<bool>, ghost draws: seq<seq<Draw>>)
      requires Valid()
      modifies this
      ensures Valid()
      ensures registeredAspects == old(registeredAspects)
      ensures Reshuffled(registeredItems, old(registeredItems))
      ensures |matchedAspects| == |registeredItems|
      ensures Allocation(registeredItems, registeredAspects, matchedAspects, pools, primary, draws)
    {
      var rnd := new Random(seed, stream);
      matchedAspects := [];
      var availableAspects := registeredAspects;
      pools, primary, draws := [availableAspects], [], [];
      var n := |registeredItems|;
      ghost var original := registeredItems;

      for i := 0 to n
        invariant registeredAspects == old(registeredAspects)
        invariant Reshuffled(registeredItems, original) && RulesUnderOwnKey(registeredItems)
        invariant |matchedAspects| == i
        invariant Allocation(registeredItems, registeredAspects, matchedAspects, pools, primary, draws)
        invariant pools[i] == availableAspects
      {
        var itemStack := registeredItems[i].key;
        var itemEntries, mergedAspects, remaining;
        ghost var usedPool, d;
        itemEntries, mergedAspects, remaining, usedPool, d :=
          LoadItem(registeredItems[i].value, availableAspects, registeredAspects, rnd);
        ReshuffleOne(registeredItems, original, i, itemEntries);
        AllocationExtends(registeredItems, registeredAspects, matchedAspects, pools, primary, draws,
                          itemEntries, mergedAspects, remaining, usedPool, d);
        registeredItems := registeredItems[i := Binding(itemStack, itemEntries)];
        matchedAspects := matchedAspects + [Binding(itemStack, mergedAspects)];
        availableAspects := remaining;
        pools, primary, draws := pools + [availableAspects], primary + [usedPool], draws + [d];
      }
      assert DistinctKeys(matchedAspects) by {
        assert forall k :: 0 <= k < n ==> matchedAspects[k].key == registeredItems[k].key == original[k].key;
      }
    }

    /** After a load every item has one record per aspect, amounts summed per aspect, no
        more records than rules, a non-empty result exactly when some registered
        definition fits one of its rules, and no aspect shared with an earlier item
        when it drew from the pool. */
    lemma LoadedResults(pools: seq<seq<AspectEntry>>, primary: seq<bool>, draws: seq<seq<Draw>>, i: nat)
      requires |matchedAspects| == |registeredItems| && i < |registeredItems|
      requires Allocation(registeredItems, registeredAspects, matchedAspects, pools, primary, draws)
      ensures matchedAspects[i].key == registeredItems[i].key
      ensures var merged, rules := matchedAspects[i].value, registeredItems[i].value;
        && DistinctAspects(View(merged))
        && |merged| <= |rules|
        && (forall k :: 0 <= k < |merged| ==> merged[k].amount == Total(Portions(draws[i]), merged[k].aspect))
        && (merged != [] <==> AnyMatch(rules, registeredAspects))
      ensures primary[i] ==> forall k :: 0 <= k < i ==>
        AspectSet(View(matchedAspects[k].value)) !! AspectSet(View(matchedAspects[i].value))
      ensures var rules := registeredItems[i].value;
        |PossibleAspects(rules, if primary[i] then pools[i] else registeredAspects)| >= |rules| ==>
          forall k, l :: 0 <= k < l < |draws[i]| ==> draws[i][k].entry != draws[i][l].entry
    {
      LoadedItemFacts(registeredItems[i].value, registeredAspects, pools[i], primary[i], draws[i], matchedAspects[i].value);
    }

    /** The stored result for the first key equal to `item`, or an empty list. */
    method GetItemAspects(item: ItemEntry) returns (aspects: seq<ItemAspect>)
      ensures aspects == ValueOr(matchedAspects, item, [])
    {
      for i := 0 to |matchedAspects|
        invariant forall j :: 0 <= j < i ==> !matchedAspects[j].key.Equals(item)
      {
        if matchedAspects[i].key.Equals(item) {
          return matchedAspects[i].value;
        }
      }
      return [];
    }

    /** The aspects of that result, in the same order. */
    method GetAspects(item: ItemEntry) returns (aspects: seq<Aspect>)
      ensures aspects == AspectsOf(ValueOr(matchedAspects, item, []))
    {
      aspects := [];
      for i := 0 to |matchedAspects|
        invariant forall j :: 0 <= j < i ==> !matchedAspects[j].key.Equals(item)
      {
        if matchedAspects[i].key.Equals(item) {
          var found := matchedAspects[i].value;
          for k := 0 to |found|
            invariant aspects == AspectsOf(found[..k])
          {
            assert found[..k + 1] == found[..k] + [found[k]];
            aspects := aspects + [found[k].aspect];
          }
          assert found[..|found|] == found;
          return;
        }
      }
    }
  }
}
