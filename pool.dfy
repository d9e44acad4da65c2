/** The candidate lists the allocator works on: which definitions of a pool fit an
    item's rules (fillPossibleAspects), and the depletion of the pool by aspect
    (removeAvailableAspect). */
module Pool {
  import opened Aspects

  /** A definition fits at least one of the rules. */
  predicate Matches(e: AspectEntry, rules: seq<ItemEntryAspects>) {
    exists r :: r in rules && e.MatchEntry(r)
  }

  /** Some definition of the pool fits some rule. */
  predicate AnyMatch(rules: seq<ItemEntryAspects>, pool: seq<AspectEntry>) {
    exists e :: e in pool && Matches(e, rules)
  }

  /** No element occurs twice (for definitions: no object twice). */
  predicate Distinct<T(==)>(s: seq<T>) {
    forall i, j :: 0 <= i < j < |s| ==> s[i] != s[j]
  }

  // ---------------------------------------------------------------------------
  // Candidates, in the order the nested loops of fillPossibleAspects add them

  /** The inner loop: walk the pool for one rule, appending every fitting definition
      not yet present. */
  function Scan(acc: seq<AspectEntry>, rule: ItemEntryAspects, pool: seq<AspectEntry>): seq<AspectEntry>
    decreases |pool|
  {
    if |pool| == 0 then acc
    else
      var e := pool[0];
      Scan(if e.MatchEntry(rule) && e !in acc then acc + [e] else acc, rule, pool[1..])
  }

  /** The outer loop: one Scan per rule, in rule order. */
  function Sweep(acc: seq<AspectEntry>, rules: seq<ItemEntryAspects>, pool: seq<AspectEntry>): seq<AspectEntry>
    decreases |rules|
  {
    if |rules| == 0 then acc else Sweep(Scan(acc, rules[0], pool), rules[1..], pool)
  }

  /** The candidate list for an item: rule-major, then pool order, without repeats. */
  function PossibleAspects(rules: seq<ItemEntryAspects>, pool: seq<AspectEntry>): seq<AspectEntry> {
    Sweep([], rules, pool)
  }

  lemma {:induction false} ScanFacts(acc: seq<AspectEntry>, rule: ItemEntryAspects, pool: seq<AspectEntry>)
    ensures forall e: AspectEntry :: e in Scan(acc, rule, pool) <==> e in acc || (e in pool && e.MatchEntry(rule))
    ensures Distinct(acc) ==> Distinct(Scan(acc, rule, pool))
    ensures |acc| <= |Scan(acc, rule, pool)| && Scan(acc, rule, pool)[..|acc|] == acc
    decreases |pool|
  {
    if |pool| > 0 {
      var e := pool[0];
      var acc' := if e.MatchEntry(rule) && e !in acc then acc + [e] else acc;
      ScanFacts(acc', rule, pool[1..]);
      assert pool == [e] + pool[1..];
      assert acc'[..|acc|] == acc;
      var r := Scan(acc, rule, pool);
      assert r[..|acc|] == r[..|acc'|][..|acc|];
    }
  }

  /** Inside one rule's block the candidates follow the pool: what Scan appends is
      in the pool, fits the rule, was not in `acc`, and comes in pool order. */
  lemma {:induction false} ScanOrder(acc: seq<AspectEntry>, rule: ItemEntryAspects, pool: seq<AspectEntry>)
    ensures var r := Scan(acc, rule, pool);
      forall i :: |acc| <= i < |r| ==> r[i] in pool && r[i].MatchEntry(rule) && r[i] !in acc
    ensures var r := Scan(acc, rule, pool);
      forall i, j :: |acc| <= i < j < |r| ==> r[i] in pool && r[j] in pool && IndexOf(pool, r[i]) < IndexOf(pool, r[j])
    decreases |pool|
  {
    if |pool| > 0 {
      var e, rest := pool[0], pool[1..];
      var added := e.MatchEntry(rule) && e !in acc;
      var acc' := if added then acc + [e] else acc;
      var r := Scan(acc, rule, pool);
      assert r == Scan(acc', rule, rest);
      ScanOrder(acc', rule, rest);
      ScanFacts(acc', rule, rest);
      assert r[..|acc'|] == acc';
      forall i | |acc| <= i < |r|
        ensures r[i] in pool && r[i].MatchEntry(rule) && r[i] !in acc
        ensures i >= |acc'| ==> r[i] != e && r[i] in rest && IndexOf(pool, r[i]) == IndexOf(rest, r[i]) + 1
      {
        if i < |acc'| {
          assert r[i] == acc'[i] == e;
        } else {
          assert r[i] != e by {
            if !added {
              assert e.MatchEntry(rule) ==> e in acc;
            }
          }
          IndexOfTail(pool, r[i]);
        }
      }
    }
  }

  /** A value found after the head of a list is found one position later in the list. */
  lemma IndexOfTail<T>(s: seq<T>, x: T)
    requires |s| > 0 && x in s[1..] && x != s[0]
    ensures x in s && IndexOf(s, x) == IndexOf(s[1..], x) + 1
  {
  }

  lemma {:induction false} SweepFacts(acc: seq<AspectEntry>, rules: seq<ItemEntryAspects>, pool: seq<AspectEntry>)
    ensures forall e: AspectEntry :: e in Sweep(acc, rules, pool) <==> e in acc || (e in pool && Matches(e, rules))
    ensures Distinct(acc) ==> Distinct(Sweep(acc, rules, pool))
    ensures |acc| <= |Sweep(acc, rules, pool)| && Sweep(acc, rules, pool)[..|acc|] == acc
    decreases |rules|
  {
    if |rules| > 0 {
      var acc' := Scan(acc, rules[0], pool);
      ScanFacts(acc, rules[0], pool);
      SweepFacts(acc', rules[1..], pool);
      assert rules == [rules[0]] + rules[1..];
      forall e ensures Matches(e, rules) <==> e.MatchEntry(rules[0]) || Matches(e, rules[1..]) {
        if Matches(e, rules) {
          var r :| r in rules && e.MatchEntry(r);
          assert r == rules[0] || r in rules[1..];
        }
      }
      var s := Sweep(acc, rules, pool);
      assert s[..|acc|] == s[..|acc'|][..|acc|];
    }
  }

  /** Running the rules in two parts is running them all. */
  lemma {:induction false} SweepSplit(acc: seq<AspectEntry>, first: seq<ItemEntryAspects>, rest: seq<ItemEntryAspects>, pool: seq<AspectEntry>)
    ensures Sweep(acc, first + rest, pool) == Sweep(Sweep(acc, first, pool), rest, pool)
    decreases |first|
  {
    if |first| > 0 {
      assert (first + rest)[0] == first[0];
      assert (first + rest)[1..] == first[1..] + rest;
      SweepSplit(Scan(acc, first[0], pool), first[1..], rest, pool);
    } else {
      assert first + rest == rest;
    }
  }

  /** A candidate is exactly a pool definition that fits some rule, and no definition
      is a candidate twice. */
  lemma PossibleAspectsMembers(rules: seq<ItemEntryAspects>, pool: seq<AspectEntry>)
    ensures forall e: AspectEntry :: e in PossibleAspects(rules, pool) <==> e in pool && Matches(e, rules)
    ensures Distinct(PossibleAspects(rules, pool))
  {
    SweepFacts([], rules, pool);
  }

  /** Rule-major order: the candidates contributed by the first k rules come first. */
  lemma PossibleAspectsRuleMajor(rules: seq<ItemEntryAspects>, k: nat, pool: seq<AspectEntry>)
    requires k <= |rules|
    ensures var head := PossibleAspects(rules[..k], pool);
      |head| <= |PossibleAspects(rules, pool)| && PossibleAspects(rules, pool)[..|head|] == head
  {
    assert rules == rules[..k] + rules[k..];
    SweepSplit([], rules[..k], rules[k..], pool);
    SweepFacts(PossibleAspects(rules[..k], pool), rules[k..], pool);
  }

  /** Pool order inside a rule's block: the candidates that rule k adds sit between the
      candidates of the rules before it and those of the rules after it, each of them
      fits rule k, and they come in the order of the pool. */
  lemma PossibleAspectsPoolOrder(rules: seq<ItemEntryAspects>, k: nat, pool: seq<AspectEntry>)
    requires k < |rules|
    ensures var s, lo, hi := PossibleAspects(rules, pool), |PossibleAspects(rules[..k], pool)|, |PossibleAspects(rules[..k + 1], pool)|;
      && lo <= hi <= |s|
      && (forall i :: lo <= i < hi ==> s[i] in pool && s[i].MatchEntry(rules[k]))
      && (forall i, j :: lo <= i < j < hi ==> s[i] in pool && s[j] in pool && IndexOf(pool, s[i]) < IndexOf(pool, s[j]))
  {
    var s, head := PossibleAspects(rules, pool), PossibleAspects(rules[..k], pool);
    assert rules[..k + 1] == rules[..k] + [rules[k]];
    SweepSplit([], rules[..k], [rules[k]], pool);
    var block := Scan(head, rules[k], pool);
    assert PossibleAspects(rules[..k + 1], pool) == block;
    ScanOrder(head, rules[k], pool);
    ScanFacts(head, rules[k], pool);
    PossibleAspectsRuleMajor(rules, k + 1, pool);
    assert forall i :: 0 <= i < |block| ==> s[i] == block[i];
  }

  /** Whether a definition fits does not depend on the order of the rules. */
  lemma MatchesReordered(e: AspectEntry, rules: seq<ItemEntryAspects>, rules': seq<ItemEntryAspects>)
    requires multiset(rules) == multiset(rules')
    ensures Matches(e, rules) <==> Matches(e, rules')
  {
    if Matches(e, rules) {
      var r :| r in rules && e.MatchEntry(r);
      assert r in multiset(rules');
    }
    if Matches(e, rules') {
      var r :| r in rules' && e.MatchEntry(r);
      assert r in multiset(rules);
    }
  }

  /** The candidate list is empty exactly when nothing in the pool fits; this does not
      depend on the order of the rules. */
  lemma PossibleAspectsEmpty(rules: seq<ItemEntryAspects>, rules': seq<ItemEntryAspects>, pool: seq<AspectEntry>)
    requires multiset(rules) == multiset(rules')
    ensures PossibleAspects(rules, pool) == [] <==> !AnyMatch(rules, pool)
    ensures PossibleAspects(rules, pool) == [] <==> PossibleAspects(rules', pool) == []
  {
    PossibleAspectsMembers(rules, pool);
    PossibleAspectsMembers(rules', pool);
    forall e | e in pool ensures Matches(e, rules) <==> Matches(e, rules') {
      MatchesReordered(e, rules, rules');
    }
    var p, p' := PossibleAspects(rules, pool), PossibleAspects(rules', pool);
    if p != [] {
      PossibleAspectFits(rules, pool, p[0]);
    }
    if p' != [] {
      PossibleAspectFits(rules', pool, p'[0]);
      assert p'[0] in p;
    }
  }

  /** Whether anything in a pool fits does not depend on the order of the rules. */
  lemma AnyMatchReordered(rules: seq<ItemEntryAspects>, rules': seq<ItemEntryAspects>, pool: seq<AspectEntry>)
    requires multiset(rules) == multiset(rules')
    ensures AnyMatch(rules, pool) <==> AnyMatch(rules', pool)
  {
    PossibleAspectsEmpty(rules, rules', pool);
    PossibleAspectsEmpty(rules', rules, pool);
  }

  /** A fitting definition needs a rule to fit. */
  lemma AnyMatchNeedsRules(rules: seq<ItemEntryAspects>, pool: seq<AspectEntry>)
    requires AnyMatch(rules, pool)
    ensures |rules| > 0
  {
    var e :| e in pool && Matches(e, rules);
    var r :| r in rules && e.MatchEntry(r);
  }

  /** One candidate: it is in the pool and fits some rule. */
  lemma PossibleAspectFits(rules: seq<ItemEntryAspects>, pool: seq<AspectEntry>, e: AspectEntry)
    requires e in PossibleAspects(rules, pool)
    ensures e in pool && Matches(e, rules)
  {
    PossibleAspectsMembers(rules, pool);
  }

  /** The position of the first occurrence of x. */
  function IndexOf<T(==)>(s: seq<T>, x: T): (i: nat)
    requires x in s
    ensures i < |s| && s[i] == x && x !in s[..i]
    decreases |s|
  {
    if s[0] == x then 0
    else
      var j := IndexOf(s[1..], x);
      assert s[..j + 1] == [s[0]] + s[1..][..j];
      j + 1
  }

  /** List.remove(Object): drop the first occurrence, if there is one, keeping the
      rest in order. */
  function RemoveFirst<T(==)>(s: seq<T>, x: T): (r: seq<T>)
    ensures x !in s ==> r == s
    ensures x in s ==> r == s[..IndexOf(s, x)] + s[IndexOf(s, x) + 1..]
    decreases |s|
  {
    if |s| == 0 then []
    else if s[0] == x then s[1..]
    else
      var t := s[1..];
      var r := [s[0]] + RemoveFirst(t, x);
      assert x in s ==> r == s[..IndexOf(s, x)] + s[IndexOf(s, x) + 1..] by {
        if x in s {
          assert x in t;
          var i, j := IndexOf(s, x), IndexOf(t, x);
          assert i == j + 1;
          assert s[..i] == [s[0]] + t[..j];
          assert s[i + 1..] == t[j + 1..];
        }
      }
      r
  }

  /** What stays after a removal was in the list before. */
  lemma RemoveFirstMembers<T>(s: seq<T>, x: T)
    ensures forall y :: y in RemoveFirst(s, x) ==> y in s
  {
    if x in s {
      var i := IndexOf(s, x);
      assert RemoveFirst(s, x) == s[..i] + s[i + 1..];
      assert s == s[..i] + [x] + s[i + 1..];
    }
  }

  /** Removing a drawn element from a list without repeats leaves a list without
      repeats that no longer holds it and is one shorter. */
  lemma RemoveFirstDistinct<T>(s: seq<T>, x: T)
    requires Distinct(s) && x in s
    ensures Distinct(RemoveFirst(s, x)) && x !in RemoveFirst(s, x)
    ensures |RemoveFirst(s, x)| == |s| - 1
  {
    var k := IndexOf(s, x);
    assert RemoveFirst(s, x) == s[..k] + s[k + 1..];
    DropDistinct(s, k);
  }

  lemma DropDistinct<T>(s: seq<T>, k: nat)
    requires Distinct(s) && k < |s|
    ensures Distinct(s[..k] + s[k + 1..]) && s[k] !in s[..k] + s[k + 1..]
    ensures |s[..k] + s[k + 1..]| == |s| - 1
  {
    var r := s[..k] + s[k + 1..];
    assert forall i :: 0 <= i < |r| ==> r[i] == (if i < k then s[i] else s[i + 1]);
    forall i, j | 0 <= i < j < |r| ensures r[i] != r[j] {
      var i', j' := if i < k then i else i + 1, if j < k then j else j + 1;
      assert r[i] == s[i'] && r[j] == s[j'];
    }
    forall i | 0 <= i < |r| ensures r[i] != s[k] {
      var i' := if i < k then i else i + 1;
      assert r[i] == s[i'] && i' != k;
    }
  }

  /** A list without repeats has as many elements as its set. */
  lemma {:induction false} DistinctCardinality<T>(s: seq<T>)
    requires Distinct(s)
    ensures |set y | y in s| == |s|
    decreases |s|
  {
    if |s| > 0 {
      var init, last := s[..|s| - 1], s[|s| - 1];
      assert Distinct(init);
      DistinctCardinality(init);
      assert s == init + [last];
      assert (set y | y in s) == (set y | y in init) + {last};
      assert last !in init;
    }
  }

  /** Two lists without repeats that hold the same elements are equally long. */
  lemma SameMembersSameLength<T>(a: seq<T>, b: seq<T>)
    requires Distinct(a) && Distinct(b)
    requires forall y :: y in a <==> y in b
    ensures |a| == |b|
  {
    assert (set y | y in a) == (set y | y in b);
    DistinctCardinality(a);
    DistinctCardinality(b);
  }

  /** The number of candidates does not depend on the order of the rules. */
  lemma PossibleAspectsCount(rules: seq<ItemEntryAspects>, rules': seq<ItemEntryAspects>, pool: seq<AspectEntry>)
    requires multiset(rules) == multiset(rules')
    ensures |PossibleAspects(rules, pool)| == |PossibleAspects(rules', pool)|
  {
    var p, p' := PossibleAspects(rules, pool), PossibleAspects(rules', pool);
    PossibleAspectsMembers(rules, pool);
    PossibleAspectsMembers(rules', pool);
    forall e | e in pool ensures Matches(e, rules) <==> Matches(e, rules') {
      MatchesReordered(e, rules, rules');
    }
    forall y | y in p || y in p' ensures y in p <==> y in p' {
      assert y in pool;
    }
    SameMembersSameLength(p, p');
  }

  // ---------------------------------------------------------------------------
  // Depletion of the shared pool

  /** The pool with every definition of aspect `a` deleted, the rest kept in order. */
  function Without(pool: seq<AspectEntry>, a: Aspect): seq<AspectEntry>
    decreases |pool|
  {
    if |pool| == 0 then []
    else
      var last := pool[|pool| - 1];
      Without(pool[..|pool| - 1], a) + (if last.aspect == a then [] else [last])
  }

  lemma {:induction false} WithoutMembers(pool: seq<AspectEntry>, a: Aspect)
    ensures forall e: AspectEntry :: e in Without(pool, a) <==> e in pool && e.aspect != a
    decreases |pool|
  {
    if |pool| > 0 {
      var init, last := pool[..|pool| - 1], pool[|pool| - 1];
      WithoutMembers(init, a);
      assert pool == init + [last];
    }
  }

  lemma {:induction false} WithoutShrinks(pool: seq<AspectEntry>, a: Aspect)
    ensures |Without(pool, a)| <= |pool|
    ensures (exists e: AspectEntry :: e in pool && e.aspect == a) ==> |Without(pool, a)| < |pool|
    decreases |pool|
  {
    if |pool| > 0 {
      var init, last := pool[..|pool| - 1], pool[|pool| - 1];
      WithoutShrinks(init, a);
      assert pool == init + [last];
    }
  }

  lemma {:induction false} WithoutAbsent(pool: seq<AspectEntry>, a: Aspect)
    requires forall e: AspectEntry :: e in pool ==> e.aspect != a
    ensures Without(pool, a) == pool
    decreases |pool|
  {
    if |pool| > 0 {
      var init, last := pool[..|pool| - 1], pool[|pool| - 1];
      assert pool == init + [last];
      WithoutAbsent(init, a);
    }
  }

  /** Deleting an aspect distributes over concatenation: what stays keeps its order. */
  lemma {:induction false} WithoutAppend(s: seq<AspectEntry>, t: seq<AspectEntry>, a: Aspect)
    ensures Without(s + t, a) == Without(s, a) + Without(t, a)
    decreases |t|
  {
    if |t| == 0 {
      assert s + t == s;
    } else {
      var init := t[..|t| - 1];
      assert (s + t)[..|s + t| - 1] == s + init;
      WithoutAppend(s, init, a);
    }
  }

  /** The pool after deleting the aspects of a list of draws, one after another. */
  function RemoveAll(pool: seq<AspectEntry>, aspects: seq<Aspect>): seq<AspectEntry>
    decreases |aspects|
  {
    if |aspects| == 0 then pool else RemoveAll(Without(pool, aspects[0]), aspects[1..])
  }

  lemma {:induction false} RemoveAllFacts(pool: seq<AspectEntry>, aspects: seq<Aspect>)
    ensures forall e: AspectEntry :: e in RemoveAll(pool, aspects) <==> e in pool && e.aspect !in aspects
    ensures |RemoveAll(pool, aspects)| <= |pool|
    decreases |aspects|
  {
    if |aspects| > 0 {
      var a, rest := aspects[0], aspects[1..];
      var pool' := Without(pool, a);
      WithoutMembers(pool, a);
      WithoutShrinks(pool, a);
      RemoveAllFacts(pool', rest);
      assert aspects == [a] + rest;
      forall e ensures e in RemoveAll(pool, aspects) <==> e in pool && e.aspect !in aspects {
        assert e.aspect in aspects <==> e.aspect == a || e.aspect in rest;
      }
    }
  }
}
