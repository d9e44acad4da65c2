/** Merging an item's draws by aspect: a draw whose aspect is already present replaces
    that record by one carrying the summed amount, placed at the end of the list. */
module Merging {
  import opened Aspects

  /** The value of an ItemAspect: its aspect and amount. */
  datatype Portion = Portion(aspect: Aspect, amount: real)

  function View(s: seq<ItemAspect>): seq<Portion>
  {
    seq(|s|, k requires 0 <= k < |s| => Portion(s[k].aspect, s[k].amount))
  }

  function AspectSet(p: seq<Portion>): set<Aspect> {
    set x | x in p :: x.aspect
  }

  /** No two records carry the same aspect. */
  predicate DistinctAspects(p: seq<Portion>) {
    forall i, j :: 0 <= i < j < |p| ==> p[i].aspect != p[j].aspect
  }

  /** The sum of the amounts recorded for aspect `a`. */
  function Total(p: seq<Portion>, a: Aspect): real
    decreases |p|
  {
    if |p| == 0 then 0.0
    else
      var last := p[|p| - 1];
      Total(p[..|p| - 1], a) + (if last.aspect == a then last.amount else 0.0)
  }

  /** The position of the first record of aspect `a`, as the scan over mergedAspects finds it. */
  function IndexOfAspect(m: seq<Portion>, a: Aspect): (r: Option<nat>)
    ensures r.Some? ==> r.value < |m| && m[r.value].aspect == a
    ensures r.Some? ==> forall k :: 0 <= k < r.value ==> m[k].aspect != a
    ensures r.None? <==> forall k :: 0 <= k < |m| ==> m[k].aspect != a
    decreases |m|
  {
    if |m| == 0 then None
    else if m[0].aspect == a then Some(0)
    else
      match IndexOfAspect(m[1..], a)
      case None => None
      case Some(i) => Some(i + 1)
  }

  /** One step of the merge loop. */
  function MergeInto(m: seq<Portion>, p: Portion): seq<Portion> {
    match IndexOfAspect(m, p.aspect)
    case None => m + [p]
    case Some(j) => m[..j] + m[j + 1..] + [Portion(p.aspect, m[j].amount + p.amount)]
  }

  /** The merged list of a sequence of draws. */
  function Merge(pending: seq<Portion>): seq<Portion>
    decreases |pending|
  {
    if |pending| == 0 then []
    else MergeInto(Merge(pending[..|pending| - 1]), pending[|pending| - 1])
  }

  // ---------------------------------------------------------------------------
  // One step

  /** Removing the record at j leaves the others in order. */
  lemma RemoveAt(m: seq<Portion>, j: nat)
    requires j < |m|
    ensures |m[..j] + m[j + 1..]| == |m| - 1
    ensures forall k :: 0 <= k < |m| - 1 ==> (m[..j] + m[j + 1..])[k] == (if k < j then m[k] else m[k + 1])
  {
  }

  lemma MergeIntoFacts(m: seq<Portion>, p: Portion)
    requires DistinctAspects(m)
    ensures DistinctAspects(MergeInto(m, p))
    ensures |MergeInto(m, p)| <= |m| + 1
    ensures |MergeInto(m, p)| > 0
  {
    match IndexOfAspect(m, p.aspect)
    case None =>
    case Some(j) =>
      var rest := m[..j] + m[j + 1..];
      RemoveAt(m, j);
      var r := MergeInto(m, p);
      assert r == rest + [Portion(p.aspect, m[j].amount + p.amount)];
      forall i, k | 0 <= i < k < |r| ensures r[i].aspect != r[k].aspect {
        var i' := if i < j then i else i + 1;
        assert r[i] == m[i'];
        if k < |rest| {
          var k' := if k < j then k else k + 1;
          assert r[k] == m[k'];
        } else {
          assert i' != j;
        }
      }
  }

  lemma MergeIntoAspects(m: seq<Portion>, p: Portion)
    ensures AspectSet(MergeInto(m, p)) == AspectSet(m) + {p.aspect}
  {
    match IndexOfAspect(m, p.aspect)
    case None =>
      assert forall x :: x in m + [p] <==> x in m || x == p;
    case Some(j) =>
      var rest := m[..j] + m[j + 1..];
      var merged := Portion(p.aspect, m[j].amount + p.amount);
      var r := MergeInto(m, p);
      assert r == rest + [merged];
      assert m == m[..j] + [m[j]] + m[j + 1..];
      assert forall x :: x in m <==> x in m[..j] || x == m[j] || x in m[j + 1..];
      assert forall x :: x in r <==> x in m[..j] || x == merged || x in m[j + 1..];
      forall a ensures a in AspectSet(r) <==> a in AspectSet(m) + {p.aspect} {
        if a in AspectSet(m) + {p.aspect} {
          if a == p.aspect {
            assert merged in r;
          } else {
            var x :| x in m && x.aspect == a;
            assert x in r;
          }
        }
      }
  }

  lemma {:induction false} TotalAppend(s: seq<Portion>, t: seq<Portion>, a: Aspect)
    ensures Total(s + t, a) == Total(s, a) + Total(t, a)
    decreases |t|
  {
    if |t| == 0 {
      assert s + t == s;
    } else {
      var init := t[..|t| - 1];
      assert (s + t)[..|s + t| - 1] == s + init;
      TotalAppend(s, init, a);
    }
  }

  lemma MergeIntoTotal(m: seq<Portion>, p: Portion, a: Aspect)
    ensures Total(MergeInto(m, p), a) == Total(m, a) + (if p.aspect == a then p.amount else 0.0)
  {
    match IndexOfAspect(m, p.aspect)
    case None =>
      TotalAppend(m, [p], a);
      assert [p][..0] == [];
    case Some(j) =>
      var merged := Portion(p.aspect, m[j].amount + p.amount);
      assert m == m[..j] + [m[j]] + m[j + 1..];
      TotalAppend(m[..j] + [m[j]], m[j + 1..], a);
      TotalAppend(m[..j], [m[j]], a);
      TotalAppend(m[..j] + m[j + 1..], [merged], a);
      TotalAppend(m[..j], m[j + 1..], a);
      assert [m[j]][..0] == [] && [merged][..0] == [];
  }

  // ---------------------------------------------------------------------------
  // The whole merge

  /** The merged list has one record per aspect, the same aspects as the draws, and is
      never longer than the draws. */
  lemma {:induction false} MergeShape(pending: seq<Portion>)
    ensures DistinctAspects(Merge(pending))
    ensures AspectSet(Merge(pending)) == AspectSet(pending)
    ensures |Merge(pending)| <= |pending|
    decreases |pending|
  {
    if |pending| > 0 {
      var init, last := pending[..|pending| - 1], pending[|pending| - 1];
      MergeShape(init);
      MergeIntoFacts(Merge(init), last);
      MergeIntoAspects(Merge(init), last);
      assert pending == init + [last];
      assert forall x :: x in pending <==> x in init || x == last;
    }
  }

  /** Merging keeps, for every aspect, the sum of the amounts drawn. */
  lemma {:induction false} MergeKeepsTotals(pending: seq<Portion>, a: Aspect)
    ensures Total(Merge(pending), a) == Total(pending, a)
    decreases |pending|
  {
    if |pending| > 0 {
      var init, last := pending[..|pending| - 1], pending[|pending| - 1];
      MergeKeepsTotals(init, a);
      MergeIntoTotal(Merge(init), last, a);
    }
  }

  lemma {:induction false} TotalAbsent(p: seq<Portion>, a: Aspect)
    requires forall k :: 0 <= k < |p| ==> p[k].aspect != a
    ensures Total(p, a) == 0.0
    decreases |p|
  {
    if |p| > 0 {
      TotalAbsent(p[..|p| - 1], a);
    }
  }

  /** In a list with one record per aspect, a record's amount is its aspect's total. */
  lemma TotalOfDistinct(p: seq<Portion>, k: nat)
    requires DistinctAspects(p) && k < |p|
    ensures Total(p, p[k].aspect) == p[k].amount
  {
    var a := p[k].aspect;
    assert p == p[..k] + [p[k]] + p[k + 1..];
    TotalAbsent(p[..k], a);
    TotalAbsent(p[k + 1..], a);
    TotalAppend(p[..k] + [p[k]], p[k + 1..], a);
    TotalAppend(p[..k], [p[k]], a);
    assert [p[k]][..0] == [];
  }

  /** Each merged record carries the sum of all draws of its aspect. */
  lemma MergedAmountIsSum(pending: seq<Portion>)
    ensures forall k :: 0 <= k < |Merge(pending)| ==>
      Merge(pending)[k].amount == Total(pending, Merge(pending)[k].aspect)
  {
    var m := Merge(pending);
    MergeShape(pending);
    forall k | 0 <= k < |m| ensures m[k].amount == Total(pending, m[k].aspect) {
      TotalOfDistinct(m, k);
      MergeKeepsTotals(pending, m[k].aspect);
    }
  }

  /** A repeated aspect does not keep its first-seen place: its merged record moves
      behind the records first seen after it. */
  lemma MergeMovesRepeatsToEnd(a: Aspect, b: Aspect, x: real, y: real, z: real)
    requires a != b
    ensures Merge([Portion(a, x), Portion(b, y), Portion(a, z)]) == [Portion(b, y), Portion(a, x + z)]
  {
    var p := [Portion(a, x), Portion(b, y), Portion(a, z)];
    assert p[..2][..1] == [Portion(a, x)];
    assert [Portion(a, x)][..0] == [];
    assert Merge([Portion(a, x)]) == [Portion(a, x)];
    assert Merge(p[..2]) == [Portion(a, x), Portion(b, y)];
  }
}
