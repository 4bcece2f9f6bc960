/**
 * Greedy backward elimination: while the form is longer than the target
 * length, choose one item to remove and remove it.  The choice starts from
 * item 0 as the reference removal, without checking it against the
 * blueprint; every later item that passes the blueprint check replaces the
 * reference when the alpha of the form without it is strictly greater.
 *
 * `alpha` is the reliability of a trial form.  It is a parameter so that
 * the optimizer's guarantees hold for any scoring; the driver requires it to
 * agree with Cronbach's alpha (Reliability.Alpha) wherever that is defined.
 */
module Optimizer {
  import opened Dicts
  import opened Responses
  import opened Reliability
  import opened Rules

  /** The trial form `list.pop(i)` leaves on a copy: the form without its i-th item. */
  function Without(list: seq<ItemId>, i: nat): (trial: seq<ItemId>)
    requires i < |list|
    ensures |trial| == |list| - 1
  {
    list[..i] + list[i + 1..]
  }

  /** The trial form holds every item of the form except one copy of the popped one. */
  lemma WithoutRemovesOne(list: seq<ItemId>, i: nat)
    requires i < |list|
    ensures multiset(Without(list, i)) + multiset{list[i]} == multiset(list)
  {
    assert list == list[..i] + [list[i]] + list[i + 1..];
  }

  /** `list.remove(x)`: the form without the first occurrence of `x`. */
  function RemoveFirst(list: seq<ItemId>, x: ItemId): (rest: seq<ItemId>)
    requires x in list
    ensures |rest| == |list| - 1
    ensures multiset(rest) + multiset{x} == multiset(list)
    ensures forall y :: y in rest ==> y in list
  {
    if list[0] == x then
      assert list == [list[0]] + list[1..];
      list[1..]
    else
      assert list == [list[0]] + list[1..];
      [list[0]] + RemoveFirst(list[1..], x)
  }

  /** With distinct items, removing an item by value is popping it by position. */
  lemma {:induction false} RemoveFirstIsWithout(list: seq<ItemId>, k: nat)
    requires Distinct(list) && k < |list|
    ensures RemoveFirst(list, list[k]) == Without(list, k)
  {
    if k > 0 {
      var tail := list[1..];
      assert list[0] != list[k] && tail[k - 1] == list[k];
      DistinctTail(list);
      RemoveFirstIsWithout(tail, k - 1);
      WithoutTail(list, k);
    }
  }

  /** Popping a later item keeps the head in front of the popped tail. */
  lemma WithoutTail(list: seq<ItemId>, k: nat)
    requires 0 < k < |list|
    ensures Without(list, k) == [list[0]] + Without(list[1..], k - 1)
  {
    assert list[..k] == [list[0]] + list[1..][..k - 1];
    assert list[k + 1..] == list[1..][k..];
  }

  lemma DistinctTail(list: seq<ItemId>)
    requires Distinct(list) && |list| > 0
    ensures Distinct(list[1..])
  {
    var tail := list[1..];
    forall i, j | 0 <= i < j < |tail| ensures tail[i] != tail[j] {
      assert tail[i] == list[i + 1] && tail[j] == list[j + 1];
    }
  }

  /**
   * `k` is the position `reductio` settles on: item 0, or a later item that
   * passes the blueprint check and beats item 0's trial alpha strictly; its
   * trial alpha is at least that of every later item that passes the check,
   * and strictly above that of every such item before it (ties go to the
   * earliest).
   */
  ghost predicate GreedyChoice(list: seq<ItemId>, k: nat, bp: Blueprint, dm: DomainMap, target: nat, alpha: seq<ItemId> -> real)
    requires Classified(list, bp, dm)
  {
    k < |list| &&
    (k > 0 ==>
      Admissible(list[k], list, bp, dm, target) && alpha(Without(list, k)) > alpha(Without(list, 0))) &&
    (forall j :: 1 <= j < |list| && Admissible(list[j], list, bp, dm, target) ==>
      alpha(Without(list, j)) <= alpha(Without(list, k))) &&
    (forall j :: 1 <= j < k && Admissible(list[j], list, bp, dm, target) ==>
      alpha(Without(list, j)) < alpha(Without(list, k)))
  }

  /** `x` is the item `reductio` returns for the form `list`. */
  ghost predicate Chooses(list: seq<ItemId>, x: ItemId, bp: Blueprint, dm: DomainMap, target: nat, alpha: seq<ItemId> -> real)
    requires Classified(list, bp, dm)
  {
    exists k :: 0 <= k < |list| && list[k] == x && GreedyChoice(list, k, bp, dm, target, alpha)
  }

  /** The choice is determined: at most one position satisfies it. */
  lemma GreedyChoiceUnique(list: seq<ItemId>, k1: nat, k2: nat, bp: Blueprint, dm: DomainMap, target: nat, alpha: seq<ItemId> -> real)
    requires Classified(list, bp, dm)
    requires GreedyChoice(list, k1, bp, dm, target, alpha) && GreedyChoice(list, k2, bp, dm, target, alpha)
    ensures k1 == k2
  {
  }

  /** The reference item is never checked: when no later item passes the check, item 0 is chosen. */
  lemma ReferenceIsFallback(list: seq<ItemId>, bp: Blueprint, dm: DomainMap, target: nat, alpha: seq<ItemId> -> real)
    requires Classified(list, bp, dm) && |list| > 0
    requires forall j :: 1 <= j < |list| ==> !Admissible(list[j], list, bp, dm, target)
    ensures GreedyChoice(list, 0, bp, dm, target, alpha)
    ensures forall k :: GreedyChoice(list, k, bp, dm, target, alpha) ==> k == 0
  {
  }

  /**
   * A form of three items, each domain at its minimum: item a is the only
   * item of X, items b and c are the two items of Y.  No removal is legal,
   * yet item a is chosen, whatever alpha is, and X drops below its minimum.
   * Every trial form keeps two items, so alpha can be defined on all of them.
   */
  lemma ReferenceMayBreakMinimum(alpha: seq<ItemId> -> real)
    ensures var list, dm, bp := ["a", "b", "c"], map["a" := "X", "b" := "Y", "c" := "Y"], map["X" := Bounds(1, 1), "Y" := Bounds(2, 2)];
      Classified(list, bp, dm) &&
      (forall j :: 0 <= j < |list| ==> |Without(list, j)| == 2 && !Admissible(list[j], list, bp, dm, 2)) &&
      Chooses(list, "a", bp, dm, 2, alpha) &&
      Count(RemoveFirst(list, "a"), dm, "X") < bp["X"].min
  {
    var list, dm, bp := ["a", "b", "c"], map["a" := "X", "b" := "Y", "c" := "Y"], map["X" := Bounds(1, 1), "Y" := Bounds(2, 2)];
    ThreeItemCounts();
    ReferenceIsFallback(list, bp, dm, 2, alpha);
    assert RemoveFirst(list, "a") == ["b", "c"];
    assert ["b", "c"][..1] == ["b"];
  }

  /** The domain counts of the form of `ReferenceMayBreakMinimum`, before and after removing item a. */
  lemma ThreeItemCounts()
    ensures var list, dm := ["a", "b", "c"], map["a" := "X", "b" := "Y", "c" := "Y"];
      Count(list, dm, "X") == 1 && Count(list, dm, "Y") == 2
  {
    var list, dm := ["a", "b", "c"], map["a" := "X", "b" := "Y", "c" := "Y"];
    assert list[..2] == ["a", "b"];
    assert list[..2][..1] == ["a"];
  }

  /**
   * `reductio`: picks the item to remove from `list`.  Item 0 is the
   * reference; each later item that passes the blueprint check replaces it
   * when its trial alpha is strictly greater.  `list` itself is a value and
   * is left as it was.
   */
  method Reductio(list: seq<ItemId>, bp: Blueprint, dm: DomainMap, target: nat, alpha: seq<ItemId> -> real)
    returns (chosen: ItemId)
    requires |list| > 0 && Classified(list, bp, dm)
    ensures chosen in list
    ensures Chooses(list, chosen, bp, dm, target, alpha)
  {
    chosen := list[0];
    var alpha1 := alpha(Without(list, 0));
    ghost var k := 0;
    for i := 1 to |list|
      invariant k < i
      invariant chosen == list[k] && alpha1 == alpha(Without(list, k))
      invariant k > 0 ==> Admissible(list[k], list, bp, dm, target) && alpha1 > alpha(Without(list, 0))
      invariant forall j :: 1 <= j < i && Admissible(list[j], list, bp, dm, target) ==> alpha(Without(list, j)) <= alpha1
      invariant forall j :: 1 <= j < k && Admissible(list[j], list, bp, dm, target) ==> alpha(Without(list, j)) < alpha1
    {
      CountPositive(list, dm, i);
      var ok := CheckRules(list[i], list, bp, dm, target);
      if ok {
        var alpha2 := alpha(Without(list, i));
        if alpha2 > alpha1 {
          alpha1, chosen, k := alpha2, list[i], i;
        }
      }
    }
    assert GreedyChoice(list, k, bp, dm, target, alpha);
  }

  /**
   * The run so far: `forms[s]` is the form before the s-th removal, the
   * first is `initial`, each removal is what `reductio` picks from the form
   * before it, and each form is the one before without that item.
   */
  ghost predicate History(initial: seq<ItemId>, forms: seq<seq<ItemId>>, removed: seq<ItemId>, items: seq<ItemId>,
                          bp: Blueprint, dm: DomainMap, target: nat, alpha: seq<ItemId> -> real)
  {
    |forms| == |removed| &&
    (forall s :: 0 <= s < |forms| ==>
      Classified(forms[s], bp, dm) && removed[s] in forms[s] && Chooses(forms[s], removed[s], bp, dm, target, alpha)) &&
    (|forms| == 0 ==> items == initial) &&
    (|forms| > 0 ==> forms[0] == initial && items == RemoveFirst(forms[|forms| - 1], removed[|forms| - 1])) &&
    (forall s :: 0 <= s < |forms| - 1 ==> forms[s + 1] == RemoveFirst(forms[s], removed[s]))
  }

  /** One more removal picked by `reductio` extends the run. */
  lemma HistoryExtends(initial: seq<ItemId>, forms: seq<seq<ItemId>>, removed: seq<ItemId>, items: seq<ItemId>,
                       x: ItemId, bp: Blueprint, dm: DomainMap, target: nat, alpha: seq<ItemId> -> real)
    requires History(initial, forms, removed, items, bp, dm, target, alpha)
    requires Classified(items, bp, dm) && x in items && Chooses(items, x, bp, dm, target, alpha)
    ensures History(initial, forms + [items], removed + [x], RemoveFirst(items, x), bp, dm, target, alpha)
  {
    var forms', removed' := forms + [items], removed + [x];
    forall s | 0 <= s < |forms'| - 1
      ensures forms'[s + 1] == RemoveFirst(forms'[s], removed'[s])
    {
      assert forms'[s] == forms[s] && removed'[s] == removed[s];
      if s < |forms| - 1 {
        assert forms'[s + 1] == forms[s + 1];
      }
    }
    forall s | 0 <= s < |forms'|
      ensures Classified(forms'[s], bp, dm) && removed'[s] in forms'[s] && Chooses(forms'[s], removed'[s], bp, dm, target, alpha)
    {
      if s < |forms| {
        assert forms'[s] == forms[s] && removed'[s] == removed[s];
      }
    }
  }

  /**
   * The state of `find_optimal_subset` after some removals: `removed` and
   * `items` together are a rearrangement of `initial`, the form stays
   * classified and no shorter than the target, and the history records it.
   */
  ghost predicate Progress(initial: seq<ItemId>, forms: seq<seq<ItemId>>, removed: seq<ItemId>, items: seq<ItemId>,
                           bp: Blueprint, dm: DomainMap, target: nat, alpha: seq<ItemId> -> real)
  {
    |removed| + |items| == |initial| &&
    (|initial| > target ==> |items| >= target) &&
    (|initial| <= target ==> removed == [] && items == initial) &&
    multiset(removed) + multiset(items) == multiset(initial) &&
    Classified(items, bp, dm) &&
    History(initial, forms, removed, items, bp, dm, target, alpha)
  }

  /** Removing the item `reductio` picks from a form longer than the target keeps the run's state. */
  lemma ProgressStep(initial: seq<ItemId>, forms: seq<seq<ItemId>>, removed: seq<ItemId>, items: seq<ItemId>,
                     x: ItemId, bp: Blueprint, dm: DomainMap, target: nat, alpha: seq<ItemId> -> real)
    requires Progress(initial, forms, removed, items, bp, dm, target, alpha) && |items| > target
    requires x in items && Chooses(items, x, bp, dm, target, alpha)
    ensures Progress(initial, forms + [items], removed + [x], RemoveFirst(items, x), bp, dm, target, alpha)
  {
    HistoryExtends(initial, forms, removed, items, x, bp, dm, target, alpha);
    var rest := RemoveFirst(items, x);
    assert multiset(removed + [x]) + multiset(rest) == multiset(removed) + multiset(items);
  }

  /**
   * `find_optimal_subset`: starting from the grid's items, removes the item
   * `reductio` picks until the form has `target` items.  `forms` records the
   * form before each removal.
   */
  method FindOptimalSubset(g: Grid, dm: DomainMap, bp: Blueprint, target: nat, alpha: seq<ItemId> -> real)
    returns (removed: seq<ItemId>, items: seq<ItemId>, finalAlpha: real, ghost forms: seq<seq<ItemId>>)
    requires WellFormed(g) && |g.keys| > 0
    requires Classified(ExtractItemIds(g), bp, dm)
    requires forall s {:trigger Alpha(g, s)} :: AlphaDefined(g, s) ==> alpha(s) == Alpha(g, s)
    ensures var initial := ExtractItemIds(g);
      && (|initial| > target ==> |items| == target && |removed| == |initial| - target)
      && (|initial| <= target ==> removed == [] && items == initial)
      && multiset(removed) + multiset(items) == multiset(initial)
      && Distinct(removed + items)
    ensures History(ExtractItemIds(g), forms, removed, items, bp, dm, target, alpha)
    ensures finalAlpha == alpha(items)
  {
    var initial := ExtractItemIds(g);
    items := initial;
    removed := [];
    forms := [];
    while |items| > target
      invariant Progress(initial, forms, removed, items, bp, dm, target, alpha)
      decreases |items|
    {
      var nowPop := Reductio(items, bp, dm, target, alpha);
      ProgressStep(initial, forms, removed, items, nowPop, bp, dm, target, alpha);
      forms := forms + [items];
      removed := removed + [nowPop];
      items := RemoveFirst(items, nowPop);
    }
    assert multiset(removed + items) == multiset(initial);
    PermutationKeepsDistinct(removed + items, initial);
    finalAlpha := alpha(items);
  }

  /** In a sequence without repeats, every element occurs at most once. */
  lemma {:induction false} DistinctOccursOnce(s: seq<ItemId>, x: ItemId)
    requires Distinct(s)
    ensures multiset(s)[x] <= 1
  {
    if s != [] {
      var init, last := s[..|s| - 1], s[|s| - 1];
      assert s == init + [last];
      assert Distinct(init) by {
        forall i, j | 0 <= i < j < |init| ensures init[i] != init[j] {
          assert init[i] == s[i] && init[j] == s[j];
        }
      }
      DistinctOccursOnce(init, x);
      if last == x {
        assert x !in init by {
          forall i | 0 <= i < |init| ensures init[i] != x {
            assert init[i] == s[i];
          }
        }
      }
    }
  }

  /** A rearrangement of a sequence without repeats has no repeats. */
  lemma PermutationKeepsDistinct(a: seq<ItemId>, b: seq<ItemId>)
    requires multiset(a) == multiset(b) && Distinct(b)
    ensures Distinct(a)
  {
    forall i, j | 0 <= i < j < |a| ensures a[i] != a[j] {
      if a[i] == a[j] {
        var x := a[i];
        assert a == a[..j] + [a[j]] + a[j + 1..];
        assert x in a[..j];
        assert multiset(a)[x] >= 2;
        DistinctOccursOnce(b, x);
        assert false;
      }
    }
  }
}
