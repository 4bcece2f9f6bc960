/**
 * The blueprint check: may `item` be removed from the current form?
 * Removing it must not take its own domain below the domain's minimum, and
 * every other domain must be over its maximum by no more than the number of
 * removals still to come (the form's length minus the target length).
 */
module Rules {
  import opened Dicts
  import opened Responses

  type Domain = string

  /** The legal item-count range of one domain in the final form. */
  datatype Bounds = Bounds(min: int, max: int)

  type Blueprint = map<Domain, Bounds>
  type DomainMap = map<ItemId, Domain>

  /** Every item of the form has a domain, and every such domain has bounds. */
  ghost predicate Classified(list: seq<ItemId>, bp: Blueprint, dm: DomainMap)
  {
    forall i :: i in list ==> i in dm && dm[i] in bp
  }

  /** How many items of the form belong to domain `d`. */
  ghost function Count(list: seq<ItemId>, dm: DomainMap, d: Domain): (n: nat)
    requires forall i :: i in list ==> i in dm
    ensures n <= |list|
  {
    if list == [] then 0
    else
      var init := list[..|list| - 1];
      assert forall i :: i in init ==> i in list;
      Count(init, dm, d) + (if dm[list[|list| - 1]] == d then 1 else 0)
  }

  /** The domain of every item of the form has a positive count. */
  lemma {:induction false} CountPositive(list: seq<ItemId>, dm: DomainMap, j: nat)
    requires forall i :: i in list ==> i in dm
    requires j < |list|
    ensures Count(list, dm, dm[list[j]]) > 0
  {
    if j < |list| - 1 {
      var init := list[..|list| - 1];
      assert init[j] == list[j];
      CountPositive(init, dm, j);
    }
  }

  /** A domain with a positive count has an item in the form. */
  lemma {:induction false} CountWitness(list: seq<ItemId>, dm: DomainMap, d: Domain) returns (j: nat)
    requires forall i :: i in list ==> i in dm
    requires Count(list, dm, d) > 0
    ensures j < |list| && dm[list[j]] == d
  {
    if dm[list[|list| - 1]] == d {
      j := |list| - 1;
    } else {
      var init := list[..|list| - 1];
      j := CountWitness(init, dm, d);
      assert init[j] == list[j];
    }
  }

  /**
   * The blueprint rule for removing `item`: its own domain stays at or above
   * its minimum, and every other domain of the form is over its maximum by
   * at most the number of removals still to come.
   */
  ghost predicate Admissible(item: ItemId, list: seq<ItemId>, bp: Blueprint, dm: DomainMap, target: nat)
    requires Classified(list, bp, dm) && item in dm && dm[item] in bp
  {
    var home := dm[item];
    Count(list, dm, home) - 1 >= bp[home].min &&
    forall j :: 0 <= j < |list| && dm[list[j]] != home ==>
      Count(list, dm, dm[list[j]]) - bp[dm[list[j]]].max <= |list| - target
  }

  /** The domains of the form in order of first appearance, each listed once. */
  ghost function FirstSeen(list: seq<ItemId>, dm: DomainMap): seq<Domain>
    requires forall i :: i in list ==> i in dm
  {
    if list == [] then []
    else
      var init, d := list[..|list| - 1], dm[list[|list| - 1]];
      assert forall i :: i in init ==> i in list;
      FirstSeen(init, dm) + (if Count(init, dm, d) > 0 then [] else [d])
  }

  /** The sum of `counts` over the domains of `order`. */
  function Total(order: seq<Domain>, counts: map<Domain, nat>): int
    requires forall d :: d in order ==> d in counts
  {
    if order == [] then 0
    else
      var init := order[..|order| - 1];
      assert forall d :: d in init ==> d in order;
      Total(init, counts) + counts[order[|order| - 1]]
  }

  /** Changing the count of a domain that is not listed leaves the total alone. */
  lemma {:induction false} TotalUnlisted(order: seq<Domain>, counts: map<Domain, nat>, d: Domain, n: nat)
    requires forall e :: e in order ==> e in counts
    requires d !in order
    ensures Total(order, counts[d := n]) == Total(order, counts)
  {
    if order != [] {
      var init := order[..|order| - 1];
      assert forall e :: e in init ==> e in order;
      TotalUnlisted(init, counts, d, n);
    }
  }

  /** Adding one to the count of a domain listed once adds one to the total. */
  lemma {:induction false} TotalIncrement(order: seq<Domain>, counts: map<Domain, nat>, d: Domain)
    requires forall e :: e in order ==> e in counts
    requires Distinct(order) && d in order
    ensures Total(order, counts[d := counts[d] + 1]) == Total(order, counts) + 1
  {
    var init, last := order[..|order| - 1], order[|order| - 1];
    assert forall e :: e in init ==> e in order;
    if last == d {
      assert d !in init;
      TotalUnlisted(init, counts, d, counts[d] + 1);
    } else {
      assert d in init;
      TotalIncrement(init, counts, d);
    }
  }

  /**
   * `order` and `counts` are the dict of domain counts of `list`: its
   * domains once each, in order of first appearance, with their item counts.
   */
  ghost predicate Tallied(list: seq<ItemId>, dm: DomainMap, order: seq<Domain>, counts: map<Domain, nat>)
    requires forall i :: i in list ==> i in dm
  {
    Distinct(order) && order == FirstSeen(list, dm) &&
    (forall d :: d in counts <==> d in order) &&
    (forall d :: d in counts <==> Count(list, dm, d) > 0) &&
    (forall d :: d in counts ==> counts[d] == Count(list, dm, d)) &&
    Total(order, counts) == |list|
  }

  /** One more item adds one to the count of its own domain and nothing to the others. */
  lemma CountAppend(list: seq<ItemId>, dm: DomainMap, x: ItemId)
    requires forall i :: i in list ==> i in dm
    requires x in dm
    ensures forall i :: i in list + [x] ==> i in dm
    ensures forall e :: Count(list + [x], dm, e) == Count(list, dm, e) + (if e == dm[x] then 1 else 0)
  {
    assert (list + [x])[..|list|] == list;
  }

  /** Counting an item of a domain not seen yet: the domain goes last, with count 1. */
  lemma TallyNew(list: seq<ItemId>, dm: DomainMap, order: seq<Domain>, counts: map<Domain, nat>, x: ItemId)
    requires forall i :: i in list ==> i in dm
    requires x in dm && dm[x] !in counts && Tallied(list, dm, order, counts)
    ensures forall i :: i in list + [x] ==> i in dm
    ensures Tallied(list + [x], dm, order + [dm[x]], counts[dm[x] := 1])
  {
    var d, next := dm[x], list + [x];
    CountAppend(list, dm, x);
    assert next[..|list|] == list;
    var order', counts' := order + [d], counts[d := 1];
    assert order' == FirstSeen(next, dm);
    TotalUnlisted(order, counts, d, 1);
    assert Distinct(order');
    forall e
      ensures e in counts' <==> Count(next, dm, e) > 0
      ensures e in counts' ==> counts'[e] == Count(next, dm, e)
    {
    }
  }

  /** Counting an item of a domain already seen: its count goes up by one. */
  lemma TallyKnown(list: seq<ItemId>, dm: DomainMap, order: seq<Domain>, counts: map<Domain, nat>, x: ItemId)
    requires forall i :: i in list ==> i in dm
    requires x in dm && dm[x] in counts && Tallied(list, dm, order, counts)
    ensures forall i :: i in list + [x] ==> i in dm
    ensures Tallied(list + [x], dm, order, counts[dm[x] := counts[dm[x]] + 1])
  {
    var d, next := dm[x], list + [x];
    CountAppend(list, dm, x);
    assert next[..|list|] == list;
    var counts' := counts[d := counts[d] + 1];
    assert order == FirstSeen(next, dm);
    TotalIncrement(order, counts, d);
    forall e
      ensures e in counts' <==> Count(next, dm, e) > 0
      ensures e in counts' ==> counts'[e] == Count(next, dm, e)
    {
    }
  }

  /**
   * The dict of domain counts: the form's domains in order of first
   * appearance, each with its number of items.  The counts add up to the
   * length of the form.
   */
  method DomainCounts(list: seq<ItemId>, dm: DomainMap) returns (order: seq<Domain>, counts: map<Domain, nat>)
    requires forall i :: i in list ==> i in dm
    ensures Distinct(order) && order == FirstSeen(list, dm)
    ensures forall d :: d in counts <==> d in order
    ensures forall d :: d in counts <==> Count(list, dm, d) > 0
    ensures forall d :: d in counts ==> counts[d] == Count(list, dm, d)
    ensures Total(order, counts) == |list|
  {
    order, counts := [], map[];
    for i := 0 to |list|
      invariant forall x :: x in list[..i] ==> x in dm
      invariant Tallied(list[..i], dm, order, counts)
    {
      var domain := dm[list[i]];
      assert list[..i + 1] == list[..i] + [list[i]];
      if domain !in counts {
        TallyNew(list[..i], dm, order, counts, list[i]);
        order, counts := order + [domain], counts[domain := 1];
      } else {
        TallyKnown(list[..i], dm, order, counts, list[i]);
        counts := counts[domain := counts[domain] + 1];
      }
    }
    assert list[..|list|] == list;
  }

  /**
   * `check_rules`: builds the domain counts of the form, rejects when the
   * item's own domain would drop below its minimum, then rejects when some
   * other domain is over its maximum by more than the removals still to come.
   */
  method CheckRules(item: ItemId, list: seq<ItemId>, bp: Blueprint, dm: DomainMap, target: nat) returns (ok: bool)
    requires Classified(list, bp, dm) && item in dm && dm[item] in bp
    requires Count(list, dm, dm[item]) > 0
    ensures Count(list, dm, dm[item]) - 1 < bp[dm[item]].min ==> !ok
    ensures ok <==> Admissible(item, list, bp, dm, target)
  {
    var order, counts := DomainCounts(list, dm);
    var home := dm[item];
    if counts[home] - 1 < bp[home].min {
      return false;
    }
    forall d | d in order
      ensures d in bp
    {
      var j := CountWitness(list, dm, d);
      assert list[j] in list;
    }
    for k := 0 to |order|
      invariant forall m :: 0 <= m < k && order[m] != home ==> counts[order[m]] - bp[order[m]].max <= |list| - target
    {
      var domain := order[k];
      if domain != home && |list| - target < counts[domain] - bp[domain].max {
        var j := CountWitness(list, dm, domain);
        return false;
      }
    }
    forall j | 0 <= j < |list| && dm[list[j]] != home
      ensures Count(list, dm, dm[list[j]]) - bp[dm[list[j]]].max <= |list| - target
    {
      CountPositive(list, dm, j);
      var m :| 0 <= m < |order| && order[m] == dm[list[j]];
    }
    return true;
  }
}
