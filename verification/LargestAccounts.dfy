/** Finding the accounts with the largest balances in one pass with a bounded heap. The result is the
    front of the list sorted by balance, so it does not depend on the order of the scan. */
module LargestAccounts {
  import opened Wrappers

  type Pubkey = nat

  /** A scanned account, and the heap's entry for it: the balance first, then the address. */
  datatype Balance = Balance(lamports: nat, pubkey: Pubkey)

  datatype AddressFilter = Exclude | Include

  predicate AtLeast(a: Balance, b: Balance) {
    a.lamports > b.lamports || (a.lamports == b.lamports && a.pubkey >= b.pubkey)
  }

  /** Whether the scan collects an account: it is there, it is not empty, and it passes the filter. */
  predicate Collects(item: Option<Balance>, addresses: set<Pubkey>, filter: AddressFilter) {
    && item.Some?
    && item.value.lamports != 0
    && (item.value.pubkey in addresses <==> filter.Include?)
  }

  function Collected(scan: seq<Option<Balance>>, addresses: set<Pubkey>, filter: AddressFilter): seq<Balance> {
    if scan == [] then []
    else
      var before := Collected(scan[..|scan| - 1], addresses, filter);
      var item := scan[|scan| - 1];
      if Collects(item, addresses, filter) then before + [item.value] else before
  }

  // ---------------------------------------------------------------------------------------
  // The specification: sort, then take the front

  ghost predicate Descending(s: seq<Balance>) {
    forall i, j :: 0 <= i < j < |s| ==> AtLeast(s[i], s[j])
  }

  /** Puts a balance where it belongs in a descending list. */
  ghost function Placed(s: seq<Balance>, x: Balance): seq<Balance> {
    if s == [] || AtLeast(x, s[0]) then [x] + s else [s[0]] + Placed(s[1..], x)
  }

  ghost function Sorted(s: seq<Balance>): seq<Balance> {
    if s == [] then [] else Placed(Sorted(s[..|s| - 1]), s[|s| - 1])
  }

  ghost function Front(s: seq<Balance>, num: nat): seq<Balance> {
    if |s| <= num then s else s[..num]
  }

  ghost function Swapped(s: seq<Balance>): seq<(Pubkey, nat)> {
    seq(|s|, i requires 0 <= i < |s| => (s[i].pubkey, s[i].lamports))
  }

  ghost function Largest(collected: seq<Balance>, num: nat): seq<(Pubkey, nat)> {
    Swapped(Front(Sorted(collected), num))
  }

  lemma {:induction false} PlacedKeeps(s: seq<Balance>, x: Balance)
    ensures multiset(Placed(s, x)) == multiset(s) + multiset{x}
    decreases |s|
  {
    if s != [] && !AtLeast(x, s[0]) {
      PlacedKeeps(s[1..], x);
      assert s == [s[0]] + s[1..];
    }
  }

  lemma {:induction false} Prepended(x: Balance, s: seq<Balance>)
    requires Descending(s) && forall y :: y in multiset(s) ==> AtLeast(x, y)
    ensures Descending([x] + s)
  {
    forall j | 0 <= j < |s| ensures AtLeast(x, s[j]) {
      assert s[j] in multiset(s);
    }
  }

  lemma {:induction false} PlacedSorts(s: seq<Balance>, x: Balance)
    requires Descending(s)
    ensures Descending(Placed(s, x))
    decreases |s|
  {
    if s != [] && !AtLeast(x, s[0]) {
      PlacedSorts(s[1..], x);
      PlacedKeeps(s[1..], x);
      Prepended(s[0], Placed(s[1..], x));
    }
  }

  lemma {:induction false} SortedSorts(s: seq<Balance>)
    ensures Descending(Sorted(s)) && multiset(Sorted(s)) == multiset(s)
    decreases |s|
  {
    if s != [] {
      var last := |s| - 1;
      SortedSorts(s[..last]);
      PlacedSorts(Sorted(s[..last]), s[last]);
      PlacedKeeps(Sorted(s[..last]), s[last]);
      assert s == s[..last] + [s[last]];
    }
  }

  lemma {:induction false} HeadIsGreatest(s: seq<Balance>, t: seq<Balance>)
    requires Descending(s) && s != [] && t != [] && multiset(s) == multiset(t)
    ensures AtLeast(s[0], t[0])
  {
    assert t[0] in multiset(s);
    var i :| 0 <= i < |s| && s[i] == t[0];
  }

  /** A descending list is determined by what is in it. */
  lemma {:induction false} DescendingIsUnique(s: seq<Balance>, t: seq<Balance>)
    requires Descending(s) && Descending(t) && multiset(s) == multiset(t)
    ensures s == t
    decreases |s|
  {
    assert |s| == |multiset(s)| && |t| == |multiset(t)|;
    if s != [] {
      HeadIsGreatest(s, t);
      HeadIsGreatest(t, s);
      assert s == [s[0]] + s[1..] && t == [t[0]] + t[1..];
      assert multiset(s[1..]) == multiset(s) - multiset{s[0]};
      assert multiset(t[1..]) == multiset(t) - multiset{t[0]};
      DescendingIsUnique(s[1..], t[1..]);
    }
  }

  lemma {:induction false} CollectedCount(scan: seq<Option<Balance>>, addresses: set<Pubkey>, filter: AddressFilter,
                                          x: Balance)
    ensures multiset(Collected(scan, addresses, filter))[x] ==
            if x.lamports != 0 && (x.pubkey in addresses <==> filter == Include) then multiset(scan)[Some(x)] else 0
    decreases |scan|
  {
    if scan != [] {
      var last := |scan| - 1;
      CollectedCount(scan[..last], addresses, filter, x);
      assert scan == scan[..last] + [scan[last]];
    }
  }

  /** An account of the scan that passes the filter and is not empty. */
  ghost predicate Wanted(scan: seq<Option<Balance>>, addresses: set<Pubkey>, filter: AddressFilter, x: Balance) {
    Some(x) in scan && x.lamports != 0 && (x.pubkey in addresses <==> filter == Include)
  }

  lemma {:induction false} CollectedHas(scan: seq<Option<Balance>>, addresses: set<Pubkey>, filter: AddressFilter,
                                        x: Balance)
    ensures x in Collected(scan, addresses, filter) <==> Wanted(scan, addresses, filter, x)
  {
    CollectedCount(scan, addresses, filter, x);
    assert Some(x) in scan <==> Some(x) in multiset(scan);
    assert x in Collected(scan, addresses, filter) <==> x in multiset(Collected(scan, addresses, filter));
  }

  /** The result in terms of balances and addresses: only wanted accounts, the richest first and the
      higher address first among equals; one that is missing is no richer than any listed, and is
      missing only because the list is full. */
  lemma {:induction false} LargestByFields(scan: seq<Option<Balance>>, num: nat, addresses: set<Pubkey>,
                                           filter: AddressFilter)
    ensures var r := Largest(Collected(scan, addresses, filter), num);
      && |r| <= num
      && (forall i :: 0 <= i < |r| ==> Wanted(scan, addresses, filter, Balance(r[i].1, r[i].0)))
      && (forall i, j :: 0 <= i < j < |r| ==> r[i].1 > r[j].1 || (r[i].1 == r[j].1 && r[i].0 >= r[j].0))
      && (forall x :: Wanted(scan, addresses, filter, x) && (x.pubkey, x.lamports) !in r ==>
            |r| == num && forall i :: 0 <= i < |r| ==>
              r[i].1 > x.lamports || (r[i].1 == x.lamports && r[i].0 >= x.pubkey))
  {
    var collected := Collected(scan, addresses, filter);
    var sorted, r := Sorted(collected), Largest(collected, num);
    SortedSorts(collected);
    forall i | 0 <= i < |r| ensures Wanted(scan, addresses, filter, Balance(r[i].1, r[i].0)) {
      assert sorted[i] in multiset(collected);
      CollectedHas(scan, addresses, filter, sorted[i]);
    }
    forall x | Wanted(scan, addresses, filter, x) && (x.pubkey, x.lamports) !in r
      ensures |r| == num && forall i :: 0 <= i < |r| ==>
        r[i].1 > x.lamports || (r[i].1 == x.lamports && r[i].0 >= x.pubkey)
    {
      CollectedHas(scan, addresses, filter, x);
      MissingIsLater(sorted, num, x, collected);
    }
  }

  lemma {:induction false} MissingIsLater(sorted: seq<Balance>, num: nat, x: Balance, collected: seq<Balance>)
    requires Descending(sorted) && multiset(sorted) == multiset(collected) && x in collected
    ensures || (x.pubkey, x.lamports) in Swapped(Front(sorted, num))
            || (|Front(sorted, num)| == num && forall i :: 0 <= i < num ==> AtLeast(sorted[i], x))
  {
    assert x in multiset(sorted);
    var k :| 0 <= k < |sorted| && sorted[k] == x;
    var front := Front(sorted, num);
    if k < |front| {
      assert Swapped(front)[k] == (x.pubkey, x.lamports);
    }
  }

  /** Scanning the accounts in another order gives the same answer. */
  lemma {:induction false} LargestIgnoresOrder(a: seq<Option<Balance>>, b: seq<Option<Balance>>, num: nat,
                                               addresses: set<Pubkey>, filter: AddressFilter)
    requires multiset(a) == multiset(b)
    ensures Largest(Collected(a, addresses, filter), num) == Largest(Collected(b, addresses, filter), num)
  {
    var ca, cb := Collected(a, addresses, filter), Collected(b, addresses, filter);
    forall x ensures multiset(ca)[x] == multiset(cb)[x] {
      CollectedCount(a, addresses, filter, x);
      CollectedCount(b, addresses, filter, x);
    }
    assert multiset(ca) == multiset(cb);
    SortedSorts(ca);
    SortedSorts(cb);
    DescendingIsUnique(Sorted(ca), Sorted(cb));
  }

  // ---------------------------------------------------------------------------------------
  // The bounded heap

  /** The heap holds the greatest balances: everything left out is no greater, and only a full heap
      leaves anything out. */
  ghost predicate HoldsGreatest(heap: multiset<Balance>, left: seq<Balance>, num: nat) {
    && |heap| <= num
    && (left != [] ==> |heap| == num)
    && forall x, i :: x in heap && 0 <= i < |left| ==> AtLeast(x, left[i])
  }

  predicate IsLeast(x: Balance, heap: multiset<Balance>) {
    x in heap && forall y :: y in heap ==> AtLeast(y, x)
  }

  predicate IsGreatest(x: Balance, heap: multiset<Balance>) {
    x in heap && forall y :: y in heap ==> AtLeast(x, y)
  }

  lemma {:induction false} LeastExists(heap: multiset<Balance>)
    requires |heap| > 0
    ensures exists x :: IsLeast(x, heap)
    decreases |heap|
  {
    var a :| a in heap;
    var rest := heap - multiset{a};
    assert heap == rest + multiset{a};
    if |rest| == 0 {
      assert heap == multiset{a};
      assert IsLeast(a, heap);
    } else {
      LeastExists(rest);
      var b :| IsLeast(b, rest);
      assert IsLeast(if AtLeast(b, a) then a else b, heap);
    }
  }

  lemma {:induction false} GreatestExists(heap: multiset<Balance>)
    requires |heap| > 0
    ensures exists x :: IsGreatest(x, heap)
    decreases |heap|
  {
    var a :| a in heap;
    var rest := heap - multiset{a};
    assert heap == rest + multiset{a};
    if |rest| == 0 {
      assert heap == multiset{a};
      assert IsGreatest(a, heap);
    } else {
      GreatestExists(rest);
      var b :| IsGreatest(b, rest);
      assert IsGreatest(if AtLeast(a, b) then a else b, heap);
    }
  }

  /** A full heap whose least entry is no smaller leaves the newcomer out. */
  lemma {:induction false} SkipKeeps(heap: multiset<Balance>, left: seq<Balance>, num: nat, least: Balance, x: Balance)
    requires HoldsGreatest(heap, left, num) && |heap| == num && IsLeast(least, heap) && AtLeast(least, x)
    ensures HoldsGreatest(heap, left + [x], num)
  {
  }

  /** Otherwise the newcomer takes the least entry's place. */
  lemma {:induction false} ReplaceKeeps(heap: multiset<Balance>, left: seq<Balance>, num: nat, least: Balance,
                                        x: Balance)
    requires HoldsGreatest(heap, left, num) && |heap| == num && IsLeast(least, heap) && !AtLeast(least, x)
    ensures HoldsGreatest(heap - multiset{least} + multiset{x}, left + [least], num)
  {
    var after := heap - multiset{least} + multiset{x};
    forall y, i | y in after && 0 <= i < |left| + 1 ensures AtLeast(y, (left + [least])[i]) {
      assert y == x || y in heap;
      assert AtLeast(x, least);
      assert i < |left| ==> AtLeast(least, left[i]);
    }
  }

  /** What the heap ends up with is the front of the sorted list. */
  lemma {:induction false} HeapIsFront(best: seq<Balance>, left: seq<Balance>, all: seq<Balance>, num: nat)
    requires Descending(best) && HoldsGreatest(multiset(best), left, num)
    requires multiset(all) == multiset(best) + multiset(left)
    ensures best == Front(Sorted(all), num)
  {
    var rest := Sorted(left);
    SortedSorts(left);
    SortedSorts(all);
    forall i, j | 0 <= i < |best| && 0 <= j < |rest| ensures AtLeast(best[i], rest[j]) {
      assert best[i] in multiset(best) && rest[j] in multiset(left);
    }
    assert |rest| == |multiset(rest)| == |left| && |best| == |multiset(best)|;
    DescendingIsUnique(best + rest, Sorted(all));
  }

  /** `into_sorted_vec` of the reversed entries. */
  method IntoSorted(heap: multiset<Balance>) returns (best: seq<Balance>)
    ensures Descending(best) && multiset(best) == heap
  {
    best := [];
    var rest := heap;
    while |rest| > 0
      invariant heap == multiset(best) + rest
      invariant Descending(best)
      invariant forall i, y :: 0 <= i < |best| && y in rest ==> AtLeast(best[i], y)
      decreases |rest|
    {
      GreatestExists(rest);
      var x :| x in rest && IsGreatest(x, rest);
      best := best + [x];
      rest := rest - multiset{x};
    }
  }

  /** The scan itself is a parameter: `None` is a failed scan, and an item is `None` where the scan
      found no version of an account. Asking for no accounts does not scan at all. */
  method LoadLargestAccounts(scan: Option<seq<Option<Balance>>>, num: nat, addresses: set<Pubkey>,
                             filter: AddressFilter)
    returns (r: Option<seq<(Pubkey, nat)>>)
    ensures r.None? <==> num > 0 && scan.None?
    ensures num == 0 ==> r == Some([])
    ensures num > 0 && scan.Some? ==> r == Some(Largest(Collected(scan.value, addresses, filter), num))
    ensures r.Some? ==> |r.value| <= num
    ensures r.Some? && num > 0 ==>
      forall i :: 0 <= i < |r.value| ==> Wanted(scan.value, addresses, filter, Balance(r.value[i].1, r.value[i].0))
    ensures r.Some? ==> forall i, j :: 0 <= i < j < |r.value| ==>
      r.value[i].1 > r.value[j].1 || (r.value[i].1 == r.value[j].1 && r.value[i].0 >= r.value[j].0)
    ensures r.Some? && num > 0 ==>
      forall x :: Wanted(scan.value, addresses, filter, x) && (x.pubkey, x.lamports) !in r.value ==>
        |r.value| == num && forall i :: 0 <= i < num ==>
          r.value[i].1 > x.lamports || (r.value[i].1 == x.lamports && r.value[i].0 >= x.pubkey)
  {
    if num == 0 {
      return Some([]);
    }
    if scan.None? {
      return None;
    }
    LargestByFields(scan.value, num, addresses, filter);
    var heap, left := CollectAll(scan.value, num, addresses, filter);
    var best := IntoSorted(heap);
    HeapIsFront(best, left, Collected(scan.value, addresses, filter), num);
    r := Some(seq(|best|, i requires 0 <= i < |best| => (best[i].pubkey, best[i].lamports)));
  }

  /** The scan's callback, over every item. */
  method CollectAll(items: seq<Option<Balance>>, num: nat, addresses: set<Pubkey>, filter: AddressFilter)
    returns (heap: multiset<Balance>, ghost left: seq<Balance>)
    requires num > 0
    ensures HoldsGreatest(heap, left, num)
    ensures multiset(Collected(items, addresses, filter)) == heap + multiset(left)
  {
    heap, left := multiset{}, [];
    for n := 0 to |items|
      invariant HoldsGreatest(heap, left, num)
      invariant multiset(Collected(items[..n], addresses, filter)) == heap + multiset(left)
    {
      assert items[..n + 1][..n] == items[..n];
      if Collects(items[n], addresses, filter) {
        heap, left := Collect(heap, left, num, items[n].value);
      }
    }
    assert items[..|items|] == items;
  }

  /** One collected account meets the heap. */
  method Collect(heap: multiset<Balance>, ghost left: seq<Balance>, num: nat, x: Balance)
    returns (heap': multiset<Balance>, ghost left': seq<Balance>)
    requires num > 0 && HoldsGreatest(heap, left, num)
    ensures HoldsGreatest(heap', left', num)
    ensures heap' + multiset(left') == heap + multiset(left) + multiset{x}
  {
    heap', left' := heap, left;
    if |heap| == num {
      LeastExists(heap);
      var entry :| entry in heap && IsLeast(entry, heap);
      if AtLeast(entry, x) {
        SkipKeeps(heap, left, num, entry, x);
        left' := left + [x];
        return;
      }
      ReplaceKeeps(heap, left, num, entry, x);
      heap', left' := heap - multiset{entry}, left + [entry];
    }
    heap' := heap' + multiset{x};
  }
}
