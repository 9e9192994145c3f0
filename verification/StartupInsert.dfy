/** Startup insertion: the items of a slot are sorted by rotated bin and drained from the end, one bin
    at a time. Whatever the random rotation, each bin receives its own items, once, in pubkey order. */
module StartupInsert {
  import opened Wrappers
  import opened AccountVersions
  import opened Permutations
  import opened PubkeyBins

  datatype Item<T> = Item(pubkey: Pubkey, info: T)

  /** What one drain hands to one bin's map. */
  datatype Run<T> = Run(bin: nat, items: seq<Item<T>>)

  /** The order in which the bins are visited, from the last to the first. */
  function Rotated(bin: nat, offset: nat, bins: nat): nat
    requires bins > 0
  {
    (bin + offset) % bins
  }

  ghost predicate Before<T>(a: Item<T>, b: Item<T>, binOf: Pubkey -> nat, offset: nat, bins: nat)
    requires bins > 0
  {
    var ra, rb := Rotated(binOf(a.pubkey), offset, bins), Rotated(binOf(b.pubkey), offset, bins);
    ra < rb || (ra == rb && a.pubkey <= b.pubkey)
  }

  /** What sorting the items gives: any arrangement in order, for the sort is not stable. */
  ghost predicate Arranged<T>(s: seq<Item<T>>, binOf: Pubkey -> nat, offset: nat, bins: nat)
    requires bins > 0
  {
    forall i, j :: 0 <= i < j < |s| ==> Before(s[i], s[j], binOf, offset, bins)
  }

  ghost predicate NoDuplicates<T>(s: seq<Item<T>>) {
    forall i, j :: 0 <= i < j < |s| ==> s[i].pubkey != s[j].pubkey
  }

  /** The items of a bin, in the order they stand. */
  ghost function OfBin<T>(s: seq<Item<T>>, binOf: Pubkey -> nat, bin: nat): seq<Item<T>> {
    if s == [] then []
    else
      var rest := OfBin(s[..|s| - 1], binOf, bin);
      if binOf(s[|s| - 1].pubkey) == bin then rest + [s[|s| - 1]] else rest
  }

  // ---------------------------------------------------------------------------------------
  // Sorting brings a bin's items together

  lemma {:induction false} RotatedIs(bin: nat, offset: nat, bins: nat)
    requires bin < bins && offset < bins
    ensures Rotated(bin, offset, bins) == if bin + offset < bins then bin + offset else bin + offset - bins
  {
    var x := bin + offset;
    var q := Quotient(x, bins);
    assert x == q * bins + x % bins;
    QuotientBelow(x, 2, bins);
    if x < bins {
      QuotientBelow(x, 1, bins);
    } else {
      MulCancels(0, q, bins);
    }
  }

  /** The rotation keeps the bins apart. */
  lemma {:induction false} RotatedApart(a: nat, b: nat, offset: nat, bins: nat)
    requires a < bins && b < bins && offset < bins
    ensures Rotated(a, offset, bins) == Rotated(b, offset, bins) <==> a == b
  {
    RotatedIs(a, offset, bins);
    RotatedIs(b, offset, bins);
  }

  lemma {:induction false} OfBinJoin<T>(a: seq<Item<T>>, b: seq<Item<T>>, binOf: Pubkey -> nat, bin: nat)
    ensures OfBin(a + b, binOf, bin) == OfBin(a, binOf, bin) + OfBin(b, binOf, bin)
    decreases |b|
  {
    if b == [] {
      assert a + b == a;
    } else {
      var last := |b| - 1;
      assert (a + b)[..|a + b| - 1] == a + b[..last];
      OfBinJoin(a, b[..last], binOf, bin);
    }
  }

  lemma {:induction false} OfBinAll<T>(s: seq<Item<T>>, binOf: Pubkey -> nat, bin: nat)
    requires forall i :: 0 <= i < |s| ==> binOf(s[i].pubkey) == bin
    ensures OfBin(s, binOf, bin) == s
    decreases |s|
  {
    if s != [] {
      OfBinAll(s[..|s| - 1], binOf, bin);
      assert s == s[..|s| - 1] + [s[|s| - 1]];
    }
  }

  lemma {:induction false} OfBinNone<T>(s: seq<Item<T>>, binOf: Pubkey -> nat, bin: nat)
    requires forall i :: 0 <= i < |s| ==> binOf(s[i].pubkey) != bin
    ensures OfBin(s, binOf, bin) == []
    decreases |s|
  {
    if s != [] {
      OfBinNone(s[..|s| - 1], binOf, bin);
    }
  }

  lemma {:induction false} OfBinBetween<T>(a: seq<Item<T>>, mid: seq<Item<T>>, b: seq<Item<T>>, binOf: Pubkey -> nat,
                                           bin: nat)
    requires OfBin(a, binOf, bin) == [] && OfBin(b, binOf, bin) == [] && OfBin(mid, binOf, bin) == mid
    ensures OfBin(a + mid + b, binOf, bin) == mid
  {
    OfBinJoin(a + mid, b, binOf, bin);
    OfBinJoin(a, mid, binOf, bin);
  }

  lemma {:induction false} OfBinMiddle<T>(s: seq<Item<T>>, lo: nat, hi: nat, binOf: Pubkey -> nat, bin: nat)
    requires lo <= hi <= |s|
    requires forall i :: 0 <= i < |s| ==> (binOf(s[i].pubkey) == bin <==> lo <= i < hi)
    ensures OfBin(s, binOf, bin) == s[lo..hi]
  {
    var a, mid, b := s[..lo], s[lo..hi], s[hi..];
    assert s == a + mid + b;
    OfBinNone(a, binOf, bin);
    OfBinAll(mid, binOf, bin);
    OfBinNone(b, binOf, bin);
    OfBinBetween(a, mid, b, binOf, bin);
  }

  /** Items with the same pubkey stand side by side. */
  lemma {:induction false} EqualsAreAdjacent<T>(s: seq<Item<T>>, i: nat, j: nat, binOf: Pubkey -> nat, offset: nat,
                                                bins: nat)
    requires bins > 0 && Arranged(s, binOf, offset, bins)
    requires i < j < |s| && s[i].pubkey == s[j].pubkey
    ensures s[j - 1].pubkey == s[j].pubkey
  {
    if i < j - 1 {
      assert Before(s[i], s[j - 1], binOf, offset, bins);
      assert Before(s[j - 1], s[j], binOf, offset, bins);
    }
  }

  ghost predicate ApartFrom<T>(s: seq<Item<T>>, k: int)
    requires 0 <= k < |s|
  {
    k > 0 ==> s[k - 1].pubkey != s[k].pubkey
  }

  lemma {:induction false} NeighboursSuffice<T>(s: seq<Item<T>>, binOf: Pubkey -> nat, offset: nat, bins: nat)
    requires bins > 0 && Arranged(s, binOf, offset, bins)
    requires forall k :: 0 <= k < |s| ==> ApartFrom(s, k)
    ensures NoDuplicates(s)
  {
    forall i, j | 0 <= i < j < |s| ensures s[i].pubkey != s[j].pubkey {
      assert ApartFrom(s, j);
      if s[i].pubkey == s[j].pubkey {
        EqualsAreAdjacent(s, i, j, binOf, offset, bins);
      }
    }
  }

  // ---------------------------------------------------------------------------------------
  // The drain loop

  /** Bins before and after a cut are different bins. */
  ghost predicate CutAt<T>(s: seq<Item<T>>, n: int, binOf: Pubkey -> nat)
    requires 0 <= n <= |s|
  {
    forall i, j :: 0 <= i < n <= j < |s| ==> binOf(s[i].pubkey) != binOf(s[j].pubkey)
  }

  lemma {:induction false} BinEnds<T>(s: seq<Item<T>>, start: nat, binOf: Pubkey -> nat, offset: nat, bins: nat)
    requires Binner(binOf, bins) && offset < bins && Arranged(s, binOf, offset, bins)
    requires start < |s| && (start > 0 ==> binOf(s[start - 1].pubkey) != binOf(s[start].pubkey))
    ensures CutAt(s, start, binOf)
  {
    forall i, j | 0 <= i < start <= j < |s| ensures binOf(s[i].pubkey) != binOf(s[j].pubkey) {
      var bi, bj := binOf(s[i].pubkey), binOf(s[j].pubkey);
      var bp, bs := binOf(s[start - 1].pubkey), binOf(s[start].pubkey);
      RotatedApart(bp, bs, offset, bins);
      RotatedApart(bi, bj, offset, bins);
      assert Before(s[start - 1], s[start], binOf, offset, bins);
      assert i < start - 1 ==> Before(s[i], s[start - 1], binOf, offset, bins);
      assert start < j ==> Before(s[start], s[j], binOf, offset, bins);
    }
  }

  /** The start of the last bin's run among the first `n` items; `None` when two neighbours are equal. */
  method FindRun<T>(s: seq<Item<T>>, n: nat, binOf: Pubkey -> nat) returns (r: Option<nat>)
    requires 0 < n <= |s|
    ensures r.None? ==> exists k :: 0 <= k < n && !ApartFrom(s, k)
    ensures r.Some? ==> r.value < n
    ensures r.Some? ==> forall k :: r.value <= k < n ==> ApartFrom(s, k) && binOf(s[k].pubkey) == binOf(s[n - 1].pubkey)
    ensures r.Some? && r.value > 0 ==> binOf(s[r.value - 1].pubkey) != binOf(s[r.value].pubkey)
  {
    var start := n - 1;
    while start > 0
      invariant start < n
      invariant forall k :: start < k < n ==> ApartFrom(s, k)
      invariant forall k :: start <= k < n ==> binOf(s[k].pubkey) == binOf(s[n - 1].pubkey)
    {
      var next := start - 1;
      if s[next].pubkey == s[start].pubkey {
        assert !ApartFrom(s, start);
        return None;
      }
      if binOf(s[next].pubkey) != binOf(s[n - 1].pubkey) {
        break;
      }
      start := next;
    }
    r := Some(start);
  }

  /** Each run is all that its bin should get, and no bin is visited twice. */
  ghost predicate RunOk<T>(runs: seq<Run<T>>, r: int, s: seq<Item<T>>, binOf: Pubkey -> nat)
    requires 0 <= r < |runs|
  {
    && runs[r].items != []
    && runs[r].items == OfBin(s, binOf, runs[r].bin)
    && forall q :: 0 <= q < r ==> runs[q].bin != runs[r].bin
  }

  ghost predicate Visited<T>(runs: seq<Run<T>>, bin: nat) {
    exists r :: 0 <= r < |runs| && runs[r].bin == bin
  }

  /** Some item from `n` on is of this bin. */
  ghost predicate Reached<T>(s: seq<Item<T>>, n: int, binOf: Pubkey -> nat, bin: nat)
    requires 0 <= n <= |s|
  {
    exists k :: n <= k < |s| && binOf(s[k].pubkey) == bin
  }

  lemma {:induction false} AddRun<T>(runs: seq<Run<T>>, s: seq<Item<T>>, start: nat, n: nat, binOf: Pubkey -> nat,
                                     bin: nat)
    requires start < n <= |s| && CutAt(s, start, binOf) && CutAt(s, n, binOf)
    requires forall k :: start <= k < n ==> binOf(s[k].pubkey) == bin
    requires forall r :: 0 <= r < |runs| ==> RunOk(runs, r, s, binOf)
    requires forall r :: 0 <= r < |runs| ==> Reached(s, n, binOf, runs[r].bin)
    ensures var after := runs + [Run(bin, s[start..n])];
            forall r :: 0 <= r < |after| ==> RunOk(after, r, s, binOf)
  {
    var after := runs + [Run(bin, s[start..n])];
    forall r | 0 <= r < |after| ensures RunOk(after, r, s, binOf) {
      if r < |runs| {
        assert RunOk(runs, r, s, binOf);
      } else {
        forall i | 0 <= i < |s| ensures binOf(s[i].pubkey) == bin <==> start <= i < n {
          assert binOf(s[start].pubkey) == bin;
        }
        OfBinMiddle(s, start, n, binOf, bin);
      }
    }
  }

  lemma {:induction false} SortingKeepsDuplicates<T>(s: seq<Item<T>>, items: seq<Item<T>>)
    requires multiset(s) == multiset(items) && NoDuplicates(items)
    ensures NoDuplicates(s)
  {
    forall i, j | 0 <= i < j < |s| ensures s[i].pubkey != s[j].pubkey {
      TwoPlaces(s, items, i, j);
    }
  }

  /** The loop over the sorted items; `None` is the failed assertion that an account is stored only
      once per slot. */
  method InsertNewIfMissing<T>(ghost items: seq<Item<T>>, s: seq<Item<T>>, bins: nat, offset: nat,
                               binOf: Pubkey -> nat)
    returns (r: Option<(nat, seq<Run<T>>)>)
    requires Binner(binOf, bins) && offset < bins
    requires Arranged(s, binOf, offset, bins) && multiset(s) == multiset(items)
    ensures r.Some? <==> NoDuplicates(items)
    ensures r.Some? ==> r.value.0 == |items|
    ensures r.Some? ==> forall i :: 0 <= i < |r.value.1| ==> RunOk(r.value.1, i, s, binOf)
    ensures r.Some? ==> forall i :: 0 <= i < |s| ==> Visited(r.value.1, binOf(s[i].pubkey))
  {
    var n, count, runs := |s|, 0, [];
    while n > 0
      invariant 0 <= n <= |s| && count == |s| - n && CutAt(s, n, binOf)
      invariant forall k :: n <= k < |s| ==> ApartFrom(s, k)
      invariant forall i :: 0 <= i < |runs| ==> RunOk(runs, i, s, binOf)
      invariant forall i :: 0 <= i < |runs| ==> Reached(s, n, binOf, runs[i].bin)
      invariant forall k :: n <= k < |s| ==> Visited(runs, binOf(s[k].pubkey))
    {
      var found := FindRun(s, n, binOf);
      if found.None? {
        if NoDuplicates(items) {
          SortingKeepsDuplicates(s, items);
        }
        return None;
      }
      var start, bin := found.value, binOf(s[n - 1].pubkey);
      BinEnds(s, start, binOf, offset, bins);
      AddRun(runs, s, start, n, binOf, bin);
      ghost var before := runs;
      runs := runs + [Run(bin, s[start..n])];
      assert runs[|before|].bin == bin;
      forall k | start <= k < |s| ensures Visited(runs, binOf(s[k].pubkey)) {
        if k >= n {
          var v :| 0 <= v < |before| && before[v].bin == binOf(s[k].pubkey);
          assert runs[v].bin == binOf(s[k].pubkey);
        }
      }
      count := count + (n - start);
      n := start;
    }
    NeighboursSuffice(s, binOf, offset, bins);
    SortingKeepsDuplicates(items, s);
    assert |s| == |multiset(s)| && |items| == |multiset(items)|;
    r := Some((count, runs));
  }

  // ---------------------------------------------------------------------------------------
  // The rotation does not matter

  ghost predicate AscendsStrictly<T>(s: seq<Item<T>>) {
    forall i, j :: 0 <= i < j < |s| ==> s[i].pubkey < s[j].pubkey
  }

  lemma {:induction false} OfBinHas<T>(s: seq<Item<T>>, binOf: Pubkey -> nat, bin: nat, x: Item<T>)
    ensures x in OfBin(s, binOf, bin) <==> x in s && binOf(x.pubkey) == bin
    decreases |s|
  {
    if s != [] {
      OfBinHas(s[..|s| - 1], binOf, bin, x);
      assert x in s <==> x in s[..|s| - 1] || x == s[|s| - 1];
    }
  }

  lemma {:induction false} OfBinAscends<T>(s: seq<Item<T>>, binOf: Pubkey -> nat, offset: nat, bins: nat, bin: nat)
    requires bins > 0 && Arranged(s, binOf, offset, bins) && NoDuplicates(s)
    ensures AscendsStrictly(OfBin(s, binOf, bin))
    decreases |s|
  {
    if s != [] {
      var last := |s| - 1;
      var rest := OfBin(s[..last], binOf, bin);
      OfBinAscends(s[..last], binOf, offset, bins, bin);
      if binOf(s[last].pubkey) == bin {
        forall i | 0 <= i < |rest| ensures rest[i].pubkey < s[last].pubkey {
          OfBinHas(s[..last], binOf, bin, rest[i]);
          var k :| 0 <= k < last && s[k] == rest[i];
          assert Before(s[k], s[last], binOf, offset, bins);
        }
      }
    }
  }

  lemma {:induction false} LastIsGreatest<T>(a: seq<Item<T>>, b: seq<Item<T>>)
    requires AscendsStrictly(a) && a != [] && b != []
    requires forall x :: x in a <==> x in b
    ensures b[|b| - 1].pubkey <= a[|a| - 1].pubkey
  {
    var x := b[|b| - 1];
    assert x in b;
    var i :| 0 <= i < |a| && a[i] == x;
  }

  lemma {:induction false} WithoutLast<T>(s: seq<Item<T>>, x: Item<T>)
    requires AscendsStrictly(s) && s != []
    ensures x in s[..|s| - 1] <==> x in s && x.pubkey != s[|s| - 1].pubkey
  {
    if x in s {
      var i :| 0 <= i < |s| && s[i] == x;
      assert i < |s| - 1 ==> x == s[..|s| - 1][i];
    }
  }

  lemma {:induction false} AscendingIsUnique<T>(a: seq<Item<T>>, b: seq<Item<T>>)
    requires AscendsStrictly(a) && AscendsStrictly(b)
    requires forall x :: x in a <==> x in b
    ensures a == b
    decreases |a|
  {
    if a == [] {
      assert forall i :: 0 <= i < |b| ==> b[i] in a;
    } else {
      assert a[|a| - 1] in a && b != [];
      var la, lb, before, before' := a[|a| - 1], b[|b| - 1], a[..|a| - 1], b[..|b| - 1];
      assert lb in b;
      LastIsGreatest(a, b);
      LastIsGreatest(b, a);
      forall x ensures x in before <==> x in before' {
        WithoutLast(a, x);
        WithoutLast(b, x);
      }
      AscendingIsUnique(before, before');
      assert la == lb by {
        var i :| 0 <= i < |b| && b[i] == la;
      }
      assert a == before + [la] && b == before' + [lb];
    }
  }

  /** Two rotations of the same items hand each bin the same list. */
  lemma {:induction false} RotationDoesNotMatter<T>(s: seq<Item<T>>, t: seq<Item<T>>, binOf: Pubkey -> nat, bins: nat,
                                                    bin: nat, offset: nat, offset': nat)
    requires bins > 0 && Arranged(s, binOf, offset, bins) && Arranged(t, binOf, offset', bins)
    requires NoDuplicates(s) && NoDuplicates(t) && multiset(s) == multiset(t)
    ensures OfBin(s, binOf, bin) == OfBin(t, binOf, bin)
  {
    OfBinAscends(s, binOf, offset, bins, bin);
    OfBinAscends(t, binOf, offset', bins, bin);
    forall x ensures x in OfBin(s, binOf, bin) <==> x in OfBin(t, binOf, bin) {
      OfBinHas(s, binOf, bin, x);
      OfBinHas(t, binOf, bin, x);
      assert x in s <==> x in multiset(s);
      assert x in t <==> x in multiset(t);
    }
    AscendingIsUnique(OfBin(s, binOf, bin), OfBin(t, binOf, bin));
  }
}
