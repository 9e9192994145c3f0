/** Slot lists of the accounts index: which entry a reader sees, and which entries a clean or a
    purge removes. */
module SlotLists {
  import opened Wrappers

  type Slot = nat

  /** One version of an account: where it is (`value`), and whether it is in the write cache. */
  datatype Entry<T> = Entry(slot: Slot, value: T, cached: bool)

  /** The alive roots and the largest root ever recorded, which removals do not lower. */
  datatype Roots = Roots(alive: set<Slot>, maxInclusive: Slot) {
    ghost predicate Valid() {
      forall s :: s in alive ==> s <= maxInclusive
    }
  }

  /** What a reader may see: its own fork, and roots up to a maximum. */
  datatype View = View(ancestors: Option<set<Slot>>, maxRoot: Option<Slot>)

  predicate IsAncestor(view: View, slot: Slot) {
    view.ancestors.Some? && slot in view.ancestors.value
  }

  predicate IsRootUpTo(roots: Roots, max: Option<Slot>, slot: Slot) {
    slot in roots.alive && (max.None? || slot <= max.value)
  }

  predicate Visible(roots: Roots, view: View, slot: Slot) {
    IsAncestor(view, slot) || IsRootUpTo(roots, view.maxRoot, slot)
  }

  /** The entry a reader sees: the visible one with the highest slot, the later one on a tie. */
  function Seen<T>(list: seq<Entry<T>>, roots: Roots, view: View): Option<Entry<T>> {
    if list == [] then None
    else
      var n := |list| - 1;
      var before := Seen(list[..n], roots, view);
      if Visible(roots, view, list[n].slot) && (before.None? || before.value.slot <= list[n].slot)
      then Some(list[n]) else before
  }

  /** `best` is the index, among those from `from` on, of the entry that satisfies `vis` and has
      the highest slot, the last one on a tie. */
  ghost predicate IsBest<T>(list: seq<Entry<T>>, vis: Slot -> bool, from: nat, best: Option<nat>) {
    match best
    case None => forall i :: from <= i < |list| ==> !vis(list[i].slot)
    case Some(b) =>
      && from <= b < |list| && vis(list[b].slot)
      && (forall i :: from <= i < |list| && vis(list[i].slot) ==>
            list[i].slot < list[b].slot || (list[i].slot == list[b].slot && i <= b))
  }

  lemma {:induction false} BestIsSeen<T>(list: seq<Entry<T>>, roots: Roots, view: View, best: Option<nat>)
    requires IsBest(list, (s: Slot) => Visible(roots, view, s), 0, best)
    ensures Seen(list, roots, view) == if best.None? then None else Some(list[best.value])
    decreases |list|
  {
    if list != [] {
      var n := |list| - 1;
      var front := list[..n];
      SeenIsBest(front, roots, view);
      if best.None? {
        BestIsSeen(front, roots, view, None);
      } else if best.value < n {
        BestIsSeen(front, roots, view, best);
      }
    }
  }

  /** The seen entry is visible and no visible entry has a higher slot; none is seen only when
      none is visible. */
  lemma {:induction false} SeenIsBest<T>(list: seq<Entry<T>>, roots: Roots, view: View)
    ensures var seen := Seen(list, roots, view);
      match seen
      case None => forall i :: 0 <= i < |list| ==> !Visible(roots, view, list[i].slot)
      case Some(e) =>
        && e in list && Visible(roots, view, e.slot)
        && (forall i :: 0 <= i < |list| && Visible(roots, view, list[i].slot) ==> list[i].slot <= e.slot)
    decreases |list|
  {
    if list != [] {
      SeenIsBest(list[..|list| - 1], roots, view);
    }
  }

  /** Only the visibility of the list's own slots matters. */
  lemma {:induction false} SameVisibilitySameSeen<T>(list: seq<Entry<T>>, roots: Roots, roots': Roots, view: View)
    requires forall e :: e in list ==> Visible(roots, view, e.slot) == Visible(roots', view, e.slot)
    ensures Seen(list, roots, view) == Seen(list, roots', view)
    decreases |list|
  {
    if list != [] {
      SameVisibilitySameSeen(list[..|list| - 1], roots, roots', view);
    }
  }

  /** In terms of what a reader is given: it sees nothing older than an entry of its fork, or than an
      alive root up to its maximum, and nothing but such entries. The maximum does not limit its fork. */
  lemma {:induction false} SeenByFields<T>(list: seq<Entry<T>>, roots: Roots, view: View)
    ensures var seen := Seen(list, roots, view);
      && (forall e :: e in list && view.ancestors.Some? && e.slot in view.ancestors.value ==>
            seen.Some? && e.slot <= seen.value.slot)
      && (forall e :: e in list && e.slot in roots.alive && (view.maxRoot.None? || e.slot <= view.maxRoot.value) ==>
            seen.Some? && e.slot <= seen.value.slot)
      && (seen.Some? ==>
            && seen.value in list
            && (|| (view.ancestors.Some? && seen.value.slot in view.ancestors.value)
                || (seen.value.slot in roots.alive
                    && (view.maxRoot.None? || seen.value.slot <= view.maxRoot.value))))
  {
    SeenIsBest(list, roots, view);
  }

  /** `latest_slot`: two passes from the end, first over the ancestors, then over the roots. */
  method LatestSlot<T>(list: seq<Entry<T>>, roots: Roots, view: View) returns (rv: Option<nat>)
    ensures rv.Some? ==> rv.value < |list|
    ensures forall i :: 0 <= i < |list| && view.ancestors.Some? && list[i].slot in view.ancestors.value ==>
              rv.Some? && list[i].slot <= list[rv.value].slot
    ensures forall i :: 0 <= i < |list| && list[i].slot in roots.alive
                        && (view.maxRoot.None? || list[i].slot <= view.maxRoot.value) ==>
              rv.Some? && list[i].slot <= list[rv.value].slot
    ensures rv.Some? ==>
              || (view.ancestors.Some? && list[rv.value].slot in view.ancestors.value)
              || (list[rv.value].slot in roots.alive
                  && (view.maxRoot.None? || list[rv.value].slot <= view.maxRoot.value))
    ensures IsBest(list, (s: Slot) => Visible(roots, view, s), 0, rv)
    ensures Seen(list, roots, view) == if rv.None? then None else Some(list[rv.value])
  {
    rv := None;
    var currentMax := 0;
    if view.ancestors.Some? && view.ancestors.value != {} {
      for i := |list| downto 0
        invariant IsBest(list, (s: Slot) => IsAncestor(view, s), i, rv)
        invariant rv.Some? ==> currentMax == list[rv.value].slot
      {
        if (rv.None? || list[i].slot > currentMax) && list[i].slot in view.ancestors.value {
          rv := Some(i);
          currentMax := list[i].slot;
        }
      }
    }
    assert IsBest(list, (s: Slot) => IsAncestor(view, s), 0, rv);
    for i := |list| downto 0
      invariant rv.Some? ==> rv.value < |list| && currentMax == list[rv.value].slot
      invariant rv.Some? ==> Visible(roots, view, list[rv.value].slot)
      invariant rv.Some? ==> IsAncestor(view, list[rv.value].slot) || i <= rv.value
      invariant forall k :: 0 <= k < |list| && IsAncestor(view, list[k].slot) ==>
        rv.Some? && (list[k].slot < currentMax || (list[k].slot == currentMax && k <= rv.value))
      invariant forall k :: i <= k < |list| && IsRootUpTo(roots, view.maxRoot, list[k].slot) ==>
        rv.Some? && (list[k].slot < currentMax || (list[k].slot == currentMax && k <= rv.value))
    {
      if (rv.None? || list[i].slot > currentMax) && (view.maxRoot.None? || list[i].slot <= view.maxRoot.value) {
        if list[i].slot in roots.alive {
          rv := Some(i);
          currentMax := list[i].slot;
        }
      }
    }
    BestIsSeen(list, roots, view, rv);
  }

  // ---------------------------------------------------------------------------------------
  // Removing entries

  function Filter<T>(list: seq<Entry<T>>, keep: Entry<T> -> bool): seq<Entry<T>> {
    if list == [] then []
    else
      var n := |list| - 1;
      Filter(list[..n], keep) + if keep(list[n]) then [list[n]] else []
  }

  lemma {:induction false} FilterHas<T>(list: seq<Entry<T>>, keep: Entry<T> -> bool, e: Entry<T>)
    ensures e in Filter(list, keep) <==> e in list && keep(e)
    decreases |list|
  {
    if list != [] {
      var n := |list| - 1;
      FilterHas(list[..n], keep, e);
      assert list == list[..n] + [list[n]];
    }
  }

  /** Filtering by a weaker test first changes nothing. */
  lemma {:induction false} FilterTwice<T>(list: seq<Entry<T>>, first: Entry<T> -> bool, second: Entry<T> -> bool)
    requires forall e :: e in list && second(e) ==> first(e)
    ensures Filter(Filter(list, first), second) == Filter(list, second)
    decreases |list|
  {
    if list != [] {
      var n := |list| - 1;
      FilterTwice(list[..n], first, second);
      var kept := Filter(list[..n], first);
      assert (kept + [list[n]])[..|kept|] == kept;
      assert kept + [] == kept;
    }
  }

  /** Kept and dropped entries together are the list. */
  lemma {:induction false} FilterConserves<T>(list: seq<Entry<T>>, keep: Entry<T> -> bool, drop: Entry<T> -> bool)
    requires forall e :: e in list ==> keep(e) != drop(e)
    ensures multiset(list) == multiset(Filter(list, keep)) + multiset(Filter(list, drop))
    decreases |list|
  {
    if list != [] {
      var n := |list| - 1;
      FilterConserves(list[..n], keep, drop);
      assert list == list[..n] + [list[n]];
    }
  }

  /** What a reader sees survives as long as the seen entry itself is kept. */
  lemma {:induction false} FilterKeepsSeen<T>(list: seq<Entry<T>>, keep: Entry<T> -> bool, roots: Roots, view: View)
    requires Seen(list, roots, view).Some? ==> keep(Seen(list, roots, view).value)
    ensures Seen(Filter(list, keep), roots, view) == Seen(list, roots, view)
    decreases |list|
  {
    if list != [] {
      var n := |list| - 1;
      var front := list[..n];
      var kept := Filter(front, keep);
      if keep(list[n]) {
        assert (kept + [list[n]])[..|kept|] == kept;
      } else {
        assert kept + [] == kept;
      }
      if Seen(list, roots, view) == Seen(front, roots, view) {
        FilterKeepsSeen(front, keep, roots, view);
      }
      SeenIsBest(front, roots, view);
      SeenIsBest(kept, roots, view);
      if Seen(kept, roots, view).Some? {
        FilterHas(front, keep, Seen(kept, roots, view).value);
      }
    }
  }

  /** The newest alive root of the list up to `max`, or 0 (`get_newest_root_in_slot_list`). */
  function NewestRoot<T>(list: seq<Entry<T>>, roots: Roots, max: Option<Slot>): Slot {
    if list == [] then 0
    else
      var n := |list| - 1;
      var before := NewestRoot(list[..n], roots, max);
      if IsRootUpTo(roots, max, list[n].slot) && list[n].slot > before then list[n].slot else before
  }

  lemma {:induction false} NewestRootIsMax<T>(list: seq<Entry<T>>, roots: Roots, max: Option<Slot>)
    ensures forall e :: e in list && IsRootUpTo(roots, max, e.slot) ==> e.slot <= NewestRoot(list, roots, max)
    ensures NewestRoot(list, roots, max) == 0 ||
            exists e :: e in list && IsRootUpTo(roots, max, e.slot) && e.slot == NewestRoot(list, roots, max)
    decreases |list|
  {
    if list != [] {
      var n := |list| - 1;
      NewestRootIsMax(list[..n], roots, max);
      assert list == list[..n] + [list[n]];
      assert list[n] in list;
    }
  }

  /** `newest` is the newest alive root of the list within `max`, or 0 if it has none. */
  ghost predicate IsNewest<T>(list: seq<Entry<T>>, roots: Roots, max: Option<Slot>, newest: Slot) {
    && (forall e :: e in list && e.slot in roots.alive && (max.None? || e.slot <= max.value) ==> e.slot <= newest)
    && (newest == 0 || exists e :: e in list && e.slot == newest && newest in roots.alive
                                   && (max.None? || newest <= max.value))
  }

  lemma {:induction false} NewestIs<T>(list: seq<Entry<T>>, roots: Roots, max: Option<Slot>, newest: Slot)
    requires IsNewest(list, roots, max, newest)
    ensures NewestRoot(list, roots, max) == newest
  {
    NewestRootIsMax(list, roots, max);
  }

  predicate CanPurgeOlderEntries(maxCleanRootExclusive: Slot, newestRoot: Slot, slot: Slot) {
    slot < maxCleanRootExclusive && slot != newestRoot
  }

  /** The entries one clean purges. */
  predicate Purges<T>(bound: Slot, newest: Slot, e: Entry<T>) {
    CanPurgeOlderEntries(bound, newest, e.slot) && !e.cached
  }

  function CleanBound(roots: Roots, max: Option<Slot>): Slot {
    if max.Some? then max.value else roots.maxInclusive
  }

  function Keeps<T>(list: seq<Entry<T>>, roots: Roots, max: Option<Slot>): Entry<T> -> bool {
    var bound, newest := CleanBound(roots, max), NewestRoot(list, roots, max);
    e => !Purges(bound, newest, e)
  }

  function Drops<T>(list: seq<Entry<T>>, roots: Roots, max: Option<Slot>): Entry<T> -> bool {
    var bound, newest := CleanBound(roots, max), NewestRoot(list, roots, max);
    e => Purges(bound, newest, e)
  }

  /** What a clean leaves of a list, and what it reclaims. */
  function Cleaned<T>(list: seq<Entry<T>>, roots: Roots, max: Option<Slot>): seq<Entry<T>> {
    Filter(list, Keeps(list, roots, max))
  }

  function Reclaimed<T>(list: seq<Entry<T>>, roots: Roots, max: Option<Slot>): seq<Entry<T>> {
    Filter(list, Drops(list, roots, max))
  }

  lemma {:induction false} FilterCount<T>(list: seq<Entry<T>>, keep: Entry<T> -> bool, e: Entry<T>)
    ensures multiset(Filter(list, keep))[e] == if keep(e) then multiset(list)[e] else 0
    decreases |list|
  {
    if list != [] {
      var n := |list| - 1;
      FilterCount(list[..n], keep, e);
      assert list == list[..n] + [list[n]];
    }
  }

  /** Exactly the entries that are not cached, lie below the bound and are not the newest root are
      reclaimed, all copies of them; the others are kept. */
  lemma {:induction false} CleanedExactly<T>(list: seq<Entry<T>>, roots: Roots, max: Option<Slot>, newest: Slot,
                                             e: Entry<T>)
    requires IsNewest(list, roots, max, newest)
    ensures var bound := if max.Some? then max.value else roots.maxInclusive;
      if !e.cached && e.slot < bound && e.slot != newest
      then multiset(Cleaned(list, roots, max))[e] == 0 && multiset(Reclaimed(list, roots, max))[e] == multiset(list)[e]
      else multiset(Cleaned(list, roots, max))[e] == multiset(list)[e] && multiset(Reclaimed(list, roots, max))[e] == 0
  {
    NewestIs(list, roots, max, newest);
    FilterCount(list, Keeps(list, roots, max), e);
    FilterCount(list, Drops(list, roots, max), e);
  }

  /** A clean neither loses nor invents entries. */
  lemma {:induction false} CleanConserves<T>(list: seq<Entry<T>>, roots: Roots, max: Option<Slot>)
    ensures multiset(list) == multiset(Cleaned(list, roots, max)) + multiset(Reclaimed(list, roots, max))
  {
    FilterConserves(list, Keeps(list, roots, max), Drops(list, roots, max));
  }

  /** Every ancestor below `bound` that has an entry is an alive root. */
  ghost predicate RootedBelow<T>(list: seq<Entry<T>>, roots: Roots, view: View, bound: Slot) {
    forall e :: e in list && IsAncestor(view, e.slot) && e.slot < bound ==> e.slot in roots.alive
  }

  /** A clean at a root no higher than the reader's maximum does not change what the reader
      sees, provided the reader's older ancestors are rooted. */
  lemma {:induction false} CleanKeepsSeen<T>(list: seq<Entry<T>>, roots: Roots, max: Option<Slot>, view: View)
    requires roots.Valid()
    requires view.maxRoot.Some? ==> CleanBound(roots, max) <= view.maxRoot.value
    requires RootedBelow(list, roots, view, CleanBound(roots, max))
    ensures Seen(Cleaned(list, roots, max), roots, view) == Seen(list, roots, view)
  {
    NewestRootIsMax(list, roots, max);
    SeenIsBest(list, roots, view);
    FilterKeepsSeen(list, Keeps(list, roots, max), roots, view);
  }

  /** A clean up to `bound` may purge version `v` from under a reader of roots up to `m`: the reader can
      see it, and either it is an ancestor that is no root, or a newer root within the bound, which the
      reader cannot see, makes it look outdated. */
  ghost predicate AtRisk(roots: Roots, view: View, m: Slot, bound: Slot, v: Slot) {
    && Visible(roots, view, v) && v < bound && (v in roots.alive || v >= m)
    && ((v !in roots.alive && v != 0) || Outdated(roots, view, bound, v))
  }

  ghost predicate Outdated(roots: Roots, view: View, bound: Slot, v: Slot) {
    exists r :: r in roots.alive && v < r <= bound && !Visible(roots, view, r)
  }

  ghost predicate NoRisk(roots: Roots, view: View, m: Slot, bound: Slot) {
    forall v: Slot :: !AtRisk(roots, view, m, bound, v)
  }

  /** A purged version that a reader saw was at risk. */
  lemma {:induction false} PurgedWasAtRisk<T>(list: seq<Entry<T>>, roots: Roots, max: Option<Slot>, view: View, m: Slot)
    requires roots.Valid() && view.maxRoot == Some(m) && RootedBelow(list, roots, view, m)
    requires Seen(list, roots, view).Some? && Drops(list, roots, max)(Seen(list, roots, view).value)
    ensures AtRisk(roots, view, m, CleanBound(roots, max), Seen(list, roots, view).value.slot)
  {
    var v, newest := Seen(list, roots, view).value.slot, NewestRoot(list, roots, max);
    SeenIsBest(list, roots, view);
    NewestRootIsMax(list, roots, max);
    if v in roots.alive || v == 0 {
      assert newest > v;
      var e :| e in list && IsRootUpTo(roots, max, e.slot) && e.slot == newest;
      assert newest in roots.alive && v < newest <= CleanBound(roots, max);
    }
  }

  lemma {:induction false} NoRiskKeepsSeen<T>(list: seq<Entry<T>>, roots: Roots, max: Option<Slot>, view: View, m: Slot)
    requires roots.Valid() && view.maxRoot == Some(m) && RootedBelow(list, roots, view, m)
    requires NoRisk(roots, view, m, CleanBound(roots, max))
    ensures Seen(Cleaned(list, roots, max), roots, view) == Seen(list, roots, view)
  {
    var seen := Seen(list, roots, view);
    if seen.Some? && Drops(list, roots, max)(seen.value) {
      PurgedWasAtRisk(list, roots, max, view, m);
    }
    FilterKeepsSeen(list, Keeps(list, roots, max), roots, view);
  }

  ghost predicate CleanKeeps<T>(list: seq<Entry<T>>, roots: Roots, max: Option<Slot>, view: View) {
    Seen(Cleaned(list, roots, max), roots, view) == Seen(list, roots, view)
  }

  /** A clean that purges the seen entry changes what is seen. */
  lemma {:induction false} PurgedIsMissed<T>(list: seq<Entry<T>>, roots: Roots, max: Option<Slot>, view: View)
    requires Seen(list, roots, view).Some? && Drops(list, roots, max)(Seen(list, roots, view).value)
    ensures !CleanKeeps(list, roots, max, view)
  {
    FilterHas(list, Keeps(list, roots, max), Seen(list, roots, view).value);
    SeenIsBest(Cleaned(list, roots, max), roots, view);
  }

  /** A list that shows the risk of an unrooted version: just that version. */
  lemma {:induction false} UnrootedIsPurged<T>(roots: Roots, max: Option<Slot>, view: View, v: Slot, value: T)
    requires Visible(roots, view, v) && v < CleanBound(roots, max) && v !in roots.alive && v != 0
    ensures !CleanKeeps([Entry(v, value, false)], roots, max, view)
  {
    var list := [Entry(v, value, false)];
    assert list[0] in list;
    SeenIsBest(list, roots, view);
    NewestRootIsMax(list, roots, max);
    PurgedIsMissed(list, roots, max, view);
  }

  /** A list that shows the risk of an outdated version: that version, and one under the newer root. */
  lemma {:induction false} OutdatedIsPurged<T>(roots: Roots, max: Option<Slot>, view: View, v: Slot, r: Slot, value: T)
    requires Visible(roots, view, v) && r in roots.alive && v < r <= CleanBound(roots, max) && !Visible(roots, view, r)
    ensures !CleanKeeps([Entry(v, value, false), Entry(r, value, false)], roots, max, view)
  {
    var list := [Entry(v, value, false), Entry(r, value, false)];
    assert list[0] in list && list[1] in list;
    SeenIsBest(list, roots, view);
    NewestRootIsMax(list, roots, max);
    PurgedIsMissed(list, roots, max, view);
  }

  /** A clean is safe for a reader, whatever its fork, exactly when no version is at risk: then it
      keeps what the reader sees in every list whose older ancestors are rooted. */
  lemma {:induction false} CleanIsSafeExactly<T>(roots: Roots, max: Option<Slot>, view: View, m: Slot, value: T)
    requires roots.Valid() && view.maxRoot == Some(m)
    ensures (forall list: seq<Entry<T>> :: RootedBelow(list, roots, view, m) ==> CleanKeeps(list, roots, max, view))
       <==> NoRisk(roots, view, m, CleanBound(roots, max))
  {
    var bound := CleanBound(roots, max);
    if NoRisk(roots, view, m, bound) {
      forall list: seq<Entry<T>> | RootedBelow(list, roots, view, m) ensures CleanKeeps(list, roots, max, view) {
        NoRiskKeepsSeen(list, roots, max, view, m);
      }
    } else {
      var list := RiskShows(roots, max, view, m, value);
      assert RootedBelow(list, roots, view, m) && !CleanKeeps(list, roots, max, view);
    }
  }

  lemma {:induction false} RiskShows<T>(roots: Roots, max: Option<Slot>, view: View, m: Slot, value: T)
    returns (list: seq<Entry<T>>)
    requires roots.Valid() && view.maxRoot == Some(m) && !NoRisk(roots, view, m, CleanBound(roots, max))
    ensures RootedBelow(list, roots, view, m) && !CleanKeeps(list, roots, max, view)
  {
    var v: Slot :| AtRisk(roots, view, m, CleanBound(roots, max), v);
    if v !in roots.alive && v != 0 {
      UnrootedIsPurged(roots, max, view, v, value);
      list := [Entry(v, value, false)];
    } else {
      var r :| r in roots.alive && v < r <= CleanBound(roots, max) && !Visible(roots, view, r);
      OutdatedIsPurged(roots, max, view, v, r, value);
      list := [Entry(v, value, false), Entry(r, value, false)];
    }
  }

  /** A clean up to the reader's own maximum puts nothing at risk. */
  lemma {:induction false} BoundedIsSafe(roots: Roots, view: View, m: Slot, bound: Slot)
    requires view.maxRoot == Some(m) && bound <= m
    ensures NoRisk(roots, view, m, bound)
  {
  }

  /** What an earlier clean purges, a later clean would purge too. */
  lemma {:induction false} LaterCleanPurgesMore<T>(list: seq<Entry<T>>, roots: Roots, first: Slot, second: Slot,
                                                   e: Entry<T>)
    requires first <= second && e in list && Drops(list, roots, Some(first))(e)
    ensures Drops(list, roots, Some(second))(e)
  {
    NewestRootIsMax(list, roots, Some(first));
    NewestRootIsMax(list, roots, Some(second));
  }

  /** An earlier clean does not remove the newest root a later clean looks for. */
  lemma {:induction false} NewestRootSurvives<T>(list: seq<Entry<T>>, roots: Roots, first: Slot, second: Slot)
    requires first <= second
    ensures NewestRoot(Cleaned(list, roots, Some(first)), roots, Some(second)) == NewestRoot(list, roots, Some(second))
  {
    var once := Cleaned(list, roots, Some(first));
    var newest := NewestRoot(list, roots, Some(second));
    NewestRootIsMax(list, roots, Some(second));
    NewestRootIsMax(once, roots, Some(second));
    forall e | e in once ensures e in list {
      FilterHas(list, Keeps(list, roots, Some(first)), e);
    }
    if newest != 0 {
      var e :| e in list && IsRootUpTo(roots, Some(second), e.slot) && e.slot == newest;
      NewestRootIsMax(list, roots, Some(first));
      FilterHas(list, Keeps(list, roots, Some(first)), e);
      assert e in once;
    }
  }

  /** Cleaning at an earlier root first changes nothing: in particular cleaning is idempotent. */
  lemma {:induction false} CleanAfterClean<T>(list: seq<Entry<T>>, roots: Roots, first: Slot, second: Slot)
    requires first <= second
    ensures Cleaned(Cleaned(list, roots, Some(first)), roots, Some(second)) == Cleaned(list, roots, Some(second))
  {
    NewestRootSurvives(list, roots, first, second);
    forall e | e in list && Keeps(list, roots, Some(second))(e) ensures Keeps(list, roots, Some(first))(e) {
      if Drops(list, roots, Some(first))(e) {
        LaterCleanPurgesMore(list, roots, first, second, e);
      }
    }
    FilterTwice(list, Keeps(list, roots, Some(first)), Keeps(list, roots, Some(second)));
  }

  lemma {:induction false} ReclaimsByFields<T>(list: seq<Entry<T>>, roots: Roots, max: Option<Slot>)
    ensures var kept, reclaims := Cleaned(list, roots, max), Reclaimed(list, roots, max);
      && multiset(list) == multiset(kept) + multiset(reclaims)
      && (forall e :: e in reclaims ==> !e.cached)
      && (forall e :: e in kept ==> e !in reclaims)
      && (forall e, newest :: e in list && IsNewest(list, roots, max, newest) ==>
            (e in reclaims <==>
             !e.cached && e.slot < (if max.Some? then max.value else roots.maxInclusive) && e.slot != newest))
  {
    var kept, reclaims := Cleaned(list, roots, max), Reclaimed(list, roots, max);
    CleanConserves(list, roots, max);
    forall e | e in reclaims ensures !e.cached && e !in kept {
      FilterHas(list, Drops(list, roots, max), e);
      FilterHas(list, Keeps(list, roots, max), e);
    }
    forall e, newest | e in list && IsNewest(list, roots, max, newest)
      ensures e in reclaims <==>
        !e.cached && e.slot < (if max.Some? then max.value else roots.maxInclusive) && e.slot != newest
    {
      NewestIs(list, roots, max, newest);
      FilterHas(list, Drops(list, roots, max), e);
    }
  }

  /** `purge_older_root_entries` */
  method PurgeOlderRootEntries<T>(list: seq<Entry<T>>, roots: Roots, max: Option<Slot>)
    returns (kept: seq<Entry<T>>, reclaims: seq<Entry<T>>)
    ensures kept == Cleaned(list, roots, max) && reclaims == Reclaimed(list, roots, max)
    ensures multiset(list) == multiset(kept) + multiset(reclaims)
    ensures forall e :: e in reclaims ==> !e.cached
    ensures forall e, newest :: e in list && IsNewest(list, roots, max, newest) ==>
      (e in reclaims <==>
       !e.cached && e.slot < (if max.Some? then max.value else roots.maxInclusive) && e.slot != newest)
    ensures forall e :: e in kept ==> e !in reclaims
  {
    ReclaimsByFields(list, roots, max);
    var newest := NewestRoot(list, roots, max);
    var bound := CleanBound(roots, max);
    kept, reclaims := [], [];
    for i := 0 to |list|
      invariant kept == Filter(list[..i], Keeps(list, roots, max))
      invariant reclaims == Filter(list[..i], Drops(list, roots, max))
    {
      assert list[..i + 1][..i] == list[..i];
      if CanPurgeOlderEntries(bound, newest, list[i].slot) && !list[i].cached {
        reclaims := reclaims + [list[i]];
      } else {
        kept := kept + [list[i]];
      }
    }
    assert list[..|list|] == list;
  }

  /** `purge_exact`: drop every entry of the given slots. */
  function Outside<T>(slots: set<Slot>): Entry<T> -> bool {
    (e: Entry<T>) => e.slot !in slots
  }

  function Inside<T>(slots: set<Slot>): Entry<T> -> bool {
    (e: Entry<T>) => e.slot in slots
  }

  method PurgeExact<T>(list: seq<Entry<T>>, slots: set<Slot>) returns (kept: seq<Entry<T>>, reclaims: seq<Entry<T>>)
    ensures kept == Filter(list, Outside(slots)) && reclaims == Filter(list, Inside(slots))
    ensures multiset(list) == multiset(kept) + multiset(reclaims)
    ensures (forall e :: e in kept ==> e.slot !in slots) && (forall e :: e in reclaims ==> e.slot in slots)
  {
    kept, reclaims := [], [];
    for i := 0 to |list|
      invariant kept == Filter(list[..i], Outside(slots)) && reclaims == Filter(list[..i], Inside(slots))
    {
      assert list[..i + 1][..i] == list[..i];
      if list[i].slot in slots {
        reclaims := reclaims + [list[i]];
      } else {
        kept := kept + [list[i]];
      }
    }
    assert list[..|list|] == list;
    FilterConserves(list, Outside(slots), Inside(slots));
    forall e | e in kept ensures e.slot !in slots {
      FilterHas(list, Outside(slots), e);
    }
    forall e | e in reclaims ensures e.slot in slots {
      FilterHas(list, Inside(slots), e);
    }
  }
}
