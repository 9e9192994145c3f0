/** Every step of the environment of scans - root additions, cleans, flushes, relocations, purges and
    stores - keeps what every registered scan sees. */
module ScanEnvironment {
  import opened Wrappers
  import opened SlotLists
  import opened ScanProtocol

  lemma {:induction false} AddRootKeepsScan<T>(s: Index<T>, slot: Slot, sc: Scan<T>)
    requires s.roots.Valid() && ScanOk(s, sc) && slot >= s.roots.maxInclusive
    ensures ScanOk(s.(roots := Roots(s.roots.alive + {slot}, slot), rooted := s.rooted + {slot}), sc)
  {
    var s' := s.(roots := Roots(s.roots.alive + {slot}, slot), rooted := s.rooted + {slot});
    if sc.phase == Running {
      forall k ensures Shown(ListOf(s'.lists, k), s'.roots, sc.view) == Shown(ListOf(s.lists, k), s.roots, sc.view) {
        SameVisibilitySameSeen(ListOf(s.lists, k), s.roots, s'.roots, sc.view);
      }
      forall k ensures RootedBelow(ListOf(s'.lists, k), s'.roots, sc.view, sc.maxRoot) {
        assert RootedBelow(ListOf(s.lists, k), s.roots, sc.view, sc.maxRoot);
      }
    }
  }

  lemma {:induction false} CleanDeadSlotKeepsScan<T>(s: Index<T>, slot: Slot, sc: Scan<T>)
    requires ScanOk(s, sc) && NoEntryAt(s, slot)
    ensures ScanOk(s.(roots := s.roots.(alive := s.roots.alive - {slot})), sc)
  {
    var s' := s.(roots := s.roots.(alive := s.roots.alive - {slot}));
    if sc.phase == Running {
      forall k ensures Shown(ListOf(s'.lists, k), s'.roots, sc.view) == Shown(ListOf(s.lists, k), s.roots, sc.view) {
        SameVisibilitySameSeen(ListOf(s.lists, k), s.roots, s'.roots, sc.view);
      }
      forall k ensures RootedBelow(ListOf(s'.lists, k), s'.roots, sc.view, sc.maxRoot) {
        assert RootedBelow(ListOf(s.lists, k), s.roots, sc.view, sc.maxRoot);
      }
    }
  }

  ghost predicate HasSlot<T>(list: seq<Entry<T>>, slot: Slot) {
    exists e :: e in list && e.slot == slot
  }

  /** Replacing one list by one with no other slots, in a way that keeps the version the scan sees
      under that key. */
  lemma {:induction false} SublistKeepsScan<T>(s: Index<T>, key: Key, list: seq<Entry<Located<T>>>, sc: Scan<T>)
    requires ScanOk(s, sc)
    requires forall e :: e in list ==> HasSlot(ListOf(s.lists, key), e.slot)
    requires sc.phase == Running && sc.bank !in s.removed ==>
               Shown(list, s.roots, sc.view) == Shown(ListOf(s.lists, key), s.roots, sc.view)
    ensures ScanOk(s.(lists := WithList(s.lists, key, list)), sc)
  {
    var s' := s.(lists := WithList(s.lists, key, list));
    if sc.phase == Running {
      forall k ensures RootedBelow(ListOf(s'.lists, k), s.roots, sc.view, sc.maxRoot) {
        assert RootedBelow(ListOf(s.lists, k), s.roots, sc.view, sc.maxRoot);
      }
      if NoEntryAt(s, sc.maxRoot) {
        forall k, e | e in ListOf(s'.lists, k) ensures e.slot != sc.maxRoot {
          assert k != key ==> e in ListOf(s.lists, k);
        }
      }
    }
  }

  lemma {:induction false} FilteredKeepsScan<T>(s: Index<T>, key: Key, keep: Entry<Located<T>> -> bool, sc: Scan<T>)
    requires ScanOk(s, sc)
    requires sc.phase == Running && sc.bank !in s.removed ==>
               Shown(Filter(ListOf(s.lists, key), keep), s.roots, sc.view)
               == Shown(ListOf(s.lists, key), s.roots, sc.view)
    ensures ScanOk(s.(lists := WithList(s.lists, key, Filter(ListOf(s.lists, key), keep))), sc)
  {
    var list := ListOf(s.lists, key);
    forall e | e in Filter(list, keep) ensures HasSlot(list, e.slot) {
      FilterHas(list, keep, e);
    }
    SublistKeepsScan(s, key, Filter(list, keep), sc);
  }

  lemma {:induction false} CleanKeepsScan<T>(s: Index<T>, key: Key, max: Option<Slot>, sc: Scan<T>)
    requires s.roots.Valid() && ScanOk(s, sc)
    requires sc.phase == Running ==> NoRisk(s.roots, sc.view, sc.maxRoot, CleanBound(s.roots, max))
    ensures ScanOk(s.(lists := WithList(s.lists, key, Cleaned(ListOf(s.lists, key), s.roots, max))), sc)
  {
    var list := ListOf(s.lists, key);
    if sc.phase == Running {
      assert RootedBelow(list, s.roots, sc.view, sc.maxRoot);
      NoRiskKeepsSeen(list, s.roots, max, sc.view, sc.maxRoot);
    }
    FilteredKeepsScan(s, key, Keeps(list, s.roots, max), sc);
  }

  /** The version a flush leaves out is hidden from the scan by the later root. */
  lemma {:induction false} FlushKeepsScan<T>(s: Index<T>, key: Key, slot: Slot, later: Entry<Located<T>>, bound: Slot,
                                             sc: Scan<T>)
    requires ScanOk(s, sc) && later in ListOf(s.lists, key)
    requires slot < later.slot <= bound && slot in s.roots.alive && later.slot in s.roots.alive
    requires sc.phase == Running ==> NoRisk(s.roots, sc.view, sc.maxRoot, bound)
    ensures ScanOk(s.(lists := WithList(s.lists, key, Filter(ListOf(s.lists, key), Outside({slot})))), sc)
  {
    var list := ListOf(s.lists, key);
    if sc.phase == Running {
      assert !AtRisk(s.roots, sc.view, sc.maxRoot, bound, slot);
      SeenIsBest(list, s.roots, sc.view);
      FilterKeepsSeen(list, Outside({slot}), s.roots, sc.view);
    }
    FilteredKeepsScan(s, key, Outside({slot}), sc);
  }

  /** Among the slots of an emptied account, a reader that is not at risk sees none but the newest. */
  lemma {:induction false} SeesNewest<T>(list: seq<Entry<Located<T>>>, roots: Roots, max: Option<Slot>,
                                         slots: set<Slot>, view: View, m: Slot)
    requires roots.Valid() && Emptied(list, roots, max, slots) && NoRisk(roots, view, m, CleanBound(roots, max))
    requires Seen(list, roots, view).Some? && Seen(list, roots, view).value.slot in slots
    ensures Seen(list, roots, view).value.slot == NewestRoot(list, roots, max)
  {
    var v, newest := Seen(list, roots, view).value.slot, NewestRoot(list, roots, max);
    SeenIsBest(list, roots, view);
    NewestRootIsMax(list, roots, max);
    assert !AtRisk(roots, view, m, CleanBound(roots, max), v);
    assert v <= newest;
  }

  /** An older visible version is one of those slots as well. */
  lemma {:induction false} OlderIsPurged<T>(list: seq<Entry<Located<T>>>, roots: Roots, max: Option<Slot>,
                                            slots: set<Slot>, view: View, m: Slot, newest: Slot, e: Entry<Located<T>>)
    requires roots.Valid() && Emptied(list, roots, max, slots) && NoRisk(roots, view, m, CleanBound(roots, max))
    requires RootedBelow(list, roots, view, m) && (m in roots.alive || forall d :: d in list ==> d.slot != m)
    requires IsRootUpTo(roots, max, newest) && e in list && Visible(roots, view, e.slot) && e.slot <= newest
    ensures e.slot in slots
  {
    assert !AtRisk(roots, view, m, CleanBound(roots, max), e.slot);
    assert e.slot in roots.alive || (m <= e.slot < CleanBound(roots, max) && e.slot != 0) || e.slot == m;
  }

  lemma {:induction false} PurgeEmptiedShows<T>(list: seq<Entry<Located<T>>>, roots: Roots, max: Option<Slot>,
                                                slots: set<Slot>, view: View, m: Slot)
    requires roots.Valid() && Emptied(list, roots, max, slots) && NoRisk(roots, view, m, CleanBound(roots, max))
    requires RootedBelow(list, roots, view, m) && (m in roots.alive || forall d :: d in list ==> d.slot != m)
    ensures Shown(Filter(list, Outside(slots)), roots, view) == Shown(list, roots, view)
  {
    var seen, rest := Seen(list, roots, view), Filter(list, Outside(slots));
    SeenIsBest(list, roots, view);
    if seen.None? || seen.value.slot !in slots {
      FilterKeepsSeen(list, Outside(slots), roots, view);
    } else {
      SeesNewest(list, roots, max, slots, view, m);
      SeenIsBest(rest, roots, view);
      forall e | e in rest ensures !Visible(roots, view, e.slot) {
        FilterHas(list, Outside(slots), e);
        if Visible(roots, view, e.slot) {
          OlderIsPurged(list, roots, max, slots, view, m, seen.value.slot, e);
        }
      }
    }
  }

  lemma {:induction false} PurgeEmptiedKeepsScan<T>(s: Index<T>, key: Key, max: Option<Slot>, slots: set<Slot>,
                                                    sc: Scan<T>)
    requires s.roots.Valid() && ScanOk(s, sc) && Emptied(ListOf(s.lists, key), s.roots, max, slots)
    requires sc.phase == Running ==> NoRisk(s.roots, sc.view, sc.maxRoot, CleanBound(s.roots, max))
    ensures ScanOk(s.(lists := WithList(s.lists, key, Filter(ListOf(s.lists, key), Outside(slots)))), sc)
  {
    if sc.phase == Running {
      assert RootedBelow(ListOf(s.lists, key), s.roots, sc.view, sc.maxRoot);
      PurgeEmptiedShows(ListOf(s.lists, key), s.roots, max, slots, sc.view, sc.maxRoot);
    }
    FilteredKeepsScan(s, key, Outside(slots), sc);
  }

  lemma {:induction false} PurgeKeepsScan<T>(s: Index<T>, key: Key, slots: set<Slot>, sc: Scan<T>)
    requires ScanOk(s, sc) && slots !! s.roots.alive
    requires forall slot :: slot in slots && Reads(sc, slot) ==> sc.bank in s.removed
    ensures ScanOk(s.(lists := WithList(s.lists, key, Filter(ListOf(s.lists, key), Outside(slots)))), sc)
  {
    var list := ListOf(s.lists, key);
    if sc.phase == Running && sc.bank !in s.removed {
      SeenIsBest(list, s.roots, sc.view);
      FilterKeepsSeen(list, Outside(slots), s.roots, sc.view);
    }
    FilteredKeepsScan(s, key, Outside(slots), sc);
  }

  ghost predicate SameVersions<T>(a: seq<Entry<Located<T>>>, b: seq<Entry<Located<T>>>) {
    && |a| == |b|
    && forall i :: 0 <= i < |a| ==> a[i].slot == b[i].slot && a[i].value.account == b[i].value.account
  }

  lemma {:induction false} PlaceIsNotSeen<T>(a: seq<Entry<Located<T>>>, b: seq<Entry<Located<T>>>, roots: Roots,
                                             view: View)
    requires SameVersions(a, b)
    ensures var x, y := Seen(a, roots, view), Seen(b, roots, view);
      && x.Some? == y.Some?
      && (x.Some? ==> x.value.slot == y.value.slot && x.value.value.account == y.value.value.account)
    decreases |a|
  {
    if a != [] {
      PlaceIsNotSeen(a[..|a| - 1], b[..|b| - 1], roots, view);
    }
  }

  /** Readers do not notice where accounts are kept. */
  lemma {:induction false} PlaceDoesNotShow<T>(a: seq<Entry<Located<T>>>, b: seq<Entry<Located<T>>>, roots: Roots,
                                               view: View)
    requires SameVersions(a, b)
    ensures Shown(a, roots, view) == Shown(b, roots, view)
  {
    PlaceIsNotSeen(a, b, roots, view);
  }

  lemma {:induction false} RelocateKeepsScan<T>(s: Index<T>, key: Key, i: nat, place: nat, cached: bool, sc: Scan<T>)
    requires ScanOk(s, sc) && i < |ListOf(s.lists, key)|
    ensures ScanOk(s.(lists := WithList(s.lists, key, Moved(ListOf(s.lists, key), i, place, cached))), sc)
  {
    var list := ListOf(s.lists, key);
    var moved := Moved(list, i, place, cached);
    PlaceDoesNotShow(moved, list, s.roots, sc.view);
    forall e | e in moved ensures HasSlot(list, e.slot) {
      var j :| 0 <= j < |moved| && moved[j] == e;
      assert list[j] in list;
    }
    SublistKeepsScan(s, key, moved, sc);
  }

  /** Entries of an unrooted slot outside the fork do not show. */
  lemma {:induction false} HiddenSlot<T>(list: seq<Entry<T>>, roots: Roots, view: View, slot: Slot)
    requires !Visible(roots, view, slot)
    ensures Seen(Filter(list, Outside({slot})), roots, view) == Seen(list, roots, view)
  {
    SeenIsBest(list, roots, view);
    FilterKeepsSeen(list, Outside({slot}), roots, view);
  }

  lemma {:induction false} StoreKeepsScan<T>(s: Index<T>, key: Key, slot: Slot, list: seq<Entry<Located<T>>>,
                                             sc: Scan<T>)
    requires s.roots.Valid() && ScanOk(s, sc) && slot > s.roots.maxInclusive && !Reads(sc, slot)
    requires Filter(list, Outside({slot})) == Filter(ListOf(s.lists, key), Outside({slot}))
    ensures ScanOk(s.(lists := WithList(s.lists, key, list)), sc)
  {
    var s' := s.(lists := WithList(s.lists, key, list));
    var before := ListOf(s.lists, key);
    if sc.phase == Running {
      HiddenSlot(list, s.roots, sc.view, slot);
      HiddenSlot(before, s.roots, sc.view, slot);
      forall e | e in list && e.slot != slot ensures e in before {
        FilterHas(list, Outside({slot}), e);
        FilterHas(before, Outside({slot}), e);
      }
      forall k ensures RootedBelow(ListOf(s'.lists, k), s.roots, sc.view, sc.maxRoot) {
        assert RootedBelow(ListOf(s.lists, k), s.roots, sc.view, sc.maxRoot);
      }
      if NoEntryAt(s, sc.maxRoot) {
        forall k, e | e in ListOf(s'.lists, k) ensures e.slot != sc.maxRoot {
          assert e.slot == slot || e in ListOf(s.lists, k);
        }
      }
    }
  }

  /** The steps of everything but scans and banks. */
  ghost predicate IsEnvironment<T>(step: Step<T>) {
    IsCleaning(step) || step.AddRoot? || step.CleanDeadSlot? || step.Relocate? || step.PurgeSlots? || step.Store?
  }

  /** No step but a store brings a slot into a list. */
  lemma {:induction false} SlotsStay<T>(s: Index<T>, step: Step<T>, k: Key, e: Entry<Located<T>>)
    requires Enabled(s, step) && IsEnvironment(step) && e in ListOf(Apply(s, step).lists, k)
    ensures HasSlot(ListOf(s.lists, k), e.slot) || (step.Store? && e.slot == step.slot)
  {
    var list := ListOf(s.lists, k);
    if e in list {
      assert HasSlot(list, e.slot);
    } else {
      match step
      case CleanKey(c, key) => FilterHas(list, Keeps(list, s.roots, s.cleans[c]), e);
      case FlushOutdated(c, key, slot) => FilterHas(list, Outside({slot}), e);
      case PurgeEmptied(c, key, slots) => FilterHas(list, Outside(slots), e);
      case PurgeSlots(key, slots) => FilterHas(list, Outside(slots), e);
      case Store(key, slot, after) =>
        FilterHas(after, Outside({slot}), e);
        FilterHas(list, Outside({slot}), e);
      case Relocate(key, i, place, cached) =>
        var j :| 0 <= j < |list| && Moved(list, i, place, cached)[j] == e;
        assert list[j] in list && list[j].slot == e.slot;
      case _ =>
    }
  }

  /** What the steps that purge do: under their key exactly the entries of their slots go, and nothing
      changes under other keys. */
  lemma {:induction false} PurgesTakeEffect<T>(s: Index<T>, step: Step<T>, k: Key, e: Entry<Located<T>>)
    requires Enabled(s, step) && (step.FlushOutdated? || step.PurgeEmptied? || step.PurgeSlots?)
    ensures e in ListOf(Apply(s, step).lists, k) <==>
      && e in ListOf(s.lists, k)
      && (k == step.key ==> if step.FlushOutdated? then e.slot != step.slot else e.slot !in step.slots)
  {
    var list := ListOf(s.lists, k);
    FilterHas(list, Outside(if step.FlushOutdated? then {step.slot} else step.slots), e);
  }

  lemma {:induction false} EnvironmentHoldsRoots<T>(s: Index<T>, step: Step<T>)
    requires RootsHeld(s) && Enabled(s, step) && IsEnvironment(step)
    ensures RootsHeld(Apply(s, step))
  {
    var s' := Apply(s, step);
    forall r | r in s'.rooted && r !in s'.roots.alive ensures NoEntryAt(s', r) {
      assert NoEntryAt(s, r);
      forall k, e | e in ListOf(s'.lists, k) ensures e.slot != r {
        SlotsStay(s, step, k, e);
      }
    }
  }

  /** A bounded clean or flush is safe for every running scan; an unbounded one if it is careful. */
  lemma {:induction false} NoRunningScanAtRisk<T>(s: Index<T>, step: Step<T>, id: Id)
    requires Inv(s) && Enabled(s, step) && Careful(s, step) && IsCleaning(step)
    requires id in s.scans && s.scans[id].phase == Running
    ensures NoRisk(s.roots, s.scans[id].view, s.scans[id].maxRoot, CleanBound(s.roots, s.cleans[step.id]))
  {
    var sc := s.scans[id];
    assert ScanOk(s, sc);
    if s.cleans[step.id].Some? {
      BoundedIsSafe(s.roots, sc.view, sc.maxRoot, s.cleans[step.id].value);
    }
  }

  lemma {:induction false} CleaningKeepsScan<T>(s: Index<T>, step: Step<T>, id: Id)
    requires Inv(s) && Enabled(s, step) && Careful(s, step) && id in s.scans && IsCleaning(step)
    ensures ScanOk(Apply(s, step), s.scans[id])
  {
    var sc := s.scans[id];
    assert ScanOk(s, sc);
    if sc.phase == Running {
      NoRunningScanAtRisk(s, step, id);
    }
    if step.CleanKey? {
      CleanKeepsScan(s, step.key, s.cleans[step.id], sc);
    } else if step.PurgeEmptied? {
      PurgeEmptiedKeepsScan(s, step.key, s.cleans[step.id], step.slots, sc);
    } else {
      var later :| later in ListOf(s.lists, step.key) && Supersedes(s, step.id, step.slot, later.slot);
      FlushKeepsScan(s, step.key, step.slot, later, CleanBound(s.roots, s.cleans[step.id]), sc);
    }
  }

  lemma {:induction false} RootChangeKeepsScan<T>(s: Index<T>, step: Step<T>, id: Id)
    requires Inv(s) && Enabled(s, step) && id in s.scans && (step.AddRoot? || step.CleanDeadSlot?)
    ensures ScanOk(Apply(s, step), s.scans[id])
  {
    assert ScanOk(s, s.scans[id]);
    if step.AddRoot? {
      AddRootKeepsScan(s, step.slot, s.scans[id]);
    } else {
      CleanDeadSlotKeepsScan(s, step.slot, s.scans[id]);
    }
  }

  lemma {:induction false} ListChangeKeepsScan<T>(s: Index<T>, step: Step<T>, id: Id)
    requires Inv(s) && Enabled(s, step) && id in s.scans && (step.Relocate? || step.PurgeSlots? || step.Store?)
    ensures ScanOk(Apply(s, step), s.scans[id])
  {
    var sc := s.scans[id];
    assert ScanOk(s, sc);
    if step.Relocate? {
      RelocateKeepsScan(s, step.key, step.index, step.place, step.cached, sc);
    } else if step.PurgeSlots? {
      PurgeKeepsScan(s, step.key, step.slots, sc);
    } else {
      StoreKeepsScan(s, step.key, step.slot, step.list, sc);
    }
  }

  /** The environment's steps keep every scan. */
  lemma {:induction false} EnvironmentKeepsScan<T>(s: Index<T>, step: Step<T>, id: Id)
    requires Inv(s) && Enabled(s, step) && Careful(s, step) && id in s.scans && IsEnvironment(step)
    ensures ScanOk(Apply(s, step), s.scans[id])
  {
    if IsCleaning(step) {
      CleaningKeepsScan(s, step, id);
    } else if step.AddRoot? || step.CleanDeadSlot? {
      RootChangeKeepsScan(s, step, id);
    } else {
      ListChangeKeepsScan(s, step, id);
    }
  }

  /** What the environment's steps leave alone. */
  lemma {:induction false} EnvironmentFrame<T>(s: Index<T>, step: Step<T>)
    requires Enabled(s, step) && IsEnvironment(step) && s.roots.Valid()
    ensures var s' := Apply(s, step);
      && s'.scans == s.scans && s'.ongoing == s.ongoing && s'.cleans == s.cleans
      && s'.roots.Valid() && s.roots.maxInclusive <= s'.roots.maxInclusive
  {
  }

  lemma {:induction false} FrameKeepsCleans<T>(s: Index<T>, s': Index<T>)
    requires s'.scans == s.scans && s'.cleans == s.cleans && s.roots.maxInclusive <= s'.roots.maxInclusive
    requires CleansBounded(s)
    ensures CleansBounded(s')
  {
  }

  lemma {:induction false} EnvironmentKeepsInv<T>(s: Index<T>, step: Step<T>)
    requires Inv(s) && Enabled(s, step) && Careful(s, step) && IsEnvironment(step)
    ensures Inv(Apply(s, step))
  {
    var s' := Apply(s, step);
    EnvironmentFrame(s, step);
    EnvironmentHoldsRoots(s, step);
    FrameKeepsCleans(s, s');
    forall id | id in s'.scans ensures ScanOk(s', s'.scans[id]) {
      EnvironmentKeepsScan(s, step, id);
    }
  }

  /** Marking banks as removed, and forgetting dropped banks, keep the invariant. */
  lemma {:induction false} RemovalKeepsInv<T>(s: Index<T>, step: Step<T>)
    requires Inv(s) && Enabled(s, step) && (step.MarkRemoved? || step.DropBank?)
    ensures Inv(Apply(s, step))
  {
    var s' := Apply(s, step);
    forall id | id in s'.scans ensures ScanOk(s', s'.scans[id]) {
      assert ScanOk(s, s.scans[id]);
    }
  }

  /** A registered scan is counted, so the bound of a new clean does not pass it. */
  lemma {:induction false} ScanIsCounted<T>(s: Index<T>, id: Id)
    requires Inv(s) && id in s.scans && s.scans[id].phase == Running
    ensures s.scans[id].maxRoot in s.ongoing && s.scans[id].maxRoot <= s.roots.maxInclusive
  {
    assert ScanOk(s, s.scans[id]);
    assert id in RunningAt(s.scans, s.scans[id].maxRoot);
    assert Counts(s.ongoing, s.scans, s.scans[id].maxRoot);
  }

  lemma {:induction false} CountedRootIsBounded<T>(s: Index<T>, r: Slot)
    requires Inv(s) && r in s.ongoing
    ensures r <= s.roots.maxInclusive
  {
    assert Counts(s.ongoing, s.scans, r);
    var id :| id in RunningAt(s.scans, r);
    assert ScanOk(s, s.scans[id]);
  }

  lemma {:induction false} StartCleanKeepsInv<T>(s: Index<T>, step: Step<T>)
    requires Inv(s) && Enabled(s, step) && step.StartClean?
    ensures Inv(Apply(s, step))
  {
    var s' := Apply(s, step);
    forall id | id in s'.scans ensures ScanOk(s', s'.scans[id]) {
      assert ScanOk(s, s.scans[id]);
    }
    forall id | id in s.scans && s.scans[id].phase == Running
      ensures s'.cleans[step.id].Some? && s'.cleans[step.id].value <= s.scans[id].maxRoot
    {
      ScanIsCounted(s, id);
    }
    if step.minScanRoot.Some? {
      CountedRootIsBounded(s, step.minScanRoot.value);
    }
  }
}
