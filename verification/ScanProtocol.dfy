/** Scans of the accounts index running beside root additions, cleans, flushes, purges and stores.
    Every section the code runs under one lock is one step; the steps of different actors interleave
    in any order. A scan that returns Ok saw, for every key it read, the version that was visible
    when it registered. The one exception is a clean that started without any bound: it may reach
    past a scan that registers later. */
module ScanProtocol {
  import opened Wrappers
  import opened SlotLists

  type Key = nat
  type BankId = nat
  type Id = nat

  /** Checked: past the first removal check. Running: registered and reading. Finishing: no longer
      registered, before the last removal check. */
  datatype Phase = Checked | Running | Finishing | Done(ok: bool)

  /** What an entry points to: the account, `None` for one without lamports, which readers take for
      absent; and where it is kept at the moment. */
  datatype Located<T> = Located(account: Option<T>, place: nat)

  /** A scan with its fork, what it may see, what it has reported so far, and the index as it was
      when the scan registered. */
  datatype Scan<T> = Scan(
    bank: BankId, fork: set<Slot>, phase: Phase, maxRoot: Slot, view: View,
    reported: map<Key, Option<(Slot, T)>>,
    startLists: map<Key, seq<Entry<Located<T>>>>, startRoots: Roots)

  /** `ongoing` counts the registered scans by their maximum root. `cleans` holds the bound each
      clean or flush has computed, `None` for one without a bound. `rooted` remembers every root ever
      added. */
  datatype Index<T> = Index(
    lists: map<Key, seq<Entry<Located<T>>>>, roots: Roots, ongoing: map<Slot, nat>, removed: set<BankId>,
    scans: map<Id, Scan<T>>, cleans: map<Id, Option<Slot>>, rooted: set<Slot>)

  function ListOf<T>(lists: map<Key, seq<Entry<T>>>, k: Key): seq<Entry<T>> {
    if k in lists then lists[k] else []
  }

  /** Put a list back, dropping the key when nothing is left. */
  function WithList<T>(lists: map<Key, seq<Entry<T>>>, k: Key, list: seq<Entry<T>>): (r: map<Key, seq<Entry<T>>>)
    ensures ListOf(r, k) == list
    ensures forall q :: q != k ==> ListOf(r, q) == ListOf(lists, q)
  {
    if list == [] then lists - {k} else lists[k := list]
  }

  function AddScanRoot(ongoing: map<Slot, nat>, r: Slot): map<Slot, nat> {
    ongoing[r := (if r in ongoing then ongoing[r] else 0) + 1]
  }

  function RemoveScanRoot(ongoing: map<Slot, nat>, r: Slot): map<Slot, nat>
    requires r in ongoing && ongoing[r] > 0
  {
    if ongoing[r] == 1 then ongoing - {r} else ongoing[r := ongoing[r] - 1]
  }

  ghost predicate IsMinScanRoot(ongoing: map<Slot, nat>, min: Option<Slot>) {
    match min
    case None => ongoing == map[]
    case Some(m) => m in ongoing && forall r :: r in ongoing ==> m <= r
  }

  /** The bound of a clean: the smaller of the oldest scan root and the proposed root. */
  function MaxCleanRoot(minScanRoot: Option<Slot>, proposed: Option<Slot>): Option<Slot> {
    match (minScanRoot, proposed)
    case (None, p) => p
    case (m, None) => m
    case (Some(m), Some(p)) => Some(if m <= p then m else p)
  }

  /** A fork that does not hold the maximum root is ignored: the scan reads roots only. */
  function ScanView(fork: set<Slot>, maxRoot: Slot): View {
    View(Some(if maxRoot in fork then fork else {}), Some(maxRoot))
  }

  /** The bound is none only with neither a scan nor a proposal; otherwise it is the smaller of the two. */
  lemma {:induction false} MaxCleanRootIsSmaller(minScanRoot: Option<Slot>, proposed: Option<Slot>)
    ensures var bound := MaxCleanRoot(minScanRoot, proposed);
      && (bound.None? <==> minScanRoot.None? && proposed.None?)
      && (bound.Some? ==> bound == minScanRoot || bound == proposed)
      && (bound.Some? && minScanRoot.Some? ==> bound.value <= minScanRoot.value)
      && (bound.Some? && proposed.Some? ==> bound.value <= proposed.value)
  {
  }

  /** A scan sees nothing older than an alive root up to the maximum root, nor, if its fork holds the
      maximum root, than an entry of its fork; and nothing else. */
  lemma {:induction false} ScanSees<T>(list: seq<Entry<T>>, roots: Roots, fork: set<Slot>, maxRoot: Slot)
    ensures var seen := Seen(list, roots, ScanView(fork, maxRoot));
      && (forall e :: e in list && maxRoot in fork && e.slot in fork ==> seen.Some? && e.slot <= seen.value.slot)
      && (forall e :: e in list && e.slot in roots.alive && e.slot <= maxRoot ==>
            seen.Some? && e.slot <= seen.value.slot)
      && (seen.Some? ==>
            && seen.value in list
            && (|| (maxRoot in fork && seen.value.slot in fork)
                || (seen.value.slot in roots.alive && seen.value.slot <= maxRoot)))
  {
    SeenByFields(list, roots, ScanView(fork, maxRoot));
  }

  // ---------------------------------------------------------------------------------------
  // Steps

  datatype Step<T> =
    | CheckScan(id: Id, bank: BankId, fork: set<Slot>)
    | Register(id: Id)
    | ReadKey(id: Id, key: Key)
    | Deregister(id: Id)
    | Finish(id: Id)
    | AddRoot(slot: Slot)
    | CleanDeadSlot(slot: Slot)
    | StartClean(id: Id, minScanRoot: Option<Slot>, proposed: Option<Slot>)
    | CleanKey(id: Id, key: Key)
    | FlushOutdated(id: Id, key: Key, slot: Slot)
    | PurgeEmptied(id: Id, key: Key, slots: set<Slot>)
    | Relocate(key: Key, index: nat, place: nat, cached: bool)
    | MarkRemoved(banks: set<BankId>)
    | PurgeSlots(key: Key, slots: set<Slot>)
    | DropBank(bank: BankId)
    | Store(key: Key, slot: Slot, list: seq<Entry<Located<T>>>)

  /** Every ancestor older than the maximum root that has an entry is an alive root. */
  ghost predicate ForkIsRooted<T>(s: Index<T>, view: View, maxRoot: Slot) {
    forall k :: RootedBelow(ListOf(s.lists, k), s.roots, view, maxRoot)
  }

  ghost predicate NoEntryAt<T>(s: Index<T>, slot: Slot) {
    forall k, e :: e in ListOf(s.lists, k) ==> e.slot != slot
  }

  ghost predicate Active<T>(sc: Scan<T>) {
    !sc.phase.Done?
  }

  ghost predicate Reads<T>(sc: Scan<T>, slot: Slot) {
    sc.phase == Running && IsAncestor(sc.view, slot)
  }

  /** A later root that the clean or flush may take into account. */
  ghost predicate Supersedes<T>(s: Index<T>, id: Id, slot: Slot, later: Slot)
    requires id in s.cleans
  {
    slot < later && slot in s.roots.alive && IsRootUpTo(s.roots, s.cleans[id], later)
  }

  /** Moving an account to another place changes neither its slot nor its contents. */
  function Moved<T>(list: seq<Entry<Located<T>>>, i: nat, place: nat, cached: bool): seq<Entry<Located<T>>>
    requires i < |list|
  {
    list[i := Entry(list[i].slot, Located(list[i].value.account, place), cached)]
  }

  /** The version a reader sees: its slot and its account, wherever that is kept. */
  ghost function Shown<T>(list: seq<Entry<Located<T>>>, roots: Roots, view: View): Option<(Slot, T)> {
    var seen := Seen(list, roots, view);
    if seen.None? || seen.value.value.account.None? then None
    else Some((seen.value.slot, seen.value.value.account.value))
  }

  /** The newest version within the bound has no lamports, and `slots` are all its rooted slots up to
      the bound. */
  ghost predicate Emptied<T>(list: seq<Entry<Located<T>>>, roots: Roots, max: Option<Slot>, slots: set<Slot>) {
    && (forall slot :: slot in slots ==> IsRootUpTo(roots, max, slot))
    && (forall e :: e in list && IsRootUpTo(roots, max, e.slot) ==> e.slot in slots)
    && (forall e :: e in list && e.slot == NewestRoot(list, roots, max) ==> e.value.account.None?)
  }

  /** When a step may be taken. The conditions on stores, cleans, purges and dropped banks are
      what the rest of the database guarantees. */
  ghost predicate Enabled<T>(s: Index<T>, step: Step<T>) {
    match step
    case CheckScan(id, bank, fork) => id !in s.scans
    case Register(id) =>
      && id in s.scans && s.scans[id].phase == Checked
      && ForkIsRooted(s, ScanView(s.scans[id].fork, s.roots.maxInclusive), s.roots.maxInclusive)
    case ReadKey(id, key) => id in s.scans && s.scans[id].phase == Running
    case Deregister(id) => id in s.scans && s.scans[id].phase == Running
    case Finish(id) => id in s.scans && s.scans[id].phase == Finishing
    case AddRoot(slot) => slot >= s.roots.maxInclusive
    case CleanDeadSlot(slot) => NoEntryAt(s, slot)
    case StartClean(id, min, proposed) =>
      && id !in s.cleans && IsMinScanRoot(s.ongoing, min)
      && (proposed.Some? ==> proposed.value <= s.roots.maxInclusive)
    case CleanKey(id, key) => id in s.cleans
    case FlushOutdated(id, key, slot) =>
      // a later root within the bound has been flushed before
      id in s.cleans && exists e :: e in ListOf(s.lists, key) && Supersedes(s, id, slot, e.slot)
    case PurgeEmptied(id, key, slots) =>
      id in s.cleans && Emptied(ListOf(s.lists, key), s.roots, s.cleans[id], slots)
    case Relocate(key, index, place, cached) => index < |ListOf(s.lists, key)|
    case MarkRemoved(banks) => true
    case PurgeSlots(key, slots) =>
      && slots !! s.roots.alive
      && (forall id, slot ::
            id in s.scans && slot in slots && Reads(s.scans[id], slot) ==> s.scans[id].bank in s.removed)
    case DropBank(bank) => forall id :: id in s.scans && Active(s.scans[id]) ==> s.scans[id].bank != bank
    case Store(key, slot, list) =>
      && slot > s.roots.maxInclusive
      && (forall id :: id in s.scans ==> !Reads(s.scans[id], slot))
      && Filter(list, Outside({slot})) == Filter(ListOf(s.lists, key), Outside({slot}))
  }

  /** Deregistering finds its count: the `unwrap` and the decrement cannot fail. */
  ghost predicate CanDeregister<T>(s: Index<T>, step: Step<T>) {
    step.Deregister? && step.id in s.scans ==>
      s.scans[step.id].maxRoot in s.ongoing && s.ongoing[s.scans[step.id].maxRoot] > 0
  }

  ghost function Apply<T>(s: Index<T>, step: Step<T>): Index<T>
    requires Enabled(s, step) && CanDeregister(s, step)
  {
    match step
    case CheckScan(id, bank, fork) =>
      var phase := if bank in s.removed then Done(false) else Checked;
      s.(scans := s.scans[id := Scan(bank, fork, phase, 0, View(None, None), map[], map[], s.roots)])
    case Register(id) =>
      var max := s.roots.maxInclusive;
      var sc := s.scans[id];
      s.(ongoing := AddScanRoot(s.ongoing, max),
         scans := s.scans[id := sc.(phase := Running, maxRoot := max, view := ScanView(sc.fork, max),
                                    startLists := s.lists, startRoots := s.roots)])
    case ReadKey(id, key) =>
      var sc := s.scans[id];
      var shown := Shown(ListOf(s.lists, key), s.roots, sc.view);
      s.(scans := s.scans[id := sc.(reported := sc.reported[key := shown])])
    case Deregister(id) =>
      s.(ongoing := RemoveScanRoot(s.ongoing, s.scans[id].maxRoot),
         scans := s.scans[id := s.scans[id].(phase := Finishing)])
    case Finish(id) =>
      s.(scans := s.scans[id := s.scans[id].(phase := Done(s.scans[id].bank !in s.removed))])
    case AddRoot(slot) => s.(roots := Roots(s.roots.alive + {slot}, slot), rooted := s.rooted + {slot})
    case CleanDeadSlot(slot) => s.(roots := s.roots.(alive := s.roots.alive - {slot}))
    case StartClean(id, min, proposed) => s.(cleans := s.cleans[id := MaxCleanRoot(min, proposed)])
    case CleanKey(id, key) =>
      s.(lists := WithList(s.lists, key, Cleaned(ListOf(s.lists, key), s.roots, s.cleans[id])))
    case FlushOutdated(id, key, slot) =>
      s.(lists := WithList(s.lists, key, Filter(ListOf(s.lists, key), Outside({slot}))))
    case PurgeEmptied(id, key, slots) =>
      s.(lists := WithList(s.lists, key, Filter(ListOf(s.lists, key), Outside(slots))))
    case Relocate(key, index, place, cached) =>
      s.(lists := WithList(s.lists, key, Moved(ListOf(s.lists, key), index, place, cached)))
    case MarkRemoved(banks) => s.(removed := s.removed + banks)
    case PurgeSlots(key, slots) =>
      s.(lists := WithList(s.lists, key, Filter(ListOf(s.lists, key), Outside(slots))))
    case DropBank(bank) => s.(removed := s.removed - {bank})
    case Store(key, slot, list) => s.(lists := WithList(s.lists, key, list))
  }

  // ---------------------------------------------------------------------------------------
  // Invariant

  /** What the scan would have seen under `k` when it registered. */
  ghost function AtStart<T>(sc: Scan<T>, k: Key): Option<(Slot, T)> {
    Shown(ListOf(sc.startLists, k), sc.startRoots, sc.view)
  }

  ghost predicate ReportsStart<T>(sc: Scan<T>) {
    forall k :: k in sc.reported ==> sc.reported[k] == AtStart(sc, k)
  }

  /** The index still shows the scan what it showed when the scan registered. */
  ghost predicate StillShows<T>(s: Index<T>, sc: Scan<T>) {
    forall k :: Shown(ListOf(s.lists, k), s.roots, sc.view) == AtStart(sc, k)
  }

  ghost predicate Protected<T>(s: Index<T>, sc: Scan<T>) {
    && sc.view == ScanView(sc.fork, sc.maxRoot)
    && sc.maxRoot <= s.roots.maxInclusive
    && ForkIsRooted(s, sc.view, sc.maxRoot)
    && (sc.maxRoot in s.roots.alive || NoEntryAt(s, sc.maxRoot))
  }

  ghost predicate ScanOk<T>(s: Index<T>, sc: Scan<T>) {
    match sc.phase
    case Checked => sc.reported == map[]
    case Running => Protected(s, sc) && (sc.bank in s.removed || (StillShows(s, sc) && ReportsStart(sc)))
    case Finishing => sc.bank in s.removed || ReportsStart(sc)
    case Done(ok) => ok ==> ReportsStart(sc)
  }

  ghost function RunningAt<T>(scans: map<Id, Scan<T>>, r: Slot): set<Id> {
    set id | id in scans && scans[id].phase == Running && scans[id].maxRoot == r
  }

  /** The counts are exactly those of the registered scans, with no zero entries. */
  ghost predicate CountsScans<T>(ongoing: map<Slot, nat>, scans: map<Id, Scan<T>>) {
    forall r: Slot :: Counts(ongoing, scans, r)
  }

  ghost predicate Counts<T>(ongoing: map<Slot, nat>, scans: map<Id, Scan<T>>, r: Slot) {
    && (if r in ongoing then ongoing[r] else 0) == |RunningAt(scans, r)|
    && (r in ongoing ==> ongoing[r] > 0)
  }

  /** No bounded clean reaches above the maximum root of a registered scan, or above the maximum root. */
  ghost predicate CleansBounded<T>(s: Index<T>) {
    && (forall c :: c in s.cleans && s.cleans[c].Some? ==> s.cleans[c].value <= s.roots.maxInclusive)
    && (forall c, id :: c in s.cleans && s.cleans[c].Some? && id in s.scans && s.scans[id].phase == Running ==>
          s.cleans[c].value <= s.scans[id].maxRoot)
  }

  ghost predicate IsCleaning<T>(step: Step<T>) {
    step.CleanKey? || step.FlushOutdated? || step.PurgeEmptied?
  }

  /** A step of a clean or flush without a bound puts no version at risk that a running scan may read. */
  ghost predicate Careful<T>(s: Index<T>, step: Step<T>) {
    IsCleaning(step) && step.id in s.cleans && s.cleans[step.id].None? ==>
      forall id :: id in s.scans && s.scans[id].phase == Running ==>
        NoRisk(s.roots, s.scans[id].view, s.scans[id].maxRoot, s.roots.maxInclusive)
  }

  ghost predicate Inv<T>(s: Index<T>) {
    && s.roots.Valid()
    && (forall id :: id in s.scans ==> ScanOk(s, s.scans[id]))
    && CountsScans(s.ongoing, s.scans)
    && CleansBounded(s)
    && RootsHeld(s)
  }

  /** A root is forgotten only when no entry refers to it any more. */
  ghost predicate RootsHeld<T>(s: Index<T>) {
    && s.roots.maxInclusive in s.rooted
    && forall r :: r in s.rooted ==> r <= s.roots.maxInclusive && (r in s.roots.alive || NoEntryAt(s, r))
  }

  ghost predicate Init<T>(s: Index<T>) {
    && s.ongoing == map[] && s.scans == map[] && s.cleans == map[]
    && s.roots.Valid() && s.rooted == s.roots.alive + {s.roots.maxInclusive} && RootsHeld(s)
  }
}
