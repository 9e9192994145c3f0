/** Shrinking a storage while readers look stores up. Each access to one of the two shared maps is
    one step, and the steps of all shrinks, readers and index updates interleave in any order. A
    reader holds the index entry of its key, so that entry cannot change under it. */
module ShrinkProtocol {
  type Slot = nat
  type StoreId = nat
  type Key = nat
  type ReaderId = nat

  /** Where an account is stored. */
  datatype Location = Location(slot: Slot, id: StoreId)

  /** Reading: the old store is known. Active: the new store is in the second map. Swapped: the new
      store has replaced the old one in the first map. */
  datatype Shrink = Reading(from: StoreId) | Active(from: StoreId, to: StoreId) | Swapped(from: StoreId, to: StoreId)

  /** How far a reader is: which lookups have missed. */
  datatype Lookups = NoneYet | MissedOnce | MissedTwice | Found | NotFound

  datatype Reader = Reader(key: Key, at: Location, lookups: Lookups)

  datatype Storage = Storage(
    stores: map<Slot, StoreId>, shrinking: map<Slot, StoreId>, shrinks: map<Slot, Shrink>,
    index: map<Key, Location>, readers: map<ReaderId, Reader>)

  predicate Holds(stores: map<Slot, StoreId>, at: Location) {
    at.slot in stores && stores[at.slot] == at.id
  }

  datatype Step =
    | StartShrink(slot: Slot)
    | InsertNew(slot: Slot, id: StoreId)
    | MoveEntry(key: Key)
    | SwapStore(slot: Slot)
    | RemoveNew(slot: Slot)
    | StartRead(reader: ReaderId, key: Key)
    | Lookup(reader: ReaderId)
    | EndRead(reader: ReaderId)
    | Upsert(key: Key, at: Location)
    | Forget(key: Key)
    | Insert(slot: Slot, id: StoreId)
    | Remove(slot: Slot)
    | Replace(slot: Slot, id: StoreId)

  ghost predicate Locked(s: Storage, key: Key) {
    exists r :: r in s.readers && s.readers[r].key == key
  }

  ghost predicate InUse(s: Storage, slot: Slot) {
    exists k :: k in s.index && s.index[k].slot == slot
  }

  /** When a step may be taken. A shrink swaps only once the index refers to the new store alone;
      nobody removes or replaces the store of a slot that is being shrunk. */
  ghost predicate Enabled(s: Storage, step: Step) {
    match step
    case StartShrink(slot) => slot in s.stores && slot !in s.shrinks
    case InsertNew(slot, id) => slot in s.shrinks && s.shrinks[slot].Reading?
    case MoveEntry(key) =>
      && key in s.index && !Locked(s, key)
      && s.index[key].slot in s.shrinks && s.shrinks[s.index[key].slot].Active?
    case SwapStore(slot) =>
      && slot in s.shrinks && s.shrinks[slot].Active?
      && forall k :: k in s.index && s.index[k].slot == slot ==> s.index[k].id == s.shrinks[slot].to
    case RemoveNew(slot) => slot in s.shrinks && s.shrinks[slot].Swapped?
    case StartRead(r, key) => r !in s.readers && key in s.index
    case Lookup(r) => r in s.readers && !s.readers[r].lookups.Found? && !s.readers[r].lookups.NotFound?
    case EndRead(r) => r in s.readers
    case Upsert(key, at) => !Locked(s, key) && Holds(s.stores, at) && at.slot !in s.shrinks
    case Forget(key) => key in s.index && !Locked(s, key)
    case Insert(slot, id) => slot !in s.stores && s.shrinking == map[]
    case Remove(slot) => slot !in s.shrinks && !InUse(s, slot)
    case Replace(slot, id) => slot in s.stores && (slot in s.shrinks || InUse(s, slot) ==> id == s.stores[slot])
  }

  function NextLookup(s: Storage, r: Reader): Lookups {
    match r.lookups
    case NoneYet => if Holds(s.stores, r.at) then Found else MissedOnce
    case MissedOnce => if Holds(s.shrinking, r.at) then Found else MissedTwice
    case MissedTwice => if Holds(s.stores, r.at) then Found else NotFound
    case done => done
  }

  ghost function Apply(s: Storage, step: Step): Storage
    requires Enabled(s, step)
  {
    match step
    case StartShrink(slot) => s.(shrinks := s.shrinks[slot := Reading(s.stores[slot])])
    case InsertNew(slot, id) =>
      s.(shrinking := s.shrinking[slot := id], shrinks := s.shrinks[slot := Active(s.shrinks[slot].from, id)])
    case MoveEntry(key) =>
      var slot := s.index[key].slot;
      s.(index := s.index[key := Location(slot, s.shrinks[slot].to)])
    case SwapStore(slot) =>
      var sh := s.shrinks[slot];
      s.(stores := s.stores[slot := sh.to], shrinks := s.shrinks[slot := Swapped(sh.from, sh.to)])
    case RemoveNew(slot) => s.(shrinking := s.shrinking - {slot}, shrinks := s.shrinks - {slot})
    case StartRead(r, key) => s.(readers := s.readers[r := Reader(key, s.index[key], NoneYet)])
    case Lookup(r) => s.(readers := s.readers[r := s.readers[r].(lookups := NextLookup(s, s.readers[r]))])
    case EndRead(r) => s.(readers := s.readers - {r})
    case Upsert(key, at) => s.(index := s.index[key := at])
    case Forget(key) => s.(index := s.index - {key})
    case Insert(slot, id) => s.(stores := s.stores[slot := id])
    case Remove(slot) => s.(stores := s.stores - {slot})
    case Replace(slot, id) => s.(stores := s.stores[slot := id])
  }

  /** The assertions in the code: no second shrink of the slot, the swap replaces the store the
      shrink started from, and the new store is still there to be taken out. */
  ghost predicate AssertionsHold(s: Storage, step: Step) {
    match step
    case InsertNew(slot, _) => slot !in s.shrinking
    case SwapStore(slot) => slot in s.shrinks && s.shrinks[slot].Active? ==>
      slot in s.stores && s.stores[slot] == s.shrinks[slot].from
    case RemoveNew(slot) => slot in s.shrinking
    case _ => true
  }

  // ---------------------------------------------------------------------------------------
  // Invariant

  ghost predicate ShrinkOk(s: Storage, slot: Slot)
    requires slot in s.shrinks
  {
    match s.shrinks[slot]
    case Reading(from) => Holds(s.stores, Location(slot, from)) && slot !in s.shrinking
    case Active(from, to) => Holds(s.stores, Location(slot, from)) && Holds(s.shrinking, Location(slot, to))
    case Swapped(from, to) => Holds(s.stores, Location(slot, to)) && Holds(s.shrinking, Location(slot, to))
  }

  /** The store an index entry names is in one of the two maps. */
  ghost predicate Located(s: Storage, at: Location) {
    Holds(s.stores, at) || Holds(s.shrinking, at)
  }

  ghost predicate ReaderOk(s: Storage, r: Reader) {
    && r.key in s.index && s.index[r.key] == r.at
    && (r.lookups == MissedTwice ==> Holds(s.stores, r.at))
    && r.lookups != NotFound
  }

  ghost predicate Inv(s: Storage) {
    && (forall slot :: slot in s.shrinks ==> ShrinkOk(s, slot))
    && (forall slot :: slot in s.shrinking ==> slot in s.shrinks)
    && (forall k :: k in s.index ==> Located(s, s.index[k]))
    && (forall r :: r in s.readers ==> ReaderOk(s, s.readers[r]))
  }

  ghost predicate Init(s: Storage) {
    s.shrinking == map[] && s.shrinks == map[] && s.readers == map[]
    && forall k :: k in s.index ==> Holds(s.stores, s.index[k])
  }

  /** Steps that start, move or end a shrink. */
  lemma {:induction false} ShrinkStepKeepsInv(s: Storage, step: Step)
    requires Inv(s) && Enabled(s, step)
    requires step.StartShrink? || step.InsertNew? || step.MoveEntry? || step.SwapStore? || step.RemoveNew?
    ensures AssertionsHold(s, step) && Inv(Apply(s, step))
  {
    var s' := Apply(s, step);
    forall slot | slot in s'.shrinks ensures ShrinkOk(s', slot) {
      assert slot in s.shrinks ==> ShrinkOk(s, slot);
    }
    forall k | k in s'.index ensures Located(s', s'.index[k]) {
      assert Located(s, s.index[k]);
      assert s.index[k].slot in s.shrinks ==> ShrinkOk(s, s.index[k].slot);
    }
    forall r | r in s'.readers ensures ReaderOk(s', s'.readers[r]) {
      assert ReaderOk(s, s.readers[r]);
    }
  }

  lemma {:induction false} ReaderStepKeepsInv(s: Storage, step: Step)
    requires Inv(s) && Enabled(s, step) && (step.StartRead? || step.Lookup? || step.EndRead?)
    ensures Inv(Apply(s, step))
  {
    var s' := Apply(s, step);
    forall slot | slot in s'.shrinks ensures ShrinkOk(s', slot) {
      assert ShrinkOk(s, slot);
    }
    forall k | k in s'.index ensures Located(s', s'.index[k]) {
      assert Located(s, s.index[k]);
    }
    forall r | r in s'.readers ensures ReaderOk(s', s'.readers[r]) {
      if r in s.readers {
        assert ReaderOk(s, s.readers[r]);
        assert Located(s, s.index[s.readers[r].key]);
      }
    }
  }

  lemma {:induction false} OtherStepKeepsInv(s: Storage, step: Step)
    requires Inv(s) && Enabled(s, step)
    requires step.Upsert? || step.Forget? || step.Insert? || step.Remove? || step.Replace?
    ensures Inv(Apply(s, step))
  {
    var s' := Apply(s, step);
    forall slot | slot in s'.shrinks ensures ShrinkOk(s', slot) {
      assert ShrinkOk(s, slot);
    }
    forall k | k in s'.index ensures Located(s', s'.index[k]) {
      assert k in s.index ==> Located(s, s.index[k]);
    }
    forall r | r in s'.readers ensures ReaderOk(s', s'.readers[r]) {
      assert ReaderOk(s, s.readers[r]);
    }
  }

  lemma {:induction false} StepKeepsInv(s: Storage, step: Step)
    requires Inv(s) && Enabled(s, step)
    ensures AssertionsHold(s, step) && Inv(Apply(s, step))
  {
    match step
    case StartRead(_, _) => ReaderStepKeepsInv(s, step);
    case Lookup(_) => ReaderStepKeepsInv(s, step);
    case EndRead(_) => ReaderStepKeepsInv(s, step);
    case Upsert(_, _) => OtherStepKeepsInv(s, step);
    case Forget(_) => OtherStepKeepsInv(s, step);
    case Insert(_, _) => OtherStepKeepsInv(s, step);
    case Remove(_) => OtherStepKeepsInv(s, step);
    case Replace(_, _) => OtherStepKeepsInv(s, step);
    case _ => ShrinkStepKeepsInv(s, step);
  }

  ghost predicate Follows(s: Storage, step: Step, s': Storage) {
    Enabled(s, step) && s' == Apply(s, step)
  }

  ghost predicate Run(states: seq<Storage>, steps: seq<Step>) {
    && |states| == |steps| + 1
    && Init(states[0])
    && forall i {:trigger steps[i]} :: 0 <= i < |steps| ==> Follows(states[i], steps[i], states[i + 1])
  }

  lemma {:induction false} RunKeepsInv(states: seq<Storage>, steps: seq<Step>, n: nat)
    requires Run(states, steps) && n < |states|
    ensures Inv(states[n])
    decreases n
  {
    if n > 0 {
      RunKeepsInv(states, steps, n - 1);
      assert Follows(states[n - 1], steps[n - 1], states[n]);
      StepKeepsInv(states[n - 1], steps[n - 1]);
    }
  }

  /** In every run, no reader ever fails to find the store its index entry names. */
  lemma {:induction false} ReaderAlwaysFinds(states: seq<Storage>, steps: seq<Step>, n: nat, r: ReaderId)
    requires Run(states, steps) && n < |states| && r in states[n].readers
    ensures states[n].readers[r].lookups != NotFound
  {
    RunKeepsInv(states, steps, n);
    assert ReaderOk(states[n], states[n].readers[r]);
  }

  /** In every run, every assertion of the shrink code holds when it is reached. */
  lemma {:induction false} AssertionsAlwaysHold(states: seq<Storage>, steps: seq<Step>, n: nat)
    requires Run(states, steps) && n < |steps|
    ensures AssertionsHold(states[n], steps[n])
  {
    RunKeepsInv(states, steps, n);
    assert Follows(states[n], steps[n], states[n + 1]);
    StepKeepsInv(states[n], steps[n]);
  }

  /** The guard against interference is exact: if the store of a slot under an active shrink is
      replaced, the swap's assertion holds if and only if the id stays the same, and if the store
      is removed it fails. */
  lemma {:induction false} InterferenceFailsSwap(s: Storage, slot: Slot, id: StoreId)
    requires Inv(s) && slot in s.shrinks && s.shrinks[slot].Active?
    ensures AssertionsHold(s.(stores := s.stores[slot := id]), SwapStore(slot)) <==> id == s.stores[slot]
    ensures !AssertionsHold(s.(stores := s.stores - {slot}), SwapStore(slot))
  {
    assert ShrinkOk(s, slot);
  }

  /** The third lookup is needed: whenever a shrink to a different store is ready to swap, a reader
      of the slot can miss twice, with the swap between its first two lookups. */
  lemma {:induction false} ThirdLookupIsNeeded(s: Storage, slot: Slot, r: ReaderId)
    requires Inv(s) && Enabled(s, SwapStore(slot)) && s.shrinks[slot].from != s.shrinks[slot].to
    requires r in s.readers && s.readers[r].at.slot == slot && s.readers[r].lookups == NoneYet
    ensures Enabled(s, Lookup(r))
    ensures var s1 := Apply(s, Lookup(r));
      && Enabled(s1, SwapStore(slot))
      && var s2 := Apply(s1, SwapStore(slot));
      && Enabled(s2, RemoveNew(slot))
      && var s3 := Apply(s2, RemoveNew(slot));
      && Enabled(s3, Lookup(r))
      && Apply(s3, Lookup(r)).readers[r].lookups == MissedTwice
  {
    assert ShrinkOk(s, slot) && ReaderOk(s, s.readers[r]);
  }
}
