/** The storage object: the two maps and the operations on them, one access at a time. The
    interleaving of these accesses is the subject of `ShrinkProtocol`. */
module AccountStorage {
  import opened Wrappers
  import opened ShrinkProtocol

  /** What a running shrink holds on to. */
  datatype ShrinkInProgress = ShrinkInProgress(slot: Slot, oldStore: StoreId, newStore: StoreId)

  function LookupIn(stores: map<Slot, StoreId>, at: Location): Option<StoreId> {
    if Holds(stores, at) then Some(stores[at.slot]) else None
  }

  class AccountStorage {
    var stores: map<Slot, StoreId>
    var shrinkInProgress: map<Slot, StoreId>

    constructor ()
      ensures stores == map[] && shrinkInProgress == map[]
    {
      stores, shrinkInProgress := map[], map[];
    }

    /** Look in the first map, then in the second, then in the first again. */
    method GetAccountStorageEntry(slot: Slot, id: StoreId) returns (found: Option<StoreId>)
      ensures found == if Holds(stores, Location(slot, id)) || Holds(shrinkInProgress, Location(slot, id))
                       then Some(id) else None
    {
      var at := Location(slot, id);
      found := LookupIn(stores, at);
      if found.None? {
        found := LookupIn(shrinkInProgress, at);
      }
      if found.None? {
        found := LookupIn(stores, at);
      }
    }

    /** `false` stands for a failed assertion: a shrink runs somewhere, or the slot is taken. */
    method Insert(slot: Slot, id: StoreId) returns (ok: bool)
      modifies this`stores
      ensures ok <==> shrinkInProgress == map[] && slot !in old(stores)
      ensures ok ==> stores == old(stores)[slot := id]
    {
      if shrinkInProgress != map[] {
        return false;
      }
      ok := slot !in stores;
      stores := stores[slot := id];
    }

    method Remove(slot: Slot, shrinkCanBeActive: bool) returns (ok: bool, removed: Option<StoreId>)
      modifies this`stores
      ensures ok <==> shrinkCanBeActive || shrinkInProgress == map[]
      ensures ok ==> removed == (if slot in old(stores) then Some(old(stores)[slot]) else None)
      ensures stores == if ok then old(stores) - {slot} else old(stores)
    {
      ok, removed := shrinkCanBeActive || shrinkInProgress == map[], None;
      if ok {
        removed := if slot in stores then Some(stores[slot]) else None;
        stores := stores - {slot};
      }
    }

    /** Begin a shrink. `None` stands for a panic: no store to shrink, or a shrink of this slot runs. */
    method ShrinkingInProgress(slot: Slot, newStore: StoreId) returns (shrink: Option<ShrinkInProgress>)
      modifies this`shrinkInProgress
      ensures shrink.Some? <==> slot in stores && slot !in old(shrinkInProgress)
      ensures shrink.Some? ==> shrink.value == ShrinkInProgress(slot, stores[slot], newStore)
      ensures slot in stores ==> shrinkInProgress == old(shrinkInProgress)[slot := newStore]
    {
      if slot !in stores {
        return None;
      }
      var oldStore := stores[slot];
      var first := slot !in shrinkInProgress;
      shrinkInProgress := shrinkInProgress[slot := newStore];
      shrink := if first then Some(ShrinkInProgress(slot, oldStore, newStore)) else None;
    }

    /** End a shrink: the new store replaces the old one, then leaves the second map. `ok` tells
        whether both assertions hold. */
    method Drop(shrink: ShrinkInProgress) returns (ok: bool)
      modifies this
      ensures ok <==> Holds(old(stores), Location(shrink.slot, shrink.oldStore)) && shrink.slot in old(shrinkInProgress)
      ensures ok ==> stores == old(stores)[shrink.slot := shrink.newStore]
      ensures ok ==> shrinkInProgress == old(shrinkInProgress) - {shrink.slot}
    {
      ok := shrink.slot in stores && stores[shrink.slot] == shrink.oldStore;
      stores := stores[shrink.slot := shrink.newStore];
      if ok {
        ok := shrink.slot in shrinkInProgress;
        shrinkInProgress := shrinkInProgress - {shrink.slot};
      }
    }
  }
}
