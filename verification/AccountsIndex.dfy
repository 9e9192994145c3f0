/** The accounts index object. Its methods are the sections the scan protocol interleaves; their
    contracts use the same functions as the protocol's steps. */
module AccountsIndex {
  import opened Wrappers
  import opened SlotLists
  import opened ScanProtocol

  /** A scan under the maximum root sees nothing older than any entry it should see. */
  ghost predicate SeesAll<T>(list: seq<Entry<T>>, roots: Roots, fork: set<Slot>) {
    var seen := Seen(list, roots, ScanView(fork, roots.maxInclusive));
    && (roots.maxInclusive in fork ==>
          forall e :: e in list && e.slot in fork ==> seen.Some? && e.slot <= seen.value.slot)
    && forall e :: e in list && e.slot in roots.alive && e.slot <= roots.maxInclusive ==>
         seen.Some? && e.slot <= seen.value.slot
  }

  class Index<T> {
    var slotLists: map<Key, seq<Entry<T>>>
    var roots: Roots
    var ongoingScanRoots: map<Slot, nat>
    var removedBankIds: set<BankId>

    constructor ()
      ensures slotLists == map[] && roots == Roots({}, 0) && ongoingScanRoots == map[] && removedBankIds == {}
    {
      slotLists, roots, ongoingScanRoots, removedBankIds := map[], Roots({}, 0), map[], {};
    }

    /** `false` stands for the failed assertion that roots are added in order. */
    method AddRoot(slot: Slot) returns (ordered: bool)
      requires roots.Valid()
      modifies this`roots
      ensures ordered <==> slot >= old(roots).maxInclusive
      ensures roots == if ordered then Roots(old(roots).alive + {slot}, slot) else old(roots)
      ensures roots.Valid()
    {
      ordered := slot >= roots.maxInclusive;
      if ordered {
        roots := Roots(roots.alive + {slot}, slot);
      }
    }

    method CleanDeadSlot(slot: Slot) returns (wasRoot: bool)
      requires roots.Valid()
      modifies this`roots
      ensures wasRoot <==> slot in old(roots).alive
      ensures roots == old(roots).(alive := old(roots).alive - {slot}) && roots.Valid()
    {
      wasRoot := slot in roots.alive;
      roots := roots.(alive := roots.alive - {slot});
    }

    /** Record a new scan under the maximum root of this moment. */
    method RegisterScan() returns (maxRoot: Slot)
      modifies this`ongoingScanRoots
      ensures maxRoot == roots.maxInclusive
      ensures ongoingScanRoots == AddScanRoot(old(ongoingScanRoots), maxRoot)
    {
      maxRoot := roots.maxInclusive;
      var count := if maxRoot in ongoingScanRoots then ongoingScanRoots[maxRoot] else 0;
      ongoingScanRoots := ongoingScanRoots[maxRoot := count + 1];
    }

    method DeregisterScan(maxRoot: Slot)
      requires maxRoot in ongoingScanRoots && ongoingScanRoots[maxRoot] > 0
      modifies this`ongoingScanRoots
      ensures ongoingScanRoots == RemoveScanRoot(old(ongoingScanRoots), maxRoot)
    {
      var count := ongoingScanRoots[maxRoot] - 1;
      if count == 0 {
        ongoingScanRoots := ongoingScanRoots - {maxRoot};
      } else {
        ongoingScanRoots := ongoingScanRoots[maxRoot := count];
      }
    }

    method MinOngoingScanRoot() returns (min: Option<Slot>)
      ensures IsMinScanRoot(ongoingScanRoots, min)
    {
      min := None;
      var left := ongoingScanRoots.Keys;
      while left != {}
        invariant left <= ongoingScanRoots.Keys
        invariant min.None? ==> left == ongoingScanRoots.Keys
        invariant min.Some? ==> min.value in ongoingScanRoots
        invariant min.Some? ==> forall r :: r in ongoingScanRoots && r !in left ==> min.value <= r
        decreases |left|
      {
        var r :| r in left;
        min := if min.None? || r < min.value then Some(r) else min;
        left := left - {r};
      }
      assert min.None? ==> ongoingScanRoots.Keys == {};
    }

    /** What a reader with this view sees under `k`. */
    method Get(k: Key, view: View) returns (seen: Option<Entry<T>>)
      ensures seen == Seen(ListOf(slotLists, k), roots, view)
    {
      if k !in slotLists {
        return None;
      }
      var i := LatestSlot(slotLists[k], roots, view);
      seen := if i.None? then None else Some(slotLists[k][i.value]);
    }

    /** Returns whether the key is gone from the index afterwards. */
    method CleanRootedEntries(k: Key, max: Option<Slot>) returns (gone: bool, reclaims: seq<Entry<T>>)
      modifies this`slotLists
      ensures slotLists == WithList(old(slotLists), k, Cleaned(ListOf(old(slotLists), k), roots, max))
              || (k !in old(slotLists) && slotLists == old(slotLists))
      ensures ListOf(slotLists, k) == Cleaned(ListOf(old(slotLists), k), roots, max)
      ensures gone <==> k !in slotLists
      ensures multiset(ListOf(old(slotLists), k)) == multiset(ListOf(slotLists, k)) + multiset(reclaims)
    {
      if k !in slotLists {
        return true, [];
      }
      CleanConserves(slotLists[k], roots, max);
      var kept;
      kept, reclaims := PurgeOlderRootEntries(slotLists[k], roots, max);
      gone := kept == [];
      slotLists := if gone then slotLists - {k} else slotLists[k := kept];
    }

    /** A checked scan with nothing running beside it. The registration is undone, and the result
        is Ok exactly when the scanned bank has not been removed. */
    method DoCheckedScanAccounts(keys: seq<Key>, fork: set<Slot>, bank: BankId)
      returns (ok: bool, reported: map<Key, Option<Entry<T>>>)
      requires forall r :: r in ongoingScanRoots ==> ongoingScanRoots[r] > 0
      modifies this`ongoingScanRoots
      ensures ok <==> bank !in removedBankIds
      ensures ongoingScanRoots == old(ongoingScanRoots)
      ensures ok ==> forall k :: k in keys ==> k in reported
      ensures forall k :: k in reported ==>
        reported[k] == Seen(ListOf(slotLists, k), roots, ScanView(fork, roots.maxInclusive))
      ensures roots.maxInclusive in fork ==>
        forall k, e :: k in reported && e in ListOf(slotLists, k) && e.slot in fork ==>
          reported[k].Some? && e.slot <= reported[k].value.slot
      ensures forall k, e ::
        k in reported && e in ListOf(slotLists, k) && e.slot in roots.alive && e.slot <= roots.maxInclusive ==>
          reported[k].Some? && e.slot <= reported[k].value.slot
    {
      forall k ensures SeesAll(ListOf(slotLists, k), roots, fork) {
        ScanSees(ListOf(slotLists, k), roots, fork, roots.maxInclusive);
      }
      reported := map[];
      if bank in removedBankIds {
        return false, reported;
      }
      var maxRoot := RegisterScan();
      var view := View(Some(if maxRoot in fork then fork else {}), Some(maxRoot));
      for i := 0 to |keys|
        invariant ongoingScanRoots == AddScanRoot(old(ongoingScanRoots), maxRoot)
        invariant forall j :: 0 <= j < i ==> keys[j] in reported
        invariant forall k :: k in reported ==> reported[k] == Seen(ListOf(slotLists, k), roots, view)
      {
        var seen := Get(keys[i], view);
        reported := reported[keys[i] := seen];
      }
      DeregisterScan(maxRoot);
      ok := bank !in removedBankIds;
    }
  }
}
