/** The write cache with one operation at a time: the counters are natural numbers, so that every
    subtraction is shown not to underflow, and they always equal the sums they stand for. */
module AccountsCache {
  import opened Wrappers
  import opened CacheProtocol

  /** The slot's cache after a write, with its counters kept true. */
  ghost predicate WrittenTo(after: SlotCache, before: SlotCache, pubkey: Pubkey, len: nat) {
    && after.accounts == before.accounts[pubkey := len]
    && after.dropped == before.dropped
    && Counted(after)
  }

  ghost predicate Counted(c: SlotCache) {
    && c.counters.bytes == Measure(Bytes, c.accounts)
    && c.counters.accounts == Measure(Accounts, c.accounts)
  }

  lemma {:induction false} PartOfSum(caches: seq<SlotCache>, c: nat, kind: Kind)
    requires c < |caches| && !caches[c].dropped
    ensures Measure(kind, caches[c].accounts) <= Sum(caches, Held(kind))
  {
    var n := |caches| - 1;
    if c == n {
      HeldNonNegative(caches[..n], kind);
    } else {
      PartOfSum(caches[..n], c, kind);
    }
  }

  class AccountsCache {
    /** Every slot cache ever made; a reference to one is its index. */
    var caches: seq<SlotCache>
    var live: map<Slot, nat>
    var totalSize: nat
    var totalAccounts: nat

    ghost predicate LiveOk()
      reads this
    {
      forall slot :: slot in live ==> live[slot] < |caches| && !caches[live[slot]].dropped
    }

    ghost predicate Valid()
      reads this
    {
      && LiveOk()
      && (forall c :: 0 <= c < |caches| && !caches[c].dropped ==> Counted(caches[c]))
      && totalSize == Sum(caches, Held(Bytes))
      && totalAccounts == Sum(caches, Held(Accounts))
    }

    constructor ()
      ensures Valid() && caches == [] && live == map[]
    {
      caches, live, totalSize, totalAccounts := [], map[], 0, 0;
    }

    /** The write itself, with the new values of the cache-wide counters. */
    method CountWrite(cache: SlotCache, pubkey: Pubkey, len: nat)
      returns (after: SlotCache, newSize: nat, newAccounts: nat)
      requires Counted(cache) && !cache.dropped
      requires Measure(Bytes, cache.accounts) <= totalSize
      ensures WrittenTo(after, cache, pubkey, len)
      ensures newSize == totalSize + Measure(Bytes, after.accounts) - Measure(Bytes, cache.accounts)
      ensures newAccounts == totalAccounts + Measure(Accounts, after.accounts) - Measure(Accounts, cache.accounts)
    {
      MeasureUpdate(cache.accounts, pubkey, len, Bytes);
      MeasureUpdate(cache.accounts, pubkey, len, Accounts);
      var size: nat, count: nat := cache.counters.bytes, cache.counters.accounts;
      newSize, newAccounts := totalSize, totalAccounts;
      if pubkey in cache.accounts {
        var was := cache.accounts[pubkey];
        if len > was {
          size, newSize := size + (len - was), newSize + (len - was);
        } else if was > len {
          size, newSize := size - (was - len), newSize - (was - len);
        }
      } else {
        size, newSize := size + len, newSize + len;
        count, newAccounts := count + 1, newAccounts + 1;
      }
      after := SlotCache(cache.accounts[pubkey := len], Counters(size, count), false);
    }

    /** `SlotCache::insert` */
    method Insert(c: nat, pubkey: Pubkey, len: nat)
      requires Valid() && c < |caches| && !caches[c].dropped
      modifies this
      ensures Valid() && live == old(live)
      ensures |caches| == |old(caches)| && WrittenTo(caches[c], old(caches)[c], pubkey, len)
      ensures caches == old(caches)[c := caches[c]]
    {
      PartOfSum(caches, c, Bytes);
      var after;
      after, totalSize, totalAccounts := CountWrite(caches[c], pubkey, len);
      SumUpdate(caches, c, after, Held(Bytes));
      SumUpdate(caches, c, after, Held(Accounts));
      caches := caches[c := after];
    }

    /** Makes the slot's cache on its first write. */
    method Store(slot: Slot, pubkey: Pubkey, len: nat)
      requires Valid()
      modifies this
      ensures Valid() && slot in live && |old(caches)| <= |caches|
      ensures slot in old(live) ==> live == old(live) && |caches| == |old(caches)|
      ensures slot !in old(live) ==> live == old(live)[slot := |old(caches)|] && |caches| == |old(caches)| + 1
      ensures var before := if slot in old(live) then old(caches)[old(live)[slot]].accounts else map[];
              caches[live[slot]].accounts == before[pubkey := len]
      ensures forall c :: 0 <= c < |old(caches)| && c != live[slot] ==> caches[c] == old(caches)[c]
    {
      if slot !in live {
        var empty := SlotCache(map[], EMPTY, false);
        SumAppend(caches, empty, Held(Bytes));
        SumAppend(caches, empty, Held(Accounts));
        live := live[slot := |caches|];
        caches := caches + [empty];
      }
      Insert(live[slot], pubkey, len);
    }

    /** The slot is no longer reachable; its cache stays in memory while someone holds it. */
    method RemoveSlot(slot: Slot) returns (c: Option<nat>)
      requires Valid()
      modifies this
      ensures Valid() && live == old(live) - {slot} && caches == old(caches)
      ensures c == if slot in old(live) then Some(old(live)[slot]) else None
      ensures totalSize == old(totalSize) && totalAccounts == old(totalAccounts)
    {
      c := if slot in live then Some(live[slot]) else None;
      live := live - {slot};
    }

    /** The last reference to a slot's cache goes away. */
    method Drop(c: nat)
      requires Valid() && c < |caches| && !caches[c].dropped && c !in live.Values
      modifies this
      ensures Valid() && live == old(live)
      ensures caches == old(caches)[c := old(caches)[c].(dropped := true)]
      ensures totalSize == old(totalSize) - Measure(Bytes, old(caches)[c].accounts)
      ensures totalAccounts == old(totalAccounts) - Measure(Accounts, old(caches)[c].accounts)
    {
      PartOfSum(caches, c, Bytes);
      PartOfSum(caches, c, Accounts);
      totalSize := totalSize - caches[c].counters.bytes;
      totalAccounts := totalAccounts - caches[c].counters.accounts;
      var gone := caches[c].(dropped := true);
      SumUpdate(caches, c, gone, Held(Bytes));
      SumUpdate(caches, c, gone, Held(Accounts));
      caches := caches[c := gone];
    }
  }
}
