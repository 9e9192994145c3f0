/** The lock table object and the calls that lock and unlock batches of transactions. The table is
    proved to count exactly the locks that are held. */
module AccountLocks {
  import opened LockRules

  ghost predicate CountAt(table: map<Key, nat>, held: multiset<Lock>, writable: bool, k: Key) {
    (k in table <==> held[Lock(k, writable)] > 0) && (k in table ==> table[k] == held[Lock(k, writable)])
  }

  /** `table` counts the held locks of one kind, without zero entries. */
  ghost predicate CountsHeld(table: map<Key, nat>, held: multiset<Lock>, writable: bool) {
    forall k {:trigger CountAt(table, held, writable, k)} :: CountAt(table, held, writable, k)
  }

  /** A table is determined by what is held, so equal holdings mean equal tables. */
  lemma {:induction false} TableIsDetermined(a: map<Key, nat>, b: map<Key, nat>, held: multiset<Lock>, writable: bool)
    requires CountsHeld(a, held, writable) && CountsHeld(b, held, writable)
    ensures a == b
  {
    forall k ensures k in a <==> k in b {
      assert CountAt(a, held, writable, k) && CountAt(b, held, writable, k);
    }
    forall k | k in a ensures a[k] == b[k] {
      assert CountAt(a, held, writable, k) && CountAt(b, held, writable, k);
    }
  }

  lemma {:induction false} LockCounts(table: map<Key, nat>, table': map<Key, nat>, held: multiset<Lock>,
                                      writable: bool, l: Lock)
    requires CountsHeld(table, held, writable)
    requires table' == if l.writable == writable
                       then table[l.key := (if l.key in table then table[l.key] else 0) + 1] else table
    ensures CountsHeld(table', held + multiset{l}, writable)
  {
    var held' := held + multiset{l};
    forall k ensures CountAt(table', held', writable, k) {
      assert CountAt(table, held, writable, k);
    }
  }

  function Decremented(table: map<Key, nat>, k: Key): map<Key, nat> {
    if k !in table || table[k] == 0 then table
    else if table[k] == 1 then table - {k} else table[k := table[k] - 1]
  }

  lemma {:induction false} UnlockCounts(table: map<Key, nat>, table': map<Key, nat>, held: multiset<Lock>,
                                        writable: bool, l: Lock)
    requires CountsHeld(table, held, writable)
    requires table' == if l.writable == writable then Decremented(table, l.key) else table
    ensures CountsHeld(table', held - multiset{l}, writable)
  {
    var held' := held - multiset{l};
    forall k ensures CountAt(table', held', writable, k) {
      assert CountAt(table, held, writable, k);
    }
  }

  lemma {:induction false} MinusTwice(h: multiset<Lock>, a: multiset<Lock>, b: multiset<Lock>)
    ensures h - a - b == h - (a + b)
  {
  }

  lemma {:induction false} PlusTwice(h: multiset<Lock>, a: multiset<Lock>, b: multiset<Lock>)
    ensures h + a + b == h + (a + b)
  {
  }

  class AccountLocks {
    var writeLocks: map<Key, nat>
    var readonlyLocks: map<Key, nat>
    /** Scratch set of the duplicate check, empty between uses. */
    var seenKeys: set<Key>
    /** The locks of all granted transactions that are not unlocked yet. */
    ghost var held: multiset<Lock>

    ghost predicate Valid()
      reads this
    {
      CountsHeld(writeLocks, held, true) && CountsHeld(readonlyLocks, held, false) && seenKeys == {}
    }

    constructor ()
      ensures Valid() && held == multiset{}
    {
      writeLocks, readonlyLocks, seenKeys, held := map[], map[], {}, multiset{};
    }

    predicate IsLockedReadonly(k: Key)
      reads this
    {
      k in readonlyLocks && readonlyLocks[k] > 0
    }

    predicate IsLockedWrite(k: Key)
      reads this
    {
      k in writeLocks && writeLocks[k] > 0
    }

    /** Whether every lock is available beside the held ones. */
    method CanLockAccounts(locks: seq<Lock>) returns (ok: bool)
      requires Valid()
      ensures ok <==> Free(held, locks)
      ensures ok <==> forall i :: 0 <= i < |locks| ==>
        held[Lock(locks[i].key, true)] == 0 && (locks[i].writable ==> held[Lock(locks[i].key, false)] == 0)
    {
      for i := 0 to |locks|
        invariant forall j :: 0 <= j < i ==> !Blocked(held, locks[j])
      {
        var l := locks[i];
        assert CountAt(writeLocks, held, true, l.key) && CountAt(readonlyLocks, held, false, l.key);
        if l.writable {
          if IsLockedReadonly(l.key) || IsLockedWrite(l.key) {
            assert Blocked(held, locks[i]);
            return false;
          }
        } else if IsLockedWrite(l.key) {
          assert Blocked(held, locks[i]);
          return false;
        }
      }
      ok := true;
    }

    method LockOne(l: Lock)
      requires Valid()
      modifies this`writeLocks, this`readonlyLocks, this`held
      ensures Valid() && held == old(held) + multiset{l}
    {
      if l.writable {
        writeLocks := writeLocks[l.key := (if l.key in writeLocks then writeLocks[l.key] else 0) + 1];
      } else {
        readonlyLocks := readonlyLocks[l.key := (if l.key in readonlyLocks then readonlyLocks[l.key] else 0) + 1];
      }
      LockCounts(old(writeLocks), writeLocks, held, true, l);
      LockCounts(old(readonlyLocks), readonlyLocks, held, false, l);
      held := held + multiset{l};
    }

    method LockAll(locks: seq<Lock>)
      requires Valid()
      modifies this`writeLocks, this`readonlyLocks, this`held
      ensures Valid() && held == old(held) + multiset(locks)
    {
      for i := 0 to |locks|
        invariant Valid() && held == old(held) + multiset(locks[..i])
      {
        LockOne(locks[i]);
        assert locks[..i + 1] == locks[..i] + [locks[i]];
        PlusTwice(old(held), multiset(locks[..i]), multiset{locks[i]});
      }
      assert locks[..|locks|] == locks;
    }

    /** Unlocking what is not locked changes nothing (and fails a debug assertion). */
    method UnlockOne(l: Lock)
      requires Valid()
      modifies this`writeLocks, this`readonlyLocks, this`held
      ensures Valid() && held == old(held) - multiset{l}
    {
      assert CountAt(writeLocks, held, true, l.key) && CountAt(readonlyLocks, held, false, l.key);
      if l.writable {
        if l.key in writeLocks {
          var count := writeLocks[l.key] - 1;
          writeLocks := if count == 0 then writeLocks - {l.key} else writeLocks[l.key := count];
        }
      } else if l.key in readonlyLocks {
        var count := readonlyLocks[l.key] - 1;
        readonlyLocks := if count == 0 then readonlyLocks - {l.key} else readonlyLocks[l.key := count];
      }
      UnlockCounts(old(writeLocks), writeLocks, held, true, l);
      UnlockCounts(old(readonlyLocks), readonlyLocks, held, false, l);
      held := held - multiset{l};
    }

    method UnlockAll(locks: seq<Lock>)
      requires Valid()
      modifies this`writeLocks, this`readonlyLocks, this`held
      ensures Valid() && held == old(held) - multiset(locks)
    {
      for i := 0 to |locks|
        invariant Valid() && held == old(held) - multiset(locks[..i])
      {
        UnlockOne(locks[i]);
        assert locks[..i + 1] == locks[..i] + [locks[i]];
        MinusTwice(old(held), multiset(locks[..i]), multiset{locks[i]});
      }
      assert locks[..|locks|] == locks;
    }

    method LockIf(result: LockResult, tx: Tx)
      requires Valid()
      modifies this`writeLocks, this`readonlyLocks, this`held
      ensures Valid() && held == old(held) + LocksIf(result, tx)
    {
      if result == Ok {
        LockAll(tx.locks);
      }
    }

    method UnlockIf(result: LockResult, tx: Tx)
      requires Valid()
      modifies this`writeLocks, this`readonlyLocks, this`held
      ensures Valid() && held == old(held) - LocksIf(result, tx)
    {
      if result == Ok {
        UnlockAll(tx.locks);
      }
    }

    /** Check, then lock: the sequential path for one transaction. */
    method TryLockAccounts(tx: Tx, valid: LockResult) returns (result: LockResult)
      requires Valid()
      modifies this`writeLocks, this`readonlyLocks, this`held
      ensures Valid() && result == Decide(old(held), tx, valid)
      ensures held == old(held) + LocksIf(result, tx)
    {
      result := valid;
      if result == Ok {
        var ok := CanLockAccounts(tx.locks);
        if !ok {
          result := Err(AccountInUse);
        }
      }
      LockIf(result, tx);
    }

    /** Decide every transaction against the same table. */
    method DecideBatch(txs: seq<Tx>, valid: seq<LockResult>) returns (results: seq<LockResult>)
      requires Valid() && |txs| == |valid|
      ensures IsBatch(held, txs, valid, results)
    {
      results := [];
      for i := 0 to |txs|
        invariant |results| == i
        invariant forall j :: 0 <= j < i ==> results[j] == Decide(held, txs[j], valid[j])
      {
        var result := valid[i];
        if result == Ok {
          var ok := CanLockAccounts(txs[i].locks);
          if !ok {
            result := Err(AccountInUse);
          }
        }
        results := results + [result];
      }
      assert forall j :: 0 <= j < |txs| ==> BatchAt(held, txs, valid, results, j);
    }

    /** First decide every transaction against the same table, then lock the granted ones. */
    method TryLockTransactionBatch(txs: seq<Tx>, valid: seq<LockResult>) returns (results: seq<LockResult>)
      requires Valid() && |txs| == |valid|
      modifies this`writeLocks, this`readonlyLocks, this`held
      ensures Valid() && IsBatch(old(held), txs, valid, results)
      ensures held == old(held) + Granted(txs, results, |txs|)
    {
      results := DecideBatch(txs, valid);
      for i := 0 to |txs|
        invariant Valid() && held == old(held) + Granted(txs, results, i)
      {
        LockIf(results[i], txs[i]);
        PlusTwice(old(held), Granted(txs, results, i), LocksIf(results[i], txs[i]));
      }
    }

    /** The sequential path for a whole batch. */
    method TryLockInOrder(txs: seq<Tx>, valid: seq<LockResult>) returns (results: seq<LockResult>)
      requires Valid() && |txs| == |valid|
      modifies this`writeLocks, this`readonlyLocks, this`held
      ensures Valid() && IsSequential(old(held), txs, valid, results)
      ensures held == old(held) + Granted(txs, results, |txs|)
    {
      results := [];
      for i := 0 to |txs|
        invariant Valid() && |results| == i
        invariant held == old(held) + Granted(txs, results, i)
        invariant forall j :: 0 <= j < i ==> SequentialAt(old(held), txs, valid, results, j)
      {
        var result := TryLockAccounts(txs[i], valid[i]);
        PlusTwice(old(held), Granted(txs, results, i), LocksIf(result, txs[i]));
        GrantedExtends(txs, results, result);
        SequentialExtends(old(held), txs, valid, results, result);
        results := results + [result];
      }
    }

    /** The first key that occurs twice decides; both search orders give the same answer. */
    method HasDuplicates(locks: seq<Lock>) returns (duplicates: bool)
      requires seenKeys == {}
      modifies this`seenKeys
      ensures duplicates <==> !Distinct(locks)
      ensures seenKeys == {}
    {
      if |locks| >= 32 {
        for i := 0 to |locks|
          invariant seenKeys == set j | 0 <= j < i :: locks[j].key
          invariant Distinct(locks[..i])
        {
          if locks[i].key in seenKeys {
            seenKeys := {};
            return true;
          }
          seenKeys := seenKeys + {locks[i].key};
        }
        assert locks[..|locks|] == locks;
        seenKeys := {};
      } else {
        for i := 0 to |locks|
          invariant forall a, b :: 0 <= a < i && a < b < |locks| ==> locks[a].key != locks[b].key
        {
          for j := i + 1 to |locks|
            invariant forall b :: i < b < j ==> locks[i].key != locks[b].key
          {
            if locks[i].key == locks[j].key {
              return true;
            }
          }
        }
      }
      duplicates := false;
    }

    method ValidateAccountLocks(tx: Tx, prior: LockResult, limit: nat) returns (result: LockResult)
      requires seenKeys == {}
      modifies this`seenKeys
      ensures result == Validated(tx, prior, limit) && seenKeys == {}
      ensures prior != Ok ==> result == prior
      ensures prior == Ok && |tx.locks| > limit ==> result == Err(TooManyAccountLocks)
      ensures prior == Ok && |tx.locks| <= limit ==>
        result == if Distinct(tx.locks) then Ok else Err(AccountLoadedTwice)
    {
      if prior.Err? {
        return prior;
      }
      if |tx.locks| > limit {
        return Err(TooManyAccountLocks);
      }
      var duplicates := HasDuplicates(tx.locks);
      result := if duplicates then Err(AccountLoadedTwice) else Ok;
    }

    method ValidateBatch(txs: seq<Tx>, priors: seq<LockResult>, limit: nat) returns (valid: seq<LockResult>)
      requires seenKeys == {} && |txs| == |priors|
      modifies this`seenKeys
      ensures seenKeys == {} && valid == ValidatedAll(txs, priors, limit)
    {
      valid := [];
      for i := 0 to |txs|
        invariant seenKeys == {} && |valid| == i
        invariant forall j :: 0 <= j < i ==> valid[j] == Validated(txs[j], priors[j], limit)
      {
        var result := ValidateAccountLocks(txs[i], priors[i], limit);
        valid := valid + [result];
      }
    }

    /** `Accounts::lock_accounts`: validate every transaction, then lock by one of the two paths.
        Transactions without a prior result are left out, and so are surplus prior results. */
    method LockAccounts(txs: seq<Tx>, priors: seq<LockResult>, limit: nat, relax: bool)
      returns (batch: seq<Tx>, results: seq<LockResult>)
      requires Valid()
      modifies this
      ensures Valid() && |results| == |batch| == (if |txs| <= |priors| then |txs| else |priors|) && batch <= txs
      ensures Decided(old(held), batch, ValidatedAll(batch, priors[..|batch|], limit), results, relax)
      ensures held == old(held) + Granted(batch, results, |batch|)
    {
      var n := if |txs| <= |priors| then |txs| else |priors|;
      batch := txs[..n];
      var valid := ValidateBatch(batch, priors[..n], limit);
      if relax {
        results := TryLockTransactionBatch(batch, valid);
      } else {
        results := TryLockInOrder(batch, valid);
      }
    }

    /** `Accounts::unlock_accounts`: release the transactions whose result is Ok. */
    method UnlockAccounts(txs: seq<Tx>, results: seq<LockResult>)
      requires Valid() && |txs| == |results|
      modifies this`writeLocks, this`readonlyLocks, this`held
      ensures Valid() && held == old(held) - Granted(txs, results, |txs|)
    {
      for i := 0 to |txs|
        invariant Valid() && held == Released(old(held), txs, results, i)
      {
        UnlockIf(results[i], txs[i]);
      }
      ReleasedIsMinus(old(held), txs, results, |txs|);
    }

    /** Unlocking exactly what a call granted restores both tables. */
    method LockThenUnlock(txs: seq<Tx>, priors: seq<LockResult>, limit: nat, relax: bool)
      requires Valid()
      modifies this
      ensures Valid() && held == old(held)
      ensures writeLocks == old(writeLocks) && readonlyLocks == old(readonlyLocks)
    {
      var batch, results := LockAccounts(txs, priors, limit, relax);
      UnlockAccounts(batch, results);
      assert held == old(held);
      TableIsDetermined(writeLocks, old(writeLocks), held, true);
      TableIsDetermined(readonlyLocks, old(readonlyLocks), held, false);
    }
  }

  /** What is left after releasing the first `n` transactions one by one. */
  ghost function Released(held: multiset<Lock>, txs: seq<Tx>, results: seq<LockResult>, n: nat): multiset<Lock>
    requires n <= |txs| == |results|
  {
    if n == 0 then held else Released(held, txs, results, n - 1) - LocksIf(results[n - 1], txs[n - 1])
  }

  lemma {:induction false} ReleasedIsMinus(held: multiset<Lock>, txs: seq<Tx>, results: seq<LockResult>, n: nat)
    requires n <= |txs| == |results|
    ensures Released(held, txs, results, n) == held - Granted(txs, results, n)
    decreases n
  {
    if n > 0 {
      ReleasedIsMinus(held, txs, results, n - 1);
      MinusTwice(held, Granted(txs, results, n - 1), LocksIf(results[n - 1], txs[n - 1]));
    }
  }

  lemma {:induction false} GrantedPrefix(txs: seq<Tx>, results: seq<LockResult>, results': seq<LockResult>, n: nat)
    requires n <= |txs| && n <= |results| && results <= results'
    ensures Granted(txs, results, n) == Granted(txs, results', n)
    decreases n
  {
    if n > 0 {
      GrantedPrefix(txs, results, results', n - 1);
    }
  }

  lemma {:induction false} GrantedExtends(txs: seq<Tx>, results: seq<LockResult>, result: LockResult)
    requires |results| < |txs|
    ensures var n, all := |results|, results + [result];
      Granted(txs, all, n + 1) == Granted(txs, results, n) + LocksIf(result, txs[n])
  {
    GrantedPrefix(txs, results, results + [result], |results|);
  }

  /** Decisions taken before stand. */
  lemma {:induction false} SequentialStands(held: multiset<Lock>, txs: seq<Tx>, valid: seq<LockResult>,
                                            results: seq<LockResult>, all: seq<LockResult>, i: nat)
    requires i < |results| <= |txs| == |valid| && results <= all && SequentialAt(held, txs, valid, results, i)
    ensures SequentialAt(held, txs, valid, all, i)
  {
    GrantedPrefix(txs, results, all, i);
  }

  /** One more decision in order. */
  lemma {:induction false} SequentialExtends(held: multiset<Lock>, txs: seq<Tx>, valid: seq<LockResult>,
                                             results: seq<LockResult>, result: LockResult)
    requires |results| < |txs| == |valid|
    requires forall i :: 0 <= i < |results| ==> SequentialAt(held, txs, valid, results, i)
    requires var n := |results|; result == Decide(held + Granted(txs, results, n), txs[n], valid[n])
    ensures var all := results + [result];
      forall i :: 0 <= i < |all| ==> SequentialAt(held, txs, valid, all, i)
  {
    var n, all := |results|, results + [result];
    GrantedPrefix(txs, results, all, n);
    assert SequentialAt(held, txs, valid, all, n);
    forall i | 0 <= i < n ensures SequentialAt(held, txs, valid, all, i) {
      assert SequentialAt(held, txs, valid, results, i);
      SequentialStands(held, txs, valid, results, all, i);
    }
  }
}
