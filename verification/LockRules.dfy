/** The rules of account locks: when a transaction may lock its accounts, what the sequential and
    the batch path grant, and what holds of all granted transactions in every run. */
module LockRules {
  type Key = nat

  /** One account of a transaction and whether it is writable. */
  datatype Lock = Lock(key: Key, writable: bool)

  datatype Tx = Tx(locks: seq<Lock>)

  datatype LockError = TooManyAccountLocks | AccountLoadedTwice | AccountInUse | Other(code: nat)

  datatype LockResult = Ok | Err(error: LockError)

  // ---------------------------------------------------------------------------------------
  // Decisions

  /** A held lock stands in the way of `l`: any lock of a writer, a write lock of a reader. */
  predicate Blocked(held: multiset<Lock>, l: Lock) {
    held[Lock(l.key, true)] > 0 || (l.writable && held[Lock(l.key, false)] > 0)
  }

  ghost predicate Free(held: multiset<Lock>, locks: seq<Lock>) {
    forall i :: 0 <= i < |locks| ==> !Blocked(held, locks[i])
  }

  ghost predicate Distinct(locks: seq<Lock>) {
    forall i, j :: 0 <= i < j < |locks| ==> locks[i].key != locks[j].key
  }

  /** What validation says before the table is looked at. */
  ghost function Validated(tx: Tx, prior: LockResult, limit: nat): LockResult {
    if prior.Err? then prior
    else if |tx.locks| > limit then Err(TooManyAccountLocks)
    else if !Distinct(tx.locks) then Err(AccountLoadedTwice)
    else Ok
  }

  ghost function Decide(held: multiset<Lock>, tx: Tx, valid: LockResult): LockResult {
    if valid.Err? then valid else if Free(held, tx.locks) then Ok else Err(AccountInUse)
  }

  /** The locks of the granted transactions among the first `n`. */
  ghost function Granted(txs: seq<Tx>, results: seq<LockResult>, n: nat): multiset<Lock>
    requires n <= |txs| && n <= |results|
  {
    if n == 0 then multiset{}
    else Granted(txs, results, n - 1) + LocksIf(results[n - 1], txs[n - 1])
  }

  ghost function LocksIf(result: LockResult, tx: Tx): multiset<Lock> {
    if result == Ok then multiset(tx.locks) else multiset{}
  }

  /** Each transaction is decided against the table with the earlier grants of the call in it. */
  ghost predicate SequentialAt(held: multiset<Lock>, txs: seq<Tx>, valid: seq<LockResult>, results: seq<LockResult>,
                               i: nat)
    requires i < |txs| == |valid| && i < |results|
  {
    results[i] == Decide(held + Granted(txs, results, i), txs[i], valid[i])
  }

  ghost predicate IsSequential(held: multiset<Lock>, txs: seq<Tx>, valid: seq<LockResult>, results: seq<LockResult>) {
    && |txs| == |valid| == |results|
    && forall i :: 0 <= i < |txs| ==> SequentialAt(held, txs, valid, results, i)
  }

  /** Each transaction is decided against the table as it was before the call. */
  ghost predicate BatchAt(held: multiset<Lock>, txs: seq<Tx>, valid: seq<LockResult>, results: seq<LockResult>, i: nat)
    requires i < |txs| == |valid| == |results|
  {
    results[i] == Decide(held, txs[i], valid[i])
  }

  ghost predicate IsBatch(held: multiset<Lock>, txs: seq<Tx>, valid: seq<LockResult>, results: seq<LockResult>) {
    && |txs| == |valid| == |results|
    && forall i :: 0 <= i < |txs| ==> BatchAt(held, txs, valid, results, i)
  }

  /** The batch path grants every transaction the sequential path grants. */
  lemma {:induction false} BatchGrantsMore(held: multiset<Lock>, txs: seq<Tx>, valid: seq<LockResult>,
                                           sequential: seq<LockResult>, batch: seq<LockResult>)
    requires IsSequential(held, txs, valid, sequential) && IsBatch(held, txs, valid, batch)
    ensures forall i :: 0 <= i < |txs| && sequential[i] == Ok ==> batch[i] == Ok
  {
    forall i | 0 <= i < |txs| && sequential[i] == Ok ensures batch[i] == Ok {
      assert SequentialAt(held, txs, valid, sequential, i) && BatchAt(held, txs, valid, batch, i);
      var more := held + Granted(txs, sequential, i);
      assert Free(more, txs[i].locks);
      assert forall l :: Blocked(held, l) ==> Blocked(more, l);
    }
  }

  /** The locks granted by a batch, transaction by transaction. */
  ghost function BatchLocks(held: multiset<Lock>, batch: seq<(Tx, LockResult)>): multiset<Lock> {
    if batch == [] then multiset{}
    else
      var n := |batch| - 1;
      BatchLocks(held, batch[..n]) + LocksIf(Decide(held, batch[n].0, batch[n].1), batch[n].0)
  }

  lemma {:induction false} BatchLocksJoin(held: multiset<Lock>, a: seq<(Tx, LockResult)>, b: seq<(Tx, LockResult)>)
    ensures BatchLocks(held, a + b) == BatchLocks(held, a) + BatchLocks(held, b)
    decreases |b|
  {
    if b == [] {
      assert a + b == a;
    } else {
      var n := |b| - 1;
      assert (a + b)[..|a + b| - 1] == a + b[..n];
      BatchLocksJoin(held, a, b[..n]);
    }
  }

  /** Moving one transaction of a batch to the end. */
  lemma {:induction false} BatchLocksMove(held: multiset<Lock>, a: seq<(Tx, LockResult)>, x: (Tx, LockResult),
                                          b: seq<(Tx, LockResult)>)
    ensures BatchLocks(held, a + [x] + b) == BatchLocks(held, a + b) + BatchLocks(held, [x])
  {
    BatchLocksJoin(held, a + [x], b);
    BatchLocksJoin(held, a, [x]);
    BatchLocksJoin(held, a, b);
  }

  lemma {:induction false} SplitAt<T>(s: seq<T>, x: T) returns (a: seq<T>, b: seq<T>)
    requires x in multiset(s)
    ensures s == a + [x] + b && multiset(a + b) == multiset(s) - multiset{x}
  {
    var i :| 0 <= i < |s| && s[i] == x;
    a, b := s[..i], s[i + 1..];
    assert s == a + [x] + b;
  }

  /** Permuting a batch permutes the decisions and grants the same locks in all. */
  lemma {:induction false} BatchOrderIrrelevant(held: multiset<Lock>, a: seq<(Tx, LockResult)>,
                                                b: seq<(Tx, LockResult)>)
    requires multiset(a) == multiset(b)
    ensures BatchLocks(held, a) == BatchLocks(held, b)
    decreases |a|
  {
    if a == [] {
      assert |multiset(b)| == 0;
    } else {
      var n := |a| - 1;
      var front, x := a[..n], a[n];
      assert a == front + [x];
      var c, d := SplitAt(b, x);
      assert multiset(front) == multiset(a) - multiset{x};
      BatchOrderIrrelevant(held, front, c + d);
      BatchLocksJoin(held, front, [x]);
      BatchLocksMove(held, c, x, d);
    }
  }

  ghost function Zip(txs: seq<Tx>, valid: seq<LockResult>, n: nat): seq<(Tx, LockResult)>
    requires n <= |txs| && n <= |valid|
  {
    seq(n, i requires 0 <= i < n => (txs[i], valid[i]))
  }

  lemma {:induction false} BatchGrants(held: multiset<Lock>, txs: seq<Tx>, valid: seq<LockResult>,
                                       results: seq<LockResult>, n: nat)
    requires IsBatch(held, txs, valid, results) && n <= |txs|
    ensures Granted(txs, results, n) == BatchLocks(held, Zip(txs, valid, n))
    decreases n
  {
    if n > 0 {
      BatchGrants(held, txs, valid, results, n - 1);
      assert Zip(txs, valid, n)[..n - 1] == Zip(txs, valid, n - 1);
      assert BatchAt(held, txs, valid, results, n - 1);
    }
  }

  /** Permuting a batch permutes the results and leaves the same table. */
  lemma {:induction false} BatchIsOrderFree(held: multiset<Lock>, txs: seq<Tx>, valid: seq<LockResult>,
                                            results: seq<LockResult>, txs': seq<Tx>, valid': seq<LockResult>,
                                            results': seq<LockResult>)
    requires IsBatch(held, txs, valid, results) && IsBatch(held, txs', valid', results')
    requires multiset(Zip(txs, valid, |txs|)) == multiset(Zip(txs', valid', |txs'|))
    ensures forall i, j :: 0 <= i < |txs| && 0 <= j < |txs'| && txs[i] == txs'[j] && valid[i] == valid'[j] ==>
              results[i] == results'[j]
    ensures Granted(txs, results, |txs|) == Granted(txs', results', |txs'|)
  {
    forall i, j | 0 <= i < |txs| && 0 <= j < |txs'| && txs[i] == txs'[j] && valid[i] == valid'[j]
      ensures results[i] == results'[j]
    {
      assert BatchAt(held, txs, valid, results, i) && BatchAt(held, txs', valid', results', j);
    }
    BatchGrants(held, txs, valid, results, |txs|);
    BatchGrants(held, txs', valid', results', |txs'|);
    BatchOrderIrrelevant(held, Zip(txs, valid, |txs|), Zip(txs', valid', |txs'|));
  }

  // ---------------------------------------------------------------------------------------
  // Runs

  /** A granted transaction: in which call, whether that call relaxed the locks within its batch. */
  datatype Grant = Grant(call: nat, relaxed: bool, locks: seq<Lock>)

  datatype State = State(grants: seq<Grant>, nextCall: nat)

  ghost function HeldBy(grants: seq<Grant>): multiset<Lock> {
    if grants == [] then multiset{}
    else HeldBy(grants[..|grants| - 1]) + multiset(grants[|grants| - 1].locks)
  }

  /** Two transactions touch the same account and one of them writes it. */
  ghost predicate Conflict(a: seq<Lock>, b: seq<Lock>) {
    exists i, j :: 0 <= i < |a| && 0 <= j < |b| && a[i].key == b[j].key && (a[i].writable || b[j].writable)
  }

  ghost function NewGrants(txs: seq<Tx>, results: seq<LockResult>, call: nat, relaxed: bool, n: nat): seq<Grant>
    requires n <= |txs| && n <= |results|
  {
    if n == 0 then []
    else NewGrants(txs, results, call, relaxed, n - 1) + NewGrant(txs[n - 1], results[n - 1], call, relaxed)
  }

  ghost function NewGrant(tx: Tx, result: LockResult, call: nat, relaxed: bool): seq<Grant> {
    if result == Ok then [Grant(call, relaxed, tx.locks)] else []
  }

  datatype Step =
    | LockCall(txs: seq<Tx>, priors: seq<LockResult>, limit: nat, relaxed: bool, results: seq<LockResult>)
    | Unlock(index: nat)

  ghost function ValidatedAll(txs: seq<Tx>, priors: seq<LockResult>, limit: nat): (r: seq<LockResult>)
    requires |txs| == |priors|
    ensures |r| == |txs|
  {
    seq(|txs|, i requires 0 <= i < |txs| => Validated(txs[i], priors[i], limit))
  }

  ghost predicate Follows(s: State, step: Step, s': State) {
    match step
    case LockCall(txs, priors, limit, relaxed, results) =>
      && |txs| == |priors| == |results|
      && Decided(HeldBy(s.grants), txs, ValidatedAll(txs, priors, limit), results, relaxed)
      && s' == After(s, txs, results, relaxed, |txs|)
    case Unlock(index) =>
      index < |s.grants| && s' == s.(grants := s.grants[..index] + s.grants[index + 1..])
  }

  ghost predicate Compatible(g: Grant, h: Grant) {
    (g.call != h.call || !g.relaxed || !h.relaxed) ==> !Conflict(g.locks, h.locks)
  }

  ghost predicate Inv(s: State) {
    && (forall i {:trigger Sound(s.grants[i], s.nextCall)} :: 0 <= i < |s.grants| ==> Sound(s.grants[i], s.nextCall))
    && (forall i, j {:trigger Compatible(s.grants[i], s.grants[j])} :: 0 <= i < j < |s.grants| ==>
          Compatible(s.grants[i], s.grants[j]))
  }

  ghost predicate Sound(g: Grant, nextCall: nat) {
    g.call < nextCall && Distinct(g.locks)
  }

  lemma {:induction false} HeldByHas(grants: seq<Grant>, i: nat, l: Lock)
    requires i < |grants| && l in grants[i].locks
    ensures HeldBy(grants)[l] > 0
    decreases |grants|
  {
    var n := |grants| - 1;
    if i < n {
      HeldByHas(grants[..n], i, l);
    } else {
      assert l in multiset(grants[n].locks);
    }
  }

  /** What may be locked beside the held locks conflicts with no holder. */
  lemma {:induction false} FreeMeansNoConflict(grants: seq<Grant>, i: nat, locks: seq<Lock>)
    requires i < |grants| && Free(HeldBy(grants), locks)
    ensures !Conflict(grants[i].locks, locks)
  {
    forall a, b | 0 <= a < |grants[i].locks| && 0 <= b < |locks| && grants[i].locks[a].key == locks[b].key
      ensures !grants[i].locks[a].writable && !locks[b].writable
    {
      HeldByHas(grants, i, grants[i].locks[a]);
      assert !Blocked(HeldBy(grants), locks[b]);
    }
  }

  /** A held lock is some holder's. */
  lemma {:induction false} HolderOf(grants: seq<Grant>, l: Lock) returns (i: nat)
    requires HeldBy(grants)[l] > 0
    ensures i < |grants| && l in grants[i].locks
    decreases |grants|
  {
    var n := |grants| - 1;
    if l in multiset(grants[n].locks) {
      i := n;
    } else {
      i := HolderOf(grants[..n], l);
    }
  }

  /** A lock that stands in the way is a conflict with its holder. */
  lemma {:induction false} BlockedIsConflict(grants: seq<Grant>, locks: seq<Lock>, b: nat, l: Lock)
    requires b < |locks| && HeldBy(grants)[l] > 0 && l.key == locks[b].key && (l.writable || locks[b].writable)
    ensures exists i :: 0 <= i < |grants| && Conflict(grants[i].locks, locks)
  {
    var i := HolderOf(grants, l);
    var a :| 0 <= a < |grants[i].locks| && grants[i].locks[a] == l;
    assert Conflict(grants[i].locks, locks);
  }

  /** What may not be locked beside the held locks conflicts with a holder. */
  lemma {:induction false} NotFreeMeansConflict(grants: seq<Grant>, locks: seq<Lock>)
    requires !Free(HeldBy(grants), locks)
    ensures exists i :: 0 <= i < |grants| && Conflict(grants[i].locks, locks)
  {
    var b :| 0 <= b < |locks| && Blocked(HeldBy(grants), locks[b]);
    var byWriter := HeldBy(grants)[Lock(locks[b].key, true)] > 0;
    BlockedIsConflict(grants, locks, b, Lock(locks[b].key, byWriter));
  }

  /** Locks are free exactly when they conflict with no holder. */
  lemma {:induction false} FreeExactly(grants: seq<Grant>, locks: seq<Lock>)
    ensures Free(HeldBy(grants), locks) <==> forall i :: 0 <= i < |grants| ==> !Conflict(grants[i].locks, locks)
  {
    if Free(HeldBy(grants), locks) {
      forall i | 0 <= i < |grants| ensures !Conflict(grants[i].locks, locks) {
        FreeMeansNoConflict(grants, i, locks);
      }
    } else {
      NotFreeMeansConflict(grants, locks);
    }
  }

  lemma {:induction false} HeldByJoin(a: seq<Grant>, b: seq<Grant>)
    ensures HeldBy(a + b) == HeldBy(a) + HeldBy(b)
    decreases |b|
  {
    if b == [] {
      assert a + b == a;
    } else {
      var n := |b| - 1;
      assert (a + b)[..|a + b| - 1] == a + b[..n];
      HeldByJoin(a, b[..n]);
    }
  }

  lemma {:induction false} NewGrantsHold(txs: seq<Tx>, results: seq<LockResult>, call: nat, relaxed: bool, n: nat)
    requires n <= |txs| && n <= |results|
    ensures HeldBy(NewGrants(txs, results, call, relaxed, n)) == Granted(txs, results, n)
    decreases n
  {
    if n > 0 {
      NewGrantsHold(txs, results, call, relaxed, n - 1);
      var before := NewGrants(txs, results, call, relaxed, n - 1);
      var one := NewGrant(txs[n - 1], results[n - 1], call, relaxed);
      HeldByOne(txs[n - 1], results[n - 1], call, relaxed);
      HeldByJoin(before, one);
      assert HeldBy(before + one) == Granted(txs, results, n - 1) + LocksIf(results[n - 1], txs[n - 1]);
    }
  }

  lemma {:induction false} HeldByOne(tx: Tx, result: LockResult, call: nat, relaxed: bool)
    ensures HeldBy(NewGrant(tx, result, call, relaxed)) == LocksIf(result, tx)
  {
    if result == Ok {
      var one := NewGrant(tx, result, call, relaxed);
      assert one[..0] == [];
    }
  }

  /** One more grant, whose locks were free beside `before`, keeps all grants compatible with it;
      `added` are other grants of the same relaxed call. */
  lemma {:induction false} GrantKeepsInv(before: seq<Grant>, added: seq<Grant>, nextCall: nat, g: Grant)
    requires Inv(State(before + added, nextCall)) && g.call < nextCall && Distinct(g.locks)
    requires Free(HeldBy(before), g.locks)
    requires FromCall(added, g.call, g.relaxed) && (added == [] || g.relaxed)
    ensures Inv(State(before + added + [g], nextCall))
  {
    var s := State(before + added, nextCall);
    var all := before + added + [g];
    forall i, j | 0 <= i < j < |all| ensures Compatible(all[i], all[j]) {
      if j == |s.grants| {
        if i < |before| {
          FreeMeansNoConflict(before, i, g.locks);
        } else {
          assert all[i] == added[i - |before|];
        }
      } else {
        assert Compatible(s.grants[i], s.grants[j]);
      }
    }
    forall i | 0 <= i < |all| ensures Sound(all[i], nextCall) {
      assert i < |s.grants| ==> Sound(s.grants[i], nextCall);
    }
  }

  /** The state after the first `n` transactions of a call. */
  ghost function After(s: State, txs: seq<Tx>, results: seq<LockResult>, relaxed: bool, n: nat): State
    requires n <= |txs| == |results|
  {
    State(s.grants + NewGrants(txs, results, s.nextCall, relaxed, n), s.nextCall + 1)
  }

  ghost predicate Decided(held: multiset<Lock>, txs: seq<Tx>, valid: seq<LockResult>, results: seq<LockResult>,
                          relaxed: bool) {
    if relaxed then IsBatch(held, txs, valid, results) else IsSequential(held, txs, valid, results)
  }

  ghost predicate FromCall(grants: seq<Grant>, call: nat, relaxed: bool) {
    forall i :: 0 <= i < |grants| ==> grants[i].call == call && grants[i].relaxed == relaxed
  }

  lemma {:induction false} NewGrantsFromCall(txs: seq<Tx>, results: seq<LockResult>, call: nat, relaxed: bool, n: nat)
    requires n <= |txs| && n <= |results|
    ensures FromCall(NewGrants(txs, results, call, relaxed, n), call, relaxed)
    decreases n
  {
    if n > 0 {
      NewGrantsFromCall(txs, results, call, relaxed, n - 1);
    }
  }

  lemma {:induction false} GrantedWasFree(s: State, txs: seq<Tx>, valid: seq<LockResult>, results: seq<LockResult>,
                                          relaxed: bool, n: nat)
    requires n < |txs| == |valid| == |results| && results[n] == Ok
    requires Decided(HeldBy(s.grants), txs, valid, results, relaxed)
    ensures valid[n] == Ok
    ensures Free(HeldBy(if relaxed then s.grants else After(s, txs, results, relaxed, n).grants), txs[n].locks)
  {
    if relaxed {
      assert BatchAt(HeldBy(s.grants), txs, valid, results, n);
    } else {
      assert SequentialAt(HeldBy(s.grants), txs, valid, results, n);
      HeldByJoin(s.grants, NewGrants(txs, results, s.nextCall, relaxed, n));
      NewGrantsHold(txs, results, s.nextCall, relaxed, n);
    }
  }

  /** The new grants of a call are those of its granted transactions. */
  lemma {:induction false} NewGrantsConflict(txs: seq<Tx>, results: seq<LockResult>, call: nat, relaxed: bool, n: nat,
                                             locks: seq<Lock>)
    requires n <= |txs| && n <= |results|
    ensures (forall g :: g in NewGrants(txs, results, call, relaxed, n) ==> !Conflict(g.locks, locks)) <==>
            (forall j :: 0 <= j < n && results[j] == Ok ==> !Conflict(txs[j].locks, locks))
    decreases n
  {
    if n > 0 {
      NewGrantsConflict(txs, results, call, relaxed, n - 1, locks);
      var before, one := NewGrants(txs, results, call, relaxed, n - 1),
                         NewGrant(txs[n - 1], results[n - 1], call, relaxed);
      assert forall g :: g in before + one <==> g in before || g in one;
      assert results[n - 1] == Ok ==> Grant(call, relaxed, txs[n - 1].locks) in one;
    }
  }

  lemma {:induction false} FreeBeside(grants: seq<Grant>, added: seq<Grant>, locks: seq<Lock>)
    ensures Free(HeldBy(grants + added), locks) <==>
            && (forall g :: g in grants ==> !Conflict(g.locks, locks))
            && (forall g :: g in added ==> !Conflict(g.locks, locks))
  {
    var all := grants + added;
    FreeExactly(all, locks);
    assert (forall i :: 0 <= i < |all| ==> !Conflict(all[i].locks, locks)) <==>
           (forall g :: g in all ==> !Conflict(g.locks, locks));
    assert forall g :: g in all <==> g in grants || g in added;
  }

  /** Who is granted: exactly the validated transactions that conflict with no holder. In sequence the
      holders include the earlier transactions granted by the same call; in a batch they do not. */
  lemma {:induction false} GrantedExactly(s: State, txs: seq<Tx>, valid: seq<LockResult>, results: seq<LockResult>,
                                          relaxed: bool, n: nat)
    requires n < |txs| == |valid| == |results|
    requires Decided(HeldBy(s.grants), txs, valid, results, relaxed)
    ensures results[n] == Ok <==>
      && valid[n] == Ok
      && (forall g :: g in s.grants ==> !Conflict(g.locks, txs[n].locks))
      && (relaxed || forall j :: 0 <= j < n && results[j] == Ok ==> !Conflict(txs[j].locks, txs[n].locks))
    ensures valid[n] != Ok ==> results[n] == valid[n]
    ensures valid[n] == Ok && results[n] != Ok ==> results[n] == Err(AccountInUse)
  {
    if relaxed {
      assert BatchAt(HeldBy(s.grants), txs, valid, results, n);
      FreeBeside(s.grants, [], txs[n].locks);
      assert s.grants + [] == s.grants;
    } else {
      var added := NewGrants(txs, results, s.nextCall, relaxed, n);
      assert SequentialAt(HeldBy(s.grants), txs, valid, results, n);
      HeldByJoin(s.grants, added);
      NewGrantsHold(txs, results, s.nextCall, relaxed, n);
      FreeBeside(s.grants, added, txs[n].locks);
      NewGrantsConflict(txs, results, s.nextCall, relaxed, n, txs[n].locks);
    }
  }

  lemma {:induction false} AfterGrant(s: State, txs: seq<Tx>, results: seq<LockResult>, relaxed: bool, n: nat)
    requires n < |txs| == |results| && results[n] == Ok
    ensures After(s, txs, results, relaxed, n + 1)
         == State(After(s, txs, results, relaxed, n).grants + [Grant(s.nextCall, relaxed, txs[n].locks)],
                  s.nextCall + 1)
  {
    var added := NewGrants(txs, results, s.nextCall, relaxed, n);
    var g := Grant(s.nextCall, relaxed, txs[n].locks);
    assert s.grants + added + [g] == s.grants + (added + [g]);
  }

  /** The next transaction of the call is granted. */
  lemma {:induction false} NextGrantKeepsInv(s: State, txs: seq<Tx>, results: seq<LockResult>, relaxed: bool, n: nat)
    requires n < |txs| == |results| && results[n] == Ok && Distinct(txs[n].locks)
    requires Free(HeldBy(if relaxed then s.grants else After(s, txs, results, relaxed, n).grants), txs[n].locks)
    requires Inv(After(s, txs, results, relaxed, n))
    ensures Inv(After(s, txs, results, relaxed, n + 1))
  {
    var grants := After(s, txs, results, relaxed, n).grants;
    var g := Grant(s.nextCall, relaxed, txs[n].locks);
    AfterGrant(s, txs, results, relaxed, n);
    if relaxed {
      var added := NewGrants(txs, results, s.nextCall, relaxed, n);
      NewGrantsFromCall(txs, results, s.nextCall, relaxed, n);
      GrantKeepsInv(s.grants, added, s.nextCall + 1, g);
    } else {
      assert grants + [] == grants;
      GrantKeepsInv(grants, [], s.nextCall + 1, g);
    }
  }

  lemma {:induction false} NoGrantSameState(s: State, txs: seq<Tx>, results: seq<LockResult>, relaxed: bool, n: nat)
    requires n < |txs| == |results| && results[n] != Ok
    ensures After(s, txs, results, relaxed, n + 1) == After(s, txs, results, relaxed, n)
  {
    var added := NewGrants(txs, results, s.nextCall, relaxed, n);
    assert added + [] == added;
  }

  lemma {:induction false} NewCallKeepsInv(s: State)
    requires Inv(s)
    ensures Inv(s.(nextCall := s.nextCall + 1))
  {
    forall i | 0 <= i < |s.grants| ensures Sound(s.grants[i], s.nextCall + 1) {
      assert Sound(s.grants[i], s.nextCall);
    }
  }

  lemma {:induction false} CallStepKeepsInv(s: State, txs: seq<Tx>, valid: seq<LockResult>, results: seq<LockResult>,
                                            relaxed: bool, n: nat)
    requires n < |txs| == |valid| == |results| && (valid[n] == Ok ==> Distinct(txs[n].locks))
    requires Decided(HeldBy(s.grants), txs, valid, results, relaxed)
    requires Inv(After(s, txs, results, relaxed, n))
    ensures Inv(After(s, txs, results, relaxed, n + 1))
  {
    if results[n] == Ok {
      GrantedWasFree(s, txs, valid, results, relaxed, n);
      NextGrantKeepsInv(s, txs, results, relaxed, n);
    } else {
      NoGrantSameState(s, txs, results, relaxed, n);
    }
  }

  /** The grants of one call, one at a time. */
  lemma {:induction false} LockCallKeepsInv(s: State, txs: seq<Tx>, valid: seq<LockResult>, results: seq<LockResult>,
                                            relaxed: bool, n: nat)
    requires Inv(s) && n <= |txs| == |valid| == |results|
    requires Decided(HeldBy(s.grants), txs, valid, results, relaxed)
    requires forall i :: 0 <= i < |txs| && valid[i] == Ok ==> Distinct(txs[i].locks)
    ensures Inv(After(s, txs, results, relaxed, n))
    decreases n
  {
    if n == 0 {
      NewCallKeepsInv(s);
      assert s.grants + [] == s.grants;
    } else {
      LockCallKeepsInv(s, txs, valid, results, relaxed, n - 1);
      CallStepKeepsInv(s, txs, valid, results, relaxed, n - 1);
    }
  }

  lemma {:induction false} UnlockKeepsInv(s: State, index: nat)
    requires Inv(s) && index < |s.grants|
    ensures Inv(s.(grants := s.grants[..index] + s.grants[index + 1..]))
  {
    var rest := s.grants[..index] + s.grants[index + 1..];
    forall i, j | 0 <= i < j < |rest| ensures Compatible(rest[i], rest[j]) {
      var p, q := if i < index then i else i + 1, if j < index then j else j + 1;
      assert rest[i] == s.grants[p] && rest[j] == s.grants[q];
      assert Compatible(s.grants[p], s.grants[q]);
    }
    forall i | 0 <= i < |rest| ensures Sound(rest[i], s.nextCall) {
      assert rest[i] == s.grants[if i < index then i else i + 1];
      assert Sound(s.grants[if i < index then i else i + 1], s.nextCall);
    }
  }

  lemma {:induction false} StepKeepsInv(s: State, step: Step, s': State)
    requires Inv(s) && Follows(s, step, s')
    ensures Inv(s')
  {
    match step
    case LockCall(txs, priors, limit, relaxed, results) =>
      LockCallKeepsInv(s, txs, ValidatedAll(txs, priors, limit), results, relaxed, |txs|);
    case Unlock(index) => UnlockKeepsInv(s, index);
  }

  ghost predicate Run(states: seq<State>, steps: seq<Step>) {
    && |states| == |steps| + 1
    && states[0].grants == []
    && forall i {:trigger steps[i]} :: 0 <= i < |steps| ==> Follows(states[i], steps[i], states[i + 1])
  }

  /** In every run, mixing both kinds of calls: transactions granted by different calls never share
      an account that one of them writes, and neither do transactions granted by one call that
      does not relax its batch. */
  lemma {:induction false} GrantsNeverConflict(states: seq<State>, steps: seq<Step>, n: nat)
    requires Run(states, steps) && n < |states|
    ensures Inv(states[n])
    decreases n
  {
    if n > 0 {
      GrantsNeverConflict(states, steps, n - 1);
      StepKeepsInv(states[n - 1], steps[n - 1], states[n]);
    }
  }

  /** No account is written by two holders, or written by one and read by another. */
  ghost predicate Exclusive(held: multiset<Lock>) {
    forall k :: held[Lock(k, true)] <= 1 && (held[Lock(k, true)] == 0 || held[Lock(k, false)] == 0)
  }

  lemma {:induction false} DistinctCounts(locks: seq<Lock>, k: Key)
    requires Distinct(locks)
    ensures multiset(locks)[Lock(k, true)] + multiset(locks)[Lock(k, false)] <= 1
    decreases |locks|
  {
    if locks != [] {
      var n := |locks| - 1;
      DistinctCounts(locks[..n], k);
      assert locks == locks[..n] + [locks[n]];
      if locks[n].key == k {
        assert forall l :: l in locks[..n] ==> l.key != k;
        assert Lock(k, true) !in multiset(locks[..n]) && Lock(k, false) !in multiset(locks[..n]);
      }
    }
  }

  /** A conflict-free holder next to `locks` adds nothing on the accounts `locks` writes, and no
      write on those it reads. */
  lemma {:induction false} OthersStayAway(grants: seq<Grant>, locks: seq<Lock>, l: Lock)
    requires l in locks && forall i :: 0 <= i < |grants| ==> !Conflict(grants[i].locks, locks)
    ensures HeldBy(grants)[Lock(l.key, true)] == 0
    ensures l.writable ==> HeldBy(grants)[Lock(l.key, false)] == 0
    decreases |grants|
  {
    if grants != [] {
      var n := |grants| - 1;
      OthersStayAway(grants[..n], locks, l);
      var other := grants[n].locks;
      assert !Conflict(other, locks);
      var j :| 0 <= j < |locks| && locks[j] == l;
      assert forall i :: 0 <= i < |other| && other[i].key == l.key ==> !other[i].writable && !l.writable;
      assert Lock(l.key, true) !in multiset(other);
      assert l.writable ==> Lock(l.key, false) !in multiset(other);
    }
  }

  lemma {:induction false} CompatibleIsExclusive(grants: seq<Grant>, k: Key)
    requires forall i :: 0 <= i < |grants| ==> Distinct(grants[i].locks)
    requires forall i, j :: 0 <= i < j < |grants| ==> !Conflict(grants[i].locks, grants[j].locks)
    ensures HeldBy(grants)[Lock(k, true)] <= 1
    ensures HeldBy(grants)[Lock(k, true)] == 0 || HeldBy(grants)[Lock(k, false)] == 0
    decreases |grants|
  {
    if grants != [] {
      var n := |grants| - 1;
      var last := grants[n].locks;
      CompatibleIsExclusive(grants[..n], k);
      DistinctCounts(last, k);
      if Lock(k, true) in last {
        OthersStayAway(grants[..n], last, Lock(k, true));
      } else if Lock(k, false) in last {
        OthersStayAway(grants[..n], last, Lock(k, false));
      }
    }
  }

  /** In runs that never relax, the table never shows two writers, or a writer and a reader. */
  lemma {:induction false} StrictRunsAreExclusive(states: seq<State>, steps: seq<Step>, n: nat)
    requires Run(states, steps) && n < |states|
    requires forall i :: 0 <= i < |states[n].grants| ==> !states[n].grants[i].relaxed
    ensures Exclusive(HeldBy(states[n].grants))
  {
    GrantsNeverConflict(states, steps, n);
    var grants := states[n].grants;
    forall i | 0 <= i < |grants| ensures Distinct(grants[i].locks) {
      assert Sound(grants[i], states[n].nextCall);
    }
    forall i, j | 0 <= i < j < |grants| ensures !Conflict(grants[i].locks, grants[j].locks) {
      assert Compatible(grants[i], grants[j]);
    }
    forall k ensures HeldBy(grants)[Lock(k, true)] <= 1
      && (HeldBy(grants)[Lock(k, true)] == 0 || HeldBy(grants)[Lock(k, false)] == 0)
    {
      CompatibleIsExclusive(grants, k);
    }
  }

  /** Without the duplicate check, one transaction alone could write-lock an account twice. */
  lemma {:induction false} DuplicatesWouldBreakIt(k: Key)
    ensures var locks := [Lock(k, true), Lock(k, true)];
      Free(multiset{}, locks) && !Distinct(locks) && !Exclusive(multiset(locks))
  {
    var locks := [Lock(k, true), Lock(k, true)];
    assert locks[0].key == locks[1].key;
    assert multiset(locks)[Lock(k, true)] == 2;
  }
}
