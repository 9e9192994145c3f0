/** `Accounts` with its lock table. Every call on the table is a step of the run that the rules of
    locking speak of, so what they promise holds of the table itself. */
module Accounts {
  import opened LockRules
  import Table = AccountLocks

  lemma {:induction false} HeldAfterCall(s: State, txs: seq<Tx>, results: seq<LockResult>, relaxed: bool)
    requires |txs| == |results|
    ensures HeldBy(After(s, txs, results, relaxed, |txs|).grants) == HeldBy(s.grants) + Granted(txs, results, |txs|)
  {
    HeldByJoin(s.grants, NewGrants(txs, results, s.nextCall, relaxed, |txs|));
    NewGrantsHold(txs, results, s.nextCall, relaxed, |txs|);
  }

  /** The grants without one of them. */
  ghost function Without(grants: seq<Grant>, index: nat): seq<Grant>
    requires index < |grants|
  {
    grants[..index] + grants[index + 1..]
  }

  lemma {:induction false} HeldBySnoc(grants: seq<Grant>, g: Grant)
    ensures HeldBy(grants + [g]) == HeldBy(grants) + multiset(g.locks)
  {
    assert (grants + [g])[..|grants|] == grants;
  }

  lemma {:induction false} PlusSwaps(a: multiset<Lock>, b: multiset<Lock>, c: multiset<Lock>)
    ensures a + b + c == a + c + b
  {
  }

  lemma {:induction false} HeldOneMore(front: seq<Grant>, rest: seq<Grant>, last: Grant, released: multiset<Lock>)
    requires HeldBy(rest) + released == HeldBy(front)
    ensures HeldBy(rest + [last]) + released == HeldBy(front + [last])
  {
    HeldBySnoc(front, last);
    HeldBySnoc(rest, last);
    PlusSwaps(HeldBy(rest), multiset(last.locks), released);
  }

  lemma {:induction false} WithoutLast(front: seq<Grant>, last: Grant, index: nat)
    requires index <= |front|
    ensures Without(front + [last], index) == if index == |front| then front else Without(front, index) + [last]
  {
  }

  lemma {:induction false} HeldWithout(grants: seq<Grant>, index: nat)
    requires index < |grants|
    ensures HeldBy(Without(grants, index)) + multiset(grants[index].locks) == HeldBy(grants)
    decreases |grants|
  {
    var n := |grants| - 1;
    var front, last := grants[..n], grants[n];
    assert grants == front + [last];
    WithoutLast(front, last, index);
    if index == n {
      HeldBySnoc(front, last);
    } else {
      HeldWithout(front, index);
      HeldOneMore(front, Without(front, index), last, multiset(front[index].locks));
    }
  }

  lemma {:induction false} RunGrows(states: seq<State>, steps: seq<Step>, step: Step, s: State)
    requires Run(states, steps) && Follows(states[|steps|], step, s)
    ensures Run(states + [s], steps + [step])
  {
    var states', steps' := states + [s], steps + [step];
    forall i {:trigger steps'[i]} | 0 <= i < |steps'| ensures Follows(states'[i], steps'[i], states'[i + 1]) {
      assert i < |steps| ==> Follows(states[i], steps[i], states[i + 1]);
    }
  }

  /** The transactions to unlock are among the holders: `at` says which, each in the list left by those
      before it. */
  ghost predicate AreHolders(grants: seq<Grant>, txs: seq<Tx>, results: seq<LockResult>, at: seq<nat>)
    requires |txs| == |results| == |at|
  {
    txs == [] ||
    (if results[0] == Ok
     then at[0] < |grants| && grants[at[0]].locks == txs[0].locks
          && AreHolders(Without(grants, at[0]), txs[1..], results[1..], at[1..])
     else AreHolders(grants, txs[1..], results[1..], at[1..]))
  }

  /** The holders left after releasing those. */
  ghost function Remaining(grants: seq<Grant>, txs: seq<Tx>, results: seq<LockResult>, at: seq<nat>): seq<Grant>
    requires |txs| == |results| == |at| && AreHolders(grants, txs, results, at)
  {
    if txs == [] then grants
    else if results[0] == Ok then Remaining(Without(grants, at[0]), txs[1..], results[1..], at[1..])
    else Remaining(grants, txs[1..], results[1..], at[1..])
  }

  class Accounts {
    const table: Table.AccountLocks
    /** The run so far. */
    ghost var states: seq<State>
    ghost var steps: seq<Step>

    /** The table holds exactly the locks of the current grants. */
    ghost predicate Valid()
      reads this, table
    {
      table.Valid() && Run(states, steps) && table.held == HeldBy(states[|steps|].grants)
    }

    ghost function Now(): State
      requires Valid()
      reads this, table
    {
      states[|steps|]
    }

    constructor ()
      ensures Valid() && steps == [] && fresh(table)
    {
      table := new Table.AccountLocks();
      states, steps := [State([], 0)], [];
    }

    /** A call that locks is a step of the run. */
    method LockAccounts(txs: seq<Tx>, priors: seq<LockResult>, limit: nat, relax: bool)
      returns (batch: seq<Tx>, results: seq<LockResult>)
      requires Valid()
      modifies this, table
      ensures Valid() && |results| == |batch| == (if |txs| <= |priors| then |txs| else |priors|) && batch <= txs
      ensures steps == old(steps) + [LockCall(batch, priors[..|batch|], limit, relax, results)]
      ensures Now() == After(old(Now()), batch, results, relax, |batch|)
      ensures forall i :: 0 <= i < |batch| ==>
        (results[i] == Ok <==>
         && priors[i] == Ok && |batch[i].locks| <= limit && Distinct(batch[i].locks)
         && (forall g :: g in old(Now()).grants ==> !Conflict(g.locks, batch[i].locks))
         && (relax || forall j :: 0 <= j < i && results[j] == Ok ==> !Conflict(batch[j].locks, batch[i].locks)))
    {
      ghost var s := Now();
      batch, results := table.LockAccounts(txs, priors, limit, relax);
      forall i | 0 <= i < |batch|
        ensures results[i] == Ok <==>
          && priors[i] == Ok && |batch[i].locks| <= limit && Distinct(batch[i].locks)
          && (forall g :: g in s.grants ==> !Conflict(g.locks, batch[i].locks))
          && (relax || forall j :: 0 <= j < i && results[j] == Ok ==> !Conflict(batch[j].locks, batch[i].locks))
      {
        GrantedExactly(s, batch, ValidatedAll(batch, priors[..|batch|], limit), results, relax, i);
      }
      ghost var s' := After(s, batch, results, relax, |batch|);
      HeldAfterCall(s, batch, results, relax);
      RunGrows(states, steps, LockCall(batch, priors[..|batch|], limit, relax, results), s');
      states := states + [s'];
      steps := steps + [LockCall(batch, priors[..|batch|], limit, relax, results)];
    }

    /** So is the release of one holder. */
    method Unlock(tx: Tx, ghost index: nat)
      requires Valid() && index < |Now().grants| && Now().grants[index].locks == tx.locks
      modifies this, table
      ensures Valid() && steps == old(steps) + [Step.Unlock(index)]
      ensures Now() == State(Without(old(Now()).grants, index), old(Now()).nextCall)
    {
      ghost var s := Now();
      ghost var s' := s.(grants := Without(s.grants, index));
      table.UnlockAll(tx.locks);
      HeldWithout(s.grants, index);
      RunGrows(states, steps, Step.Unlock(index), s');
      states := states + [s'];
      steps := steps + [Step.Unlock(index)];
    }

    /** A call that unlocks releases its holders one after the other. */
    method UnlockAccounts(txs: seq<Tx>, results: seq<LockResult>, ghost at: seq<nat>)
      requires Valid() && |txs| == |results| == |at| && AreHolders(Now().grants, txs, results, at)
      modifies this, table
      ensures Valid() && old(steps) <= steps
      ensures Now() == State(Remaining(old(Now()).grants, txs, results, at), old(Now()).nextCall)
    {
      ghost var left := Remaining(Now().grants, txs, results, at);
      assert txs[0..] == txs && results[0..] == results && at[0..] == at;
      for i := 0 to |txs|
        invariant Valid() && AreHolders(Now().grants, txs[i..], results[i..], at[i..])
        invariant Remaining(Now().grants, txs[i..], results[i..], at[i..]) == left
        invariant old(steps) <= steps && Now().nextCall == old(Now()).nextCall
      {
        assert txs[i..][1..] == txs[i + 1..] && results[i..][1..] == results[i + 1..] && at[i..][1..] == at[i + 1..];
        if results[i] == Ok {
          Unlock(txs[i], at[i]);
        }
      }
    }

    /** At any time the holders of the table's locks do not conflict, and unless a relaxed batch holds
        locks, no account has two writers, or a writer and a reader. */
    lemma {:induction false} HoldersNeverConflict()
      requires Valid()
      ensures Inv(Now())
      ensures (forall i :: 0 <= i < |Now().grants| ==> !Now().grants[i].relaxed) ==> Exclusive(table.held)
    {
      var s := states[|steps|];
      GrantsNeverConflict(states, steps, |steps|);
      if forall i :: 0 <= i < |s.grants| ==> !s.grants[i].relaxed {
        StrictRunsAreExclusive(states, steps, |steps|);
      }
    }
  }
}
