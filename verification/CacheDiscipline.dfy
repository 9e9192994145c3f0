/** When the write cache's counters never wrap around. The discipline is that no two threads write one
    account of one slot at the same time: a write waits until the updates of the one before it are made,
    which is what the account locks are for. Kept, it makes every counter count each account at its old
    or its new length; broken, the size can wrap around whenever it counts less than the second write
    takes away. */
module CacheDiscipline {
  import opened Wrappers
  import opened CacheProtocol

  /** A thread that has written its account and has updates left to make. */
  ghost predicate Busy(t: Task) {
    t.account.Some? && t.todo != []
  }

  /** No other thread has updates left to make for the account this one is about to write. */
  ghost predicate Alone(s: State, i: nat)
    requires i < |s.tasks|
  {
    forall j :: 0 <= j < |s.tasks| && j != i && Busy(s.tasks[j]) ==>
      s.tasks[j].cache != s.tasks[i].cache || s.tasks[j].account != s.tasks[i].account
  }

  ghost predicate Disciplined(s: State, step: Step) {
    step.Insert? && step.task < |s.tasks| ==> Alone(s, step.task)
  }

  ghost predicate DisciplinedRun(states: seq<State>, steps: seq<Step>)
    requires |states| == |steps| + 1
  {
    forall i {:trigger steps[i]} :: 0 <= i < |steps| ==> Disciplined(states[i], steps[i])
  }

  // ---------------------------------------------------------------------------------------
  // The invariant of disciplined runs

  /** What the updates that raise a counter come to. */
  ghost function Raises(todo: seq<Op>, kind: Kind, scope: Scope): nat {
    if todo == [] then 0
    else
      var share := Share(todo[0], kind, scope);
      (if share > 0 then share else 0) + Raises(todo[1..], kind, scope)
  }

  /** What an account of this length adds to a counter. */
  ghost function Weight(kind: Kind, len: nat): nat {
    if kind.Bytes? then len else 1
  }

  /** The updates left raise no counter by more than the account weighs now. */
  ghost predicate Fits(todo: seq<Op>, len: nat) {
    forall kind, scope :: Raises(todo, kind, scope) <= Weight(kind, len)
  }

  ghost predicate Lowers(todo: seq<Op>) {
    forall kind, scope :: Raises(todo, kind, scope) == 0
  }

  ghost predicate Tame(s: State, t: Task) {
    && (Busy(t) ==>
          && t.cache < |s.caches| && !s.caches[t.cache].dropped
          && t.account.value in s.caches[t.cache].accounts
          && Fits(t.todo, s.caches[t.cache].accounts[t.account.value]))
    && (t.account.None? ==> Lowers(t.todo))
  }

  ghost predicate Distinct(s: State, i: int, j: int)
    requires 0 <= i < |s.tasks| && 0 <= j < |s.tasks|
  {
    Busy(s.tasks[i]) && Busy(s.tasks[j]) && s.tasks[i].cache == s.tasks[j].cache ==>
      s.tasks[i].account != s.tasks[j].account
  }

  ghost predicate TameAll(s: State) {
    && (forall i :: 0 <= i < |s.tasks| ==> Tame(s, s.tasks[i]))
    && (forall i, j :: 0 <= i < j < |s.tasks| ==> Distinct(s, i, j))
  }

  lemma {:induction false} DueBelowRaises(todo: seq<Op>, kind: Kind, scope: Scope)
    ensures Due(todo, kind, scope) <= Raises(todo, kind, scope)
  {
    if todo != [] {
      DueBelowRaises(todo[1..], kind, scope);
    }
  }

  lemma {:induction false} RaisesTwo(a: Op, b: Op, kind: Kind, scope: Scope)
    ensures Raises([a, b], kind, scope) == Raises([a], kind, scope) + Raises([b], kind, scope)
  {
    assert [a, b][1..] == [b] && [a][1..] == [];
  }

  lemma {:induction false} RaisesJoin(a: seq<Op>, b: seq<Op>, kind: Kind, scope: Scope)
    ensures Raises(a + b, kind, scope) == Raises(a, kind, scope) + Raises(b, kind, scope)
  {
    if a == [] {
      assert a + b == b;
    } else {
      assert (a + b)[1..] == a[1..] + b;
      RaisesJoin(a[1..], b, kind, scope);
    }
  }

  lemma {:induction false} PairRaises(of: Kind, delta: int, kind: Kind, scope: Scope)
    ensures Raises([Op(of, Own, delta), Op(of, Total, delta)], kind, scope) ==
            if of == kind && delta > 0 then delta else 0
  {
    RaisesTwo(Op(of, Own, delta), Op(of, Total, delta), kind, scope);
  }

  /** A write's updates raise no counter by more than the account weighs after it. */
  lemma {:induction false} InsertFits(accounts: map<Pubkey, nat>, p: Pubkey, len: nat)
    ensures Fits(InsertOps(accounts, p, len), len)
  {
    forall kind, scope ensures Raises(InsertOps(accounts, p, len), kind, scope) <= Weight(kind, len) {
      if p in accounts {
        PairRaises(Bytes, len - accounts[p], kind, scope);
      } else {
        var bytes, counts :=
          [Op(Bytes, Own, len), Op(Bytes, Total, len)], [Op(Accounts, Own, 1), Op(Accounts, Total, 1)];
        assert InsertOps(accounts, p, len) == bytes + counts;
        RaisesJoin(bytes, counts, kind, scope);
        PairRaises(Bytes, len, kind, scope);
        PairRaises(Accounts, 1, kind, scope);
      }
    }
  }

  /** Dropping a cache whose counters are not negative raises no counter. */
  lemma {:induction false} DropLowers(counters: Counters)
    requires counters.bytes >= 0 && counters.accounts >= 0
    ensures Lowers(DropOps(counters))
  {
    forall kind, scope ensures Raises(DropOps(counters), kind, scope) == 0 {
      RaisesTwo(Op(Bytes, Total, -counters.bytes), Op(Accounts, Total, -counters.accounts), kind, scope);
    }
  }

  /** Making one of the updates leaves others that fit, or lower, as well. */
  lemma {:induction false} RestRaisesLess(todo: seq<Op>, len: nat)
    requires todo != []
    ensures Fits(todo, len) ==> Fits(todo[1..], len)
    ensures Lowers(todo) ==> Lowers(todo[1..])
  {
    forall kind, scope ensures Raises(todo[1..], kind, scope) <= Raises(todo, kind, scope) {
    }
  }

  // ---------------------------------------------------------------------------------------
  // Every disciplined step keeps it

  lemma {:induction false} InsertKeepsTame(s: State, i: nat)
    requires Inv(s) && TameAll(s) && Enabled(s, Insert(i)) && Alone(s, i)
    ensures TameAll(Apply(s, Insert(i)))
  {
    var s', t := Apply(s, Insert(i)), s.tasks[i];
    assert TaskOk(s, t);
    InsertFits(s.caches[t.cache].accounts, t.account.value, t.write.value);
    forall j | 0 <= j < |s'.tasks| ensures Tame(s', s'.tasks[j]) {
      assert Tame(s, s.tasks[j]);
    }
    forall j, k | 0 <= j < k < |s'.tasks| ensures Distinct(s', j, k) {
      assert Distinct(s, j, k);
    }
  }

  lemma {:induction false} UpdateKeepsTame(s: State, i: nat)
    requires TameAll(s) && Enabled(s, Update(i))
    ensures TameAll(Apply(s, Update(i)))
  {
    var s', t := Apply(s, Update(i)), s.tasks[i];
    assert Tame(s, t);
    RestRaisesLess(t.todo, if Busy(t) then s.caches[t.cache].accounts[t.account.value] else 0);
    forall j | 0 <= j < |s'.tasks| ensures Tame(s', s'.tasks[j]) {
      assert Tame(s, s.tasks[j]);
    }
    forall j, k | 0 <= j < k < |s'.tasks| ensures Distinct(s', j, k) {
      assert Distinct(s, j, k);
    }
  }

  lemma {:induction false} DropKeepsTame(s: State, c: nat)
    requires Inv(s) && TameAll(s) && Enabled(s, Drop(c))
    ensures TameAll(Apply(s, Drop(c)))
  {
    var s' := Apply(s, Drop(c));
    UnreferencedIsExact(s, Bytes, c);
    UnreferencedIsExact(s, Accounts, c);
    DropLowers(s.caches[c].counters);
    forall j | 0 <= j < |s'.tasks| ensures Tame(s', s'.tasks[j]) {
      assert j < |s.tasks| ==> Tame(s, s.tasks[j]);
    }
    forall j, k | 0 <= j < k < |s'.tasks| ensures Distinct(s', j, k) {
      assert k < |s.tasks| ==> Distinct(s, j, k);
    }
  }

  lemma {:induction false} AcquireKeepsTame(s: State, slot: Slot, pubkey: Pubkey, len: nat)
    requires Inv(s) && TameAll(s)
    ensures TameAll(Apply(s, Acquire(slot, pubkey, len)))
  {
    var s' := Apply(s, Acquire(slot, pubkey, len));
    forall j | 0 <= j < |s'.tasks| ensures Tame(s', s'.tasks[j]) {
      assert j < |s.tasks| ==> Tame(s, s.tasks[j]);
    }
    forall j, k | 0 <= j < k < |s'.tasks| ensures Distinct(s', j, k) {
      assert k < |s.tasks| ==> Distinct(s, j, k);
    }
  }

  lemma {:induction false} StepKeepsTame(s: State, step: Step)
    requires Inv(s) && TameAll(s) && Enabled(s, step) && Disciplined(s, step)
    ensures TameAll(Apply(s, step))
  {
    match step
    case Acquire(slot, pubkey, len) => AcquireKeepsTame(s, slot, pubkey, len);
    case Insert(i) => InsertKeepsTame(s, i);
    case Update(i) => UpdateKeepsTame(s, i);
    case Drop(c) => DropKeepsTame(s, c);
    case RemoveSlot(slot) =>
      var s' := Apply(s, step);
      forall j | 0 <= j < |s'.tasks| ensures Tame(s', s'.tasks[j]) {
        assert Tame(s, s.tasks[j]);
      }
      forall j, k | 0 <= j < k < |s'.tasks| ensures Distinct(s', j, k) {
        assert Distinct(s, j, k);
      }
  }

  lemma {:induction false} RunKeepsTame(states: seq<State>, steps: seq<Step>, n: nat)
    requires Run(states, steps) && DisciplinedRun(states, steps) && n < |states|
    ensures Inv(states[n]) && TameAll(states[n])
    decreases n
  {
    RunKeepsInv(states, steps, n);
    if n > 0 {
      RunKeepsTame(states, steps, n - 1);
      assert Follows(states[n - 1], steps[n - 1], states[n]) && Disciplined(states[n - 1], steps[n - 1]);
      StepKeepsTame(states[n - 1], steps[n - 1]);
    }
  }

  // ---------------------------------------------------------------------------------------
  // The updates to come never exceed what is stored

  /** What some of the accounts add to a counter. */
  ghost function MeasureOf(kind: Kind, accounts: map<Pubkey, nat>, keys: set<Pubkey>): nat
    requires keys <= accounts.Keys
  {
    if kind.Bytes? then TotalLength(accounts, keys) else |keys|
  }

  lemma {:induction false} MeasureOneMore(kind: Kind, accounts: map<Pubkey, nat>, keys: set<Pubkey>, p: Pubkey)
    requires keys <= accounts.Keys && p in accounts && p !in keys
    ensures MeasureOf(kind, accounts, keys + {p}) == MeasureOf(kind, accounts, keys) + Weight(kind, accounts[p])
  {
    LengthWithout(accounts, keys + {p}, p);
    assert keys + {p} - {p} == keys;
  }

  lemma {:induction false} MeasurePart(kind: Kind, accounts: map<Pubkey, nat>, keys: set<Pubkey>)
    requires keys <= accounts.Keys
    ensures MeasureOf(kind, accounts, keys) <= Measure(kind, accounts)
    decreases accounts.Keys - keys
  {
    if exists p :: p in accounts.Keys && p !in keys {
      var p :| p in accounts.Keys && p !in keys;
      MeasureOneMore(kind, accounts, keys, p);
      MeasurePart(kind, accounts, keys + {p});
    } else {
      assert keys == accounts.Keys;
    }
  }

  /** The accounts of a slot's cache that the first `n` threads are busy with. */
  ghost function BusyKeys(s: State, c: nat, n: nat): set<Pubkey>
    requires n <= |s.tasks|
  {
    if n == 0 then {}
    else
      var t := s.tasks[n - 1];
      BusyKeys(s, c, n - 1) + if Busy(t) && t.cache == c then {t.account.value} else {}
  }

  lemma {:induction false} BusyKeysHave(s: State, c: nat, n: nat, p: Pubkey)
    requires n <= |s.tasks| && p in BusyKeys(s, c, n)
    ensures exists i :: 0 <= i < n && Busy(s.tasks[i]) && s.tasks[i].cache == c && s.tasks[i].account == Some(p)
  {
    var t := s.tasks[n - 1];
    if Busy(t) && t.cache == c && t.account.value == p {
      assert t.account == Some(p);
    } else {
      BusyKeysHave(s, c, n - 1, p);
    }
  }

  /** No two threads are busy with one account. */
  lemma {:induction false} BusyKeyIsNew(s: State, n: nat)
    requires TameAll(s) && n < |s.tasks| && Busy(s.tasks[n])
    ensures s.tasks[n].account.value !in BusyKeys(s, s.tasks[n].cache, n)
  {
    var c, p := s.tasks[n].cache, s.tasks[n].account.value;
    forall i | 0 <= i < n && Busy(s.tasks[i]) && s.tasks[i].cache == c ensures s.tasks[i].account != Some(p) {
      assert Distinct(s, i, n);
    }
    if p in BusyKeys(s, c, n) {
      BusyKeysHave(s, c, n, p);
    }
  }

  /** What one thread's updates add to a counter is covered by the account it is busy with. */
  lemma {:induction false} TaskIsCovered(s: State, kind: Kind, scope: Scope, t: Task)
    requires Tame(s, t)
    ensures Due(t.todo, kind, scope) <=
            if Busy(t) then Weight(kind, s.caches[t.cache].accounts[t.account.value]) else 0
  {
    DueBelowRaises(t.todo, kind, scope);
    assert Busy(t) ==>
        Raises(t.todo, kind, scope) <= Weight(kind, s.caches[t.cache].accounts[t.account.value]);
    assert t.account.None? ==> Raises(t.todo, kind, scope) == 0;
  }

  lemma {:induction false} BusyKeysStored(s: State, c: nat, n: nat)
    requires TameAll(s) && c < |s.caches| && n <= |s.tasks|
    ensures BusyKeys(s, c, n) <= s.caches[c].accounts.Keys
  {
    if n > 0 {
      BusyKeysStored(s, c, n - 1);
      assert Tame(s, s.tasks[n - 1]);
    }
  }

  /** What the updates of one cache's threads add to a counter is covered by the accounts they write. */
  lemma {:induction false} DueIsCovered(s: State, kind: Kind, scope: Scope, c: nat, n: nat)
    requires TameAll(s) && c < |s.caches| && n <= |s.tasks| && BusyKeys(s, c, n) <= s.caches[c].accounts.Keys
    ensures Sum(s.tasks[..n], DueAt(kind, scope, c)) <= MeasureOf(kind, s.caches[c].accounts, BusyKeys(s, c, n))
    decreases n
  {
    if n > 0 {
      var t, keys := s.tasks[n - 1], BusyKeys(s, c, n - 1);
      DueIsCovered(s, kind, scope, c, n - 1);
      SumAppend(s.tasks[..n - 1], t, DueAt(kind, scope, c));
      assert s.tasks[..n] == s.tasks[..n - 1] + [t];
      assert Tame(s, t);
      TaskIsCovered(s, kind, scope, t);
      if Busy(t) && t.cache == c {
        BusyKeyIsNew(s, n - 1);
        MeasureOneMore(kind, s.caches[c].accounts, keys, t.account.value);
      } else {
        assert BusyKeys(s, c, n) == keys;
      }
    }
  }

  /** In a cache still in memory, the updates to come never exceed what is stored. */
  lemma {:induction false} DueIsStored(s: State, kind: Kind, scope: Scope, c: nat)
    requires TameAll(s) && c < |s.caches| && !s.caches[c].dropped
    ensures Sum(s.tasks, DueAt(kind, scope, c)) <= Measure(kind, s.caches[c].accounts)
  {
    BusyKeysStored(s, c, |s.tasks|);
    DueIsCovered(s, kind, scope, c, |s.tasks|);
    assert s.tasks[..|s.tasks|] == s.tasks;
    MeasurePart(kind, s.caches[c].accounts, BusyKeys(s, c, |s.tasks|));
  }

  lemma {:induction false} SumNotPositive<T>(s: seq<T>, f: T -> int)
    requires forall i :: 0 <= i < |s| ==> f(s[i]) <= 0
    ensures Sum(s, f) <= 0
  {
    if s != [] {
      SumNotPositive(s[..|s| - 1], f);
    }
  }

  /** Once a cache is dropped, only its counters are left to take off. */
  lemma {:induction false} DroppedOnlyLowers(s: State, kind: Kind, c: nat)
    requires TameAll(s) && c < |s.caches| && s.caches[c].dropped
    ensures Sum(s.tasks, DueAt(kind, Total, c)) <= 0
  {
    forall i | 0 <= i < |s.tasks| ensures DueAt(kind, Total, c)(s.tasks[i]) <= 0 {
      assert Tame(s, s.tasks[i]);
      TaskIsCovered(s, kind, Total, s.tasks[i]);
    }
    SumNotPositive(s.tasks, DueAt(kind, Total, c));
  }

  ghost function DueBefore(kind: Kind, n: nat): Task -> int {
    (t: Task) => if t.cache < n then Due(t.todo, kind, Total) else 0
  }

  lemma {:induction false} SumAdds<T>(s: seq<T>, f: T -> int, g: T -> int, h: T -> int)
    requires forall i :: 0 <= i < |s| ==> h(s[i]) == f(s[i]) + g(s[i])
    ensures Sum(s, h) == Sum(s, f) + Sum(s, g)
  {
    if s != [] {
      SumAdds(s[..|s| - 1], f, g, h);
    }
  }

  /** Cache by cache: the updates to come on the total never exceed what is in memory. */
  lemma {:induction false} TotalDueIsStored(s: State, kind: Kind, n: nat)
    requires TameAll(s) && n <= |s.caches|
    ensures Sum(s.tasks, DueBefore(kind, n)) <= Sum(s.caches[..n], Held(kind))
    decreases n
  {
    if n == 0 {
      SumZero(s.tasks, DueBefore(kind, 0));
    } else {
      TotalDueIsStored(s, kind, n - 1);
      SumAdds(s.tasks, DueBefore(kind, n - 1), DueAt(kind, Total, n - 1), DueBefore(kind, n));
      assert s.caches[..n] == s.caches[..n - 1] + [s.caches[n - 1]];
      SumAppend(s.caches[..n - 1], s.caches[n - 1], Held(kind));
      if s.caches[n - 1].dropped {
        DroppedOnlyLowers(s, kind, n - 1);
      } else {
        DueIsStored(s, kind, Total, n - 1);
      }
    }
  }

  lemma {:induction false} SumSame<T>(s: seq<T>, f: T -> int, g: T -> int)
    requires forall i :: 0 <= i < |s| ==> f(s[i]) == g(s[i])
    ensures Sum(s, f) == Sum(s, g)
  {
    if s != [] {
      SumSame(s[..|s| - 1], f, g);
    }
  }

  lemma {:induction false} TotalNotNegative(s: State, kind: Kind)
    requires Inv(s) && TameAll(s)
    ensures s.total.Get(kind) >= 0
  {
    var n := |s.caches|;
    TotalDueIsStored(s, kind, n);
    assert s.caches[..n] == s.caches;
    forall i | 0 <= i < |s.tasks| ensures DueBefore(kind, n)(s.tasks[i]) == TotalDue(kind)(s.tasks[i]) {
      assert TaskOk(s, s.tasks[i]);
    }
    SumSame(s.tasks, DueBefore(kind, n), TotalDue(kind));
    TotalIsOk(s, kind);
  }

  lemma {:induction false} OwnNotNegative(s: State, kind: Kind, c: nat)
    requires Inv(s) && TameAll(s) && c < |s.caches| && !s.caches[c].dropped
    ensures s.caches[c].counters.Get(kind) >= 0
  {
    assert CacheOk(s, kind, c);
    DueIsStored(s, kind, Own, c);
  }

  /** In every disciplined run no counter ever goes below zero: no subtraction wraps around, and a
      reader of the size sees the counted bytes themselves. */
  lemma {:induction false} DisciplinedNeverWraps(states: seq<State>, steps: seq<Step>, n: nat)
    requires Run(states, steps) && DisciplinedRun(states, steps) && n < |states|
    ensures forall kind :: 0 <= states[n].total.Get(kind)
    ensures forall kind :: states[n].total.Get(kind) < 0x1_0000_0000_0000_0000 ==>
              states[n].total.Load(kind) == states[n].total.Get(kind)
    ensures forall kind, c :: 0 <= c < |states[n].caches| && !states[n].caches[c].dropped ==>
              0 <= states[n].caches[c].counters.Get(kind)
  {
    RunKeepsTame(states, steps, n);
    forall kind ensures 0 <= states[n].total.Get(kind) {
      TotalNotNegative(states[n], kind);
    }
    forall kind, c | 0 <= c < |states[n].caches| && !states[n].caches[c].dropped
      ensures 0 <= states[n].caches[c].counters.Get(kind)
    {
      OwnNotNegative(states[n], kind, c);
    }
  }

  // ---------------------------------------------------------------------------------------
  // Without the discipline

  /** Two threads have taken the same slot's cache to write the same account. */
  ghost predicate Meeting(s: State, first: nat, pubkey: Pubkey, long: nat, short: nat) {
    && |s.tasks| == first + 2 && s.tasks[first].cache < |s.caches|
    && s.tasks[first] == Task(s.tasks[first].cache, Some(pubkey), Some(long), [])
    && s.tasks[first + 1] == Task(s.tasks[first].cache, Some(pubkey), Some(short), [])
  }

  lemma {:induction false} WritersMeet(states: seq<State>, steps: seq<Step>, slot: Slot, pubkey: Pubkey, long: nat,
                                       short: nat)
    returns (states': seq<State>, steps': seq<Step>)
    requires Run(states, steps)
    ensures Run(states', steps') && steps <= steps' && states'[|steps'|].total == states[|steps|].total
    ensures Meeting(states'[|steps'|], |states[|steps|].tasks|, pubkey, long, short)
  {
    RunKeepsInv(states, steps, |steps|);
    states', steps' := OneMore(states, steps, Acquire(slot, pubkey, long));
    assert slot in states'[|steps'|].live;
    states', steps' := OneMore(states', steps', Acquire(slot, pubkey, short));
  }

  /** Both have written, and the second has its updates to make. */
  lemma {:induction false} WritesMeet(states: seq<State>, steps: seq<Step>, first: nat, pubkey: Pubkey, long: nat,
                                      short: nat)
    returns (states': seq<State>, steps': seq<Step>)
    requires Run(states, steps) && short < long && Meeting(states[|steps|], first, pubkey, long, short)
    ensures Run(states', steps') && steps <= steps' && states'[|steps'|].total == states[|steps|].total
    ensures var s := states'[|steps'|];
      && first + 1 < |s.tasks| && s.tasks[first + 1].cache < |s.caches|
      && s.tasks[first + 1].todo == [Op(Bytes, Own, short - long), Op(Bytes, Total, short - long)]
  {
    states', steps' := OneMore(states, steps, Insert(first));
    assert states'[|steps'|].caches[states'[|steps'|].tasks[first + 1].cache].accounts[pubkey] == long;
    states', steps' := OneMore(states', steps', Insert(first + 1));
  }

  /** Any run can go on to a wrapped-around size: two threads write one account of one slot, the first
      `long` bytes and the second `short`, and the second makes its updates first. It takes no more
      than that the size counts less than the difference. */
  lemma {:induction false} SizeCanWrap(states: seq<State>, steps: seq<Step>, slot: Slot, pubkey: Pubkey, long: nat,
                                       short: nat)
    returns (states': seq<State>, steps': seq<Step>)
    requires Run(states, steps) && short < long
    requires 0 <= states[|steps|].total.Get(Bytes) < long - short <= 0x1_0000_0000_0000_0000
    ensures Run(states', steps') && steps <= steps'
    ensures states'[|steps'|].total.Load(Bytes) ==
            0x1_0000_0000_0000_0000 - (long - short - states[|steps|].total.Get(Bytes))
  {
    var second := |states[|steps|].tasks| + 1;
    states', steps' := WritersMeet(states, steps, slot, pubkey, long, short);
    states', steps' := WritesMeet(states', steps', second - 1, pubkey, long, short);
    states', steps' := OneMore(states', steps', Update(second));
    states', steps' := OneMore(states', steps', Update(second));
    assert states'[|steps'|].total.Get(Bytes) == states[|steps|].total.Get(Bytes) - (long - short);
  }
}
