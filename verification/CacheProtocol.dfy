/** The write cache keeps its byte and account counters beside the data they count, one atomic update
    at a time. Any number of writers, slot removals and drops may interleave between those updates.
    Whatever the interleaving, every counter is the true figure less the updates still to come, so it
    is exact whenever no operation is in flight; in between, a reader can see a wrapped-around value. */
module CacheProtocol {
  import opened Wrappers

  type Slot = nat
  type Pubkey = nat

  const U64: nat := 0x1_0000_0000_0000_0000

  /** The value of a 64-bit counter. Since `fetch_add` and `fetch_sub` wrap around, a counter is kept
      here as an integer of which only the residue can be read. */
  function Wrap(x: int): nat {
    x % U64
  }

  datatype Kind = Bytes | Accounts

  datatype Scope = Own | Total

  /** One atomic update: of the slot's own counter or of the cache-wide one. */
  datatype Op = Op(kind: Kind, scope: Scope, delta: int)

  datatype Counters = Counters(bytes: int, accounts: int) {
    function Get(kind: Kind): int {
      if kind.Bytes? then bytes else accounts
    }

    function Add(kind: Kind, delta: int): Counters {
      if kind.Bytes? then Counters(bytes + delta, accounts) else Counters(bytes, accounts + delta)
    }

    function Load(kind: Kind): nat {
      Wrap(Get(kind))
    }
  }

  /** A slot's cache: the data length of each account. A dropped one is no longer in memory. */
  datatype SlotCache = SlotCache(accounts: map<Pubkey, nat>, counters: Counters, dropped: bool)

  /** A thread holding a slot's cache: the account it writes, the length it has yet to write, and then
      the counter updates left. One that drops the cache writes no account. */
  datatype Task = Task(cache: nat, account: Option<Pubkey>, write: Option<nat>, todo: seq<Op>)

  datatype State = State(
    caches: seq<SlotCache>,
    live: map<Slot, nat>,
    tasks: seq<Task>,
    total: Counters)

  datatype Step =
    | Acquire(slot: Slot, pubkey: Pubkey, len: nat)
    | Insert(task: nat)
    | Update(task: nat)
    | RemoveSlot(slot: Slot)
    | Drop(cache: nat)

  const EMPTY: Counters := Counters(0, 0)

  /** The updates that a write of `len` bytes makes after it. */
  function InsertOps(accounts: map<Pubkey, nat>, pubkey: Pubkey, len: nat): seq<Op> {
    if pubkey in accounts then
      var was := accounts[pubkey];
      if len > was then [Op(Bytes, Own, len - was), Op(Bytes, Total, len - was)]
      else if was > len then [Op(Bytes, Own, -(was - len)), Op(Bytes, Total, -(was - len))]
      else []
    else
      [Op(Bytes, Own, len), Op(Bytes, Total, len), Op(Accounts, Own, 1), Op(Accounts, Total, 1)]
  }

  /** The updates that dropping a slot's cache makes. */
  function DropOps(counters: Counters): seq<Op> {
    [Op(Bytes, Total, -counters.bytes), Op(Accounts, Total, -counters.accounts)]
  }

  ghost predicate Idle(t: Task) {
    t.write.None? && t.todo == []
  }

  ghost predicate Enabled(s: State, step: Step) {
    match step
    case Acquire(_, _, _) => true
    case Insert(i) =>
      && i < |s.tasks| && s.tasks[i].cache < |s.caches|
      && s.tasks[i].account.Some? && s.tasks[i].write.Some?
    case Update(i) => i < |s.tasks| && s.tasks[i].todo != [] && s.tasks[i].cache < |s.caches|
    case RemoveSlot(_) => true
    case Drop(c) =>
      // the last reference is gone
      && c < |s.caches| && !s.caches[c].dropped && c !in s.live.Values
      && forall i :: 0 <= i < |s.tasks| && s.tasks[i].cache == c ==> Idle(s.tasks[i])
  }

  ghost function Apply(s: State, step: Step): State
    requires Enabled(s, step)
  {
    match step
    case Acquire(slot, pubkey, len) =>
      if slot in s.live then s.(tasks := s.tasks + [Task(s.live[slot], Some(pubkey), Some(len), [])])
      else
        s.(caches := s.caches + [SlotCache(map[], EMPTY, false)],
           live := s.live[slot := |s.caches|],
           tasks := s.tasks + [Task(|s.caches|, Some(pubkey), Some(len), [])])
    case Insert(i) =>
      var t := s.tasks[i];
      var c := s.caches[t.cache];
      var pubkey, len := t.account.value, t.write.value;
      s.(caches := s.caches[t.cache := c.(accounts := c.accounts[pubkey := len])],
         tasks := s.tasks[i := Task(t.cache, t.account, None, InsertOps(c.accounts, pubkey, len))])
    case Update(i) =>
      var t := s.tasks[i];
      var op := t.todo[0];
      var rest := s.(tasks := s.tasks[i := t.(todo := t.todo[1..])]);
      if op.scope.Total? then rest.(total := s.total.Add(op.kind, op.delta))
      else
        var c := s.caches[t.cache];
        rest.(caches := s.caches[t.cache := c.(counters := c.counters.Add(op.kind, op.delta))])
    case RemoveSlot(slot) => s.(live := s.live - {slot})
    case Drop(c) =>
      s.(caches := s.caches[c := s.caches[c].(dropped := true)],
         tasks := s.tasks + [Task(c, None, None, DropOps(s.caches[c].counters))])
  }

  // ---------------------------------------------------------------------------------------
  // What the counters should say

  ghost function TotalLength(accounts: map<Pubkey, nat>, keys: set<Pubkey>): nat
    requires keys <= accounts.Keys
  {
    if keys == {} then 0
    else
      var p :| p in keys;
      accounts[p] + TotalLength(accounts, keys - {p})
  }

  ghost function Measure(kind: Kind, accounts: map<Pubkey, nat>): nat {
    if kind.Bytes? then TotalLength(accounts, accounts.Keys) else |accounts|
  }

  ghost function Sum<T>(s: seq<T>, f: T -> int): int {
    if s == [] then 0 else Sum(s[..|s| - 1], f) + f(s[|s| - 1])
  }

  /** What a single update adds to a counter. */
  ghost function Share(op: Op, kind: Kind, scope: Scope): int {
    if op.kind == kind && op.scope == scope then op.delta else 0
  }

  /** What the given updates will still add to a counter. */
  ghost function Due(todo: seq<Op>, kind: Kind, scope: Scope): int {
    if todo == [] then 0 else Share(todo[0], kind, scope) + Due(todo[1..], kind, scope)
  }

  ghost function TotalDue(kind: Kind): Task -> int {
    (t: Task) => Due(t.todo, kind, Total)
  }

  ghost function DueAt(kind: Kind, scope: Scope, c: nat): Task -> int {
    (t: Task) => if t.cache == c then Due(t.todo, kind, scope) else 0
  }

  ghost function OwnDue(kind: Kind, c: nat): Task -> int {
    DueAt(kind, Own, c)
  }

  ghost function Held(kind: Kind): SlotCache -> int {
    (c: SlotCache) => if c.dropped then 0 else Measure(kind, c.accounts)
  }

  /** Everything the caches in memory hold. */
  ghost function InMemory(s: State, kind: Kind): int {
    Sum(s.caches, Held(kind))
  }

  ghost predicate CacheOk(s: State, kind: Kind, c: nat)
    requires c < |s.caches|
  {
    !s.caches[c].dropped ==>
      s.caches[c].counters.Get(kind) == Measure(kind, s.caches[c].accounts) - Sum(s.tasks, OwnDue(kind, c))
  }

  ghost predicate TotalOk(s: State, kind: Kind) {
    s.total.Get(kind) == InMemory(s, kind) - Sum(s.tasks, TotalDue(kind))
  }

  /** A thread touches a dropped cache only to finish dropping it. */
  ghost predicate TaskOk(s: State, t: Task) {
    && t.cache < |s.caches|
    && (t.write.Some? ==> t.todo == [])
    && (s.caches[t.cache].dropped ==>
          t.write.None? && forall i :: 0 <= i < |t.todo| ==> t.todo[i].scope.Total?)
  }

  ghost predicate Shaped(s: State) {
    && (forall slot :: slot in s.live ==> s.live[slot] < |s.caches| && !s.caches[s.live[slot]].dropped)
    && (forall i :: 0 <= i < |s.tasks| ==> TaskOk(s, s.tasks[i]))
  }

  ghost predicate Inv(s: State) {
    && Shaped(s)
    && (forall kind, c: nat :: c < |s.caches| ==> CacheOk(s, kind, c))
    && (forall kind :: TotalOk(s, kind))
  }

  ghost function Init(): State {
    State([], map[], [], EMPTY)
  }

  // ---------------------------------------------------------------------------------------
  // Sums

  lemma {:induction false} SumAppend<T>(s: seq<T>, x: T, f: T -> int)
    ensures Sum(s + [x], f) == Sum(s, f) + f(x)
  {
    assert (s + [x])[..|s|] == s;
  }

  lemma {:induction false} SumUpdate<T>(s: seq<T>, i: nat, x: T, f: T -> int)
    requires i < |s|
    ensures Sum(s[i := x], f) == Sum(s, f) - f(s[i]) + f(x)
  {
    var n := |s| - 1;
    if i == n {
      assert s[i := x][..n] == s[..n];
    } else {
      assert s[i := x][..n] == s[..n][i := x];
      SumUpdate(s[..n], i, x, f);
    }
  }

  lemma {:induction false} SumZero<T>(s: seq<T>, f: T -> int)
    requires forall i :: 0 <= i < |s| ==> f(s[i]) == 0
    ensures Sum(s, f) == 0
  {
    if s != [] {
      SumZero(s[..|s| - 1], f);
    }
  }

  lemma {:induction false} LengthWithout(accounts: map<Pubkey, nat>, keys: set<Pubkey>, p: Pubkey)
    requires p in keys && keys <= accounts.Keys
    ensures TotalLength(accounts, keys) == accounts[p] + TotalLength(accounts, keys - {p})
    decreases keys
  {
    var q :| q in keys && TotalLength(accounts, keys) == accounts[q] + TotalLength(accounts, keys - {q});
    if p != q {
      LengthWithout(accounts, keys - {q}, p);
      LengthWithout(accounts, keys - {p}, q);
      assert keys - {q} - {p} == keys - {p} - {q};
    }
  }

  lemma {:induction false} LengthElsewhere(a: map<Pubkey, nat>, b: map<Pubkey, nat>, keys: set<Pubkey>)
    requires keys <= a.Keys && keys <= b.Keys && forall p :: p in keys ==> a[p] == b[p]
    ensures TotalLength(a, keys) == TotalLength(b, keys)
    decreases keys
  {
    if keys != {} {
      var p :| p in keys;
      LengthWithout(a, keys, p);
      LengthWithout(b, keys, p);
      LengthElsewhere(a, b, keys - {p});
    }
  }

  lemma {:induction false} LengthUpdate(accounts: map<Pubkey, nat>, p: Pubkey, len: nat)
    ensures var after := accounts[p := len];
            TotalLength(after, after.Keys) ==
            TotalLength(accounts, accounts.Keys) + len - (if p in accounts then accounts[p] else 0)
  {
    var after, others := accounts[p := len], accounts.Keys - {p};
    LengthWithout(after, after.Keys, p);
    assert after.Keys - {p} == others;
    LengthElsewhere(accounts, after, others);
    if p in accounts {
      LengthWithout(accounts, accounts.Keys, p);
    } else {
      assert others == accounts.Keys;
    }
  }

  lemma {:induction false} DueJoin(a: seq<Op>, b: seq<Op>, kind: Kind, scope: Scope)
    ensures Due(a + b, kind, scope) == Due(a, kind, scope) + Due(b, kind, scope)
  {
    if a == [] {
      assert a + b == b;
    } else {
      assert (a + b)[1..] == a[1..] + b;
      DueJoin(a[1..], b, kind, scope);
    }
  }

  lemma {:induction false} DueTwo(a: Op, b: Op, kind: Kind, scope: Scope)
    ensures Due([a, b], kind, scope) == Share(a, kind, scope) + Share(b, kind, scope)
  {
    assert [a, b] == [a] + [b];
    DueJoin([a], [b], kind, scope);
  }

  lemma {:induction false} DropDue(counters: Counters, kind: Kind)
    ensures Due(DropOps(counters), kind, Total) == -counters.Get(kind)
  {
    DueTwo(Op(Bytes, Total, -counters.bytes), Op(Accounts, Total, -counters.accounts), kind, Total);
  }

  lemma {:induction false} PairDue(of: Kind, delta: int, kind: Kind, scope: Scope)
    ensures Due([Op(of, Own, delta), Op(of, Total, delta)], kind, scope) == if of == kind then delta else 0
  {
    DueTwo(Op(of, Own, delta), Op(of, Total, delta), kind, scope);
  }

  lemma {:induction false} NewDue(accounts: map<Pubkey, nat>, p: Pubkey, len: nat, kind: Kind, scope: Scope)
    requires p !in accounts
    ensures Due(InsertOps(accounts, p, len), kind, scope) == if kind.Bytes? then len else 1
  {
    var bytes, counts :=
      [Op(Bytes, Own, len), Op(Bytes, Total, len)], [Op(Accounts, Own, 1), Op(Accounts, Total, 1)];
    assert InsertOps(accounts, p, len) == bytes + counts;
    DueJoin(bytes, counts, kind, scope);
    PairDue(Bytes, len, kind, scope);
    PairDue(Accounts, 1, kind, scope);
  }

  lemma {:induction false} ExistingDue(accounts: map<Pubkey, nat>, p: Pubkey, len: nat, kind: Kind, scope: Scope)
    requires p in accounts
    ensures Due(InsertOps(accounts, p, len), kind, scope) == if kind.Bytes? then len - accounts[p] else 0
  {
    PairDue(Bytes, len - accounts[p], kind, scope);
  }

  lemma {:induction false} MeasureUpdate(accounts: map<Pubkey, nat>, p: Pubkey, len: nat, kind: Kind)
    ensures Measure(kind, accounts[p := len]) - Measure(kind, accounts) ==
            if p !in accounts then (if kind.Bytes? then len else 1)
            else if kind.Bytes? then len - accounts[p] else 0
  {
    LengthUpdate(accounts, p, len);
    if p in accounts {
      assert accounts[p := len].Keys == accounts.Keys;
    } else {
      assert accounts[p := len].Keys == accounts.Keys + {p};
    }
  }

  /** The updates of a write come to exactly what the write changes. */
  lemma {:induction false} InsertOpsAreExact(accounts: map<Pubkey, nat>, p: Pubkey, len: nat, kind: Kind, scope: Scope)
    ensures Due(InsertOps(accounts, p, len), kind, scope) ==
            Measure(kind, accounts[p := len]) - Measure(kind, accounts)
  {
    MeasureUpdate(accounts, p, len, kind);
    if p in accounts {
      ExistingDue(accounts, p, len, kind, scope);
    } else {
      NewDue(accounts, p, len, kind, scope);
    }
  }

  // ---------------------------------------------------------------------------------------
  // Every step keeps the invariant

  lemma {:induction false} AcquireKeepsTotal(s: State, slot: Slot, pubkey: Pubkey, len: nat, kind: Kind)
    requires Inv(s)
    ensures TotalOk(Apply(s, Acquire(slot, pubkey, len)), kind)
  {
    var t := Apply(s, Acquire(slot, pubkey, len));
    assert TotalOk(s, kind);
    SumAppend(s.tasks, t.tasks[|s.tasks|], TotalDue(kind));
    if slot !in s.live {
      SumAppend(s.caches, t.caches[|s.caches|], Held(kind));
    }
  }

  lemma {:induction false} AcquireKeepsCache(s: State, slot: Slot, pubkey: Pubkey, len: nat, kind: Kind, c: nat)
    requires Inv(s) && c < |Apply(s, Acquire(slot, pubkey, len)).caches|
    ensures CacheOk(Apply(s, Acquire(slot, pubkey, len)), kind, c)
  {
    var t := Apply(s, Acquire(slot, pubkey, len));
    SumAppend(s.tasks, t.tasks[|s.tasks|], OwnDue(kind, c));
    if c < |s.caches| {
      assert CacheOk(s, kind, c);
    } else {
      forall i | 0 <= i < |s.tasks| ensures OwnDue(kind, c)(s.tasks[i]) == 0 {
        assert TaskOk(s, s.tasks[i]);
      }
      SumZero(s.tasks, OwnDue(kind, c));
    }
  }

  lemma {:induction false} AcquireKeepsInv(s: State, slot: Slot, pubkey: Pubkey, len: nat)
    requires Inv(s)
    ensures Inv(Apply(s, Acquire(slot, pubkey, len)))
  {
    var t := Apply(s, Acquire(slot, pubkey, len));
    forall kind ensures TotalOk(t, kind) {
      AcquireKeepsTotal(s, slot, pubkey, len, kind);
    }
    forall kind, c: nat | c < |t.caches| ensures CacheOk(t, kind, c) {
      AcquireKeepsCache(s, slot, pubkey, len, kind, c);
    }
    forall j | 0 <= j < |t.tasks| ensures TaskOk(t, t.tasks[j]) {
      if j < |s.tasks| {
        assert TaskOk(s, s.tasks[j]);
      }
    }
  }

  lemma {:induction false} InsertKeepsCounters(s: State, i: nat, kind: Kind)
    requires Inv(s) && Enabled(s, Insert(i))
    ensures TotalOk(Apply(s, Insert(i)), kind)
    ensures forall c: nat :: c < |s.caches| ==> CacheOk(Apply(s, Insert(i)), kind, c)
  {
    var t := Apply(s, Insert(i));
    var task := s.tasks[i];
    var pubkey, len := task.account.value, task.write.value;
    assert TaskOk(s, task);
    var accounts := s.caches[task.cache].accounts;
    assert TotalOk(s, kind);
    SumUpdate(s.tasks, i, t.tasks[i], TotalDue(kind));
    SumUpdate(s.caches, task.cache, t.caches[task.cache], Held(kind));
    InsertOpsAreExact(accounts, pubkey, len, kind, Total);
    forall c: nat | c < |s.caches| ensures CacheOk(t, kind, c) {
      assert CacheOk(s, kind, c);
      SumUpdate(s.tasks, i, t.tasks[i], OwnDue(kind, c));
      InsertOpsAreExact(accounts, pubkey, len, kind, Own);
    }
  }

  lemma {:induction false} UpdateKeepsTotal(s: State, i: nat, kind: Kind)
    requires Inv(s) && Enabled(s, Update(i))
    ensures TotalOk(Apply(s, Update(i)), kind)
  {
    var t, task := Apply(s, Update(i)), s.tasks[i];
    var op := task.todo[0];
    assert TotalOk(s, kind);
    SumUpdate(s.tasks, i, t.tasks[i], TotalDue(kind));
    if op.scope.Own? {
      SumUpdate(s.caches, task.cache, t.caches[task.cache], Held(kind));
    }
  }

  lemma {:induction false} UpdateKeepsCache(s: State, i: nat, kind: Kind, c: nat)
    requires Inv(s) && Enabled(s, Update(i)) && c < |s.caches|
    ensures CacheOk(Apply(s, Update(i)), kind, c)
  {
    var t, task := Apply(s, Update(i)), s.tasks[i];
    var op := task.todo[0];
    assert CacheOk(s, kind, c);
    SumUpdate(s.tasks, i, t.tasks[i], OwnDue(kind, c));
  }

  lemma {:induction false} TaskStepKeepsInv(s: State, step: Step)
    requires Inv(s) && Enabled(s, step) && (step.Insert? || step.Update?)
    ensures Inv(Apply(s, step))
  {
    var t := Apply(s, step);
    assert TaskOk(s, s.tasks[step.task]);
    assert Shaped(t) by {
      forall j | 0 <= j < |t.tasks| ensures TaskOk(t, t.tasks[j]) {
        assert TaskOk(s, s.tasks[j]);
      }
    }
    forall kind ensures TotalOk(t, kind) {
      if step.Insert? { InsertKeepsCounters(s, step.task, kind); } else { UpdateKeepsTotal(s, step.task, kind); }
    }
    forall kind, c: nat | c < |t.caches| ensures CacheOk(t, kind, c) {
      if step.Insert? { InsertKeepsCounters(s, step.task, kind); } else { UpdateKeepsCache(s, step.task, kind, c); }
    }
  }

  /** With nothing in flight on a slot's cache, its own counters are exact. */
  lemma {:induction false} UnreferencedIsExact(s: State, kind: Kind, c: nat)
    requires Inv(s) && c < |s.caches| && !s.caches[c].dropped
    requires forall i :: 0 <= i < |s.tasks| && s.tasks[i].cache == c ==> Idle(s.tasks[i])
    ensures s.caches[c].counters.Get(kind) == Measure(kind, s.caches[c].accounts)
  {
    assert CacheOk(s, kind, c);
    SumZero(s.tasks, OwnDue(kind, c));
  }

  lemma {:induction false} DropKeepsTotal(s: State, c: nat, kind: Kind)
    requires Inv(s) && Enabled(s, Drop(c))
    ensures TotalOk(Apply(s, Drop(c)), kind)
  {
    var t := Apply(s, Drop(c));
    var counters := s.caches[c].counters;
    assert TotalOk(s, kind);
    UnreferencedIsExact(s, kind, c);
    SumUpdate(s.caches, c, t.caches[c], Held(kind));
    DropDue(counters, kind);
    SumAppend(s.tasks, t.tasks[|s.tasks|], TotalDue(kind));
  }

  lemma {:induction false} DropKeepsInv(s: State, c: nat)
    requires Inv(s) && Enabled(s, Drop(c))
    ensures Inv(Apply(s, Drop(c)))
  {
    var t := Apply(s, Drop(c));
    forall kind ensures TotalOk(t, kind) {
      DropKeepsTotal(s, c, kind);
    }
    forall kind, d: nat | d < |t.caches| ensures CacheOk(t, kind, d) {
      assert CacheOk(s, kind, d);
      SumAppend(s.tasks, t.tasks[|s.tasks|], OwnDue(kind, d));
    }
    forall j | 0 <= j < |t.tasks| ensures TaskOk(t, t.tasks[j]) {
      if j < |s.tasks| {
        assert TaskOk(s, s.tasks[j]);
      }
    }
  }

  lemma {:induction false} StepKeepsInv(s: State, step: Step)
    requires Inv(s) && Enabled(s, step)
    ensures Inv(Apply(s, step))
  {
    match step {
      case Acquire(slot, pubkey, len) => AcquireKeepsInv(s, slot, pubkey, len);
      case Drop(c) => DropKeepsInv(s, c);
      case RemoveSlot(slot) =>
        var t := Apply(s, step);
        forall kind ensures TotalOk(t, kind) { assert TotalOk(s, kind); }
        forall kind, c: nat | c < |t.caches| ensures CacheOk(t, kind, c) { assert CacheOk(s, kind, c); }
        forall j | 0 <= j < |t.tasks| ensures TaskOk(t, t.tasks[j]) { assert TaskOk(s, s.tasks[j]); }
      case _ => TaskStepKeepsInv(s, step);
    }
  }

  // ---------------------------------------------------------------------------------------
  // Whole runs

  ghost predicate Follows(s: State, step: Step, s': State) {
    Enabled(s, step) && s' == Apply(s, step)
  }

  ghost predicate Run(states: seq<State>, steps: seq<Step>) {
    && |states| == |steps| + 1 && states[0] == Init()
    && forall i {:trigger steps[i]} :: 0 <= i < |steps| ==> Follows(states[i], steps[i], states[i + 1])
  }

  lemma {:induction false} InitHasInv()
    ensures Inv(Init())
  {
    assert forall kind :: TotalOk(Init(), kind);
  }

  lemma {:induction false} RunKeepsInv(states: seq<State>, steps: seq<Step>, n: nat)
    requires Run(states, steps) && n < |states|
    ensures Inv(states[n])
    decreases n
  {
    if n == 0 {
      InitHasInv();
    } else {
      RunKeepsInv(states, steps, n - 1);
      assert Follows(states[n - 1], steps[n - 1], states[n]);
      StepKeepsInv(states[n - 1], steps[n - 1]);
    }
  }

  lemma {:induction false} TotalIsOk(s: State, kind: Kind)
    requires Inv(s)
    ensures s.total.Get(kind) == InMemory(s, kind) - Pending(s, kind)
  {
    assert TotalOk(s, kind);
  }

  /** What the updates still to come add up to. */
  ghost function Pending(s: State, kind: Kind): int {
    Sum(s.tasks, TotalDue(kind))
  }

  /** At any moment, what a reader sees is what the caches hold less the updates still to come. */
  lemma {:induction false} SizeIsStoredLessPending(states: seq<State>, steps: seq<Step>, n: nat, kind: Kind)
    requires Run(states, steps) && n < |states|
    ensures states[n].total.Load(kind) == Wrap(InMemory(states[n], kind) - Pending(states[n], kind))
  {
    RunKeepsInv(states, steps, n);
    TotalIsOk(states[n], kind);
  }

  /** Whenever no operation is in flight, the cache-wide counters are exactly what is in memory. */
  lemma {:induction false} QuietTotalsAreExact(states: seq<State>, steps: seq<Step>, n: nat, kind: Kind)
    requires Run(states, steps) && n < |states| && InMemory(states[n], kind) < U64
    requires forall i :: 0 <= i < |states[n].tasks| ==> Idle(states[n].tasks[i])
    ensures states[n].total.Load(kind) == InMemory(states[n], kind)
  {
    SizeIsStoredLessPending(states, steps, n, kind);
    SumZero(states[n].tasks, TotalDue(kind));
    HeldNonNegative(states[n].caches, kind);
  }

  lemma {:induction false} HeldNonNegative(caches: seq<SlotCache>, kind: Kind)
    ensures Sum(caches, Held(kind)) >= 0
  {
    if caches != [] {
      HeldNonNegative(caches[..|caches| - 1], kind);
    }
  }

  lemma {:induction false} OneMore(states: seq<State>, steps: seq<Step>, step: Step)
    returns (states': seq<State>, steps': seq<Step>)
    requires Run(states, steps) && Enabled(states[|steps|], step)
    ensures steps' == steps + [step] && Run(states', steps') && |states'| == |states| + 1
    ensures states'[|steps'|] == Apply(states[|steps|], step)
  {
    states', steps' := states + [Apply(states[|steps|], step)], steps + [step];
    forall i {:trigger steps'[i]} | 0 <= i < |steps'| ensures Follows(states'[i], steps'[i], states'[i + 1]) {
      assert i < |steps| ==> Follows(states[i], steps[i], states[i + 1]);
    }
  }
}
