/** Whole runs of the scan protocol: scans are consistent in every careful run, and a run with a clean
    that is not careful shows why care is needed. */
module ScanRuns {
  import opened Wrappers
  import opened SlotLists
  import opened ScanProtocol
  import opened ScanEnvironment

  // Steps of scans

  lemma {:induction false} RunningAtUpdated<T>(scans: map<Id, Scan<T>>, id: Id, sc: Scan<T>, r: Slot)
    ensures RunningAt(scans[id := sc], r) ==
      if sc.phase == Running && sc.maxRoot == r then RunningAt(scans, r) + {id} else RunningAt(scans, r) - {id}
  {
  }

  lemma {:induction false} CountUnchanged<T>(ongoing: map<Slot, nat>, scans: map<Id, Scan<T>>, id: Id, sc: Scan<T>)
    requires CountsScans(ongoing, scans)
    requires if id in scans && scans[id].phase == Running
             then sc.phase == Running && sc.maxRoot == scans[id].maxRoot else sc.phase != Running
    ensures CountsScans(ongoing, scans[id := sc])
  {
    var scans' := scans[id := sc];
    forall r: Slot ensures Counts(ongoing, scans', r) {
      assert Counts(ongoing, scans, r);
      RunningAtUpdated(scans, id, sc, r);
      assert RunningAt(scans', r) == RunningAt(scans, r);
    }
  }

  lemma {:induction false} OneScanChanges<T>(s: Index<T>, s': Index<T>, id: Id, sc: Scan<T>)
    requires Inv(s) && s' == s.(scans := s.scans[id := sc]) && ScanOk(s, sc)
    requires if id in s.scans && s.scans[id].phase == Running
             then sc.phase == Running && sc.maxRoot == s.scans[id].maxRoot else sc.phase != Running
    ensures Inv(s')
  {
    CountUnchanged(s.ongoing, s.scans, id, sc);
    forall q | q in s'.scans ensures ScanOk(s', s'.scans[q]) {
      assert q != id ==> ScanOk(s, s.scans[q]);
    }
  }

  /** Steps that leave the set of registered scans alone. */
  lemma {:induction false} ScanStepKeepsInv<T>(s: Index<T>, step: Step<T>)
    requires Inv(s) && Enabled(s, step)
    requires step.CheckScan? || step.ReadKey? || step.Finish?
    ensures Inv(Apply(s, step))
  {
    var s' := Apply(s, step);
    var sc := s'.scans[step.id];
    assert !step.CheckScan? ==> ScanOk(s, s.scans[step.id]);
    assert ScanOk(s, sc);
    OneScanChanges(s, s', step.id, sc);
  }

  lemma {:induction false} RegisterKeepsScans<T>(s: Index<T>, id: Id, q: Id)
    requires Inv(s) && Enabled(s, Register(id)) && q in s.scans
    ensures ScanOk(Apply(s, Register(id)), Apply(s, Register(id)).scans[q])
  {
    assert ScanOk(s, s.scans[q]);
  }

  lemma {:induction false} CountAdded<T>(ongoing: map<Slot, nat>, scans: map<Id, Scan<T>>, id: Id, sc: Scan<T>)
    requires CountsScans(ongoing, scans) && id in scans && scans[id].phase != Running && sc.phase == Running
    ensures CountsScans(AddScanRoot(ongoing, sc.maxRoot), scans[id := sc])
  {
    var ongoing', scans' := AddScanRoot(ongoing, sc.maxRoot), scans[id := sc];
    forall r: Slot ensures Counts(ongoing', scans', r) {
      assert Counts(ongoing, scans, r);
      RunningAtUpdated(scans, id, sc, r);
      assert id !in RunningAt(scans, r);
    }
  }

  lemma {:induction false} CountRemoved<T>(ongoing: map<Slot, nat>, scans: map<Id, Scan<T>>, id: Id, sc: Scan<T>)
    requires CountsScans(ongoing, scans) && id in scans && scans[id].phase == Running && sc.phase != Running
    ensures scans[id].maxRoot in ongoing && ongoing[scans[id].maxRoot] > 0
    ensures CountsScans(RemoveScanRoot(ongoing, scans[id].maxRoot), scans[id := sc])
  {
    var max := scans[id].maxRoot;
    assert id in RunningAt(scans, max) && Counts(ongoing, scans, max);
    var ongoing', scans' := RemoveScanRoot(ongoing, max), scans[id := sc];
    forall r: Slot ensures Counts(ongoing', scans', r) {
      assert Counts(ongoing, scans, r);
      RunningAtUpdated(scans, id, sc, r);
      assert r == max <==> id in RunningAt(scans, r);
    }
  }

  lemma {:induction false} RegisterKeepsInv<T>(s: Index<T>, id: Id)
    requires Inv(s) && Enabled(s, Register(id))
    ensures Inv(Apply(s, Register(id)))
  {
    var s' := Apply(s, Register(id));
    forall q | q in s'.scans ensures ScanOk(s', s'.scans[q]) {
      RegisterKeepsScans(s, id, q);
    }
    CountAdded(s.ongoing, s.scans, id, s'.scans[id]);
  }

  lemma {:induction false} DeregisterKeepsInv<T>(s: Index<T>, id: Id)
    requires Inv(s) && Enabled(s, Deregister(id))
    ensures CanDeregister(s, Deregister(id)) && Inv(Apply(s, Deregister(id)))
  {
    CountRemoved(s.ongoing, s.scans, id, s.scans[id].(phase := Finishing));
    var s' := Apply(s, Deregister(id));
    forall q | q in s'.scans ensures ScanOk(s', s'.scans[q]) {
      assert ScanOk(s, s.scans[q]);
    }
  }

  lemma {:induction false} StepKeepsInv<T>(s: Index<T>, step: Step<T>)
    requires Inv(s) && Enabled(s, step) && Careful(s, step)
    ensures CanDeregister(s, step) && Inv(Apply(s, step))
  {
    if IsEnvironment(step) {
      EnvironmentKeepsInv(s, step);
    } else if step.Register? {
      RegisterKeepsInv(s, step.id);
    } else if step.Deregister? {
      DeregisterKeepsInv(s, step.id);
    } else if step.StartClean? {
      StartCleanKeepsInv(s, step);
    } else if step.MarkRemoved? || step.DropBank? {
      RemovalKeepsInv(s, step);
    } else {
      ScanStepKeepsInv(s, step);
    }
  }

  // ---------------------------------------------------------------------------------------
  // Runs

  /** `states` is a run of the protocol: each state follows from the one before by an enabled step. */
  ghost predicate Run<T>(states: seq<Index<T>>, steps: seq<Step<T>>) {
    && |states| == |steps| + 1
    && Init(states[0])
    && forall i {:trigger steps[i]} :: 0 <= i < |steps| ==> Follows(states[i], steps[i], states[i + 1])
  }

  ghost predicate Follows<T>(s: Index<T>, step: Step<T>, s': Index<T>) {
    Enabled(s, step) && CanDeregister(s, step) && s' == Apply(s, step)
  }

  /** Every step of the run is careful. */
  ghost predicate CarefulRun<T>(states: seq<Index<T>>, steps: seq<Step<T>>)
    requires |states| == |steps| + 1
  {
    forall i {:trigger steps[i]} :: 0 <= i < |steps| ==> Careful(states[i], steps[i])
  }

  /** A scan under the newest root is not at risk: an unbounded clean is careful while every running
      scan has registered under the maximum root of the moment. */
  lemma {:induction false} NewestScansAreSafe<T>(s: Index<T>, step: Step<T>)
    requires Inv(s)
    requires forall id :: id in s.scans && s.scans[id].phase == Running ==>
               s.scans[id].maxRoot == s.roots.maxInclusive
    ensures Careful(s, step)
  {
    forall id | id in s.scans && s.scans[id].phase == Running
      ensures NoRisk(s.roots, s.scans[id].view, s.scans[id].maxRoot, s.roots.maxInclusive)
    {
      assert ScanOk(s, s.scans[id]);
      BoundedIsSafe(s.roots, s.scans[id].view, s.scans[id].maxRoot, s.roots.maxInclusive);
    }
  }

  lemma {:induction false} InitHasInv<T>(s: Index<T>)
    requires Init(s)
    ensures Inv(s)
  {
    forall r: Slot ensures Counts(s.ongoing, s.scans, r) {
      assert RunningAt(s.scans, r) == {};
    }
  }

  lemma {:induction false} RunKeepsInv<T>(states: seq<Index<T>>, steps: seq<Step<T>>, i: nat)
    requires Run(states, steps) && CarefulRun(states, steps) && i < |states|
    ensures Inv(states[i])
    decreases i
  {
    if i == 0 {
      InitHasInv(states[0]);
    } else {
      RunKeepsInv(states, steps, i - 1);
      assert Follows(states[i - 1], steps[i - 1], states[i]) && Careful(states[i - 1], steps[i - 1]);
      StepKeepsInv(states[i - 1], steps[i - 1]);
    }
  }

  /** In every careful run, a scan that returned Ok reported for each key the version that was visible
      to it when it registered, and the registered scans are counted exactly. */
  lemma {:induction false} ScanIsConsistent<T>(states: seq<Index<T>>, steps: seq<Step<T>>, i: nat)
    requires Run(states, steps) && CarefulRun(states, steps) && i < |states|
    ensures forall id :: id in states[i].scans && states[i].scans[id].phase == Done(true) ==>
              ReportsStart(states[i].scans[id])
    ensures CountsScans(states[i].ongoing, states[i].scans)
  {
    RunKeepsInv(states, steps, i);
    forall id | id in states[i].scans && states[i].scans[id].phase == Done(true)
      ensures ReportsStart(states[i].scans[id])
    {
      assert ScanOk(states[i], states[i].scans[id]);
    }
  }

  // ---------------------------------------------------------------------------------------
  // A clean without a bound can break a scan

  lemma {:induction false} OneMore<T>(states: seq<Index<T>>, steps: seq<Step<T>>, step: Step<T>)
    returns (states': seq<Index<T>>, steps': seq<Step<T>>)
    requires Run(states, steps) && Enabled(states[|steps|], step) && CanDeregister(states[|steps|], step)
    ensures Run(states', steps') && |steps'| == |steps| + 1
    ensures states'[|steps'|] == Apply(states[|steps|], step)
  {
    states', steps' := states + [Apply(states[|steps|], step)], steps + [step];
    forall i {:trigger steps'[i]} | 0 <= i < |steps'| ensures Follows(states'[i], steps'[i], states'[i + 1]) {
      assert i < |steps| ==> Follows(states[i], steps[i], states[i + 1]);
    }
  }

  /** The version in slot 1, and a later one in slot 2. */
  ghost function Older<T>(account: T): Entry<Located<T>> {
    Entry(1, Located(Some(account), 0), false)
  }

  ghost function Newer<T>(account: T): Entry<Located<T>> {
    Entry(2, Located(Some(account), 0), false)
  }

  /** Under roots 1 and 2, a clean hides the version in slot 1 from a scan that may read only that. */
  lemma {:induction false} CleanHidesVersion<T>(account: T)
    ensures var before, list := [Older(account)], [Older(account), Newer(account)];
      && Shown(before, Roots({1}, 1), ScanView({1}, 1)) == Some((1, account))
      && Filter(list, Outside({2})) == Filter(before, Outside({2}))
      && Shown(Cleaned(list, Roots({1, 2}, 2), None), Roots({1, 2}, 2), ScanView({1}, 1)) == None
  {
    var before, list := [Older(account)], [Older(account), Newer(account)];
    var roots, view := Roots({1, 2}, 2), ScanView({1}, 1);
    assert list[..1] == before && before[..0] == [];
    assert Older(account) in list && Newer(account) in list;
    assert Filter(list, Outside({2})) == Filter(before, Outside({2})) + [];
    SeenIsBest(before, Roots({1}, 1), view);
    SeenIsBest(list, roots, view);
    assert Seen(list, roots, view) == Some(Older(account));
    var cleaned := Cleaned(list, roots, None);
    SeenIsBest(cleaned, roots, view);
    OutdatedIsPurged(roots, None, view, 1, 2, Located(Some(account), 0));
    forall e | e in cleaned && Visible(roots, view, e.slot) ensures e == Older(account) {
      FilterHas(list, Keeps(list, roots, None), e);
    }
  }

  /** One account, in slot 1, and a clean that has started with nothing to bound it. */
  ghost function CleanStarted<T>(account: T): Index<T> {
    Index(map[0 := [Older(account)]], Roots({1}, 1), map[], {}, map[], map[0 := None], {1})
  }

  lemma {:induction false} CleanStarts<T>(account: T) returns (states: seq<Index<T>>, steps: seq<Step<T>>)
    ensures Run(states, steps) && states[|steps|] == CleanStarted(account)
  {
    var s := CleanStarted(account).(cleans := map[]);
    assert s.rooted == s.roots.alive + {s.roots.maxInclusive};
    states, steps := OneMore([s], [], StartClean(0, None, None));
    assert map[][0 := None] == CleanStarted(account).cleans;
  }

  /** The scan has registered under root 1, for a bank in slot 1. */
  ghost function Registered<T>(account: T): Index<T> {
    var s := CleanStarted(account);
    s.(ongoing := map[1 := 1],
       scans := map[0 := Scan(0, {1}, Running, 1, ScanView({1}, 1), map[], s.lists, s.roots)])
  }

  lemma {:induction false} ScanRegisters<T>(account: T) returns (states: seq<Index<T>>, steps: seq<Step<T>>)
    ensures Run(states, steps) && states[|steps|] == Registered(account)
  {
    states, steps := CleanStarts(account);
    states, steps := OneMore(states, steps, CheckScan(0, 0, {1}));
    states, steps := OneMore(states, steps, Register(0));
    assert states[|steps|].scans == Registered(account).scans;
  }

  /** A newer version has been stored and rooted, and the clean has come to the account. */
  ghost function Overtaken<T>(account: T): Index<T> {
    var s, list, roots := Registered(account), [Older(account), Newer(account)], Roots({1, 2}, 2);
    s.(lists := WithList(map[0 := list], 0, Cleaned(list, roots, None)), roots := roots, rooted := {1, 2})
  }

  lemma {:induction false} NewerIsRooted<T>(account: T) returns (states: seq<Index<T>>, steps: seq<Step<T>>)
    ensures Run(states, steps)
    ensures states[|steps|] == Registered(account).(lists := map[0 := [Older(account), Newer(account)]],
                                                    roots := Roots({1, 2}, 2), rooted := {1, 2})
  {
    CleanHidesVersion(account);
    states, steps := ScanRegisters(account);
    states, steps := OneMore(states, steps, Store(0, 2, [Older(account), Newer(account)]));
    assert states[|steps|].lists == map[0 := [Older(account), Newer(account)]];
    states, steps := OneMore(states, steps, AddRoot(2));
    assert {1} + {2} == {1, 2};
  }

  lemma {:induction false} CleanOvertakes<T>(account: T) returns (states: seq<Index<T>>, steps: seq<Step<T>>)
    ensures Run(states, steps) && states[|steps|] == Overtaken(account)
  {
    states, steps := NewerIsRooted(account);
    states, steps := OneMore(states, steps, CleanKey(0, 0));
  }

  /** A run, from an index with one account, in which a scan returns Ok but missed that account: a
      clean that started before any scan, with no root proposed, reached past the scan's root. */
  lemma {:induction false} UnboundedCleanBreaksScan<T>(account: T) returns (states: seq<Index<T>>, steps: seq<Step<T>>)
    ensures Run(states, steps)
    ensures var scans := states[|steps|].scans;
      0 in scans && scans[0].phase == Done(true) && !ReportsStart(scans[0])
  {
    CleanHidesVersion(account);
    states, steps := CleanOvertakes(account);
    states, steps := OneMore(states, steps, ReadKey(0, 0));
    assert states[|steps|].scans[0].reported == map[0 := None];
    states, steps := OneMore(states, steps, Deregister(0));
    states, steps := OneMore(states, steps, Finish(0));
    assert AtStart(states[|steps|].scans[0], 0) == Some((1, account));
  }
}
