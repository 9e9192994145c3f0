/** Why a scan may trust its fork: the tree of banks, how banks record their ancestors, and how
    squashing a bank makes its parents roots. The claims hold for every bank still referenced,
    whichever roots were set since it was built. */
module BankForks {
  import opened Wrappers
  import opened SlotLists
  import Scans = ScanProtocol

  /** `parent` is the slot the bank was built on. `link` is the reference to the parent bank,
      which squashing clears. `ancestors` is computed once, when the bank is built. */
  datatype Bank = Bank(parent: Option<Slot>, link: Option<Slot>, ancestors: set<Slot>)

  /** All banks ever built, the largest root, and every root. */
  datatype Forks = Forks(banks: map<Slot, Bank>, root: Slot, rooted: set<Slot>)

  ghost predicate WellLinked(banks: map<Slot, Bank>) {
    forall b {:trigger LinkedBelow(banks, b)} :: b in banks ==> LinkedBelow(banks, b)
  }

  ghost predicate LinkedBelow(banks: map<Slot, Bank>, b: Slot)
    requires b in banks
  {
    && (banks[b].parent.Some? ==> banks[b].parent.value < b && banks[b].parent.value in banks)
    && (banks[b].link.Some? ==> banks[b].link == banks[b].parent)
  }

  /** The bank and every bank below it in the tree. */
  ghost function Chain(banks: map<Slot, Bank>, b: Slot): set<Slot>
    requires WellLinked(banks) && b in banks
    decreases b
  {
    assert LinkedBelow(banks, b);
    {b} + if banks[b].parent.Some? then Chain(banks, banks[b].parent.value) else {}
  }

  /** What `parents()` returns: the banks reached through references, nearest first. */
  function Parents(banks: map<Slot, Bank>, b: Slot): seq<Slot>
    requires WellLinked(banks) && b in banks
    decreases b
  {
    assert LinkedBelow(banks, b);
    match banks[b].link
    case None => []
    case Some(p) => [p] + Parents(banks, p)
  }

  function ToSet(s: seq<Slot>): set<Slot> {
    set x | x in s
  }

  datatype Step =
    | NewBank(slot: Slot, parent: Slot)
    | AddRoot(slot: Slot)
    | Squashed

  /** Squashing adds its roots one by one, from the oldest parent up, then clears the reference. */
  ghost predicate Enabled(f: Forks, step: Step)
    requires WellLinked(f.banks) && f.root in f.banks
  {
    match step
    case NewBank(slot, parent) => parent in f.banks && slot !in f.banks && parent < slot
    case AddRoot(slot) => slot == f.root || (slot in f.banks && f.banks[slot].parent == Some(f.root))
    case Squashed => true
  }

  ghost function Apply(f: Forks, step: Step): Forks
    requires WellLinked(f.banks) && f.root in f.banks && Enabled(f, step)
  {
    match step
    case NewBank(slot, parent) =>
      var ancestors := {slot, parent} + ToSet(Parents(f.banks, parent));
      f.(banks := f.banks[slot := Bank(Some(parent), Some(parent), ancestors)])
    case AddRoot(slot) => f.(root := slot, rooted := f.rooted + {slot})
    case Squashed => f.(banks := f.banks[f.root := f.banks[f.root].(link := None)])
  }

  /** A lone first bank, with any older roots a snapshot brought. */
  ghost predicate Init(f: Forks) {
    f.banks == map[f.root := Bank(None, None, {f.root})] && f.root in f.rooted
  }

  /** Only banks up to the root have lost their parent reference. */
  ghost predicate LinksAboveRoot(f: Forks) {
    forall b :: b in f.banks && f.banks[b].link != f.banks[b].parent ==> b <= f.root
  }

  /** Claim 1: a bank records every bank below it in the tree, from the root up. */
  ghost predicate RecordsAbove(f: Forks)
    requires WellLinked(f.banks)
  {
    forall b, a :: b in f.banks && a in Chain(f.banks, b) && a >= f.root ==> a in f.banks[b].ancestors
  }

  /** A bank records nothing else. */
  ghost predicate RecordsChain(f: Forks)
    requires WellLinked(f.banks)
  {
    forall b :: b in f.banks ==> f.banks[b].ancestors <= Chain(f.banks, b)
  }

  ghost predicate Inv(f: Forks) {
    && WellLinked(f.banks) && f.root in f.banks
    && LinksAboveRoot(f) && RecordsAbove(f) && RecordsChain(f)
    && Chain(f.banks, f.root) <= f.rooted
  }

  lemma {:induction false} ChainBounds(banks: map<Slot, Bank>, b: Slot, a: Slot)
    requires WellLinked(banks) && b in banks && a in Chain(banks, b)
    ensures a <= b && a in banks
    decreases b
  {
    assert LinkedBelow(banks, b);
    if a != b {
      ChainBounds(banks, banks[b].parent.value, a);
    }
  }

  /** Chains are linear: below a member of a chain, the chain is the member's own chain. */
  lemma {:induction false} ChainIsLinear(banks: map<Slot, Bank>, b: Slot, m: Slot, a: Slot)
    requires WellLinked(banks) && b in banks && m in Chain(banks, b) && m in banks && a in Chain(banks, b) && a <= m
    ensures a in Chain(banks, m)
    decreases b
  {
    assert LinkedBelow(banks, b);
    if m != b {
      ChainBounds(banks, b, m);
      ChainIsLinear(banks, banks[b].parent.value, m, a);
    }
  }

  lemma {:induction false} ParentsInChain(banks: map<Slot, Bank>, b: Slot)
    requires WellLinked(banks) && b in banks
    ensures ToSet(Parents(banks, b)) <= Chain(banks, b)
    decreases b
  {
    assert LinkedBelow(banks, b);
    if banks[b].link.Some? {
      ParentsInChain(banks, banks[b].link.value);
    }
  }

  /** References reach every bank of the chain from the root up. */
  lemma {:induction false} ParentsReachRoot(f: Forks, b: Slot, a: Slot)
    requires WellLinked(f.banks) && LinksAboveRoot(f) && b in f.banks && a in Chain(f.banks, b) && f.root <= a < b
    ensures a in Parents(f.banks, b)
    decreases b
  {
    assert LinkedBelow(f.banks, b);
    var p := f.banks[b].parent.value;
    assert f.banks[b].link == Some(p);
    if a != p {
      ChainBounds(f.banks, p, a);
      ParentsReachRoot(f, p, a);
    }
  }

  /** Adding a bank, or clearing a reference, does not change the chains of the others. */
  lemma {:induction false} ChainStable(banks: map<Slot, Bank>, banks': map<Slot, Bank>, b: Slot)
    requires WellLinked(banks) && WellLinked(banks') && b in banks
    requires forall q :: q in banks ==> q in banks' && banks'[q].parent == banks[q].parent
    ensures Chain(banks', b) == Chain(banks, b)
    decreases b
  {
    assert LinkedBelow(banks, b);
    if banks[b].parent.Some? {
      ChainStable(banks, banks', banks[b].parent.value);
    }
  }

  lemma {:induction false} NewBankKeepsInv(f: Forks, slot: Slot, parent: Slot)
    requires Inv(f) && Enabled(f, NewBank(slot, parent))
    ensures Inv(Apply(f, NewBank(slot, parent)))
  {
    var f' := Apply(f, NewBank(slot, parent));
    forall b | b in f'.banks ensures LinkedBelow(f'.banks, b) {
      if b in f.banks { assert LinkedBelow(f.banks, b); }
    }
    forall b | b in f.banks ensures Chain(f'.banks, b) == Chain(f.banks, b) {
      ChainStable(f.banks, f'.banks, b);
    }
    assert Chain(f'.banks, slot) == {slot} + Chain(f.banks, parent);
    forall a | a in Chain(f.banks, parent) && a >= f.root ensures a in f'.banks[slot].ancestors {
      ChainBounds(f.banks, parent, a);
      if a != parent {
        ParentsReachRoot(f, parent, a);
      }
    }
    ParentsInChain(f.banks, parent);
  }

  lemma {:induction false} AddRootKeepsInv(f: Forks, slot: Slot)
    requires Inv(f) && Enabled(f, AddRoot(slot))
    ensures Inv(Apply(f, AddRoot(slot))) && slot >= f.root
  {
    if slot != f.root {
      assert LinkedBelow(f.banks, slot);
    }
  }

  lemma {:induction false} SquashedKeepsInv(f: Forks)
    requires Inv(f)
    ensures Inv(Apply(f, Squashed)) && Parents(Apply(f, Squashed).banks, f.root) == []
  {
    var f' := Apply(f, Squashed);
    forall b | b in f'.banks ensures LinkedBelow(f'.banks, b) {
      assert LinkedBelow(f.banks, b);
    }
    forall b | b in f.banks ensures Chain(f'.banks, b) == Chain(f.banks, b) {
      ChainStable(f.banks, f'.banks, b);
    }
  }

  ghost predicate Run(states: seq<Forks>, steps: seq<Step>) {
    && |states| == |steps| + 1
    && Init(states[0])
    && forall i {:trigger steps[i]} :: 0 <= i < |steps| ==> Follows(states[i], steps[i], states[i + 1])
  }

  ghost predicate Follows(f: Forks, step: Step, f': Forks) {
    WellLinked(f.banks) && f.root in f.banks && Enabled(f, step) && f' == Apply(f, step)
  }

  lemma {:induction false} StepKeepsInv(f: Forks, step: Step, f': Forks)
    requires Inv(f) && Follows(f, step, f')
    ensures Inv(f')
  {
    match step
    case NewBank(slot, parent) => NewBankKeepsInv(f, slot, parent);
    case AddRoot(slot) => AddRootKeepsInv(f, slot);
    case Squashed => SquashedKeepsInv(f);
  }

  lemma {:induction false} InitHasInv(f: Forks)
    requires Init(f)
    ensures Inv(f)
  {
    assert LinkedBelow(f.banks, f.root);
    assert Chain(f.banks, f.root) == {f.root};
  }

  lemma {:induction false} RunKeepsInv(states: seq<Forks>, steps: seq<Step>)
    requires Run(states, steps)
    ensures forall i :: 0 <= i < |states| ==> Inv(states[i])
  {
    InitHasInv(states[0]);
    for n := 0 to |steps|
      invariant forall i :: 0 <= i <= n ==> Inv(states[i])
    {
      StepKeepsInv(states[n], steps[n], states[n + 1]);
    }
  }

  /** The two facts scans rely on, for every bank in every run. A bank on top of the maximum root
      records it; and a bank that records the maximum root records only roots below it. */
  lemma {:induction false} ScanForkIsRooted(states: seq<Forks>, steps: seq<Step>, i: nat, b: Slot)
    requires Run(states, steps) && i < |states| && b in states[i].banks
    ensures var f := states[i];
      && WellLinked(f.banks)
      && (f.root in f.banks[b].ancestors <==> f.root in Chain(f.banks, b))
      && (f.root in f.banks[b].ancestors ==> forall a :: a in f.banks[b].ancestors && a <= f.root ==> a in f.rooted)
  {
    var f := states[i];
    RunKeepsInv(states, steps);
    if f.root in f.banks[b].ancestors {
      forall a | a in f.banks[b].ancestors && a <= f.root ensures a in f.rooted {
        ChainIsLinear(f.banks, b, f.root, a);
      }
    }
  }

  /** So a scan of any bank may register, when the index holds the same roots. */
  lemma {:induction false} RegisterIsAllowed<T>(states: seq<Forks>, steps: seq<Step>, i: nat, b: Slot,
                                                s: Scans.Index<T>, id: Scans.Id)
    requires Run(states, steps) && i < |states| && b in states[i].banks
    requires Scans.RootsHeld(s) && s.rooted == states[i].rooted && s.roots.maxInclusive == states[i].root
    requires id in s.scans && s.scans[id].phase == Scans.Checked && s.scans[id].fork == states[i].banks[b].ancestors
    ensures Scans.Enabled(s, Scans.Register(id))
  {
    var f := states[i];
    ScanForkIsRooted(states, steps, i, b);
    var view := Scans.ScanView(f.banks[b].ancestors, s.roots.maxInclusive);
    forall k ensures RootedBelow(Scans.ListOf(s.lists, k), s.roots, view, s.roots.maxInclusive) {
      forall e | e in Scans.ListOf(s.lists, k) && IsAncestor(view, e.slot) && e.slot < s.roots.maxInclusive
        ensures e.slot in s.roots.alive
      {
        assert e.slot in s.rooted;
        assert !Scans.NoEntryAt(s, e.slot);
      }
    }
  }

  /** Squashing a bank above the root adds roots in order: from the old root, each one a child of
      the one before, so the ordering assertion of `add_root` holds throughout. */
  lemma {:induction false} SquashIsOrdered(f: Forks, b: Slot)
    requires Inv(f) && f.banks[f.root].link.None? && b in f.banks && f.root in Chain(f.banks, b)
    ensures var path := [b] + Parents(f.banks, b);
      && path[|path| - 1] == f.root
      && forall i :: 0 <= i < |path| - 1 ==> path[i] in f.banks && f.banks[path[i]].parent == Some(path[i + 1])
    decreases b
  {
    assert LinkedBelow(f.banks, b);
    if b != f.root {
      ChainBounds(f.banks, b, f.root);
      var p := f.banks[b].parent.value;
      assert f.banks[b].link == Some(p);
      SquashIsOrdered(f, p);
    }
  }
}
