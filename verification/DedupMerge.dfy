/** One bin of the k-way merge that keeps the last version of every account. Slot groups are
    ordered from the oldest to the newest, and each is sorted by pubkey. The working set holds
    one pointer per unfinished group, in strictly descending pubkey order. */
module DedupMerge {
  import opened Wrappers
  import opened Search
  import opened AccountVersions
  import opened PubkeyBins
  import opened CumulativeOffsets

  /** An item of a slot group. */
  datatype Pointer = Pointer(group: nat, offset: nat)

  datatype Job<H> = Job(groups: seq<seq<Version<H>>>, binOf: Pubkey -> nat, bin: nat)

  ghost predicate Ascends<H>(data: seq<Version<H>>) {
    forall a, b :: 0 <= a < b < |data| ==> data[a].pubkey <= data[b].pubkey
  }

  ghost predicate WellFormed<H>(j: Job<H>) {
    && (forall a, b :: a <= b ==> j.binOf(a) <= j.binOf(b))
    && (forall g :: 0 <= g < |j.groups| ==> Ascends(j.groups[g]))
  }

  ghost predicate InBin<H>(j: Job<H>, g: nat, o: nat) {
    g < |j.groups| && o < |j.groups[g]| && j.binOf(j.groups[g][o].pubkey) == j.bin
  }

  /** The pubkey an item holds. */
  function KeyAt<H>(j: Job<H>, p: Pointer): int {
    if p.group < |j.groups| && p.offset < |j.groups[p.group]| then j.groups[p.group][p.offset].pubkey else -1
  }

  // ---------------------------------------------------------------------------------------
  // The frontier: how far each group has been consumed. A finished group is at its end.

  ghost predicate Live<H>(j: Job<H>, front: seq<nat>, g: nat) {
    g < |j.groups| == |front| && front[g] < |j.groups[g]|
  }

  ghost predicate Frontier<H>(j: Job<H>, front: seq<nat>) {
    && |front| == |j.groups|
    && (forall g :: 0 <= g < |front| ==> front[g] <= |j.groups[g]|)
    && (forall g: nat :: Live(j, front, g) ==> InBin(j, g, front[g]))
  }

  /** A newer group is about to deliver key `k`. */
  ghost predicate Shadowed<H>(j: Job<H>, front: seq<nat>, g: nat, k: int) {
    exists s: nat :: g < s && Live(j, front, s) && KeyAt(j, Pointer(s, front[s])) == k
  }

  /** Item `o` of group `g` was passed only because its key is emitted or a newer group has it. */
  ghost predicate Accounted<H>(j: Job<H>, front: seq<nat>, low: nat, g: nat, o: nat) {
    KeyAt(j, Pointer(g, o)) < low || Shadowed(j, front, g, KeyAt(j, Pointer(g, o)))
  }

  ghost predicate PassedOk<H>(j: Job<H>, front: seq<nat>, low: nat, from: nat)
    requires |front| == |j.groups|
  {
    forall g: nat, o: nat :: from <= g && InBin(j, g, o) && o < front[g] ==> Accounted(j, front, low, g, o)
  }

  ghost predicate AtLeast<H>(j: Job<H>, front: seq<nat>, low: nat) {
    forall g: nat :: Live(j, front, g) ==> low <= KeyAt(j, Pointer(g, front[g]))
  }

  /** The working set holds exactly the frontier of the unfinished groups, except `pending`. */
  ghost predicate Holds<H>(j: Job<H>, front: seq<nat>, ws: seq<Pointer>, pending: Option<Pointer>) {
    && (forall i :: 0 <= i < |ws| ==> Live(j, front, ws[i].group) && ws[i].offset == front[ws[i].group])
    && (forall a, b :: 0 <= a < b < |ws| ==> KeyAt(j, ws[a]) > KeyAt(j, ws[b]))
    && (forall g: nat :: Live(j, front, g) ==> Pointer(g, front[g]) in ws || pending == Some(Pointer(g, front[g])))
    && (pending.Some? ==> Live(j, front, pending.value.group) && pending.value.offset == front[pending.value.group])
    && (pending.Some? ==> pending.value !in ws)
  }

  /** Everything the merge keeps: keys below `low` are emitted, groups before `from` are not
      started yet. */
  ghost predicate Invariant<H>(j: Job<H>, front: seq<nat>, ws: seq<Pointer>, pending: Option<Pointer>, low: nat,
                               from: nat) {
    WellFormed(j) && Frontier(j, front) && Holds(j, front, ws, pending)
    && PassedOk(j, front, low, from) && AtLeast(j, front, low)
  }

  /** Entries left in all groups. */
  ghost function Left<H>(groups: seq<seq<Version<H>>>, front: seq<nat>): int
    requires |front| == |groups|
  {
    if groups == [] then 0
    else
      var n := |groups| - 1;
      Left(groups[..n], front[..n]) + |groups[n]| - front[n]
  }

  lemma {:induction false} LeftDecreases<H>(groups: seq<seq<Version<H>>>, front: seq<nat>, g: nat, o: nat)
    requires |front| == |groups| && g < |groups|
    ensures Left(groups, front[g := o]) == Left(groups, front) + front[g] - o
    decreases |groups|
  {
    var n := |groups| - 1;
    if g < n {
      LeftDecreases(groups[..n], front[..n], g, o);
      assert front[g := o][..n] == front[..n][g := o];
    } else {
      assert front[g := o][..n] == front[..n];
    }
  }

  lemma {:induction false} LeftNonNegative<H>(groups: seq<seq<Version<H>>>, front: seq<nat>)
    requires |front| == |groups| && forall g :: 0 <= g < |front| ==> front[g] <= |groups[g]|
    ensures Left(groups, front) >= 0
    decreases |groups|
  {
    if groups != [] {
      LeftNonNegative(groups[..|groups| - 1], front[..|groups| - 1]);
    }
  }

  // ---------------------------------------------------------------------------------------
  // Taking an item

  /** `last` is the last item with the key of item `o`; `next` is the item after it, if in the bin. */
  ghost predicate IsItem<H>(data: seq<Version<H>>, binOf: Pubkey -> nat, bin: nat, o: nat, last: nat,
                            next: Option<nat>) {
    && o <= last < |data|
    && (forall i :: o <= i <= last ==> data[i].pubkey == data[o].pubkey)
    && (forall i :: last < i < |data| ==> data[i].pubkey > data[o].pubkey)
    && match next
       case Some(n) => n == last + 1 < |data| && binOf(data[n].pubkey) == bin
       case None => forall i :: last < i < |data| ==> binOf(data[i].pubkey) != bin
  }

  method GetItem<H>(data: seq<Version<H>>, binOf: Pubkey -> nat, bin: nat, o: nat)
    returns (last: nat, next: Option<nat>)
    requires o < |data| && Ascends(data) && binOf(data[o].pubkey) == bin
    requires forall a, b :: a <= b ==> binOf(a) <= binOf(b)
    ensures IsItem(data, binOf, bin, o, last, next)
  {
    var index := o + 1;
    next := None;
    while index < |data|
      invariant o < index <= |data|
      invariant forall i :: o <= i < index ==> data[i].pubkey == data[o].pubkey
    {
      if data[index].pubkey == data[o].pubkey {
        index := index + 1;
        continue;
      }
      assert forall i :: index <= i < |data| ==> data[i].pubkey >= data[index].pubkey > data[o].pubkey;
      if binOf(data[index].pubkey) > bin {
        break;
      }
      next := Some(index);
      break;
    }
    last := index - 1;
  }

  /** Where a group stands after one of its keys is used up. */
  ghost function Advanced(next: Option<nat>, end: nat): nat {
    if next.Some? then next.value else end
  }

  ghost function NextPointer(g: nat, next: Option<nat>): Option<Pointer> {
    if next.Some? then Some(Pointer(g, next.value)) else None
  }

  lemma {:induction false} AdvanceFrontier<H>(j: Job<H>, front: seq<nat>, g: nat, last: nat, next: Option<nat>)
    requires Frontier(j, front) && Live(j, front, g)
    requires IsItem(j.groups[g], j.binOf, j.bin, front[g], last, next)
    ensures Frontier(j, front[g := Advanced(next, |j.groups[g]|)])
  {
    var front' := front[g := Advanced(next, |j.groups[g]|)];
    forall q: nat | Live(j, front', q) ensures InBin(j, q, front'[q]) {
      if q != g {
        assert Live(j, front, q);
      }
    }
  }

  /** Two groups meet on a key: the older one may skip it. */
  lemma {:induction false} OlderSkips<H>(j: Job<H>, front: seq<nat>, low: nat, from: nat, older: nat, newer: nat,
                                         last: nat, next: Option<nat>)
    requires WellFormed(j) && Frontier(j, front) && PassedOk(j, front, low, from) && AtLeast(j, front, low)
    requires older < newer && Live(j, front, older) && Live(j, front, newer)
    requires KeyAt(j, Pointer(older, front[older])) == KeyAt(j, Pointer(newer, front[newer]))
    requires IsItem(j.groups[older], j.binOf, j.bin, front[older], last, next)
    ensures var front' := front[older := Advanced(next, |j.groups[older]|)];
      Frontier(j, front') && PassedOk(j, front', low, from) && AtLeast(j, front', low)
  {
    AdvanceFrontier(j, front, older, last, next);
    var front' := front[older := Advanced(next, |j.groups[older]|)];
    var k := KeyAt(j, Pointer(older, front[older]));
    assert Live(j, front', newer);
    forall g: nat, o: nat | from <= g && InBin(j, g, o) && o < front'[g]
      ensures Accounted(j, front', low, g, o)
    {
      var q := KeyAt(j, Pointer(g, o));
      if g == older && front[older] <= o {
        assert q == k;
        assert Shadowed(j, front', g, q);
      } else {
        assert Accounted(j, front, low, g, o);
        if q >= low {
          var s: nat :| g < s && Live(j, front, s) && KeyAt(j, Pointer(s, front[s])) == q;
          var t := if s == older then newer else s;
          assert Live(j, front', t) && KeyAt(j, Pointer(t, front'[t])) == q;
        }
      }
    }
    forall g: nat | Live(j, front', g) ensures low <= KeyAt(j, Pointer(g, front'[g])) {
      assert Live(j, front, g);
      assert low <= KeyAt(j, Pointer(g, front[g]));
    }
  }

  // ---------------------------------------------------------------------------------------
  // Adding an item to the working set

  function Inserted(ws: seq<Pointer>, i: nat, p: Pointer): seq<Pointer>
    requires i <= |ws|
  {
    ws[..i] + [p] + ws[i..]
  }

  lemma {:induction false} InsertDescends<H>(j: Job<H>, ws: seq<Pointer>, p: Pointer, i: nat)
    requires i <= |ws|
    requires forall a, b :: 0 <= a < b < |ws| ==> KeyAt(j, ws[a]) > KeyAt(j, ws[b])
    requires forall a :: 0 <= a < i ==> KeyAt(j, ws[a]) > KeyAt(j, p)
    requires forall a :: i <= a < |ws| ==> KeyAt(j, ws[a]) < KeyAt(j, p)
    ensures var ws' := Inserted(ws, i, p);
      forall a, b :: 0 <= a < b < |ws'| ==> KeyAt(j, ws'[a]) > KeyAt(j, ws'[b])
  {
    var ws' := Inserted(ws, i, p);
    forall a, b | 0 <= a < b < |ws'| ensures KeyAt(j, ws'[a]) > KeyAt(j, ws'[b]) {
      assert ws'[a] == if a < i then ws[a] else if a == i then p else ws[a - 1];
      assert ws'[b] == if b < i then ws[b] else if b == i then p else ws[b - 1];
    }
  }

  lemma {:induction false} InsertKeeps<H>(j: Job<H>, front: seq<nat>, ws: seq<Pointer>, p: Pointer, i: nat, low: nat,
                                          from: nat)
    requires Invariant(j, front, ws, Some(p), low, from) && i <= |ws|
    requires forall a :: 0 <= a < i ==> KeyAt(j, ws[a]) > KeyAt(j, p)
    requires forall a :: i <= a < |ws| ==> KeyAt(j, ws[a]) < KeyAt(j, p)
    ensures Invariant(j, front, Inserted(ws, i, p), None, low, from)
  {
    InsertDescends(j, ws, p, i);
    var ws' := Inserted(ws, i, p);
    forall a | 0 <= a < |ws'| ensures Live(j, front, ws'[a].group) && ws'[a].offset == front[ws'[a].group] {
      assert ws'[a] == if a < i then ws[a] else if a == i then p else ws[a - 1];
    }
    forall q | q in ws ensures q in ws' {
      assert q in ws[..i] || q in ws[i..];
    }
  }

  /** The pending item loses to the newer group already in the working set. */
  lemma {:induction false} SkipHolds<H>(j: Job<H>, front: seq<nat>, ws: seq<Pointer>, p: Pointer, last: nat,
                                        next: Option<nat>)
    requires Holds(j, front, ws, Some(p))
    requires IsItem(j.groups[p.group], j.binOf, j.bin, p.offset, last, next)
    ensures var front' := front[p.group := Advanced(next, |j.groups[p.group]|)];
      Holds(j, front', ws, NextPointer(p.group, next))
  {
    var front' := front[p.group := Advanced(next, |j.groups[p.group]|)];
    assert forall i :: 0 <= i < |ws| ==> ws[i] != p && ws[i].offset == front[ws[i].group];
    forall i | 0 <= i < |ws| ensures Live(j, front', ws[i].group) && ws[i].offset == front'[ws[i].group] {
      assert Live(j, front, ws[i].group);
    }
    forall g: nat | Live(j, front', g)
      ensures Pointer(g, front'[g]) in ws || NextPointer(p.group, next) == Some(Pointer(g, front'[g]))
    {
      if g != p.group {
        assert Live(j, front, g);
      }
    }
  }

  /** Only item `i` of the working set is the older group's. */
  lemma {:induction false} ReplaceStaysLive<H>(j: Job<H>, front: seq<nat>, ws: seq<Pointer>, p: Pointer, i: nat, o: nat)
    requires Holds(j, front, ws, Some(p)) && i < |ws| && KeyAt(j, ws[i]) == KeyAt(j, p)
    ensures p.group != ws[i].group
    ensures var front' := front[ws[i].group := o];
      forall a :: 0 <= a < |ws| && a != i ==>
        Live(j, front', ws[a].group) && ws[a].offset == front'[ws[a].group] && ws[a].group != ws[i].group
  {
    assert p.group != ws[i].group by { assert p !in ws && ws[i].offset == front[ws[i].group]; }
    forall a | 0 <= a < |ws| && a != i ensures ws[a].group != ws[i].group && Live(j, front, ws[a].group) {
      assert KeyAt(j, ws[a]) != KeyAt(j, ws[i]);
    }
  }

  lemma {:induction false} ReplaceCovers<H>(j: Job<H>, front: seq<nat>, ws: seq<Pointer>, p: Pointer, i: nat, g: nat)
    requires Holds(j, front, ws, Some(p)) && i < |ws| && Live(j, front, g) && g != ws[i].group
    ensures Pointer(g, front[g]) in ws[i := p]
  {
    var q, ws' := Pointer(g, front[g]), ws[i := p];
    if q in ws {
      var a :| 0 <= a < |ws| && ws[a] == q;
      assert ws'[a] == q;
    } else {
      assert ws'[i] == q;
    }
  }

  /** The pending item replaces the older group's item with the same key. */
  lemma {:induction false} ReplaceHolds<H>(j: Job<H>, front: seq<nat>, ws: seq<Pointer>, p: Pointer, i: nat,
                                           last: nat, next: Option<nat>)
    requires Holds(j, front, ws, Some(p)) && i < |ws| && KeyAt(j, ws[i]) == KeyAt(j, p)
    requires IsItem(j.groups[ws[i].group], j.binOf, j.bin, ws[i].offset, last, next)
    ensures var front' := front[ws[i].group := Advanced(next, |j.groups[ws[i].group]|)];
      Holds(j, front', ws[i := p], NextPointer(ws[i].group, next))
  {
    var older := ws[i].group;
    var front' := front[older := Advanced(next, |j.groups[older]|)];
    var ws' := ws[i := p];
    ReplaceStaysLive(j, front, ws, p, i, Advanced(next, |j.groups[older]|));
    forall a, b | 0 <= a < b < |ws'| ensures KeyAt(j, ws'[a]) > KeyAt(j, ws'[b]) {
      assert KeyAt(j, ws[a]) > KeyAt(j, ws[b]);
    }
    forall g: nat | Live(j, front', g)
      ensures Pointer(g, front'[g]) in ws' || NextPointer(older, next) == Some(Pointer(g, front'[g]))
    {
      if g != older {
        assert Live(j, front, g);
        ReplaceCovers(j, front, ws, p, i, g);
      }
    }
  }

  function NegatedKeys<H>(j: Job<H>, ws: seq<Pointer>): seq<int> {
    seq(|ws|, i requires 0 <= i < |ws| => -KeyAt(j, ws[i]))
  }

  lemma {:induction false} NegatedKeysAscend<H>(j: Job<H>, front: seq<nat>, ws: seq<Pointer>, pending: Option<Pointer>)
    requires Holds(j, front, ws, pending)
    ensures Ascending(NegatedKeys(j, ws))
  {
  }

  /** Where the pending item goes: `Err` its place in the working set, `Ok` the item it ties with. */
  function Place<H>(j: Job<H>, ws: seq<Pointer>, p: Pointer): (r: Found)
    requires Ascending(NegatedKeys(j, ws))
    ensures r.Ok? ==> r.index < |ws| && KeyAt(j, ws[r.index]) == KeyAt(j, p)
    ensures r.Err? ==> r.index <= |ws|
    ensures r.Err? ==> forall a :: 0 <= a < r.index ==> KeyAt(j, ws[a]) > KeyAt(j, p)
    ensures r.Err? ==> forall a :: r.index <= a < |ws| ==> KeyAt(j, ws[a]) < KeyAt(j, p)
  {
    var keys := NegatedKeys(j, ws);
    assert forall a :: 0 <= a < |ws| ==> keys[a] == -KeyAt(j, ws[a]);
    if |ws| > 0 && KeyAt(j, p) < KeyAt(j, ws[|ws| - 1]) then
      assert forall a :: 0 <= a < |ws| ==> keys[a] <= keys[|ws| - 1];
      Err(|ws|)  // below the smallest key: no search needed
    else BinarySearch(keys, -KeyAt(j, p))
  }

  /** Add the next item of a group to the working set, skipping keys that newer groups hold. */
  method AddNextItem<H>(j: Job<H>, next0: Option<Pointer>, ws0: seq<Pointer>,
                        ghost front0: seq<nat>, ghost low: nat, ghost from: nat)
    returns (ws: seq<Pointer>, ghost front: seq<nat>)
    requires Invariant(j, front0, ws0, next0, low, from)
    ensures Invariant(j, front, ws, None, low, from)
    ensures Left(j.groups, front) <= Left(j.groups, front0)
    ensures forall g :: 0 <= g < |front0| ==> front0[g] <= front[g]
  {
    ws, front := ws0, front0;
    var next := next0;
    LeftNonNegative(j.groups, front);
    while next.Some?
      invariant Invariant(j, front, ws, next, low, from)
      invariant 0 <= Left(j.groups, front) <= Left(j.groups, front0)
      invariant forall g :: 0 <= g < |front0| ==> front0[g] <= front[g]
      decreases Left(j.groups, front), next.Some?
    {
      var p := next.value;
      NegatedKeysAscend(j, front, ws, next);
      match Place(j, ws, p) {
        case Err(i) =>
          InsertKeeps(j, front, ws, p, i, low, from);
          ws, next := Inserted(ws, i, p), None;
        case Ok(i) =>
          ws, next, front := ResolveTie(j, p, ws, i, front, low, from);
      }
    }
  }

  /** The pending item and item `i` hold the same key: the newer group keeps it and the older
      one moves on. */
  method ResolveTie<H>(j: Job<H>, p: Pointer, ws0: seq<Pointer>, i: nat,
                       ghost front0: seq<nat>, ghost low: nat, ghost from: nat)
    returns (ws: seq<Pointer>, next: Option<Pointer>, ghost front: seq<nat>)
    requires Invariant(j, front0, ws0, Some(p), low, from)
    requires i < |ws0| && KeyAt(j, ws0[i]) == KeyAt(j, p)
    ensures Invariant(j, front, ws, next, low, from)
    ensures 0 <= Left(j.groups, front) < Left(j.groups, front0)
    ensures forall g :: 0 <= g < |front0| ==> front0[g] <= front[g]
  {
    ws, front := ws0, front0;
    var found := ws[i];
    assert Live(j, front, found.group) && Live(j, front, p.group);
    assert found.group != p.group;
    var older := if found.group > p.group then p else found;
    ghost var newer := if found.group > p.group then found else p;
    var last, after := GetItem(j.groups[older.group], j.binOf, j.bin, older.offset);
    OlderSkips(j, front, low, from, older.group, newer.group, last, after);
    LeftDecreases(j.groups, front, older.group, Advanced(after, |j.groups[older.group]|));
    if found.group > p.group {
      SkipHolds(j, front, ws, p, last, after);
    } else {
      ReplaceHolds(j, front, ws, p, i, last, after);
      ws := ws[i := p];
    }
    front := front[older.group := Advanced(after, |j.groups[older.group]|)];
    next := if after.Some? then Some(Pointer(older.group, after.value)) else None;
    LeftNonNegative(j.groups, front);
  }

  // ---------------------------------------------------------------------------------------
  // What the bin must deliver

  /** The last version of every pubkey of the bin. */
  ghost function BinVersions<H>(groups: seq<seq<Version<H>>>, binOf: Pubkey -> nat, bin: nat): map<Pubkey, Version<H>> {
    var all := Latest(Flatten(groups));
    map k | k in all && binOf(k) == bin :: all[k]
  }

  /** The last item of the newest group that holds a key is that key's last version. */
  lemma {:induction false} NewestWins<H>(groups: seq<seq<Version<H>>>, g: nat, o: nat)
    requires g < |groups| && o < |groups[g]|
    requires forall i :: o < i < |groups[g]| ==> groups[g][i].pubkey != groups[g][o].pubkey
    requires forall s, i :: g < s < |groups| && 0 <= i < |groups[s]| ==> groups[s][i].pubkey != groups[g][o].pubkey
    ensures var k := groups[g][o].pubkey;
      k in Latest(Flatten(groups)) && Latest(Flatten(groups))[k] == groups[g][o]
    decreases |groups|
  {
    var n := |groups| - 1;
    LatestJoin(Flatten(groups[..n]), groups[n]);
    var k := groups[g][o].pubkey;
    if g == n {
      LatestAt(groups[n], o);
    } else {
      NewestWins(groups[..n], g, o);
      assert k !in Latest(groups[n]) by {
        if k in Latest(groups[n]) {
          LatestOccurs(groups[n], k);
        }
      }
    }
  }

  lemma {:induction false} KeyOccurs<H>(groups: seq<seq<Version<H>>>, k: Pubkey) returns (g: nat, o: nat)
    requires k in Latest(Flatten(groups))
    ensures g < |groups| && o < |groups[g]| && groups[g][o].pubkey == k
    decreases |groups|
  {
    var n := |groups| - 1;
    LatestJoin(Flatten(groups[..n]), groups[n]);
    if k in Latest(groups[n]) {
      LatestOccurs(groups[n], k);
      g := n;
      o :| 0 <= o < |groups[n]| && groups[n][o].pubkey == k;
    } else {
      g, o := KeyOccurs(groups[..n], k);
    }
  }

  /** No key of the bin lies between what is emitted and the smallest key in the working set. */
  lemma {:induction false} NothingBetween<H>(j: Job<H>, front: seq<nat>, ws: seq<Pointer>, low: nat, k: Pubkey)
    requires Invariant(j, front, ws, None, low, 0)
    requires ws == [] || k < KeyAt(j, ws[|ws| - 1])
    requires k in BinVersions(j.groups, j.binOf, j.bin)
    ensures k < low
  {
    var g, o := KeyOccurs(j.groups, k);
    assert InBin(j, g, o);
    forall s: nat | Live(j, front, s) ensures KeyAt(j, Pointer(s, front[s])) > k {
      var i :| 0 <= i < |ws| && ws[i] == Pointer(s, front[s]);
      assert i < |ws| - 1 ==> KeyAt(j, ws[i]) > KeyAt(j, ws[|ws| - 1]);
    }
    assert Live(j, front, g) ==> KeyAt(j, Pointer(g, front[g])) > k;
    assert o < front[g];
    assert Accounted(j, front, low, g, o);
    assert !Shadowed(j, front, g, k);
  }

  /** The smallest item of the working set stands for the newest group that holds its key. */
  lemma {:induction false} SmallestIsNewest<H>(j: Job<H>, front: seq<nat>, ws: seq<Pointer>, low: nat, s: nat, i: nat)
    requires Invariant(j, front, ws, None, low, 0) && ws != []
    requires ws[|ws| - 1].group < s < |j.groups| && i < |j.groups[s]|
    ensures j.groups[s][i].pubkey != KeyAt(j, ws[|ws| - 1])
  {
    var p := ws[|ws| - 1];
    var k := KeyAt(j, p);
    forall t: nat | Live(j, front, t) && t != p.group ensures KeyAt(j, Pointer(t, front[t])) > k {
      var a :| 0 <= a < |ws| && ws[a] == Pointer(t, front[t]);
    }
    if i < front[s] && InBin(j, s, i) {
      assert Accounted(j, front, low, s, i);
      assert KeyAt(j, p) >= low;
      assert !Shadowed(j, front, s, k);
    } else if front[s] <= i {
      assert Live(j, front, s);
      assert front[s] < i ==> j.groups[s][front[s]].pubkey <= j.groups[s][i].pubkey;
      assert KeyAt(j, Pointer(s, front[s])) > k;
    } else {
      assert InBin(j, p.group, p.offset);
    }
  }

  /** The last item with the smallest key is the last version of that key. */
  lemma {:induction false} SmallestIsLatest<H>(j: Job<H>, front: seq<nat>, ws: seq<Pointer>, low: nat, last: nat,
                                               next: Option<nat>)
    requires Invariant(j, front, ws, None, low, 0) && ws != []
    requires var p := ws[|ws| - 1]; IsItem(j.groups[p.group], j.binOf, j.bin, p.offset, last, next)
    ensures var p := ws[|ws| - 1];
      var item := j.groups[p.group][last];
      && low <= item.pubkey == KeyAt(j, p)
      && item.pubkey in BinVersions(j.groups, j.binOf, j.bin)
      && BinVersions(j.groups, j.binOf, j.bin)[item.pubkey] == item
  {
    var p := ws[|ws| - 1];
    var k := j.groups[p.group][last].pubkey;
    forall s, i | p.group < s < |j.groups| && 0 <= i < |j.groups[s]| ensures j.groups[s][i].pubkey != k {
      SmallestIsNewest(j, front, ws, low, s, i);
    }
    NewestWins(j.groups, p.group, last);
    assert InBin(j, p.group, p.offset);
  }

  lemma {:induction false} NothingBelowSmallest<H>(j: Job<H>, front: seq<nat>, ws: seq<Pointer>, low: nat)
    requires Invariant(j, front, ws, None, low, 0) && ws != []
    ensures forall q :: q in BinVersions(j.groups, j.binOf, j.bin) && q < KeyAt(j, ws[|ws| - 1]) ==> q < low
  {
    forall q | q in BinVersions(j.groups, j.binOf, j.bin) && q < KeyAt(j, ws[|ws| - 1]) ensures q < low {
      NothingBetween(j, front, ws, low, q);
    }
  }

  /** The list of all versions below `low`, extended by the next version in order. */
  lemma {:induction false} ListsGrow<H>(winners: seq<Version<H>>, m: map<Pubkey, Version<H>>, low: nat,
                                        item: Version<H>)
    requires Lists(winners, Below(m, low))
    requires low <= item.pubkey && item.pubkey in m && m[item.pubkey] == item
    requires forall q :: q in m && q < item.pubkey ==> q < low
    ensures Lists(winners + [item], Below(m, item.pubkey + 1))
  {
    var one := map[item.pubkey := item];
    assert Below(m, item.pubkey + 1) == Below(m, low) + one;
    ListsOne(item);
    ListsJoin(winners, Below(m, low), [item], one);
  }

  /** Emitting the smallest item keeps the emitted list complete up to its key. */
  lemma {:induction false} EmitsWinner<H>(j: Job<H>, front: seq<nat>, ws: seq<Pointer>, low: nat,
                                          winners: seq<Version<H>>, last: nat, next: Option<nat>)
    requires Invariant(j, front, ws, None, low, 0) && ws != []
    requires Lists(winners, Below(BinVersions(j.groups, j.binOf, j.bin), low))
    requires var p := ws[|ws| - 1]; IsItem(j.groups[p.group], j.binOf, j.bin, p.offset, last, next)
    ensures var p := ws[|ws| - 1];
      var item := j.groups[p.group][last];
      && item.pubkey == KeyAt(j, p)
      && Lists(winners + [item], Below(BinVersions(j.groups, j.binOf, j.bin), item.pubkey + 1))
  {
    SmallestIsLatest(j, front, ws, low, last, next);
    NothingBelowSmallest(j, front, ws, low);
    ListsGrow(winners, BinVersions(j.groups, j.binOf, j.bin), low, j.groups[ws[|ws| - 1].group][last]);
  }

  /** The other groups' items stand before the smallest one, with greater keys. */
  lemma {:induction false} OthersAreGreater<H>(j: Job<H>, front: seq<nat>, ws: seq<Pointer>, t: nat)
    requires Holds(j, front, ws, None) && ws != [] && Live(j, front, t) && t != ws[|ws| - 1].group
    ensures Pointer(t, front[t]) in ws[..|ws| - 1] && KeyAt(j, Pointer(t, front[t])) > KeyAt(j, ws[|ws| - 1])
  {
    var n := |ws| - 1;
    var a :| 0 <= a < |ws| && ws[a] == Pointer(t, front[t]);
    assert a != n && ws[..n][a] == ws[a];
  }

  /** Popping the smallest item leaves one pointer per unfinished group. */
  lemma {:induction false} PopHolds<H>(j: Job<H>, front: seq<nat>, ws: seq<Pointer>, last: nat, next: Option<nat>)
    requires Frontier(j, front) && Holds(j, front, ws, None) && ws != []
    requires var p := ws[|ws| - 1]; IsItem(j.groups[p.group], j.binOf, j.bin, p.offset, last, next)
    ensures var p := ws[|ws| - 1];
      Holds(j, front[p.group := Advanced(next, |j.groups[p.group]|)], ws[..|ws| - 1], NextPointer(p.group, next))
  {
    var n := |ws| - 1;
    var p := ws[n];
    var front' := front[p.group := Advanced(next, |j.groups[p.group]|)];
    AdvanceFrontier(j, front, p.group, last, next);
    forall i | 0 <= i < n
      ensures Live(j, front', ws[i].group) && ws[i].offset == front'[ws[i].group] && ws[i].group != p.group
    {
      assert KeyAt(j, ws[i]) > KeyAt(j, ws[n]);
      assert Live(j, front, ws[i].group);
    }
    forall g: nat | Live(j, front', g)
      ensures Pointer(g, front'[g]) in ws[..n] || NextPointer(p.group, next) == Some(Pointer(g, front'[g]))
    {
      assert Live(j, front, g);
      if g != p.group {
        OthersAreGreater(j, front, ws, g);
      }
    }
  }

  /** Popping the smallest item and moving its group on keeps the merge invariant. */
  lemma {:induction false} PopKeeps<H>(j: Job<H>, front: seq<nat>, ws: seq<Pointer>, low: nat, last: nat,
                                       next: Option<nat>)
    requires Invariant(j, front, ws, None, low, 0) && ws != []
    requires var p := ws[|ws| - 1]; IsItem(j.groups[p.group], j.binOf, j.bin, p.offset, last, next)
    ensures var p := ws[|ws| - 1];
      && 0 <= KeyAt(j, p)
      && Invariant(j, front[p.group := Advanced(next, |j.groups[p.group]|)], ws[..|ws| - 1],
                   NextPointer(p.group, next), KeyAt(j, p) + 1, 0)
  {
    var n := |ws| - 1;
    var p := ws[n];
    var k := KeyAt(j, p);
    var front' := front[p.group := Advanced(next, |j.groups[p.group]|)];
    AdvanceFrontier(j, front, p.group, last, next);
    PopHolds(j, front, ws, last, next);
    forall t: nat | Live(j, front, t) && t != p.group ensures KeyAt(j, Pointer(t, front[t])) > k {
      OthersAreGreater(j, front, ws, t);
    }
    forall g: nat, o: nat | InBin(j, g, o) && o < front'[g] ensures Accounted(j, front', (k + 1) as nat, g, o) {
      PopAccounts(j, front, low, p.group, last, next, g, o);
    }
    forall g: nat | Live(j, front', g) ensures k + 1 <= KeyAt(j, Pointer(g, front'[g])) {
      assert Live(j, front, g);
    }
  }

  lemma {:induction false} PopAccounts<H>(j: Job<H>, front: seq<nat>, low: nat, p: nat, last: nat, next: Option<nat>,
                                          g: nat, o: nat)
    requires Frontier(j, front) && PassedOk(j, front, low, 0) && Live(j, front, p)
    requires low <= KeyAt(j, Pointer(p, front[p]))
    requires IsItem(j.groups[p], j.binOf, j.bin, front[p], last, next)
    requires InBin(j, g, o) && o < front[p := Advanced(next, |j.groups[p]|)][g]
    ensures Accounted(j, front[p := Advanced(next, |j.groups[p]|)], KeyAt(j, Pointer(p, front[p])) + 1, g, o)
  {
    var front' := front[p := Advanced(next, |j.groups[p]|)];
    var q, k := KeyAt(j, Pointer(g, o)), KeyAt(j, Pointer(p, front[p]));
    if o < front[g] {
      assert Accounted(j, front, low, g, o);
      if q > k {
        var s: nat :| g < s && Live(j, front, s) && KeyAt(j, Pointer(s, front[s])) == q;
        assert Live(j, front', s) && KeyAt(j, Pointer(s, front'[s])) == q;
      }
    }
  }

  // ---------------------------------------------------------------------------------------
  // The merge

  lemma {:induction false} GroupSortedByBin<H>(j: Job<H>, g: nat)
    requires WellFormed(j) && g < |j.groups|
    ensures SortedByBin(j.groups[g], j.binOf)
  {
    assert Ascends(j.groups[g]);
  }

  lemma {:induction false} StartGroup<H>(j: Job<H>, front: seq<nat>, ws: seq<Pointer>, i: nat, first: Option<nat>)
    requires Invariant(j, front, ws, None, 0, i + 1) && i < |j.groups| && front[i] == |j.groups[i]|
    requires IsFirstInBin(j.groups[i], j.binOf, j.bin, first)
    ensures Invariant(j, front[i := Advanced(first, |j.groups[i]|)], ws, NextPointer(i, first), 0, i)
  {
    var front' := front[i := Advanced(first, |j.groups[i]|)];
    forall g: nat | Live(j, front', g) && g != i ensures Live(j, front, g) {
    }
    forall a | 0 <= a < |ws| ensures Live(j, front', ws[a].group) && ws[a].group != i {
      assert Live(j, front, ws[a].group);
    }
    forall g: nat, o: nat | i <= g && InBin(j, g, o) && o < front'[g] ensures Accounted(j, front', 0, g, o) {
      if g > i {
        assert Accounted(j, front, 0, g, o);
        var s: nat :| g < s && Live(j, front, s) && KeyAt(j, Pointer(s, front[s])) == KeyAt(j, Pointer(g, o));
        assert Live(j, front', s);
      }
    }
  }

  /** Reverse pass over the groups: start each one at its first item of the bin. */
  method InitializeDedupWorkingSet<H>(j: Job<H>, bins: nat) returns (ws: seq<Pointer>, ghost front: seq<nat>)
    requires WellFormed(j) && j.bin < bins
    ensures Invariant(j, front, ws, None, 0, 0)
  {
    ws := [];
    front := seq(|j.groups|, g requires 0 <= g < |j.groups| => |j.groups[g]|);
    var i := |j.groups|;
    while i > 0
      invariant 0 <= i <= |j.groups|
      invariant Invariant(j, front, ws, None, 0, i)
      invariant forall g :: 0 <= g < i ==> front[g] == |j.groups[g]|
    {
      i := i - 1;
      GroupSortedByBin(j, i);
      var first := FindFirstPubkeyInBin(j.groups[i], j.bin, bins, j.binOf);
      StartGroup(j, front, ws, i, first);
      var next := if first.Some? then Some(Pointer(i, first.value)) else None;
      ws, front := AddNextItem(j, next, ws, front[i := Advanced(first, |j.groups[i]|)], 0, i);
    }
  }

  /** Nothing is left in the working set: every key of the bin has been emitted. */
  lemma {:induction false} AllEmitted<H>(j: Job<H>, front: seq<nat>, low: nat)
    requires Invariant(j, front, [], None, low, 0)
    ensures Below(BinVersions(j.groups, j.binOf, j.bin), low) == BinVersions(j.groups, j.binOf, j.bin)
  {
    forall k | k in BinVersions(j.groups, j.binOf, j.bin) ensures k < low {
      NothingBetween(j, front, [], low, k);
    }
  }

  lemma {:induction false} BinVersionsKeyed<H>(groups: seq<seq<Version<H>>>, binOf: Pubkey -> nat, bin: nat)
    ensures Keyed(BinVersions(groups, binOf, bin))
  {
    LatestIsKeyed(Flatten(groups));
  }

  const U64_LIMIT: nat := 0x1_0000_0000_0000_0000

  /** The versions a bin delivers, in order. */
  ghost function BinList<H>(groups: seq<seq<Version<H>>>, binOf: Pubkey -> nat, bin: nat): seq<Version<H>> {
    SortedVersions(BinVersions(groups, binOf, bin))
  }

  /** The merge is in order, and `winners` are the last versions of all keys below `low`. */
  ghost predicate Merging<H>(j: Job<H>, front: seq<nat>, ws: seq<Pointer>, low: nat, winners: seq<Version<H>>) {
    && Invariant(j, front, ws, None, low, 0)
    && Lists(winners, Below(BinVersions(j.groups, j.binOf, j.bin), low))
    && Left(j.groups, front) >= 0
  }

  lemma {:induction false} MergeStarts<H>(j: Job<H>, front: seq<nat>, ws: seq<Pointer>)
    requires Invariant(j, front, ws, None, 0, 0)
    ensures Merging(j, front, ws, 0, [])
  {
    LeftNonNegative(j.groups, front);
  }

  lemma {:induction false} MergeEnds<H>(j: Job<H>, front: seq<nat>, low: nat, winners: seq<Version<H>>)
    requires Merging(j, front, [], low, winners)
    ensures winners == BinList(j.groups, j.binOf, j.bin)
  {
    AllEmitted(j, front, low);
    BinVersionsKeyed(j.groups, j.binOf, j.bin);
    ListsIsSorted(winners, BinVersions(j.groups, j.binOf, j.bin));
  }

  lemma {:induction false} MergeTotal<H>(j: Job<H>, front: seq<nat>, ws: seq<Pointer>, low: nat,
                                         winners: seq<Version<H>>)
    requires Merging(j, front, ws, low, winners)
    ensures TotalLamports(winners) <= TotalLamports(BinList(j.groups, j.binOf, j.bin))
  {
    BinVersionsKeyed(j.groups, j.binOf, j.bin);
    PartialTotal(winners, BinVersions(j.groups, j.binOf, j.bin), low);
  }

  /** `de_dup_accounts_in_parallel`: the hashes of one bin and their lamports. The checked sum
      panics, shown as `None`, exactly when the lamports of the bin do not fit in 64 bits. */
  method DeDupAccountsInBin<H>(j: Job<H>, bins: nat, zeros: ZeroLamportAccounts, pubkeyHash: Pubkey -> H)
    returns (r: Option<(seq<H>, nat)>)
    requires WellFormed(j) && j.bin < bins
    ensures r.None? <==> TotalLamports(BinList(j.groups, j.binOf, j.bin)) >= 0x1_0000_0000_0000_0000
    ensures r.Some? ==> Written(r.value.0, BinList(j.groups, j.binOf, j.bin), zeros, pubkeyHash)
    ensures r.Some? ==> r.value.0 == HashesOf(BinList(j.groups, j.binOf, j.bin), zeros, pubkeyHash)
    ensures r.Some? ==> r.value.1 == TotalLamports(BinList(j.groups, j.binOf, j.bin))
  {
    var ws, front := InitializeDedupWorkingSet(j, bins);
    MergeStarts(j, front, ws);
    var hashes: seq<H> := [];
    var sum: nat := 0;
    ghost var winners: seq<Version<H>> := [];
    ghost var low: nat := 0;
    while ws != []
      invariant Merging(j, front, ws, low, winners)
      invariant hashes == HashesOf(winners, zeros, pubkeyHash)
      invariant sum == TotalLamports(winners) < U64_LIMIT
      decreases Left(j.groups, front)
    {
      var item;
      item, ws, front := EmitSmallest(j, ws, front, low, winners);
      AppendOne(winners, item, zeros, pubkeyHash);
      winners, low := winners + [item], item.pubkey + 1;
      MergeTotal(j, front, ws, low, winners);
      if item.lamports != 0 {
        if sum + item.lamports >= U64_LIMIT {
          return None;
        }
        sum := sum + item.lamports;
      }
      hashes := hashes + HashOf(item, zeros, pubkeyHash);
    }
    MergeEnds(j, front, low, winners);
    HashesAreWritten(winners, zeros, pubkeyHash);
    r := Some((hashes, sum));
  }

  lemma {:induction false} SmallestInBin<H>(j: Job<H>, front: seq<nat>, ws: seq<Pointer>, low: nat,
                                            winners: seq<Version<H>>)
    requires Merging(j, front, ws, low, winners) && ws != []
    ensures var p := ws[|ws| - 1];
      && p.group < |j.groups| && p.offset < |j.groups[p.group]| && Ascends(j.groups[p.group])
      && j.binOf(j.groups[p.group][p.offset].pubkey) == j.bin
      && front[p.group] == p.offset
  {
    var p := ws[|ws| - 1];
    assert Live(j, front, p.group) && InBin(j, p.group, p.offset);
  }

  /** Emitting the smallest item and moving its group on. */
  lemma {:induction false} EmitKeeps<H>(j: Job<H>, front: seq<nat>, ws: seq<Pointer>, low: nat,
                                        winners: seq<Version<H>>, last: nat, after: Option<nat>)
    requires Merging(j, front, ws, low, winners) && ws != []
    requires var p := ws[|ws| - 1]; IsItem(j.groups[p.group], j.binOf, j.bin, p.offset, last, after)
    ensures var p := ws[|ws| - 1];
      var front', item := front[p.group := Advanced(after, |j.groups[p.group]|)], j.groups[p.group][last];
      && Invariant(j, front', ws[..|ws| - 1], NextPointer(p.group, after), item.pubkey + 1, 0)
      && Lists(winners + [item], Below(BinVersions(j.groups, j.binOf, j.bin), item.pubkey + 1))
      && Left(j.groups, front') < Left(j.groups, front)
  {
    var p := ws[|ws| - 1];
    SmallestInBin(j, front, ws, low, winners);
    EmitsWinner(j, front, ws, low, winners, last, after);
    PopKeeps(j, front, ws, low, last, after);
    LeftDecreases(j.groups, front, p.group, Advanced(after, |j.groups[p.group]|));
  }

  /** Take the smallest item off the working set and put the next item of its group in. */
  method EmitSmallest<H>(j: Job<H>, ws0: seq<Pointer>, ghost front0: seq<nat>, ghost low: nat,
                         ghost winners: seq<Version<H>>)
    returns (item: Version<H>, ws: seq<Pointer>, ghost front: seq<nat>)
    requires Merging(j, front0, ws0, low, winners) && ws0 != []
    ensures Merging(j, front, ws, item.pubkey + 1, winners + [item])
    ensures Left(j.groups, front) < Left(j.groups, front0)
  {
    var p := ws0[|ws0| - 1];
    SmallestInBin(j, front0, ws0, low, winners);
    var last, after := GetItem(j.groups[p.group], j.binOf, j.bin, p.offset);
    item := j.groups[p.group][last];
    EmitKeeps(j, front0, ws0, low, winners, last, after);
    front := front0[p.group := Advanced(after, |j.groups[p.group]|)];
    var next := if after.Some? then Some(Pointer(p.group, after.value)) else None;
    ws, front := AddNextItem(j, next, ws0[..|ws0| - 1], front, item.pubkey + 1, 0);
    LeftNonNegative(j.groups, front);
  }
}
