/** What the accounts hash is about: the last version of every account, in pubkey order. */
module AccountVersions {
  /** A pubkey is its 32 bytes read as a big-endian number, so byte order is number order. */
  type Pubkey = nat

  /** One stored version of an account (`CalculateHashIntermediate`). */
  datatype Version<H> = Version(pubkey: Pubkey, lamports: nat, hash: H)

  /** The last version of each pubkey, in order of appearance. */
  ghost function Latest<H>(versions: seq<Version<H>>): map<Pubkey, Version<H>> {
    if versions == [] then map[]
    else
      var n := |versions| - 1;
      Latest(versions[..n])[versions[n].pubkey := versions[n]]
  }

  /** `list` holds exactly the versions of `m`, in strictly ascending pubkey order. */
  ghost predicate Lists<H>(list: seq<Version<H>>, m: map<Pubkey, Version<H>>) {
    && (forall i, j :: 0 <= i < j < |list| ==> list[i].pubkey < list[j].pubkey)
    && (forall i :: 0 <= i < |list| ==> list[i].pubkey in m && m[list[i].pubkey] == list[i])
    && (forall k :: k in m ==> m[k] in list)
  }

  /** Every version of a map is filed under its own pubkey. */
  ghost predicate Keyed<H>(m: map<Pubkey, Version<H>>) {
    forall k :: k in m ==> m[k].pubkey == k
  }

  lemma {:induction false} LatestIsKeyed<H>(versions: seq<Version<H>>)
    ensures Keyed(Latest(versions))
    decreases |versions|
  {
    if versions != [] {
      LatestIsKeyed(versions[..|versions| - 1]);
    }
  }

  /** A later batch of versions overrides an earlier one. */
  lemma {:induction false} LatestJoin<H>(a: seq<Version<H>>, b: seq<Version<H>>)
    ensures Latest(a + b) == Latest(a) + Latest(b)
    decreases |b|
  {
    if b == [] {
      assert a + b == a;
    } else {
      var n := |b| - 1;
      assert (a + b)[..|a + b| - 1] == a + b[..n];
      LatestJoin(a, b[..n]);
    }
  }

  /** An occurrence with none after it is the last version. */
  lemma {:induction false} LatestAt<H>(versions: seq<Version<H>>, i: nat)
    requires i < |versions|
    requires forall o :: i < o < |versions| ==> versions[o].pubkey != versions[i].pubkey
    ensures versions[i].pubkey in Latest(versions) && Latest(versions)[versions[i].pubkey] == versions[i]
    decreases |versions|
  {
    if i < |versions| - 1 {
      LatestAt(versions[..|versions| - 1], i);
    }
  }

  lemma {:induction false} LatestOccurs<H>(versions: seq<Version<H>>, k: Pubkey)
    requires k in Latest(versions)
    ensures exists i :: 0 <= i < |versions| && versions[i].pubkey == k
    decreases |versions|
  {
    var n := |versions| - 1;
    if versions[n].pubkey != k {
      LatestOccurs(versions[..n], k);
      var i :| 0 <= i < n && versions[..n][i].pubkey == k;
      assert versions[i].pubkey == k;
    }
  }

  ghost predicate IsSmallest(s: set<nat>, k: nat) {
    k in s && forall j :: j in s ==> k <= j
  }

  lemma {:induction false} SmallestExists(s: set<nat>)
    requires s != {}
    ensures exists k :: IsSmallest(s, k)
    decreases |s|
  {
    var k :| k in s;
    var rest := s - {k};
    if rest == {} {
      assert s == {k};
      assert IsSmallest(s, k);
    } else {
      SmallestExists(rest);
      var r :| IsSmallest(rest, r);
      assert s == rest + {k};
      assert IsSmallest(s, if k <= r then k else r);
    }
  }

  ghost function Smallest(s: set<nat>): (k: nat)
    requires s != {}
    ensures IsSmallest(s, k)
  {
    SmallestExists(s);
    var k :| IsSmallest(s, k);
    k
  }

  /** The versions of `m` in pubkey order: smallest pubkey first. */
  ghost function SortedVersions<H>(m: map<Pubkey, Version<H>>): seq<Version<H>>
    decreases |m.Keys|
  {
    if m == map[] then []
    else
      assert m.Keys != {};
      var k := Smallest(m.Keys);
      var rest := m - {k};
      assert rest.Keys == m.Keys - {k};
      [m[k]] + SortedVersions(rest)
  }

  /** The first listed version has the smallest pubkey. */
  lemma {:induction false} ListsHead<H>(list: seq<Version<H>>, m: map<Pubkey, Version<H>>)
    requires Keyed(m) && Lists(list, m) && list != []
    ensures IsSmallest(m.Keys, list[0].pubkey) && m[list[0].pubkey] == list[0]
  {
    forall q | q in m ensures list[0].pubkey <= q {
      var i :| 0 <= i < |list| && list[i] == m[q];
    }
  }

  /** The rest lists the rest. */
  lemma {:induction false} ListsRest<H>(list: seq<Version<H>>, m: map<Pubkey, Version<H>>)
    requires Keyed(m) && Lists(list, m) && list != []
    ensures Lists(list[1..], m - {list[0].pubkey})
  {
    var k, rest := list[0].pubkey, list[1..];
    forall q | q in m && q != k ensures m[q] in rest {
      var i :| 0 <= i < |list| && list[i] == m[q];
      assert rest[i - 1] == m[q];
    }
  }

  lemma {:induction false} ListsNothing<H>(m: map<Pubkey, Version<H>>)
    requires Lists([], m)
    ensures m == map[] && SortedVersions(m) == []
  {
    assert m.Keys == {};
  }

  lemma {:induction false} SortedUnfold<H>(m: map<Pubkey, Version<H>>, k: Pubkey)
    requires IsSmallest(m.Keys, k)
    ensures SortedVersions(m) == [m[k]] + SortedVersions(m - {k})
  {
    assert m != map[] && Smallest(m.Keys) == k;
  }

  /** There is only one such list: it is `SortedVersions`. */
  lemma {:induction false} ListsIsSorted<H>(list: seq<Version<H>>, m: map<Pubkey, Version<H>>)
    requires Keyed(m) && Lists(list, m)
    ensures list == SortedVersions(m)
    decreases |list|
  {
    if list == [] {
      ListsNothing(m);
    } else {
      ListsHead(list, m);
      ListsRest(list, m);
      SortedUnfold(m, list[0].pubkey);
      ListsIsSorted(list[1..], m - {list[0].pubkey});
      assert list == [list[0]] + list[1..];
    }
  }

  /** Lists over key ranges that follow each other can be joined. */
  lemma {:induction false} ListsJoin<H>(a: seq<Version<H>>, m: map<Pubkey, Version<H>>, b: seq<Version<H>>,
                                        n: map<Pubkey, Version<H>>)
    requires Lists(a, m) && Lists(b, n)
    requires forall j, k :: j in m && k in n ==> j < k
    ensures Lists(a + b, m + n)
  {
    var list, all := a + b, m + n;
    forall i, j | 0 <= i < j < |list| ensures list[i].pubkey < list[j].pubkey {
      if i < |a| <= j {
        assert list[i].pubkey in m && list[j].pubkey in n;
      }
    }
    forall i | 0 <= i < |list| ensures list[i].pubkey in all && all[list[i].pubkey] == list[i] {
      if i < |a| {
        assert a[i].pubkey in m;
      } else {
        assert b[i - |a|].pubkey in n;
      }
    }
  }

  lemma {:induction false} ListsOne<H>(v: Version<H>)
    ensures Lists([v], map[v.pubkey := v])
  {
    assert [v][0] == v;
  }

  lemma {:induction false} ListsPrepend<H>(v: Version<H>, list: seq<Version<H>>, rest: map<Pubkey, Version<H>>)
    requires Lists(list, rest) && forall q :: q in rest ==> v.pubkey < q
    ensures Lists([v] + list, rest[v.pubkey := v])
  {
    ListsOne(v);
    ListsJoin([v], map[v.pubkey := v], list, rest);
    assert map[v.pubkey := v] + rest == rest[v.pubkey := v];
  }

  /** `SortedVersions` is such a list. */
  lemma {:induction false} SortedIsList<H>(m: map<Pubkey, Version<H>>)
    requires Keyed(m)
    ensures Lists(SortedVersions(m), m)
    decreases |m.Keys|
  {
    if m.Keys != {} {
      var k := Smallest(m.Keys);
      var rest := m - {k};
      assert rest.Keys == m.Keys - {k};
      SortedIsList(rest);
      ListsPrepend(m[k], SortedVersions(rest), rest);
      assert rest[k := m[k]] == m;
    }
  }

  function TotalLamports<H>(list: seq<Version<H>>): nat {
    if list == [] then 0 else TotalLamports(list[..|list| - 1]) + list[|list| - 1].lamports
  }

  lemma {:induction false} TotalLamportsJoin<H>(a: seq<Version<H>>, b: seq<Version<H>>)
    ensures TotalLamports(a + b) == TotalLamports(a) + TotalLamports(b)
    decreases |b|
  {
    if b == [] {
      assert a + b == a;
    } else {
      var n := |b| - 1;
      assert (a + b)[..|a + b| - 1] == a + b[..n];
      TotalLamportsJoin(a, b[..n]);
    }
  }

  /** The versions below `low`. */
  ghost function Below<H>(m: map<Pubkey, Version<H>>, low: nat): map<Pubkey, Version<H>> {
    map k | k in m && k < low :: m[k]
  }

  /** The versions from `low` on. */
  ghost function From<H>(m: map<Pubkey, Version<H>>, low: nat): map<Pubkey, Version<H>> {
    map k | k in m && k >= low :: m[k]
  }

  /** A list of the smallest keys is how the whole list starts. */
  lemma {:induction false} SplitSorted<H>(list: seq<Version<H>>, part: map<Pubkey, Version<H>>,
                                          rest: map<Pubkey, Version<H>>, m: map<Pubkey, Version<H>>)
    requires Keyed(m) && Lists(list, part) && m == part + rest
    requires forall j, k :: j in part && k in rest ==> j < k
    ensures SortedVersions(m) == list + SortedVersions(rest)
    ensures TotalLamports(list) <= TotalLamports(SortedVersions(m))
  {
    assert Keyed(rest) by {
      forall k | k in rest ensures rest[k].pubkey == k {
        assert m[k] == rest[k];
      }
    }
    SortedIsList(rest);
    ListsJoin(list, part, SortedVersions(rest), rest);
    ListsIsSorted(list + SortedVersions(rest), m);
    TotalLamportsJoin(list, SortedVersions(rest));
  }

  lemma {:induction false} PartialTotal<H>(list: seq<Version<H>>, m: map<Pubkey, Version<H>>, low: nat)
    requires Keyed(m) && Lists(list, Below(m, low))
    ensures TotalLamports(list) <= TotalLamports(SortedVersions(m))
  {
    assert Below(m, low) + From(m, low) == m;
    SplitSorted(list, Below(m, low), From(m, low), m);
  }

  /** How zero-lamport accounts are treated. */
  datatype ZeroLamportAccounts = Excluded | Included

  /** The hash a version contributes: its own, or the hash of its pubkey when it holds no
      lamports and such accounts are included, or none. */
  function HashOf<H>(v: Version<H>, zeros: ZeroLamportAccounts, pubkeyHash: Pubkey -> H): seq<H> {
    if v.lamports != 0 then [v.hash]
    else if zeros == Included then [pubkeyHash(v.pubkey)]
    else []
  }

  function HashesOf<H>(list: seq<Version<H>>, zeros: ZeroLamportAccounts, pubkeyHash: Pubkey -> H): seq<H> {
    if list == [] then []
    else HashesOf(list[..|list| - 1], zeros, pubkeyHash) + HashOf(list[|list| - 1], zeros, pubkeyHash)
  }

  lemma {:induction false} HashesOfJoin<H>(a: seq<Version<H>>, b: seq<Version<H>>, zeros: ZeroLamportAccounts,
                                           pubkeyHash: Pubkey -> H)
    ensures HashesOf(a + b, zeros, pubkeyHash) == HashesOf(a, zeros, pubkeyHash) + HashesOf(b, zeros, pubkeyHash)
    decreases |b|
  {
    if b == [] {
      assert a + b == a;
    } else {
      var n := |b| - 1;
      assert (a + b)[..|a + b| - 1] == a + b[..n];
      HashesOfJoin(a, b[..n], zeros, pubkeyHash);
    }
  }

  /** The versions that hold lamports, in order. */
  ghost function Funded<H>(list: seq<Version<H>>): seq<Version<H>> {
    if list == [] then []
    else
      var before, v := Funded(list[..|list| - 1]), list[|list| - 1];
      if v.lamports != 0 then before + [v] else before
  }

  /** Excluding empty accounts, the hashes are those of the versions that hold lamports. */
  lemma {:induction false} ExcludedHashes<H>(list: seq<Version<H>>, pubkeyHash: Pubkey -> H)
    ensures var hashes, funded := HashesOf(list, Excluded, pubkeyHash), Funded(list);
      |hashes| == |funded| && forall i :: 0 <= i < |funded| ==> hashes[i] == funded[i].hash
    decreases |list|
  {
    if list != [] {
      ExcludedHashes(list[..|list| - 1], pubkeyHash);
    }
  }

  /** Including them, every version has a hash: its own, or its pubkey's when it holds no lamports. */
  lemma {:induction false} IncludedHashes<H>(list: seq<Version<H>>, pubkeyHash: Pubkey -> H)
    ensures var hashes := HashesOf(list, Included, pubkeyHash);
      && |hashes| == |list|
      && forall i :: 0 <= i < |list| ==>
           hashes[i] == if list[i].lamports != 0 then list[i].hash else pubkeyHash(list[i].pubkey)
    decreases |list|
  {
    if list != [] {
      IncludedHashes(list[..|list| - 1], pubkeyHash);
    }
  }

  /** What is written for a list of versions: nothing, or the pubkey's hash, for those without lamports. */
  ghost predicate Written<H>(hashes: seq<H>, list: seq<Version<H>>, zeros: ZeroLamportAccounts,
                             pubkeyHash: Pubkey -> H) {
    match zeros
    case Excluded =>
      && |hashes| == |Funded(list)|
      && forall i :: 0 <= i < |hashes| ==> hashes[i] == Funded(list)[i].hash
    case Included =>
      && |hashes| == |list|
      && forall i :: 0 <= i < |hashes| ==>
           hashes[i] == if list[i].lamports != 0 then list[i].hash else pubkeyHash(list[i].pubkey)
  }

  lemma {:induction false} HashesAreWritten<H>(list: seq<Version<H>>, zeros: ZeroLamportAccounts,
                                               pubkeyHash: Pubkey -> H)
    ensures Written(HashesOf(list, zeros, pubkeyHash), list, zeros, pubkeyHash)
  {
    ExcludedHashes(list, pubkeyHash);
    IncludedHashes(list, pubkeyHash);
  }

  lemma {:induction false} AppendOne<H>(list: seq<Version<H>>, v: Version<H>, zeros: ZeroLamportAccounts,
                                        pubkeyHash: Pubkey -> H)
    ensures TotalLamports(list + [v]) == TotalLamports(list) + v.lamports
    ensures HashesOf(list + [v], zeros, pubkeyHash) == HashesOf(list, zeros, pubkeyHash) + HashOf(v, zeros, pubkeyHash)
  {
    assert (list + [v])[..|list|] == list;
  }
}
