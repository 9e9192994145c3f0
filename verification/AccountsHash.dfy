/** The whole accounts hash: dedup every bin, then hash the files of the bins, in order. The
    result does not depend on the number of bins or on the bin function. */
module AccountsHash {
  import opened Wrappers
  import opened AccountVersions
  import opened PubkeyBins
  import opened CumulativeOffsets
  import opened MerkleTree
  import opened DedupMerge

  /** The specification: the last version of every account, in pubkey order. */
  ghost function FinalVersions<H>(groups: seq<seq<Version<H>>>): seq<Version<H>> {
    SortedVersions(Latest(Flatten(groups)))
  }

  ghost function LowBins<H>(m: map<Pubkey, Version<H>>, binOf: Pubkey -> nat, b: nat): map<Pubkey, Version<H>> {
    map k | k in m && binOf(k) < b :: m[k]
  }

  ghost function HighBins<H>(m: map<Pubkey, Version<H>>, binOf: Pubkey -> nat, b: nat): map<Pubkey, Version<H>> {
    map k | k in m && binOf(k) >= b :: m[k]
  }

  /** Bins follow each other in pubkey order. */
  lemma {:induction false} LowBeforeHigh(binOf: Pubkey -> nat, bins: nat, j: Pubkey, k: Pubkey)
    requires Binner(binOf, bins) && binOf(j) < binOf(k)
    ensures j < k
  {
    assert k <= j ==> binOf(k) <= binOf(j);
  }

  lemma {:induction false} NextBin<H>(groups: seq<seq<Version<H>>>, binOf: Pubkey -> nat, bins: nat, b: nat,
                                      list: seq<Version<H>>)
    requires Binner(binOf, bins) && Lists(list, LowBins(Latest(Flatten(groups)), binOf, b))
    ensures Lists(list + BinList(groups, binOf, b), LowBins(Latest(Flatten(groups)), binOf, b + 1))
  {
    var m := Latest(Flatten(groups));
    BinVersionsKeyed(groups, binOf, b);
    SortedIsList(BinVersions(groups, binOf, b));
    forall j, k | j in LowBins(m, binOf, b) && k in BinVersions(groups, binOf, b) ensures j < k {
      LowBeforeHigh(binOf, bins, j, k);
    }
    ListsJoin(list, LowBins(m, binOf, b), BinList(groups, binOf, b), BinVersions(groups, binOf, b));
    assert LowBins(m, binOf, b) + BinVersions(groups, binOf, b) == LowBins(m, binOf, b + 1);
  }

  lemma {:induction false} LowBinsTotal<H>(groups: seq<seq<Version<H>>>, binOf: Pubkey -> nat, bins: nat, b: nat,
                                           list: seq<Version<H>>)
    requires Binner(binOf, bins) && Lists(list, LowBins(Latest(Flatten(groups)), binOf, b))
    ensures TotalLamports(list) <= TotalLamports(FinalVersions(groups))
  {
    var m := Latest(Flatten(groups));
    LatestIsKeyed(Flatten(groups));
    forall j, k | j in LowBins(m, binOf, b) && k in HighBins(m, binOf, b) ensures j < k {
      LowBeforeHigh(binOf, bins, j, k);
    }
    assert m == LowBins(m, binOf, b) + HighBins(m, binOf, b);
    SplitSorted(list, LowBins(m, binOf, b), HighBins(m, binOf, b), m);
  }

  lemma {:induction false} AllBins<H>(groups: seq<seq<Version<H>>>, binOf: Pubkey -> nat, bins: nat,
                                      list: seq<Version<H>>)
    requires Binner(binOf, bins) && Lists(list, LowBins(Latest(Flatten(groups)), binOf, bins))
    ensures list == FinalVersions(groups)
  {
    var m := Latest(Flatten(groups));
    assert LowBins(m, binOf, bins) == m;
    LatestIsKeyed(Flatten(groups));
    ListsIsSorted(list, m);
  }

  /** One file of hashes per bin, in pubkey order, and the total lamports. The checked sums
      panic, shown as `None`, exactly when the total does not fit in 64 bits. */
  method DeDupAccounts<H>(groups: seq<seq<Version<H>>>, bins: nat, binOf: Pubkey -> nat,
                          zeros: ZeroLamportAccounts, pubkeyHash: Pubkey -> H)
    returns (r: Option<(seq<seq<H>>, nat)>)
    requires Binner(binOf, bins) && forall g :: 0 <= g < |groups| ==> Ascends(groups[g])
    ensures r.None? <==> TotalLamports(FinalVersions(groups)) >= 0x1_0000_0000_0000_0000
    ensures r.Some? ==> |r.value.0| == bins
    ensures r.Some? ==> Written(Flatten(r.value.0), FinalVersions(groups), zeros, pubkeyHash)
    ensures r.Some? ==> Flatten(r.value.0) == HashesOf(FinalVersions(groups), zeros, pubkeyHash)
    ensures r.Some? ==> r.value.1 == TotalLamports(FinalVersions(groups))
  {
    var files: seq<seq<H>> := [];
    var sum: nat := 0;
    ghost var list: seq<Version<H>> := [];
    for bin := 0 to bins
      invariant |files| == bin
      invariant Lists(list, LowBins(Latest(Flatten(groups)), binOf, bin))
      invariant Flatten(files) == HashesOf(list, zeros, pubkeyHash)
      invariant sum == TotalLamports(list) < U64_LIMIT
    {
      var one := DeDupAccountsInBin(Job(groups, binOf, bin), bins, zeros, pubkeyHash);
      ghost var here := BinList(groups, binOf, bin);
      NextBin(groups, binOf, bins, bin, list);
      LowBinsTotal(groups, binOf, bins, bin + 1, list + here);
      TotalLamportsJoin(list, here);
      HashesOfJoin(list, here, zeros, pubkeyHash);
      if one.None? || sum + one.value.1 >= U64_LIMIT {
        return None;
      }
      assert (files + [one.value.0])[..|files|] == files;
      files, sum := files + [one.value.0], sum + one.value.1;
      list := list + here;
    }
    AllBins(groups, binOf, bins, list);
    HashesAreWritten(list, zeros, pubkeyHash);
    r := Some((files, sum));
  }

  /** `rest_of_hash_calculation`: for every number of bins, every bin function and every buffer
      size, the root and the lamports are those of the specification. */
  method RestOfHashCalculation<H>(h: seq<H> -> H, default: H, groups: seq<seq<Version<H>>>, bins: nat,
                                  binOf: Pubkey -> nat, zeros: ZeroLamportAccounts, pubkeyHash: Pubkey -> H,
                                  maxBuffer: nat)
    returns (r: Option<(H, nat)>)
    requires Binner(binOf, bins) && maxBuffer > 0 && forall g :: 0 <= g < |groups| ==> Ascends(groups[g])
    ensures r.None? <==> TotalLamports(FinalVersions(groups)) >= 0x1_0000_0000_0000_0000
    ensures r.Some? ==>
      var hashes := HashesOf(FinalVersions(groups), zeros, pubkeyHash);
      Written(hashes, FinalVersions(groups), zeros, pubkeyHash) && r.value.0 == Root(h, 16, hashes)
    ensures r.Some? ==> r.value.1 == TotalLamports(FinalVersions(groups))
  {
    HashesAreWritten(FinalVersions(groups), zeros, pubkeyHash);
    var deduped := DeDupAccounts(groups, bins, binOf, zeros, pubkeyHash);
    if deduped.None? {
      return None;
    }
    var root := HashFiles(h, default, deduped.value.0, maxBuffer);
    r := Some((root, deduped.value.1));
  }
}
