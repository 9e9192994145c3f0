/** The two Merkle root computations of the accounts hasher: the plain loop, and the one
    over fragmented input with a hand-unrolled three-level fast path. Both are proved equal
    to the tree of `MerkleTree`. A `Hasher` is the sequence of hashes fed to it so far. */
module MerkleRoot {
  import opened Wrappers
  import opened MerkleTree

  /** `get(i)` returns some non-empty run of `hashes` that starts at overall index `i`. */
  ghost predicate SliceSource<H>(get: nat --> seq<H>, hashes: seq<H>) {
    forall i: nat {:trigger get.requires(i)} {:trigger get(i)} :: i < |hashes| ==>
      get.requires(i) && get(i) != [] && get(i) <= hashes[i..]
  }

  /** The part of the current slice that is not consumed yet matches the hashes from `i` on. */
  ghost predicate Aligned<H>(data: seq<H>, index: nat, hashes: seq<H>, i: nat) {
    index < |data| ==> i <= |hashes| && data[index..] <= hashes[i..]
  }

  function Mapped<T, H>(items: seq<T>, extractor: T -> H): (r: seq<H>)
    ensures |r| == |items|
    ensures forall i :: 0 <= i < |items| ==> r[i] == extractor(items[i])
  {
    seq(|items|, i requires 0 <= i < |items| => extractor(items[i]))
  }

  /** Start of group `i` of size `n`, and the chunk count, in terms of products only. */
  lemma {:induction false} ChunkBounds(total: nat, n: nat, i: nat)
    requires n > 0 && i < DivCeil(total, n)
    ensures i * n < total
    ensures i + 1 < DivCeil(total, n) ==> (i + 1) * n < total
    ensures i + 1 == DivCeil(total, n) ==> total <= (i + 1) * n
  {
    var q, r := total / n, total % n;
    assert total == q * n + r;
    if i < q {
      assert (i + 1) * n <= q * n by { MulMonotone(i + 1, q, n); }
      if i + 1 < DivCeil(total, n) && r == 0 {
        MulMonotone(i + 2, q, n);
        assert (i + 2) * n == (i + 1) * n + n;
      }
    }
    assert (i + 1) * n == i * n + n;
  }

  lemma {:induction false} MulMonotone(a: nat, b: nat, n: nat)
    requires a <= b
    ensures a * n <= b * n
  {
    assert b * n == a * n + (b - a) * n;
  }

  method HashGroup<T, H>(h: seq<H> -> H, hashes: seq<T>, start: nat, end: nat, extractor: T -> H) returns (digest: H)
    requires start <= end <= |hashes|
    ensures digest == h(Mapped(hashes, extractor)[start..end])
  {
    var hasher: seq<H> := [];
    for k := start to end
      invariant hasher == Mapped(hashes, extractor)[start..k]
    {
      hasher := hasher + [extractor(hashes[k])];
    }
    digest := h(hasher);
  }

  /** The groups of one level of the plain loop, found by index arithmetic. */
  method HashLevel<T, H>(h: seq<H> -> H, hashes: seq<T>, fanout: nat, extractor: T -> H) returns (result: seq<H>)
    requires fanout >= 2 && hashes != []
    ensures result == Level(h, fanout, Mapped(hashes, extractor))
  {
    ghost var all := Mapped(hashes, extractor);
    var total := |hashes|;
    var chunks := DivCeil(total, fanout);
    result := [];
    for i := 0 to chunks
      invariant i < chunks ==> i * fanout < total
      invariant i < chunks ==> result == Level(h, fanout, all[..i * fanout])
      invariant i == chunks ==> result == Level(h, fanout, all)
    {
      ChunkBounds(total, fanout, i);
      var start := i * fanout;
      var end := if start + fanout <= total then start + fanout else total;
      assert (i + 1) * fanout == start + fanout;
      var digest := HashGroup(h, hashes, start, end, extractor);
      LevelExtend(h, fanout, all, i, start, end);
      result := result + [digest];
      assert end == total ==> all[..end] == all;
    }
  }

  /** The plain loop (`compute_merkle_root_loop`): one level, then recurse on its result. */
  method ComputeMerkleRootLoop<T, H>(h: seq<H> -> H, hashes: seq<T>, fanout: nat, extractor: T -> H)
    returns (root: H)
    requires fanout >= 2
    ensures root == Root(h, fanout, Mapped(hashes, extractor))
    decreases |hashes|
  {
    if |hashes| == 0 {
      return h([]);
    }
    var result := HashLevel(h, hashes, fanout, extractor);
    if |result| == 1 {
      root := result[0];
    } else {
      LevelShrinks(h, fanout, Mapped(hashes, extractor));
      LevelNonEmpty(h, fanout, Mapped(hashes, extractor));
      root := ComputeMerkleRootLoop(h, result, fanout, x => x);
      assert Mapped(result, x => x) == result;
    }
  }

  lemma {:induction false} ThresholdAboveTarget(f: nat)
    requires f >= 2
    ensures 1 <= f * f * f < f * f * f * f
  {
    MulMonotone(2, f, f);
    MulMonotone(2, f * f, f);
    MulMonotone(2, f, f * f * f);
  }

  /** How many hashes one chunk covers and how many levels it hashes. */
  function CalculateThreeLevelChunks(total: nat, fanout: nat, maxLevels: Option<nat>, levels: Option<nat>)
    : (r: (nat, nat, bool))
    requires fanout >= 2
    ensures r.2 ==> r.1 == 3 && r.0 == fanout * fanout * fanout && 0 < r.0 < total
    ensures r.2 <==> (&& total >= fanout * fanout * fanout * fanout
                      && (maxLevels.Some? ==> maxLevels.value >= 3) && (levels.Some? ==> levels.value >= 3))
    ensures !r.2 ==> r.1 == 1 && r.0 == fanout
  {
    ThresholdAboveTarget(fanout);
    var target := fanout * fanout * fanout;
    var threshold := target * fanout;
    var enough := (maxLevels.None? || maxLevels.value >= 3) && total >= threshold;
    var threeLevel := enough && (levels.None? || levels.value >= 3);
    if threeLevel then (target, 3, true) else (fanout, 1, false)
  }

  /** Take the hash at overall index `i`, fetching a new slice when the current one is used up. */
  method NextHash<H>(get: nat --> seq<H>, data0: seq<H>, index0: nat, i: nat, ghost hashes: seq<H>)
    returns (item: H, data: seq<H>, index: nat)
    requires SliceSource(get, hashes) && i < |hashes| && Aligned(data0, index0, hashes, i)
    ensures item == hashes[i] && Aligned(data, index, hashes, i + 1)
  {
    data, index := data0, index0;
    if index >= |data| {
      data := get(i);
      index := 0;
      assert data[0..] == data;
    }
    item := data[index];
    assert data[index] == data[index..][0];
    index := index + 1;
    if index < |data| {
      assert data[index..] == data[index - 1..][1..];
      assert hashes[i + 1..] == hashes[i..][1..];
    }
  }

  /** Feed the hashes from `start` to `end` to a hasher, across slices. */
  method TakeHashes<H>(get: nat --> seq<H>, data0: seq<H>, index0: nat, start: nat, end: nat, ghost hashes: seq<H>)
    returns (hasher: seq<H>, data: seq<H>, index: nat)
    requires SliceSource(get, hashes) && start <= end <= |hashes| && Aligned(data0, index0, hashes, start)
    ensures hasher == hashes[start..end] && Aligned(data, index, hashes, end)
  {
    data, index, hasher := data0, index0, [];
    for i := start to end
      invariant hasher == hashes[start..i]
      invariant Aligned(data, index, hashes, i)
    {
      var item;
      item, data, index := NextHash(get, data, index, i, hashes);
      hasher := hasher + [item];
    }
  }

  /** One level: a single hash of `hashes[start..end]`. */
  method HashOneLevel<H>(h: seq<H> -> H, get: nat --> seq<H>, data0: seq<H>, start: nat, end: nat, ghost hashes: seq<H>)
    returns (digest: H)
    requires SliceSource(get, hashes) && start <= end <= |hashes| && data0 <= hashes
    ensures digest == h(hashes[start..end])
  {
    AlignedAtStart(data0, start, hashes);
    var hasher, _, _ := TakeHashes(get, data0, start, start, end, hashes);
    digest := h(hasher);
  }

  lemma {:induction false} AlignedAtStart<H>(data: seq<H>, start: nat, hashes: seq<H>)
    requires data <= hashes && start <= |hashes|
    ensures Aligned(data, start, hashes, start)
  {
    if start < |data| {
      assert data[start..] == hashes[start..][..|data| - start];
    }
  }

  /** The two inner loops of the fast path: up to `fanout` groups of up to `fanout` hashes,
      starting at `start`. The result holds one digest per group. */
  method HashGroups<H>(h: seq<H> -> H, fanout: nat, get: nat --> seq<H>, data0: seq<H>, index0: nat,
                       start: nat, end: nat, ghost hashes: seq<H>)
    returns (hasherJ: seq<H>, data: seq<H>, index: nat, i: nat)
    requires SliceSource(get, hashes) && start < end <= |hashes| && fanout >= 2
    requires Aligned(data0, index0, hashes, start)
    ensures start < i <= end && (i == end || i == start + fanout * fanout) && i <= start + fanout * fanout
    ensures Aligned(data, index, hashes, i)
    ensures hasherJ == Level(h, fanout, hashes[start..i])
  {
    data, index, i, hasherJ := data0, index0, start, [];
    var j := 0;
    while j < fanout
      invariant 0 <= j <= fanout
      invariant start <= i <= end && Aligned(data, index, hashes, i)
      invariant i == start + j * fanout
      invariant j > 0 ==> i > start
      invariant i < end
      invariant hasherJ == Level(h, fanout, hashes[start..i])
    {
      ghost var first := i;
      var size := if end - i <= fanout then end - i else fanout;
      var hasherK;
      hasherK, data, index := TakeHashes(get, data, index, i, i + size, hashes);
      i := i + size;
      GroupExtends(h, fanout, hashes, start, j, first, i);
      hasherJ := hasherJ + [h(hasherK)];
      MulMonotone(j + 1, fanout, fanout);
      assert (j + 1) * fanout == j * fanout + fanout;
      j := j + 1;
      if i >= end {
        return;
      }
    }
  }

  lemma {:induction false} GroupExtends<H>(h: seq<H> -> H, f: nat, hashes: seq<H>, start: nat, j: nat, first: nat,
                                           i: nat)
    requires f >= 2 && start <= first < i <= |hashes| && first - start == j * f && i - first <= f
    ensures Level(h, f, hashes[start..i]) == Level(h, f, hashes[start..first]) + [h(hashes[first..i])]
  {
    var s := hashes[start..];
    LevelExtend(h, f, s, j, first - start, i - start);
    assert s[..i - start] == hashes[start..i];
    assert s[..first - start] == hashes[start..first];
    assert s[first - start..i - start] == hashes[first..i];
  }

  /** Three levels at once over one chunk of at most fanout^3 hashes. */
  method HashThreeLevels<H>(h: seq<H> -> H, fanout: nat, get: nat --> seq<H>, data0: seq<H>, start: nat, end: nat,
                            ghost hashes: seq<H>)
    returns (digest: H)
    requires SliceSource(get, hashes) && start <= end <= |hashes| && data0 <= hashes && fanout >= 2
    ensures digest == h(Level(h, fanout, Level(h, fanout, hashes[start..end])))
  {
    var data, index := data0, start;
    AlignedAtStart(data0, start, hashes);
    var hasher: seq<H> := [];
    var i := start;
    ghost var m := 0;
    while i < end
      invariant start <= i <= end && Aligned(data, index, hashes, i)
      invariant i == end || i - start == m * (fanout * fanout)
      invariant hasher == Level(h, fanout, Level(h, fanout, hashes[start..i]))
      decreases end - i
    {
      ghost var first := i;
      var hasherJ;
      hasherJ, data, index, i := HashGroups(h, fanout, get, data, index, i, end, hashes);
      BlockExtends(h, fanout, hashes, start, m, first, i);
      hasher := hasher + [h(hasherJ)];
      assert (m + 1) * (fanout * fanout) == m * (fanout * fanout) + fanout * fanout;
      m := m + 1;
    }
    digest := h(hasher);
  }

  lemma {:induction false} BlockExtends<H>(h: seq<H> -> H, f: nat, hashes: seq<H>, start: nat, m: nat, first: nat,
                                           i: nat)
    requires f >= 2 && start <= first < i <= |hashes| && first - start == m * (f * f) && i - first <= f * f
    ensures Level(h, f, Level(h, f, hashes[start..i]))
         == Level(h, f, Level(h, f, hashes[start..first])) + [h(Level(h, f, hashes[first..i]))]
  {
    var a, b := hashes[start..first], hashes[first..i];
    assert hashes[start..i] == a + b;
    TwoLevelsConcat(h, f, a, m, b);
    LevelLengthBound(h, f, b, f);
    LevelNonEmpty(h, f, b);
    LevelOfSmall(h, f, Level(h, f, b));
  }

  /** What one chunk of a pass is reduced to. */
  ghost function ChunkDigest<H>(h: seq<H> -> H, f: nat, three: bool, chunk: seq<H>): H
    requires f >= 2
  {
    if three then h(Level(h, f, Level(h, f, chunk))) else h(chunk)
  }

  /** One chunk of a pass over all the hashes, one or three levels deep. */
  lemma {:induction false} ChunkExtends<H>(h: seq<H> -> H, f: nat, three: bool, hashes: seq<H>, m: nat, start: nat,
                                           end: nat)
    requires f >= 2
    requires var n := if three then f * f * f else f; start == m * n && start < end <= |hashes| && end - start <= n
    ensures Levels(h, f, hashes[..end], if three then 3 else 1)
         == Levels(h, f, hashes[..start], if three then 3 else 1) + [ChunkDigest(h, f, three, hashes[start..end])]
  {
    if three {
      var a, b := hashes[..start], hashes[start..end];
      assert hashes[..end] == a + b;
      ThreeLevelsConcat(h, f, a, m, b);
      ThreeLevelsOfChunk(h, f, b);
    } else {
      LevelExtend(h, f, hashes, m, start, end);
    }
  }

  /** `compute_merkle_root_from_slices`: whatever the fragmentation and the number of levels
      hashed per pass, the root is the plain root, and a requested level count `k` yields
      exactly `k` plain levels. */
  method ComputeMerkleRootFromSlices<H>(h: seq<H> -> H, default: H, total: nat, fanout: nat, maxLevels: Option<nat>,
                                        get: nat --> seq<H>, levels: Option<nat>, ghost hashes: seq<H>)
    returns (root: H, intermediate: seq<H>)
    requires fanout >= 2 && total == |hashes| && SliceSource(get, hashes)
    requires levels.Some? ==> levels.value >= 1
    ensures levels.None? ==> root == Root(h, fanout, hashes) && intermediate == []
    ensures levels.Some? && total > 0 ==> root == default && intermediate == Levels(h, fanout, hashes, levels.value)
    ensures levels.Some? && total == 0 ==> root == h([]) && intermediate == []
    decreases if levels.Some? then levels.value else 0
  {
    if total == 0 {
      return h([]), [];
    }
    var (perChunk, hashed, three) := CalculateThreeLevelChunks(total, fanout, maxLevels, levels);
    var result := HashAllChunks(h, total, fanout, perChunk, three, get, hashes);
    LevelsNonEmpty(h, fanout, hashes, hashed);
    if levels.Some? {
      var left := levels.value - hashed;
      if left == 0 {
        return default, result;
      }
      var again := (start: nat) requires start <= |result| => result[start..];
      root, intermediate :=
        ComputeMerkleRootFromSlices(h, default, |result|, fanout, maxLevels, again, Some(left), result);
      LevelsCompose(h, fanout, hashes, hashed, left);
    } else {
      intermediate := [];
      if three {
        RootPeelThree(h, fanout, hashes);
      } else {
        assert Levels(h, fanout, hashes, 1) == Level(h, fanout, hashes);
      }
      if |result| == 1 {
        root := result[0];
      } else {
        if !three { RootPeel(h, fanout, hashes); }
        root := ComputeMerkleRootLoop(h, result, fanout, x => x);
        assert Mapped(result, x => x) == result;
      }
    }
  }

  lemma {:induction false} LevelsNonEmpty<H>(h: seq<H> -> H, f: nat, s: seq<H>, k: nat)
    requires f >= 1 && s != []
    ensures Levels(h, f, s, k) != []
    decreases k
  {
    if k > 0 {
      LevelNonEmpty(h, f, s);
      LevelsNonEmpty(h, f, Level(h, f, s), k - 1);
    }
  }

  /** One pass over the input: every chunk becomes one hash. */
  method HashAllChunks<H>(h: seq<H> -> H, total: nat, fanout: nat, perChunk: nat, three: bool,
                          get: nat --> seq<H>, ghost hashes: seq<H>)
    returns (result: seq<H>)
    requires fanout >= 2 && total == |hashes| > 0 && SliceSource(get, hashes)
    requires perChunk == if three then fanout * fanout * fanout else fanout
    requires perChunk > 0
    ensures result == Levels(h, fanout, hashes, if three then 3 else 1)
  {
    ghost var depth := if three then 3 else 1;
    var chunks := DivCeil(total, perChunk);
    var data := get(0);
    assert hashes[0..] == hashes;
    result := [];
    for i := 0 to chunks
      invariant i < chunks ==> i * perChunk < total
      invariant i < chunks ==> result == Levels(h, fanout, hashes[..i * perChunk], depth)
      invariant i == chunks ==> result == Levels(h, fanout, hashes, depth)
    {
      ChunkBounds(total, perChunk, i);
      var start := i * perChunk;
      var end := if start + perChunk <= total then start + perChunk else total;
      assert (i + 1) * perChunk == start + perChunk;
      var digest;
      if three {
        digest := HashThreeLevels(h, fanout, get, data, start, end, hashes);
      } else {
        digest := HashOneLevel(h, get, data, start, end, hashes);
      }
      ChunkExtends(h, fanout, three, hashes, i, start, end);
      result := result + [digest];
      assert end == total ==> hashes[..end] == hashes;
    }
  }
}
