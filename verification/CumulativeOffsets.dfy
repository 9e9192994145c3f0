/** Looking up hashes by overall index in a vector of vectors, or in a list of files, without
    flattening them. */
module CumulativeOffsets {
  import opened Search
  import opened MerkleTree
  import opened MerkleRoot
  import opened Wrappers

  const MERKLE_FANOUT: nat := 16

  /** Where a data source starts in the overall order. */
  datatype Offset = Offset(index: nat, startOffset: nat)

  datatype Offsets = Offsets(offsets: seq<Offset>, totalCount: nat)

  function Flatten<T>(raw: seq<seq<T>>): seq<T> {
    if raw == [] then [] else Flatten(raw[..|raw| - 1]) + raw[|raw| - 1]
  }

  function Lengths<T>(raw: seq<seq<T>>): seq<nat> {
    seq(|raw|, i requires 0 <= i < |raw| => |raw[i]|)
  }

  /** One offset per non-empty source; empty sources leave no trace. */
  function New(lens: seq<nat>): Offsets {
    if lens == [] then Offsets([], 0)
    else
      var n := |lens| - 1;
      var c := New(lens[..n]);
      if lens[n] > 0 then Offsets(c.offsets + [Offset(n, c.totalCount)], c.totalCount + lens[n]) else c
  }

  function Next(c: Offsets, i: nat): nat
    requires i < |c.offsets|
  {
    if i + 1 == |c.offsets| then c.totalCount else c.offsets[i + 1].startOffset
  }

  /** Offset `i` names a non-empty source of `raw`, where it starts, and where the next one does. */
  ghost predicate Placed<T>(c: Offsets, raw: seq<seq<T>>, i: nat) {
    && i < |c.offsets|
    && c.offsets[i].index < |raw|
    && c.offsets[i].startOffset == |Flatten(raw[..c.offsets[i].index])|
    && c.offsets[i].startOffset < Next(c, i) == c.offsets[i].startOffset + |raw[c.offsets[i].index]|
  }

  ghost predicate Describes<T>(c: Offsets, raw: seq<seq<T>>) {
    && c.totalCount == |Flatten(raw)|
    && (c.offsets == [] <==> c.totalCount == 0)
    && (c.offsets != [] ==> c.offsets[0].startOffset == 0)
    && (forall i: nat :: i < |c.offsets| ==> Placed(c, raw, i))
  }

  lemma {:induction false} NewDescribes<T>(raw: seq<seq<T>>)
    ensures Describes(New(Lengths(raw)), raw)
    decreases |raw|
  {
    if raw != [] {
      var n := |raw| - 1;
      var front := raw[..n];
      NewDescribes(front);
      assert Lengths(raw)[..n] == Lengths(front);
      var before, c := New(Lengths(front)), New(Lengths(raw));
      assert Flatten(raw) == Flatten(front) + raw[n];
      forall i: nat | i < |c.offsets|
        ensures Placed(c, raw, i)
      {
        if i < |before.offsets| {
          assert Placed(before, front, i);
          assert raw[..c.offsets[i].index] == front[..c.offsets[i].index];
        }
      }
    }
  }

  /** Later offsets start later, so the binary search sees ascending keys. */
  lemma {:induction false} StartsAscend<T>(c: Offsets, raw: seq<seq<T>>, i: nat, j: nat)
    requires (forall k: nat :: k < |c.offsets| ==> Placed(c, raw, k)) && i < j < |c.offsets|
    ensures c.offsets[i].startOffset < c.offsets[j].startOffset
    decreases j - i
  {
    assert Placed(c, raw, i);
    if i + 1 < j {
      StartsAscend(c, raw, i + 1, j);
    }
  }

  function Starts(c: Offsets): (r: seq<int>) {
    seq(|c.offsets|, i requires 0 <= i < |c.offsets| => c.offsets[i].startOffset)
  }

  lemma {:induction false} StartsSorted<T>(c: Offsets, raw: seq<seq<T>>)
    requires forall k: nat :: k < |c.offsets| ==> Placed(c, raw, k)
    ensures Ascending(Starts(c))
  {
    forall i, j | 0 <= i < j < |c.offsets| ensures Starts(c)[i] <= Starts(c)[j] {
      StartsAscend(c, raw, i, j);
    }
  }

  /** The source that contains overall index `start`. */
  function FindIndex(c: Offsets, start: nat): (i: nat)
    requires c.offsets != [] && c.offsets[0].startOffset == 0
    requires Ascending(Starts(c))
    ensures i < |c.offsets| && c.offsets[i].startOffset <= start
    ensures i + 1 < |c.offsets| ==> c.offsets[i].startOffset == start || start < c.offsets[i + 1].startOffset
  {
    var keys := Starts(c);
    match BinarySearch(keys, start)
    case Ok(index) => index
    case Err(index) =>
      assert keys[0] <= start;
      assert keys[index - 1] < start;
      assert index < |keys| ==> keys[index] > start;
      index - 1
  }

  /** Offset within the source, the source, and how many hashes the source holds. */
  function Find(c: Offsets, start: nat): (nat, Offset, int)
    requires c.offsets != [] && c.offsets[0].startOffset == 0
    requires Ascending(Starts(c))
  {
    var i := FindIndex(c, start);
    (start - c.offsets[i].startOffset, c.offsets[i], Next(c, i) - c.offsets[i].startOffset)
  }

  lemma {:induction false} FlattenPrefix<T>(raw: seq<seq<T>>, k: nat)
    requires k <= |raw|
    ensures Flatten(raw[..k]) <= Flatten(raw)
    decreases |raw|
  {
    if k == |raw| {
      assert raw[..k] == raw;
    } else {
      var front := raw[..|raw| - 1];
      FlattenPrefix(front, k);
      assert front[..k] == raw[..k];
    }
  }

  /** The found source holds index `start`, and the rest of it continues the flattening. */
  lemma {:induction false} FindLocates<T>(raw: seq<seq<T>>, start: nat)
    requires start < |Flatten(raw)|
    ensures var c := New(Lengths(raw));
      && c.totalCount == |Flatten(raw)|
      && c.offsets != [] && c.offsets[0].startOffset == 0 && Ascending(Starts(c))
      && var (within, offset, count) := Find(c, start);
         && offset.index < |raw| && within < |raw[offset.index]| == count
         && raw[offset.index][within..] <= Flatten(raw)[start..]
  {
    var c := New(Lengths(raw));
    NewDescribes(raw);
    StartsSorted(c, raw);
    var i := FindIndex(c, start);
    assert Placed(c, raw, i);
    RestOfSource(raw, c.offsets[i].index, start);
  }

  /** From index `start`, inside source `k`, the flattening goes on with the rest of that source. */
  lemma {:induction false} RestOfSource<T>(raw: seq<seq<T>>, k: nat, start: nat)
    requires k < |raw| && |Flatten(raw[..k])| <= start <= |Flatten(raw[..k])| + |raw[k]|
    ensures start <= |Flatten(raw)|
    ensures raw[k][start - |Flatten(raw[..k])|..] <= Flatten(raw)[start..]
  {
    var base := |Flatten(raw[..k])|;
    FlattenPrefix(raw, k + 1);
    assert raw[..k + 1][..k] == raw[..k];
    var through := Flatten(raw[..k + 1]);
    assert through == Flatten(raw[..k]) + raw[k];
    assert through[start..] == raw[k][start - base..];
    assert Flatten(raw)[start..][..|through| - start] == through[start..];
  }

  /** The biggest slice of `raw` that starts at overall index `start`. */
  function GetSlice<T>(raw: seq<seq<T>>, start: nat): (slice: seq<T>)
    requires start < |Flatten(raw)|
    ensures slice != [] && slice <= Flatten(raw)[start..]
  {
    FindLocates(raw, start);
    var (within, offset, _) := Find(New(Lengths(raw)), start);
    raw[offset.index][within..]
  }

  /** The same, read from a file through a buffer of at most `maxBuffer` hashes. */
  function GetData<T>(files: seq<seq<T>>, start: nat, maxBuffer: nat): (slice: seq<T>)
    requires start < |Flatten(files)| && maxBuffer > 0
    ensures slice != [] && slice <= Flatten(files)[start..] && |slice| <= maxBuffer
  {
    FindLocates(files, start);
    var (within, offset, count) := Find(New(Lengths(files)), start);
    var remaining := count - within;
    var size := if remaining <= maxBuffer then remaining else maxBuffer;
    assert files[offset.index][within..within + size] == files[offset.index][within..][..size];
    files[offset.index][within..within + size]
  }

  /** Files without hashes get no reader (`from_files`). */
  function Readers<T>(files: seq<seq<T>>): (r: seq<seq<T>>)
    ensures Flatten(r) == Flatten(files)
    ensures forall i :: 0 <= i < |r| ==> r[i] != []
  {
    if files == [] then []
    else
      var n := |files| - 1;
      var rest := Readers(files[..n]);
      if files[n] == [] then rest
      else
        assert (rest + [files[n]])[..|rest|] == rest;
        rest + [files[n]]
  }

  /** The root of hashes scattered over vectors is the root of their flattening. */
  method CalculateHash<H>(h: seq<H> -> H, default: H, hashes: seq<seq<H>>) returns (root: H, total: nat)
    ensures root == Root(h, 16, Flatten(hashes)) && total == |Flatten(hashes)|
  {
    NewDescribes(hashes);
    total := New(Lengths(hashes)).totalCount;
    var get := (start: nat) requires start < |Flatten(hashes)| => GetSlice(hashes, start);
    var r, _ := ComputeMerkleRootFromSlices(h, default, total, MERKLE_FANOUT, None, get, None, Flatten(hashes));
    root := r;
  }

  /** The same for hashes in files, read through a bounded buffer. */
  method HashFiles<H>(h: seq<H> -> H, default: H, files: seq<seq<H>>, maxBuffer: nat) returns (root: H)
    requires maxBuffer > 0
    ensures root == Root(h, 16, Flatten(files))
  {
    var readers := Readers(files);
    NewDescribes(readers);
    var total := New(Lengths(readers)).totalCount;
    var get := (start: nat) requires start < |Flatten(readers)| => GetData(readers, start, maxBuffer);
    var r, _ := ComputeMerkleRootFromSlices(h, default, total, MERKLE_FANOUT, None, get, None, Flatten(readers));
    root := r;
  }
}
