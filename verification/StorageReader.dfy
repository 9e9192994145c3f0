/** Reading a storage file without its obsolete accounts. For every sequence of buffer sizes and
    every pattern of short file reads, the bytes delivered are the file minus the obsolete ranges. */
module StorageReader {
  import opened Permutations
  import opened Wrappers

  type Byte = bv8
  type Slot = nat

  /** An obsolete account as recorded: where it starts, its data length, and the slot it died in. */
  datatype ObsoleteAccount = ObsoleteAccount(offset: nat, dataLen: nat, slot: Slot)

  /** The bytes an obsolete account occupies, perhaps beyond the end of the file. */
  datatype Range = Range(start: nat, size: nat)

  // ---------------------------------------------------------------------------------------
  // Specification

  ghost predicate Obsolete(ranges: seq<Range>, p: nat) {
    exists r :: r in ranges && r.start <= p < r.start + r.size
  }

  /** The bytes from position `p` on that lie in no range. */
  ghost function AliveFrom(data: seq<Byte>, ranges: seq<Range>, p: nat): seq<Byte>
    decreases |data| - p
  {
    if p >= |data| then []
    else if Obsolete(ranges, p) then AliveFrom(data, ranges, p + 1)
    else [data[p]] + AliveFrom(data, ranges, p + 1)
  }

  /** No two ranges share a byte, and none is empty or starts beyond the file. */
  ghost predicate Disjoint(ranges: seq<Range>, total: nat) {
    && (forall i :: 0 <= i < |ranges| ==> ranges[i].start < total && ranges[i].size > 0)
    && (forall i, j :: 0 <= i < |ranges| && 0 <= j < |ranges| && i != j ==> Apart(ranges[i], ranges[j]))
  }

  ghost predicate Apart(a: Range, b: Range) {
    a.start + a.size <= b.start || b.start + b.size <= a.start
  }

  function Min(a: nat, b: nat): nat {
    if a <= b then a else b
  }

  ghost predicate Within(ranges: seq<Range>, total: nat) {
    forall k :: 0 <= k < |ranges| ==> ranges[k].start <= total
  }

  /** Sum of the sizes, each clipped at the end of the file (`get_obsolete_bytes`). */
  function ClippedSum(ranges: seq<Range>, total: nat): nat
    requires Within(ranges, total)
  {
    if ranges == [] then 0
    else
      var n := |ranges| - 1;
      ClippedSum(ranges[..n], total) + Min(ranges[n].size, total - ranges[n].start)
  }

  // ---------------------------------------------------------------------------------------
  // Lemmas

  /** Reading on through bytes that lie in no range. */
  lemma {:induction false} AliveRun(data: seq<Byte>, ranges: seq<Range>, p: nat, q: nat)
    requires p <= q <= |data| && forall i :: p <= i < q ==> !Obsolete(ranges, i)
    ensures AliveFrom(data, ranges, p) == data[p..q] + AliveFrom(data, ranges, q)
    decreases q - p
  {
    if p == q {
      assert data[p..q] == [];
    } else {
      AliveRun(data, ranges, p + 1, q);
      var rest := AliveFrom(data, ranges, q);
      assert data[p..q] + rest == [data[p]] + (data[p + 1..q] + rest);
    }
  }

  lemma {:induction false} AliveSkip(data: seq<Byte>, ranges: seq<Range>, p: nat, q: nat)
    requires p <= q <= |data| && forall i :: p <= i < q ==> Obsolete(ranges, i)
    ensures AliveFrom(data, ranges, p) == AliveFrom(data, ranges, q)
    decreases q - p
  {
    if p < q {
      AliveSkip(data, ranges, p + 1, q);
    }
  }

  /** Ranges that agree from `p` on leave the same bytes. */
  lemma {:induction false} AliveSame(data: seq<Byte>, a: seq<Range>, b: seq<Range>, p: nat)
    requires forall i :: p <= i < |data| ==> (Obsolete(a, i) <==> Obsolete(b, i))
    ensures AliveFrom(data, a, p) == AliveFrom(data, b, p)
    decreases |data| - p
  {
    if p < |data| {
      AliveSame(data, a, b, p + 1);
    }
  }

  // ---------------------------------------------------------------------------------------
  // The ranges still ahead of the reader, the next one last

  ghost predicate Ahead(ranges: seq<Range>, total: nat, offset: nat) {
    && offset <= total
    && (forall i :: 0 <= i < |ranges| ==> offset <= ranges[i].start < total && ranges[i].size > 0)
    && (forall i, j :: 0 <= i < j < |ranges| ==> ranges[j].start + ranges[j].size <= ranges[i].start)
  }

  /** The next range starts first. */
  lemma {:induction false} NextIsFirst(ranges: seq<Range>, total: nat, offset: nat, i: nat)
    requires Ahead(ranges, total, offset) && i < |ranges| - 1
    ensures ranges[|ranges| - 1].start + ranges[|ranges| - 1].size <= ranges[i].start
  {
    var n := |ranges| - 1;
    assert ranges[n].start < total;
  }

  /** Nothing before the next range is obsolete. */
  lemma {:induction false} ClearUntilNext(ranges: seq<Range>, total: nat, offset: nat, p: nat)
    requires Ahead(ranges, total, offset) && offset <= p < total
    requires ranges != [] ==> p < ranges[|ranges| - 1].start
    ensures !Obsolete(ranges, p)
  {
    forall i | 0 <= i < |ranges| ensures p < ranges[i].start {
      if i < |ranges| - 1 {
        NextIsFirst(ranges, total, offset, i);
      }
    }
  }

  lemma {:induction false} AheadAfterSkip(ranges: seq<Range>, total: nat, offset: nat, after: nat)
    requires Ahead(ranges, total, offset) && ranges != []
    requires after <= total && after <= ranges[|ranges| - 1].start + ranges[|ranges| - 1].size
    ensures Ahead(ranges[..|ranges| - 1], total, after)
  {
    var n := |ranges| - 1;
    forall i | 0 <= i < n ensures after <= ranges[i].start {
      NextIsFirst(ranges, total, offset, i);
    }
  }

  /** Past the next range, that range makes no difference. */
  lemma {:induction false} SameAfterSkip(ranges: seq<Range>, p: nat)
    requires ranges != [] && ranges[|ranges| - 1].start + ranges[|ranges| - 1].size <= p
    ensures Obsolete(ranges, p) <==> Obsolete(ranges[..|ranges| - 1], p)
  {
    var n := |ranges| - 1;
    assert ranges == ranges[..n] + [ranges[n]];
  }

  /** Skipping the next range, up to its end or the end of the file. */
  lemma {:induction false} SkipNext(data: seq<Byte>, ranges: seq<Range>, offset: nat)
    requires Ahead(ranges, |data|, offset) && ranges != [] && offset == ranges[|ranges| - 1].start
    ensures var n := |ranges| - 1;
      var after := offset + Min(ranges[n].size, |data| - offset);
      && Ahead(ranges[..n], |data|, after)
      && AliveFrom(data, ranges, offset) == AliveFrom(data, ranges[..n], after)
  {
    var n := |ranges| - 1;
    var after := offset + Min(ranges[n].size, |data| - offset);
    AheadAfterSkip(ranges, |data|, offset, after);
    forall i | offset <= i < after ensures Obsolete(ranges, i) {
      assert ranges[n] in ranges;
    }
    AliveSkip(data, ranges, offset, after);
    forall i | after <= i < |data| ensures Obsolete(ranges, i) <==> Obsolete(ranges[..n], i) {
      SameAfterSkip(ranges, i);
    }
    AliveSame(data, ranges, ranges[..n], after);
  }

  lemma {:induction false} AheadAfterRead(ranges: seq<Range>, total: nat, offset: nat, after: nat)
    requires Ahead(ranges, total, offset) && offset <= after <= total
    requires ranges != [] ==> after <= ranges[|ranges| - 1].start
    ensures Ahead(ranges, total, after)
  {
    forall i | 0 <= i < |ranges| ensures after <= ranges[i].start {
      if i < |ranges| - 1 {
        NextIsFirst(ranges, total, offset, i);
      }
    }
  }

  /** Reading up to `k` bytes before the next range. */
  lemma {:induction false} ReadOn(data: seq<Byte>, ranges: seq<Range>, offset: nat, k: nat)
    requires Ahead(ranges, |data|, offset) && offset + k <= |data|
    requires ranges != [] ==> offset + k <= ranges[|ranges| - 1].start
    ensures Ahead(ranges, |data|, offset + k)
    ensures AliveFrom(data, ranges, offset) == data[offset..offset + k] + AliveFrom(data, ranges, offset + k)
  {
    forall p | offset <= p < offset + k ensures !Obsolete(ranges, p) {
      ClearUntilNext(ranges, |data|, offset, p);
    }
    AliveRun(data, ranges, offset, offset + k);
    AheadAfterRead(ranges, |data|, offset, offset + k);
  }

  lemma {:induction false} NothingAtEnd(data: seq<Byte>)
    ensures AliveFrom(data, [], |data|) == []
  {
  }

  lemma {:induction false} Associates(a: seq<Byte>, b: seq<Byte>, c: seq<Byte>)
    ensures a + b + c == a + (b + c)
  {
  }

  lemma {:induction false} ReadToNext(data: seq<Byte>, ranges: seq<Range>, offset: nat)
    requires Ahead(ranges, |data|, offset) && ranges != []
    ensures var start := ranges[|ranges| - 1].start;
      && Ahead(ranges, |data|, start)
      && |AliveFrom(data, ranges, offset)| == start - offset + |AliveFrom(data, ranges, start)|
  {
    var start := ranges[|ranges| - 1].start;
    ReadOn(data, ranges, offset, start - offset);
    assert |data[offset..offset + (start - offset)]| == start - offset;
  }

  /** Where reading goes on after the next range. */
  ghost function PastNext(ranges: seq<Range>, total: nat): nat
    requires ranges != [] && ranges[|ranges| - 1].start <= total
  {
    var next := ranges[|ranges| - 1];
    next.start + Min(next.size, total - next.start)
  }

  lemma {:induction false} NextInFile(ranges: seq<Range>, total: nat, offset: nat)
    requires Ahead(ranges, total, offset) && ranges != []
    ensures offset <= ranges[|ranges| - 1].start < total
  {
  }

  lemma {:induction false} SkippedLength(data: seq<Byte>, ranges: seq<Range>)
    requires ranges != [] && Ahead(ranges, |data|, ranges[|ranges| - 1].start)
    ensures Ahead(ranges[..|ranges| - 1], |data|, PastNext(ranges, |data|))
    ensures |AliveFrom(data, ranges, ranges[|ranges| - 1].start)| ==
            |AliveFrom(data, ranges[..|ranges| - 1], PastNext(ranges, |data|))|
  {
    SkipNext(data, ranges, ranges[|ranges| - 1].start);
  }

  /** The bytes up to the next range, then those after it. */
  lemma {:induction false} PassNext(data: seq<Byte>, ranges: seq<Range>, offset: nat) returns (after: nat)
    requires Ahead(ranges, |data|, offset) && ranges != []
    ensures var n := |ranges| - 1;
      && after == ranges[n].start + Min(ranges[n].size, |data| - ranges[n].start)
      && Ahead(ranges[..n], |data|, after)
      && |AliveFrom(data, ranges, offset)| == ranges[n].start - offset + |AliveFrom(data, ranges[..n], after)|
  {
    NextInFile(ranges, |data|, offset);
    after := PastNext(ranges, |data|);
    ReadToNext(data, ranges, offset);
    SkippedLength(data, ranges);
  }

  /** As many bytes are alive as the clipped sizes leave over. */
  lemma {:induction false} AliveLength(data: seq<Byte>, ranges: seq<Range>, offset: nat)
    requires Ahead(ranges, |data|, offset) && Within(ranges, |data|)
    ensures |AliveFrom(data, ranges, offset)| == |data| - offset - ClippedSum(ranges, |data|)
    decreases |ranges|
  {
    if ranges == [] {
      ReadOn(data, ranges, offset, |data| - offset);
    } else {
      var after := PassNext(data, ranges, offset);
      AliveLength(data, ranges[..|ranges| - 1], after);
    }
  }

  // ---------------------------------------------------------------------------------------
  // Sorting the ranges, the first one last

  ghost predicate Descending(ranges: seq<Range>) {
    forall i, j :: 0 <= i < j < |ranges| ==> ranges[j].start <= ranges[i].start
  }

  lemma {:induction false} ClippedSumJoin(a: seq<Range>, b: seq<Range>, total: nat)
    requires Within(a, total) && Within(b, total)
    ensures Within(a + b, total) && ClippedSum(a + b, total) == ClippedSum(a, total) + ClippedSum(b, total)
    decreases |b|
  {
    if b == [] {
      assert a + b == a;
    } else {
      var n := |b| - 1;
      assert (a + b)[..|a + b| - 1] == a + b[..n];
      ClippedSumJoin(a, b[..n], total);
    }
  }

  lemma {:induction false} InsertKeepsSum(a: seq<Range>, r: Range, b: seq<Range>, total: nat)
    requires Within(a, total) && Within(b, total) && r.start <= total
    ensures Within(a + [r] + b, total) && Within(a + b, total) && Within([r], total)
    ensures ClippedSum(a + [r] + b, total) == ClippedSum(a + b, total) + ClippedSum([r], total)
  {
    ClippedSumJoin(a, [r], total);
    ClippedSumJoin(a + [r], b, total);
    ClippedSumJoin(a, b, total);
  }

  lemma {:induction false} InsertKeepsOrder(a: seq<Range>, r: Range, b: seq<Range>)
    requires Descending(a + b)
    requires forall k :: 0 <= k < |a| ==> a[k].start >= r.start
    requires b != [] ==> b[0].start < r.start
    ensures Descending(a + [r] + b)
  {
    var s, t := a + [r] + b, a + b;
    forall i, j | 0 <= i < j < |s| ensures s[j].start <= s[i].start {
      assert s[i] == if i < |a| then t[i] else if i == |a| then r else t[i - 1];
      assert s[j] == if j < |a| then t[j] else if j == |a| then r else t[j - 1];
      if i == |a| {
        assert t[|a|] == b[0];
      }
    }
  }

  lemma {:induction false} PartsWithin(a: seq<Range>, b: seq<Range>, total: nat)
    requires Within(a + b, total)
    ensures Within(a, total) && Within(b, total)
  {
    assert forall k :: 0 <= k < |a| ==> (a + b)[k] == a[k];
    assert forall k :: 0 <= k < |b| ==> (a + b)[|a| + k] == b[k];
  }

  lemma {:induction false} InsertKeepsItems(a: seq<Range>, r: Range, b: seq<Range>)
    ensures multiset(a + [r] + b) == multiset(a + b + [r])
  {
  }

  lemma {:induction false} InsertKeepsAll(a: seq<Range>, r: Range, b: seq<Range>, total: nat)
    requires Descending(a + b) && Within(a + b, total) && r.start <= total
    requires forall k :: 0 <= k < |a| ==> a[k].start >= r.start
    requires b != [] ==> b[0].start < r.start
    ensures Descending(a + [r] + b) && Within(a + [r] + b, total) && Within(a + b + [r], total)
    ensures multiset(a + [r] + b) == multiset(a + b + [r])
    ensures ClippedSum(a + [r] + b, total) == ClippedSum(a + b + [r], total)
  {
    InsertKeepsOrder(a, r, b);
    PartsWithin(a, b, total);
    InsertKeepsSum(a, r, b, total);
    ClippedSumJoin(a + b, [r], total);
    InsertKeepsItems(a, r, b);
  }

  /** Put one range in its place. */
  method InsertRange(sorted: seq<Range>, r: Range, ghost total: nat) returns (s: seq<Range>)
    requires Descending(sorted) && Within(sorted, total) && r.start <= total
    ensures Descending(s) && Within(s, total)
    ensures multiset(s) == multiset(sorted + [r])
    ensures Within(sorted + [r], total) && ClippedSum(s, total) == ClippedSum(sorted + [r], total)
  {
    var i := 0;
    while i < |sorted| && sorted[i].start >= r.start
      invariant i <= |sorted| && forall k :: 0 <= k < i ==> sorted[k].start >= r.start
    {
      i := i + 1;
    }
    assert sorted == sorted[..i] + sorted[i..];
    InsertKeepsAll(sorted[..i], r, sorted[i..], total);
    s := sorted[..i] + [r] + sorted[i..];
  }

  lemma {:induction false} SameWithOneMore(a: seq<Range>, b: seq<Range>, r: Range, total: nat)
    requires Within(a, total) && Within(b, total) && r.start <= total
    requires multiset(a) == multiset(b) && ClippedSum(a, total) == ClippedSum(b, total)
    ensures Within(a + [r], total) && Within(b + [r], total)
    ensures multiset(a + [r]) == multiset(b + [r]) && ClippedSum(a + [r], total) == ClippedSum(b + [r], total)
  {
    ClippedSumJoin(a, [r], total);
    ClippedSumJoin(b, [r], total);
  }

  method SortDescending(ranges: seq<Range>, ghost total: nat) returns (sorted: seq<Range>)
    requires Within(ranges, total)
    ensures Descending(sorted) && multiset(sorted) == multiset(ranges) && Within(sorted, total)
    ensures ClippedSum(sorted, total) == ClippedSum(ranges, total)
  {
    sorted := [];
    for n := 0 to |ranges|
      invariant Descending(sorted) && multiset(sorted) == multiset(ranges[..n]) && Within(sorted, total)
      invariant ClippedSum(sorted, total) == ClippedSum(ranges[..n], total)
    {
      assert ranges[..n + 1] == ranges[..n] + [ranges[n]];
      SameWithOneMore(sorted, ranges[..n], ranges[n], total);
      sorted := InsertRange(sorted, ranges[n], total);
    }
    assert ranges[..|ranges|] == ranges;
  }

  // ---------------------------------------------------------------------------------------
  // The reader

  /** The obsolete accounts of the snapshot, as byte ranges. */
  function Chosen(obsolete: seq<ObsoleteAccount>, snapshot: Option<Slot>, stored: nat -> nat): seq<Range> {
    if obsolete == [] then []
    else
      var n := |obsolete| - 1;
      var o := obsolete[n];
      Chosen(obsolete[..n], snapshot, stored)
      + if snapshot.None? || o.slot <= snapshot.value then [Range(o.offset, stored(o.dataLen))] else []
  }

  /** The bytes from position `p` on that are not gone. */
  ghost function Surviving(data: seq<Byte>, gone: nat -> bool, p: nat): seq<Byte>
    decreases |data| - p
  {
    if p >= |data| then []
    else if gone(p) then Surviving(data, gone, p + 1)
    else [data[p]] + Surviving(data, gone, p + 1)
  }

  /** A byte belongs to an account that was obsolete by the snapshot's slot, or ever if there is none. */
  ghost predicate Dead(obsolete: seq<ObsoleteAccount>, snapshot: Option<Slot>, stored: nat -> nat, p: nat) {
    exists o :: o in obsolete && (snapshot.None? || o.slot <= snapshot.value)
                && o.offset <= p < o.offset + stored(o.dataLen)
  }

  lemma {:induction false} ChosenHas(obsolete: seq<ObsoleteAccount>, snapshot: Option<Slot>, stored: nat -> nat,
                                     r: Range)
    ensures r in Chosen(obsolete, snapshot, stored) <==>
      exists o :: o in obsolete && (snapshot.None? || o.slot <= snapshot.value)
                  && r == Range(o.offset, stored(o.dataLen))
    decreases |obsolete|
  {
    if obsolete != [] {
      var n := |obsolete| - 1;
      ChosenHas(obsolete[..n], snapshot, stored, r);
      assert obsolete == obsolete[..n] + [obsolete[n]];
    }
  }

  /** The chosen ranges cover exactly the dead bytes. */
  lemma {:induction false} ChosenCovers(obsolete: seq<ObsoleteAccount>, snapshot: Option<Slot>, stored: nat -> nat,
                                        p: nat)
    ensures Obsolete(Chosen(obsolete, snapshot, stored), p) <==> Dead(obsolete, snapshot, stored, p)
  {
    var ranges := Chosen(obsolete, snapshot, stored);
    if Obsolete(ranges, p) {
      var r :| r in ranges && r.start <= p < r.start + r.size;
      ChosenHas(obsolete, snapshot, stored, r);
    }
    if Dead(obsolete, snapshot, stored, p) {
      var o :| o in obsolete && (snapshot.None? || o.slot <= snapshot.value)
               && o.offset <= p < o.offset + stored(o.dataLen);
      ChosenHas(obsolete, snapshot, stored, Range(o.offset, stored(o.dataLen)));
    }
  }

  lemma {:induction false} SurvivingIsAlive(data: seq<Byte>, ranges: seq<Range>, gone: nat -> bool, p: nat)
    requires forall q: nat :: Obsolete(ranges, q) <==> gone(q)
    ensures Surviving(data, gone, p) == AliveFrom(data, ranges, p)
    decreases |data| - p
  {
    if p < |data| {
      SurvivingIsAlive(data, ranges, gone, p + 1);
    }
  }

  /** Disjoint ranges in descending order all lie ahead of the start of the file. */
  lemma {:induction false} SortedIsAhead(sorted: seq<Range>, ranges: seq<Range>, total: nat)
    requires Disjoint(ranges, total) && Descending(sorted) && multiset(sorted) == multiset(ranges)
    ensures Ahead(sorted, total, 0)
  {
    forall i | 0 <= i < |sorted| ensures sorted[i].start < total && sorted[i].size > 0 {
      assert sorted[i] in multiset(ranges);
    }
    forall i, j | 0 <= i < j < |sorted| ensures sorted[j].start + sorted[j].size <= sorted[i].start {
      TwoPlaces(sorted, ranges, i, j);
      var a, b :| 0 <= a < |ranges| && 0 <= b < |ranges| && a != b && ranges[a] == sorted[i] && ranges[b] == sorted[j];
      assert Apart(ranges[a], ranges[b]);
      assert sorted[i].size > 0;
    }
  }

  lemma {:induction false} SameRangesSameBytes(data: seq<Byte>, a: seq<Range>, b: seq<Range>)
    requires multiset(a) == multiset(b)
    ensures AliveFrom(data, a, 0) == AliveFrom(data, b, 0)
  {
    forall r ensures r in a <==> r in b {
      assert r in a <==> r in multiset(a);
      assert r in b <==> r in multiset(b);
    }
    AliveSame(data, a, b, 0);
  }

  class AccountStorageReader {
    const data: seq<Byte>
    var sortedObsolete: seq<Range>
    var currentOffset: nat
    var numAliveBytes: nat

    ghost predicate Valid()
      reads this
    {
      Ahead(sortedObsolete, |data|, currentOffset)
    }

    /** The bytes still to be delivered. */
    ghost function Remaining(): seq<Byte>
      reads this
      requires Valid()
    {
      AliveFrom(data, sortedObsolete, currentOffset)
    }

    constructor (file: seq<Byte>, obsolete: seq<ObsoleteAccount>, snapshot: Option<Slot>, stored: nat -> nat)
      requires Disjoint(Chosen(obsolete, snapshot, stored), |file|)
      ensures Valid() && data == file
      ensures Remaining() == AliveFrom(file, Chosen(obsolete, snapshot, stored), 0)
      ensures Remaining() == Surviving(file, (p: nat) => Dead(obsolete, snapshot, stored, p), 0)
      ensures numAliveBytes == |Remaining()|
    {
      var ranges := Chosen(obsolete, snapshot, stored);
      var sorted := SortDescending(ranges, |file|);
      SortedIsAhead(sorted, ranges, |file|);
      AliveLength(file, sorted, 0);
      SameRangesSameBytes(file, sorted, ranges);
      ghost var gone := (p: nat) => Dead(obsolete, snapshot, stored, p);
      forall p: nat ensures Obsolete(ranges, p) <==> gone(p) {
        ChosenCovers(obsolete, snapshot, stored, p);
      }
      SurvivingIsAlive(file, ranges, gone, 0);
      data := file;
      sortedObsolete := sorted;
      currentOffset := 0;
      numAliveBytes := |file| - ClippedSum(ranges, |file|);
    }

    predicate AtObsolete()
      reads this
    {
      sortedObsolete != [] && currentOffset == sortedObsolete[|sortedObsolete| - 1].start
    }

    method SkipObsolete()
      requires Valid() && AtObsolete()
      modifies this`sortedObsolete, this`currentOffset
      ensures Valid() && Remaining() == old(Remaining())
      ensures |sortedObsolete| < old(|sortedObsolete|) && old(currentOffset) <= currentOffset
    {
      SkipNext(data, sortedObsolete, currentOffset);
      var next := sortedObsolete[|sortedObsolete| - 1];
      currentOffset := currentOffset + Min(next.size, |data| - next.start);
      sortedObsolete := sortedObsolete[..|sortedObsolete| - 1];
    }

    /** Where reading has to stop: at the next range, or at the end of the file. */
    function NextStop(): (end: nat)
      requires Valid()
      reads this
      ensures currentOffset <= end <= |data|
      ensures end == currentOffset && !AtObsolete() ==> sortedObsolete == [] && currentOffset == |data|
    {
      if sortedObsolete != [] then sortedObsolete[|sortedObsolete| - 1].start else |data|
    }

    /** Bytes before the next stop. */
    method ReadExactly(size: nat) returns (bytes: seq<Byte>)
      requires Valid() && currentOffset + size <= NextStop()
      modifies this`currentOffset
      ensures Valid() && |bytes| == size && bytes + Remaining() == old(Remaining())
      ensures currentOffset == old(currentOffset) + size
    {
      ReadOn(data, sortedObsolete, currentOffset, size);
      bytes := data[currentOffset..currentOffset + size];
      currentOffset := currentOffset + size;
    }

    /** One read of the file: short perhaps, but of at least one byte when one was asked for. */
    method ReadChunk(limit: nat) returns (bytes: seq<Byte>)
      requires Valid() && !AtObsolete() && limit > 0
      modifies this`currentOffset
      ensures Valid() && |bytes| <= limit && bytes + Remaining() == old(Remaining())
      ensures bytes == [] ==> Remaining() == []
      ensures currentOffset == old(currentOffset) + |bytes|
    {
      var wanted := Min(limit, NextStop() - currentOffset);
      if wanted == 0 {
        NothingAtEnd(data);
        return [];
      }
      var size: nat :| 1 <= size <= wanted;
      bytes := ReadExactly(size);
    }

    /** Fill the buffer as far as there are bytes. */
    method Read(buf: array<Byte>) returns (total: nat)
      requires Valid()
      modifies this`sortedObsolete, this`currentOffset, buf
      ensures Valid() && total <= buf.Length
      ensures buf[..total] + Remaining() == old(Remaining())
      ensures total < buf.Length ==> Remaining() == []
      ensures buf[total..] == old(buf[..])[total..]
    {
      total := 0;
      while total < buf.Length
        invariant Valid() && total <= buf.Length
        invariant buf[..total] + Remaining() == old(Remaining())
        invariant buf[total..] == old(buf[..])[total..]
        decreases |data| - currentOffset + |sortedObsolete|
      {
        if AtObsolete() {
          SkipObsolete();
          continue;
        }
        ghost var before := Remaining();
        var bytes := ReadChunk(buf.Length - total);
        if bytes == [] {
          assert [] + Remaining() == Remaining();
          break;
        }
        assert buf[..total] + before == (buf[..total] + bytes) + Remaining();
        total := CopyInto(buf, total, bytes);
      }
    }

    static method CopyInto(buf: array<Byte>, at: nat, bytes: seq<Byte>) returns (end: nat)
      requires at + |bytes| <= buf.Length
      modifies buf
      ensures end == at + |bytes|
      ensures buf[..end] == old(buf[..at]) + bytes && buf[end..] == old(buf[..])[end..]
    {
      end := at;
      for i := 0 to |bytes|
        invariant end == at + i
        invariant buf[..at] == old(buf[..at]) && buf[at..end] == bytes[..i] && buf[end..] == old(buf[..])[end..]
      {
        buf[end] := bytes[i];
        end := end + 1;
      }
      assert buf[..end] == buf[..at] + buf[at..end];
    }

    /** One read with a buffer of the given size. */
    method ReadSome(size: nat) returns (bytes: seq<Byte>)
      requires Valid()
      modifies this`sortedObsolete, this`currentOffset
      ensures Valid() && bytes + Remaining() == old(Remaining())
      ensures |bytes| <= size && (|bytes| < size ==> Remaining() == [])
    {
      var buf := new Byte[size];
      var n := Read(buf);
      bytes := buf[..n];
    }

    /** Reading with buffers of the given sizes, one after the other, delivers the bytes in order. */
    method ReadAll(sizes: seq<nat>) returns (delivered: seq<Byte>)
      requires Valid()
      modifies this`sortedObsolete, this`currentOffset
      ensures Valid() && delivered + Remaining() == old(Remaining())
      ensures delivered != old(Remaining()) ==> |delivered| == SumOf(sizes)
    {
      delivered := [];
      for i := 0 to |sizes|
        invariant Valid() && delivered + Remaining() == old(Remaining())
        invariant Remaining() == [] || |delivered| == SumOf(sizes[..i])
      {
        assert sizes[..i + 1][..i] == sizes[..i];
        var bytes := ReadSome(sizes[i]);
        Associates(delivered, bytes, Remaining());
        delivered := delivered + bytes;
      }
      assert sizes[..|sizes|] == sizes;
    }
  }

  function SumOf(sizes: seq<nat>): nat {
    if sizes == [] then 0 else SumOf(sizes[..|sizes| - 1]) + sizes[|sizes| - 1]
  }
}
