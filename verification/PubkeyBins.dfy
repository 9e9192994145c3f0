/** Bins of pubkeys and the search for the first pubkey of a bin. */
module PubkeyBins {
  import opened Wrappers
  import opened Search
  import opened AccountVersions

  /** A bin function keeps the order of pubkeys and has `bins` values. */
  ghost predicate Binner(binOf: Pubkey -> nat, bins: nat) {
    && (forall k :: binOf(k) < bins)
    && (forall j, k :: j <= k ==> binOf(j) <= binOf(k))
  }

  function Pow2(n: nat): (p: nat)
    ensures p > 0
  {
    if n == 0 then 1 else 2 * Pow2(n - 1)
  }

  lemma {:induction false} Pow2Add(m: nat, n: nat)
    ensures Pow2(m + n) == Pow2(m) * Pow2(n)
    decreases n
  {
    if n > 0 {
      Pow2Add(m, n - 1);
      assert Pow2(m + n) == 2 * (Pow2(m) * Pow2(n - 1));
    }
  }

  /** 2^232: what lies below the first three bytes of a pubkey. */
  const BELOW_TOP_BYTES: nat := 0x1_0000000000_0000000000_0000000000_0000000000_0000000000_00000000

  /** Whole division. */
  function Quotient(a: nat, d: nat): (q: nat)
    requires d > 0
    ensures q * d <= a < (q + 1) * d
  {
    a / d
  }

  lemma {:induction false} MulCancels(p: nat, q: nat, d: nat)
    requires p * d < q * d
    ensures p < q
  {
  }

  lemma {:induction false} QuotientMonotone(a: nat, b: nat, d: nat)
    requires a <= b && d > 0
    ensures Quotient(a, d) <= Quotient(b, d)
  {
    MulCancels(Quotient(a, d), Quotient(b, d) + 1, d);
  }

  lemma {:induction false} QuotientBelow(a: nat, q: nat, d: nat)
    requires d > 0 && a < q * d
    ensures Quotient(a, d) < q
  {
    MulCancels(Quotient(a, d), q, d);
  }

  /** The first three bytes; numbers beyond 256 bits are not pubkeys. */
  function TopBytes(pubkey: Pubkey): (top: nat)
    ensures top < 0x1000000
  {
    if pubkey < 0x1000000 * BELOW_TOP_BYTES then
      QuotientBelow(pubkey, 0x1000000, BELOW_TOP_BYTES);
      Quotient(pubkey, BELOW_TOP_BYTES)
    else 0xffffff
  }

  lemma {:induction false} TopBytesMonotone(j: Pubkey, k: Pubkey)
    requires j <= k
    ensures TopBytes(j) <= TopBytes(k)
  {
    QuotientMonotone(j, k, BELOW_TOP_BYTES);
  }

  /** `PubkeyBinCalculator24` with 2^bits bins: the first three bytes, shifted. */
  function BinFromPubkey(bits: nat, pubkey: Pubkey): nat
    requires bits <= 24
  {
    Quotient(TopBytes(pubkey), Pow2(24 - bits))
  }

  lemma {:induction false} Pow2Of24()
    ensures Pow2(24) == 0x1000000
  {
    Pow2Add(6, 6);
    Pow2Add(12, 12);
    assert Pow2(6) == 64;
  }

  lemma {:induction false} BinInRange(bits: nat, k: Pubkey)
    requires bits <= 24
    ensures BinFromPubkey(bits, k) < Pow2(bits)
  {
    Pow2Of24();
    Pow2Add(bits, 24 - bits);
    QuotientBelow(TopBytes(k), Pow2(bits), Pow2(24 - bits));
  }

  lemma {:induction false} Pow2Of58()
    ensures Pow2(58) == 0x400000000000000
  {
    Pow2Of24();
    Pow2Add(5, 24);
    assert Pow2(5) == 32;
    Pow2Add(29, 29);
  }

  lemma {:induction false} BelowTopBytesIs()
    ensures BELOW_TOP_BYTES == Pow2(232)
  {
    Pow2Of58();
    Pow2Add(58, 58);
    Pow2Add(116, 116);
  }

  lemma {:induction false} QuotientTwice(a: nat, d: nat, e: nat, product: nat)
    requires d > 0 && e > 0 && product == e * d
    ensures var q := Quotient(Quotient(a, d), e); q * product <= a < (q + 1) * product
  {
    var p := Quotient(a, d);
    var q := Quotient(p, e);
    Product(q * e, p, d);
    Product(p + 1, (q + 1) * e, d);
    Reassociate(q, e, d);
    Reassociate(q + 1, e, d);
  }

  lemma {:induction false} Product(x: nat, y: nat, d: nat)
    requires x <= y
    ensures x * d <= y * d
  {
  }

  lemma {:induction false} Reassociate(x: nat, y: nat, z: nat)
    ensures x * y * z == x * (y * z)
  {
  }

  lemma {:induction false} TopBytesOf(k: Pubkey)
    requires k < Pow2(256)
    ensures TopBytes(k) == Quotient(k, BELOW_TOP_BYTES)
  {
    BelowTopBytesIs();
    Pow2Of24();
    Pow2Add(24, 232);
  }

  lemma {:induction false} RestOfBits(bits: nat)
    requires bits <= 24
    ensures Pow2(24 - bits) * BELOW_TOP_BYTES == Pow2(256 - bits)
  {
    BelowTopBytesIs();
    Pow2Add(24 - bits, 232);
  }

  /** The bin of a 256-bit pubkey is the number its first `bits` bits make. */
  lemma {:induction false} BinIsTopBits(bits: nat, k: Pubkey)
    requires bits <= 24 && k < Pow2(256)
    ensures var bin := BinFromPubkey(bits, k); bin * Pow2(256 - bits) <= k < (bin + 1) * Pow2(256 - bits)
  {
    TopBytesOf(k);
    RestOfBits(bits);
    QuotientTwice(k, BELOW_TOP_BYTES, Pow2(24 - bits), Pow2(256 - bits));
  }

  lemma {:induction false} BinMonotone(bits: nat, j: Pubkey, k: Pubkey)
    requires bits <= 24 && j <= k
    ensures BinFromPubkey(bits, j) <= BinFromPubkey(bits, k)
  {
    TopBytesMonotone(j, k);
    QuotientMonotone(TopBytes(j), TopBytes(k), Pow2(24 - bits));
  }

  /** The real bin calculator is a bin function, for every power of two up to 2^24 bins. */
  lemma {:induction false} CalculatorIsBinner(bits: nat, binOf: Pubkey -> nat)
    requires bits <= 24 && forall k :: binOf(k) == BinFromPubkey(bits, k)
    ensures Binner(binOf, Pow2(bits))
  {
    forall k ensures binOf(k) < Pow2(bits) {
      BinInRange(bits, k);
    }
    forall j, k | j <= k ensures binOf(j) <= binOf(k) {
      BinMonotone(bits, j, k);
    }
  }

  ghost predicate SortedByBin<H>(data: seq<Version<H>>, binOf: Pubkey -> nat) {
    forall i, j :: 0 <= i < j < |data| ==> binOf(data[i].pubkey) <= binOf(data[j].pubkey)
  }

  /** `r` is the least index whose pubkey is in `bin`, and `None` exactly when there is none. */
  ghost predicate IsFirstInBin<H>(data: seq<Version<H>>, binOf: Pubkey -> nat, bin: nat, r: Option<nat>) {
    match r
    case None => forall i :: 0 <= i < |data| ==> binOf(data[i].pubkey) != bin
    case Some(f) =>
      f < |data| && binOf(data[f].pubkey) == bin && forall i :: 0 <= i < f ==> binOf(data[i].pubkey) < bin
  }

  /** Twice the bin plus one, so that no key ever equals twice the wanted bin. */
  function DoubledBins<H>(data: seq<Version<H>>, binOf: Pubkey -> nat): seq<int> {
    seq(|data|, i requires 0 <= i < |data| => 1 + 2 * binOf(data[i].pubkey))
  }

  lemma {:induction false} DoubledBinsAscend<H>(data: seq<Version<H>>, binOf: Pubkey -> nat)
    requires SortedByBin(data, binOf)
    ensures Ascending(DoubledBins(data, binOf))
  {
  }

  /** The doubled comparison never matches exactly. */
  lemma {:induction false} NeverFound<H>(data: seq<Version<H>>, binOf: Pubkey -> nat, bin: nat)
    requires SortedByBin(data, binOf)
    ensures Ascending(DoubledBins(data, binOf)) && BinarySearch(DoubledBins(data, binOf), bin * 2).Err?
  {
    var keys := DoubledBins(data, binOf);
    DoubledBinsAscend(data, binOf);
    assert forall i :: 0 <= i < |keys| ==> keys[i] % 2 == 1;
  }

  function BinarySearchForFirstPubkeyInBin<H>(data: seq<Version<H>>, bin: nat, binOf: Pubkey -> nat): (r: Option<nat>)
    requires SortedByBin(data, binOf)
    ensures IsFirstInBin(data, binOf, bin, r)
  {
    var keys := DoubledBins(data, binOf);
    NeverFound(data, binOf, bin);
    var potential := if bin == 0 then 0 else BinarySearch(keys, bin * 2).index;
    assert forall i :: 0 <= i < |data| ==> keys[i] == 1 + 2 * binOf(data[i].pubkey);
    assert forall i :: 0 <= i < |data| ==> binOf(data[0].pubkey) <= binOf(data[i].pubkey);
    assert bin > 0 ==> forall i :: 0 <= i < |data| ==> (i < potential <==> keys[i] < bin * 2);
    if potential < |data| && binOf(data[potential].pubkey) == bin then Some(potential) else None
  }

  /** Guess a position by interpolation, then search the half the bin must start in. */
  function FindFirstPubkeyInBin<H>(data: seq<Version<H>>, bin: nat, bins: nat, binOf: Pubkey -> nat): (r: Option<nat>)
    requires SortedByBin(data, binOf) && bin < bins
    ensures IsFirstInBin(data, binOf, bin, r)
  {
    if data == [] then None
    else
      var i := |data| * bin / bins;
      GuessInRange(|data|, bin, bins);
      var (low, high) := if binOf(data[i].pubkey) >= bin then (0, i + 1) else (i + 1, |data|);
      var part := data[low..high];
      var found := BinarySearchForFirstPubkeyInBin(part, bin, binOf);
      FirstInPart(data, binOf, bin, i, low, high, found);
      if found.None? then None else Some(low + found.value)
  }

  lemma {:induction false} GuessInRange(n: nat, bin: nat, bins: nat)
    requires n > 0 && bin < bins
    ensures n * bin / bins < n
  {
    assert n * bin < n * bins by { assert n * bins == n * bin + n * (bins - bin); }
    QuotientBelow(n * bin, n, bins);
  }

  lemma {:induction false} FirstInPart<H>(data: seq<Version<H>>, binOf: Pubkey -> nat, bin: nat, i: nat, low: nat,
                                          high: nat, found: Option<nat>)
    requires SortedByBin(data, binOf) && i < |data|
    requires if binOf(data[i].pubkey) >= bin then low == 0 && high == i + 1 else low == i + 1 && high == |data|
    requires IsFirstInBin(data[low..high], binOf, bin, found)
    ensures IsFirstInBin(data, binOf, bin, if found.None? then None else Some(low + found.value))
  {
    var part := data[low..high];
    forall k | 0 <= k < |data| && found.None? ensures binOf(data[k].pubkey) != bin {
      if low <= k < high {
        assert part[k - low] == data[k];
      } else if k >= high {
        assert part[i - low] == data[i];
        assert binOf(data[i].pubkey) <= binOf(data[k].pubkey);
      }
    }
    if found.Some? {
      assert part[found.value] == data[low + found.value];
      forall k | 0 <= k < low + found.value ensures binOf(data[k].pubkey) < bin {
        if k >= low {
          assert part[k - low] == data[k];
        } else {
          assert k <= i;
        }
      }
    }
  }
}
