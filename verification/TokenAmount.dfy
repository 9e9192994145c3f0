/** Printing token amounts. The trimmed form is canonical: it reads back as exactly the amount over
    10^decimals, and two amounts print alike if and only if they are the same rational number. */
module TokenAmount {
  // ---------------------------------------------------------------------------------------
  // The printer

  function Digit(d: nat): (c: char)
    requires d < 10
    ensures '0' <= c <= '9' && c as int - '0' as int == d
  {
    '0' + d as char
  }

  /** `amount.to_string()` */
  function Digits(n: nat): string {
    if n < 10 then [Digit(n)] else Digits(n / 10) + [Digit(n % 10)]
  }

  /** Zeros on the left, up to the given width. */
  function PadLeft(s: string, width: nat): (r: string)
    ensures |r| == if |s| >= width then |s| else width
    decreases width - |s|
  {
    if |s| >= width then s else PadLeft("0" + s, width)
  }

  /** `insert(len - decimals, '.')` */
  function InsertPoint(s: string, decimals: nat): string
    requires decimals <= |s|
  {
    s[..|s| - decimals] + "." + s[|s| - decimals..]
  }

  function RealNumberString(amount: nat, decimals: nat): string {
    if decimals > 0 then InsertPoint(PadLeft(Digits(amount), decimals + 1), decimals) else Digits(amount)
  }

  /** `trim_end_matches` */
  function TrimEnd(s: string, c: char): string {
    if s != [] && s[|s| - 1] == c then TrimEnd(s[..|s| - 1], c) else s
  }

  function RealNumberStringTrimmed(amount: nat, decimals: nat): string {
    var s := RealNumberString(amount, decimals);
    if decimals > 0 then TrimEnd(TrimEnd(s, '0'), '.') else s
  }

  // ---------------------------------------------------------------------------------------
  // Reading a number back

  ghost predicate AllDigits(s: string) {
    forall i :: 0 <= i < |s| ==> '0' <= s[i] <= '9'
  }

  /** The number a string of digits denotes. */
  ghost function NumberOf(s: string): nat
    requires AllDigits(s)
  {
    if s == [] then 0 else NumberOf(s[..|s| - 1]) * 10 + (s[|s| - 1] as int - '0' as int)
  }

  /** How many characters stand before the point. */
  ghost function PointAt(s: string): (i: nat)
    ensures i <= |s|
  {
    if s == [] || s[0] == '.' then 0 else 1 + PointAt(s[1..])
  }

  /** The string without its point. */
  ghost function WithoutPoint(s: string): string {
    var i := PointAt(s);
    if i == |s| then s else s[..i] + s[i + 1..]
  }

  /** A numeral is digits with at most one point among them. */
  ghost predicate IsNumeral(s: string) {
    AllDigits(WithoutPoint(s))
  }

  /** The digits without the point, and how many of them follow it: the value is the number over
      that power of ten. */
  ghost function Read(s: string): (nat, nat)
    requires IsNumeral(s)
  {
    (NumberOf(WithoutPoint(s)), if PointAt(s) == |s| then 0 else |s| - PointAt(s) - 1)
  }

  ghost function Pow10(n: nat): (p: nat)
    ensures p > 0
  {
    if n == 0 then 1 else 10 * Pow10(n - 1)
  }

  // ---------------------------------------------------------------------------------------
  // Printing and reading back

  lemma {:induction false} DigitsRead(n: nat)
    ensures AllDigits(Digits(n)) && NumberOf(Digits(n)) == n && Digits(n) != []
    decreases n
  {
    if n < 10 {
      assert Digits(n)[..0] == [];
    } else {
      DigitsRead(n / 10);
      assert Digits(n)[..|Digits(n)| - 1] == Digits(n / 10);
    }
  }

  lemma {:induction false} LeadingZero(s: string)
    requires AllDigits(s)
    ensures AllDigits("0" + s) && NumberOf("0" + s) == NumberOf(s)
    decreases |s|
  {
    var z := "0" + s;
    if s == [] {
      assert z[..0] == [];
    } else {
      assert z[..|z| - 1] == "0" + s[..|s| - 1];
      LeadingZero(s[..|s| - 1]);
    }
  }

  lemma {:induction false} PadLeftRead(s: string, width: nat)
    requires AllDigits(s)
    ensures AllDigits(PadLeft(s, width)) && NumberOf(PadLeft(s, width)) == NumberOf(s)
    decreases width - |s|
  {
    if |s| < width {
      LeadingZero(s);
      PadLeftRead("0" + s, width);
    }
  }

  lemma {:induction false} PointAfterDigits(a: string, b: string)
    requires AllDigits(a) && (b == [] || b[0] == '.')
    ensures PointAt(a + b) == |a|
    decreases |a|
  {
    if a == [] {
      assert a + b == b;
    } else {
      assert (a + b)[1..] == a[1..] + b;
      PointAfterDigits(a[1..], b);
    }
  }

  lemma {:induction false} PlainParts(s: string)
    requires AllDigits(s)
    ensures PointAt(s) == |s| && WithoutPoint(s) == s
  {
    assert s + [] == s;
    PointAfterDigits(s, []);
  }

  lemma {:induction false} PointedParts(s: string, decimals: nat)
    requires AllDigits(s) && decimals <= |s|
    ensures PointAt(InsertPoint(s, decimals)) == |s| - decimals
    ensures WithoutPoint(InsertPoint(s, decimals)) == s
  {
    var a, b := s[..|s| - decimals], s[|s| - decimals..];
    var t := InsertPoint(s, decimals);
    assert t == a + ("." + b);
    PointAfterDigits(a, "." + b);
    assert t[..|a|] == a && t[|a| + 1..] == b && a + b == s;
  }

  lemma {:induction false} ReadIs(t: string, s: string, decimals: nat, n: nat)
    requires AllDigits(s) && NumberOf(s) == n && WithoutPoint(t) == s && PointAt(t) == |t| - decimals - 1
    ensures IsNumeral(t) && Read(t) == (n, decimals)
  {
  }

  lemma {:induction false} ReadsPlain(s: string, n: nat)
    requires AllDigits(s) && NumberOf(s) == n
    ensures IsNumeral(s) && Read(s) == (n, 0)
  {
    PlainParts(s);
  }

  lemma {:induction false} ReadsPointed(s: string, decimals: nat, n: nat)
    requires AllDigits(s) && NumberOf(s) == n && decimals <= |s|
    ensures IsNumeral(InsertPoint(s, decimals)) && Read(InsertPoint(s, decimals)) == (n, decimals)
  {
    PointedParts(s, decimals);
    ReadIs(InsertPoint(s, decimals), s, decimals, n);
  }

  /** The untrimmed form reads back as the amount with its decimals: it is injective. */
  lemma {:induction false} UntrimmedReadsBack(amount: nat, decimals: nat)
    ensures IsNumeral(RealNumberString(amount, decimals))
    ensures Read(RealNumberString(amount, decimals)) == (amount, decimals)
  {
    DigitsRead(amount);
    if decimals == 0 {
      ReadsPlain(Digits(amount), amount);
    } else {
      PadLeftRead(Digits(amount), decimals + 1);
      ReadsPointed(PadLeft(Digits(amount), decimals + 1), decimals, amount);
    }
  }

  lemma {:induction false} PointIsThere(s: string)
    ensures PointAt(s) < |s| <==> '.' in s
  {
    if s != [] {
      PointIsThere(s[1..]);
      assert s == [s[0]] + s[1..];
    }
  }

  /** Only zero starts with the digit zero. */
  lemma {:induction false} DigitsLead(n: nat)
    ensures Digits(n) != [] && (Digits(n)[0] == '0' ==> |Digits(n)| == 1)
    decreases n
  {
    if n >= 10 {
      DigitsLead(n / 10);
      DigitsPositive(n / 10);
    }
  }

  lemma {:induction false} DigitsPositive(n: nat)
    requires n > 0
    ensures Digits(n) != [] && Digits(n)[0] != '0'
    decreases n
  {
    if n >= 10 {
      DigitsPositive(n / 10);
    }
  }

  // ---------------------------------------------------------------------------------------
  // Trimming finds the lowest terms

  /** Takes common factors of ten out of the amount and its scale. */
  ghost function Reduced(amount: nat, decimals: nat): (nat, nat)
    decreases decimals
  {
    if decimals == 0 || amount % 10 != 0 then (amount, decimals) else Reduced(amount / 10, decimals - 1)
  }

  lemma {:induction false} PadLeftAppend(s: string, c: char, width: nat)
    ensures PadLeft(s + [c], width + 1) == PadLeft(s, width) + [c]
    decreases width - |s|
  {
    if |s| < width {
      assert "0" + (s + [c]) == ("0" + s) + [c];
      PadLeftAppend("0" + s, c, width);
    }
  }

  /** The padded digits of an amount are those of its tenth, with one more at the end. */
  lemma {:induction false} PaddedLastDigit(amount: nat, decimals: nat)
    requires decimals > 0
    ensures PadLeft(Digits(amount), decimals + 1) ==
            PadLeft(Digits(amount / 10), decimals) + [Digit(amount % 10)]
  {
    PadLeftAppend(Digits(amount / 10), Digit(amount % 10), decimals);
    if amount < 10 {
      assert "0" + [Digit(amount)] == [Digit(0)] + [Digit(amount)];
      assert PadLeft([Digit(amount)], decimals + 1) == PadLeft("0" + [Digit(amount)], decimals + 1);
    }
  }

  lemma {:induction false} PointBeforeLast(s: string, c: char, decimals: nat)
    requires 0 < decimals <= |s| + 1
    ensures InsertPoint(s + [c], decimals) == InsertPoint(s, decimals - 1) + [c]
  {
    var t, point := s + [c], |s| + 1 - decimals;
    assert t[..point] == s[..point] && t[point..] == s[point..] + [c];
  }

  /** The printed form of an amount is that of its tenth, with one more digit at the end. */
  lemma {:induction false} LastDigit(amount: nat, decimals: nat)
    requires decimals > 0
    ensures decimals > 1 ==> RealNumberString(amount, decimals) ==
                             RealNumberString(amount / 10, decimals - 1) + [Digit(amount % 10)]
    ensures decimals == 1 ==> RealNumberString(amount, 1) == Digits(amount / 10) + "." + [Digit(amount % 10)]
  {
    PaddedLastDigit(amount, decimals);
    PointBeforeLast(PadLeft(Digits(amount / 10), decimals), Digit(amount % 10), decimals);
    if decimals == 1 {
      var tenth := Digits(amount / 10);
      DigitsRead(amount / 10);
      assert InsertPoint(tenth, 0) == tenth + ".";
    }
  }

  lemma {:induction false} UntrimmedPoint(amount: nat, decimals: nat)
    ensures var s := RealNumberString(amount, decimals);
      PointAt(s) == if decimals == 0 then |s| else |s| - decimals - 1
  {
    DigitsRead(amount);
    if decimals == 0 {
      PlainParts(Digits(amount));
    } else {
      PadLeftRead(Digits(amount), decimals + 1);
      PointedParts(PadLeft(Digits(amount), decimals + 1), decimals);
    }
  }

  /** The form before the point: at least one digit, and no zero in front of another digit. */
  lemma {:induction false} NoLeadingZeros(amount: nat, decimals: nat)
    ensures var s := RealNumberString(amount, decimals);
      PointAt(s) >= 1 && (s[0] == '0' ==> PointAt(s) == 1)
    decreases decimals
  {
    UntrimmedPoint(amount, decimals);
    if decimals == 0 {
      DigitsLead(amount);
    } else {
      LastDigit(amount, decimals);
      if decimals == 1 {
        DigitsLead(amount / 10);
      } else {
        UntrimmedPoint(amount / 10, decimals - 1);
        NoLeadingZeros(amount / 10, decimals - 1);
      }
    }
  }

  /** The form has a point exactly when decimals follow it. */
  lemma {:induction false} PointIffDecimals(amount: nat, decimals: nat)
    ensures '.' in RealNumberString(amount, decimals) <==> decimals > 0
  {
    UntrimmedPoint(amount, decimals);
    PointIsThere(RealNumberString(amount, decimals));
    DigitsRead(amount);
  }

  lemma {:induction false} TrimLast(s: string, c: char)
    ensures TrimEnd(s + [c], c) == TrimEnd(s, c)
  {
    assert (s + [c])[..|s|] == s;
  }

  lemma {:induction false} TrimNone(s: string, c: char)
    requires s != [] && s[|s| - 1] != c
    ensures TrimEnd(s, c) == s
  {
  }

  /** Without a common factor of ten nothing is trimmed. */
  lemma {:induction false} TrimReduced(amount: nat, decimals: nat)
    requires decimals > 0 && amount % 10 != 0
    ensures RealNumberStringTrimmed(amount, decimals) == RealNumberString(amount, decimals)
  {
    LastDigit(amount, decimals);
    TrimNone(RealNumberString(amount, decimals), '0');
    TrimNone(RealNumberString(amount, decimals), '.');
  }

  /** With a common factor of ten, the amount prints as its tenth with one decimal less. */
  lemma {:induction false} TrimTenth(amount: nat, decimals: nat)
    requires decimals > 0 && amount % 10 == 0
    ensures RealNumberStringTrimmed(amount, decimals) == RealNumberStringTrimmed(amount / 10, decimals - 1)
  {
    LastDigit(amount, decimals);
    if decimals > 1 {
      TrimLast(RealNumberString(amount / 10, decimals - 1), '0');
    } else {
      var tenth := Digits(amount / 10);
      DigitsRead(amount / 10);
      TrimLast(tenth + ".", '0');
      TrimNone(tenth + ".", '0');
      TrimLast(tenth, '.');
      TrimNone(tenth, '.');
    }
  }

  /** Trimming prints the amount in lowest terms. */
  lemma {:induction false} TrimmedIsReduced(amount: nat, decimals: nat)
    ensures RealNumberStringTrimmed(amount, decimals) ==
            RealNumberString(Reduced(amount, decimals).0, Reduced(amount, decimals).1)
    decreases decimals
  {
    if decimals > 0 {
      if amount % 10 == 0 {
        TrimTenth(amount, decimals);
        TrimmedIsReduced(amount / 10, decimals - 1);
      } else {
        TrimReduced(amount, decimals);
      }
    }
  }

  // ---------------------------------------------------------------------------------------
  // Lowest terms are unique

  lemma {:induction false} TenTimes(a: nat, n: nat)
    ensures a * Pow10(n + 1) == 10 * (a * Pow10(n))
  {
    assert Pow10(n + 1) == 10 * Pow10(n);
  }

  lemma {:induction false} ReducedIsEqual(amount: nat, decimals: nat)
    ensures var (n, k) := Reduced(amount, decimals);
            n * Pow10(decimals) == amount * Pow10(k) && k <= decimals && (k == 0 || n % 10 != 0)
    decreases decimals
  {
    if decimals > 0 && amount % 10 == 0 {
      ReducedIsEqual(amount / 10, decimals - 1);
      var (n, k) := Reduced(amount, decimals);
      TenTimes(n, decimals - 1);
      var tenth := amount / 10;
      assert amount == 10 * tenth;
      assert amount * Pow10(k) == 10 * (tenth * Pow10(k)) by { Associates(10, tenth, Pow10(k)); }
    }
  }

  lemma {:induction false} Associates(a: nat, b: nat, c: nat)
    ensures a * b * c == a * (b * c)
  {
  }

  lemma {:induction false} Pow10Add(m: nat, n: nat)
    ensures Pow10(m + n) == Pow10(m) * Pow10(n)
  {
    if m > 0 {
      Pow10Add(m - 1, n);
      Associates(10, Pow10(m - 1), Pow10(n));
    }
  }

  lemma {:induction false} Cancel(a: nat, b: nat, c: nat)
    requires c > 0 && a * c == b * c
    ensures a == b
  {
  }

  /** Of two equal fractions in lowest terms, neither has more decimals. */
  lemma {:induction false} LowestTermsBound(n1: nat, k1: nat, n2: nat, k2: nat)
    requires n1 * Pow10(k2) == n2 * Pow10(k1)
    requires k2 == 0 || n2 % 10 != 0
    ensures k2 <= k1
  {
    if k1 < k2 {
      Pow10Add(k2 - k1, k1);
      Associates(n1, Pow10(k2 - k1), Pow10(k1));
      Cancel(n1 * Pow10(k2 - k1), n2, Pow10(k1));
      TenTimes(n1, k2 - k1 - 1);
    }
  }

  lemma {:induction false} LowestTermsUnique(n1: nat, k1: nat, n2: nat, k2: nat)
    requires n1 * Pow10(k2) == n2 * Pow10(k1)
    requires k1 == 0 || n1 % 10 != 0
    requires k2 == 0 || n2 % 10 != 0
    ensures n1 == n2 && k1 == k2
  {
    LowestTermsBound(n1, k1, n2, k2);
    LowestTermsBound(n2, k2, n1, k1);
    Cancel(n1, n2, Pow10(k1));
  }

  ghost predicate SameValue(a1: nat, d1: nat, a2: nat, d2: nat) {
    a1 * Pow10(d2) == a2 * Pow10(d1)
  }

  lemma {:induction false} SameValueChain(a1: nat, d1: nat, a2: nat, d2: nat, a3: nat, d3: nat)
    requires SameValue(a1, d1, a2, d2) && SameValue(a2, d2, a3, d3)
    ensures SameValue(a1, d1, a3, d3)
  {
    var p1, p2, p3 := Pow10(d1), Pow10(d2), Pow10(d3);
    Rearranges(a1, p3, p2);
    Rearranges(a2, p1, p3);
    Rearranges(a3, p2, p1);
    Cancel(a1 * p3, a3 * p1, p2);
  }

  lemma {:induction false} Rearranges(a: nat, b: nat, c: nat)
    ensures a * b * c == a * c * b
  {
  }

  /** The trimmed form reads back as the same value, and shows no more decimals. */
  lemma {:induction false} TrimmedReadsBack(amount: nat, decimals: nat)
    ensures IsNumeral(RealNumberStringTrimmed(amount, decimals))
    ensures var (n, k) := Read(RealNumberStringTrimmed(amount, decimals));
            SameValue(n, k, amount, decimals) && k <= decimals && (k == 0 || n % 10 != 0)
    ensures var s := RealNumberStringTrimmed(amount, decimals);
            && ('.' in s <==> Read(s).1 > 0)
            && PointAt(s) >= 1 && (s[0] == '0' ==> PointAt(s) == 1)
  {
    var (n, k) := Reduced(amount, decimals);
    PointIffDecimals(n, k);
    NoLeadingZeros(n, k);
    TrimmedIsReduced(amount, decimals);
    ReducedIsEqual(amount, decimals);
    UntrimmedReadsBack(n, k);
  }

  /** Two amounts print alike if and only if they are the same number. */
  lemma {:induction false} TrimmedIsCanonical(a1: nat, d1: nat, a2: nat, d2: nat)
    ensures RealNumberStringTrimmed(a1, d1) == RealNumberStringTrimmed(a2, d2) <==> SameValue(a1, d1, a2, d2)
  {
    var (n1, k1) := Reduced(a1, d1);
    var (n2, k2) := Reduced(a2, d2);
    TrimmedIsReduced(a1, d1);
    TrimmedIsReduced(a2, d2);
    UntrimmedReadsBack(n1, k1);
    UntrimmedReadsBack(n2, k2);
    ReducedIsEqual(a1, d1);
    ReducedIsEqual(a2, d2);
    if (n1, k1) == (n2, k2) {
      SameValueChain(a1, d1, n1, k1, a2, d2);
    } else if SameValue(a1, d1, a2, d2) {
      SameValueChain(n1, k1, a1, d1, a2, d2);
      SameValueChain(n1, k1, a2, d2, n2, k2);
      LowestTermsUnique(n1, k1, n2, k2);
    }
  }
}
