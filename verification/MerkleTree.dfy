/** The plain meaning of a fanout-`f` Merkle tree: each level replaces every group of
    `f` hashes (the last group may be shorter) by one digest, until one hash is left.
    SHA-256 is any function `h` from the hashes fed to a hasher to its result. */
module MerkleTree {

  /** One level of the tree. */
  function Level<H>(h: seq<H> -> H, f: nat, s: seq<H>): seq<H>
    requires f >= 1
    decreases |s|
  {
    if s == [] then []
    else if |s| <= f then [h(s)]
    else [h(s[..f])] + Level(h, f, s[f..])
  }

  /** `k` levels, one after the other. */
  function Levels<H>(h: seq<H> -> H, f: nat, s: seq<H>, k: nat): seq<H>
    requires f >= 1
    decreases k
  {
    if k == 0 then s else Levels(h, f, Level(h, f, s), k - 1)
  }

  /** The root: levels until a single hash is left. At least one level is always hashed. */
  ghost function Root<H>(h: seq<H> -> H, f: nat, s: seq<H>): H
    requires f >= 2
    decreases |s|
  {
    if s == [] then h([])
    else
      var next := Level(h, f, s);
      if |next| == 1 then next[0]
      else
        (LevelShrinks(h, f, s); Root(h, f, next))
  }

  /** The number of groups of `y` needed to hold `x` items. */
  function DivCeil(x: nat, y: nat): nat
    requires y > 0
  {
    if x % y != 0 then x / y + 1 else x / y
  }

  lemma {:induction false} LevelNonEmpty<H>(h: seq<H> -> H, f: nat, s: seq<H>)
    requires f >= 1 && s != []
    ensures Level(h, f, s) != []
  {
  }

  /** A group that fits in one node becomes one hash. */
  lemma {:induction false} LevelOfSmall<H>(h: seq<H> -> H, f: nat, s: seq<H>)
    requires f >= 1 && 0 < |s| <= f
    ensures Level(h, f, s) == [h(s)]
  {
  }

  lemma {:induction false} LevelShrinks<H>(h: seq<H> -> H, f: nat, s: seq<H>)
    requires f >= 2
    ensures |Level(h, f, s)| <= |s|
    ensures |s| >= 2 ==> |Level(h, f, s)| < |s|
    decreases |s|
  {
    if |s| > f {
      LevelShrinks(h, f, s[f..]);
    }
  }

  lemma {:induction false} LevelLengthBound<H>(h: seq<H> -> H, f: nat, s: seq<H>, m: nat)
    requires f >= 1 && |s| <= m * f
    ensures |Level(h, f, s)| <= m
    decreases m
  {
    if s != [] {
      assert m > 0;
      if |s| > f {
        assert |s[f..]| <= (m - 1) * f by { assert m * f == (m - 1) * f + f; }
        LevelLengthBound(h, f, s[f..], m - 1);
      }
    }
  }

  /** Whole groups hash to one node each, and what follows them is hashed on its own. */
  lemma {:induction false} LevelConcat<H>(h: seq<H> -> H, f: nat, a: seq<H>, m: nat, b: seq<H>)
    requires f >= 1 && |a| == m * f
    ensures |Level(h, f, a)| == m
    ensures Level(h, f, a + b) == Level(h, f, a) + Level(h, f, b)
    decreases m
  {
    if m == 0 {
      assert a + b == b;
    } else {
      assert |a| == (m - 1) * f + f;
      var rest := a[f..];
      LevelConcat(h, f, rest, m - 1, b);
      assert (a + b)[..f] == a[..f];
      assert (a + b)[f..] == rest + b;
      LevelUnfold(h, f, a);
      LevelUnfold(h, f, a + b);
    }
  }

  /** The first full group, then the rest. */
  lemma {:induction false} LevelUnfold<H>(h: seq<H> -> H, f: nat, s: seq<H>)
    requires f >= 1 && |s| >= f
    ensures Level(h, f, s) == [h(s[..f])] + Level(h, f, s[f..])
  {
    if |s| == f {
      assert s[..f] == s;
    }
  }

  /** Level `m` groups deep inside the input: the next chunk adds its own node. */
  lemma {:induction false} LevelExtend<H>(h: seq<H> -> H, f: nat, s: seq<H>, m: nat, i: nat, j: nat)
    requires f >= 1 && i == m * f && i < j <= |s| && j - i <= f
    ensures Level(h, f, s[..j]) == Level(h, f, s[..i]) + [h(s[i..j])]
  {
    assert s[..j] == s[..i] + s[i..j];
    LevelConcat(h, f, s[..i], m, s[i..j]);
    LevelOfSmall(h, f, s[i..j]);
  }

  /** Two levels at once over whole groups of f*f. */
  lemma {:induction false} TwoLevelsConcat<H>(h: seq<H> -> H, f: nat, a: seq<H>, m: nat, b: seq<H>)
    requires f >= 1 && |a| == m * (f * f)
    ensures |Level(h, f, Level(h, f, a))| == m
    ensures Level(h, f, Level(h, f, a + b))
         == Level(h, f, Level(h, f, a)) + Level(h, f, Level(h, f, b))
  {
    assert m * (f * f) == (m * f) * f;
    LevelConcat(h, f, a, m * f, b);
    LevelConcat(h, f, Level(h, f, a), m, Level(h, f, b));
  }

  /** Three levels at once over whole groups of f*f*f. */
  lemma {:induction false} ThreeLevelsConcat<H>(h: seq<H> -> H, f: nat, a: seq<H>, m: nat, b: seq<H>)
    requires f >= 1 && |a| == m * (f * f * f)
    ensures |Levels(h, f, a, 3)| == m
    ensures Levels(h, f, a + b, 3) == Levels(h, f, a, 3) + Levels(h, f, b, 3)
  {
    assert m * (f * f * f) == (m * f) * (f * f) by { CubeSplit(m, f); }
    TwoLevelsConcat(h, f, a, m * f, b);
    LevelConcat(h, f, Level(h, f, Level(h, f, a)), m, Level(h, f, Level(h, f, b)));
    ThreeLevels(h, f, a);
    ThreeLevels(h, f, b);
    ThreeLevels(h, f, a + b);
  }

  lemma {:induction false} CubeSplit(m: nat, f: nat)
    ensures m * (f * f * f) == (m * f) * (f * f)
  {
    calc {
      m * (f * f * f);
      m * (f * (f * f));
      (m * f) * (f * f);
    }
  }

  lemma {:induction false} ThreeLevels<H>(h: seq<H> -> H, f: nat, s: seq<H>)
    requires f >= 1
    ensures Levels(h, f, s, 3) == Level(h, f, Level(h, f, Level(h, f, s)))
  {
    assert Levels(h, f, s, 3) == Levels(h, f, Level(h, f, s), 2);
    assert Levels(h, f, Level(h, f, s), 2) == Levels(h, f, Level(h, f, Level(h, f, s)), 1);
  }

  /** A chunk of at most f*f*f hashes becomes exactly one hash after three levels. */
  lemma {:induction false} ThreeLevelsOfChunk<H>(h: seq<H> -> H, f: nat, s: seq<H>)
    requires f >= 1 && 0 < |s| <= f * f * f
    ensures Levels(h, f, s, 3) == [h(Level(h, f, Level(h, f, s)))]
  {
    LevelLengthBound(h, f, s, f * f);
    LevelLengthBound(h, f, Level(h, f, s), f);
    LevelNonEmpty(h, f, s);
    LevelNonEmpty(h, f, Level(h, f, s));
    LevelOfSmall(h, f, Level(h, f, Level(h, f, s)));
    ThreeLevels(h, f, s);
  }

  lemma {:induction false} LevelsCompose<H>(h: seq<H> -> H, f: nat, s: seq<H>, j: nat, k: nat)
    requires f >= 1
    ensures Levels(h, f, Levels(h, f, s, j), k) == Levels(h, f, s, j + k)
    decreases j
  {
    if j > 0 {
      LevelsCompose(h, f, Level(h, f, s), j - 1, k);
    }
  }

  /** Nothing hashes to the digest of nothing, and what fits in one node to that node. */
  lemma {:induction false} RootOfSmall<H>(h: seq<H> -> H, f: nat, s: seq<H>)
    requires f >= 2 && |s| <= f
    ensures Root(h, f, s) == h(s)
  {
    if s != [] {
      LevelOfSmall(h, f, s);
    }
  }

  /** The root of anything else is the first level, from the first one hashed, with a single hash. */
  lemma {:induction false} RootIsTop<H>(h: seq<H> -> H, f: nat, s: seq<H>) returns (k: nat)
    requires f >= 2 && s != []
    ensures k >= 1 && Levels(h, f, s, k) == [Root(h, f, s)]
    ensures forall j :: 1 <= j < k ==> |Levels(h, f, s, j)| > 1
    decreases |s|
  {
    var next := Level(h, f, s);
    LevelNonEmpty(h, f, s);
    if |next| == 1 {
      k := 1;
      assert Levels(h, f, s, 1) == Levels(h, f, next, 0);
    } else {
      LevelShrinks(h, f, s);
      var above := RootIsTop(h, f, next);
      k := above + 1;
      forall j | 1 <= j < k ensures |Levels(h, f, s, j)| > 1 {
        assert Levels(h, f, s, j) == Levels(h, f, next, j - 1);
      }
    }
  }

  /** One level can be peeled off a root computation as long as more than one hash is left. */
  lemma {:induction false} RootPeel<H>(h: seq<H> -> H, f: nat, s: seq<H>)
    requires f >= 2 && |Level(h, f, s)| > 1
    ensures Root(h, f, s) == Root(h, f, Level(h, f, s))
  {
  }

  lemma {:induction false} LevelTooLong<H>(h: seq<H> -> H, f: nat, s: seq<H>, m: nat)
    requires f >= 1 && |s| > m * f
    ensures |Level(h, f, s)| > m
    decreases m
  {
    if m > 0 {
      assert m * f == (m - 1) * f + f;
      assert |s| > f by { assert (m - 1) * f >= 0; }
      LevelTooLong(h, f, s[f..], m - 1);
    } else {
      LevelNonEmpty(h, f, s);
    }
  }

  /** Hashing three levels at once does not change the root when the input is longer than
      f*f*f, which the f^4 threshold of the fast path guarantees. */
  lemma {:induction false} RootPeelThree<H>(h: seq<H> -> H, f: nat, s: seq<H>)
    requires f >= 2 && |s| > f * f * f
    ensures |Levels(h, f, s, 3)| > 1
    ensures Root(h, f, s) == Root(h, f, Levels(h, f, s, 3))
  {
    var l1 := Level(h, f, s);
    var l2 := Level(h, f, l1);
    LevelTooLong(h, f, s, f * f);
    LevelTooLong(h, f, l1, f);
    LevelTooLong(h, f, l2, 1);
    assert f * f > 1 by { assert f * f >= f; }
    RootPeel(h, f, s);
    RootPeel(h, f, l1);
    RootPeel(h, f, l2);
    ThreeLevels(h, f, s);
  }
}
