/** The set of alive roots: a ring of bits over a moving window of slots, plus a plain set for the
    slots that fell out of the window. The object is proved to be a set of numbers, together with
    the exact conditions under which two of its operations may be trusted. */
module RollingBitField {
  import opened Wrappers

  // ---------------------------------------------------------------------------------------
  // The ring

  /** Two numbers less than `w` apart have different places in the ring. */
  lemma {:induction false} PlacesDiffer(a: nat, b: nat, w: nat)
    requires a < b < a + w
    ensures a % w != b % w
  {
    var d := b / w - a / w;
    assert b - a == d * w + (b % w - a % w);
    if d <= 0 {
      assert d * w <= 0;
    } else {
      assert d * w >= w;
    }
  }

  /** The members in the window. */
  ghost function WindowOf(bits: seq<bool>, min: nat, max: nat): set<nat>
    requires bits != []
  {
    set k | min <= k < max && bits[k % |bits|]
  }

  /** No bit is set outside the window. */
  ghost predicate NoStray(bits: seq<bool>, min: nat, max: nat)
    requires bits != []
  {
    forall a :: 0 <= a < |bits| && bits[a] ==> exists k :: min <= k < max && k % |bits| == a
  }

  ghost predicate Ring(bits: seq<bool>, min: nat, max: nat) {
    bits != [] && min <= max <= min + |bits| && NoStray(bits, min, max)
  }

  lemma {:induction false} FreePlace(bits: seq<bool>, min: nat, max: nat, k: nat)
    requires Ring(bits, min, max) && max <= k < min + |bits|
    ensures !bits[k % |bits|]
  {
    forall j | min <= j < max ensures j % |bits| != k % |bits| {
      PlacesDiffer(j, k, |bits|);
    }
  }

  /** Setting the bit of a number at or above the window's start. */
  lemma {:induction false} SetBit(bits: seq<bool>, min: nat, max: nat, k: nat)
    requires Ring(bits, min, max) && min <= k < min + |bits|
    ensures var max' := if k < max then max else k + 1;
      && Ring(bits[k % |bits| := true], min, max')
      && WindowOf(bits[k % |bits| := true], min, max') == WindowOf(bits, min, max) + {k}
  {
    var w, bits', max' := |bits|, bits[k % |bits| := true], if k < max then max else k + 1;
    forall j | min <= j < max' && j != k ensures bits'[j % w] == bits[j % w] && (j >= max ==> !bits[j % w]) {
      if j < k { PlacesDiffer(j, k, w); } else { PlacesDiffer(k, j, w); }
      if j >= max { FreePlace(bits, min, max, j); }
    }
    forall a | 0 <= a < w && bits'[a] ensures exists j :: min <= j < max' && j % w == a {
      if a == k % w {
        assert min <= k < max' && k % w == a;
      } else {
        var j :| min <= j < max && j % w == a;
        assert min <= j < max' && j % w == a;
      }
    }
  }

  /** Clearing the bit of a number in the window. */
  lemma {:induction false} ClearBit(bits: seq<bool>, min: nat, max: nat, k: nat)
    requires Ring(bits, min, max) && min <= k < max
    ensures Ring(bits[k % |bits| := false], min, max)
    ensures WindowOf(bits[k % |bits| := false], min, max) == WindowOf(bits, min, max) - {k}
  {
    var w, bits' := |bits|, bits[k % |bits| := false];
    forall j | min <= j < max && j != k ensures bits'[j % w] == bits[j % w] {
      if j < k { PlacesDiffer(j, k, w); } else { PlacesDiffer(k, j, w); }
    }
    forall a | 0 <= a < w && bits'[a] ensures exists j :: min <= j < max && j % w == a {
      assert bits[a];
    }
  }

  /** Moving the window's start over unset bits. */
  lemma {:induction false} RaiseMin(bits: seq<bool>, min: nat, max: nat, m: nat)
    requires Ring(bits, min, max) && min <= m <= max
    requires forall k :: min <= k < m ==> !bits[k % |bits|]
    ensures Ring(bits, m, max) && WindowOf(bits, m, max) == WindowOf(bits, min, max)
  {
    forall a | 0 <= a < |bits| && bits[a] ensures exists k :: m <= k < max && k % |bits| == a {
      var k :| min <= k < max && k % |bits| == a;
      assert m <= k;
    }
  }

  /** An empty ring can start anywhere. */
  lemma {:induction false} EmptyRing(bits: seq<bool>, min: nat, max: nat, k: nat)
    requires Ring(bits, min, max) && WindowOf(bits, min, max) == {}
    ensures Ring(bits, k, k) && WindowOf(bits, k, k) == {}
  {
    forall j | min <= j < max ensures !bits[j % |bits|] {
      assert j !in WindowOf(bits, min, max);
    }
  }

  // ---------------------------------------------------------------------------------------
  // The object

  class RollingBitField {
    const maxWidth: nat
    const bits: array<bool>
    var min: nat
    var maxExclusive: nat
    var count: nat
    /** Members below `min`. */
    var excess: set<nat>

    ghost function Window(): set<nat>
      reads this, bits
      requires bits.Length > 0
    {
      WindowOf(bits[..], min, maxExclusive)
    }

    /** The set this object stands for. */
    ghost function Elements(): set<nat>
      reads this, bits
      requires bits.Length > 0
    {
      excess + Window()
    }

    /** Everything but the claim that the window starts at a member. */
    ghost predicate Core()
      reads this, bits
    {
      && 0 < maxWidth == bits.Length
      && Ring(bits[..], min, maxExclusive)
      && (forall e :: e in excess ==> e < min)
      && count == |excess| + |Window()|
    }

    /** Core, and the window is empty or starts at a member. */
    ghost predicate Tight()
      reads this, bits
    {
      Core() && (min < maxExclusive ==> bits[min % maxWidth])
    }

    ghost predicate Valid()
      reads this, bits
    {
      Tight() && forall e :: e in excess ==> e + 1 < maxExclusive
    }

    constructor (width: nat)
      requires width > 0
      ensures Valid() && Elements() == {} && maxExclusive == 0 && maxWidth == width && fresh(bits)
    {
      maxWidth, bits, min, maxExclusive, count, excess := width, new bool[width](_ => false), 0, 0, 0, {};
    }

    predicate AllItemsInExcess()
      reads this
    {
      |excess| == count
    }

    /** What `contains` answers. */
    predicate Answers(k: nat)
      reads this, bits
      requires bits.Length == maxWidth > 0
    {
      if k < maxExclusive then if k >= min then bits[k % maxWidth] else k in excess else false
    }

    method Contains(k: nat) returns (r: bool)
      requires Core()
      ensures r == Answers(k) && (r <==> k in Elements())
    {
      if k < maxExclusive {
        if k >= min {
          r := bits[k % maxWidth];
        } else {
          r := k in excess;
        }
      } else {
        r := false;
      }
    }

    method MaxInclusive() returns (m: nat)
      requires Valid()
      ensures forall k :: k in Elements() ==> k <= m
      ensures m == if maxExclusive == 0 then 0 else maxExclusive - 1
    {
      m := if maxExclusive == 0 then 0 else maxExclusive - 1;
    }

    /** The first member of the window after its start, whose bit is not set. */
    method NextMember() returns (next: nat)
      requires bits.Length == maxWidth > 0 && Window() != {} && min < maxExclusive && !bits[min % maxWidth]
      ensures min < next < maxExclusive && bits[next % maxWidth]
      ensures forall j :: min <= j < next ==> !bits[j % maxWidth]
    {
      next := min + 1;
      while next < maxExclusive && !bits[next % maxWidth]
        invariant min < next <= maxExclusive
        invariant forall j :: min <= j < next ==> !bits[j % maxWidth]
      {
        next := next + 1;
      }
      assert next < maxExclusive by {
        var j :| j in Window();
        assert next <= j;
      }
    }

    /** After the bit of `k` was cleared: move the window's start to its first member, or to its
        end when it has none. */
    method Purge(k: nat)
      requires bits.Length == maxWidth > 0 && Ring(bits[..], min, maxExclusive) && min <= k < maxExclusive
      requires count == |excess| + |Window()| && bits[min % maxWidth] == (k != min)
      requires forall e :: e in excess ==> e < min || e == k == min
      modifies this`min
      ensures Tight() && Window() == old(Window())
      ensures Window() == {} ==> min == maxExclusive
      ensures Window() != {} ==> old(min) <= min < maxExclusive && (k == old(min) ==> old(min) < min)
    {
      if count > 0 && !AllItemsInExcess() {
        assert Window() != {};
        if k == min {
          var next := NextMember();
          RaiseMin(bits[..], min, maxExclusive, next);
          min := next;
        }
      } else {
        forall j | min <= j < maxExclusive ensures !bits[..][j % maxWidth] {
          assert j !in Window();
        }
        RaiseMin(bits[..], min, maxExclusive, maxExclusive);
        min := maxExclusive;
      }
    }

    /** Clear the bit of a member of the window. */
    method ClearMember(k: nat)
      requires Tight() && min <= k < maxExclusive && bits[k % maxWidth]
      modifies bits
      ensures Ring(bits[..], min, maxExclusive)
      ensures Window() == old(Window()) - {k} && |Window()| == old(|Window()|) - 1 && k in old(Window())
      ensures if k == min then !bits[min % maxWidth] else bits[min % maxWidth]
    {
      ghost var ring := bits[..];
      ClearBit(ring, min, maxExclusive, k);
      if k != min {
        PlacesDiffer(min, k, maxWidth);
      }
      bits[k % maxWidth] := false;
      assert bits[..] == ring[k % maxWidth := false];
    }

    method RemoveFromWindow(k: nat)
      requires Valid() && min <= k < maxExclusive && bits[k % maxWidth]
      modifies this`min, this`count, bits
      ensures Valid() && k in old(Window()) && Window() == old(Window()) - {k}
    {
      ClearMember(k);
      count := count - 1;
      Purge(k);
    }

    method RemoveFromExcess(k: nat) returns (was: bool)
      requires Valid()
      modifies this`count, this`excess
      ensures Valid() && was == (k in old(excess)) && excess == old(excess) - {k}
    {
      was := k in excess;
      if was {
        excess, count := excess - {k}, count - 1;
      }
    }

    /** Remove a member; tells whether it was one. */
    method Remove(k: nat) returns (was: bool)
      requires Valid()
      modifies this`min, this`count, this`excess, bits
      ensures Valid() && was == (k in old(Elements())) && Elements() == old(Elements()) - {k}
    {
      if k >= min {
        was := k < maxExclusive && bits[k % maxWidth];
        assert k !in excess;
        if was {
          RemoveFromWindow(k);
        }
      } else {
        was := RemoveFromExcess(k);
      }
    }

    // -------------------------------------------------------------------------------------
    // Insertion

    /** Push the window's first member out, to make room at the other end. */
    method MoveMinToExcess()
      requires Tight() && Window() != {} && min < maxExclusive
      modifies this`min, this`excess, bits
      ensures Tight() && Elements() == old(Elements())
      ensures Window() != {} ==> old(min) < min < maxExclusive
      ensures Window() == {} ==> min == maxExclusive
      ensures |Window()| < old(|Window()|)
    {
      var k := min;
      ClearMember(k);
      excess := excess + {k};
      Purge(k);
    }

    ghost predicate Trusted(k: nat)
      reads this, bits
      requires bits.Length > 0
    {
      Window() == {} ==> forall e :: e in excess ==> e < k
    }

    /** Members below the window are pushed out until `k`, at or beyond its end, fits. Tells
        whether nothing is left in the window. */
    method MakeRoom(k: nat) returns (bitsEmpty: bool)
      requires Valid() && Window() != {} && k >= maxExclusive
      modifies this`min, this`excess, bits
      ensures Tight() && Elements() == old(Elements()) && maxExclusive == old(maxExclusive)
      ensures bitsEmpty <==> Window() == {}
      ensures !bitsEmpty ==> min < maxExclusive && k < min + maxWidth
    {
      bitsEmpty := false;
      while k + 1 > min + maxWidth
        invariant Tight() && Elements() == old(Elements()) && maxExclusive == old(maxExclusive)
        invariant Window() != {} && min < maxExclusive
        decreases |Window()|
      {
        MoveMinToExcess();
        if AllItemsInExcess() {
          bitsEmpty := true;
          break;
        }
      }
    }

    /** Nothing is in the window: it starts again at `k`. */
    method StartWindow(k: nat)
      requires Tight() && Window() == {}
      modifies this`min, this`maxExclusive, this`count, bits
      ensures Ring(bits[..], min, maxExclusive) && Window() == {k} && bits[k % maxWidth]
      ensures min == k && maxExclusive == k + 1 && count == old(count) + 1
    {
      ghost var ring := bits[..];
      EmptyRing(ring, min, maxExclusive, k);
      SetBit(ring, k, k, k);
      FreePlace(ring, k, k, k);
      bits[k % maxWidth] := true;
      assert bits[..] == ring[k % maxWidth := true];
      min, maxExclusive := k, k + 1;
      count := count + 1;
    }

    /** `k` fits the window or the room above it. */
    method ExtendWindow(k: nat)
      requires Tight() && min <= k < min + maxWidth && min < maxExclusive
      modifies this`maxExclusive, this`count, bits
      ensures Tight() && Window() == old(Window()) + {k}
      ensures maxExclusive == if k < old(maxExclusive) then old(maxExclusive) else k + 1
    {
      ghost var ring, window := bits[..], Window();
      SetBit(ring, min, maxExclusive, k);
      if k >= maxExclusive {
        FreePlace(ring, min, maxExclusive, k);
      }
      if !bits[k % maxWidth] {
        assert k !in window;
        bits[k % maxWidth] := true;
        assert bits[..] == ring[k % maxWidth := true];
        maxExclusive := if maxExclusive >= k + 1 then maxExclusive else k + 1;
        count := count + 1;
      } else {
        assert bits[..] == ring[k % maxWidth := true];
      }
    }

    method InsertIntoEmptyWindow(k: nat)
      requires Valid() && Window() == {}
      modifies this`min, this`maxExclusive, this`count, bits
      ensures maxExclusive == k + 1
      ensures old(Trusted(k)) ==> Valid() && Elements() == old(Elements()) + {k}
      ensures !old(Trusted(k)) ==>
        || (exists e :: e in old(Elements()) && e != k && !Answers(e))
        || (k in old(Elements()) && count == old(count) + 1)
    {
      StartWindow(k);
      if e :| e in excess && e >= k && e != k {
        assert !Answers(e);
      }
    }

    method InsertBelowWindow(k: nat)
      requires Valid() && Window() != {} && k < min
      modifies this`count, this`excess
      ensures Valid() && Elements() == old(Elements()) + {k}
    {
      assert min < maxExclusive;
      if k !in excess {
        excess, count := excess + {k}, count + 1;
      }
    }

    method InsertBeyondWindow(k: nat)
      requires Valid() && Window() != {} && maxExclusive <= k
      modifies this`min, this`maxExclusive, this`count, this`excess, bits
      ensures Valid() && Elements() == old(Elements()) + {k} && maxExclusive == k + 1
    {
      var bitsEmpty := MakeRoom(k);
      if bitsEmpty {
        StartAbove(k);
      } else {
        ExtendAbove(k);
      }
    }

    method StartAbove(k: nat)
      requires Tight() && Window() == {} && forall e :: e in excess ==> e < k
      modifies this`min, this`maxExclusive, this`count, bits
      ensures Valid() && Elements() == old(Elements()) + {k} && maxExclusive == k + 1
    {
      ghost var elements := Elements();
      assert elements == excess;
      StartWindow(k);
    }

    method ExtendAbove(k: nat)
      requires Tight() && min < maxExclusive <= k < min + maxWidth
      modifies this`maxExclusive, this`count, bits
      ensures Valid() && Elements() == old(Elements()) + {k} && maxExclusive == k + 1
    {
      ghost var window := Window();
      ExtendWindow(k);
      assert Window() == window + {k};
    }

    method InsertIntoWindow(k: nat)
      requires Valid() && min <= k < maxExclusive
      modifies this`maxExclusive, this`count, bits
      ensures Valid() && Elements() == old(Elements()) + {k}
    {
      ExtendWindow(k);
    }

    /** Insert a member. With nothing in the window this is right exactly when no pushed-out member
        is at or above `k`: otherwise such a member is lost, or counted twice. */
    method Insert(k: nat)
      requires Valid()
      modifies this`min, this`maxExclusive, this`count, this`excess, bits
      ensures old(Trusted(k)) ==> Valid() && Elements() == old(Elements()) + {k}
      ensures k >= old(maxExclusive) ==> maxExclusive == k + 1
      ensures !old(Trusted(k)) ==>
        || (exists e :: e in old(Elements()) && e != k && !Answers(e))
        || (k in old(Elements()) && count == old(count) + 1)
    {
      if count == 0 || AllItemsInExcess() {
        InsertIntoEmptyWindow(k);
      } else if k < min {
        InsertBelowWindow(k);
      } else if k < maxExclusive {
        InsertIntoWindow(k);
      } else {
        InsertBeyondWindow(k);
      }
    }

    /** Adding roots in order, as `add_root` asserts, always keeps the set right. */
    lemma {:induction false} InOrderIsTrusted(k: nat)
      requires Valid() && k + 1 >= maxExclusive
      ensures Trusted(k)
    {
    }

    // -------------------------------------------------------------------------------------
    // Queries

    static method SmallestOf(s: set<nat>) returns (m: nat)
      requires s != {}
      ensures m in s && forall k :: k in s ==> m <= k
    {
      m :| m in s;
      var left := s;
      while left != {}
        invariant left <= s && m in s && forall k :: k in s && k !in left ==> m <= k
        decreases |left|
      {
        var k :| k in left;
        if k < m {
          m := k;
        }
        left := left - {k};
      }
    }

    /** The smallest member. */
    method Min() returns (m: Option<nat>)
      requires Valid()
      ensures m.None? <==> Elements() == {}
      ensures m.Some? ==> m.value in Elements() && forall k :: k in Elements() ==> m.value <= k
    {
      if count == 0 {
        assert Window() == {} && excess == {};
        return None;
      }
      if excess == {} {
        assert Window() != {} && min in Window();
        return Some(min);
      }
      var least := SmallestOf(excess);
      if AllItemsInExcess() {
        assert Window() == {};
      } else {
        assert Window() != {} && min in Window();
        least := if min <= least then min else least;
      }
      m := Some(least);
    }

    /** `r` is the greatest of the members below `max`. */
    static ghost predicate IsPrior(members: set<nat>, max: nat, r: Option<nat>) {
      match r
      case None => forall k :: k in members ==> k >= max
      case Some(p) => p in members && p < max && forall k :: k in members && k < max ==> k <= p
    }

    /** `get_prior` finds the greatest member below `max`, except for slot 0: it is right exactly
        when 0 is no member, or `max` is 1, or some other member lies below `max`. */
    method GetPrior(max: nat) returns (r: Option<nat>)
      requires Valid()
      ensures IsPrior(Elements(), max, r) <==>
        (0 !in Elements() || max == 1 || exists k :: k in Elements() && 1 <= k < max)
    {
      ghost var members := Elements();
      var slot: nat := if max == 0 then 0 else max - 1;
      var m := Min();
      if m.None? {
        return None;
      }
      ghost var first := true;
      while true
        invariant first ==> slot == if max == 0 then 0 else max - 1
        invariant !first ==> 0 < slot < max - 1 && forall k :: k in members && k < max ==> k <= slot
        decreases slot
      {
        var found := Contains(slot);
        if found {
          return Some(slot);
        }
        var next: nat := if slot == 0 then 0 else slot - 1;
        if next == 0 || next < m.value {
          break;
        }
        slot, first := next, false;
      }
      r := None;
    }
  }

  /** In a window of width 1 that has moved on to 9, member 3 has been pushed out. */
  lemma {:induction false} PushedOut(f: RollingBitField)
    requires f.Valid() && f.maxWidth == 1 && f.maxExclusive == 10 && f.Elements() == {3}
    ensures f.Window() == {} && f.excess == {3}
  {
    assert forall k :: k in f.Window() ==> k == 9;
    assert 9 !in f.Elements();
  }

  /** Inserting above everything so far. */
  method Append(f: RollingBitField, k: nat)
    requires f.Valid() && k >= f.maxExclusive
    modifies f, f.bits
    ensures f.Valid() && f.Elements() == old(f.Elements()) + {k} && f.maxExclusive == k + 1
  {
    f.InOrderIsTrusted(k);
    f.Insert(k);
  }

  /** The failing case is reachable: members 3 and 9 in a window of width 1, 9 removed, then 1
      inserted. The members should be 1 and 3, but 3 is no longer found. */
  method InsertCanLoseAMember() returns (found: bool, ghost members: set<nat>)
    ensures members == {1, 3} && !found
  {
    var f := new RollingBitField(1);
    Append(f, 3);
    Append(f, 9);
    var _ := f.Remove(9);
    assert f.Elements() == {3};
    PushedOut(f);
    members := f.Elements() + {1};
    f.Insert(1);
    found := f.Answers(3);
  }

  /** So is the failing case of `get_prior`: with 0 the only member, it is wrong for every bound but 1. */
  method GetPriorMissesZero(width: nat, max: nat) returns (r: Option<nat>, ghost members: set<nat>)
    requires width > 0 && max != 1
    ensures members == {0} && !RollingBitField.IsPrior(members, max, r)
  {
    var f := new RollingBitField(width);
    Append(f, 0);
    members := f.Elements();
    r := f.GetPrior(max);
  }
}
