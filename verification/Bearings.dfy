/** The fractional beam index of a bearing, over the reals: a binary search in a sorted table of beam
    bearings and a linear interpolation, and the lookup it inverts. */
module Bearings {
  const EPSILON := 0.000000001

  ghost predicate Sorted(table: seq<real>) {
    forall i, j | 0 <= i < j < |table| :: table[i] <= table[j]
  }

  /** Adjacent beams at least 1e-9 apart. */
  ghost predicate Separated(table: seq<real>) {
    forall i | 0 <= i < |table| - 1 :: table[i + 1] - table[i] >= 0.000000001
  }

  predicate InRange(table: seq<real>, bearing: real) {
    |table| > 0 && table[0] <= bearing <= table[|table| - 1]
  }

  /** The position of the first element that is not below the bearing. */
  method LowerBound(table: seq<real>, bearing: real) returns (position: nat)
    requires Sorted(table)
    ensures position <= |table|
    ensures forall i | 0 <= i < position :: table[i] < bearing
    ensures forall i | position <= i < |table| :: bearing <= table[i]
  {
    var count := |table|;
    position := 0;
    while count > 0
      invariant position + count <= |table| && 0 <= count
      invariant forall i | 0 <= i < position :: table[i] < bearing
      invariant forall i | position + count <= i < |table| :: bearing <= table[i]
    {
      var half := count / 2;
      if table[position + half] < bearing {
        position := position + half + 1;
        count := count - half - 1;
      } else {
        count := half;
      }
    }
  }

  /** The first beam at or behind the bearing, by counting: a specification of the binary search. */
  function FirstNotBelow(table: seq<real>, bearing: real): (i: nat)
    ensures i <= |table|
    ensures forall j | 0 <= j < i :: table[j] < bearing
    ensures i < |table| ==> bearing <= table[i]
  {
    if table == [] then 0
    else
      var i := FirstNotBelow(table[..|table| - 1], bearing);
      if i == |table| - 1 && table[i] < bearing then i + 1 else i
  }

  /** The index that a bearing in range is given. */
  function Index(table: seq<real>, bearing: real): real
    requires InRange(table, bearing)
  {
    var i := FirstNotBelow(table, bearing);
    if i == 0 then 0.0
    else if i == |table| then (|table| - 1) as real
    else Between(table, i, bearing)
  }

  /** Linear interpolation in the gap before beam i. */
  function Between(table: seq<real>, i: nat, bearing: real): real
    requires 0 < i < |table|
  {
    var gap := table[i] - table[i - 1];
    if -EPSILON < gap < EPSILON then (i - 1) as real
    else (i - 1) as real + (bearing - table[i - 1]) / gap
  }

  /** The bearing a fraction t into the gap before beam i. */
  function Mix(table: seq<real>, i: nat, t: real): real
    requires 0 < i < |table|
  {
    table[i - 1] + t * (table[i] - table[i - 1])
  }

  /** The bearing of a fractional index, piecewise linear in the table. */
  function Lookup(table: seq<real>, index: real): real
    requires |table| > 0 && 0.0 <= index <= (|table| - 1) as real
  {
    var i := index.Floor;
    if i == |table| - 1 then table[i]
    else Mix(table, i + 1, index - i as real)
  }

  method InterpolateBearing(table: seq<real>, bearing: real) returns (index: real)
    requires Sorted(table)
    ensures !InRange(table, bearing) <==> index == -1.0
    ensures InRange(table, bearing) ==> index == Index(table, bearing) && 0.0 <= index <= (|table| - 1) as real
  {
    if |table| == 0 || bearing < table[0] || bearing > table[|table| - 1] {
      return -1.0;
    }
    var it := LowerBound(table, bearing);
    ghost var i := FirstNotBelow(table, bearing);
    FirstIsUnique(table, bearing, it);
    IndexInRange(table, bearing);
    if it == 0 {
      return 0.0;
    }
    if it == |table| {
      return (|table| - 1) as real;
    }
    var denominator := table[it] - table[it - 1];
    if -EPSILON < denominator < EPSILON {
      return (it - 1) as real;
    }
    var t := (bearing - table[it - 1]) / denominator;
    return (it - 1) as real + t;
  }

  lemma FirstIsUnique(table: seq<real>, bearing: real, position: nat)
    requires position <= |table|
    requires forall i | 0 <= i < position :: table[i] < bearing
    requires position < |table| ==> bearing <= table[position]
    ensures FirstNotBelow(table, bearing) == position
  {
    var i := FirstNotBelow(table, bearing);
    assert i < |table| ==> bearing <= table[i];
  }

  lemma SignOfProduct(q: real, gap: real)
    requires gap > 0.0
    ensures (q * gap > 0.0 <==> q > 0.0) && (q * gap < 0.0 <==> q < 0.0)
  {
  }

  lemma Fraction(x: real, gap: real)
    requires 0.0 <= x <= gap && gap > 0.0
    ensures 0.0 <= x / gap <= 1.0 && x / gap * gap == x
    ensures x > 0.0 ==> x / gap > 0.0
    ensures x < gap ==> x / gap < 1.0
  {
    var q := x / gap;
    assert q * gap == x && (q - 1.0) * gap == x - gap;
    SignOfProduct(q, gap);
    SignOfProduct(q - 1.0, gap);
  }

  lemma IndexInRange(table: seq<real>, bearing: real)
    requires Sorted(table) && InRange(table, bearing)
    ensures 0.0 <= Index(table, bearing) <= (|table| - 1) as real
    ensures var i := FirstNotBelow(table, bearing);
            i == 0 || (i < |table| && (i - 1) as real <= Index(table, bearing) <= i as real)
  {
    var i := FirstNotBelow(table, bearing);
    if 0 < i < |table| && table[i] - table[i - 1] >= EPSILON {
      Fraction(bearing - table[i - 1], table[i] - table[i - 1]);
    }
  }

  // ------------------------------------------------------------------ lookup undoes the index

  /** A gap so small, without being empty, that the interpolation skips it. */
  ghost predicate SmallGap(table: seq<real>, i: nat) {
    0 < i < |table| && 0.0 < table[i] - table[i - 1] < 0.000000001
  }

  ghost predicate NoSmallGap(table: seq<real>) {
    forall i: nat :: !SmallGap(table, i)
  }

  ghost predicate Recovers(table: seq<real>, bearing: real) {
    && InRange(table, bearing)
    && 0.0 <= Index(table, bearing) <= (|table| - 1) as real
    && Lookup(table, Index(table, bearing)) == bearing
  }

  /** Looking up the index of a bearing gives the bearing back, for every bearing in range, exactly when
      every gap of the table is empty or at least 1e-9. */
  lemma LookupUndoesIndex(table: seq<real>)
    requires Sorted(table)
    ensures (forall bearing | InRange(table, bearing) :: Recovers(table, bearing)) <==> NoSmallGap(table)
  {
    if NoSmallGap(table) {
      forall bearing | InRange(table, bearing) ensures Recovers(table, bearing) {
        LookupOfIndex(table, bearing);
      }
    } else {
      var i: nat :| SmallGap(table, i);
      IndexInSmallGap(table, i, table[i]);
      LookupInGap(table, i, 0.0);
      assert InRange(table, table[i]) && !Recovers(table, table[i]);
    }
  }

  lemma LookupOfIndex(table: seq<real>, bearing: real)
    requires Sorted(table) && NoSmallGap(table) && InRange(table, bearing)
    ensures Recovers(table, bearing)
  {
    IndexInRange(table, bearing);
    var i := FirstNotBelow(table, bearing);
    if 0 < i {
      assert !SmallGap(table, i) && table[i - 1] < bearing <= table[i];
      LookupOfBetween(table, i, bearing);
    }
  }

  lemma LookupOfBetween(table: seq<real>, i: nat, bearing: real)
    requires 0 < i < |table| && table[i] - table[i - 1] >= EPSILON && table[i - 1] <= bearing <= table[i]
    ensures 0.0 <= Between(table, i, bearing) <= (|table| - 1) as real
    ensures Lookup(table, Between(table, i, bearing)) == bearing
  {
    Fraction(bearing - table[i - 1], table[i] - table[i - 1]);
    LookupInGap(table, i, (bearing - table[i - 1]) / (table[i] - table[i - 1]));
  }

  lemma LookupInGap(table: seq<real>, i: nat, t: real)
    requires 0 < i < |table| && 0.0 <= t <= 1.0
    ensures 0.0 <= (i - 1) as real + t <= (|table| - 1) as real
    ensures Lookup(table, (i - 1) as real + t) == Mix(table, i, t)
  {
    if t < 1.0 {
      var x := (i - 1) as real + t;
      assert x.Floor == i - 1 && x - (i - 1) as real == t;
    } else {
      LookupBeam(table, i);
      assert (i - 1) as real + t == i as real;
    }
  }

  /** A whole index is its beam, which is the end of the gap before it. */
  lemma LookupBeam(table: seq<real>, i: nat)
    requires i < |table|
    ensures Lookup(table, i as real) == table[i]
    ensures i > 0 ==> Mix(table, i, 1.0) == table[i]
  {
    assert (i as real).Floor == i;
    if i < |table| - 1 {
      assert i as real - i as real == 0.0;
    }
  }

  /** Every bearing in a small gap gets the index of the beam before it. */
  lemma IndexInSmallGap(table: seq<real>, i: nat, bearing: real)
    requires Sorted(table) && SmallGap(table, i) && table[i - 1] < bearing <= table[i]
    ensures InRange(table, bearing) && Index(table, bearing) == (i - 1) as real
  {
    FirstIsUnique(table, bearing, i);
  }

  // ------------------------------------------------------------------ the index undoes lookup

  ghost predicate Returns(table: seq<real>, x: real)
    requires |table| > 0 && 0.0 <= x <= (|table| - 1) as real
  {
    InRange(table, Lookup(table, x)) && Index(table, Lookup(table, x)) == x
  }

  /** The index of a looked-up bearing is the index again, for every fractional index, exactly when all
      beams are at least 1e-9 apart. */
  lemma IndexUndoesLookup(table: seq<real>)
    requires Sorted(table) && |table| > 0
    ensures (forall x | 0.0 <= x <= (|table| - 1) as real :: Returns(table, x)) <==> Separated(table)
  {
    if Separated(table) {
      forall x | 0.0 <= x <= (|table| - 1) as real ensures Returns(table, x) {
        IndexOfLookup(table, x);
      }
    } else {
      var k :| 0 <= k < |table| - 1 && table[k + 1] - table[k] < EPSILON;
      var i: nat := k + 1;
      LookupBeam(table, i);
      if table[i] == table[i - 1] {
        assert FirstNotBelow(table, table[i]) <= i - 1;
        IndexInRange(table, table[i]);
      } else {
        IndexInSmallGap(table, i, table[i]);
      }
      assert !Returns(table, i as real);
    }
  }

  lemma IndexOfLookup(table: seq<real>, x: real)
    requires Sorted(table) && Separated(table) && |table| > 0 && 0.0 <= x <= (|table| - 1) as real
    ensures Returns(table, x)
  {
    if x == 0.0 {
      FirstIsUnique(table, table[0], 0);
    } else {
      // the gap that ends at or behind x
      var i: nat := if x == x.Floor as real then x.Floor else x.Floor + 1;
      var t := x - (i - 1) as real;
      assert table[i - 1 + 1] - table[i - 1] >= EPSILON;
      LookupInGap(table, i, t);
      IndexInGap(table, i, Mix(table, i, t), t);
    }
  }

  lemma IndexInGap(table: seq<real>, i: nat, bearing: real, t: real)
    requires Sorted(table) && 0 < i < |table| && table[i] - table[i - 1] >= EPSILON && 0.0 < t <= 1.0
    requires bearing == Mix(table, i, t)
    ensures InRange(table, bearing) && Index(table, bearing) == (i - 1) as real + t
  {
    MixInGap(table[i] - table[i - 1], t, bearing - table[i - 1]);
    FirstIsUnique(table, bearing, i);
  }

  lemma MixInGap(gap: real, t: real, x: real)
    requires gap > 0.0 && 0.0 < t <= 1.0 && x == t * gap
    ensures 0.0 < x <= gap && x / gap == t
  {
    var rest := (1.0 - t) * gap;
    Distribute(t, gap);
    SignOfProduct(t, gap);
    SignOfProduct(1.0 - t, gap);
    assert x + rest == gap;
    Quotient(t, gap, x);
  }

  lemma Distribute(t: real, gap: real)
    ensures (1.0 - t) * gap == gap - t * gap
  {
  }

  lemma Quotient(t: real, gap: real, x: real)
    requires gap > 0.0 && x == t * gap
    ensures x / gap == t
  {
    assert (x / gap - t) * gap == 0.0;
    SignOfProduct(x / gap - t, gap);
  }

  // ------------------------------------------------------------------ order

  ghost predicate Increasing(table: seq<real>, b: real, c: real)
    requires InRange(table, b) && InRange(table, c)
  {
    Index(table, b) < Index(table, c)
  }

  /** The index is strictly increasing in the bearing exactly when every gap is empty or at least
      epsilon. */
  lemma IndexIncreases(table: seq<real>)
    requires Sorted(table)
    ensures (forall b, c | InRange(table, b) && InRange(table, c) && b < c :: Increasing(table, b, c))
            <==> NoSmallGap(table)
  {
    if NoSmallGap(table) {
      forall b, c | InRange(table, b) && InRange(table, c) && b < c ensures Increasing(table, b, c) {
        IndexOrder(table, b, c);
      }
    } else {
      var i: nat :| SmallGap(table, i);
      var b := (table[i - 1] + table[i]) / 2.0;
      IndexInSmallGap(table, i, b);
      IndexInSmallGap(table, i, table[i]);
      assert !Increasing(table, b, table[i]);
    }
  }

  lemma IndexOrder(table: seq<real>, b: real, c: real)
    requires Sorted(table) && NoSmallGap(table) && InRange(table, b) && InRange(table, c) && b < c
    ensures Index(table, b) < Index(table, c)
  {
    var i, j := FirstNotBelow(table, b), FirstNotBelow(table, c);
    IndexInRange(table, b);
    IndexPastBeam(table, c);
    FirstIsLeast(table, b, j);
    if i == j {
      OrderInGap(table[j - 1], table[j] - table[j - 1], b, c);
    }
  }

  lemma FirstIsLeast(table: seq<real>, bearing: real, j: nat)
    requires Sorted(table) && j < |table| && bearing <= table[j]
    ensures FirstNotBelow(table, bearing) <= j
  {
  }

  /** A bearing behind the first beam gets an index above that of the beam before it. */
  lemma IndexPastBeam(table: seq<real>, bearing: real)
    requires Sorted(table) && NoSmallGap(table) && InRange(table, bearing)
    ensures var i := FirstNotBelow(table, bearing);
            && i < |table| && bearing <= table[i]
            && (i > 0 ==> table[i] - table[i - 1] >= EPSILON && table[i - 1] < bearing
                          && Index(table, bearing) > (i - 1) as real)
  {
    var i := FirstNotBelow(table, bearing);
    IndexInRange(table, bearing);
    if i > 0 {
      assert !SmallGap(table, i) && table[i - 1] < bearing <= table[i];
      Fraction(bearing - table[i - 1], table[i] - table[i - 1]);
    }
  }

  lemma OrderInGap(lo: real, gap: real, b: real, c: real)
    requires gap > 0.0 && b < c
    ensures (b - lo) / gap < (c - lo) / gap
  {
    var q, r := (b - lo) / gap, (c - lo) / gap;
    assert (r - q) * gap == c - b;
    SignOfProduct(r - q, gap);
  }
}
