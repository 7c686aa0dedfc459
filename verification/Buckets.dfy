/** The bucket boundaries of the latency histogram (dbbench/stats.go) and the bucket of a value. */
module Buckets {

  // The bucket boundaries in microseconds, one decade a row.
  const UNITS: seq<real> := [1.0, 2.0, 3.0, 4.0, 5.0, 6.0, 7.0, 8.0, 9.0, 10.0]
  const TENS: seq<real> :=
    [12.0, 14.0, 16.0, 18.0, 20.0, 25.0, 30.0, 35.0, 40.0, 45.0, 50.0, 60.0, 70.0, 80.0, 90.0, 100.0]
  const HUNDREDS: seq<real> :=
    [120.0, 140.0, 160.0, 180.0, 200.0, 250.0, 300.0, 350.0, 400.0, 450.0,
     500.0, 600.0, 700.0, 800.0, 900.0, 1000.0]
  const THOUSANDS: seq<real> :=
    [1200.0, 1400.0, 1600.0, 1800.0, 2000.0, 2500.0, 3000.0, 3500.0, 4000.0, 4500.0,
     5000.0, 6000.0, 7000.0, 8000.0, 9000.0, 10000.0]
  const TEN_THOUSANDS: seq<real> :=
    [12000.0, 14000.0, 16000.0, 18000.0, 20000.0, 25000.0, 30000.0, 35000.0, 40000.0, 45000.0,
     50000.0, 60000.0, 70000.0, 80000.0, 90000.0, 100000.0]
  const HUNDRED_THOUSANDS: seq<real> :=
    [120000.0, 140000.0, 160000.0, 180000.0, 200000.0, 250000.0, 300000.0, 350000.0, 400000.0, 450000.0,
     500000.0, 600000.0, 700000.0, 800000.0, 900000.0, 1000000.0]
  const BUCKET_BOUNDS: seq<real> := UNITS + TENS + HUNDREDS + THOUSANDS + TEN_THOUSANDS + HUNDRED_THOUSANDS

  const COUNT: nat := 90

  /** The i-th boundary: from 12 on, each decade is the one before times ten. */
  function Bound(i: nat): (r: real)
    requires i < COUNT
  {
    if i < 10 then UNITS[i] else if i < 26 then TENS[i - 10] else 10.0 * Bound(i - 16)
  }

  lemma Decades()
    ensures |UNITS| == 10
    ensures |TENS| == |HUNDREDS| == |THOUSANDS| == |TEN_THOUSANDS| == |HUNDRED_THOUSANDS| == 16
    ensures forall j :: 0 <= j < 16 ==> HUNDREDS[j] == 10.0 * TENS[j]
    ensures forall j :: 0 <= j < 16 ==> THOUSANDS[j] == 10.0 * HUNDREDS[j]
    ensures forall j :: 0 <= j < 16 ==> TEN_THOUSANDS[j] == 10.0 * THOUSANDS[j]
    ensures forall j :: 0 <= j < 16 ==> HUNDRED_THOUSANDS[j] == 10.0 * TEN_THOUSANDS[j]
  {
  }

  lemma Row(j: nat)
    requires j < 16
    ensures Bound(10 + j) == TENS[j] && Bound(26 + j) == HUNDREDS[j] && Bound(42 + j) == THOUSANDS[j]
    ensures Bound(58 + j) == TEN_THOUSANDS[j] && Bound(74 + j) == HUNDRED_THOUSANDS[j]
  {
    Decades();
  }

  lemma Listed(a: seq<real>, b: seq<real>, c: seq<real>, d: seq<real>, e: seq<real>, f: seq<real>, i: nat)
    requires |a| == 10 && |b| == |c| == |d| == |e| == |f| == 16 && i < 90
    requires forall j :: 0 <= j < 10 ==> a[j] == Bound(j)
    requires forall j :: 0 <= j < 16 ==> b[j] == Bound(10 + j) && c[j] == Bound(26 + j)
    requires forall j :: 0 <= j < 16 ==> d[j] == Bound(42 + j) && e[j] == Bound(58 + j) && f[j] == Bound(74 + j)
    ensures (a + b + c + d + e + f)[i] == Bound(i)
  {
    RowOf(a, b, c, d, e, f, i);
    var j := if i < 10 then i else (i - 10) % 16;
    assert i >= 10 ==> b[j] == Bound(10 + j) && d[j] == Bound(42 + j);
  }

  /** Where the i-th boundary stands. */
  lemma RowOf(a: seq<real>, b: seq<real>, c: seq<real>, d: seq<real>, e: seq<real>, f: seq<real>, i: nat)
    requires |a| == 10 && |b| == |c| == |d| == |e| == |f| == 16 && i < 90
    ensures (a + b + c + d + e + f)[i] ==
            if i < 10 then a[i] else if i < 26 then b[i - 10] else if i < 42 then c[i - 26]
            else if i < 58 then d[i - 42] else if i < 74 then e[i - 58] else f[i - 74]
  {
  }

  /** Bound is the listed table. */
  lemma BoundIsListed(i: nat)
    requires i < COUNT
    ensures |BUCKET_BOUNDS| == COUNT && BUCKET_BOUNDS[i] == Bound(i)
  {
    Decades();
    forall j | 0 <= j < 16
      ensures TENS[j] == Bound(10 + j) && HUNDREDS[j] == Bound(26 + j) && THOUSANDS[j] == Bound(42 + j)
      ensures TEN_THOUSANDS[j] == Bound(58 + j) && HUNDRED_THOUSANDS[j] == Bound(74 + j)
    {
      Row(j);
    }
    Listed(UNITS, TENS, HUNDREDS, THOUSANDS, TEN_THOUSANDS, HUNDRED_THOUSANDS, i);
  }

  /** The boundaries ascend, and from 4 on each is at most a quarter above its predecessor. */
  lemma {:induction false} BoundStep(i: nat)
    requires i + 1 < COUNT
    ensures 0.0 < Bound(i) < Bound(i + 1)
    ensures i >= 3 ==> 4.0 * Bound(i + 1) <= 5.0 * Bound(i)
  {
    if i >= 26 {
      BoundStep(i - 16);
    } else if i == 25 {
      assert Bound(26) == 10.0 * Bound(10);
    }
  }

  /** The first boundary above x, at or after the i-th. */
  function FirstAbove(x: real, i: nat): (b: nat)
    requires i <= COUNT
    ensures b <= COUNT
    decreases COUNT - i
  {
    if i == COUNT || x < Bound(i) then i else FirstAbove(x, i + 1)
  }

  /** The bucket of x: how many boundaries it has reached. */
  function Bucket(x: real): (b: nat)
    ensures b <= COUNT
  {
    FirstAbove(x, 0)
  }

  /** The lower end of a bucket's interval. */
  function LowerEdge(b: nat): real
    requires b <= COUNT
  {
    if b == 0 then 0.0 else Bound(b - 1)
  }

  lemma {:induction false} BoundsAscend(i: nat, j: nat)
    requires i < j < COUNT
    ensures 0.0 < Bound(i) < Bound(j)
  {
    BoundStep(j - 1);
    BoundStep(i);
    if i < j - 1 {
      BoundsAscend(i, j - 1);
    }
  }

  predicate InInterval(x: real, b: nat) {
    b <= COUNT && (b > 0 ==> Bound(b - 1) <= x) && (b < COUNT ==> x < Bound(b))
  }

  lemma {:induction false} FirstAboveIsNext(x: real, i: nat)
    requires i <= COUNT && (i > 0 ==> Bound(i - 1) <= x)
    ensures InInterval(x, FirstAbove(x, i))
    decreases COUNT - i
  {
    if i < COUNT && Bound(i) <= x {
      FirstAboveIsNext(x, i + 1);
    }
  }

  lemma IntervalsOrdered(x: real, b: nat, y: real, c: nat)
    requires x <= y && InInterval(x, b) && InInterval(y, c)
    ensures b <= c
  {
    if c + 1 < b {
      BoundsAscend(c, b - 1);
    }
  }

  /** The bucket of x is the one interval that contains it. */
  lemma {:induction false} BucketIsUnique(x: real, b: nat)
    ensures b == Bucket(x) <==> InInterval(x, b)
  {
    FirstAboveIsNext(x, 0);
    if InInterval(x, b) {
      IntervalsOrdered(x, b, x, Bucket(x));
      IntervalsOrdered(x, Bucket(x), x, b);
    }
  }

  lemma LowerEdgesAscend(b: nat, c: nat)
    requires b <= c <= COUNT
    ensures 0.0 <= LowerEdge(b) <= LowerEdge(c)
  {
    if 0 < b < c {
      BoundsAscend(b - 1, c - 1);
    } else if 1 < c {
      BoundsAscend(0, c - 1);
    }
  }

  lemma BucketMonotone(x: real, y: real)
    requires x <= y
    ensures Bucket(x) <= Bucket(y)
  {
    BucketIsUnique(x, Bucket(x));
    BucketIsUnique(y, Bucket(y));
    IntervalsOrdered(x, Bucket(x), y, Bucket(y));
  }

  lemma LandmarkBounds()
    ensures Bound(0) == 1.0 && Bound(3) == 4.0 && Bound(89) == 1000000.0
  {
    assert Bound(41) == 1000.0;
    assert Bound(73) == 100000.0;
  }

  /** A value is at least its bucket's lower edge and, between 4 and a million, less than a quarter above it. */
  lemma EdgeApproximates(x: real)
    ensures x >= 0.0 ==> LowerEdge(Bucket(x)) <= x
    ensures LowerEdge(Bucket(x)) <= if x < 0.0 then 0.0 else x
    ensures 4.0 <= x < 1000000.0 ==> x < 1.25 * LowerEdge(Bucket(x))
  {
    LandmarkBounds();
    var b := Bucket(x);
    BucketIsUnique(x, b);
    if 4.0 <= x < 1000000.0 {
      if b < 3 {
        BoundsAscend(b, 3);
      }
      BoundStep(b - 1);
    }
  }

  /** r is the largest boundary that x reaches, or 0 if it reaches none. */
  ghost predicate IsFloor(x: real, r: real) {
    if x < 1.0 then r == 0.0
    else
      && r <= x && (exists i: nat :: i < COUNT && Bound(i) == r)
      && forall i: nat :: i < COUNT && Bound(i) <= x ==> Bound(i) <= r
  }

  lemma NoneAboveEdge(x: real, b: nat, i: nat)
    requires InInterval(x, b) && i < COUNT && Bound(i) <= x
    ensures 0 < b && Bound(i) <= Bound(b - 1)
  {
    if b < i {
      BoundsAscend(b, i);
    } else if i + 1 < b {
      BoundsAscend(i, b - 1);
    }
  }

  lemma FirstIsOne(x: real, b: nat)
    requires InInterval(x, b)
    ensures b == 0 <==> x < 1.0
  {
    LandmarkBounds();
    if b > 1 {
      BoundsAscend(0, b - 1);
    }
  }

  lemma {:induction false} EdgeIsFloor(x: real)
    ensures IsFloor(x, LowerEdge(Bucket(x)))
  {
    var b := Bucket(x);
    BucketIsUnique(x, b);
    FirstIsOne(x, b);
    forall i: nat | i < COUNT && Bound(i) <= x ensures Bound(i) <= LowerEdge(b) {
      NoneAboveEdge(x, b, i);
    }
  }
}
