/**
  Shared vocabulary of the three index-view copies: optional values, index
  paths, gesture states, and the arithmetic that turns a touch position into a
  section bucket and a fraction within it.

  Swift's `CGFloat` is modelled by `real`: rounding, NaN and infinity are not
  part of the model, and the conversion `Int(x)` is modelled exactly, as
  truncation toward zero.
 */
module IndexMath {

  datatype Option<T> = None | Some(value: T)

  /** Foundation's `IndexPath(row:section:)`, as used by the index views. */
  datatype IndexPath = IndexPath(row: nat, section: nat)

  /** `UIGestureRecognizer.State`; only `began` and `changed` are told apart by the views. */
  datatype GestureState = Possible | Began | Changed | Ended | Cancelled | Failed

  function Min(a: int, b: int): int { if a <= b then a else b }

  function Max(a: int, b: int): int { if a >= b then a else b }

  /** Swift's `Int(_: CGFloat)`: drops the fractional part, rounding toward zero. */
  function Trunc(x: real): (r: int)
    ensures 0.0 <= x ==> 0 <= r && r as real <= x < r as real + 1.0
    ensures x < 0.0 ==> r <= 0 && r as real - 1.0 < x <= r as real
  {
    if x >= 0.0 then x.Floor else -((-x).Floor)
  }

  /** `pointY / frame.height * CGFloat(labels.count)`: the touch position in units of buckets. */
  function Raw(pointY: real, height: real, count: nat): real
    requires height > 0.0
  {
    pointY / height * count as real
  }

  /**
    `max(min(Int(raw), labels.count - 1), 0)`: the bucket under the touch. With
    no labels the inner `min` gives -1 and the outer `max` gives 0.
   */
  function BucketIndex(pointY: real, height: real, count: nat): (index: nat)
    requires height > 0.0
    ensures count > 0 ==> index < count
    ensures count == 0 ==> index == 0
  {
    var clamped := Min(Trunc(Raw(pointY, height, count)), count - 1);
    if clamped >= 0 then clamped else 0
  }

  /** `max(raw - CGFloat(index), 0)`: how far into its bucket the touch lies. */
  function PercentInSection(pointY: real, height: real, count: nat): (percent: real)
    requires height > 0.0
    ensures percent >= 0.0
    ensures percent >= Raw(pointY, height, count) - BucketIndex(pointY, height, count) as real
  {
    var d := Raw(pointY, height, count) - BucketIndex(pointY, height, count) as real;
    if d >= 0.0 then d else 0.0
  }

  /**
    Truncating and then clamping to the bucket range is the same as taking the
    floor and clamping: a negative position truncates to a value that is at
    most 0 either way, and the clamp sends it to bucket 0.
   */
  lemma BucketIndexIsClampedFloor(pointY: real, height: real, count: nat)
    requires height > 0.0 && count > 0
    ensures BucketIndex(pointY, height, count) ==
            Max(Min(Raw(pointY, height, count).Floor, count - 1), 0)
  {
    var raw := Raw(pointY, height, count);
    if raw < 0.0 {
      assert raw.Floor < 0;
    } else {
      assert Trunc(raw) == raw.Floor;
    }
  }

  /**
    A touch inside the surface (`0 <= pointY < height`) lands in bucket
    `floor(raw)` and its fraction within that bucket is in [0, 1).
   */
  lemma InsideSurface(pointY: real, height: real, count: nat)
    requires height > 0.0 && count > 0
    requires 0.0 <= pointY < height
    ensures BucketIndex(pointY, height, count) == Raw(pointY, height, count).Floor
    ensures PercentInSection(pointY, height, count) < 1.0
  {
    var raw := Raw(pointY, height, count);
    var f := pointY / height;
    assert 0.0 <= f < 1.0 by {
      DivBounds(pointY, height);
    }
    assert raw == f * count as real;
    assert 0.0 <= raw < count as real by {
      MulBelow(f, count as real);
    }
    assert Trunc(raw) == raw.Floor;
    assert raw.Floor <= count - 1;
  }

  /**
    On a surface one point tall per label, a touch halfway down the `k`th
    label lands in bucket `k`, half-way through it.
   */
  lemma MidBucket(pointY: real, height: real, count: nat, k: nat)
    requires k < count && height == count as real && pointY == k as real + 0.5
    ensures BucketIndex(pointY, height, count) == k
    ensures PercentInSection(pointY, height, count) == 0.5
  {
    assert Raw(pointY, height, count) == pointY;
    assert (k as real + 0.5).Floor == k;
  }

  /** Dividing by a positive height keeps the order of `y` against 0 and against the height. */
  lemma DivBounds(y: real, h: real)
    requires h > 0.0
    ensures 0.0 <= y ==> 0.0 <= y / h
    ensures y < h ==> y / h < 1.0
    ensures y >= h ==> y / h >= 1.0
  {
    var f := y / h;
    assert f * h == y;
    assert (f - 1.0) * h == y - h;
    if f < 0.0 {
      MulNeg(f, h);
    }
    if f >= 1.0 {
      MulNonneg(f - 1.0, h);
    } else {
      MulNeg(f - 1.0, h);
    }
  }

  lemma MulNonneg(a: real, b: real)
    requires a >= 0.0 && b >= 0.0
    ensures a * b >= 0.0
  {
  }

  lemma MulNeg(a: real, b: real)
    requires a < 0.0 && b > 0.0
    ensures a * b < 0.0
  {
  }

  /** `0 <= f < 1` and `c > 0` give `f * c < c`. */
  lemma MulBelow(f: real, c: real)
    requires 0.0 <= f < 1.0 && c > 0.0
    ensures 0.0 <= f * c < c
  {
    assert c - f * c == (1.0 - f) * c;
  }

  /** `f >= 1` and `c >= 0` give `f * c >= c`. */
  lemma MulAtLeast(f: real, c: real)
    requires f >= 1.0 && c >= 0.0
    ensures f * c >= c
  {
    assert f * c - c == (f - 1.0) * c;
    MulNonneg(f - 1.0, c);
  }

  /**
    A touch at or beyond the bottom edge (`pointY >= height`) is clamped into the
    last bucket with a fraction of at least 1.
   */
  lemma AtOrBelowBottom(pointY: real, height: real, count: nat)
    requires height > 0.0 && count > 0
    requires pointY >= height
    ensures BucketIndex(pointY, height, count) == count - 1
    ensures PercentInSection(pointY, height, count) >= 1.0
  {
    var f := pointY / height;
    assert f >= 1.0 by {
      DivBounds(pointY, height);
    }
    var raw := Raw(pointY, height, count);
    assert raw == f * count as real;
    assert raw >= count as real by {
      assert raw - count as real == (f - 1.0) * count as real;
    }
    assert Trunc(raw) >= count;
  }

  /** The bucket never moves up as the touch moves down. */
  lemma BucketIndexMonotone(y1: real, y2: real, height: real, count: nat)
    requires height > 0.0
    requires y1 <= y2
    ensures BucketIndex(y1, height, count) <= BucketIndex(y2, height, count)
  {
    RawMonotone(y1, y2, height, count);
    TruncMonotone(Raw(y1, height, count), Raw(y2, height, count));
  }

  lemma RawMonotone(y1: real, y2: real, height: real, count: nat)
    requires height > 0.0
    requires y1 <= y2
    ensures Raw(y1, height, count) <= Raw(y2, height, count)
  {
    var f1, f2 := y1 / height, y2 / height;
    assert f1 <= f2 by {
      assert (f2 - f1) * height == y2 - y1;
    }
    assert f2 * count as real - f1 * count as real == (f2 - f1) * count as real;
  }

  lemma TruncMonotone(x1: real, x2: real)
    requires x1 <= x2
    ensures Trunc(x1) <= Trunc(x2)
  {
  }
}
