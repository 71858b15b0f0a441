/**
  The section resolution shared by the three index-view copies: starting from
  the bucket under the touch, skip forward over sections without items, then
  report `(row, section)` only when the section has items and the row computed
  from the fraction lies inside it.

  The item counts come from the host (`numberOfItems(in:)` or
  `indexView(_:numberOfItemsIn:)`) and are modelled as a total function to
  non-negative integers.
 */
module Mapper {
  import opened IndexMath

  /** No section from `from` up to and including `to` has items. */
  predicate AllEmpty(itemCount: nat -> nat, from: nat, to: int)
  {
    forall k: nat :: from <= k <= to ==> itemCount(k) == 0
  }

  /**
    The section the skip loop stops at: the first section at or after `index`
    that has items, or the last section (`numberOfSections - 1`) when all the
    sections from `index` on are empty. An index at or past the last section is
    never moved.
   */
  function SkipEmpty(itemCount: nat -> nat, index: nat, numberOfSections: int): (section: nat)
    ensures index <= section
    ensures index < numberOfSections ==> section < numberOfSections
    ensures index >= numberOfSections - 1 ==> section == index
    ensures AllEmpty(itemCount, index, section - 1)
    ensures itemCount(section) == 0 ==> section == Max(index, numberOfSections - 1)
    decreases numberOfSections - index
  {
    if itemCount(index) == 0 && index < numberOfSections - 1 then
      SkipEmpty(itemCount, index + 1, numberOfSections)
    else
      index
  }

  /**
    What `scrollToIndex(index, percentInSection:)` reports once the skip loop
    has run: `None` when the reached section is empty or the row computed from
    the fraction is not inside it; otherwise the path, with its row forced to 0
    when `toTop` (`scrollsToSectionTop` / `shouldScrollToFirstItemInSection`)
    is set. The range check uses the computed row, not the forced one.
   */
  function Target(itemCount: nat -> nat, index: nat, percent: real, numberOfSections: int, toTop: bool)
    : (t: Option<IndexPath>)
    requires percent >= 0.0
    // a report is always a non-empty section at or after the bucket, with a row inside it
    ensures t.Some? ==> index <= t.value.section && t.value.row < itemCount(t.value.section)
    ensures t.Some? && index < numberOfSections ==> t.value.section < numberOfSections
    // every section that was skipped is empty, and a skip resets the row
    ensures t.Some? ==> AllEmpty(itemCount, index, t.value.section - 1)
    ensures t.Some? && t.value.section != index ==> t.value.row == 0
    ensures t.Some? && toTop ==> t.value.row == 0
    ensures t.Some? && !toTop && t.value.section == index ==>
              t.value.row as real <= itemCount(index) as real * percent < t.value.row as real + 1.0
  {
    var section := SkipEmpty(itemCount, index, numberOfSections);
    var rows := itemCount(section);
    var row := if section == index then Trunc(itemCount(index) as real * percent) else 0;
    RowInsideIff(itemCount(index), percent);
    if rows != 0 && row < rows then Some(IndexPath(if toTop then 0 else row, section)) else None
  }

  /**
    Nothing is reported exactly when the sections from the bucket on are all
    empty, or when the bucket has items and the touch lies at or past its end.
   */
  lemma NothingReportedIff(itemCount: nat -> nat, index: nat, percent: real, numberOfSections: int, toTop: bool)
    requires percent >= 0.0
    ensures Target(itemCount, index, percent, numberOfSections, toTop).None? <==>
              AllEmpty(itemCount, index, Max(index, numberOfSections - 1))
              || (itemCount(index) != 0 && percent >= 1.0)
  {
    var section := SkipEmpty(itemCount, index, numberOfSections);
    RowInsideIff(itemCount(index), percent);
    if itemCount(section) != 0 && !AllEmpty(itemCount, index, Max(index, numberOfSections - 1)) {
      assert section <= Max(index, numberOfSections - 1);
    }
  }

  /** For a non-empty section, the truncated row `Int(rows * percent)` is inside it iff `percent < 1`. */
  lemma RowInsideIff(rows: nat, percent: real)
    requires percent >= 0.0
    ensures 0 <= Trunc(rows as real * percent)
    ensures rows != 0 ==> (Trunc(rows as real * percent) < rows <==> percent < 1.0)
  {
    MulNonneg(rows as real, percent);
    if rows != 0 {
      if percent < 1.0 {
        RowBelow(rows, percent);
      } else {
        RowAtLeast(rows, percent);
      }
    }
  }

  lemma RowBelow(rows: nat, percent: real)
    requires rows > 0 && 0.0 <= percent < 1.0
    ensures Trunc(rows as real * percent) < rows
  {
    MulBelow(percent, rows as real);
    TruncBelow(rows as real * percent, rows);
  }

  lemma RowAtLeast(rows: nat, percent: real)
    requires percent >= 1.0
    ensures Trunc(rows as real * percent) >= rows
  {
    MulAtLeast(percent, rows as real);
    TruncAtLeast(rows as real * percent, rows);
  }

  lemma TruncBelow(x: real, n: int)
    requires 0.0 <= x < n as real
    ensures Trunc(x) < n
  {
  }

  lemma TruncAtLeast(x: real, n: int)
    requires x >= n as real
    ensures Trunc(x) >= n
  {
  }

  /**
    The skip loop of `scrollToIndex`, identical in the three copies: `section`,
    `rows` and `row` start at the bucket and advance while the section is empty
    and not the last one, resetting the row on every advance.
   */
  method ResolveSection(itemCount: nat -> nat, index: nat, percent: real, numberOfSections: int)
    returns (section: nat, rows: nat, row: int)
    requires percent >= 0.0
    ensures section == SkipEmpty(itemCount, index, numberOfSections)
    ensures rows == itemCount(section)
    ensures row == if section == index then Trunc(itemCount(index) as real * percent) else 0
  {
    section := index;
    rows := itemCount(section);
    row := Trunc(rows as real * percent);
    while rows == 0 && section < numberOfSections - 1
      invariant index <= section
      invariant SkipEmpty(itemCount, section, numberOfSections) == SkipEmpty(itemCount, index, numberOfSections)
      invariant rows == itemCount(section)
      invariant row == if section == index then Trunc(itemCount(index) as real * percent) else 0
      decreases numberOfSections - section
    {
      section := section + 1;
      rows := itemCount(section);
      row := 0;
    }
  }

  /** The values `ResolveSection` returns decide the report as `Target` does. */
  lemma TargetOfResolved(itemCount: nat -> nat, index: nat, percent: real, numberOfSections: int, toTop: bool,
                         section: nat, rows: nat, row: int)
    requires percent >= 0.0
    requires section == SkipEmpty(itemCount, index, numberOfSections)
    requires rows == itemCount(section)
    requires row == if section == index then Trunc(itemCount(index) as real * percent) else 0
    ensures row >= 0
    ensures Target(itemCount, index, percent, numberOfSections, toTop) ==
            if rows != 0 && row < rows then Some(IndexPath(if toTop then 0 else row, section)) else None
  {
    RowInsideIff(itemCount(index), percent);
    var t := Target(itemCount, index, percent, numberOfSections, toTop);
    if rows != 0 && row < rows {
      assert t.Some?;
      assert t.value.section == section;
      assert t.value.row == if toTop then 0 else row;
    } else {
      assert t.None?;
    }
  }

  /** The whole mapping from a touch position to a report, as `handleGesture` and `scrollToIndex` compose it. */
  function MapTouch(pointY: real, height: real, count: nat, itemCount: nat -> nat, toTop: bool): Option<IndexPath>
    requires height > 0.0
  {
    Target(itemCount, BucketIndex(pointY, height, count), PercentInSection(pointY, height, count), count, toTop)
  }

  /**
    A touch halfway down a bucket with items, on a surface one point tall per
    label, reports that bucket's section, with the row at half its item count.
   */
  lemma MidBucketTouch(pointY: real, height: real, count: nat, k: nat, itemCount: nat -> nat, toTop: bool)
    requires k < count && height == count as real && pointY == k as real + 0.5
    requires itemCount(k) > 0
    ensures MapTouch(pointY, height, count, itemCount, toTop) ==
            Some(IndexPath(if toTop then 0 else Trunc(itemCount(k) as real * 0.5), k))
  {
    MidBucket(pointY, height, count, k);
    RowBelow(itemCount(k), 0.5);
    RowInsideIff(itemCount(k), 0.5);
  }

  /** With at least one label, a report always names one of the labelled sections. */
  lemma ReportedSectionInRange(pointY: real, height: real, count: nat, itemCount: nat -> nat, toTop: bool)
    requires height > 0.0 && count > 0
    ensures var t := MapTouch(pointY, height, count, itemCount, toTop);
            t.Some? ==> BucketIndex(pointY, height, count) <= t.value.section < count
  {
  }

  /**
    A touch at or below the bottom edge reports nothing: it is clamped into the
    last bucket with a fraction of at least 1, and there is no section after the
    last one to skip to.
   */
  lemma TouchAtOrBelowBottomReportsNothing(pointY: real, height: real, count: nat, itemCount: nat -> nat, toTop: bool)
    requires height > 0.0 && count > 0
    requires pointY >= height
    ensures MapTouch(pointY, height, count, itemCount, toTop) == None
  {
    AtOrBelowBottom(pointY, height, count);
  }

  /** When no labelled section has items, nothing is ever reported. */
  lemma AllSectionsEmptyReportsNothing(pointY: real, height: real, count: nat, itemCount: nat -> nat, toTop: bool)
    requires height > 0.0 && count > 0
    requires AllEmpty(itemCount, 0, count - 1)
    ensures MapTouch(pointY, height, count, itemCount, toTop) == None
  {
    var index := BucketIndex(pointY, height, count);
    assert AllEmpty(itemCount, index, Max(index, count - 1));
  }

  /** Skipping forward preserves order: a later bucket never resolves to an earlier section. */
  lemma {:induction false} SkipEmptyMonotone(itemCount: nat -> nat, i: nat, j: nat, numberOfSections: int)
    requires i <= j
    ensures SkipEmpty(itemCount, i, numberOfSections) <= SkipEmpty(itemCount, j, numberOfSections)
    decreases j - i
  {
    if i < j && itemCount(i) == 0 && i < numberOfSections - 1 {
      SkipEmptyMonotone(itemCount, i + 1, j, numberOfSections);
    }
  }

  /** Dragging down never reports an earlier section than a touch above it did. */
  lemma ReportedSectionMonotone(y1: real, y2: real, height: real, count: nat, itemCount: nat -> nat, toTop: bool)
    requires height > 0.0 && y1 <= y2
    requires MapTouch(y1, height, count, itemCount, toTop).Some?
    requires MapTouch(y2, height, count, itemCount, toTop).Some?
    ensures MapTouch(y1, height, count, itemCount, toTop).value.section
            <= MapTouch(y2, height, count, itemCount, toTop).value.section
  {
    BucketIndexMonotone(y1, y2, height, count);
    SkipEmptyMonotone(itemCount, BucketIndex(y1, height, count), BucketIndex(y2, height, count), count);
  }

  /** Three sections with item counts 5, 0, 5: a touch in the middle of bucket 1 resolves to section 2, row 0. */
  lemma EmptySectionSkipExample()
    ensures MapTouch(1.5, 3.0, 3, s => if s == 1 then 0 else 5, false) == Some(IndexPath(0, 2))
  {
    var itemCount: nat -> nat := s => if s == 1 then 0 else 5;
    assert BucketIndex(1.5, 3.0, 3) == 1;
    assert SkipEmpty(itemCount, 2, 3) == 2;
  }

  /** One section of 10 items, 90% into it: row 9 normally, row 0 when scrolling to the section top. */
  lemma ScrollToTopExample()
    ensures MapTouch(0.9, 1.0, 1, _ => 10, false) == Some(IndexPath(9, 0))
    ensures MapTouch(0.9, 1.0, 1, _ => 10, true) == Some(IndexPath(0, 0))
  {
    assert BucketIndex(0.9, 1.0, 1) == 0;
    assert PercentInSection(0.9, 1.0, 1) == 0.9;
  }
}
