/**
  The packaged index view (`Sources/AWIndexView/AWIndexView.swift`): a column
  of section labels that reports, while it is dragged, which index path of the
  host's list lies under the finger.

  The view state the source updates in place is a class. `UIView.animate`
  assigns its target values at once (only the drawing is animated), so alpha
  changes are plain assignments; the flash's delayed hide is an explicit
  "timer fired" step. The haptic generator is a pulse counter and the delegate
  calls are a log.
 */
module PackageIndexView {
  import opened IndexMath
  import Mapper

  /**
    The delegate's answers (`AWIndexViewDelegate`): the item count of each
    section, the titles of the index, and the longer titles for the overlay
    (empty when the delegate does not provide them).
   */
  datatype Host = Host(itemCount: nat -> nat, sectionIndexes: seq<string>, extendedSectionTitles: seq<string>)

  /** Calls the view makes on its delegate. */
  datatype Callback = WillBeginDragging | WasDraggedAt(path: IndexPath) | DidEndDragging

  class IndexView {
    /** A weak reference: `None` when the host is gone or was never set. */
    var delegate: Option<Host>
    var scrollsToSectionTop: bool
    var shouldHideWhenNotActive: bool
    var isDragging: bool
    /** The texts of the labels in the stack, top to bottom. */
    var labels: seq<string>
    var sectionIndexes: seq<string>
    var extendedSectionTitles: seq<string>
    /** `contentView.alpha`: the index column. */
    var contentAlpha: real
    /** `labelView.text` and `labelView.alpha`: the enlarged overlay. */
    var overlayText: Option<string>
    var overlayAlpha: real
    /** The last path whose section differed from the one before; starts at (0, 0). */
    var currentIndexPath: IndexPath
    /** `selectionChanged()` calls on the feedback generator. */
    var hapticPulses: nat
    var callbacks: seq<Callback>
    /** Flash hides that are scheduled and have not fired yet. */
    var pendingHides: nat

    constructor (delegate: Option<Host>)
      ensures labels == sectionIndexes == []
      ensures this.delegate == delegate
      ensures !scrollsToSectionTop && shouldHideWhenNotActive && !isDragging
      ensures extendedSectionTitles == []
      ensures contentAlpha == 0.0 && overlayText == None && overlayAlpha == 0.0
      ensures currentIndexPath == IndexPath(0, 0) && hapticPulses == 0
      ensures callbacks == [] && pendingHides == 0
    {
      this.delegate := delegate;
      scrollsToSectionTop := false;
      shouldHideWhenNotActive := true;
      isDragging := false;
      labels, sectionIndexes, extendedSectionTitles := [], [], [];
      contentAlpha := 0.0;
      overlayText, overlayAlpha := None, 0.0;
      currentIndexPath := IndexPath(0, 0);
      hapticPulses := 0;
      callbacks := [];
      pendingHides := 0;
    }

    /** The `didSet` of `shouldHideWhenNotActive`: hidden means alpha 0, otherwise 1. */
    method SetShouldHideWhenNotActive(value: bool)
      modifies this`shouldHideWhenNotActive, this`contentAlpha
      ensures shouldHideWhenNotActive == value
      ensures contentAlpha == if value then 0.0 else 1.0
    {
      shouldHideWhenNotActive := value;
      contentAlpha := if value then 0.0 else 1.0;
    }

    /**
      Reloads the titles from the delegate (none without one), rebuilds the
      labels, and shows the first extended title in the overlay when there are
      extended titles. The last reported path is kept.
     */
    method Setup()
      modifies this`sectionIndexes, this`extendedSectionTitles, this`labels, this`overlayText
      ensures labels == sectionIndexes
      ensures sectionIndexes == if delegate.Some? then delegate.value.sectionIndexes else []
      ensures extendedSectionTitles == if delegate.Some? then delegate.value.extendedSectionTitles else []
      ensures overlayText == if extendedSectionTitles == [] then old(overlayText)
                             else Some(extendedSectionTitles[0])
    {
      sectionIndexes := if delegate.Some? then delegate.value.sectionIndexes else [];
      extendedSectionTitles := if delegate.Some? then delegate.value.extendedSectionTitles else [];
      SetLabels();
      if extendedSectionTitles == [] {
        return;
      }
      overlayText := Some(extendedSectionTitles[0]);
    }

    /** Empties the stack and appends one label per section index. */
    method SetLabels()
      modifies this`labels
      ensures labels == sectionIndexes
    {
      labels := [];
      for i := 0 to |sectionIndexes|
        invariant labels == sectionIndexes[..i]
      {
        labels := labels + [sectionIndexes[i]];
      }
    }

    /** Ignored while dragging; otherwise shows the column, and the overlay if it has text. */
    method Show()
      modifies this`contentAlpha, this`overlayAlpha
      ensures old(isDragging) ==> contentAlpha == old(contentAlpha) && overlayAlpha == old(overlayAlpha)
      ensures !old(isDragging) ==> contentAlpha == 1.0
      ensures !old(isDragging) ==> overlayAlpha == if overlayText.Some? then 1.0 else old(overlayAlpha)
    {
      if isDragging {
        return;
      }
      contentAlpha := 1.0;
      if overlayText == None {
        return;
      }
      overlayAlpha := 1.0;
    }

    /** Ignored while dragging; otherwise hides both the column and the overlay. */
    method Hide()
      modifies this`contentAlpha, this`overlayAlpha
      ensures old(isDragging) ==> contentAlpha == old(contentAlpha) && overlayAlpha == old(overlayAlpha)
      ensures !old(isDragging) ==> contentAlpha == 0.0 && overlayAlpha == 0.0
    {
      if isDragging {
        return;
      }
      contentAlpha := 0.0;
      overlayAlpha := 0.0;
    }

    /**
      `flash(delay:duration:)`: shows the column (whether or not it is being
      dragged) and, once that animation completes, schedules a hide.
     */
    method Flash()
      modifies this`contentAlpha, this`pendingHides
      ensures contentAlpha == 1.0
      ensures pendingHides == old(pendingHides) + 1
    {
      contentAlpha := 1.0;
      pendingHides := pendingHides + 1;
    }

    /** The flash's scheduled hide fires: it does nothing while the view is dragged. */
    method FlashHideFired()
      requires pendingHides > 0
      modifies this`pendingHides, this`contentAlpha, this`overlayAlpha
      ensures pendingHides == old(pendingHides) - 1
      ensures old(isDragging) ==> contentAlpha == old(contentAlpha) && overlayAlpha == old(overlayAlpha)
      ensures !old(isDragging) ==> contentAlpha == 0.0 && overlayAlpha == 0.0
    {
      pendingHides := pendingHides - 1;
      if isDragging {
        return;
      }
      Hide();
    }

    /** What `scrollToIndex` reports for a bucket and fraction: nothing without a delegate. */
    function Report(index: nat, percent: real): Option<IndexPath>
      reads this`delegate, this`labels, this`scrollsToSectionTop
      requires percent >= 0.0
    {
      if delegate.None? then None
      else Mapper.Target(delegate.value.itemCount, index, percent, |labels|, scrollsToSectionTop)
    }

    /**
      `extendedSectionTitles[section]` is only read when there are extended
      titles; Swift traps when the reported section is past their end.
     */
    predicate OverlayTitleExists(t: Option<IndexPath>)
      reads this`extendedSectionTitles
    {
      t.None? || extendedSectionTitles == [] || t.value.section < |extendedSectionTitles|
    }

    /**
      The effect of one report: nothing at all for `None`; otherwise the
      delegate hears the path, a haptic pulse fires and the current path moves
      only when the section changed, and the overlay shows the section's
      extended title when there are extended titles.
     */
    twostate predicate Applied(t: Option<IndexPath>)
      reads this
    {
      && (t.None? ==>
            && currentIndexPath == old(currentIndexPath)
            && hapticPulses == old(hapticPulses)
            && callbacks == old(callbacks)
            && overlayText == old(overlayText))
      && (t.Some? ==>
            && (t.value.section != old(currentIndexPath.section) ==>
                  currentIndexPath == t.value && hapticPulses == old(hapticPulses) + 1)
            && (t.value.section == old(currentIndexPath.section) ==>
                  currentIndexPath == old(currentIndexPath) && hapticPulses == old(hapticPulses))
            && callbacks == old(callbacks) + [WasDraggedAt(t.value)]
            && (extendedSectionTitles == [] ==> overlayText == old(overlayText))
            && (t.value.section < |extendedSectionTitles| ==>
                  overlayText == Some(extendedSectionTitles[t.value.section])))
    }

    /** `scrollToIndex(_:percentInSection:)`. */
    method ScrollToIndex(index: nat, percent: real)
      requires percent >= 0.0
      requires OverlayTitleExists(Report(index, percent))
      modifies this`currentIndexPath, this`hapticPulses, this`callbacks, this`overlayText
      ensures Applied(old(Report(index, percent)))
    {
      if delegate.None? {
        return;
      }
      var host := delegate.value;
      var count := |labels|;
      var section, rows, row := Mapper.ResolveSection(host.itemCount, index, percent, count);
      Mapper.TargetOfResolved(host.itemCount, index, percent, count, scrollsToSectionTop, section, rows, row);
      assert old(Report(index, percent)) == Mapper.Target(host.itemCount, index, percent, count, scrollsToSectionTop);
      if rows != 0 && row < rows {
        Present(IndexPath(if scrollsToSectionTop then 0 else row, section));
      }
    }

    /** The reporting half of `scrollToIndex`, once the path is known. */
    method Present(path: IndexPath)
      requires OverlayTitleExists(Some(path))
      modifies this`currentIndexPath, this`hapticPulses, this`callbacks, this`overlayText
      ensures Applied(Some(path))
    {
      if path.section != currentIndexPath.section {
        currentIndexPath := path;
        hapticPulses := hapticPulses + 1;
      }
      callbacks := callbacks + [WasDraggedAt(path)];
      if extendedSectionTitles == [] {
        return;
      }
      overlayText := Some(extendedSectionTitles[path.section]);
    }

    /** The report a move to `pointY` produces, bucket and fraction computed as `handleGesture` does. */
    function MoveReport(pointY: real, height: real): Option<IndexPath>
      reads this`delegate, this`labels, this`scrollsToSectionTop
      requires height > 0.0
    {
      Report(BucketIndex(pointY, height, |labels|), PercentInSection(pointY, height, |labels|))
    }

    /**
      `handleGesture(_:)`. Without labels nothing happens. `began` tells the
      delegate, shows the view and then marks it dragged; `changed` maps the
      position; every other state clears the drag flag, tells the delegate and
      hides the view.
     */
    method HandleGesture(state: GestureState, pointY: real, height: real)
      requires state == Changed && labels != [] ==>
                 height > 0.0 && OverlayTitleExists(MoveReport(pointY, height))
      modifies this`isDragging, this`callbacks, this`contentAlpha, this`overlayAlpha,
               this`currentIndexPath, this`hapticPulses, this`overlayText
      ensures old(labels) == [] ==> unchanged(this)
      ensures labels != [] && state == Began ==> (
                && isDragging
                && callbacks == old(callbacks) + (if delegate.Some? then [WillBeginDragging] else [])
                && (old(isDragging) ==> contentAlpha == old(contentAlpha) && overlayAlpha == old(overlayAlpha))
                && (!old(isDragging) ==>
                      contentAlpha == 1.0 && overlayAlpha == (if overlayText.Some? then 1.0 else old(overlayAlpha)))
                && currentIndexPath == old(currentIndexPath) && hapticPulses == old(hapticPulses)
                && overlayText == old(overlayText))
      ensures labels != [] && state == Changed ==> (
                && Applied(old(MoveReport(pointY, height)))
                && isDragging == old(isDragging)
                && contentAlpha == old(contentAlpha) && overlayAlpha == old(overlayAlpha))
      ensures labels != [] && state != Began && state != Changed ==> (
                && !isDragging
                && callbacks == old(callbacks) + (if delegate.Some? then [DidEndDragging] else [])
                && contentAlpha == 0.0 && overlayAlpha == 0.0
                && currentIndexPath == old(currentIndexPath) && hapticPulses == old(hapticPulses)
                && overlayText == old(overlayText))
    {
      if labels == [] {
        return;
      }
      match state {
        case Began =>
          if delegate.Some? {
            callbacks := callbacks + [WillBeginDragging];
          }
          Show();
          isDragging := true;
        case Changed =>
          var index := BucketIndex(pointY, height, |labels|);
          var percent := PercentInSection(pointY, height, |labels|);
          ScrollToIndex(index, percent);
        case _ =>
          isDragging := false;
          if delegate.Some? {
            callbacks := callbacks + [DidEndDragging];
          }
          Hide();
      }
    }
  }

  /**
    A flash whose hide comes due during a drag: the hide is dropped, the view
    stays visible while dragged, and the drag's end hides it.
   */
  method FlashDuringDrag(host: Host) returns (duringDrag: real, afterDrag: real)
    ensures host.sectionIndexes != [] ==> duringDrag == 1.0 && afterDrag == 0.0
  {
    var v := new IndexView(Some(host));
    v.Setup();
    v.Flash();
    duringDrag, afterDrag := v.contentAlpha, v.contentAlpha;
    if v.labels != [] {
      v.HandleGesture(Began, 0.0, 1.0);
      v.FlashHideFired();
      assert v.pendingHides == 0;
      duringDrag := v.contentAlpha;
      v.HandleGesture(Ended, 0.0, 1.0);
      assert !v.isDragging;
      afterDrag := v.contentAlpha;
    }
  }

  /**
    A drag down five sections that all have items: the first touch stays in
    section 0, where the view starts, and each later section gives one haptic
    pulse; the touch at the bottom edge reports nothing.
   */
  method DragOverFiveSections() returns (pulses: nat, last: IndexPath)
    ensures pulses == 4 && last == IndexPath(1, 4)
  {
    var host := Host(_ => 3, ["A", "B", "C", "D", "E"], []);
    var v := new IndexView(Some(host));
    v.Setup();
    v.HandleGesture(Began, 0.5, 5.0);
    DragToMiddleOf(v, 0);
    assert v.hapticPulses == 0;
    DragToMiddleOf(v, 1);
    DragToMiddleOf(v, 2);
    DragToMiddleOf(v, 3);
    DragToMiddleOf(v, 4);
    DragToBottom(v);
    pulses, last := v.hapticPulses, v.currentIndexPath;
  }

  /** A `changed` event at the bottom edge of five labels: nothing is reported. */
  method DragToBottom(v: IndexView)
    requires |v.labels| == 5 && v.extendedSectionTitles == [] && v.delegate.Some?
    modifies v`isDragging, v`callbacks, v`contentAlpha, v`overlayAlpha,
             v`currentIndexPath, v`hapticPulses, v`overlayText
    ensures v.currentIndexPath == old(v.currentIndexPath) && v.hapticPulses == old(v.hapticPulses)
  {
    Mapper.TouchAtOrBelowBottomReportsNothing(5.0, 5.0, 5, v.delegate.value.itemCount, v.scrollsToSectionTop);
    v.HandleGesture(Changed, 5.0, 5.0);
  }

  /** A `changed` event halfway down label `k` of five, on a surface five points tall, over sections of 3 items. */
  method DragToMiddleOf(v: IndexView, k: nat)
    requires k < 5 && |v.labels| == 5 && v.extendedSectionTitles == [] && !v.scrollsToSectionTop
    requires v.delegate.Some? && v.delegate.value.itemCount(k) == 3
    modifies v`isDragging, v`callbacks, v`contentAlpha, v`overlayAlpha,
             v`currentIndexPath, v`hapticPulses, v`overlayText
    ensures k != old(v.currentIndexPath.section) ==>
              v.currentIndexPath == IndexPath(1, k) && v.hapticPulses == old(v.hapticPulses) + 1
    ensures k == old(v.currentIndexPath.section) ==>
              v.currentIndexPath == old(v.currentIndexPath) && v.hapticPulses == old(v.hapticPulses)
  {
    var pointY := k as real + 0.5;
    Mapper.MidBucketTouch(pointY, 5.0, 5, k, v.delegate.value.itemCount, false);
    assert Trunc(3.0 * 0.5) == 1;
    v.HandleGesture(Changed, pointY, 5.0);
  }

  /** Hiding twice is the same as hiding once. */
  method HideTwice(host: Host) returns (once: (real, real), twice: (real, real))
    ensures once == (0.0, 0.0) && twice == once
  {
    var v := new IndexView(Some(host));
    v.Show();
    v.Hide();
    once := (v.contentAlpha, v.overlayAlpha);
    v.Hide();
    twice := (v.contentAlpha, v.overlayAlpha);
  }
}
