/**
  The index view of the example app (`Example/AWIndexViewExample/AWIndexView.swift`).
  Its labels live in a `[String: UILabel]` dictionary keyed by title, so
  duplicate titles collapse into one bucket, and each insertion also appends the
  new label to the stack view. The whole view fades to alpha 0.02 instead of
  hiding, and `show`/`hide` take a completion that is not called while the view
  is dragged; `flash` chains a delayed show and, from its completion, a delayed
  hide. The delayed blocks are explicit "timer fired" steps.
 */
module ExampleIndexView {
  import opened IndexMath
  import Mapper
  import opened Labels

  /** The alpha of the view when it is "hidden": it stays faintly visible. */
  const HiddenAlpha: real := 0.02

  class IndexView {
    /** A weak reference: `None` once the host is gone. */
    var delegate: Option<Host>
    var labels: map<string, Label>
    /** `stackView.arrangedSubviews`, top to bottom. */
    var arranged: seq<Label>
    var shouldScrollToFirstItemInSection: bool
    var shouldHideWhenNotActive: bool
    var isDragging: bool
    var alpha: real
    /** The section of the last report that changed section; starts at 0. */
    var currentIndexSection: nat
    /** `vibrate()` calls, each one `selectionChanged()` on the feedback generator. */
    var hapticPulses: nat
    /** The paths passed to the delegate's `indexViewChanged(indexPath:)`. */
    var changes: seq<IndexPath>
    /** Delayed `show` blocks scheduled by `flash` that have not run yet. */
    var pendingShows: nat
    /** Delayed `hide` blocks scheduled by a completed flash `show` that have not run yet. */
    var pendingHides: nat

    /** Each dictionary entry is a label showing its own key, and it is in the stack. */
    ghost predicate Valid()
      reads this
    {
      forall k :: k in labels ==> labels[k].text == k && labels[k] in arranged
    }

    /** `init(delegate:)`: alpha 0.02 and the labels of the delegate's titles. */
    constructor (delegate: Host)
      ensures Valid()
      ensures this.delegate == Some(delegate)
      ensures labels.Keys == Distinct(delegate.sectionIndexes)
      ensures Texts(arranged) == delegate.sectionIndexes
      ensures forall i :: 0 <= i < |arranged| ==> fresh(arranged[i])
      ensures Unshared(arranged, 0) && LastMade(labels, delegate.sectionIndexes, arranged, 0)
      ensures !shouldScrollToFirstItemInSection && shouldHideWhenNotActive && !isDragging
      ensures alpha == HiddenAlpha
      ensures currentIndexSection == 0 && hapticPulses == 0 && changes == []
      ensures pendingShows == 0 && pendingHides == 0
    {
      this.delegate := Some(delegate);
      labels := map[];
      arranged := [];
      shouldScrollToFirstItemInSection := false;
      shouldHideWhenNotActive := true;
      isDragging := false;
      alpha := HiddenAlpha;
      currentIndexSection := 0;
      hapticPulses := 0;
      changes := [];
      pendingShows, pendingHides := 0, 0;
      new;
      SetLabels(delegate.sectionIndexes);
      WithoutNothing([]);
    }

    /** The `didSet` of `shouldHideWhenNotActive`: alpha 0.02 when hiding, 1 otherwise. */
    method SetShouldHideWhenNotActive(value: bool)
      modifies this`shouldHideWhenNotActive, this`alpha
      ensures shouldHideWhenNotActive == value
      ensures alpha == if value then HiddenAlpha else 1.0
    {
      shouldHideWhenNotActive := value;
      alpha := if value then HiddenAlpha else 1.0;
    }

    /**
      `setLabels(with:)`: takes the dictionary's labels out of the stack, empties
      the dictionary and inserts one label per title. Labels that an earlier
      duplicate title left in the stack (no longer in the dictionary) stay there.
     */
    method SetLabels(indexes: seq<string>)
      modifies this`labels, this`arranged
      ensures Valid()
      ensures labels.Keys == Distinct(indexes)
      ensures var kept := Without(old(arranged), old(labels).Values);
              && |arranged| == |kept| + |indexes|
              && arranged[..|kept|] == kept
              && Texts(arranged[|kept|..]) == indexes
              && (forall i :: |kept| <= i < |arranged| ==> fresh(arranged[i]))
              && Unshared(arranged, |kept|)
              && LastMade(labels, indexes, arranged, |kept|)
    {
      DetachLabels();
      labels := map[];
      InsertAll(indexes);
    }

    /** The first loop of `setLabels(with:)`: `removeFromSuperview()` on every label of the dictionary. */
    method DetachLabels()
      modifies this`arranged
      ensures arranged == Without(old(arranged), labels.Values)
    {
      var gone := labels.Values;
      var todo := gone;
      WithoutNothing(arranged);
      assert gone - todo == {};
      while todo != {}
        invariant todo <= gone
        invariant arranged == Without(old(arranged), gone - todo)
        decreases todo
      {
        var dropped :| dropped in todo;
        WithoutTwice(old(arranged), gone - todo, {dropped});
        arranged := Without(arranged, {dropped});
        assert gone - (todo - {dropped}) == (gone - todo) + {dropped};
        todo := todo - {dropped};
      }
      assert gone - todo == gone;
    }

    /** The second loop of `setLabels(with:)`: `insert(new:)` for every title, into an empty dictionary. */
    method InsertAll(indexes: seq<string>)
      requires labels == map[]
      modifies this`labels, this`arranged
      ensures Valid()
      ensures labels.Keys == Distinct(indexes)
      ensures |arranged| == |old(arranged)| + |indexes|
      ensures arranged[..|old(arranged)|] == old(arranged)
      ensures Texts(arranged[|old(arranged)|..]) == indexes
      ensures forall i :: |old(arranged)| <= i < |arranged| ==> fresh(arranged[i])
      ensures Unshared(arranged, |old(arranged)|)
      ensures LastMade(labels, indexes, arranged, |old(arranged)|)
    {
      var kept := arranged;
      ghost var added: seq<Label> := [];
      for i := 0 to |indexes|
        invariant arranged == kept + added
        invariant Loaded(labels, indexes[..i], added)
        invariant forall j :: 0 <= j < |added| ==> fresh(added[j])
      {
        ghost var made := InsertNext(indexes[i], indexes[..i], kept, added);
        PrefixSnoc(indexes, i);
        added := added + [made];
      }
      assert indexes[..|indexes|] == indexes;
      LoadedAfter(labels, indexes, kept, added);
    }

    /** `setup()`: reloads the labels from the delegate; nothing happens without one. */
    method Setup()
      modifies this`labels, this`arranged
      ensures delegate.None? ==> labels == old(labels) && arranged == old(arranged)
      ensures delegate.Some? ==> Valid() && labels.Keys == Distinct(delegate.value.sectionIndexes)
      ensures delegate.Some? ==>
                var kept := Without(old(arranged), old(labels).Values);
                && |arranged| == |kept| + |delegate.value.sectionIndexes|
                && arranged[..|kept|] == kept
                && Texts(arranged[|kept|..]) == delegate.value.sectionIndexes
                && (forall i :: |kept| <= i < |arranged| ==> fresh(arranged[i]))
                && Unshared(arranged, |kept|)
                && LastMade(labels, delegate.value.sectionIndexes, arranged, |kept|)
    {
      if delegate.None? {
        return;
      }
      SetLabels(delegate.value.sectionIndexes);
    }

    /** One round of that loop: `insert(new:)` for the next title keeps the labels `Loaded`. */
    method InsertNext(index: string, ghost titles: seq<string>, ghost kept: seq<Label>, ghost added: seq<Label>)
      returns (ghost made: Label)
      requires arranged == kept + added && Loaded(labels, titles, added)
      modifies this`labels, this`arranged
      ensures fresh(made)
      ensures arranged == kept + (added + [made])
      ensures Loaded(labels, titles + [index], added + [made])
    {
      LoadedAfter(labels, titles, kept, added);
      Insert(index);
      made := labels[index];
      InsertStep(old(labels), titles, added, index, made);
      SnocAfter(kept, added, made);
    }

    /**
      `insert(new:)`: a new label for the title replaces any entry with that
      key and is appended to the stack; the replaced label stays in the stack.
     */
    method Insert(index: string)
      requires Valid()
      modifies this`labels, this`arranged
      ensures Valid()
      ensures index in labels && fresh(labels[index]) && labels[index].text == index
      ensures labels == old(labels)[index := labels[index]]
      ensures arranged == old(arranged) + [labels[index]]
    {
      var made := new Label(index);
      labels := labels[index := made];
      arranged := arranged + [made];
    }

    /**
      `remove(index:)`: for an unknown title, nothing changes and the answer is
      nil; otherwise the label leaves the stack and the dictionary and is returned.
     */
    method Remove(index: string) returns (removed: Option<Label>)
      requires Valid()
      modifies this`labels, this`arranged
      ensures Valid()
      ensures index !in old(labels) ==>
                removed == None && labels == old(labels) && arranged == old(arranged)
      ensures index in old(labels) ==>
                && removed == Some(old(labels)[index])
                && labels == old(labels) - {index}
                && arranged == Without(old(arranged), {old(labels)[index]})
    {
      if index !in labels {
        return None;
      }
      var target := labels[index];
      arranged := Without(arranged, {target});
      labels := labels - {index};
      removed := Some(target);
      forall k | k in labels
        ensures labels[k] in arranged
      {
        var i :| 0 <= i < |old(arranged)| && old(arranged)[i] == labels[k];
        assert labels[k].text != target.text;
      }
    }

    /** `show(completion:)`: ignored while dragged, and then the completion is not called either. */
    method Show() returns (completed: bool)
      modifies this`alpha
      ensures completed == !old(isDragging)
      ensures alpha == if completed then 1.0 else old(alpha)
    {
      if isDragging {
        return false;
      }
      alpha := 1.0;
      return true;
    }

    /** `hide(completion:)`: ignored while dragged; otherwise fades to alpha 0.02. */
    method Hide() returns (completed: bool)
      modifies this`alpha
      ensures completed == !old(isDragging)
      ensures alpha == if completed then HiddenAlpha else old(alpha)
    {
      if isDragging {
        return false;
      }
      alpha := HiddenAlpha;
      return true;
    }

    /** `flash(delay:duration:)`: schedules a show after the delay. */
    method Flash()
      modifies this`pendingShows
      ensures pendingShows == old(pendingShows) + 1
    {
      pendingShows := pendingShows + 1;
    }

    /**
      The flash's delayed show runs: when the view is dragged, `show` returns
      without its completion and no hide is ever scheduled.
     */
    method FlashShowFired()
      requires pendingShows > 0
      modifies this`pendingShows, this`pendingHides, this`alpha
      ensures pendingShows == old(pendingShows) - 1
      ensures old(isDragging) ==> alpha == old(alpha) && pendingHides == old(pendingHides)
      ensures !old(isDragging) ==> alpha == 1.0 && pendingHides == old(pendingHides) + 1
    {
      pendingShows := pendingShows - 1;
      var completed := Show();
      if completed {
        pendingHides := pendingHides + 1;
      }
    }

    /** The flash's delayed hide runs: an ordinary `hide`, so it is ignored while dragged. */
    method FlashHideFired()
      requires pendingHides > 0
      modifies this`pendingHides, this`alpha
      ensures pendingHides == old(pendingHides) - 1
      ensures alpha == if old(isDragging) then old(alpha) else HiddenAlpha
    {
      pendingHides := pendingHides - 1;
      var _ := Hide();
    }

    /** What `scrollToIndex` reports for a bucket and fraction: nothing without a delegate. */
    function Report(index: nat, percent: real): Option<IndexPath>
      reads this`delegate, this`labels, this`shouldScrollToFirstItemInSection
      requires percent >= 0.0
    {
      if delegate.None? then None
      else Mapper.Target(delegate.value.itemCount, index, percent, |labels|, shouldScrollToFirstItemInSection)
    }

    /**
      The effect of one report: nothing for `None`; otherwise the delegate hears
      the path, and the current section moves and the device vibrates only
      when the section changed.
     */
    twostate predicate Applied(t: Option<IndexPath>)
      reads this
    {
      && (t.None? ==>
            && currentIndexSection == old(currentIndexSection)
            && hapticPulses == old(hapticPulses)
            && changes == old(changes))
      && (t.Some? ==>
            && (t.value.section != old(currentIndexSection) ==>
                  currentIndexSection == t.value.section && hapticPulses == old(hapticPulses) + 1)
            && (t.value.section == old(currentIndexSection) ==>
                  currentIndexSection == old(currentIndexSection) && hapticPulses == old(hapticPulses))
            && changes == old(changes) + [t.value])
    }

    /** `scrollToIndex(_:percentInSection:)`. */
    method ScrollToIndex(index: nat, percent: real)
      requires percent >= 0.0
      modifies this`currentIndexSection, this`hapticPulses, this`changes
      ensures Applied(old(Report(index, percent)))
    {
      if delegate.None? {
        return;
      }
      var host := delegate.value;
      var count := |labels|;
      var section, rows, row := Mapper.ResolveSection(host.itemCount, index, percent, count);
      Mapper.TargetOfResolved(host.itemCount, index, percent, count, shouldScrollToFirstItemInSection,
                              section, rows, row);
      assert old(Report(index, percent)) ==
             Mapper.Target(host.itemCount, index, percent, count, shouldScrollToFirstItemInSection);
      if rows != 0 && row < rows {
        Present(IndexPath(if shouldScrollToFirstItemInSection then 0 else row, section));
      }
    }

    /** The reporting half of `scrollToIndex`, once the path is known. */
    method Present(path: IndexPath)
      modifies this`currentIndexSection, this`hapticPulses, this`changes
      ensures Applied(Some(path))
    {
      if path.section != currentIndexSection {
        currentIndexSection := path.section;
        hapticPulses := hapticPulses + 1;
      }
      changes := changes + [path];
    }

    /** The report a move to `pointY` produces; the bucket count is the number of distinct titles. */
    function MoveReport(pointY: real, height: real): Option<IndexPath>
      reads this`delegate, this`labels, this`shouldScrollToFirstItemInSection
      requires height > 0.0
    {
      Report(BucketIndex(pointY, height, |labels|), PercentInSection(pointY, height, |labels|))
    }

    /**
      `handleGesture(_:)`: `began` shows the view and then marks it dragged;
      `changed` maps the position (even with no labels, when the only bucket
      is section 0); every other state clears the drag flag and hides the view.
     */
    method HandleGesture(state: GestureState, pointY: real, height: real)
      requires state == Changed ==> height > 0.0
      modifies this`isDragging, this`alpha, this`currentIndexSection, this`hapticPulses, this`changes
      ensures state == Began ==> (
                && isDragging
                && alpha == (if old(isDragging) then old(alpha) else 1.0)
                && currentIndexSection == old(currentIndexSection) && hapticPulses == old(hapticPulses)
                && changes == old(changes))
      ensures state == Changed ==> (
                && Applied(old(MoveReport(pointY, height)))
                && isDragging == old(isDragging) && alpha == old(alpha))
      ensures state != Began && state != Changed ==> (
                && !isDragging && alpha == HiddenAlpha
                && currentIndexSection == old(currentIndexSection) && hapticPulses == old(hapticPulses)
                && changes == old(changes))
    {
      match state {
        case Began =>
          var _ := Show();
          isDragging := true;
        case Changed =>
          var index := BucketIndex(pointY, height, |labels|);
          var percent := PercentInSection(pointY, height, |labels|);
          ScrollToIndex(index, percent);
        case _ =>
          isDragging := false;
          var _ := Hide();
      }
    }
  }

  /**
    A flash whose delayed show runs during a drag never hides the view: the
    show is dropped together with its completion, so no hide is scheduled.
   */
  method FlashShowDuringDrag(host: Host) returns (hidesScheduled: nat, duringDrag: real, afterDrag: real)
    ensures hidesScheduled == 0 && duringDrag == 1.0 && afterDrag == HiddenAlpha
  {
    var v := new IndexView(host);
    v.Flash();
    v.HandleGesture(Began, 0.0, 1.0);
    v.FlashShowFired();
    hidesScheduled, duringDrag := v.pendingHides, v.alpha;
    v.HandleGesture(Ended, 0.0, 1.0);
    afterDrag := v.alpha;
  }

  /** A view over the titles "A", "B", "A": three different labels, with "A" keyed to the last. */
  method BuildRepeated(itemCount: nat -> nat) returns (v: IndexView)
    ensures fresh(v) && v.Valid()
    ensures |v.arranged| == 3 && Texts(v.arranged) == ["A", "B", "A"]
    ensures v.arranged[2] != v.arranged[0] && v.arranged[2] != v.arranged[1]
    ensures v.labels.Keys == {"A", "B"} && v.labels["A"] == v.arranged[2]
  {
    var titles := ["A", "B", "A"];
    v := new IndexView(Host(itemCount, titles));
    assert LastIndex(titles, "A") == 2;
    assert Distinct(titles) == {"A", "B"};
  }

  /**
    Removing a title given twice takes out only the label made for its last
    occurrence: the first "A" label stays in the stack, above "B", and the
    touch surface keeps one bucket for "B".
   */
  method RemoveRepeatedTitle(itemCount: nat -> nat) returns (buckets: nat, shown: seq<string>)
    ensures buckets == 1 && shown == ["A", "B"]
  {
    var v := BuildRepeated(itemCount);
    var first, second, last := v.arranged[0], v.arranged[1], v.arranged[2];
    assert v.arranged == [first, second] + [last];
    var removed := v.Remove("A");
    WithoutAppend([first, second], [last], {last});
    assert v.arranged == [first, second];
    assert v.labels.Keys == {"B"};
    buckets, shown := |v.labels|, Texts(v.arranged);
  }
}
