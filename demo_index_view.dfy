/**
  The index view of the demo app (`AWIndexViewExample/AWIndexView.swift`), the
  earliest of the three copies. It keeps its labels in a `[String: UILabel]`
  dictionary like the example app's copy, but has no drag flag and no
  visibility state: every tap or pan event, whatever its state, maps the touch
  and may report. Its `vibrate()` only makes and prepares a feedback generator,
  so no pulse is ever emitted; the model counts the calls.
 */
module DemoIndexView {
  import opened IndexMath
  import Mapper
  import opened Labels

  class IndexView {
    /** A weak reference: `None` once the host is gone. */
    var delegate: Option<Host>
    var labels: map<string, Label>
    /** `stackView.arrangedSubviews`, top to bottom. */
    var arranged: seq<Label>
    var shouldScrollToFirstItemInSection: bool
    /** The section of the last report that changed section; starts at 0. */
    var currentIndexSection: nat
    /** Calls of `vibrate()`; each prepares a fresh generator and emits nothing. */
    var preparedGenerators: nat
    /** The paths passed to the delegate's `indexViewChanged(indexPath:)`. */
    var changes: seq<IndexPath>

    /** Each dictionary entry is a label showing its own key, and it is in the stack. */
    ghost predicate Valid()
      reads this
    {
      forall k :: k in labels ==> labels[k].text == k && labels[k] in arranged
    }

    /** `init(delegate:)`: one label per title of the delegate, in order. */
    constructor (delegate: Host)
      ensures Valid()
      ensures this.delegate == Some(delegate)
      ensures labels.Keys == Distinct(delegate.sectionIndexes)
      ensures Texts(arranged) == delegate.sectionIndexes
      ensures forall i :: 0 <= i < |arranged| ==> fresh(arranged[i])
      ensures Unshared(arranged, 0) && LastMade(labels, delegate.sectionIndexes, arranged, 0)
      ensures !shouldScrollToFirstItemInSection
      ensures currentIndexSection == 0 && preparedGenerators == 0 && changes == []
    {
      this.delegate := Some(delegate);
      labels := map[];
      arranged := [];
      shouldScrollToFirstItemInSection := false;
      currentIndexSection := 0;
      preparedGenerators := 0;
      changes := [];
      new;
      SetLabels(delegate.sectionIndexes);
    }

    /**
      `setLabels(with:)`: empties the dictionary and inserts one label per
      title. The labels already in the stack are not taken out of it.
     */
    method SetLabels(indexes: seq<string>)
      modifies this`labels, this`arranged
      ensures Valid()
      ensures labels.Keys == Distinct(indexes)
      ensures |arranged| == |old(arranged)| + |indexes|
      ensures arranged[..|old(arranged)|] == old(arranged)
      ensures Texts(arranged[|old(arranged)|..]) == indexes
      ensures forall i :: |old(arranged)| <= i < |arranged| ==> fresh(arranged[i])
      ensures Unshared(arranged, |old(arranged)|)
      ensures LastMade(labels, indexes, arranged, |old(arranged)|)
    {
      labels := map[];
      InsertAll(indexes);
    }

    /** The loop of `setLabels(with:)`: `insert(new:)` for every title, into an empty dictionary. */
    method InsertAll(indexes: seq<string>)
      requires labels == map[]
      modifies this`labels, this`arranged
      ensures Valid()
      ensures labels.Keys == Distinct(indexes)
      ensures |arranged| == |old(arranged)| + |indexes|
      ensures arranged[..|old(arranged)|] == old(arranged)
      ensures Texts(arranged[|old(arranged)|..]) == indexes
      ensures forall i :: |old(arranged)| <= i < |arranged| ==> fresh(arranged[i])
      ensures Unshared(arranged, |old(arranged)|)
      ensures LastMade(labels, indexes, arranged, |old(arranged)|)
    {
      var kept := arranged;
      ghost var added: seq<Label> := [];
      for i := 0 to |indexes|
        invariant arranged == kept + added
        invariant Loaded(labels, indexes[..i], added)
        invariant forall j :: 0 <= j < |added| ==> fresh(added[j])
      {
        ghost var made := InsertNext(indexes[i], indexes[..i], kept, added);
        PrefixSnoc(indexes, i);
        added := added + [made];
      }
      assert indexes[..|indexes|] == indexes;
      LoadedAfter(labels, indexes, kept, added);
    }

    /** One round of that loop: `insert(new:)` for the next title keeps the labels `Loaded`. */
    method InsertNext(index: string, ghost titles: seq<string>, ghost kept: seq<Label>, ghost added: seq<Label>)
      returns (ghost made: Label)
      requires arranged == kept + added && Loaded(labels, titles, added)
      modifies this`labels, this`arranged
      ensures fresh(made)
      ensures arranged == kept + (added + [made])
      ensures Loaded(labels, titles + [index], added + [made])
    {
      LoadedAfter(labels, titles, kept, added);
      Insert(index);
      made := labels[index];
      InsertStep(old(labels), titles, added, index, made);
      SnocAfter(kept, added, made);
    }

    /**
      `insert(new:)`: a new label for the title replaces any entry with that
      key and is appended to the stack; the replaced label stays in the stack.
     */
    method Insert(index: string)
      requires Valid()
      modifies this`labels, this`arranged
      ensures Valid()
      ensures index in labels && fresh(labels[index]) && labels[index].text == index
      ensures labels == old(labels)[index := labels[index]]
      ensures arranged == old(arranged) + [labels[index]]
    {
      var made := new Label(index);
      labels := labels[index := made];
      arranged := arranged + [made];
    }

    /**
      `remove(index:)`: for an unknown title, nothing changes and the answer is
      nil; otherwise the label leaves the stack and the dictionary and is returned.
     */
    method Remove(index: string) returns (removed: Option<Label>)
      requires Valid()
      modifies this`labels, this`arranged
      ensures Valid()
      ensures index !in old(labels) ==>
                removed == None && labels == old(labels) && arranged == old(arranged)
      ensures index in old(labels) ==>
                && removed == Some(old(labels)[index])
                && labels == old(labels) - {index}
                && arranged == Without(old(arranged), {old(labels)[index]})
    {
      if index !in labels {
        return None;
      }
      var target := labels[index];
      arranged := Without(arranged, {target});
      labels := labels - {index};
      removed := Some(target);
      forall k | k in labels
        ensures labels[k] in arranged
      {
        var i :| 0 <= i < |old(arranged)| && old(arranged)[i] == labels[k];
        assert labels[k].text != target.text;
      }
    }

    /** What `scrollToIndex` reports for a bucket and fraction: nothing without a delegate. */
    function Report(index: nat, percent: real): Option<IndexPath>
      reads this`delegate, this`labels, this`shouldScrollToFirstItemInSection
      requires percent >= 0.0
    {
      if delegate.None? then None
      else Mapper.Target(delegate.value.itemCount, index, percent, |labels|, shouldScrollToFirstItemInSection)
    }

    /**
      The effect of one report: nothing for `None`; otherwise the delegate hears
      the path, and the current section moves and `vibrate()` is called only
      when the section changed.
     */
    twostate predicate Applied(t: Option<IndexPath>)
      reads this
    {
      && (t.None? ==>
            && currentIndexSection == old(currentIndexSection)
            && preparedGenerators == old(preparedGenerators)
            && changes == old(changes))
      && (t.Some? ==>
            && (t.value.section != old(currentIndexSection) ==>
                  currentIndexSection == t.value.section && preparedGenerators == old(preparedGenerators) + 1)
            && (t.value.section == old(currentIndexSection) ==>
                  currentIndexSection == old(currentIndexSection) && preparedGenerators == old(preparedGenerators))
            && changes == old(changes) + [t.value])
    }

    /** `scrollToIndex(_:percentInSection:)`. */
    method ScrollToIndex(index: nat, percent: real)
      requires percent >= 0.0
      modifies this`currentIndexSection, this`preparedGenerators, this`changes
      ensures Applied(old(Report(index, percent)))
    {
      if delegate.None? {
        return;
      }
      var host := delegate.value;
      var count := |labels|;
      var section, rows, row := Mapper.ResolveSection(host.itemCount, index, percent, count);
      Mapper.TargetOfResolved(host.itemCount, index, percent, count, shouldScrollToFirstItemInSection,
                              section, rows, row);
      assert old(Report(index, percent)) ==
             Mapper.Target(host.itemCount, index, percent, count, shouldScrollToFirstItemInSection);
      if rows != 0 && row < rows {
        Present(IndexPath(if shouldScrollToFirstItemInSection then 0 else row, section));
      }
    }

    /** The reporting half of `scrollToIndex`, once the path is known. */
    method Present(path: IndexPath)
      modifies this`currentIndexSection, this`preparedGenerators, this`changes
      ensures Applied(Some(path))
    {
      if path.section != currentIndexSection {
        currentIndexSection := path.section;
        preparedGenerators := preparedGenerators + 1;
      }
      changes := changes + [path];
    }

    /** The report a touch at `pointY` produces; the bucket count is the number of distinct titles. */
    function TouchReport(pointY: real, height: real): Option<IndexPath>
      reads this`delegate, this`labels, this`shouldScrollToFirstItemInSection
      requires height > 0.0
    {
      Report(BucketIndex(pointY, height, |labels|), PercentInSection(pointY, height, |labels|))
    }

    /** `handleGesture(_:)`: every event, whatever its state, maps the touch and scrolls. */
    method HandleGesture(pointY: real, height: real)
      requires height > 0.0
      modifies this`currentIndexSection, this`preparedGenerators, this`changes
      ensures Applied(old(TouchReport(pointY, height)))
    {
      var index := BucketIndex(pointY, height, |labels|);
      var percent := PercentInSection(pointY, height, |labels|);
      ScrollToIndex(index, percent);
    }
  }

  /**
    A title given twice makes two labels in the stack but one dictionary entry,
    so the touch surface is split into fewer buckets than there are labels.
   */
  method DuplicateTitleExample(itemCount: nat -> nat) returns (buckets: nat, shown: nat)
    ensures buckets == 1 && shown == 2
  {
    var v := new IndexView(Host(itemCount, ["A", "A"]));
    assert v.labels.Keys == {"A"} by {
      assert Distinct(["A", "A"]) == {"A"};
    }
    buckets, shown := |v.labels|, |v.arranged|;
  }

  /** A view over the titles "A", "B", "A": three different labels, with "A" keyed to the last. */
  method BuildRepeated(itemCount: nat -> nat) returns (v: IndexView)
    ensures fresh(v) && v.Valid()
    ensures |v.arranged| == 3 && Texts(v.arranged) == ["A", "B", "A"]
    ensures v.arranged[2] != v.arranged[0] && v.arranged[2] != v.arranged[1]
    ensures v.labels.Keys == {"A", "B"} && v.labels["A"] == v.arranged[2]
  {
    var titles := ["A", "B", "A"];
    v := new IndexView(Host(itemCount, titles));
    assert LastIndex(titles, "A") == 2;
    assert Distinct(titles) == {"A", "B"};
  }

  /**
    Removing a title given twice takes out only the label made for its last
    occurrence: the first "A" label stays in the stack, above "B", and the
    touch surface keeps one bucket for "B".
   */
  method RemoveRepeatedTitle(itemCount: nat -> nat) returns (buckets: nat, shown: seq<string>)
    ensures buckets == 1 && shown == ["A", "B"]
  {
    var v := BuildRepeated(itemCount);
    var first, second, last := v.arranged[0], v.arranged[1], v.arranged[2];
    assert v.arranged == [first, second] + [last];
    var removed := v.Remove("A");
    WithoutAppend([first, second], [last], {last});
    assert v.arranged == [first, second];
    assert v.labels.Keys == {"B"};
    buckets, shown := |v.labels|, Texts(v.arranged);
  }
}
