/**
  The demo app's table controller (`AWIndexViewExample/ViewController.swift`):
  it groups a list of names by their first character into a dictionary of
  sections, orders the section titles case-insensitively, and answers the
  table's and the index view's questions by looking a title up in that
  dictionary. A title without a group (the "KUPA" the controller appends after
  a delay) has 0 rows: that lookup is what gives the index view empty sections
  to skip.

  A name's first `Character` is modelled as its first `char`, `lowercased()`
  as ASCII lowering, and `String`'s `<` as lexicographic order of characters.
 */
module DemoViewController {
  import opened Labels

  // ---------------------------------------------------------------------------
  // Grouping by first character

  lemma SplitLast<T>(s: seq<T>)
    requires s != []
    ensures s == s[..|s| - 1] + [s[|s| - 1]]
  {
  }

  lemma MultisetSplitLast<T>(s: seq<T>)
    requires s != []
    ensures multiset(s) == multiset(s[..|s| - 1]) + multiset{s[|s| - 1]}
  {
    SplitLast(s);
  }

  /** `String(name.first!)`: the key of a non-empty name's group. */
  function Initial(name: string): string
    requires name != []
  {
    name[..1]
  }

  /** The keys `sort()` creates: the initials of the non-empty names. */
  function Initials(names: seq<string>): set<string>
  {
    set n | n in names && n != [] :: Initial(n)
  }

  /** Reference definition of a group: the names with initial `key`, in their input order. */
  function WithInitial(names: seq<string>, key: string): (r: seq<string>)
    ensures |r| <= |names|
  {
    if names == [] then []
    else
      var last := names[|names| - 1];
      WithInitial(names[..|names| - 1], key) + (if last != [] && Initial(last) == key then [last] else [])
  }

  /** Filing one more name extends only its own initial's group, at the end. */
  lemma WithInitialSnoc(names: seq<string>, n: string, key: string)
    ensures WithInitial(names + [n], key) ==
            WithInitial(names, key) + (if n != [] && Initial(n) == key then [n] else [])
  {
    assert (names + [n])[..|names + [n]| - 1] == names;
  }

  lemma InitialsSnoc(names: seq<string>, n: string)
    ensures Initials(names + [n]) == Initials(names) + (if n != [] then {Initial(n)} else {})
  {
    assert forall m :: m in names + [n] <==> m in names || m == n;
  }

  /**
    A group holds every name with that initial exactly as often as `names`
    does, duplicates included, and nothing else.
   */
  lemma {:induction false} WithInitialCounts(names: seq<string>, key: string, n: string)
    ensures multiset(WithInitial(names, key))[n] ==
            if n != [] && Initial(n) == key then multiset(names)[n] else 0
  {
    if names != [] {
      var init, last := names[..|names| - 1], names[|names| - 1];
      WithInitialCounts(init, key, n);
      MultisetSplitLast(names);
      WithInitialSnoc(init, last, key);
      var added := if last != [] && Initial(last) == key then [last] else [];
      assert multiset(WithInitial(names, key)) == multiset(WithInitial(init, key)) + multiset(added);
    }
  }

  /** A key that is not the initial of any name has an empty group; "KUPA" is never an initial. */
  lemma {:induction false} NoGroupWithoutInitial(names: seq<string>, key: string)
    requires key !in Initials(names)
    ensures WithInitial(names, key) == []
  {
    if names != [] {
      var init := names[..|names| - 1];
      assert Initials(init) <= Initials(names) by {
        forall n | n in init ensures n in names {
          assert names == init + [names[|names| - 1]];
        }
      }
      NoGroupWithoutInitial(init, key);
    }
  }

  lemma PlaceholderTitleHasNoGroup(names: seq<string>)
    ensures "KUPA" !in Initials(names)
    ensures WithInitial(names, "KUPA") == []
  {
    NoGroupWithoutInitial(names, "KUPA");
  }

  /** One step of `sort()`'s loop: an empty name is skipped; otherwise it starts or extends its initial's group. */
  function AddName(sections: map<string, seq<string>>, name: string): map<string, seq<string>>
  {
    if name == [] then sections
    else if Initial(name) !in sections then sections[Initial(name) := [name]]
    else sections[Initial(name) := sections[Initial(name)] + [name]]
  }

  /** The dictionary `sort()`'s loop builds from an empty one, name by name. */
  function Group(names: seq<string>): map<string, seq<string>>
  {
    if names == [] then map[] else AddName(Group(names[..|names| - 1]), names[|names| - 1])
  }

  /**
    The loop groups by initial: its keys are the initials of the non-empty
    names, and each group holds the names with that initial in input order.
   */
  lemma {:induction false} GroupIsByInitial(names: seq<string>)
    ensures Group(names).Keys == Initials(names)
    ensures forall k :: k in Group(names) ==> Group(names)[k] == WithInitial(names, k)
  {
    if names != [] {
      var init, last := names[..|names| - 1], names[|names| - 1];
      SplitLast(names);
      GroupIsByInitial(init);
      InitialsSnoc(init, last);
      var before := Group(init);
      forall k | k in Group(names) ensures Group(names)[k] == WithInitial(names, k) {
        WithInitialSnoc(init, last, k);
        if last == [] || k != Initial(last) {
          assert Group(names)[k] == before[k];
        } else if k !in before {
          NoGroupWithoutInitial(init, k);
        }
      }
    }
  }

  /** The names that `sort()` files under some key: all but the empty ones. */
  function NonEmpty(names: seq<string>): (r: seq<string>)
    ensures |r| <= |names|
    ensures forall n :: multiset(r)[n] == if n == [] then 0 else multiset(names)[n]
  {
    if names == [] then []
    else
      var init, last := names[..|names| - 1], names[|names| - 1];
      MultisetSplitLast(names);
      NonEmpty(init) + (if last != [] then [last] else [])
  }

  /** The sum of the group sizes of `titles`. */
  function GroupSizes(names: seq<string>, titles: seq<string>): nat
  {
    if titles == [] then 0
    else |WithInitial(names, titles[0])| + GroupSizes(names, titles[1..])
  }

  /** Filing one more name adds one row to each title that is its initial. */
  lemma {:induction false} GroupSizesStep(names: seq<string>, n: string, titles: seq<string>)
    ensures GroupSizes(names + [n], titles) ==
            GroupSizes(names, titles) + (if n != [] then multiset(titles)[Initial(n)] else 0)
  {
    assert (names + [n])[..|names + [n]| - 1] == names;
    if titles != [] {
      GroupSizesStep(names, n, titles[1..]);
      assert titles == [titles[0]] + titles[1..];
      assert multiset(titles) == multiset{titles[0]} + multiset(titles[1..]);
    }
  }

  /**
    When every initial is listed exactly once among the titles, the rows of all
    the sections add up to the number of non-empty names; titles without a
    group add nothing.
   */
  lemma {:induction false} TotalRows(names: seq<string>, titles: seq<string>)
    requires forall k :: k in Initials(names) ==> multiset(titles)[k] == 1
    ensures GroupSizes(names, titles) == |NonEmpty(names)|
  {
    if names == [] {
      ZeroGroups(names, titles);
    } else {
      var init, last := names[..|names| - 1], names[|names| - 1];
      SplitLast(names);
      assert Initials(init) <= Initials(names);
      TotalRows(init, titles);
      GroupSizesStep(init, last, titles);
      if last != [] {
        assert Initial(last) in Initials(names);
      }
    }
  }

  lemma {:induction false} ZeroGroups(names: seq<string>, titles: seq<string>)
    requires names == []
    ensures GroupSizes(names, titles) == 0
  {
    if titles != [] {
      ZeroGroups(names, titles[1..]);
    }
  }

  // ---------------------------------------------------------------------------
  // Case-insensitive ordering of the titles

  function LowerChar(c: char): char
  {
    if 'A' <= c <= 'Z' then (c as int + 32) as char else c
  }

  /** `lowercased()`, restricted to ASCII letters. */
  function Lower(s: string): string
  {
    seq(|s|, i requires 0 <= i < |s| => LowerChar(s[i]))
  }

  /** `String`'s `<`: lexicographic order, a proper prefix first. */
  predicate Less(a: string, b: string)
  {
    if a == [] then b != []
    else if b == [] then false
    else a[0] < b[0] || (a[0] == b[0] && Less(a[1..], b[1..]))
  }

  lemma {:induction false} LessIrreflexive(a: string)
    ensures !Less(a, a)
  {
    if a != [] {
      LessIrreflexive(a[1..]);
    }
  }

  lemma {:induction false} LessTransitive(a: string, b: string, c: string)
    requires Less(a, b) && Less(b, c)
    ensures Less(a, c)
  {
    if a != [] && b != [] && c != [] && a[0] == b[0] == c[0] {
      LessTransitive(a[1..], b[1..], c[1..]);
    }
  }

  lemma {:induction false} LessTotal(a: string, b: string)
    ensures a == b || Less(a, b) || Less(b, a)
  {
    if a != [] && b != [] && a[0] == b[0] {
      LessTotal(a[1..], b[1..]);
      if a[1..] == b[1..] {
        assert a == [a[0]] + a[1..] && b == [b[0]] + b[1..];
      }
    }
  }

  /** The comparator given to `sorted(by:)`. */
  predicate Before(x: string, y: string)
  {
    Less(Lower(x), Lower(y))
  }

  /** What `sorted(by:)` promises: no title comes after one that the comparator puts after it. */
  predicate SortedByLowercase(s: seq<string>)
  {
    forall i, j :: 0 <= i < j < |s| ==> !Before(s[j], s[i])
  }

  /** Places `x` in front of the first title that the comparator puts after it. */
  function InsertTitle(x: string, s: seq<string>): (r: seq<string>)
    requires SortedByLowercase(s)
    ensures multiset(r) == multiset(s) + multiset{x}
    ensures SortedByLowercase(r)
  {
    if s == [] then [x]
    else if Before(x, s[0]) then
      InsertFront(x, s);
      [x] + s
    else
      assert s == [s[0]] + s[1..];
      var rest := InsertTitle(x, s[1..]);
      InsertBehind(s[0], x, s[1..], rest);
      [s[0]] + rest
  }

  /** A title the comparator puts before the first of a sorted sequence may go in front of it. */
  lemma InsertFront(x: string, s: seq<string>)
    requires SortedByLowercase(s) && s != [] && Before(x, s[0])
    ensures SortedByLowercase([x] + s)
  {
    forall j | 0 <= j < |s| ensures !Before(s[j], x) {
      if Before(s[j], x) {
        LessTransitive(Lower(s[j]), Lower(x), Lower(s[0]));
        LessIrreflexive(Lower(s[0]));
      }
    }
    var r := [x] + s;
    forall i, j | 0 <= i < j < |r| ensures !Before(r[j], r[i]) {
      if i > 0 {
        assert r[i] == s[i - 1] && r[j] == s[j - 1];
      } else {
        assert r[j] == s[j - 1];
      }
    }
  }

  /** A head that no title of a sorted `rest` comes before keeps `[head] + rest` sorted. */
  lemma InsertBehind(head: string, x: string, tail: seq<string>, rest: seq<string>)
    requires SortedByLowercase([head] + tail) && !Before(x, head)
    requires SortedByLowercase(rest) && multiset(rest) == multiset(tail) + multiset{x}
    ensures SortedByLowercase([head] + rest)
  {
    forall e | e in rest ensures !Before(e, head) {
      assert multiset(rest)[e] > 0;
      if e != x {
        assert multiset(tail)[e] > 0;
        assert e in tail;
        var k :| 0 <= k < |tail| && tail[k] == e;
        var s := [head] + tail;
        assert s[0] == head && s[k + 1] == e;
      }
    }
    var r := [head] + rest;
    forall i, j | 0 <= i < j < |r| ensures !Before(r[j], r[i]) {
      if i > 0 {
        assert r[i] == rest[i - 1] && r[j] == rest[j - 1];
      } else {
        assert r[j] == rest[j - 1];
        assert r[j] in rest;
      }
    }
  }

  /** `sorted(by: { $0.lowercased() < $1.lowercased() })`, as an insertion sort. */
  function SortTitles(s: seq<string>): (r: seq<string>)
    ensures multiset(r) == multiset(s)
    ensures SortedByLowercase(r)
  {
    if s == [] then []
    else
      assert s == [s[0]] + s[1..];
      InsertTitle(s[0], SortTitles(s[1..]))
  }

  /** In a sorted sequence, titles stand in non-decreasing order of their lowercased forms. */
  lemma SortedIsNonDecreasing(s: seq<string>, i: nat, j: nat)
    requires SortedByLowercase(s) && i < j < |s|
    ensures Lower(s[i]) == Lower(s[j]) || Less(Lower(s[i]), Lower(s[j]))
  {
    LessTotal(Lower(s[i]), Lower(s[j]));
  }

  /**
    The order is determined by the titles alone when lowercasing keeps them
    apart: two sorted sequences of the same titles are equal.
   */
  lemma {:induction false} SortedIsUnique(a: seq<string>, b: seq<string>)
    requires SortedByLowercase(a) && SortedByLowercase(b)
    requires multiset(a) == multiset(b)
    requires forall x, y :: x in a && y in a && Lower(x) == Lower(y) ==> x == y
    ensures a == b
  {
    if a != [] {
      assert |b| == |multiset(b)| == |a|;
      SameFirst(a, b);
      SortedTail(a);
      SortedTail(b);
      SameTailElements(a, b);
      assert forall x :: x in a[1..] ==> x in a;
      SortedIsUnique(a[1..], b[1..]);
      assert a == [a[0]] + a[1..] && b == [b[0]] + b[1..];
    }
  }

  /** Two sorted sequences of the same titles start with the same title, when lowercasing keeps them apart. */
  lemma SameFirst(a: seq<string>, b: seq<string>)
    requires SortedByLowercase(a) && SortedByLowercase(b)
    requires multiset(a) == multiset(b) && a != [] && b != []
    requires forall x, y :: x in a && y in a && Lower(x) == Lower(y) ==> x == y
    ensures a[0] == b[0]
  {
    assert a[0] in multiset(b) && b[0] in multiset(a);
    var j :| 0 <= j < |b| && b[j] == a[0];
    var i :| 0 <= i < |a| && a[i] == b[0];
    var la, lb := Lower(a[0]), Lower(b[0]);
    if i != 0 {
      SortedIsNonDecreasing(a, 0, i);
    }
    if j != 0 {
      SortedIsNonDecreasing(b, 0, j);
    }
    if Less(la, lb) && Less(lb, la) {
      LessTransitive(la, lb, la);
      LessIrreflexive(la);
    }
    assert la == lb;
  }

  lemma SortedTail(a: seq<string>)
    requires SortedByLowercase(a) && a != []
    ensures SortedByLowercase(a[1..])
  {
    forall i, j | 0 <= i < j < |a| - 1 ensures !Before(a[1..][j], a[1..][i]) {
      assert a[1..][j] == a[j + 1] && a[1..][i] == a[i + 1];
    }
  }

  lemma SameTailElements(a: seq<string>, b: seq<string>)
    requires multiset(a) == multiset(b) && a != [] && b != [] && a[0] == b[0]
    ensures multiset(a[1..]) == multiset(b[1..])
  {
    assert a == [a[0]] + a[1..] && b == [b[0]] + b[1..];
    assert multiset(a) == multiset{a[0]} + multiset(a[1..]);
    assert multiset(b) == multiset{b[0]} + multiset(b[1..]);
    forall t ensures multiset(a[1..])[t] == multiset(b[1..])[t] {
      assert multiset(a)[t] == multiset(b)[t];
    }
  }

  // ---------------------------------------------------------------------------
  // The controller

  lemma SubsetAtMost<T>(a: set<T>, b: set<T>)
    requires a <= b
    ensures |a| <= |b|
  {
    assert b == a + (b - a);
  }

  /** The key of `sort()`'s `sections` dictionary for a title, or 0 rows without one. */
  function GroupSize(sections: map<string, seq<string>>, title: string): nat
  {
    if title in sections then |sections[title]| else 0
  }

  class ViewController {
    var names: seq<string>
    var sections: map<string, seq<string>>
    var sectionTitles: seq<string>

    /** `sections` is the grouping of `names`: one key per initial, holding that initial's names in order. */
    ghost predicate Grouped()
      reads this`names, this`sections
    {
      && sections.Keys == Initials(names)
      && forall k :: k in sections ==> sections[k] == WithInitial(names, k)
    }

    /** Every key of `sections` is listed exactly once among the titles. */
    ghost predicate TitlesCoverKeys()
      reads this`sections, this`sectionTitles
    {
      forall k :: k in sections ==> multiset(sectionTitles)[k] == 1
    }

    /** The controller before `viewDidLoad`: no sections and no titles yet. */
    constructor (names: seq<string>)
      ensures this.names == names && sections == map[] && sectionTitles == []
    {
      this.names := names;
      sections := map[];
      sectionTitles := [];
    }

    /**
      `sort()`: groups the names by initial, skipping empty names, then lists
      the keys once each in case-insensitive order.
     */
    method Sort()
      modifies this`sections, this`sectionTitles
      ensures sections == Group(names)
      ensures Grouped()
      ensures forall t :: multiset(sectionTitles)[t] == if t in sections then 1 else 0
      ensures SortedByLowercase(sectionTitles)
    {
      GroupNames();
      var keys := KeyList(sections.Keys);
      sectionTitles := SortTitles(keys);
    }

    /** The loop of `sort()`: empties `sections`, then files each non-empty name under its initial. */
    method GroupNames()
      modifies this`sections
      ensures sections == Group(names)
      ensures Grouped()
    {
      sections := map[];
      for i := 0 to |names|
        invariant sections == Group(names[..i])
      {
        var name := names[i];
        assert names[..i + 1][..i] == names[..i];
        if name == [] {
          continue;
        }
        var firstLetter := name[..1];
        if firstLetter !in sections {
          sections := sections[firstLetter := [name]];
        } else {
          sections := sections[firstLetter := sections[firstLetter] + [name]];
        }
      }
      assert names[..|names|] == names;
      GroupIsByInitial(names);
    }

    /** The delayed block of `viewDidLoad`: a title with no group is appended. */
    method AppendPlaceholderTitle()
      requires Grouped() && TitlesCoverKeys()
      modifies this`sectionTitles
      ensures sectionTitles == old(sectionTitles) + ["KUPA"]
      ensures Grouped() && TitlesCoverKeys()
      ensures NumberOfRows(|sectionTitles| - 1) == 0
    {
      PlaceholderTitleHasNoGroup(names);
      sectionTitles := sectionTitles + ["KUPA"];
    }

    /**
      `numberOfSections(in:)`; the titles are also the index view's
      `sectionIndexes`. When every key is listed, no group lacks a section.
     */
    function NumberOfSections(): (n: nat)
      reads this`sections, this`sectionTitles
      ensures (forall k :: k in sections ==> k in sectionTitles) ==> |sections| <= n
    {
      assert (forall k :: k in sections ==> k in sectionTitles) ==> |sections| <= |sectionTitles| by {
        if forall k :: k in sections ==> k in sectionTitles {
          SubsetAtMost(sections.Keys, Distinct(sectionTitles));
          DistinctAtMostLength(sectionTitles);
        }
      }
      |sectionTitles|
    }

    /**
      `numberOfItems(in:)` and `tableView(_:numberOfRowsInSection:)`: the size
      of the title's group, or 0 when the title has none; once the names are
      grouped, that is the number of names whose initial is the title,
      placeholder titles included. An index past the titles traps.
     */
    function NumberOfRows(section: nat): (rows: nat)
      reads this`names, this`sections, this`sectionTitles
      requires section < |sectionTitles|
      ensures Grouped() ==> rows == |WithInitial(names, sectionTitles[section])|
    {
      if sectionTitles[section] !in sections then
        assert Grouped() ==> WithInitial(names, sectionTitles[section]) == [] by {
          if Grouped() {
            NoGroupWithoutInitial(names, sectionTitles[section]);
          }
        }
        0
      else
        |sections[sectionTitles[section]]|
    }

    /** The rows of all sections add up to the number of non-empty names. */
    lemma AllRowsAreNames()
      requires Grouped() && TitlesCoverKeys()
      ensures SumOfRows(0) == |NonEmpty(names)|
    {
      SumOfRowsIsGroupSizes(0);
      TotalRows(names, sectionTitles);
    }

    /** `NumberOfRows` summed over the sections from `from` on. */
    ghost function SumOfRows(from: nat): nat
      reads this
      requires from <= |sectionTitles|
      decreases |sectionTitles| - from
    {
      if from == |sectionTitles| then 0 else NumberOfRows(from) + SumOfRows(from + 1)
    }

    lemma {:induction false} SumOfRowsIsGroupSizes(from: nat)
      requires Grouped() && from <= |sectionTitles|
      ensures SumOfRows(from) == GroupSizes(names, sectionTitles[from..])
      decreases |sectionTitles| - from
    {
      if from < |sectionTitles| {
        SumOfRowsIsGroupSizes(from + 1);
        assert sectionTitles[from..][1..] == sectionTitles[from + 1..];
      }
    }

    /**
      What the index view sees of this controller as its delegate: the titles
      as `sectionIndexes`, and the row counts as `numberOfItems(in:)`. A
      section past the titles traps in the controller; here it answers 0. The
      dictionary copies ask for section 0 even with no labels, so with no
      titles the app traps where this host reports nothing.
     */
    function AsHost(): (host: Host)
      reads this`names, this`sections, this`sectionTitles
      ensures host.sectionIndexes == sectionTitles
      ensures forall s: nat :: s < |sectionTitles| ==> host.itemCount(s) == NumberOfRows(s)
    {
      var sections, titles := this.sections, sectionTitles;
      Host((s: nat) => if s < |titles| then GroupSize(sections, titles[s]) else 0, titles)
    }

    /**
      After `sort()`, and after the placeholder title is appended, the titles
      are distinct, so an index view built on this controller has one bucket
      per table section.
     */
    lemma BucketsMatchSections()
      requires TitlesCoverKeys()
      requires forall t :: t !in sections ==> multiset(sectionTitles)[t] <= 1
      ensures |Distinct(sectionTitles)| == NumberOfSections()
    {
      forall t ensures multiset(sectionTitles)[t] <= 1 {
        if t in sections {
          assert multiset(sectionTitles)[t] == 1;
        }
      }
      DistinctOfUnique(sectionTitles);
    }
  }

  /** `[String](sections.keys)`: every key once, in the dictionary's own (unspecified) order. */
  method KeyList(keys: set<string>) returns (r: seq<string>)
    ensures forall t :: multiset(r)[t] == if t in keys then 1 else 0
  {
    r := [];
    var todo := keys;
    while todo != {}
      invariant todo <= keys
      invariant forall t :: multiset(r)[t] == if t in keys - todo then 1 else 0
      decreases todo
    {
      var k :| k in todo;
      r := r + [k];
      todo := todo - {k};
    }
  }

  /** Two title lists that each hold every key of `sections` exactly once hold the same titles. */
  lemma SameKeyTitles(a: seq<string>, b: seq<string>, sections: map<string, seq<string>>)
    requires forall t :: multiset(a)[t] == if t in sections then 1 else 0
    requires forall t :: multiset(b)[t] == if t in sections then 1 else 0
    ensures multiset(a) == multiset(b)
  {
    forall t ensures multiset(a)[t] == multiset(b)[t] {
    }
  }

  /**
    Running `sort()` again on the same names gives the same sections and, when
    lowercasing keeps the titles apart, the same titles in the same order.
   */
  method SortTwice(names: seq<string>)
    returns (firstSections: map<string, seq<string>>, secondSections: map<string, seq<string>>,
             firstTitles: seq<string>, secondTitles: seq<string>)
    ensures secondSections == firstSections
    ensures multiset(secondTitles) == multiset(firstTitles)
    ensures (forall x, y :: x in firstTitles && y in firstTitles && Lower(x) == Lower(y) ==> x == y) ==>
              secondTitles == firstTitles
  {
    var vc := new ViewController(names);
    vc.Sort();
    firstSections, firstTitles := vc.sections, vc.sectionTitles;
    vc.Sort();
    secondSections, secondTitles := vc.sections, vc.sectionTitles;
    SameKeyTitles(firstTitles, secondTitles, firstSections);
    if forall x, y :: x in firstTitles && y in firstTitles && Lower(x) == Lower(y) ==> x == y {
      SortedIsUnique(firstTitles, secondTitles);
    }
  }
}
