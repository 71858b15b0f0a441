/**
  The labels of the two dictionary-based index views (the `Example/` copy and
  the `AWIndexViewExample/` copy). A `UILabel` is a reference: it is modelled by
  an object whose only relevant attribute is its text, fixed when it is made.
  The stack view's `arrangedSubviews` is a sequence of such objects.
 */
module Labels {

  /**
    What a dictionary-based view asks its delegate: `numberOfItems(in:)` and
    `sectionIndexes`. The delegate's theme is not modelled.
   */
  datatype Host = Host(itemCount: nat -> nat, sectionIndexes: seq<string>)

  class Label {
    const text: string

    constructor (text: string)
      ensures this.text == text
    {
      this.text := text;
    }
  }

  /** The stack's arranged labels with every label of `gone` taken out, the rest in order. */
  function Without(stack: seq<Label>, gone: set<Label>): (r: seq<Label>)
    ensures forall i :: 0 <= i < |r| ==> r[i] in stack && r[i] !in gone
    ensures forall i :: 0 <= i < |stack| && stack[i] !in gone ==> stack[i] in r
    ensures |r| <= |stack|
  {
    if stack == [] then []
    else if stack[0] in gone then Without(stack[1..], gone)
    else [stack[0]] + Without(stack[1..], gone)
  }

  /** A label taken out no longer appears; any other label appears as often as before. */
  lemma {:induction false} WithoutCount(stack: seq<Label>, gone: set<Label>, x: Label)
    ensures multiset(Without(stack, gone))[x] == if x in gone then 0 else multiset(stack)[x]
  {
    if stack != [] {
      assert stack == [stack[0]] + stack[1..];
      WithoutCount(stack[1..], gone, x);
    }
  }

  /** Taking labels out works piece by piece: each part keeps its survivors, in order. */
  lemma {:induction false} WithoutAppend(a: seq<Label>, b: seq<Label>, gone: set<Label>)
    ensures Without(a + b, gone) == Without(a, gone) + Without(b, gone)
  {
    if a == [] {
      assert a + b == b;
    } else {
      assert (a + b)[0] == a[0];
      assert (a + b)[1..] == a[1..] + b;
      WithoutAppend(a[1..], b, gone);
    }
  }

  /** Taking labels out one set after another is taking out their union. */
  lemma {:induction false} WithoutTwice(stack: seq<Label>, a: set<Label>, b: set<Label>)
    ensures Without(Without(stack, a), b) == Without(stack, a + b)
  {
    if stack != [] {
      WithoutTwice(stack[1..], a, b);
    }
  }

  /** Removing nothing leaves the stack as it was. */
  lemma {:induction false} WithoutNothing(stack: seq<Label>)
    ensures Without(stack, {}) == stack
  {
    if stack != [] {
      WithoutNothing(stack[1..]);
    }
  }

  /**
    `labels.updateValue(_:forKey:)` on a `[String: UILabel]` adds an entry only
    for a new key; for a known key the count stays the same.
   */
  lemma UpdateCount(labels: map<string, Label>, key: string, l: Label)
    ensures |labels[key := l]| == if key in labels then |labels| else |labels| + 1
  {
    if key in labels {
      assert labels[key := l].Keys == labels.Keys;
    } else {
      assert labels[key := l].Keys == labels.Keys + {key};
    }
  }

  /** The texts of a run of labels, in order. */
  function Texts(stack: seq<Label>): (r: seq<string>)
    ensures |r| == |stack|
    ensures forall i :: 0 <= i < |stack| ==> r[i] == stack[i].text
  {
    if stack == [] then [] else [stack[0].text] + Texts(stack[1..])
  }

  lemma TextsSnoc(stack: seq<Label>, l: Label)
    ensures Texts(stack + [l]) == Texts(stack) + [l.text]
  {
  }

  lemma SnocAfter<T>(a: seq<T>, b: seq<T>, x: T)
    ensures (a + b) + [x] == a + (b + [x])
  {
  }

  lemma PrefixSnoc<T>(s: seq<T>, i: nat)
    requires i < |s|
    ensures s[..i + 1] == s[..i] + [s[i]]
  {
  }

  /** The distinct titles among `indexes`: the keys a `[String: UILabel]` ends up with. */
  function Distinct(indexes: seq<string>): set<string>
  {
    set t | t in indexes
  }

  lemma DistinctSnoc(indexes: seq<string>, t: string)
    ensures Distinct(indexes + [t]) == Distinct(indexes) + {t}
  {
  }

  /** The position of a title's last occurrence: the `insert(new:)` whose label the dictionary keeps. */
  function LastIndex(titles: seq<string>, t: string): (i: nat)
    requires t in titles
    ensures i < |titles| && titles[i] == t && t !in titles[i + 1..]
  {
    var n := |titles| - 1;
    if titles[n] == t then n
    else
      var i := LastIndex(titles[..n], t);
      assert titles[i + 1..] == titles[..n][i + 1..] + [titles[n]];
      i
  }

  lemma LastIndexSnoc(titles: seq<string>, t: string, k: string)
    requires k in titles + [t]
    ensures LastIndex(titles + [t], k) == if k == t then |titles| else LastIndex(titles, k)
  {
    assert (titles + [t])[..|titles|] == titles;
  }

  /** No label object occurs twice in `stack` from position `from` on. */
  predicate Unshared(stack: seq<Label>, from: nat)
  {
    forall i, j :: from <= i < j < |stack| ==> stack[i] != stack[j]
  }

  /**
    The dictionary left by `insert(new:)` for each of `titles` in turn, whose
    labels start at `stack[from]`: each key's entry is the label made for the
    key's last occurrence.
   */
  predicate LastMade(labels: map<string, Label>, titles: seq<string>, stack: seq<Label>, from: nat)
    requires from + |titles| <= |stack|
  {
    forall k :: k in labels ==> k in titles && labels[k] == stack[from + LastIndex(titles, k)]
  }

  /**
    What `insert(new:)` for each of `titles` in turn, into an empty dictionary,
    leaves: `added` holds one new label per title, no label twice, and the
    dictionary maps each distinct title to the label of its last occurrence.
   */
  predicate Loaded(labels: map<string, Label>, titles: seq<string>, added: seq<Label>)
  {
    && Texts(added) == titles
    && labels.Keys == Distinct(titles)
    && Unshared(added, 0)
    && LastMade(labels, titles, added, 0)
  }

  /** One more `insert(new:)` of a new label `l` for title `t` keeps the labels `Loaded`. */
  lemma InsertStep(labels: map<string, Label>, titles: seq<string>, added: seq<Label>, t: string, l: Label)
    requires Loaded(labels, titles, added)
    requires l !in added && l.text == t
    ensures Loaded(labels[t := l], titles + [t], added + [l])
  {
    TextsSnoc(added, l);
    DistinctSnoc(titles, t);
    UnsharedSnoc(added, l);
    LastMadeSnoc(labels, titles, added, t, l);
  }

  lemma UnsharedSnoc(added: seq<Label>, l: Label)
    requires Unshared(added, 0) && l !in added
    ensures Unshared(added + [l], 0)
  {
  }

  lemma LastMadeSnoc(labels: map<string, Label>, titles: seq<string>, added: seq<Label>, t: string, l: Label)
    requires |titles| == |added| && LastMade(labels, titles, added, 0)
    ensures LastMade(labels[t := l], titles + [t], added + [l], 0)
  {
    forall k | k in labels[t := l]
      ensures k in titles + [t] && labels[t := l][k] == (added + [l])[LastIndex(titles + [t], k)]
    {
      LastIndexSnoc(titles, t, k);
    }
  }

  /**
    Loaded labels appended after `kept`: each entry shows its key and sits in
    the stack, and the appended part holds every label once.
   */
  lemma LoadedAfter(labels: map<string, Label>, titles: seq<string>, kept: seq<Label>, added: seq<Label>)
    requires Loaded(labels, titles, added)
    ensures forall k :: k in labels ==> labels[k].text == k && labels[k] in kept + added
    ensures Texts((kept + added)[|kept|..]) == titles
    ensures Unshared(kept + added, |kept|)
    ensures LastMade(labels, titles, kept + added, |kept|)
  {
    var stack := kept + added;
    assert stack[|kept|..] == added;
    forall k | k in labels
      ensures labels[k].text == k && labels[k] in stack
    {
      var i := LastIndex(titles, k);
      assert stack[|kept| + i] == added[i];
    }
  }

  /** Collapsing duplicate titles never adds buckets: `labels.count <= indexes.count`. */
  lemma {:induction false} DistinctAtMostLength(indexes: seq<string>)
    ensures |Distinct(indexes)| <= |indexes|
  {
    if indexes != [] {
      var last := indexes[|indexes| - 1];
      var init := indexes[..|indexes| - 1];
      DistinctAtMostLength(init);
      assert indexes == init + [last];
      assert Distinct(indexes) == Distinct(init) + {last};
    }
  }

  /** Without duplicates there is one bucket per title: `labels.count == indexes.count`. */
  lemma {:induction false} DistinctOfUnique(indexes: seq<string>)
    requires forall t :: multiset(indexes)[t] <= 1
    ensures |Distinct(indexes)| == |indexes|
  {
    if indexes != [] {
      var last := indexes[|indexes| - 1];
      var init := indexes[..|indexes| - 1];
      assert indexes == init + [last];
      assert multiset(indexes) == multiset(init) + multiset{last};
      forall t ensures multiset(init)[t] <= 1 {
        assert multiset(init)[t] <= multiset(indexes)[t];
      }
      DistinctOfUnique(init);
      assert multiset(indexes)[last] == multiset(init)[last] + 1;
      assert last !in init;
      assert Distinct(indexes) == Distinct(init) + {last};
    }
  }
}
