/** A model of the dataset transform of the RedditClusteringP2P.v2 clustering
    task: every evaluation split arrives with its `labels` and `sentences`
    columns grouped (one group per clustering set); the transform flattens both
    columns into two parallel lists and then removes, from both lists together,
    every entry whose label occurs exactly once in the split. */
module RedditClusteringP2P {

  // ---------------------------------------------------------------------------
  // Data model
  // ---------------------------------------------------------------------------

  /** One evaluation split as loaded: group i of `labels` holds the labels of
      the i-th clustering set and group i of `sentences` its texts. */
  datatype RawSplit<L> = RawSplit(labels: seq<seq<L>>, sentences: seq<seq<string>>)
  {
    /** Both columns have as many groups, and matching groups have as many
        entries. The transform relies on this without checking it. */
    predicate WellShaped() {
      |labels| == |sentences| &&
      forall i :: 0 <= i < |labels| ==> |labels[i]| == |sentences[i]|
    }
  }

  /** A flattened split: position k of `labels` is the label of the text at
      position k of `sentences`. */
  datatype FlatSplit<L> = FlatSplit(labels: seq<L>, sentences: seq<string>)
  {
    predicate Aligned() {
      |labels| == |sentences|
    }

    /** The split without its first entry. */
    function Tail(): (t: FlatSplit<L>)
      requires Aligned() && |labels| > 0
      ensures t.Aligned() && |t.labels| == |labels| - 1
    {
      FlatSplit(labels[1..], sentences[1..])
    }
  }

  /** What the task's dataset holds for one split name: the grouped columns
      before the transform, the flat cleaned columns after it. */
  datatype SplitData<L> = Grouped(raw: RawSplit<L>) | Flattened(flat: FlatSplit<L>)

  // ---------------------------------------------------------------------------
  // Flattening (itertools.chain.from_iterable)
  // ---------------------------------------------------------------------------

  /** The groups concatenated in order. */
  function Flatten<T>(groups: seq<seq<T>>): (r: seq<T>)
    ensures forall i, j :: 0 <= i < |groups| && 0 <= j < |groups[i]| ==> groups[i][j] in r
  {
    if groups == [] then [] else groups[0] + Flatten(groups[1..])
  }

  /** Flat position at which group i starts. */
  function Offset<T>(groups: seq<seq<T>>, i: nat): (n: nat)
    requires i <= |groups|
  {
    |Flatten(groups[..i])|
  }

  /** Flattening distributes over concatenation of the group lists, so the
      groups appear in the flat list in their original order. */
  lemma {:induction false} FlattenAppend<T>(g: seq<seq<T>>, h: seq<seq<T>>)
    ensures Flatten(g + h) == Flatten(g) + Flatten(h)
  {
    if g == [] {
      assert g + h == h;
    } else {
      assert (g + h)[1..] == g[1..] + h;
      FlattenAppend(g[1..], h);
    }
  }

  /** Entry j of group i sits at flat position Offset(groups, i) + j. */
  lemma {:induction false} FlattenAt<T>(groups: seq<seq<T>>, i: nat, j: nat)
    requires i < |groups| && j < |groups[i]|
    ensures Offset(groups, i) + j < |Flatten(groups)|
    ensures Flatten(groups)[Offset(groups, i) + j] == groups[i][j]
  {
    assert groups == groups[..i] + ([groups[i]] + groups[i + 1..]);
    FlattenAppend(groups[..i], [groups[i]] + groups[i + 1..]);
    FlattenAppend([groups[i]], groups[i + 1..]);
    assert Flatten([groups[i]]) == groups[i] by {
      assert [groups[i]][1..] == [];
    }
  }

  /** Every flat position comes from some entry of some group. */
  lemma {:induction false} FlattenCovers<T>(groups: seq<seq<T>>, k: nat)
    requires k < |Flatten(groups)|
    ensures exists i, j :: 0 <= i < |groups| && 0 <= j < |groups[i]| &&
                           k == Offset(groups, i) + j && Flatten(groups)[k] == groups[i][j]
  {
    if k < |groups[0]| {
      assert groups[..0] == [];
      assert k == Offset(groups, 0) + k && Flatten(groups)[k] == groups[0][k];
    } else {
      var rest := groups[1..];
      FlattenCovers(rest, k - |groups[0]|);
      var i, j :| 0 <= i < |rest| && 0 <= j < |rest[i]| &&
                  k - |groups[0]| == Offset(rest, i) + j && Flatten(rest)[k - |groups[0]|] == rest[i][j];
      assert groups[..i + 1] == [groups[0]] + rest[..i];
      assert Flatten(groups[..i + 1]) == groups[0] + Flatten(rest[..i]) by {
        assert ([groups[0]] + rest[..i])[1..] == rest[..i];
      }
      assert k == Offset(groups, i + 1) + j && Flatten(groups)[k] == groups[i + 1][j];
    }
  }

  /** Group lists of the same shape flatten to lists of the same length. */
  lemma {:induction false} FlattenSameLength<A, B>(a: seq<seq<A>>, b: seq<seq<B>>)
    requires |a| == |b| && forall i :: 0 <= i < |a| ==> |a[i]| == |b[i]|
    ensures |Flatten(a)| == |Flatten(b)|
  {
    if a != [] {
      FlattenSameLength(a[1..], b[1..]);
    }
  }

  /** The flattened columns of a split. */
  function Flat<L>(raw: RawSplit<L>): (f: FlatSplit<L>)
    requires raw.WellShaped()
    ensures f.Aligned()
  {
    FlattenSameLength(raw.labels, raw.sentences);
    FlatSplit(Flatten(raw.labels), Flatten(raw.sentences))
  }

  /** Flattening both columns pairs entry j of group i in both columns at the
      same flat position, so no label is paired with another entry's text. */
  lemma FlatPairsEntries<L>(raw: RawSplit<L>, i: nat, j: nat)
    requires raw.WellShaped() && i < |raw.labels| && j < |raw.labels[i]|
    ensures Offset(raw.labels, i) == Offset(raw.sentences, i)
    ensures Offset(raw.labels, i) + j < |Flat(raw).labels|
    ensures Flat(raw).labels[Offset(raw.labels, i) + j] == raw.labels[i][j]
    ensures Flat(raw).sentences[Offset(raw.labels, i) + j] == raw.sentences[i][j]
  {
    FlattenSameLength(raw.labels[..i], raw.sentences[..i]);
    FlattenAt(raw.labels, i, j);
    FlattenAt(raw.sentences, i, j);
  }

  /** Conversely, each flat position holds the label and the text of one and
      the same grouped entry. */
  lemma FlatPositionPairs<L>(raw: RawSplit<L>, k: nat)
    requires raw.WellShaped() && k < |Flat(raw).labels|
    ensures exists i, j :: 0 <= i < |raw.labels| && 0 <= j < |raw.labels[i]| &&
                           Flat(raw).labels[k] == raw.labels[i][j] &&
                           Flat(raw).sentences[k] == raw.sentences[i][j]
  {
    FlattenCovers(raw.labels, k);
    var i, j :| 0 <= i < |raw.labels| && 0 <= j < |raw.labels[i]| &&
                k == Offset(raw.labels, i) + j && Flatten(raw.labels)[k] == raw.labels[i][j];
    FlatPairsEntries(raw, i, j);
  }

  // ---------------------------------------------------------------------------
  // List primitives used by the removal loop
  // ---------------------------------------------------------------------------

  /** list.index: the first position holding x. */
  function IndexOf<T(==)>(s: seq<T>, x: T): (i: nat)
    requires x in s
    ensures i < |s| && s[i] == x
    ensures forall k :: 0 <= k < i ==> s[k] != x
  {
    if s[0] == x then 0 else 1 + IndexOf(s[1..], x)
  }

  /** list.pop(i), keeping the shortened list. */
  function RemoveAt<T>(s: seq<T>, i: nat): (r: seq<T>)
    requires i < |s|
    ensures |r| == |s| - 1
    ensures forall k :: 0 <= k < i ==> r[k] == s[k]
    ensures forall k :: i <= k < |r| ==> r[k] == s[k + 1]
    ensures multiset(r) == multiset(s) - multiset{s[i]}
  {
    assert s == s[..i] + [s[i]] + s[i + 1..];
    s[..i] + s[i + 1..]
  }

  // ---------------------------------------------------------------------------
  // Singleton labels and the filtering specification
  // ---------------------------------------------------------------------------

  /** The labels occurring exactly once (np.unique with counts, then counts == 1). */
  function SoloLabels<L(==)>(labels: seq<L>): (r: set<L>)
    ensures forall x :: x in r ==> multiset(labels)[x] == 1
    ensures forall k :: 0 <= k < |labels| ==> (labels[k] in r <==> multiset(labels)[labels[k]] == 1)
    ensures forall x :: x in labels ==> (x in r <==> multiset(labels)[x] == 1)
  {
    set x | x in labels && multiset(labels)[x] == 1
  }

  /** The entries of f whose label is not in drop, in their original order,
      each still paired with its own text. */
  function Without<L(==)>(f: FlatSplit<L>, drop: set<L>): (r: FlatSplit<L>)
    requires f.Aligned()
    ensures r.Aligned() && |r.labels| <= |f.labels|
    decreases |f.labels|
  {
    if f.labels == [] then FlatSplit([], [])
    else
      var rest := Without(f.Tail(), drop);
      if f.labels[0] in drop then rest
      else FlatSplit([f.labels[0]] + rest.labels, [f.sentences[0]] + rest.sentences)
  }

  /** Every label Without keeps comes from f and is not dropped. */
  lemma {:induction false} WithoutKeepsOthers<L>(f: FlatSplit<L>, drop: set<L>)
    requires f.Aligned()
    ensures forall k :: 0 <= k < |Without(f, drop).labels| ==>
              Without(f, drop).labels[k] in f.labels && Without(f, drop).labels[k] !in drop
    decreases |f.labels|
  {
    if f.labels != [] {
      WithoutKeepsOthers(f.Tail(), drop);
      assert f.labels == [f.labels[0]] + f.Tail().labels;
    }
  }

  /** The cleaned split: the flat split without the entries of its singleton labels. */
  function Clean<L(==)>(f: FlatSplit<L>): (r: FlatSplit<L>)
    requires f.Aligned()
    ensures r.Aligned() && |r.labels| <= |f.labels|
    ensures forall k :: 0 <= k < |r.labels| ==> multiset(f.labels)[r.labels[k]] >= 2
  {
    WithoutKeepsOthers(f, SoloLabels(f.labels));
    Without(f, SoloLabels(f.labels))
  }

  /** What the transform stores for one raw split. */
  function CleanSplit<L(==)>(raw: RawSplit<L>): (r: FlatSplit<L>)
    requires raw.WellShaped()
    ensures r.Aligned() && |r.labels| <= |Flatten(raw.labels)|
    ensures forall k :: 0 <= k < |r.labels| ==> multiset(Flatten(raw.labels))[r.labels[k]] >= 2
  {
    Clean(Flat(raw))
  }

  /** Dropping a set of labels leaves no occurrence of them and every
      occurrence of every other label. */
  lemma {:induction false} WithoutCount<L>(f: FlatSplit<L>, drop: set<L>, x: L)
    requires f.Aligned()
    ensures multiset(Without(f, drop).labels)[x] == if x in drop then 0 else multiset(f.labels)[x]
    decreases |f.labels|
  {
    if f.labels != [] {
      WithoutCount(f.Tail(), drop, x);
      assert f.labels == [f.labels[0]] + f.Tail().labels;
    }
  }

  /** Dropping labels that do not occur changes nothing. */
  lemma {:induction false} WithoutAbsent<L>(f: FlatSplit<L>, drop: set<L>)
    requires f.Aligned()
    requires forall k :: 0 <= k < |f.labels| ==> f.labels[k] !in drop
    ensures Without(f, drop) == f
    decreases |f.labels|
  {
    if f.labels != [] {
      WithoutAbsent(f.Tail(), drop);
    }
  }

  /** Dropping a then b is dropping a + b in one pass. */
  lemma {:induction false} WithoutTwice<L>(f: FlatSplit<L>, a: set<L>, b: set<L>)
    requires f.Aligned()
    ensures Without(Without(f, a), b) == Without(f, a + b)
    decreases |f.labels|
  {
    if f.labels != [] {
      WithoutTwice(f.Tail(), a, b);
      var rest := Without(f.Tail(), a);
      if f.labels[0] !in a {
        var g := Without(f, a);
        assert g.labels != [] && g.Tail() == rest;
      }
    }
  }

  /** Popping a later position of a list keeps its head. */
  lemma RemoveAtCons<T>(s: seq<T>, i: nat)
    requires 0 < i < |s|
    ensures RemoveAt(s, i) == [s[0]] + RemoveAt(s[1..], i - 1)
  {
    assert s[1..][..i - 1] == s[1..i];
    assert s[1..][i..] == s[i + 1..];
  }

  /** A singleton label at the head: dropping it leaves the tail. */
  lemma PopHead<L>(f: FlatSplit<L>, x: L)
    requires f.Aligned() && |f.labels| > 0 && f.labels[0] == x && multiset(f.labels)[x] == 1
    ensures Without(f, {x}) == f.Tail()
    ensures RemoveAt(f.labels, 0) == f.Tail().labels && RemoveAt(f.sentences, 0) == f.Tail().sentences
  {
    var t := f.Tail();
    assert f.labels == [x] + t.labels;
    assert multiset(t.labels)[x] == 0;
    forall k | 0 <= k < |t.labels| ensures t.labels[k] !in {x} {
      assert t.labels[k] in multiset(t.labels);
    }
    WithoutAbsent(t, {x});
  }

  /** Popping the position list.index finds for a label that occurs exactly
      once, from both lists, is dropping that label. */
  lemma {:induction false} PopSingleton<L>(f: FlatSplit<L>, x: L)
    requires f.Aligned() && multiset(f.labels)[x] == 1
    ensures x in f.labels
    ensures Without(f, {x}) == FlatSplit(RemoveAt(f.labels, IndexOf(f.labels, x)),
                                         RemoveAt(f.sentences, IndexOf(f.labels, x)))
    decreases |f.labels|
  {
    var t := f.Tail();
    assert f.labels == [f.labels[0]] + t.labels;
    if f.labels[0] == x {
      PopHead(f, x);
    } else {
      assert multiset(t.labels)[x] == 1;
      PopSingleton(t, x);
      var loc := IndexOf(f.labels, x);
      assert loc == 1 + IndexOf(t.labels, x);
      RemoveAtCons(f.labels, loc);
      RemoveAtCons(f.sentences, loc);
    }
  }


  /** Positions from i on, in increasing order, whose label is not in drop. */
  function KeptFrom<L(==)>(labels: seq<L>, drop: set<L>, i: nat): (ks: seq<nat>)
    requires i <= |labels|
    decreases |labels| - i
  {
    if i == |labels| then []
    else (if labels[i] in drop then [] else [i]) + KeptFrom(labels, drop, i + 1)
  }

  /** The entries of f from position i on. */
  function Suffix<L>(f: FlatSplit<L>, i: nat): (g: FlatSplit<L>)
    requires f.Aligned() && i <= |f.labels|
    ensures g.Aligned() && |g.labels| == |f.labels| - i
  {
    FlatSplit(f.labels[i..], f.sentences[i..])
  }

  /** The positions KeptFrom lists are in range, increasing, and exactly
      those from i on whose label is not dropped. */
  lemma {:induction false} KeptFromExact<L>(labels: seq<L>, drop: set<L>, i: nat)
    requires i <= |labels|
    ensures var ks := KeptFrom(labels, drop, i);
      && (forall n :: 0 <= n < |ks| ==> i <= ks[n] < |labels|)
      && (forall n, m :: 0 <= n < m < |ks| ==> ks[n] < ks[m])
      && (forall p :: i <= p < |labels| ==> (p in ks <==> labels[p] !in drop))
    decreases |labels| - i
  {
    if i < |labels| {
      KeptFromExact(labels, drop, i + 1);
    }
  }

  /** Without, on the entries from i on, keeps at output position n the pair
      found at flat position KeptFrom(..., i)[n]. */
  lemma {:induction false} WithoutAtKept<L>(f: FlatSplit<L>, drop: set<L>, i: nat)
    requires f.Aligned() && i <= |f.labels|
    ensures var r, ks := Without(Suffix(f, i), drop), KeptFrom(f.labels, drop, i);
      && |ks| == |r.labels|
      && (forall n :: 0 <= n < |ks| ==>
            ks[n] < |f.labels| && r.labels[n] == f.labels[ks[n]] && r.sentences[n] == f.sentences[ks[n]])
    decreases |f.labels| - i
  {
    if i < |f.labels| {
      WithoutAtKept(f, drop, i + 1);
      var g := Suffix(f, i);
      assert g.Tail() == Suffix(f, i + 1);
      var r, rt := Without(g, drop), Without(g.Tail(), drop);
      var ks, later := KeptFrom(f.labels, drop, i), KeptFrom(f.labels, drop, i + 1);
      var head := if f.labels[i] in drop then 0 else 1;
      assert |ks| == head + |later|;
      forall n | 0 <= n < |ks|
        ensures ks[n] < |f.labels| && r.labels[n] == f.labels[ks[n]] && r.sentences[n] == f.sentences[ks[n]]
      {
        if n < head {
          assert ks[n] == i && r.labels[n] == g.labels[0] && r.sentences[n] == g.sentences[0];
        } else {
          assert ks[n] == later[n - head];
          assert r.labels[n] == rt.labels[n - head] && r.sentences[n] == rt.sentences[n - head];
        }
      }
    }
  }

  /** Positions, in increasing order, of the labels not in drop. */
  function KeptIndices<L(==)>(labels: seq<L>, drop: set<L>): (ks: seq<nat>)
  {
    KeptFrom(labels, drop, 0)
  }

  /** Without is the subsequence of pairs at the positions whose label is not
      dropped: each kept entry keeps its own text and the relative order. */
  lemma WithoutSelects<L>(f: FlatSplit<L>, drop: set<L>)
    requires f.Aligned()
    ensures var r, ks := Without(f, drop), KeptIndices(f.labels, drop);
      && |ks| == |r.labels|
      && (forall n :: 0 <= n < |ks| ==>
            ks[n] < |f.labels| && r.labels[n] == f.labels[ks[n]] && r.sentences[n] == f.sentences[ks[n]])
      && (forall n, m :: 0 <= n < m < |ks| ==> ks[n] < ks[m])
      && (forall p :: 0 <= p < |f.labels| ==> (p in ks <==> f.labels[p] !in drop))
  {
    WithoutAtKept(f, drop, 0);
    KeptFromExact(f.labels, drop, 0);
    assert Suffix(f, 0) == f;
  }

  /** Position p survives cleaning exactly when its label occurs at least
      twice in the flat split; survivors keep their text and their order. */
  lemma CleanSelectsRepeated<L>(f: FlatSplit<L>)
    requires f.Aligned()
    ensures var r, ks := Clean(f), KeptIndices(f.labels, SoloLabels(f.labels));
      && |ks| == |r.labels|
      && (forall n :: 0 <= n < |ks| ==>
            ks[n] < |f.labels| && r.labels[n] == f.labels[ks[n]] && r.sentences[n] == f.sentences[ks[n]])
      && (forall n, m :: 0 <= n < m < |ks| ==> ks[n] < ks[m])
      && (forall p :: 0 <= p < |f.labels| ==> (p in ks <==> multiset(f.labels)[f.labels[p]] >= 2))
  {
    WithoutSelects(f, SoloLabels(f.labels));
    forall p | 0 <= p < |f.labels|
      ensures multiset(f.labels)[f.labels[p]] >= 1
    {
      assert f.labels[p] in multiset(f.labels);
    }
  }

  /** No singleton label survives; every other label keeps all its
      occurrences, so each label of the result occurs at least twice in it. */
  lemma CleanRemovesOnlySingletons<L>(f: FlatSplit<L>)
    requires f.Aligned()
    ensures forall x :: multiset(f.labels)[x] == 1 ==> x !in Clean(f).labels
    ensures forall x :: multiset(f.labels)[x] != 1 ==> multiset(Clean(f).labels)[x] == multiset(f.labels)[x]
    ensures forall x :: x in Clean(f).labels ==> multiset(Clean(f).labels)[x] >= 2
  {
    var solo := SoloLabels(f.labels);
    var g := Clean(f);
    forall x
      ensures multiset(g.labels)[x] == if multiset(f.labels)[x] == 1 then 0 else multiset(f.labels)[x]
    {
      WithoutCount(f, solo, x);
      if multiset(f.labels)[x] == 1 {
        assert x in f.labels;
        var k :| 0 <= k < |f.labels| && f.labels[k] == x;
      }
    }
    forall x | x in g.labels
      ensures multiset(g.labels)[x] >= 2
    {
      WithoutCount(f, solo, x);
      assert x in multiset(g.labels);
      assert x !in solo;
    }
  }

  /** Cleaning a cleaned split changes nothing. */
  lemma CleanIdempotent<L>(f: FlatSplit<L>)
    requires f.Aligned()
    ensures Clean(Clean(f)) == Clean(f)
  {
    var g := Clean(f);
    CleanRemovesOnlySingletons(f);
    forall k | 0 <= k < |g.labels|
      ensures g.labels[k] !in SoloLabels(g.labels)
    {
      assert g.labels[k] in g.labels;
    }
    WithoutAbsent(g, SoloLabels(g.labels));
  }

  /** Dropping singleton labels removes one entry per dropped label. */
  lemma {:induction false} WithoutSingletonsLength<L>(f: FlatSplit<L>, r: set<L>)
    requires f.Aligned() && r <= SoloLabels(f.labels)
    ensures |Without(f, r).labels| == |f.labels| - |r|
    decreases r
  {
    if r == {} {
      WithoutAbsent(f, r);
    } else {
      var x :| x in r;
      var rest := r - {x};
      WithoutSingletonsLength(f, rest);
      PopStep(f, rest, x);
      assert rest + {x} == r;
    }
  }

  /** The cleaned split is shorter than the flat one by the number of distinct
      singleton labels. */
  lemma CleanLength<L>(f: FlatSplit<L>)
    requires f.Aligned()
    ensures |Clean(f).labels| == |Clean(f).sentences| == |f.labels| - |SoloLabels(f.labels)|
  {
    WithoutSingletonsLength(f, SoloLabels(f.labels));
  }

  /** When every label is a singleton both cleaned lists are empty. */
  lemma CleanAllSingletons<L>(f: FlatSplit<L>)
    requires f.Aligned()
    requires forall k :: 0 <= k < |f.labels| ==> multiset(f.labels)[f.labels[k]] == 1
    ensures Clean(f) == FlatSplit([], [])
  {
    var g := Clean(f);
    var solo := SoloLabels(f.labels);
    forall x
      ensures multiset(g.labels)[x] == 0
    {
      WithoutCount(f, solo, x);
      if x in f.labels {
        var k :| 0 <= k < |f.labels| && f.labels[k] == x;
      }
    }
    NoOccurrencesEmpty(g.labels);
  }

  /** A list in which no value occurs is empty. */
  lemma NoOccurrencesEmpty<T>(s: seq<T>)
    requires forall x :: multiset(s)[x] == 0
    ensures s == []
  {
    assert multiset(s) == multiset{};
    assert |s| == |multiset(s)|;
  }

  /** A split whose last label is a singleton loses that entry only. */
  lemma ExampleOneSingleton()
    ensures CleanSplit(RawSplit([["a", "a", "b"]], [["s1", "s2", "s3"]])) == FlatSplit(["a", "a"], ["s1", "s2"])
  {
    ExampleFlat();
    ExampleSolo();
    ExampleDrop();
  }

  /** The example's flattened columns. */
  lemma ExampleFlat()
    ensures Flat(RawSplit([["a", "a", "b"]], [["s1", "s2", "s3"]])) == FlatSplit(["a", "a", "b"], ["s1", "s2", "s3"])
  {
    assert Flatten([["a", "a", "b"]]) == ["a", "a", "b"] + Flatten([]);
    assert Flatten([["s1", "s2", "s3"]]) == ["s1", "s2", "s3"] + Flatten([]);
  }

  /** The example's only singleton label is "b". */
  lemma ExampleSolo()
    ensures SoloLabels(["a", "a", "b"]) == {"b"}
  {
    assert multiset(["a", "a", "b"])["a"] == 2;
  }

  /** Dropping "b" from the example's flat split. */
  lemma ExampleDrop()
    ensures Without(FlatSplit(["a", "a", "b"], ["s1", "s2", "s3"]), {"b"}) == FlatSplit(["a", "a"], ["s1", "s2"])
  {
    assert Without(FlatSplit(["b"], ["s3"]), {"b"}) == FlatSplit([], []);
    assert Without(FlatSplit(["a", "b"], ["s2", "s3"]), {"b"}) == FlatSplit(["a"], ["s2"]);
  }

  /** A split made only of singletons is emptied. */
  lemma ExampleAllSingletons()
    ensures CleanSplit(RawSplit([["x"], ["y"]], [["sx"], ["sy"]])) == FlatSplit([], [])
  {
  }

  // ---------------------------------------------------------------------------
  // The transform
  // ---------------------------------------------------------------------------

  /** One pop of the removal loop: once the singletons in done are gone, the
      next singleton x is still present, and popping its position from both
      lists drops it as well. */
  lemma PopStep<L>(flat: FlatSplit<L>, done: set<L>, x: L)
    requires flat.Aligned() && multiset(flat.labels)[x] == 1 && x !in done
    ensures x in Without(flat, done).labels
    ensures var g := Without(flat, done); var loc := IndexOf(g.labels, x);
      Without(flat, done + {x}) == FlatSplit(RemoveAt(g.labels, loc), RemoveAt(g.sentences, loc))
  {
    WithoutCount(flat, done, x);
    PopSingleton(Without(flat, done), x);
    WithoutTwice(flat, done, {x});
  }

  /** One iteration of the split loop: flatten both columns, then, for each
      singleton label in turn (in whatever order the labels are listed), pop
      the position list.index finds from both lists. The result is the single
      filtering pass Clean, whatever order the singletons are visited in. */
  method TransformSplit<L(==)>(raw: RawSplit<L>) returns (out: FlatSplit<L>)
    requires raw.WellShaped()
    ensures out.Aligned()
    ensures out == CleanSplit(raw)
  {
    var flat := Flat(raw);
    var labels := flat.labels;
    var sentences := flat.sentences;
    var pending := SoloLabels(labels);
    ghost var done: set<L> := {};
    WithoutAbsent(flat, done);
    while pending != {}
      invariant done !! pending && done + pending == SoloLabels(flat.labels)
      invariant FlatSplit(labels, sentences) == Without(flat, done)
      decreases pending
    {
      var solo :| solo in pending;
      PopStep(flat, done, solo);
      var loc := IndexOf(labels, solo);
      labels := RemoveAt(labels, loc);
      sentences := RemoveAt(sentences, loc);
      pending := pending - {solo};
      done := done + {solo};
    }
    out := FlatSplit(labels, sentences);
  }

  /** The task object: the evaluation splits named by its metadata and the
      dataset the framework loaded, which the transform replaces. */
  class RedditFastClusteringP2P<L(==)> {
    const evalSplits: seq<string>
    var dataset: map<string, SplitData<L>>

    /** The task as declared: its metadata lists the single split "test". */
    constructor (loaded: map<string, SplitData<L>>)
      ensures evalSplits == ["test"] && dataset == loaded
    {
      evalSplits := ["test"];
      dataset := loaded;
    }

    /** Every evaluation split is loaded, still grouped, with both columns of
        the same shape. */
    predicate Loaded()
      reads this
    {
      forall s :: s in evalSplits ==>
        s in dataset && dataset[s].Grouped? && dataset[s].raw.WellShaped()
    }

    /** Rebuilds the dataset with one cleaned flat entry per evaluation split;
        each split is cleaned from its own raw columns only, and splits that
        are not evaluation splits are dropped. */
    method DatasetTransform()
      requires Loaded()
      modifies this
      ensures dataset.Keys == set s | s in evalSplits
      ensures forall s :: s in evalSplits ==> dataset[s] == Flattened(CleanSplit(old(dataset)[s].raw))
    {
      var ds: map<string, SplitData<L>> := map[];
      for i := 0 to |evalSplits|
        invariant dataset == old(dataset)
        invariant ds.Keys == set s | s in evalSplits[..i]
        invariant forall s :: s in ds ==> s in dataset && dataset[s].Grouped? && dataset[s].raw.WellShaped() &&
                                          ds[s] == Flattened(CleanSplit(dataset[s].raw))
      {
        var split := evalSplits[i];
        assert split in evalSplits;
        var cleaned := TransformSplit(dataset[split].raw);
        ds := ds[split := Flattened(cleaned)];
        assert evalSplits[..i + 1] == evalSplits[..i] + [split];
      }
      assert evalSplits[..|evalSplits|] == evalSplits;
      dataset := ds;
    }
  }
}
