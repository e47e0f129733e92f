/** Statistics over annotated articles (`src/biolexica/literature/analyze.py`): how many
    articles mention each entity, and how often two entities are mentioned in the same
    article. Both are counters (multisets) built from each article's counter keys. */
module Analyze {
  import opened Seqs
  import opened Curies
  import opened Annotate

  /** What one article adds to `count_references`: each of its counter's keys once. */
  function ArticleReferences(article: AnnotatedArticle): (c: multiset<Entity>)
    ensures |c| == |article.Keys()|
    ensures forall e :: c[e] <= 1
  {
    var ks := article.Keys();
    assert forall e :: multiset(ks)[e] <= 1 by {
      forall e ensures multiset(ks)[e] <= 1 { DistinctOccursOnce(ks, e); }
    }
    multiset(ks)
  }

  /** `count_references`: every article contributes each of its counter's keys once, so an
      entity is counted once per article that mentions it. */
  function CountReferences(articles: seq<AnnotatedArticle>): (c: multiset<Entity>)
    ensures forall e :: c[e] <= |articles|
  {
    if articles == [] then multiset{} else ArticleReferences(articles[0]) + CountReferences(articles[1..])
  }

  /** Counting a concatenation of article lists adds the separate counters. */
  lemma {:induction false} CountReferencesAppend(a: seq<AnnotatedArticle>, b: seq<AnnotatedArticle>)
    ensures CountReferences(a + b) == CountReferences(a) + CountReferences(b)
  {
    if a == [] {
      assert a + b == b;
    } else {
      assert (a + b)[1..] == a[1..] + b;
      CountReferencesAppend(a[1..], b);
    }
  }

  predicate Mentions(article: AnnotatedArticle, e: Entity)
  {
    e in article.Mentions()
  }

  lemma KeyIffMentioned(article: AnnotatedArticle, e: Entity)
    ensures ArticleReferences(article)[e] == (if Mentions(article, e) then 1 else 0)
  {
    DistinctOccursOnce(article.Keys(), e);
    if Mentions(article, e) {
      var i :| 0 <= i < |article.Mentions()| && article.Mentions()[i] == e;
      assert e in article.Keys();
    }
  }

  /** The count of an entity is the number of articles that mention it at least once. */
  lemma {:induction false} DocumentFrequency(articles: seq<AnnotatedArticle>, e: Entity)
    ensures CountReferences(articles)[e] == |Filter((a: AnnotatedArticle) => Mentions(a, e), articles)|
  {
    if articles != [] {
      KeyIffMentioned(articles[0], e);
      DocumentFrequency(articles[1..], e);
    }
  }

  /** The number of annotations over all articles. */
  function TotalAnnotations(articles: seq<AnnotatedArticle>): nat
  {
    if articles == [] then 0 else |articles[0].annotations| + TotalAnnotations(articles[1..])
  }

  /** No article mentions an entity twice. */
  predicate NoRepeatedMentions(articles: seq<AnnotatedArticle>)
  {
    forall i :: 0 <= i < |articles| ==> Distinct(articles[i].Mentions())
  }

  lemma NoRepeatedMentionsCons(articles: seq<AnnotatedArticle>)
    requires articles != []
    ensures NoRepeatedMentions(articles) <==>
      (Distinct(articles[0].Mentions()) && NoRepeatedMentions(articles[1..]))
  {
    assert forall i :: 1 <= i < |articles| ==> articles[i] == articles[1..][i - 1];
  }

  /** The counter's total is at most the number of annotations, and equals it exactly when
      no article mentions an entity twice. */
  lemma {:induction false} ReferenceTotal(articles: seq<AnnotatedArticle>)
    ensures |CountReferences(articles)| <= TotalAnnotations(articles)
    ensures |CountReferences(articles)| == TotalAnnotations(articles) <==> NoRepeatedMentions(articles)
  {
    if articles != [] {
      DedupDistinct(articles[0].Mentions());
      ReferenceTotal(articles[1..]);
      NoRepeatedMentionsCons(articles);
    }
  }

  /** An entity mentioned twice in the only article is counted once. */
  lemma RepeatCountedOnce(article: AnnotatedArticle, annotation: Annotation)
    requires article.annotations == [annotation, annotation]
    ensures CountReferences([article]) == multiset{EntityOf(annotation)}
    ensures TotalAnnotations([article]) == 2
  {
    var e := EntityOf(annotation);
    assert article.Mentions() == [e, e];
    KeysOfRepeat(article, e);
    assert ArticleReferences(article) == multiset{e};
    assert [article][1..] == [];
    assert CountReferences([article]) == ArticleReferences(article) + CountReferences([]);
  }

  lemma KeysOfRepeat(article: AnnotatedArticle, e: Entity)
    requires article.Mentions() == [e, e]
    ensures article.Keys() == [e]
  {
    DedupRepeatedPair(e);
  }

  /** The number of two-element subsets of a `k`-element set. */
  function Choose2(k: nat): nat
  {
    if k == 0 then 0 else (k - 1) + Choose2(k - 1)
  }

  /** The closed form `k * (k - 1) / 2`. */
  lemma {:induction false} Choose2ClosedForm(k: nat)
    ensures 2 * Choose2(k) == k * (k - 1)
  {
    if k > 0 {
      Choose2ClosedForm(k - 1);
      assert (k - 1) * (k - 2) + 2 * (k - 1) == k * (k - 1);
    }
  }

  /** `x` paired with each of `ys`, in order. */
  function PairsWith(x: Entity, ys: seq<Entity>): (r: seq<(Entity, Entity)>)
    ensures |r| == |ys|
    ensures forall k :: 0 <= k < |ys| ==> r[k] == (x, ys[k])
  {
    seq(|ys|, k requires 0 <= k < |ys| => (x, ys[k]))
  }

  /** `combinations(keys, 2)`: every pair of positions `i < j`, in lexicographic order of
      positions. */
  function Combinations(ks: seq<Entity>): (r: seq<(Entity, Entity)>)
    ensures |r| == Choose2(|ks|)
    ensures forall m :: 0 <= m < |r| ==> r[m].0 in ks && r[m].1 in ks
  {
    if ks == [] then []
    else
      var rest := Combinations(ks[1..]);
      PairsWith(ks[0], ks[1..]) + rest
  }

  /** Every pair of positions `i < j` occurs, at position `m`. */
  lemma {:induction false} CombinationsComplete(ks: seq<Entity>, i: nat, j: nat) returns (m: nat)
    requires i < j < |ks|
    ensures m < |Combinations(ks)| && Combinations(ks)[m] == (ks[i], ks[j])
  {
    var head := PairsWith(ks[0], ks[1..]);
    var rest := Combinations(ks[1..]);
    assert Combinations(ks) == head + rest;
    if i == 0 {
      m := j - 1;
      assert head[m] == (ks[0], ks[1..][j - 1]);
    } else {
      var m' := CombinationsComplete(ks[1..], i - 1, j - 1);
      assert ks[1..][i - 1] == ks[i] && ks[1..][j - 1] == ks[j];
      m := |head| + m';
      assert (head + rest)[m] == rest[m'];
    }
  }

  /** The elements of a pair, forgetting the order. */
  function Members(p: (Entity, Entity)): set<Entity>
  {
    {p.0, p.1}
  }

  /** Over distinct keys, every pair joins two different keys. */
  lemma {:induction false} CombinationsIrreflexive(ks: seq<Entity>)
    requires Distinct(ks)
    ensures forall m :: 0 <= m < |Combinations(ks)| ==> Combinations(ks)[m].0 != Combinations(ks)[m].1
  {
    if ks != [] {
      var x := ks[0];
      var ys := ks[1..];
      var head := PairsWith(x, ys);
      var rest := Combinations(ys);
      var r := Combinations(ks);
      assert Distinct(ys);
      assert x !in ys;
      CombinationsIrreflexive(ys);
      assert r == head + rest;
      forall m | 0 <= m < |r|
        ensures r[m].0 != r[m].1
      {
        if m < |head| {
          assert r[m] == (x, ys[m]);
        } else {
          assert r[m] == rest[m - |head|];
        }
      }
    }
  }

  lemma SharedFirstApart(x: Entity, a: Entity, b: Entity)
    requires a != b
    ensures Members((x, a)) != Members((x, b))
  {
    if a == x { assert b !in Members((x, a)); } else { assert a !in Members((x, b)); }
  }

  lemma HeadRestApart(x: Entity, ys: seq<Entity>, i: nat, j: nat)
    requires x !in ys && i < |ys| && j < |Combinations(ys)|
    ensures Members((x, ys[i])) != Members(Combinations(ys)[j])
  {
    var p := Combinations(ys)[j];
    assert p.0 in ys && p.1 in ys;
    assert x !in Members(p);
  }

  /** Position `m` of the pairs: a pair with the first key, or a pair of the later keys. */
  lemma CombinationsAt(ks: seq<Entity>, m: nat)
    requires m < |Combinations(ks)|
    ensures ks != []
    ensures m < |ks| - 1 ==> Combinations(ks)[m] == (ks[0], ks[1..][m])
    ensures m >= |ks| - 1 ==> Combinations(ks)[m] == Combinations(ks[1..])[m - (|ks| - 1)]
  {
    var head := PairsWith(ks[0], ks[1..]);
    assert Combinations(ks) == head + Combinations(ks[1..]);
  }

  /** One step of the next lemma: two pairs at different positions join different keys,
      given that this holds for the pairs of the later keys. */
  lemma PairsApart(ks: seq<Entity>, m: nat, n: nat)
    requires m < n < |Combinations(ks)|
    requires ks != [] && ks[0] !in ks[1..] && Distinct(ks[1..])
    requires forall m', n' :: 0 <= m' < n' < |Combinations(ks[1..])| ==>
      Members(Combinations(ks[1..])[m']) != Members(Combinations(ks[1..])[n'])
    ensures Members(Combinations(ks)[m]) != Members(Combinations(ks)[n])
  {
    var ys := ks[1..];
    var h := |ks| - 1;
    CombinationsAt(ks, m);
    CombinationsAt(ks, n);
    if n < h {
      SharedFirstApart(ks[0], ys[m], ys[n]);
    } else if m < h {
      HeadRestApart(ks[0], ys, m, n - h);
    } else {
      assert 0 <= m - h < n - h < |Combinations(ys)|;
    }
  }

  /** Over distinct keys, every pair joins two different keys and no two pairs join the
      same two keys. */
  lemma {:induction false} CombinationsDistinct(ks: seq<Entity>)
    requires Distinct(ks)
    ensures forall m :: 0 <= m < |Combinations(ks)| ==> Combinations(ks)[m].0 != Combinations(ks)[m].1
    ensures forall m, n :: 0 <= m < n < |Combinations(ks)| ==>
      Members(Combinations(ks)[m]) != Members(Combinations(ks)[n])
  {
    CombinationsIrreflexive(ks);
    if ks != [] {
      assert Distinct(ks[1..]);
      CombinationsDistinct(ks[1..]);
      assert ks == [ks[0]] + ks[1..];
      forall m, n | 0 <= m < n < |Combinations(ks)|
        ensures Members(Combinations(ks)[m]) != Members(Combinations(ks)[n])
      {
        PairsApart(ks, m, n);
      }
    }
  }

  /** How a pair is put in order before counting. `ByCurie` is `sorted(pair, key=curie)` as
      `count_cooccurrences` does it; `ByCurieThenName` breaks ties between two keys with the
      same CURIE by their names. */
  datatype Orientation = ByCurie | ByCurieThenName

  function CurieOf(e: Entity): string
  {
    e.reference.Curie()
  }

  /** Whether `b` sorts strictly before `a` under the orientation's key. */
  predicate SortsBefore(o: Orientation, b: Entity, a: Entity)
  {
    StrLess(CurieOf(b), CurieOf(a)) ||
    (o == ByCurieThenName && CurieOf(b) == CurieOf(a) && StrLess(b.name, a.name))
  }

  /** The key order is a strict order: never both ways round. */
  lemma SortsBeforeAsymmetric(o: Orientation, a: Entity, b: Entity)
    ensures !(SortsBefore(o, a, b) && SortsBefore(o, b, a))
  {
    StrLessAsymmetric(CurieOf(a), CurieOf(b));
    StrLessAsymmetric(a.name, b.name);
    StrLessIrreflexive(CurieOf(a));
  }

  /** A two-element stable sort: the result is in key order, and the pair is swapped only
      when its second element sorts strictly first, so ties keep mention order. */
  function Orient(o: Orientation, a: Entity, b: Entity): (p: (Entity, Entity))
    ensures p == (a, b) || p == (b, a)
    ensures Members(p) == {a, b}
    ensures StrLe(CurieOf(p.0), CurieOf(p.1))
    ensures !SortsBefore(o, p.1, p.0)
    ensures a != b && p == (b, a) ==> SortsBefore(o, b, a)
  {
    StrNotLessIsLe(CurieOf(a), CurieOf(b));
    SortsBeforeAsymmetric(o, a, b);
    if SortsBefore(o, b, a) then (b, a) else (a, b)
  }

  /** The counter keys contributed by one article: its key pairs, each oriented. */
  function ArticlePairs(o: Orientation, article: AnnotatedArticle): (r: seq<(Entity, Entity)>)
    ensures |r| == Choose2(|article.Keys()|)
    ensures forall m :: 0 <= m < |r| ==>
      r[m] == Orient(o, Combinations(article.Keys())[m].0, Combinations(article.Keys())[m].1)
  {
    var pairs := Combinations(article.Keys());
    seq(|pairs|, m requires 0 <= m < |pairs| => Orient(o, pairs[m].0, pairs[m].1))
  }

  /** Every counted pair joins two different entities of the article, lower CURIE first. */
  lemma PairShape(o: Orientation, article: AnnotatedArticle, m: nat)
    requires m < |ArticlePairs(o, article)|
    ensures var p := ArticlePairs(o, article)[m];
      p.0 != p.1 && Mentions(article, p.0) && Mentions(article, p.1) &&
      StrLe(CurieOf(p.0), CurieOf(p.1))
  {
    var ks := article.Keys();
    CombinationsDistinct(ks);
    var q := Combinations(ks)[m];
    assert q.0 in ks && q.1 in ks;
  }

  /** Within one article a pair is counted at most once, however often its entities are
      mentioned. */
  lemma ArticleCountsPairOnce(o: Orientation, article: AnnotatedArticle, p: (Entity, Entity))
    ensures multiset(ArticlePairs(o, article))[p] <= 1
  {
    var ks := article.Keys();
    var pairs := Combinations(ks);
    var r := ArticlePairs(o, article);
    CombinationsDistinct(ks);
    forall m, n | 0 <= m < n < |r|
      ensures r[m] != r[n]
    {
      assert Members(r[m]) == Members(pairs[m]);
      assert Members(r[n]) == Members(pairs[n]);
    }
    DistinctOccursOnce(r, p);
  }

  /** Every entity an article mentions is one of its counter's keys. */
  lemma MentionedIsKey(article: AnnotatedArticle, e: Entity) returns (i: nat)
    requires Mentions(article, e)
    ensures i < |article.Keys()| && article.Keys()[i] == e
  {
    var k :| 0 <= k < |article.Mentions()| && article.Mentions()[k] == e;
    assert EntityOf(article.annotations[k]) == e;
    i :| 0 <= i < |article.Keys()| && article.Keys()[i] == e;
  }

  /** Every two different entities of an article are counted together, in some order. */
  lemma EveryPairCounted(o: Orientation, article: AnnotatedArticle, a: Entity, b: Entity)
    requires Mentions(article, a) && Mentions(article, b) && a != b
    ensures Orient(o, a, b) in ArticlePairs(o, article) || Orient(o, b, a) in ArticlePairs(o, article)
  {
    var ks := article.Keys();
    var i := MentionedIsKey(article, a);
    var j := MentionedIsKey(article, b);
    var r := ArticlePairs(o, article);
    if i < j {
      var m := CombinationsComplete(ks, i, j);
      assert r[m] == Orient(o, a, b);
    } else {
      var m := CombinationsComplete(ks, j, i);
      assert r[m] == Orient(o, b, a);
    }
  }

  /** Articles with fewer than two distinct entities contribute nothing. */
  lemma FewKeysNoPairs(o: Orientation, article: AnnotatedArticle)
    requires |article.Keys()| < 2
    ensures ArticlePairs(o, article) == []
  {
  }

  /** What one article adds to the co-occurrence counter: each of its oriented pairs once. */
  function ArticleCooccurrences(o: Orientation, article: AnnotatedArticle): (c: multiset<(Entity, Entity)>)
    ensures |c| == Choose2(|article.Keys()|)
    ensures forall p :: c[p] <= 1
  {
    var pairs := ArticlePairs(o, article);
    assert forall p :: multiset(pairs)[p] <= 1 by {
      forall p ensures multiset(pairs)[p] <= 1 { ArticleCountsPairOnce(o, article, p); }
    }
    multiset(pairs)
  }

  /** The co-occurrence counter for an orientation. */
  function Cooccurrences(o: Orientation, articles: seq<AnnotatedArticle>): (c: multiset<(Entity, Entity)>)
    ensures forall p :: c[p] <= |articles|
  {
    if articles == [] then multiset{} else ArticleCooccurrences(o, articles[0]) + Cooccurrences(o, articles[1..])
  }

  /** `count_cooccurrences` as written: pairs ordered by CURIE alone. */
  function CountCooccurrencesAsWritten(articles: seq<AnnotatedArticle>): (c: multiset<(Entity, Entity)>)
    ensures forall p :: c[p] <= |articles|
  {
    Cooccurrences(ByCurie, articles)
  }

  /** `count_cooccurrences` with ties on the CURIE broken by name, so that an unordered pair
      always lands on one counter key. */
  function CountCooccurrences(articles: seq<AnnotatedArticle>): (c: multiset<(Entity, Entity)>)
    ensures forall p :: c[p] <= |articles|
  {
    Cooccurrences(ByCurieThenName, articles)
  }

  /** Counting a concatenation of article lists adds the separate counters. */
  lemma {:induction false} CooccurrencesAppend(o: Orientation, a: seq<AnnotatedArticle>, b: seq<AnnotatedArticle>)
    ensures Cooccurrences(o, a + b) == Cooccurrences(o, a) + Cooccurrences(o, b)
  {
    if a == [] {
      assert a + b == b;
    } else {
      assert (a + b)[1..] == a[1..] + b;
      CooccurrencesAppend(o, a[1..], b);
    }
  }

  /** `k * (k - 1) / 2` pairs per article with `k` distinct entities. */
  function PairBudget(articles: seq<AnnotatedArticle>): nat
  {
    if articles == [] then 0
    else Choose2(|articles[0].Keys()|) + PairBudget(articles[1..])
  }

  lemma {:induction false} CooccurrenceTotal(o: Orientation, articles: seq<AnnotatedArticle>)
    ensures |Cooccurrences(o, articles)| == PairBudget(articles)
  {
    if articles != [] {
      CooccurrenceTotal(o, articles[1..]);
    }
  }

  /** Two entities with the same reference but different names. */
  predicate SameReferenceTwoNames(x: Entity, y: Entity)
  {
    x.reference == y.reference && x.name != y.name
  }

  /** An article mentioning exactly `x` and then `y` contributes the one pair. */
  lemma TwoKeyArticle(o: Orientation, article: AnnotatedArticle, x: Entity, y: Entity)
    requires x != y
    requires article.Mentions() == [x, y]
    ensures ArticlePairs(o, article) == [Orient(o, x, y)]
  {
    KeysOfTwo(article, x, y);
    CombinationsOfTwo(x, y);
    var r := ArticlePairs(o, article);
    assert |r| == 1 && r[0] == Orient(o, x, y);
  }

  lemma KeysOfTwo(article: AnnotatedArticle, x: Entity, y: Entity)
    requires x != y
    requires article.Mentions() == [x, y]
    ensures article.Keys() == [x, y]
  {
    DedupDistinctPair(x, y);
  }

  lemma CombinationsOfTwo(x: Entity, y: Entity)
    ensures Combinations([x, y]) == [(x, y)]
  {
    assert [x, y][1..] == [y];
    assert [y][1..] == [];
    assert Combinations([y]) == [];
    assert PairsWith(x, [y]) == [(x, y)];
  }

  /** The counter of such an article holds that one pair once. */
  lemma TwoKeyCounter(o: Orientation, article: AnnotatedArticle, x: Entity, y: Entity)
    requires x != y
    requires article.Mentions() == [x, y]
    ensures ArticleCooccurrences(o, article) == multiset{Orient(o, x, y)}
  {
    TwoKeyArticle(o, article, x, y);
  }

  /** Sorting by CURIE alone leaves two entities with one reference in mention order. */
  lemma TieKeepsOrder(x: Entity, y: Entity)
    requires x.reference == y.reference
    ensures Orient(ByCurie, x, y) == (x, y)
  {
    StrLessIrreflexive(CurieOf(x));
  }

  lemma TwoArticles(o: Orientation, a1: AnnotatedArticle, a2: AnnotatedArticle)
    ensures Cooccurrences(o, [a1, a2]) == ArticleCooccurrences(o, a1) + ArticleCooccurrences(o, a2)
  {
    assert [a1, a2][1..] == [a2];
    assert [a2][1..] == [];
  }

  /** As written, the pair of two such entities is counted under `(x, y)` in an article that
      mentions `x` first and under `(y, x)` in one that mentions `y` first: one unordered pair,
      two counter keys. */
  lemma AsWrittenSplitsPair(x: Entity, y: Entity, a1: AnnotatedArticle, a2: AnnotatedArticle)
    requires SameReferenceTwoNames(x, y)
    requires a1.Mentions() == [x, y] && a2.Mentions() == [y, x]
    ensures CountCooccurrencesAsWritten([a1, a2]) == multiset{(x, y), (y, x)}
    ensures CountCooccurrencesAsWritten([a1, a2])[(x, y)] == 1
  {
    TieKeepsOrder(x, y);
    TieKeepsOrder(y, x);
    TwoKeyCounter(ByCurie, a1, x, y);
    TwoKeyCounter(ByCurie, a2, y, x);
    TwoArticles(ByCurie, a1, a2);
    assert (x, y) != (y, x);
  }

  /** Two references with colon-free prefixes and the same CURIE are the same reference. */
  lemma CurieInjective(r1: Reference, r2: Reference)
    requires ':' !in r1.prefix && ':' !in r2.prefix
    requires r1.Curie() == r2.Curie()
    ensures r1 == r2
  {
    ParseCurieRoundTrip(r1);
    ParseCurieRoundTrip(r2);
  }

  /** With ties broken by name, the orientation of two different entities does not depend on
      which was mentioned first. */
  lemma OrientSymmetric(a: Entity, b: Entity)
    requires a != b
    requires ':' !in a.reference.prefix && ':' !in b.reference.prefix
    ensures Orient(ByCurieThenName, a, b) == Orient(ByCurieThenName, b, a)
  {
    StrLessTotal(CurieOf(a), CurieOf(b));
    StrLessAsymmetric(CurieOf(a), CurieOf(b));
    StrLessIrreflexive(CurieOf(a));
    if CurieOf(a) == CurieOf(b) {
      CurieInjective(a.reference, b.reference);
      StrLessTotal(a.name, b.name);
      StrLessAsymmetric(a.name, b.name);
    }
  }

  /** The corrected counter puts the pair of the finding's two articles on one key, counted
      twice. */
  lemma CorrectedKeepsPairTogether(x: Entity, y: Entity, a1: AnnotatedArticle, a2: AnnotatedArticle)
    requires SameReferenceTwoNames(x, y)
    requires ':' !in x.reference.prefix
    requires a1.Mentions() == [x, y] && a2.Mentions() == [y, x]
    ensures CountCooccurrences([a1, a2])[Orient(ByCurieThenName, x, y)] == 2
  {
    OrientSymmetric(x, y);
    TwoKeyCounter(ByCurieThenName, a1, x, y);
    TwoKeyCounter(ByCurieThenName, a2, y, x);
    TwoArticles(ByCurieThenName, a1, a2);
  }
}
