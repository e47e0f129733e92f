/** Annotating PubMed abstracts (`src/biolexica/literature/annotate.py`): the annotated
    article record with its per-article entity counter, the `limit` cut of a search result,
    and the batch driver that retrieves and annotates articles batch after batch. Searching
    PubMed and annotating a text are outside this model; they are parameters. */
module Annotate {
  import opened Wrappers
  import opened Seqs
  import opened Curies
  import opened Retrieve

  /** An entity as the statistics see it: a reference together with the name it was
      annotated under. */
  datatype Entity = Entity(reference: Reference, name: string)

  /** One grounded span of an abstract. Only the matched entity matters here; the span
      offsets are kept for completeness. */
  datatype Annotation = Annotation(reference: Reference, name: string, start: nat, end: nat)

  function EntityOf(annotation: Annotation): Entity
  {
    Entity(annotation.reference, annotation.name)
  }

  /** An annotated article from PubMed. */
  datatype AnnotatedArticle = AnnotatedArticle(pubmed: string, title: string, abstractText: string,
                                               annotations: seq<Annotation>)
  {
    /** The entity of every annotation, in annotation order. */
    function Mentions(): (r: seq<Entity>)
      ensures |r| == |annotations|
      ensures forall i :: 0 <= i < |r| ==> r[i].reference == annotations[i].reference && r[i].name == annotations[i].name
    {
      Map(EntityOf, annotations)
    }

    /** `count_references`: a counter over `(reference, name)` keys with one count per
        annotation. */
    function CountReferences(): (c: multiset<Entity>)
      ensures |c| == |annotations|
      ensures forall i :: 0 <= i < |annotations| ==> c[EntityOf(annotations[i])] > 0
      ensures forall e :: c[e] > 0 ==> e in Mentions()
    {
      multiset(Mentions())
    }

    /** The keys of that counter in its iteration order: each entity once, in order of first
        mention. */
    function Keys(): (r: seq<Entity>)
      ensures Distinct(r)
      ensures forall i :: 0 <= i < |r| ==> r[i] in Mentions() && CountReferences()[r[i]] > 0
      ensures forall i :: 0 <= i < |annotations| ==> EntityOf(annotations[i]) in r
    {
      Dedup(Mentions())
    }
  }

  /** Each key's count is the number of annotations that mention it. */
  lemma CountIsMentions(article: AnnotatedArticle)
    ensures forall e :: article.CountReferences()[e] == Count(article.Mentions(), e)
  {
    MultisetCount(article.Mentions());
  }

  /** The counter iterates its keys in order of first mention. */
  lemma KeysInMentionOrder(article: AnnotatedArticle)
    ensures forall i, j :: 0 <= i < j < |article.Keys()| ==>
      FirstIndex(article.Mentions(), article.Keys()[i]) < FirstIndex(article.Mentions(), article.Keys()[j])
  {
    DedupOrder(article.Mentions());
  }

  /** The counter's keys pair the reference with the name: one reference annotated under two
      names gives two keys, each counted once. */
  lemma TwoNamesTwoKeys(ref: Reference, name1: string, name2: string, article: AnnotatedArticle)
    requires name1 != name2
    requires article.annotations == [Annotation(ref, name1, 0, 1), Annotation(ref, name2, 2, 3)]
    ensures article.Keys() == [Entity(ref, name1), Entity(ref, name2)]
    ensures article.CountReferences()[Entity(ref, name1)] == 1
    ensures article.CountReferences()[Entity(ref, name2)] == 1
  {
    var ms := article.Mentions();
    assert ms == [Entity(ref, name1), Entity(ref, name2)];
    DedupDistinct(ms);
  }

  /** Mentioning an entity again changes the counter's count for it but not its keys. */
  lemma RepeatKeepsKeys(article: AnnotatedArticle, i: nat, annotation: Annotation)
    requires i < |article.annotations|
    requires EntityOf(annotation) == EntityOf(article.annotations[i])
    ensures var again := article.(annotations := article.annotations + [annotation]);
      again.Keys() == article.Keys() &&
      again.CountReferences() == article.CountReferences() + multiset{EntityOf(annotation)}
  {
    var again := article.(annotations := article.annotations + [annotation]);
    assert again.Mentions() == article.Mentions() + [article.Mentions()[i]];
    DedupRepeat(article.Mentions(), i);
  }

  /** `pubmed_ids[:limit]` when a limit is given, with Python's slice rules: a negative
      limit drops that many IDs from the end. */
  function ApplyLimit<T>(ids: seq<T>, limit: Option<int>): (r: seq<T>)
    ensures limit.None? ==> r == ids
    ensures |r| <= |ids| && r == ids[..|r|]
    ensures limit.Some? && limit.value >= 0 ==> |r| == (if limit.value < |ids| then limit.value else |ids|)
    ensures limit.Some? && limit.value < 0 ==> |r| == (if |ids| + limit.value > 0 then |ids| + limit.value else 0)
  {
    match limit
    case None => ids
    case Some(n) =>
      var stop := if n < 0 then |ids| + n else n;
      if stop <= 0 then [] else if stop >= |ids| then ids else ids[..stop]
  }

  /** Cutting twice at the same non-negative limit is cutting once. */
  lemma LimitIdempotent<T>(ids: seq<T>, n: nat)
    ensures ApplyLimit(ApplyLimit(ids, Some(n)), Some(n)) == ApplyLimit(ids, Some(n))
  {
    var once := ApplyLimit(ids, Some(n));
    assert |once| <= n;
    assert ApplyLimit(once, Some(n)) == once[..|once|];
  }

  /** `batched(s, n)` for `n >= 1`: consecutive batches of `n`, the last one possibly
      shorter. */
  function Batches<T>(s: seq<T>, n: nat): (r: seq<seq<T>>)
    requires n >= 1
    ensures Flatten(r) == s
    ensures forall i :: 0 <= i < |r| ==> 1 <= |r[i]| <= n
    ensures forall i :: 0 <= i < |r| - 1 ==> |r[i]| == n
    decreases |s|
  {
    if s == [] then []
    else if |s| <= n then
      assert Flatten([s]) == s + Flatten([s][1..]);
      [s]
    else
      var rest := Batches(s[n..], n);
      assert Flatten([s[..n]] + rest) == s[..n] + Flatten(rest) by {
        assert ([s[..n]] + rest)[1..] == rest;
      }
      assert s == s[..n] + s[n..];
      [s[..n]] + rest
  }

  /** There are `ceil(|s| / n)` batches: just enough to hold `s`, none to spare. */
  lemma {:induction false} BatchCount<T>(s: seq<T>, n: nat)
    requires n >= 1
    ensures |s| <= |Batches(s, n)| * n
    ensures |s| > 0 ==> (|Batches(s, n)| - 1) * n < |s|
    decreases |s|
  {
    if |s| > n {
      var k := |Batches(s[n..], n)|;
      BatchCount(s[n..], n);
      assert |Batches(s, n)| == k + 1;
      assert (k + 1) * n == k * n + n;
      assert (k - 1) * n + n == k * n;
    }
  }

  /** A row of the cleaned data frame that retrieval returns: PubMed ID, title, abstract. */
  datatype TextRow = TextRow(pubmed: string, title: string, abstractText: string)

  /** Retrieval of one batch (`get_pubmed_dataframe` and `reset_index`) and the loaded
      grounder's `annotate`. */
  type Retrieval = seq<PubmedId> -> Result<seq<TextRow>, RetrieveError>
  type Annotator = string -> seq<Annotation>

  /** The article built for one retrieved row: the abstract, and only the abstract, is
      annotated. */
  function ArticleOf(annotate: Annotator, row: TextRow): AnnotatedArticle
  {
    AnnotatedArticle(row.pubmed, row.title, row.abstractText, annotate(row.abstractText))
  }

  function Articles(annotate: Annotator, rows: seq<TextRow>): (r: seq<AnnotatedArticle>)
    ensures |r| == |rows|
    ensures forall i :: 0 <= i < |rows| ==>
      r[i].pubmed == rows[i].pubmed && r[i].title == rows[i].title &&
      r[i].abstractText == rows[i].abstractText && r[i].annotations == annotate(rows[i].abstractText)
  {
    Map(row => ArticleOf(annotate, row), rows)
  }

  lemma ArticlesAppend(annotate: Annotator, a: seq<TextRow>, b: seq<TextRow>)
    ensures Articles(annotate, a + b) == Articles(annotate, a) + Articles(annotate, b)
  {
  }

  /** The rows retrieved for each batch, nothing for a batch whose retrieval fails. */
  function RowsOf(retrieve: Retrieval, batches: seq<seq<PubmedId>>): (r: seq<seq<TextRow>>)
    ensures |r| == |batches|
    ensures forall i :: 0 <= i < |batches| && retrieve(batches[i]).Ok? ==> r[i] == retrieve(batches[i]).value
  {
    Map(b => if retrieve(b).Ok? then retrieve(b).value else [], batches)
  }

  /** What the driver produces for a list of batches, batch after batch: the first failing
      retrieval, or the articles collected so far followed by those of the next batch. */
  function AnnotateBatches(retrieve: Retrieval, annotate: Annotator, batches: seq<seq<PubmedId>>)
    : Result<seq<AnnotatedArticle>, RetrieveError>
  {
    if batches == [] then Ok([])
    else
      var done :- AnnotateBatches(retrieve, annotate, batches[..|batches| - 1]);
      var rows :- retrieve(batches[|batches| - 1]);
      Ok(done + Articles(annotate, rows))
  }

  /** The driver succeeds exactly when every batch's retrieval does, and then yields the
      articles of all retrieved rows, batch after batch and row after row. */
  lemma {:induction false} AnnotateBatchesClosedForm(retrieve: Retrieval, annotate: Annotator, batches: seq<seq<PubmedId>>)
    ensures AnnotateBatches(retrieve, annotate, batches).Ok? <==>
      forall i :: 0 <= i < |batches| ==> retrieve(batches[i]).Ok?
    ensures AnnotateBatches(retrieve, annotate, batches).Ok? ==>
      AnnotateBatches(retrieve, annotate, batches).value == Articles(annotate, Flatten(RowsOf(retrieve, batches)))
  {
    if batches != [] {
      var init := batches[..|batches| - 1];
      var last := batches[|batches| - 1];
      AnnotateBatchesClosedForm(retrieve, annotate, init);
      assert batches == init + [last];
      assert forall i :: 0 <= i < |init| ==> init[i] == batches[i];
      if AnnotateBatches(retrieve, annotate, batches).Ok? {
        var rows := retrieve(last).value;
        assert RowsOf(retrieve, batches) == RowsOf(retrieve, init) + [rows];
        FlattenAppend(RowsOf(retrieve, init), [rows]);
        assert Flatten([rows]) == rows + Flatten([rows][1..]);
        ArticlesAppend(annotate, Flatten(RowsOf(retrieve, init)), rows);
      }
    }
  }

  /** A failed batch decides the outcome whatever batches follow it. */
  lemma {:induction false} FailureStops(retrieve: Retrieval, annotate: Annotator, batches: seq<seq<PubmedId>>, k: nat)
    requires k <= |batches|
    requires AnnotateBatches(retrieve, annotate, batches[..k]).Err?
    ensures AnnotateBatches(retrieve, annotate, batches) == AnnotateBatches(retrieve, annotate, batches[..k])
    decreases |batches|
  {
    if k < |batches| {
      var init := batches[..|batches| - 1];
      assert init[..k] == batches[..k];
      FailureStops(retrieve, annotate, init, k);
    } else {
      assert batches[..k] == batches;
    }
  }

  /** One more batch whose retrieval succeeds appends the articles of its rows. */
  lemma AnnotateBatchesStep(retrieve: Retrieval, annotate: Annotator, batches: seq<seq<PubmedId>>, i: nat,
                            done: seq<AnnotatedArticle>, rows: seq<TextRow>)
    requires i < |batches|
    requires AnnotateBatches(retrieve, annotate, batches[..i]) == Ok(done)
    requires retrieve(batches[i]) == Ok(rows)
    ensures AnnotateBatches(retrieve, annotate, batches[..i + 1]) == Ok(done + Articles(annotate, rows))
  {
    assert batches[..i + 1][..i] == batches[..i];
  }

  /** One more batch whose retrieval fails ends the run with that failure. */
  lemma AnnotateBatchesFail(retrieve: Retrieval, annotate: Annotator, batches: seq<seq<PubmedId>>, i: nat,
                            done: seq<AnnotatedArticle>)
    requires i < |batches|
    requires AnnotateBatches(retrieve, annotate, batches[..i]) == Ok(done)
    requires retrieve(batches[i]).Err?
    ensures AnnotateBatches(retrieve, annotate, batches) == Err(retrieve(batches[i]).error)
  {
    assert batches[..i + 1][..i] == batches[..i];
    FailureStops(retrieve, annotate, batches, i + 1);
  }

  /** The inner loop: one annotated article per retrieved row, appended in row order. */
  method AnnotateRows(annotate: Annotator, rows: seq<TextRow>, rv: seq<AnnotatedArticle>)
    returns (out: seq<AnnotatedArticle>)
    ensures out == rv + Articles(annotate, rows)
  {
    out := rv;
    var j := 0;
    while j < |rows|
      invariant 0 <= j <= |rows|
      invariant out == rv + Articles(annotate, rows[..j])
    {
      var row := rows[j];
      out := out + [AnnotatedArticle(row.pubmed, row.title, row.abstractText, annotate(row.abstractText))];
      assert rows[..j + 1] == rows[..j] + [rows[j]];
      ArticlesAppend(annotate, rows[..j], [rows[j]]);
      j := j + 1;
    }
    assert rows[..j] == rows;
  }

  /** The message of Python's `ZeroDivisionError` for `//` by zero. */
  const ZeroDivisionMessage: string := "integer division or modulo by zero"

  /** `annotate_abstracts_from_pubmeds`: batches the IDs, retrieves each batch and appends
      one annotated article per retrieved row. The progress bar's total `1 + n // batch_size`
      is computed before the first batch is drawn, so a batch size of zero fails there; a
      negative one passes that division and `batched` then refuses it. */
  method AnnotateAbstractsFromPubmeds(retrieve: Retrieval, annotate: Annotator, pubmedIds: seq<PubmedId>,
                                      batchSize: int)
    returns (r: Result<seq<AnnotatedArticle>, RetrieveError>)
    ensures batchSize == 0 ==> r == Err(OtherError(ZeroDivisionMessage))
    ensures batchSize < 0 ==> r == Err(ValueError("n must be at least one"))
    ensures batchSize >= 1 ==> r == AnnotateBatches(retrieve, annotate, Batches(pubmedIds, batchSize))
  {
    if batchSize == 0 {
      return Err(OtherError(ZeroDivisionMessage));
    }
    if batchSize < 1 {
      return Err(ValueError("n must be at least one"));
    }
    var batches := Batches(pubmedIds, batchSize);
    var rv: seq<AnnotatedArticle> := [];
    var i := 0;
    while i < |batches|
      invariant 0 <= i <= |batches|
      invariant AnnotateBatches(retrieve, annotate, batches[..i]) == Ok(rv)
    {
      var articlesDf := retrieve(batches[i]);
      if articlesDf.Err? {
        AnnotateBatchesFail(retrieve, annotate, batches, i, rv);
        return Err(articlesDf.error);
      }
      AnnotateBatchesStep(retrieve, annotate, batches, i, rv, articlesDf.value);
      rv := AnnotateRows(annotate, articlesDf.value, rv);
      i := i + 1;
    }
    assert batches[..i] == batches;
    return Ok(rv);
  }

  /** The driver's output: one article per retrieved row, in batch order and then row order,
      each annotated from its abstract; the batches cover the IDs in order. */
  lemma DriverLayout(retrieve: Retrieval, annotate: Annotator, pubmedIds: seq<PubmedId>, batchSize: nat)
    requires batchSize >= 1
    requires AnnotateBatches(retrieve, annotate, Batches(pubmedIds, batchSize)).Ok?
    ensures var articles := AnnotateBatches(retrieve, annotate, Batches(pubmedIds, batchSize)).value;
      var rows := RowsOf(retrieve, Batches(pubmedIds, batchSize));
      |articles| == Sum(Map((b: seq<TextRow>) => |b|, rows)) &&
      forall k :: 0 <= k < |articles| ==> articles[k].annotations == annotate(articles[k].abstractText)
  {
    AnnotateBatchesClosedForm(retrieve, annotate, Batches(pubmedIds, batchSize));
    FlattenLength(RowsOf(retrieve, Batches(pubmedIds, batchSize)));
  }

  /** The title of a retrieved row never reaches the grounder: rows that differ only in
      their titles give articles with the same annotations. */
  lemma TitleNotAnnotated(annotate: Annotator, row: TextRow, title: string)
    ensures ArticleOf(annotate, row.(title := title)).annotations == ArticleOf(annotate, row).annotations
  {
  }

  /** The batch size `annotate_abstracts_from_search` leaves at its default. */
  const DefaultBatchSize := 20000

  /** `annotate_abstracts_from_search` after the search: the found IDs, cut at `limit`,
      go through the driver with the default batch size. */
  method AnnotateAbstractsFromSearch(retrieve: Retrieval, annotate: Annotator, found: seq<string>,
                                     limit: Option<int>)
    returns (r: Result<seq<AnnotatedArticle>, RetrieveError>)
    ensures r == AnnotateBatches(retrieve, annotate,
                                 Batches(Map((s: string) => PmidText(s), ApplyLimit(found, limit)), DefaultBatchSize))
  {
    var pubmedIds := found;
    if limit.Some? {
      pubmedIds := ApplyLimit(pubmedIds, limit);
    }
    r := AnnotateAbstractsFromPubmeds(retrieve, annotate, Map((s: string) => PmidText(s), pubmedIds), DefaultBatchSize);
  }
}
