# biolexica in Dafny

biolexica builds lexica for biomedical named-entity recognition. It merges literal mappings
(a reference, a text, a synonym relation, an optional entity type, provenance) from several
ontology sources. It rewrites identifiers through priority equivalence mappings, drops
excluded references and summarises the result. It then uses a grounder built from a lexicon
to annotate PubMed abstracts and counts which entities are mentioned, and which are
mentioned together. This project models the parts of that pipeline that are its own logic:

- `api.dfy` (module `Api`) covers lexicon assembly (`assemble_terms`, `get_literal_mappings`),
  the summary (`summarize_terms`) and the hint resolution of `load_grounder`.
- `literal_mappings.dfy` (module `LiteralMappings`) holds the records and the two library
  steps that assembly applies: the projection check and the identifier rewrite. Both are
  given by the contract the assembler relies on, not by the libraries' code.
- `retrieve.dfy` (module `Retrieve`) covers PubMed identifier sorting (`_clean_pubmeds`), the
  data-frame cleaning (`clean_df`), the text transform of `_get_text` and the choice between
  the INDRA database and the PubMed API.
- `annotate.dfy` (module `Annotate`) covers the annotated-article record and its entity
  counter, the `limit` cut and the batch driver `annotate_abstracts_from_pubmeds`.
- `analyze.dfy` (module `Analyze`) covers `count_references` and `count_cooccurrences`.
- `review.dfy` (module `Review`) covers the download-link scan of `lexica/obo/review.py`.
- `wrappers.dfy`, `seqs.dfy` and `curies.dfy` provide `Option`/`Result`, sequence
  vocabulary (filter, map, flatten, order-preserving selection, first-occurrence
  deduplication) and CURIEs with Python's string order.

External sources (pyobo, bioontologies, the ssslm readers, biosynonyms, the semra mapping
configuration, the INDRA database, the PubMed API, the grounder's `annotate`) are
parameters: functions, or plain values such as the biosynonyms list. Python exceptions are `Err` values of a `Result`.

What `count_references` counts: it iterates each article's `Counter` and so sees each
distinct `(reference, name)` key once per article. The resulting count of an entity is the
number of articles mentioning it, not the number of mentions. Its total is therefore at most
the number of annotations, and equal to it exactly when no article repeats an entity
(`Analyze.ReferenceTotal`). A reading of the code as "total equals the number of
annotations" does not hold; the model follows the code.

## Model

| member | source | states |
|---|---|---|
| `Curies.ParseCurie` | src/biolexica/api.py:186-189 | `Reference.from_curie`: no result exactly when the string has no colon; otherwise the result's CURIE is the input string and its prefix holds no colon |
| `Curies.ParseCurieRoundTrip` | src/biolexica/api.py:187 | parsing the CURIE of a reference with a colon-free prefix gives that reference back |
| `LiteralMappings.FindConflict` | src/biolexica/api.py:149-152 | the projection check finds nothing exactly when no subject is paired with two objects, and what it finds is such a subject |
| `LiteralMappings.PairMap` | src/biolexica/api.py:153-155 | the subject-to-object dictionary has every subject as a key, and each value is an object the pairs give that subject |
| `LiteralMappings.PairMapOfProjection` | src/biolexica/api.py:149-155 | for a projection, the dictionary sends each subject to its one object |
| `LiteralMappings.Remap` | src/biolexica/api.py:153-156 | the rewrite keeps the number and order of records and every field except the reference; a record whose reference is a subject gets an object of that subject, any other is unchanged |
| `LiteralMappings.RemapTakesObject` | src/biolexica/api.py:149-156 | after a passed projection check, a record whose reference is a subject takes exactly that subject's object |
| `LiteralMappings.RemapAppend` | src/biolexica/api.py:153-156 | the rewrite works record by record: rewriting a concatenation concatenates the rewrites |
| `LiteralMappings.RemapIdempotent` | src/biolexica/api.py:149-156 | when no object is itself remapped elsewhere, rewriting twice equals rewriting once |
| `LiteralMappings.RemapChainNotIdempotent` | src/biolexica/api.py:153-156 | with a chain a->b->c the rewrite is one hop: a second pass moves the record again |
| `Api.ParseCuries` | src/biolexica/api.py:189 | every ancestor CURIE parses, in order, or the error names one without a colon |
| `Api.NormalizeAncestors` | src/biolexica/api.py:184-189 | no ancestors stay none; one CURIE becomes a one-element list and a list is parsed element-wise, each CURIE split at its first colon as `from_curie` does; failures are invalid-CURIE errors |
| `Api.SetDefault` | src/biolexica/api.py:193 | `setdefault`: the key is present afterwards, keeps a caller's value, otherwise gets the default; no other key changes |
| `Api.GetLiteralMappings` | src/biolexica/api.py:176-209 | a bad ancestor CURIE fails first; pyobo gets `strict` defaulted to false and the full or subset call by whether ancestors were given; bioontologies gets the keywords untouched; any other processor is an unknown-processor error |
| `Api.EmptyAncestorsTakeSubsetPath` | src/biolexica/api.py:184-207 | an empty ancestor list is not "no ancestors": it takes the subset call, with no ancestors |
| `Api.FetchInput` | src/biolexica/api.py:108-123 | the dispatch by processor: `ssslm` and `gilda` inputs go to their readers, `pyobo` and `bioontologies` inputs to `get_literal_mappings` with the input's keyword arguments (an empty dict when there are none), a keyword that repeats a named parameter is a `TypeError`, and an unknown processor fails with its name |
| `Api.CollectAppend` | src/biolexica/api.py:107-123 | collecting inputs `a + b` collects `a`, then `b`, and stops at the first failure |
| `Api.CollectOrder` | src/biolexica/api.py:107-123 | collection succeeds exactly when every input succeeds, and then is every input's records concatenated in configuration order |
| `Api.UnknownProcessorFails` | src/biolexica/api.py:122-123 | one input with an unknown processor makes assembly fail |
| `Api.PriorityPairs` | src/biolexica/api.py:137-147 | the pair list is the configured priority mappings followed by the explicit mappings |
| `Api.Exclude` | src/biolexica/api.py:158-160 | no excluded reference survives; survivors keep their order; every record with a non-excluded reference survives with all its copies (the multiset of survivors is that of the non-excluded records); no or empty excludes keep everything |
| `Api.AssembleTerms` | src/biolexica/api.py:95-173 | the imperative assembly loop produces exactly the pipeline value: inputs, extra terms, biosynonyms, projection check, rewrite, exclusion |
| `Api.RawTermsLayout` | src/biolexica/api.py:107-131 | the raw list succeeds exactly when every input does, and is the inputs' records, then the extra terms, then the biosynonyms when included |
| `Api.AmbiguousPairsFail` | src/biolexica/api.py:149-152 | pairs that are not a projection make assembly fail with an ambiguous subject |
| `Api.TwoTargetsFail` | src/biolexica/api.py:149-152 | a subject mapped to two different objects fails assembly with that subject |
| `Api.AssembleExcludes` | src/biolexica/api.py:158-160 | an assembled lexicon contains no excluded reference; it is the rewritten records in order, with every copy of each non-excluded record kept |
| `Api.NoPairsNoRewrite` | src/biolexica/api.py:149-156 | the check and rewrite always run, and with no pairs they change nothing |
| `Api.ExcludeScenario` | src/biolexica/api.py:158-160 | excluding `doid:4` from a source giving `doid:4` and `doid:10652` leaves only `doid:10652` |
| `Api.CounterOf` | src/biolexica/api.py:231-232 | `dict(counter)` has exactly the keys with a positive count, each with its count |
| `Api.SummarizeTerms` | src/biolexica/api.py:220-233 | the count is the number of records; the provenance counter counts every provenance prefix occurrence; the type counter counts the type CURIE of every typed record |
| `Api.CountPrefixes` | src/biolexica/api.py:225-226 | the inner loop adds one count per provenance reference, by prefix |
| `Api.SummaryStep` | src/biolexica/api.py:224-228 | one more record adds its provenance prefixes and, if typed, its type CURIE |
| `Api.ProvenanceTotal` | src/biolexica/api.py:225-226 | the provenance counter's total is the total number of provenance references |
| `Api.TypeTotalAtMostCount` | src/biolexica/api.py:227-228 | the type counter's total is at most the record count, equal exactly when every record is typed |
| `Api.ResolveGrounderHint` | src/biolexica/api.py:61-75 | a predefined key becomes a path under the lexica directory or the download URL, namely that head followed by `<key>/<key>.ssslm.tsv.gz` and nothing else; every other hint passes through unchanged |
| `Api.ResolveIdempotent` | src/biolexica/api.py:65-74 | resolving a resolved hint changes nothing |
| `Retrieve.ParseShowInt` | src/biolexica/literature/retrieve.py:40 | `int(str(n)) == n` for every integer identifier |
| `Retrieve.SortByKey` | src/biolexica/literature/retrieve.py:40 | the sort is ascending by integer value and a permutation of its input |
| `Retrieve.CleanPubmeds` | src/biolexica/literature/retrieve.py:39-40 | succeeds exactly when every identifier's string form is accepted by `ParseInt` (a sign and ASCII digits), and then returns those strings, duplicates kept, ascending by integer value |
| `Retrieve.NumbersAlwaysSort` | src/biolexica/literature/retrieve.py:39-40 | integer identifiers never make the sort fail |
| `Retrieve.CleanText` | src/biolexica/literature/retrieve.py:109-111 | newlines and tabs become spaces, every other character is kept, length unchanged |
| `Retrieve.TabifyText` | src/biolexica/literature/retrieve.py:85 | no newline remains; a tab appears exactly where a newline was; original tabs become spaces; other characters are kept |
| `Retrieve.TabifyOrderMatters` | src/biolexica/literature/retrieve.py:85 | the two replacements do not commute: in the code's order a newline ends as a tab, not a space |
| `Retrieve.CleanDf` | src/biolexica/literature/retrieve.py:106-112 | the rows kept are exactly those with both title and abstract, in order, with both texts cleaned; no kept text has a newline or tab |
| `Retrieve.CleanDfSteps` | src/biolexica/literature/retrieve.py:108-111 | the four-step pipeline (filter titles, clean titles, filter abstracts, clean abstracts) equals filtering complete rows and cleaning both |
| `Retrieve.TitleThenAbstract` | src/biolexica/literature/retrieve.py:108-110 | cleaning titles does not change which rows have an abstract |
| `Retrieve.CompleteRowsSurvive` | src/biolexica/literature/retrieve.py:106-112 | every row with title and abstract is in the cleaned frame |
| `Retrieve.EnsureDb` | src/biolexica/literature/retrieve.py:96-103 | a given database is used; with none given, the primary one; with neither it is a `ValueError` |
| `Retrieve.GetPubmedDataframe` | src/biolexica/literature/retrieve.py:24-36 | without the database option the API is used; with it, the database result unless it raised `ValueError` or `ImportError`, in which case the API result |
| `Retrieve.NoDatabaseFallsBack` | src/biolexica/literature/retrieve.py:28-36 | when no database can be reached, the API result is returned |
| `Annotate.AnnotatedArticle.CountReferences` | src/biolexica/literature/annotate.py:38-40 | the counter's total is the number of annotations, and its keys are exactly the mentioned `(reference, name)` pairs |
| `Annotate.CountIsMentions` | src/biolexica/literature/annotate.py:38-40 | each key's count is the number of annotations that mention it |
| `Annotate.AnnotatedArticle.Keys` | src/biolexica/literature/annotate.py:40 | iterating the counter yields each mentioned entity once, every one of them, each with a positive count |
| `Annotate.KeysInMentionOrder` | src/biolexica/literature/annotate.py:40 | the counter iterates its keys in order of first mention |
| `Annotate.TwoNamesTwoKeys` | src/biolexica/literature/annotate.py:40 | one reference under two names gives two keys, each counted once |
| `Annotate.RepeatKeepsKeys` | src/biolexica/literature/annotate.py:40 | mentioning an entity again raises its count by one and leaves the keys unchanged |
| `Annotate.ApplyLimit` | src/biolexica/literature/annotate.py:54-55 | no limit keeps all IDs; otherwise a prefix of the IDs, of length `min(limit, n)` or, for a negative limit, `max(0, n + limit)` |
| `Annotate.LimitIdempotent` | src/biolexica/literature/annotate.py:54-55 | cutting twice at the same limit is cutting once |
| `Annotate.Batches` | src/biolexica/literature/annotate.py:76-77 | the batches concatenate to the IDs in order; each is non-empty and at most the batch size; all but the last are exactly the batch size |
| `Annotate.BatchCount` | src/biolexica/literature/annotate.py:76-77 | the number of batches is the ceiling of IDs over batch size |
| `Annotate.Articles` | src/biolexica/literature/annotate.py:92-108 | one article per row, in order, carrying the row's ID, title and abstract and the annotations of its abstract |
| `Annotate.AnnotateRows` | src/biolexica/literature/annotate.py:92-108 | the inner loop over one batch's rows appends exactly one annotated article per row, in row order |
| `Annotate.AnnotateBatchesClosedForm` | src/biolexica/literature/annotate.py:83-108 | the driver succeeds exactly when every batch's retrieval does, and then yields the articles of all retrieved rows, batch by batch and row by row |
| `Annotate.FailureStops` | src/biolexica/literature/annotate.py:86 | a failed retrieval ends the run with that failure whatever batches follow |
| `Annotate.AnnotateAbstractsFromPubmeds` | src/biolexica/literature/annotate.py:61-110 | the nested loops produce the driver value for the batches of the given size; a batch size of zero fails with `ZeroDivisionError` in the progress bar's total, a negative one with `batched`'s `ValueError` |
| `Annotate.DriverLayout` | src/biolexica/literature/annotate.py:83-108 | the output length is the total number of retrieved rows, and every article's annotations are those of its abstract |
| `Annotate.TitleNotAnnotated` | src/biolexica/literature/annotate.py:106 | the title never reaches the grounder |
| `Annotate.AnnotateAbstractsFromSearch` | src/biolexica/literature/annotate.py:43-58 | the found IDs are cut at the limit and go through the driver with batch size 20000 |
| `Analyze.CountReferences` | src/biolexica/literature/analyze.py:18-26 | no entity is counted more often than there are articles |
| `Analyze.CountReferencesAppend` | src/biolexica/literature/analyze.py:22-26 | counting a concatenation of article lists adds the two counters |
| `Analyze.DocumentFrequency` | src/biolexica/literature/analyze.py:22-26 | an entity's count is the number of articles that mention it |
| `Analyze.ReferenceTotal` | src/biolexica/literature/analyze.py:18-26 | the total is at most the number of annotations, equal exactly when no article mentions an entity twice |
| `Analyze.RepeatCountedOnce` | src/biolexica/literature/analyze.py:24-25 | an article mentioning one entity twice contributes one count for two annotations |
| `Analyze.Choose2ClosedForm` | src/biolexica/literature/analyze.py:36 | the pair count per article is `k * (k - 1) / 2` |
| `Analyze.Combinations` | src/biolexica/literature/analyze.py:36 | `combinations(keys, 2)` yields `k * (k - 1) / 2` pairs of keys |
| `Analyze.CombinationsComplete` | src/biolexica/literature/analyze.py:36 | every pair of positions `i < j` occurs |
| `Analyze.CombinationsDistinct` | src/biolexica/literature/analyze.py:36 | over distinct keys, each pair joins two different keys and no two pairs join the same two |
| `Analyze.Orient` | src/biolexica/literature/analyze.py:34 | the pair is kept or swapped, never changed otherwise; the result is in key order (the first element's CURIE is at most the second's, and the second never sorts strictly before the first); a swap happens only when the second element sorts strictly first, so ties keep mention order as a stable sort does |
| `Analyze.ArticlePairs` | src/biolexica/literature/analyze.py:34-36 | an article with `k` distinct entities contributes `k * (k - 1) / 2` oriented pairs |
| `Analyze.PairShape` | src/biolexica/literature/analyze.py:34-36 | every counted pair joins two different entities of the article, lower CURIE first |
| `Analyze.ArticleCountsPairOnce` | src/biolexica/literature/analyze.py:36 | one article adds at most one to any pair's count, however often it repeats the entities |
| `Analyze.EveryPairCounted` | src/biolexica/literature/analyze.py:36 | any two different entities of an article are counted together |
| `Analyze.FewKeysNoPairs` | src/biolexica/literature/analyze.py:36 | articles with fewer than two distinct entities contribute nothing |
| `Analyze.Cooccurrences` | src/biolexica/literature/analyze.py:33-37 | no pair is counted more often than there are articles |
| `Analyze.CountCooccurrencesAsWritten` | src/biolexica/literature/analyze.py:29-37 | `count_cooccurrences` as written, pairs ordered by CURIE alone: no pair is counted more often than there are articles |
| `Analyze.CountCooccurrences` | src/biolexica/literature/analyze.py:29-37 | the same counter with CURIE ties broken by name: no pair is counted more often than there are articles |
| `Analyze.CooccurrencesAppend` | src/biolexica/literature/analyze.py:33-37 | counting a concatenation of article lists adds the two counters |
| `Analyze.CooccurrenceTotal` | src/biolexica/literature/analyze.py:33-37 | the counter's total is the sum over articles of `k * (k - 1) / 2` |
| `Analyze.AsWrittenSplitsPair` | src/biolexica/literature/analyze.py:34 | as written, one reference under two names is counted under `(x, y)` in one article and `(y, x)` in another |
| `Analyze.OrientSymmetric` | src/biolexica/literature/analyze.py:34 | with name tie-breaking, the orientation of two different entities does not depend on mention order |
| `Analyze.CorrectedKeepsPairTogether` | src/biolexica/literature/analyze.py:34 | with name tie-breaking, the two articles of the finding count one pair twice |
| `Review.SplitLines` | lexica/obo/review.py:17 | `splitlines` yields no lines for an empty body and no line contains a line boundary |
| `Review.SplitLinesRoundTrip` | lexica/obo/review.py:17 | the lines, each followed by the boundary that ended it (one boundary character or `\r\n`; the last line may end at the end of the text), rebuild the body; a final boundary does not start an empty last line, and `\r\n` is consumed as one boundary, never as `\r` followed by an empty line ended by `\n` |
| `Review.CrLfIsOneBoundary` | lexica/obo/review.py:17 | `\r\n` ends one line |
| `Review.LfCrIsTwoBoundaries` | lexica/obo/review.py:17 | `\n\r` ends two lines, the second of them empty |
| `Review.FirstMarker` | lexica/obo/review.py:19-21 | the first line containing "Ontology Download Link", or none when no line does |
| `Review.FirstNonEmpty` | lexica/obo/review.py:22-23 | the first non-empty line from a position on, or none when all remaining lines are empty |
| `Review.DownloadLink` | lexica/obo/review.py:17-24 | no marker gives no link; otherwise the first non-empty line strictly after the first marker line, and `StopIteration`, the only error a scan of lines raises, when only empty lines follow it |
| `Review.ScanDownloadLink` | lexica/obo/review.py:17-24 | the shared-iterator loop computes exactly that link |
| `Review.WhitespaceLineIsLink` | lexica/obo/review.py:22-23 | a whitespace-only line after the marker is taken as the link |
| `Review.LaterLinesIgnored` | lexica/obo/review.py:24 | once the link is found, appending lines changes nothing |
| `Review.GetIssues` | lexica/obo/review.py:11-27 | one `(number, login, link)` per issue, in issue order, when every scan succeeds; otherwise the call fails with the error of the first issue whose scan fails: `AttributeError` for a missing body, `StopIteration` for a marker followed only by empty lines |

## Left out

- File writes in `assemble_terms` (raw, processed, gilda and summary outputs) are side effects with no bearing on the returned list.
- The internals of `semra.api.assert_projection`, `ssslm.remap_literal_mappings` and `ssslm.make_grounder` are not part of this model. The first two are modelled by the behaviour assembly relies on: no subject with two objects, and one dictionary lookup per record.
- Matching and span annotation by the grounder are not modelled; `annotate` is a parameter.
- pyobo, bioontologies, biosynonyms, the ssslm readers, the semra mapping configuration, the INDRA database session and the PubMed client are I/O; their results are parameters.
- The GitHub request in `get_issues`, the PubMed search `query_pubmed`, and the CLI, web app and scenario scripts are network or user-interface code and are left out.
- Building the INDRA data frame from the two `_get_text` dictionaries is not modelled; only the per-text transform is.
- `Retrieve.ParseInt` accepts an optional sign and ASCII digits only. Python's `int` also accepts surrounding whitespace, underscores and non-ASCII digits.
- `Retrieve.CleanPubmeds` fails on identifiers that Python's `int` accepts but `Retrieve.ParseInt` does not: surrounding whitespace, underscores between digits and non-ASCII digits.
- `Retrieve.CleanPubmeds` does not state that identifiers with equal integer values keep their input order, which Python's stable `sorted` guarantees.
- `Retrieve.SortByKey` is proved sorted and a permutation. The stability of Python's `sorted` for strings with equal integer values (such as `"7"` and `"07"`) is not stated.
- `Annotate.Annotation` keeps only the entity and span offsets of ssslm's annotation record; other fields are not read by the modelled code.
- Progress bars, logging and timing in the annotation driver are not modelled.
- `Annotate.AnnotateAbstractsFromPubmeds` models a batch size of zero as the `ZeroDivisionError` of `1 + n_pmids // batch_size`, which is what a lazily checking `batched` gives. A `batched` that rejects the size when it is called raises `ValueError` first, so the error kind for zero depends on the library version.
- `Review.SplitLines` treats the character set of `str.splitlines` as given. It does not model `bytes.splitlines`.

## Findings

| source | as written | input that shows it | evidently intended | confidence | as-written member | corrected member |
|---|---|---|---|---|---|---|
| src/biolexica/literature/analyze.py:34 | each pair of `(reference, name)` keys is sorted by the reference's CURIE only, and the stable sort keeps mention order on ties | one reference `r` annotated as `x = (r, "a")` and `y = (r, "b")`, mentioned `x` then `y` in one article and `y` then `x` in another | an unordered pair lands on one counter key, so the pair is counted twice | not executed; low, since it needs one reference under two names | `Analyze.AsWrittenSplitsPair` | `Analyze.CorrectedKeepsPairTogether` |
