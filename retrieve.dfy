/** Literature retrieval helpers (`biolexica.literature.retrieve`): ordering PubMed
    identifiers, cleaning a title/abstract table, the whitespace rewrite applied to texts
    from the INDRA database, and the choice between the database and the PubMed API.
    A data frame is a sequence of rows whose title and abstract may be missing; the
    database and API clients themselves are not part of this model. */
module Retrieve {
  import opened Wrappers
  import opened Seqs

  /** The exceptions the modelled code distinguishes: `ValueError`, `ImportError`, and any
      other exception (such as `ZeroDivisionError`) by its message. */
  datatype RetrieveError = ValueError(message: string) | ImportError(name: string) | OtherError(message: string)

  // ---------------------------------------------------------------------------
  // _clean_pubmeds

  /** An identifier as callers pass it: a string or an integer. */
  datatype PubmedId = PmidText(text: string) | PmidNumber(number: int)

  predicate IsDigit(c: char) { '0' <= c <= '9' }

  predicate AllDigits(s: string) { forall i :: 0 <= i < |s| ==> IsDigit(s[i]) }

  function DigitChar(d: nat): (c: char)
    requires d < 10
    ensures IsDigit(c) && c as int - '0' as int == d
  {
    ('0' as int + d) as char
  }

  /** Decimal digits of a natural number, most significant first. */
  function ShowNat(n: nat): (s: string)
    ensures |s| > 0 && AllDigits(s)
    decreases n
  {
    if n < 10 then [DigitChar(n)] else ShowNat(n / 10) + [DigitChar(n % 10)]
  }

  /** `str(n)` for an integer. */
  function ShowInt(n: int): string
  {
    if n < 0 then "-" + ShowNat(-n) else ShowNat(n)
  }

  /** `str(x)` for either kind of identifier. */
  function Str(id: PubmedId): string
  {
    match id
    case PmidText(s) => s
    case PmidNumber(n) => ShowInt(n)
  }

  /** The value of a string of decimal digits. */
  function DigitsValue(s: string): nat
    requires AllDigits(s)
  {
    if s == [] then 0 else DigitsValue(s[..|s| - 1]) * 10 + (s[|s| - 1] as int - '0' as int)
  }

  /** `int(s)` on an optionally signed run of decimal digits; anything else raises. */
  function ParseInt(s: string): (r: Option<int>)
    ensures r.Some? ==> |s| > 0
  {
    if |s| > 1 && (s[0] == '-' || s[0] == '+') && AllDigits(s[1..]) then
      Some(if s[0] == '-' then -(DigitsValue(s[1..]) as int) else DigitsValue(s[1..]))
    else if |s| > 0 && AllDigits(s) then Some(DigitsValue(s))
    else None
  }

  lemma {:induction false} ShowNatValue(n: nat)
    ensures DigitsValue(ShowNat(n)) == n
    decreases n
  {
    if n >= 10 {
      ShowNatValue(n / 10);
      var s := ShowNat(n);
      assert s[..|s| - 1] == ShowNat(n / 10);
    }
  }

  /** `int(str(n)) == n`: printing an integer and parsing it back gives it back. */
  lemma ParseShowInt(n: int)
    ensures ParseInt(ShowInt(n)) == Some(n)
  {
    if n < 0 {
      ShowNatValue(-n);
      assert ShowInt(n)[1..] == ShowNat(-n);
    } else {
      ShowNatValue(n);
      var s := ShowNat(n);
      assert !(|s| > 1 && (s[0] == '-' || s[0] == '+'));
    }
  }

  /** The integer value `int` gives a string form (used once every form has one). */
  function SortKey(t: string): int
  {
    match ParseInt(t)
    case Some(v) => v
    case None => 0
  }

  predicate SortedByKey(s: seq<string>)
  {
    forall i, j :: 0 <= i < j < |s| ==> SortKey(s[i]) <= SortKey(s[j])
  }

  /** Insert before the first element whose key is not smaller, so that equal keys keep
      their input order. */
  function Insert(x: string, s: seq<string>): (r: seq<string>)
    requires SortedByKey(s)
    ensures SortedByKey(r) && multiset(r) == multiset(s) + multiset{x}
    ensures |r| == |s| + 1 && r[0] == (if s == [] || SortKey(x) <= SortKey(s[0]) then x else s[0])
  {
    if s == [] || SortKey(x) <= SortKey(s[0]) then [x] + s
    else
      var rest := Insert(x, s[1..]);
      assert s == [s[0]] + s[1..];
      assert SortKey(s[0]) <= SortKey(rest[0]);
      [s[0]] + rest
  }

  /** `sorted(strs, key=int)`, by insertion. */
  function SortByKey(s: seq<string>): (r: seq<string>)
    ensures SortedByKey(r) && multiset(r) == multiset(s)
  {
    if s == [] then []
    else
      assert s == [s[0]] + s[1..];
      Insert(s[0], SortByKey(s[1..]))
  }

  /** The first string form that `int` refuses, if any. */
  function FirstUnparsable(strs: seq<string>): (r: Option<string>)
    ensures r.None? <==> forall i :: 0 <= i < |strs| ==> ParseInt(strs[i]).Some?
    ensures r.Some? ==> r.value in strs && ParseInt(r.value).None?
  {
    if strs == [] then None
    else if ParseInt(strs[0]).None? then Some(strs[0])
    else
      assert forall i :: 1 <= i < |strs| ==> strs[1..][i - 1] == strs[i];
      FirstUnparsable(strs[1..])
  }

  /** `_clean_pubmeds`: the string forms sorted ascending by integer value. It raises
      `ValueError` when a string form is not an integer; otherwise the result is a
      permutation of the string forms, duplicates included. */
  function CleanPubmeds(ids: seq<PubmedId>): (r: Result<seq<string>, RetrieveError>)
    ensures r.Ok? <==> forall i :: 0 <= i < |ids| ==> ParseInt(Str(ids[i])).Some?
    ensures r.Ok? ==> |r.value| == |ids| && multiset(r.value) == multiset(Map(Str, ids))
    ensures r.Ok? ==> forall i, j :: 0 <= i < j < |r.value| ==>
      ParseInt(r.value[i]).Some? && ParseInt(r.value[j]).Some? &&
      ParseInt(r.value[i]).value <= ParseInt(r.value[j]).value
  {
    var strs := Map(Str, ids);
    match FirstUnparsable(strs)
    case Some(bad) => Err(ValueError(bad))
    case None =>
      var sorted := SortByKey(strs);
      assert |sorted| == |multiset(sorted)| == |strs|;
      forall i | 0 <= i < |sorted|
        ensures ParseInt(sorted[i]).Some? && ParseInt(sorted[i]).value == SortKey(sorted[i])
      {
        assert sorted[i] in multiset(strs);
      }
      Ok(sorted)
  }

  /** Integer identifiers always have an integer string form, so sorting them never raises. */
  lemma NumbersAlwaysSort(ids: seq<PubmedId>)
    requires forall i :: 0 <= i < |ids| ==> ids[i].PmidNumber?
    ensures CleanPubmeds(ids).Ok?
  {
    forall i | 0 <= i < |ids| ensures ParseInt(Str(ids[i])).Some? {
      ParseShowInt(ids[i].number);
    }
  }

  // ---------------------------------------------------------------------------
  // Whitespace rewriting

  /** `s.replace(target, replacement)` for one-character arguments. */
  function ReplaceChar(s: string, target: char, replacement: char): (r: string)
    ensures |r| == |s|
    ensures forall i :: 0 <= i < |s| ==> r[i] == (if s[i] == target then replacement else s[i])
  {
    if s == [] then [] else [if s[0] == target then replacement else s[0]] + ReplaceChar(s[1..], target, replacement)
  }

  /** The rewrite `clean_df` applies to titles and abstracts. */
  function CleanText(s: string): (r: string)
    ensures '\n' !in r && '\t' !in r
    ensures |r| == |s|
    ensures forall i :: 0 <= i < |s| ==> r[i] == (if s[i] == '\n' || s[i] == '\t' then ' ' else s[i])
  {
    ReplaceChar(ReplaceChar(s, '\n', ' '), '\t', ' ')
  }

  /** The rewrite `_get_text` applies to database texts: tabs become spaces, then newlines
      become tabs, so the output's tabs mark exactly the input's newlines. */
  function TabifyText(s: string): (r: string)
    ensures '\n' !in r
    ensures |r| == |s|
    ensures forall i :: 0 <= i < |s| ==> (r[i] == '\t' <==> s[i] == '\n')
    ensures forall i :: 0 <= i < |s| ==> s[i] == '\t' ==> r[i] == ' '
    ensures forall i :: 0 <= i < |s| && s[i] != '\t' && s[i] != '\n' ==> r[i] == s[i]
  {
    ReplaceChar(ReplaceChar(s, '\t', ' '), '\n', '\t')
  }

  /** Running the two replacements the other way round would lose the newlines: every tab
      produced from a newline would become a space again. */
  lemma TabifyOrderMatters()
    ensures ReplaceChar(ReplaceChar("\n", '\n', '\t'), '\t', ' ') == " "
    ensures TabifyText("\n") == "\t"
  {
  }

  // ---------------------------------------------------------------------------
  // clean_df

  /** A data-frame row: a PubMed identifier with a title and an abstract, either of which
      may be missing (NaN). */
  datatype Row = Row(pubmed: string, title: Option<string>, abstractText: Option<string>)

  predicate TitlePresent(row: Row) { row.title.Some? }
  predicate AbstractPresent(row: Row) { row.abstractText.Some? }
  predicate Complete(row: Row) { row.title.Some? && row.abstractText.Some? }

  function CleanTitle(row: Row): Row
  {
    if row.title.Some? then row.(title := Some(CleanText(row.title.value))) else row
  }

  function CleanAbstract(row: Row): Row
  {
    if row.abstractText.Some? then row.(abstractText := Some(CleanText(row.abstractText.value))) else row
  }

  function CleanRow(row: Row): Row { CleanAbstract(CleanTitle(row)) }

  function Pubmed(row: Row): string { row.pubmed }

  /** A cleaned row: both texts present, no newline or tab in either. */
  predicate IsClean(row: Row)
  {
    row.title.Some? && row.abstractText.Some? &&
    '\n' !in row.title.value && '\t' !in row.title.value &&
    '\n' !in row.abstractText.value && '\t' !in row.abstractText.value
  }

  /** `clean_df`: drop rows without a title, clean the titles, drop rows without an
      abstract, clean the abstracts. Equivalently: keep the complete rows, in order, and
      clean both texts. */
  method CleanDf(df: seq<Row>) returns (out: seq<Row>)
    ensures out == Map(CleanRow, Filter(Complete, df))
    ensures forall i :: 0 <= i < |out| ==> IsClean(out[i])
    ensures Subseq(Map(Pubmed, out), Map(Pubmed, df))
    ensures |out| == |Filter(Complete, df)|
  {
    var frame := Filter(TitlePresent, df);
    frame := Map(CleanTitle, frame);
    frame := Filter(AbstractPresent, frame);
    frame := Map(CleanAbstract, frame);
    CleanDfSteps(df);
    out := frame;
    FilterIsSubseq(Complete, df);
    SubseqMap(Pubmed, Filter(Complete, df), df);
    assert Map(Pubmed, out) == Map(Pubmed, Filter(Complete, df));
  }

  lemma {:induction false} CleanDfSteps(df: seq<Row>)
    ensures Map(CleanAbstract, Filter(AbstractPresent, Map(CleanTitle, Filter(TitlePresent, df))))
      == Map(CleanRow, Filter(Complete, df))
  {
    TitleThenAbstract(df);
    var c := Filter(Complete, df);
    assert Map(CleanAbstract, Map(CleanTitle, c)) == Map(CleanRow, c);
  }

  /** Filtering on the title, cleaning titles and filtering on the abstract is filtering on
      both, then cleaning titles. */
  lemma {:induction false} TitleThenAbstract(df: seq<Row>)
    ensures Filter(AbstractPresent, Map(CleanTitle, Filter(TitlePresent, df))) == Map(CleanTitle, Filter(Complete, df))
  {
    if df != [] {
      var x := df[0];
      TitleThenAbstract(df[1..]);
      var t' := Filter(TitlePresent, df[1..]);
      var c' := Filter(Complete, df[1..]);
      if TitlePresent(x) {
        assert Filter(TitlePresent, df) == [x] + t';
        MapCons(CleanTitle, x, t');
        FilterCons(AbstractPresent, CleanTitle(x), Map(CleanTitle, t'));
        if Complete(x) {
          assert Filter(Complete, df) == [x] + c';
          MapCons(CleanTitle, x, c');
        } else {
          assert Filter(Complete, df) == c';
        }
      } else {
        assert Filter(TitlePresent, df) == t' && Filter(Complete, df) == c';
      }
    }
  }

  lemma FilterCons<T>(p: T -> bool, x: T, s: seq<T>)
    ensures Filter(p, [x] + s) == (if p(x) then [x] else []) + Filter(p, s)
  {
    assert ([x] + s)[0] == x && ([x] + s)[1..] == s;
  }

  lemma MapCons<T, U>(f: T -> U, x: T, s: seq<T>)
    ensures Map(f, [x] + s) == [f(x)] + Map(f, s)
  {
  }

  /** A row with a title and an abstract survives cleaning, cleaned. */
  lemma CompleteRowsSurvive(df: seq<Row>, i: nat)
    requires i < |df| && Complete(df[i])
    ensures CleanRow(df[i]) in Map(CleanRow, Filter(Complete, df))
  {
    var f := Filter(Complete, df);
    var k :| 0 <= k < |f| && f[k] == df[i];
    assert Map(CleanRow, f)[k] == CleanRow(df[i]);
  }

  // ---------------------------------------------------------------------------
  // Database or API

  /** A database connection handle. */
  datatype Db = Db(name: string)

  /** `_ensure_db`: the given handle, else the primary one; none at all raises `ValueError`. */
  function EnsureDb(given: Option<Db>, primary: Option<Db>): (r: Result<Db, RetrieveError>)
    ensures r.Err? <==> given.None? && primary.None?
    ensures r.Err? ==> r.error.ValueError?
    ensures given.Some? ==> r == Ok(given.value)
    ensures given.None? && primary.Some? ==> r == Ok(primary.value)
  {
    if given.Some? then Ok(given.value)
    else if primary.Some? then Ok(primary.value)
    else Err(ValueError("Could not connect to INDRA DB"))
  }

  /** `_from_indra_db`, with the import of `indra_db` and the query as parameters. */
  function FromIndraDb(indraDbInstalled: bool, given: Option<Db>, primary: Option<Db>,
                       query: Db -> Result<seq<Row>, RetrieveError>): Result<seq<Row>, RetrieveError>
  {
    if !indraDbInstalled then Err(ImportError("indra_db"))
    else
      var db :- EnsureDb(given, primary);
      query(db)
  }

  /** `get_pubmed_dataframe`: the database path when asked for and it succeeds; on
      `ValueError` or `ImportError` from it, or when not asked for, the API path; any other
      error propagates. */
  function GetPubmedDataframe(useIndraDb: bool, fromIndraDb: Result<seq<Row>, RetrieveError>,
                              fromApi: Result<seq<Row>, RetrieveError>): (r: Result<seq<Row>, RetrieveError>)
    ensures !useIndraDb ==> r == fromApi
    ensures useIndraDb && fromIndraDb.Ok? ==> r == fromIndraDb
    ensures useIndraDb && fromIndraDb.Err? && !fromIndraDb.error.OtherError? ==> r == fromApi
    ensures useIndraDb && fromIndraDb.Err? && fromIndraDb.error.OtherError? ==> r == fromIndraDb
  {
    if useIndraDb then
      match fromIndraDb
      case Ok(rows) => Ok(rows)
      case Err(OtherError(m)) => Err(OtherError(m))
      case Err(_) => fromApi
    else fromApi
  }

  /** With no database connection the retrieval falls back to the PubMed API. */
  lemma NoDatabaseFallsBack(query: Db -> Result<seq<Row>, RetrieveError>, fromApi: Result<seq<Row>, RetrieveError>,
                            installed: bool)
    ensures GetPubmedDataframe(true, FromIndraDb(installed, None, None, query), fromApi) == fromApi
  {
  }
}
