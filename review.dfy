/** Reviewing OBO Foundry new-ontology requests (`lexica/obo/review.py`): the scan that
    pulls the download link out of each issue body. The HTTP request that fetches the
    issues is not part of this model; the issues are a parameter. */
module Review {
  import opened Wrappers
  import opened Seqs

  const Marker: string := "Ontology Download Link"

  /** Python's `sub in s` on strings. */
  predicate Contains(s: string, sub: string)
    decreases |s|
  {
    StartsWith(s, sub) || (s != [] && Contains(s[1..], sub))
  }

  /** The line boundaries of `str.splitlines`. */
  predicate IsLineBoundary(c: char)
  {
    c == '\n' || c == '\r' || c == '\U{000B}' || c == '\U{000C}' || c == '\U{001C}' || c == '\U{001D}' ||
    c == '\U{001E}' || c == '\U{0085}' || c == '\U{2028}' || c == '\U{2029}'
  }

  /** Index of the first line boundary in `s`, or `|s|`. */
  function LineEnd(s: string): (i: nat)
    ensures i <= |s| && (i < |s| ==> IsLineBoundary(s[i]))
    ensures forall k :: 0 <= k < i ==> !IsLineBoundary(s[k])
  {
    if s == [] || IsLineBoundary(s[0]) then 0 else 1 + LineEnd(s[1..])
  }

  /** `s.splitlines()`: split at every boundary, `\r\n` counting as one; a final boundary
      does not start an empty last line. */
  function SplitLines(s: string): (lines: seq<string>)
    ensures s == [] <==> lines == []
    ensures forall j :: 0 <= j < |lines| ==> forall k :: 0 <= k < |lines[j]| ==> !IsLineBoundary(lines[j][k])
    decreases |s|
  {
    if s == [] then []
    else
      var i := LineEnd(s);
      if i == |s| then [s]
      else
        var next := if s[i] == '\r' && i + 1 < |s| && s[i + 1] == '\n' then i + 2 else i + 1;
        [s[..i]] + SplitLines(s[next..])
  }

  /** A boundary that `splitlines` consumes: one boundary character, or `\r\n`. */
  predicate IsSeparator(t: string)
  {
    (|t| == 1 && IsLineBoundary(t[0])) || t == "\r\n"
  }

  /** Lines put back together, each followed by the boundary that ended it. */
  function Unsplit(lines: seq<string>, seps: seq<string>): string
    requires |seps| == |lines|
  {
    if lines == [] then [] else lines[0] + seps[0] + Unsplit(lines[1..], seps[1..])
  }

  /** Every line but the last was ended by a boundary; the last by a boundary or by the
      end of the text (an empty separator). */
  predicate SeparatorsOk(seps: seq<string>)
  {
    && (forall j :: 0 <= j < |seps| - 1 ==> IsSeparator(seps[j]))
    && (|seps| > 0 ==> seps[|seps| - 1] == [] || IsSeparator(seps[|seps| - 1]))
  }

  lemma SeparatorsCons(sep: string, rest: seq<string>)
    requires IsSeparator(sep) && SeparatorsOk(rest)
    ensures SeparatorsOk([sep] + rest)
  {
    var seps := [sep] + rest;
    forall j | 1 <= j < |seps| - 1
      ensures IsSeparator(seps[j])
    {
      assert seps[j] == rest[j - 1];
    }
  }

  /** A text that does not end with a boundary has a non-empty last line: a final boundary
      does not start an empty line. */
  predicate LastLineEnded(lines: seq<string>, seps: seq<string>)
    requires |seps| == |lines|
  {
    |seps| > 0 && seps[|seps| - 1] == [] ==> lines[|lines| - 1] != []
  }

  /** A `\r` separator is never followed by an empty line ended by `\n`: `\r\n` is one
      boundary, not two. */
  predicate CrLfJoined(lines: seq<string>, seps: seq<string>)
    requires |seps| == |lines|
  {
    forall j :: 0 <= j < |seps| - 1 && seps[j] == "\r" ==>
      !(lines[j + 1] == [] && seps[j + 1] != [] && seps[j + 1][0] == '\n')
  }

  lemma LastLineEndedCons(line: string, sep: string, lines: seq<string>, seps: seq<string>)
    requires |seps| == |lines| && sep != [] && LastLineEnded(lines, seps)
    ensures LastLineEnded([line] + lines, [sep] + seps)
  {
    if seps != [] {
      assert ([sep] + seps)[|seps|] == seps[|seps| - 1];
      assert ([line] + lines)[|lines|] == lines[|lines| - 1];
    }
  }

  lemma CrLfJoinedCons(line: string, sep: string, lines: seq<string>, seps: seq<string>)
    requires |seps| == |lines| && CrLfJoined(lines, seps)
    requires sep == "\r" && lines != [] && lines[0] == [] && seps[0] != [] ==> seps[0][0] != '\n'
    ensures CrLfJoined([line] + lines, [sep] + seps)
  {
    var ls, ss := [line] + lines, [sep] + seps;
    forall j | 1 <= j < |ss| - 1 && ss[j] == "\r"
      ensures !(ls[j + 1] == [] && ss[j + 1] != [] && ss[j + 1][0] == '\n')
    {
      assert ss[j] == seps[j - 1] && ss[j + 1] == seps[j] && ls[j + 1] == lines[j];
    }
  }

  /** One split: the first line, the boundary that ends it, and the text after it. */
  lemma SplitStep(s: string) returns (next: nat)
    requires LineEnd(s) < |s|
    ensures LineEnd(s) < next <= |s|
    ensures IsSeparator(s[LineEnd(s)..next])
    ensures SplitLines(s) == [s[..LineEnd(s)]] + SplitLines(s[next..])
    ensures s == s[..LineEnd(s)] + s[LineEnd(s)..next] + s[next..]
    ensures s[LineEnd(s)..next] == "\r" ==> !(next < |s| && s[next] == '\n')
  {
    var i := LineEnd(s);
    next := if s[i] == '\r' && i + 1 < |s| && s[i + 1] == '\n' then i + 2 else i + 1;
    if next == i + 2 {
      assert s[i..next] == "\r\n";
    } else {
      assert |s[i..next]| == 1 && s[i..next][0] == s[i] && IsLineBoundary(s[i]);
    }
    assert s[..i] + s[i..next] == s[..next];
    assert s == s[..next] + s[next..];
  }

  /** Splitting loses nothing but the boundaries: putting the lines back together, each
      with the boundary that ended it, rebuilds the text. A final boundary does not start
      an empty last line, and `\r\n` is consumed as one boundary. */
  lemma {:induction false} SplitLinesRoundTrip(s: string) returns (seps: seq<string>)
    ensures |seps| == |SplitLines(s)|
    ensures Unsplit(SplitLines(s), seps) == s
    ensures SeparatorsOk(seps)
    ensures LastLineEnded(SplitLines(s), seps)
    ensures CrLfJoined(SplitLines(s), seps)
    ensures |seps| > 0 && seps[0] != [] ==>
      |SplitLines(s)[0]| < |s| && seps[0][0] == s[|SplitLines(s)[0]|]
    decreases |s|
  {
    if s == [] {
      seps := [];
    } else if LineEnd(s) == |s| {
      seps := [[]];
      assert Unsplit([s], seps) == s + [] + Unsplit([], []);
    } else {
      var i := LineEnd(s);
      var next := SplitStep(s);
      var sep := s[i..next];
      var rest := SplitLinesRoundTrip(s[next..]);
      var restLines := SplitLines(s[next..]);
      seps := [sep] + rest;
      SeparatorsCons(sep, rest);
      var lines := SplitLines(s);
      assert lines == [s[..i]] + restLines;
      assert lines[0] == s[..i] && lines[1..] == restLines && seps[1..] == rest;
      LastLineEndedCons(s[..i], sep, restLines, rest);
      if sep == "\r" && restLines != [] && restLines[0] == [] && rest[0] != [] {
        assert rest[0][0] == s[next..][0] == s[next];
      }
      CrLfJoinedCons(s[..i], sep, restLines, rest);
      assert sep[0] == s[i];
    }
  }

  lemma SingleLine(c: char)
    requires !IsLineBoundary(c)
    ensures SplitLines([c]) == [[c]]
  {
    assert [c][1..] == [];
  }

  /** `\r\n` is one boundary. */
  lemma CrLfIsOneBoundary()
    ensures SplitLines("a\r\nb") == ["a", "b"]
  {
    var s := "a\r\nb";
    SingleLine('b');
    assert s[1..] == "\r\nb";
    assert LineEnd(s) == 1;
    assert s[..1] == "a" && s[3..] == "b";
  }

  /** `\n\r` is two boundaries, with an empty line between them. */
  lemma LfCrIsTwoBoundaries()
    ensures SplitLines("a\n\rb") == ["a", "", "b"]
  {
    var s := "a\n\rb";
    SingleLine('b');
    assert "\rb"[1..] == "b";
    assert LineEnd("\rb") == 0;
    assert SplitLines("\rb") == ["", "b"];
    assert s[1..] == "\n\rb";
    assert LineEnd(s) == 1;
    assert s[..1] == "a" && s[2..] == "\rb";
  }

  /** The first line holding the marker. */
  function FirstMarker(lines: seq<string>): (r: Option<nat>)
    ensures r.None? <==> forall k :: 0 <= k < |lines| ==> !Contains(lines[k], Marker)
    ensures r.Some? ==> (r.value < |lines| && Contains(lines[r.value], Marker) &&
      forall k :: 0 <= k < r.value ==> !Contains(lines[k], Marker))
  {
    if lines == [] then None
    else if Contains(lines[0], Marker) then Some(0)
    else match FirstMarker(lines[1..])
      case None => None
      case Some(m) => Some(m + 1)
  }

  /** The first non-empty line at or after `from`. */
  function FirstNonEmpty(lines: seq<string>, from: nat): (r: Option<nat>)
    requires from <= |lines|
    ensures r.None? <==> forall k :: from <= k < |lines| ==> lines[k] == ""
    ensures r.Some? ==> (from <= r.value < |lines| && lines[r.value] != "" &&
      forall k :: from <= k < r.value ==> lines[k] == "")
    decreases |lines| - from
  {
    if from == |lines| then None
    else if lines[from] != "" then Some(from)
    else FirstNonEmpty(lines, from + 1)
  }

  /** What can stop a scan: `StopIteration` when nothing follows the marker but empty
      lines, `AttributeError` when the issue has no body. */
  datatype ScanError = StopIteration | MissingBody

  /** The download link of a body's lines: none without a marker line; otherwise the first
      non-empty line strictly after the first marker line, and `StopIteration` if there is
      none. A whitespace-only line is non-empty. */
  function DownloadLink(lines: seq<string>): (r: Result<Option<string>, ScanError>)
    ensures FirstMarker(lines).None? <==> r == Ok(None)
    ensures r.Ok? && r.value.Some? ==>
      exists m, j :: 0 <= m < j < |lines| && r.value.value == lines[j] && lines[j] != "" &&
        Contains(lines[m], Marker) && (forall k :: 0 <= k < m ==> !Contains(lines[k], Marker)) &&
        (forall k :: m < k < j ==> lines[k] == "")
    ensures r.Err? <==> (FirstMarker(lines).Some? &&
      forall k :: FirstMarker(lines).value < k < |lines| ==> lines[k] == "")
    ensures r.Err? ==> r.error == StopIteration
  {
    match FirstMarker(lines)
    case None => Ok(None)
    case Some(m) =>
      match FirstNonEmpty(lines, m + 1)
      case None => Err(StopIteration)
      case Some(j) => Ok(Some(lines[j]))
  }

  /** The loop of `get_issues` over one body's lines: one iterator shared by the outer
      `for` and the inner `while next(lines)`, stopping at the first marker line. */
  method ScanDownloadLink(lines: seq<string>) returns (r: Result<Option<string>, ScanError>)
    ensures r == DownloadLink(lines)
  {
    var pos := 0;
    var downloadLink: Option<string> := None;
    while pos < |lines|
      invariant 0 <= pos <= |lines|
      invariant forall k :: 0 <= k < pos ==> !Contains(lines[k], Marker)
      invariant downloadLink == None
    {
      var line := lines[pos];
      pos := pos + 1;
      if Contains(line, Marker) {
        ghost var m := pos - 1;
        assert FirstMarker(lines) == Some(m);
        while true
          invariant m + 1 <= pos <= |lines|
          invariant forall k :: m + 1 <= k < pos ==> lines[k] == ""
          decreases |lines| - pos
        {
          if pos == |lines| {
            return Err(StopIteration);
          }
          downloadLink := Some(lines[pos]);
          pos := pos + 1;
          if downloadLink.value != "" {
            assert FirstNonEmpty(lines, m + 1) == Some(pos - 1);
            return Ok(downloadLink);
          }
        }
      }
    }
    return Ok(downloadLink);
  }

  /** A whitespace-only line right after the marker is taken as the link. */
  lemma WhitespaceLineIsLink()
    ensures DownloadLink([Marker, " "]) == Ok(Some(" "))
  {
    assert Contains(Marker, Marker) by { assert StartsWith(Marker, Marker); }
    assert FirstMarker([Marker, " "]) == Some(0);
  }

  /** Once the link is found, what follows it does not matter: a later marker line is not
      looked at. */
  lemma {:induction false} LaterLinesIgnored(lines: seq<string>, rest: seq<string>)
    requires DownloadLink(lines).Ok? && DownloadLink(lines).value.Some?
    ensures DownloadLink(lines + rest) == DownloadLink(lines)
  {
    var m := FirstMarker(lines).value;
    var j := FirstNonEmpty(lines, m + 1).value;
    var all := lines + rest;
    MarkerInPrefix(lines, rest);
    NonEmptyInPrefix(lines, rest, m + 1);
    assert all[j] == lines[j];
  }

  /** A marker line found in a prefix is the first marker line of the whole. */
  lemma MarkerInPrefix(lines: seq<string>, rest: seq<string>)
    requires FirstMarker(lines).Some?
    ensures FirstMarker(lines + rest) == FirstMarker(lines)
  {
    var all := lines + rest;
    var m := FirstMarker(lines).value;
    assert all[m] == lines[m];
    assert forall k :: 0 <= k < m ==> all[k] == lines[k];
  }

  /** A non-empty line found in a prefix is the first non-empty line of the whole. */
  lemma NonEmptyInPrefix(lines: seq<string>, rest: seq<string>, from: nat)
    requires from <= |lines| && FirstNonEmpty(lines, from).Some?
    ensures FirstNonEmpty(lines + rest, from) == FirstNonEmpty(lines, from)
  {
    var all := lines + rest;
    var j := FirstNonEmpty(lines, from).value;
    assert all[j] == lines[j];
    assert forall k :: from <= k < j ==> all[k] == lines[k];
  }

  /** An issue: its number, its author's login and its body (null when empty). */
  datatype Issue = Issue(number: int, login: string, body: Option<string>)

  /** One row of the result of `get_issues`. */
  datatype IssueLink = IssueLink(number: int, login: string, link: Option<string>)

  function IssueDownloadLink(issue: Issue): Result<Option<string>, ScanError>
  {
    match issue.body
    case None => Err(MissingBody)
    case Some(body) => DownloadLink(SplitLines(body))
  }

  /** `get_issues` after the request: one `(number, login, link)` per issue, in issue order;
      an issue whose scan raises makes the whole call raise. */
  method GetIssues(issues: seq<Issue>) returns (r: Result<seq<IssueLink>, ScanError>)
    ensures r.Ok? <==> forall i :: 0 <= i < |issues| ==> IssueDownloadLink(issues[i]).Ok?
    ensures r.Ok? ==> |r.value| == |issues| && forall i :: 0 <= i < |issues| ==>
      r.value[i] == IssueLink(issues[i].number, issues[i].login, IssueDownloadLink(issues[i]).value)
    ensures r.Err? ==> (exists i :: 0 <= i < |issues| && IssueDownloadLink(issues[i]) == Err(r.error) &&
                          forall k :: 0 <= k < i ==> IssueDownloadLink(issues[k]).Ok?)
  {
    var results: seq<IssueLink> := [];
    var i := 0;
    while i < |issues|
      invariant 0 <= i <= |issues|
      invariant |results| == i
      invariant forall k :: 0 <= k < i ==> (IssueDownloadLink(issues[k]).Ok? &&
        results[k] == IssueLink(issues[k].number, issues[k].login, IssueDownloadLink(issues[k]).value))
    {
      var issue := issues[i];
      if issue.body.None? {
        assert IssueDownloadLink(issues[i]) == Err(MissingBody);
        return Err(MissingBody);
      }
      var lines := SplitLines(issue.body.value);
      var link := ScanDownloadLink(lines);
      if link.Err? {
        assert IssueDownloadLink(issues[i]) == Err(link.error);
        return Err(link.error);
      }
      results := results + [IssueLink(issue.number, issue.login, link.value)];
      i := i + 1;
    }
    return Ok(results);
  }
}
