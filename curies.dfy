/** Compact URIs (`prefix:identifier`) as the `curies` package represents them, and the
    code-point order on strings that Python's `<` and `sorted` use. */
module Curies {
  import opened Wrappers

  /** A namespaced reference; its CURIE is `prefix:identifier`. */
  datatype Reference = Reference(prefix: string, identifier: string) {
    function Curie(): (c: string)
      ensures |c| == |prefix| + 1 + |identifier|
      ensures c[..|prefix|] == prefix && c[|prefix|] == ':' && c[|prefix| + 1..] == identifier
    {
      prefix + ":" + identifier
    }
  }

  /** Index of the first occurrence of `ch` in `s`, if any. */
  function IndexOf(s: string, ch: char): (r: Option<nat>)
    ensures r.None? <==> ch !in s
    ensures r.Some? ==> r.value < |s| && s[r.value] == ch && ch !in s[..r.value]
  {
    if s == [] then None
    else if s[0] == ch then Some(0)
    else match IndexOf(s[1..], ch)
      case None => None
      case Some(i) =>
        assert s[..i + 1] == [s[0]] + s[1..][..i];
        Some(i + 1)
  }

  /** `Reference.from_curie`: partition at the first colon; a string without one is refused. */
  function ParseCurie(s: string): (r: Option<Reference>)
    ensures r.None? <==> ':' !in s
    ensures r.Some? ==> r.value.Curie() == s && ':' !in r.value.prefix
  {
    match IndexOf(s, ':')
    case None => None
    case Some(i) =>
      var ref := Reference(s[..i], s[i + 1..]);
      assert ref.Curie() == s[..i] + [s[i]] + s[i + 1..];
      assert s == s[..i] + [s[i]] + s[i + 1..];
      Some(ref)
  }

  /** A CURIE whose prefix holds no colon reads back as the same reference. */
  lemma ParseCurieRoundTrip(ref: Reference)
    requires ':' !in ref.prefix
    ensures ParseCurie(ref.Curie()) == Some(ref)
  {
    var c := ref.Curie();
    var i := |ref.prefix|;
    assert c[i] == ':' && c[..i] == ref.prefix;
    assert ':' !in c[..i];
    assert c[i + 1..] == ref.identifier;
  }

  /** Python's `a < b` on `str`: lexicographic by code point. */
  predicate StrLess(a: string, b: string)
  {
    if a == [] then b != []
    else if b == [] then false
    else a[0] < b[0] || (a[0] == b[0] && StrLess(a[1..], b[1..]))
  }

  /** Python's `a <= b` on `str`. */
  predicate StrLe(a: string, b: string)
  {
    a == b || StrLess(a, b)
  }

  lemma {:induction false} StrLessIrreflexive(a: string)
    ensures !StrLess(a, a)
  {
    if a != [] { StrLessIrreflexive(a[1..]); }
  }

  lemma {:induction false} StrLessAsymmetric(a: string, b: string)
    ensures !(StrLess(a, b) && StrLess(b, a))
  {
    if a != [] && b != [] && a[0] == b[0] { StrLessAsymmetric(a[1..], b[1..]); }
  }

  /** The order is total: of two different strings, one is below the other. */
  lemma {:induction false} StrLessTotal(a: string, b: string)
    ensures a == b || StrLess(a, b) || StrLess(b, a)
  {
    if a != [] && b != [] && a[0] == b[0] {
      StrLessTotal(a[1..], b[1..]);
      if a[1..] == b[1..] { assert a == [a[0]] + a[1..] && b == [b[0]] + b[1..]; }
    }
  }

  /** Not below means at or above. */
  lemma StrNotLessIsLe(a: string, b: string)
    ensures !StrLess(b, a) ==> StrLe(a, b)
  {
    StrLessTotal(a, b);
  }
}
