/** Literal mappings and priority mappings, with the two library operations that lexicon
    assembly applies to them: the projection check of `semra.api.assert_projection` and the
    identifier rewrite of `ssslm.remap_literal_mappings`. Neither library is part of this
    model; both are given here through the behaviour the assembler relies on (an assumed
    contract): a projection means no subject with two objects, and the rewrite builds a
    dictionary from the pairs and substitutes each record's reference by one lookup. */
module LiteralMappings {
  import opened Wrappers
  import opened Curies
  import opened Seqs

  /** `ssslm.LiteralMapping`, reduced to the fields the model reads or rewrites
      (`relation` is its `predicate`, `entityType` its `type`). */
  datatype LiteralMapping = LiteralMapping(
    reference: Reference,
    text: string,
    relation: string,
    entityType: Option<Reference>,
    provenance: seq<Reference>)

  /** A priority mapping from the equivalence oracle: read `subject` as `obj` (semra's `object`). */
  datatype Mapping = Mapping(subject: Reference, obj: Reference)

  /** No subject is sent to two different objects. */
  predicate IsProjection(pairs: seq<Mapping>)
  {
    forall i, j :: 0 <= i < |pairs| && 0 <= j < |pairs| && pairs[i].subject == pairs[j].subject ==>
      pairs[i].obj == pairs[j].obj
  }

  /** A subject that `pairs` sends to two different objects. */
  predicate Ambiguous(pairs: seq<Mapping>, s: Reference)
  {
    exists i, j :: 0 <= i < |pairs| && 0 <= j < |pairs| &&
      pairs[i].subject == s && pairs[j].subject == s && pairs[i].obj != pairs[j].obj
  }

  /** The projection check: the first subject (in pair order) sent to two objects, or
      None when the pairs form a projection. */
  function FindConflict(pairs: seq<Mapping>): (r: Option<Reference>)
    ensures r.None? <==> IsProjection(pairs)
    ensures r.Some? ==> Ambiguous(pairs, r.value)
  {
    if pairs == [] then None
    else if exists j | 1 <= j < |pairs| ::
      pairs[j].subject == pairs[0].subject && pairs[j].obj != pairs[0].obj
    then
      var j :| 1 <= j < |pairs| && pairs[j].subject == pairs[0].subject && pairs[j].obj != pairs[0].obj;
      assert Ambiguous(pairs, pairs[0].subject) by {
        assert pairs[0].subject == pairs[0].subject;
      }
      Some(pairs[0].subject)
    else
      var rest := FindConflict(pairs[1..]);
      ConflictStep(pairs);
      match rest
      case None => None
      case Some(s) =>
        AmbiguousTail(pairs, s);
        Some(s)
  }

  lemma ConflictStep(pairs: seq<Mapping>)
    requires pairs != []
    requires forall j :: 1 <= j < |pairs| && pairs[j].subject == pairs[0].subject ==>
      pairs[j].obj == pairs[0].obj
    ensures IsProjection(pairs) <==> IsProjection(pairs[1..])
  {
    if IsProjection(pairs[1..]) {
      forall i, j | 0 <= i < |pairs| && 0 <= j < |pairs| && pairs[i].subject == pairs[j].subject
        ensures pairs[i].obj == pairs[j].obj
      {
        if i > 0 && j > 0 {
          assert pairs[1..][i - 1] == pairs[i] && pairs[1..][j - 1] == pairs[j];
        }
      }
    }
  }

  lemma AmbiguousTail(pairs: seq<Mapping>, s: Reference)
    requires pairs != [] && Ambiguous(pairs[1..], s)
    ensures Ambiguous(pairs, s)
  {
    var i, j :| 0 <= i < |pairs[1..]| && 0 <= j < |pairs[1..]| &&
      pairs[1..][i].subject == s && pairs[1..][j].subject == s && pairs[1..][i].obj != pairs[1..][j].obj;
    assert pairs[i + 1] == pairs[1..][i] && pairs[j + 1] == pairs[1..][j];
  }

  /** `dict((m.subject, m.obj) for m in pairs)`: a later pair overrides an earlier one. */
  function PairMap(pairs: seq<Mapping>): (m: map<Reference, Reference>)
    ensures forall i :: 0 <= i < |pairs| ==> pairs[i].subject in m
    ensures forall s :: s in m ==> exists i :: 0 <= i < |pairs| && pairs[i].subject == s && pairs[i].obj == m[s]
  {
    if pairs == [] then map[]
    else
      var m := PairMap(pairs[..|pairs| - 1]);
      assert forall i :: 0 <= i < |pairs| - 1 ==> pairs[..|pairs| - 1][i] == pairs[i];
      m[pairs[|pairs| - 1].subject := pairs[|pairs| - 1].obj]
  }

  /** Under a projection the dictionary sends every subject to its one object. */
  lemma PairMapOfProjection(pairs: seq<Mapping>, i: nat)
    requires IsProjection(pairs) && i < |pairs|
    ensures PairMap(pairs)[pairs[i].subject] == pairs[i].obj
  {
  }

  /** The one-hop rewrite of a single record. */
  function RemapOne(m: map<Reference, Reference>, lm: LiteralMapping): LiteralMapping
  {
    if lm.reference in m then lm.(reference := m[lm.reference]) else lm
  }

  /** `ssslm.remap_literal_mappings(terms, pairs)`, one lookup per record, order kept. */
  function Remap(terms: seq<LiteralMapping>, pairs: seq<Mapping>): (r: seq<LiteralMapping>)
    ensures |r| == |terms|
    ensures forall i :: 0 <= i < |r| ==> r[i] == terms[i].(reference := r[i].reference)
    ensures forall i :: 0 <= i < |r| ==>
      if exists k :: 0 <= k < |pairs| && pairs[k].subject == terms[i].reference
      then exists k :: 0 <= k < |pairs| && pairs[k].subject == terms[i].reference && pairs[k].obj == r[i].reference
      else r[i] == terms[i]
  {
    var m := PairMap(pairs);
    Map((lm: LiteralMapping) => RemapOne(m, lm), terms)
  }

  /** Under a projection, a record whose reference is a subject takes that subject's object. */
  lemma RemapTakesObject(terms: seq<LiteralMapping>, pairs: seq<Mapping>, i: nat, k: nat)
    requires IsProjection(pairs) && i < |terms| && k < |pairs|
    requires pairs[k].subject == terms[i].reference
    ensures Remap(terms, pairs)[i].reference == pairs[k].obj
  {
    PairMapOfProjection(pairs, k);
  }

  /** The rewrite works record by record, so it distributes over concatenation. */
  lemma RemapAppend(a: seq<LiteralMapping>, b: seq<LiteralMapping>, pairs: seq<Mapping>)
    ensures Remap(a + b, pairs) == Remap(a, pairs) + Remap(b, pairs)
  {
    var m := PairMap(pairs);
    assert forall i :: 0 <= i < |a + b| ==>
      Remap(a + b, pairs)[i] == RemapOne(m, (a + b)[i]);
  }

  /** No object is itself the subject of a pair pointing elsewhere. */
  predicate Closed(pairs: seq<Mapping>)
  {
    forall i, j :: 0 <= i < |pairs| && 0 <= j < |pairs| && pairs[j].subject == pairs[i].obj ==>
      pairs[j].obj == pairs[i].obj
  }

  /** Rewriting twice is rewriting once, when the pairs are a closed projection. */
  lemma RemapIdempotent(terms: seq<LiteralMapping>, pairs: seq<Mapping>)
    requires IsProjection(pairs) && Closed(pairs)
    ensures Remap(Remap(terms, pairs), pairs) == Remap(terms, pairs)
  {
    var once := Remap(terms, pairs);
    var twice := Remap(once, pairs);
    forall i | 0 <= i < |terms|
      ensures twice[i] == once[i]
    {
      if exists k :: 0 <= k < |pairs| && pairs[k].subject == once[i].reference {
        var k :| 0 <= k < |pairs| && pairs[k].subject == once[i].reference;
        RemapTakesObject(once, pairs, i, k);
        if exists k' :: 0 <= k' < |pairs| && pairs[k'].subject == terms[i].reference {
          var k' :| 0 <= k' < |pairs| && pairs[k'].subject == terms[i].reference;
          RemapTakesObject(terms, pairs, i, k');
        }
      }
    }
  }

  /** Without a closed projection the rewrite is not idempotent: a chain a -> b -> c moves
      a record from a to b on the first pass and from b to c on the second. */
  lemma RemapChainNotIdempotent(lm: LiteralMapping, b: Reference, c: Reference)
    requires lm.reference != b && b != c
    ensures var pairs := [Mapping(lm.reference, b), Mapping(b, c)];
      Remap([lm], pairs)[0].reference == b && Remap(Remap([lm], pairs), pairs)[0].reference == c
  {
    var pairs := [Mapping(lm.reference, b), Mapping(b, c)];
    RemapTakesObject([lm], pairs, 0, 0);
    RemapTakesObject(Remap([lm], pairs), pairs, 0, 1);
  }
}
