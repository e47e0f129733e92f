/** Lexicon assembly (`biolexica.api`): collecting literal mappings from the configured
    inputs, rewriting their references through priority mappings, dropping excluded
    references, summarising the result, and resolving a grounder hint to a location.

    The term sources (pyobo, bioontologies, the ssslm and gilda readers, biosynonyms) and
    the mapping oracle (`semra`) are not part of this model: they are handed in as the
    function-valued fields of `Collaborators`. */
module Api {
  import opened Wrappers
  import opened Curies
  import opened Seqs
  import opened LiteralMappings

  /** `Processor`; `Unknown` stands for a value outside the four literals. */
  datatype Processor = Pyobo | Bioontologies | Ssslm | Gilda | Unknown(name: string)

  function ProcessorName(p: Processor): string
  {
    match p
    case Pyobo => "pyobo"
    case Bioontologies => "bioontologies"
    case Ssslm => "ssslm"
    case Gilda => "gilda"
    case Unknown(name) => name
  }

  /** The `ancestors` hint: `None`, one CURIE, or a list of CURIEs. */
  datatype AncestorsHint = NoAncestors | OneCurie(curie: string) | CurieList(curies: seq<string>)

  /** A keyword-argument value handed through to a term source. */
  datatype Kwarg = BoolArg(b: bool) | TextArg(s: string)

  type Kwargs = map<string, Kwarg>

  datatype Input = Input(processor: Processor, source: string, ancestors: AncestorsHint, kwargs: Option<Kwargs>)

  /** A `semra.Configuration`, seen only through the name the oracle is asked about. */
  datatype MappingConfiguration = MappingConfiguration(name: string)

  datatype Configuration = Configuration(
    inputs: seq<Input>,
    excludes: Option<seq<Reference>>,
    mappingConfiguration: Option<MappingConfiguration>)

  /** The exceptions of assembly: `ValueError` for an unknown processor or a CURIE without
      a colon, `TypeError` for a keyword argument given twice, `ValueError` from the
      projection check, and whatever a term source raises. */
  datatype Error =
    | UnknownProcessor(name: string)
    | InvalidCurie(curie: string)
    | DuplicateArgument
    | AmbiguousEquivalence(subject: Reference)
    | SourceFailure(source: string)

  /** The collaborators lexicon assembly calls out to. */
  datatype Collaborators = Collaborators(
    pyoboAll: (string, Kwargs) -> Result<seq<LiteralMapping>, Error>,
    pyoboSubset: (string, seq<Reference>, Kwargs) -> Result<seq<LiteralMapping>, Error>,
    bioontologiesAll: (string, Kwargs) -> Result<seq<LiteralMapping>, Error>,
    bioontologiesSubset: (string, seq<Reference>, Kwargs) -> Result<seq<LiteralMapping>, Error>,
    readLiteralMappings: string -> Result<seq<LiteralMapping>, Error>,
    readGildaTerms: string -> Result<seq<LiteralMapping>, Error>,
    positiveSynonyms: seq<LiteralMapping>,
    priorityMappings: MappingConfiguration -> seq<Mapping>)

  // ---------------------------------------------------------------------------
  // get_literal_mappings

  /** `[Reference.from_curie(a) for a in curies]`, failing on the first bad CURIE. */
  function ParseCuries(curies: seq<string>): (r: Result<seq<Reference>, Error>)
    ensures r.Ok? <==> forall i :: 0 <= i < |curies| ==> ':' in curies[i]
    ensures r.Ok? ==> (|r.value| == |curies| &&
      forall i :: 0 <= i < |curies| ==> ParseCurie(curies[i]) == Some(r.value[i]))
    ensures r.Err? ==> exists i :: 0 <= i < |curies| && r.error == InvalidCurie(curies[i]) && ':' !in curies[i]
  {
    if curies == [] then Ok([])
    else match ParseCurie(curies[0])
      case None => Err(InvalidCurie(curies[0]))
      case Some(ref) =>
        match ParseCuries(curies[1..])
        case Err(e) => Err(e)
        case Ok(refs) => Ok([ref] + refs)
  }

  /** The ancestor normalisation at the top of `get_literal_mappings`: `None` selects the
      whole source, a single CURIE becomes a one-element list, a list is parsed element by
      element (an empty list stays an empty list, which still selects the subset call). */
  function NormalizeAncestors(hint: AncestorsHint): (r: Result<Option<seq<Reference>>, Error>)
    ensures hint.NoAncestors? ==> r == Ok(None)
    ensures hint.OneCurie? ==>
      (r.Ok? <==> ':' in hint.curie) &&
      (r.Ok? ==> (r.value.Some? && |r.value.value| == 1 && r.value.value[0].Curie() == hint.curie &&
        ParseCurie(hint.curie) == Some(r.value.value[0])))
    ensures hint.CurieList? ==>
      (r.Ok? <==> forall i :: 0 <= i < |hint.curies| ==> ':' in hint.curies[i]) &&
      (r.Ok? ==> (r.value.Some? && |r.value.value| == |hint.curies| &&
        forall i :: 0 <= i < |hint.curies| ==>
          r.value.value[i].Curie() == hint.curies[i] && ParseCurie(hint.curies[i]) == Some(r.value.value[i])))
    ensures r.Err? ==> r.error.InvalidCurie?
  {
    match hint
    case NoAncestors => Ok(None)
    case OneCurie(c) =>
      (match ParseCurie(c)
       case None => Err(InvalidCurie(c))
       case Some(ref) => Ok(Some([ref])))
    case CurieList(cs) =>
      (match ParseCuries(cs)
       case Err(e) => Err(e)
       case Ok(refs) => Ok(Some(refs)))
  }

  /** `kwargs.setdefault(key, value)` */
  function SetDefault(kwargs: Kwargs, key: string, value: Kwarg): (r: Kwargs)
    ensures key in r && r[key] == (if key in kwargs then kwargs[key] else value)
    ensures r.Keys == kwargs.Keys + {key}
    ensures forall k :: k in kwargs && k != key ==> r[k] == kwargs[k]
  {
    if key in kwargs then kwargs else kwargs[key := value]
  }

  /** `get_literal_mappings(prefix, ancestors=..., processor=..., **kwargs)`. */
  function GetLiteralMappings(prefix: string, ancestors: AncestorsHint, processor: Processor,
                              kwargs: Kwargs, env: Collaborators): (r: Result<seq<LiteralMapping>, Error>)
    // a bad CURIE is reported before the processor is looked at
    ensures NormalizeAncestors(ancestors).Err? ==> r == Err(NormalizeAncestors(ancestors).error)
    // only pyobo and bioontologies are served; anything else raises
    ensures NormalizeAncestors(ancestors).Ok? && !(processor.Pyobo? || processor.Bioontologies?) ==>
      r == Err(UnknownProcessor(ProcessorName(processor)))
    // pyobo gets `strict=False` unless the caller chose a value
    ensures processor.Pyobo? && ancestors.NoAncestors? ==>
      r == env.pyoboAll(prefix, SetDefault(kwargs, "strict", BoolArg(false)))
    ensures processor.Pyobo? && !ancestors.NoAncestors? && NormalizeAncestors(ancestors).Ok? ==>
      r == env.pyoboSubset(prefix, NormalizeAncestors(ancestors).value.value, SetDefault(kwargs, "strict", BoolArg(false)))
    // bioontologies gets the keyword arguments untouched
    ensures processor.Bioontologies? && ancestors.NoAncestors? ==>
      r == env.bioontologiesAll(prefix, kwargs)
    ensures processor.Bioontologies? && !ancestors.NoAncestors? && NormalizeAncestors(ancestors).Ok? ==>
      r == env.bioontologiesSubset(prefix, NormalizeAncestors(ancestors).value.value, kwargs)
  {
    match NormalizeAncestors(ancestors)
    case Err(e) => Err(e)
    case Ok(refs) =>
      match processor
      case Pyobo =>
        var kw := SetDefault(kwargs, "strict", BoolArg(false));
        if refs.None? then env.pyoboAll(prefix, kw) else env.pyoboSubset(prefix, refs.value, kw)
      case Bioontologies =>
        if refs.None? then env.bioontologiesAll(prefix, kwargs) else env.bioontologiesSubset(prefix, refs.value, kwargs)
      case _ => Err(UnknownProcessor(ProcessorName(processor)))
  }

  /** An empty ancestor list is not `None`: it still asks the source for the (empty) subset. */
  lemma EmptyAncestorsTakeSubsetPath(prefix: string, kwargs: Kwargs, env: Collaborators)
    ensures GetLiteralMappings(prefix, CurieList([]), Pyobo, kwargs, env) ==
      env.pyoboSubset(prefix, [], SetDefault(kwargs, "strict", BoolArg(false)))
    ensures GetLiteralMappings(prefix, CurieList([]), Bioontologies, kwargs, env) ==
      env.bioontologiesSubset(prefix, [], kwargs)
  {
    assert NormalizeAncestors(CurieList([])) == Ok(Some([]));
  }

  // ---------------------------------------------------------------------------
  // assemble_terms

  /** The call `get_literal_mappings(inp.source, ancestors=..., processor=..., **(inp.kwargs or {}))`:
      a keyword argument that repeats a named parameter is a `TypeError`. */
  function CallGetLiteralMappings(inp: Input, env: Collaborators): Result<seq<LiteralMapping>, Error>
  {
    var kwargs := if inp.kwargs.Some? then inp.kwargs.value else map[];
    if "prefix" in kwargs || "ancestors" in kwargs || "processor" in kwargs then Err(DuplicateArgument)
    else GetLiteralMappings(inp.source, inp.ancestors, inp.processor, kwargs, env)
  }

  /** The records one input contributes: the body of the loop over `configuration.inputs`. */
  function FetchInput(inp: Input, env: Collaborators): (r: Result<seq<LiteralMapping>, Error>)
    ensures inp.processor.Unknown? ==> r == Err(UnknownProcessor(inp.processor.name))
    ensures inp.processor.Ssslm? ==> r == env.readLiteralMappings(inp.source)
    ensures inp.processor.Gilda? ==> r == env.readGildaTerms(inp.source)
    ensures inp.processor.Pyobo? || inp.processor.Bioontologies? ==>
      var kwargs := if inp.kwargs.Some? then inp.kwargs.value else map[];
      r == if "prefix" in kwargs || "ancestors" in kwargs || "processor" in kwargs then Err(DuplicateArgument)
           else GetLiteralMappings(inp.source, inp.ancestors, inp.processor, kwargs, env)
  {
    match inp.processor
    case Pyobo => CallGetLiteralMappings(inp, env)
    case Bioontologies => CallGetLiteralMappings(inp, env)
    case Ssslm => env.readLiteralMappings(inp.source)
    case Gilda => env.readGildaTerms(inp.source)
    case Unknown(name) => Err(UnknownProcessor(name))
  }

  /** The inputs' records, concatenated in configuration order; the first failure aborts. */
  function CollectInputs(inputs: seq<Input>, env: Collaborators): Result<seq<LiteralMapping>, Error>
  {
    if inputs == [] then Ok([])
    else
      var head :- FetchInput(inputs[0], env);
      var tail :- CollectInputs(inputs[1..], env);
      Ok(head + tail)
  }

  lemma {:induction false} CollectAppend(a: seq<Input>, b: seq<Input>, env: Collaborators)
    ensures CollectInputs(a + b, env) ==
      match CollectInputs(a, env)
      case Err(e) => Err(e)
      case Ok(x) =>
        match CollectInputs(b, env)
        case Err(e) => Err(e)
        case Ok(y) => Ok(x + y)
  {
    if a == [] {
      assert a + b == b;
      match CollectInputs(b, env)
      case Err(_) =>
      case Ok(y) => assert [] + y == y;
    } else {
      assert (a + b)[0] == a[0] && (a + b)[1..] == a[1..] + b;
      CollectAppend(a[1..], b, env);
      match FetchInput(a[0], env)
      case Err(_) =>
      case Ok(h) =>
        match CollectInputs(a[1..], env)
        case Err(_) =>
        case Ok(x) =>
          match CollectInputs(b, env)
          case Err(_) =>
          case Ok(y) => assert h + (x + y) == (h + x) + y;
    }
  }

  /** The records of each input, when every input is served. */
  function AllFetched(inputs: seq<Input>, env: Collaborators): (r: seq<seq<LiteralMapping>>)
    requires forall i :: 0 <= i < |inputs| ==> FetchInput(inputs[i], env).Ok?
    ensures |r| == |inputs| && forall i :: 0 <= i < |inputs| ==> Ok(r[i]) == FetchInput(inputs[i], env)
  {
    seq(|inputs|, i requires 0 <= i < |inputs| => FetchInput(inputs[i], env).value)
  }

  /** The collected list is the inputs' records in configuration order, and it exists
      exactly when every input is served. */
  lemma {:induction false} CollectOrder(inputs: seq<Input>, env: Collaborators)
    ensures CollectInputs(inputs, env).Ok? <==> forall i :: 0 <= i < |inputs| ==> FetchInput(inputs[i], env).Ok?
    ensures CollectInputs(inputs, env).Ok? ==> CollectInputs(inputs, env).value == Flatten(AllFetched(inputs, env))
  {
    if inputs != [] {
      CollectOrder(inputs[1..], env);
      var tailServed := forall i :: 0 <= i < |inputs[1..]| ==> FetchInput(inputs[1..][i], env).Ok?;
      if forall i :: 0 <= i < |inputs| ==> FetchInput(inputs[i], env).Ok? {
        assert tailServed by {
          forall i | 0 <= i < |inputs[1..]| ensures FetchInput(inputs[1..][i], env).Ok? {
            assert inputs[1..][i] == inputs[i + 1];
          }
        }
        assert AllFetched(inputs, env)[1..] == AllFetched(inputs[1..], env);
      } else if FetchInput(inputs[0], env).Ok? {
        var i :| 0 <= i < |inputs| && !FetchInput(inputs[i], env).Ok?;
        assert inputs[1..][i - 1] == inputs[i];
      }
    }
  }

  /** A processor outside the four known ones makes the whole assembly fail. */
  lemma {:induction false} UnknownProcessorFails(inputs: seq<Input>, env: Collaborators, k: nat)
    requires k < |inputs| && inputs[k].processor.Unknown?
    ensures CollectInputs(inputs, env).Err?
  {
    CollectOrder(inputs, env);
  }

  /** The raw record list: the inputs' records, then the extra terms, then the biosynonyms. */
  function RawTerms(config: Configuration, extraTerms: Option<seq<LiteralMapping>>,
                    includeBiosynonyms: bool, env: Collaborators): Result<seq<LiteralMapping>, Error>
  {
    var terms :- CollectInputs(config.inputs, env);
    var extra := if extraTerms.Some? then extraTerms.value else [];
    var bio := if includeBiosynonyms then env.positiveSynonyms else [];
    Ok(terms + extra + bio)
  }

  /** `_mappings`: the oracle's priority mappings first, then the caller's. */
  function PriorityPairs(config: Configuration, mappings: Option<seq<Mapping>>, env: Collaborators): (r: seq<Mapping>)
    ensures |r| == (if config.mappingConfiguration.Some? then |env.priorityMappings(config.mappingConfiguration.value)| else 0)
      + (if mappings.Some? then |mappings.value| else 0)
    ensures config.mappingConfiguration.Some? ==> r[..|env.priorityMappings(config.mappingConfiguration.value)|] == env.priorityMappings(config.mappingConfiguration.value)
    ensures mappings.Some? ==> r[|r| - |mappings.value|..] == mappings.value
  {
    (if config.mappingConfiguration.Some? then env.priorityMappings(config.mappingConfiguration.value) else [])
    + (if mappings.Some? then mappings.value else [])
  }

  /** Drop the records whose reference is excluded; `None` or an empty list keeps all. */
  function Exclude(terms: seq<LiteralMapping>, excludes: Option<seq<Reference>>): (r: seq<LiteralMapping>)
    ensures excludes.Some? ==> forall i :: 0 <= i < |r| ==> r[i].reference !in excludes.value
    ensures Subseq(r, terms)
    ensures forall i :: 0 <= i < |terms| && (excludes.None? || terms[i].reference !in excludes.value) ==> terms[i] in r
    ensures excludes.None? || excludes.value == [] ==> r == terms
    ensures forall t :: multiset(r)[t] == if excludes.Some? && t.reference in excludes.value then 0 else multiset(terms)[t]
  {
    if excludes.Some? && excludes.value != [] then
      var ex := excludes.value;
      FilterIsSubseq((lm: LiteralMapping) => lm.reference !in ex, terms);
      FilterMultiset((lm: LiteralMapping) => lm.reference !in ex, terms);
      Filter((lm: LiteralMapping) => lm.reference !in ex, terms)
    else
      SubseqRefl(terms);
      terms
  }

  lemma {:induction false} SubseqRefl<T>(s: seq<T>)
    ensures Subseq(s, s)
  {
    if s != [] { SubseqRefl(s[1..]); }
  }

  /** What happens after the raw list is complete: projection check, rewrite, exclusion. */
  function Consolidate(raw: seq<LiteralMapping>, pairs: seq<Mapping>, excludes: Option<seq<Reference>>)
    : Result<seq<LiteralMapping>, Error>
  {
    match FindConflict(pairs)
    case Some(s) => Err(AmbiguousEquivalence(s))
    case None => Ok(Exclude(Remap(raw, pairs), excludes))
  }

  /** `assemble_terms`, as a value. */
  function Assemble(config: Configuration, mappings: Option<seq<Mapping>>, extraTerms: Option<seq<LiteralMapping>>,
                    includeBiosynonyms: bool, env: Collaborators): Result<seq<LiteralMapping>, Error>
  {
    var raw :- RawTerms(config, extraTerms, includeBiosynonyms, env);
    Consolidate(raw, PriorityPairs(config, mappings, env), config.excludes)
  }

  /** `assemble_terms`: the record list grows input by input, then takes the extra terms and
      the biosynonyms; the pair list is always checked and applied, even when empty; excluded
      references are dropped last. The file writes are not modelled. */
  method AssembleTerms(config: Configuration, mappings: Option<seq<Mapping>>,
                       extraTerms: Option<seq<LiteralMapping>>, includeBiosynonyms: bool,
                       env: Collaborators) returns (r: Result<seq<LiteralMapping>, Error>)
    ensures r == Assemble(config, mappings, extraTerms, includeBiosynonyms, env)
  {
    var terms: seq<LiteralMapping> := [];
    var i := 0;
    while i < |config.inputs|
      invariant 0 <= i <= |config.inputs|
      invariant CollectInputs(config.inputs[..i], env) == Ok(terms)
    {
      var inp := config.inputs[i];
      var fetched := FetchInput(inp, env);
      assert config.inputs[..i + 1] == config.inputs[..i] + [inp];
      CollectAppend(config.inputs[..i], [inp], env);
      assert CollectInputs([inp], env) == match fetched case Err(e) => Err(e) case Ok(v) => Ok(v + []);
      if fetched.Err? {
        assert config.inputs == config.inputs[..i + 1] + config.inputs[i + 1..];
        CollectAppend(config.inputs[..i + 1], config.inputs[i + 1..], env);
        return Err(fetched.error);
      }
      assert fetched.value + [] == fetched.value;
      terms := terms + fetched.value;
      i := i + 1;
    }
    assert config.inputs[..i] == config.inputs;

    ghost var collected := terms;
    if extraTerms.Some? && extraTerms.value != [] {
      terms := terms + extraTerms.value;
    }
    assert terms == collected + (if extraTerms.Some? then extraTerms.value else []);
    ghost var extended := terms;
    if includeBiosynonyms {
      terms := terms + env.positiveSynonyms;
    }
    assert terms == extended + (if includeBiosynonyms then env.positiveSynonyms else []);
    assert Ok(terms) == RawTerms(config, extraTerms, includeBiosynonyms, env);

    var pairs: seq<Mapping> := [];
    if config.mappingConfiguration.Some? {
      pairs := pairs + env.priorityMappings(config.mappingConfiguration.value);
    }
    if mappings.Some? {
      pairs := pairs + mappings.value;
    }
    assert pairs == PriorityPairs(config, mappings, env);

    var conflict := FindConflict(pairs);
    if conflict.Some? {
      return Err(AmbiguousEquivalence(conflict.value));
    }
    terms := Remap(terms, pairs);

    if config.excludes.Some? && config.excludes.value != [] {
      var excludes := config.excludes.value;
      terms := Filter((lm: LiteralMapping) => lm.reference !in excludes, terms);
    }
    r := Ok(terms);
  }

  // ---------------------------------------------------------------------------
  // Properties of assembly

  /** Before the rewrite, the record list is every input's records in configuration order,
      then the extra terms, then the biosynonyms when asked for; it exists exactly when
      every input is served. */
  lemma RawTermsLayout(config: Configuration, extraTerms: Option<seq<LiteralMapping>>,
                       includeBiosynonyms: bool, env: Collaborators)
    ensures RawTerms(config, extraTerms, includeBiosynonyms, env).Ok? <==>
      forall i :: 0 <= i < |config.inputs| ==> FetchInput(config.inputs[i], env).Ok?
    ensures RawTerms(config, extraTerms, includeBiosynonyms, env).Ok? ==>
      RawTerms(config, extraTerms, includeBiosynonyms, env).value ==
        Flatten(AllFetched(config.inputs, env))
        + (if extraTerms.Some? then extraTerms.value else [])
        + (if includeBiosynonyms then env.positiveSynonyms else [])
  {
    CollectOrder(config.inputs, env);
  }

  /** Pairs that are not a projection abort the assembly with a subject they send to two
      objects; no record list is returned. */
  lemma AmbiguousPairsFail(config: Configuration, mappings: Option<seq<Mapping>>,
                           extraTerms: Option<seq<LiteralMapping>>, includeBiosynonyms: bool, env: Collaborators)
    requires RawTerms(config, extraTerms, includeBiosynonyms, env).Ok?
    requires !IsProjection(PriorityPairs(config, mappings, env))
    ensures var r := Assemble(config, mappings, extraTerms, includeBiosynonyms, env);
      r.Err? && r.error.AmbiguousEquivalence? && Ambiguous(PriorityPairs(config, mappings, env), r.error.subject)
  {
    var raw := RawTerms(config, extraTerms, includeBiosynonyms, env).value;
    var pairs := PriorityPairs(config, mappings, env);
    assert FindConflict(pairs).Some?;
    assert Assemble(config, mappings, extraTerms, includeBiosynonyms, env) == Consolidate(raw, pairs, config.excludes);
  }

  /** Caller mappings {(A, B), (A, C)} with B and C different make the assembly fail, even
      without a mapping configuration. */
  lemma TwoTargetsFail(config: Configuration, env: Collaborators, a: Reference, b: Reference, c: Reference)
    requires config.mappingConfiguration.None? && b != c
    requires forall i :: 0 <= i < |config.inputs| ==> FetchInput(config.inputs[i], env).Ok?
    ensures Assemble(config, Some([Mapping(a, b), Mapping(a, c)]), None, false, env) == Err(AmbiguousEquivalence(a))
  {
    CollectOrder(config.inputs, env);
    var pairs := PriorityPairs(config, Some([Mapping(a, b), Mapping(a, c)]), env);
    assert pairs == [Mapping(a, b), Mapping(a, c)];
    assert pairs[1].subject == pairs[0].subject && pairs[1].obj != pairs[0].obj;
  }

  /** A successful assembly holds no excluded reference, even one that a rewrite produced;
      it keeps the rewritten records' relative order and every rewritten record that is not
      excluded; with no exclusions it is the rewritten list itself. */
  lemma AssembleExcludes(config: Configuration, mappings: Option<seq<Mapping>>,
                         extraTerms: Option<seq<LiteralMapping>>, includeBiosynonyms: bool, env: Collaborators)
    requires Assemble(config, mappings, extraTerms, includeBiosynonyms, env).Ok?
    ensures var r := Assemble(config, mappings, extraTerms, includeBiosynonyms, env).value;
      var raw := RawTerms(config, extraTerms, includeBiosynonyms, env).value;
      var rewritten := Remap(raw, PriorityPairs(config, mappings, env));
      && (config.excludes.Some? ==> forall i :: 0 <= i < |r| ==> r[i].reference !in config.excludes.value)
      && Subseq(r, rewritten)
      && (forall i :: 0 <= i < |rewritten| && (config.excludes.None? || rewritten[i].reference !in config.excludes.value) ==> rewritten[i] in r)
      && (config.excludes.None? || config.excludes.value == [] ==> r == rewritten)
      && (forall t :: multiset(r)[t] ==
            if config.excludes.Some? && t.reference in config.excludes.value then 0 else multiset(rewritten)[t])
  {
  }

  /** Without priority pairs the rewrite changes nothing. */
  lemma NoPairsNoRewrite(terms: seq<LiteralMapping>)
    ensures Remap(terms, []) == terms
  {
    assert forall i :: 0 <= i < |terms| ==> Remap(terms, [])[i] == terms[i];
  }

  /** One input serving doid:4 "disease" and doid:10652 "Alzheimer's disease", doid:4
      excluded, no mapping configuration and no biosynonyms: exactly the doid:10652 record
      is left. */
  lemma ExcludeScenario(env: Collaborators, inp: Input, d4: LiteralMapping, d10652: LiteralMapping)
    requires d4.reference == Reference("doid", "4") && d10652.reference == Reference("doid", "10652")
    requires FetchInput(inp, env) == Ok([d4, d10652])
    ensures Assemble(Configuration([inp], Some([Reference("doid", "4")]), None), None, None, false, env) == Ok([d10652])
  {
    var doid4 := Reference("doid", "4");
    var config := Configuration([inp], Some([doid4]), None);
    var raw := [d4, d10652];
    assert CollectInputs([inp], env) == Ok(raw) by {
      assert [inp][1..] == [];
      assert raw + [] == raw;
    }
    assert RawTerms(config, None, false, env) == Ok(raw + [] + []);
    assert raw + [] + [] == raw;
    assert PriorityPairs(config, None, env) == [];
    NoPairsNoRewrite(raw);
    var keep := (lm: LiteralMapping) => lm.reference !in [doid4];
    assert d10652.reference != doid4 by {
      assert d10652.reference.identifier != doid4.identifier by {
        assert |d10652.reference.identifier| == 5;
      }
    }
    assert Filter(keep, [d10652]) == [d10652] by {
      assert [d10652][1..] == [];
    }
    assert Filter(keep, raw) == [d10652] by {
      assert raw[1..] == [d10652];
    }
    assert Exclude(raw, Some([doid4])) == [d10652];
  }

  // ---------------------------------------------------------------------------
  // summarize_terms

  /** `Summary`: the number of records and two counters, as plain dictionaries. */
  datatype Summary = Summary(count: nat, provenanceCounter: map<string, nat>, typeCounter: map<string, nat>)

  /** The prefixes of a list of references, one per reference. */
  function PrefixesOf(refs: seq<Reference>): (r: multiset<string>)
    ensures |r| == |refs|
  {
    if refs == [] then multiset{} else PrefixesOf(refs[..|refs| - 1]) + multiset{refs[|refs| - 1].prefix}
  }

  /** Every provenance prefix of the records, counted once per provenance reference. */
  function ProvenancePrefixes(lms: seq<LiteralMapping>): multiset<string>
  {
    if lms == [] then multiset{} else ProvenancePrefixes(lms[..|lms| - 1]) + PrefixesOf(lms[|lms| - 1].provenance)
  }

  /** The CURIE of every record's type, for the records that have one. */
  function TypeCuries(lms: seq<LiteralMapping>): multiset<string>
  {
    if lms == [] then multiset{}
    else
      var last := lms[|lms| - 1];
      TypeCuries(lms[..|lms| - 1]) + (if last.entityType.Some? then multiset{last.entityType.value.Curie()} else multiset{})
  }

  /** `dict(Counter(...))`: each element with its multiplicity, absent elements left out. */
  function CounterOf(ms: multiset<string>): (r: map<string, nat>)
    ensures forall k :: k in r <==> ms[k] > 0
    ensures forall k :: k in r ==> r[k] == ms[k]
  {
    map k | k in ms :: ms[k]
  }

  /** `counter[k] += 1` */
  function Increment(counter: map<string, nat>, k: string): map<string, nat>
  {
    counter[k := (if k in counter then counter[k] else 0) + 1]
  }

  /** `counter` holds exactly the multiplicities of `ms`. */
  ghost predicate Counts(counter: map<string, nat>, ms: multiset<string>)
  {
    forall k :: (k in counter <==> ms[k] > 0) && (k in counter ==> counter[k] == ms[k])
  }

  lemma CountsAdd(counter: map<string, nat>, ms: multiset<string>, k: string)
    requires Counts(counter, ms)
    ensures Counts(Increment(counter, k), ms + multiset{k})
  {
  }

  lemma CountsIsCounterOf(counter: map<string, nat>, ms: multiset<string>)
    requires Counts(counter, ms)
    ensures counter == CounterOf(ms)
  {
  }

  /** `summarize_terms`: one pass over the records, adding one to a prefix's count for
      each provenance reference and one to a type's count for each typed record. */
  method SummarizeTerms(lms: seq<LiteralMapping>) returns (s: Summary)
    ensures s.count == |lms|
    ensures s.provenanceCounter == CounterOf(ProvenancePrefixes(lms))
    ensures s.typeCounter == CounterOf(TypeCuries(lms))
  {
    var provenanceCounter: map<string, nat> := map[];
    var typeCounter: map<string, nat> := map[];
    var i := 0;
    while i < |lms|
      invariant 0 <= i <= |lms|
      invariant Counts(provenanceCounter, ProvenancePrefixes(lms[..i]))
      invariant Counts(typeCounter, TypeCuries(lms[..i]))
    {
      var mapping := lms[i];
      SummaryStep(lms, i);
      provenanceCounter := CountPrefixes(provenanceCounter, mapping.provenance, ProvenancePrefixes(lms[..i]));
      if mapping.entityType.Some? {
        CountsAdd(typeCounter, TypeCuries(lms[..i]), mapping.entityType.value.Curie());
        typeCounter := Increment(typeCounter, mapping.entityType.value.Curie());
      }
      i := i + 1;
    }
    assert lms[..i] == lms;
    CountsIsCounterOf(provenanceCounter, ProvenancePrefixes(lms));
    CountsIsCounterOf(typeCounter, TypeCuries(lms));
    s := Summary(|lms|, provenanceCounter, typeCounter);
  }

  /** The inner loop of `summarize_terms`: one increment per provenance reference. */
  method CountPrefixes(counter: map<string, nat>, refs: seq<Reference>, ghost counted: multiset<string>)
    returns (r: map<string, nat>)
    requires Counts(counter, counted)
    ensures Counts(r, counted + PrefixesOf(refs))
  {
    r := counter;
    var j := 0;
    while j < |refs|
      invariant 0 <= j <= |refs|
      invariant Counts(r, counted + PrefixesOf(refs[..j]))
    {
      assert refs[..j + 1][..j] == refs[..j];
      CountsAdd(r, counted + PrefixesOf(refs[..j]), refs[j].prefix);
      r := Increment(r, refs[j].prefix);
      j := j + 1;
    }
    assert refs[..j] == refs;
  }

  lemma SummaryStep(lms: seq<LiteralMapping>, i: nat)
    requires i < |lms|
    ensures ProvenancePrefixes(lms[..i + 1]) == ProvenancePrefixes(lms[..i]) + PrefixesOf(lms[i].provenance)
    ensures TypeCuries(lms[..i + 1]) == TypeCuries(lms[..i]) +
      (if lms[i].entityType.Some? then multiset{lms[i].entityType.value.Curie()} else multiset{})
  {
    assert lms[..i + 1][..i] == lms[..i];
  }

  /** Each provenance reference adds exactly one to its prefix's count: the counts sum to
      the number of provenance references, and appending a record adds its prefixes. */
  lemma {:induction false} ProvenanceTotal(lms: seq<LiteralMapping>)
    ensures |ProvenancePrefixes(lms)| == Sum(Map((lm: LiteralMapping) => |lm.provenance|, lms))
  {
    if lms != [] {
      var init := lms[..|lms| - 1];
      ProvenanceTotal(init);
      assert lms[..|lms| - 1] == init;
      var f := (lm: LiteralMapping) => |lm.provenance|;
      assert Map(f, lms) == Map(f, init) + [|lms[|lms| - 1].provenance|];
      SumAppend(Map(f, init), [|lms[|lms| - 1].provenance|]);
    }
  }

  /** Only typed records are counted by type, so the type counts sum to at most `count`. */
  lemma {:induction false} TypeTotalAtMostCount(lms: seq<LiteralMapping>)
    ensures |TypeCuries(lms)| <= |lms|
    ensures |TypeCuries(lms)| == |lms| <==> forall i :: 0 <= i < |lms| ==> lms[i].entityType.Some?
  {
    if lms != [] {
      var init := lms[..|lms| - 1];
      var last := lms[|lms| - 1];
      TypeTotalAtMostCount(init);
      assert forall i :: 0 <= i < |init| ==> init[i] == lms[i];
      if last.entityType.Some? {
        assert |TypeCuries(lms)| == |TypeCuries(init)| + 1;
      } else {
        assert |TypeCuries(lms)| == |TypeCuries(init)|;
        assert !lms[|lms| - 1].entityType.Some?;
      }
    }
  }

  // ---------------------------------------------------------------------------
  // load_grounder

  /** `ssslm.GrounderHint`: a string (a key, a path or a URL), a path object, or records. */
  datatype GrounderHint = HintText(text: string) | HintPath(path: string) | HintRecords(records: seq<LiteralMapping>)

  /** `PREDEFINED` */
  const Predefined: seq<string> := ["cell", "anatomy", "phenotype", "obo"]

  /** `URL_FMT` around the two places where the key is substituted. */
  const UrlHead: string := "https://github.com/biopragmatics/biolexica/raw/main/lexica/"
  const FileSuffix: string := ".ssslm.tsv.gz"

  /** The location of a predefined lexicon `key`: `<lexica>/<key>/<key>.ssslm.tsv.gz` when the
      lexica directory exists, else the URL with the key in both places. */
  function PredefinedLocation(key: string, lexica: string, lexicaIsDir: bool): string
  {
    (if lexicaIsDir then lexica + "/" else UrlHead) + key + "/" + key + FileSuffix
  }

  /** The hint rewrite at the top of `load_grounder`; building the grounder is ssslm's. */
  function ResolveGrounderHint(hint: GrounderHint, lexica: string, lexicaIsDir: bool): (r: GrounderHint)
    ensures !(hint.HintText? && hint.text in Predefined) ==> r == hint
    ensures hint.HintText? && hint.text in Predefined ==>
      r.HintText? && '/' in r.text && r.text != hint.text &&
      EndsWith(r.text, hint.text + "/" + hint.text + FileSuffix) &&
      StartsWith(r.text, if lexicaIsDir then lexica + "/" else UrlHead)
    ensures hint.HintText? && hint.text in Predefined ==>
      |r.text| == |if lexicaIsDir then lexica + "/" else UrlHead| + |hint.text + "/" + hint.text + FileSuffix|
  {
    if hint.HintText? && hint.text in Predefined then
      var head := if lexicaIsDir then lexica + "/" else UrlHead;
      var tail := hint.text + "/" + hint.text + FileSuffix;
      var loc := PredefinedLocation(hint.text, lexica, lexicaIsDir);
      assert loc == head + tail;
      assert loc[|head| + |hint.text|] == '/';
      HintText(loc)
    else hint
  }

  /** Resolving is idempotent: a resolved location is never itself a predefined key. */
  lemma ResolveIdempotent(hint: GrounderHint, lexica: string, lexicaIsDir: bool)
    ensures ResolveGrounderHint(ResolveGrounderHint(hint, lexica, lexicaIsDir), lexica, lexicaIsDir)
      == ResolveGrounderHint(hint, lexica, lexicaIsDir)
  {
    var r := ResolveGrounderHint(hint, lexica, lexicaIsDir);
    if hint.HintText? && hint.text in Predefined {
      assert '/' in r.text;
      assert forall k :: k in Predefined ==> '/' !in k;
    }
  }
}
