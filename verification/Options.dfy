/** Options and the option registry: the two option variants (a presence
    flag, or an option with a typed parameter) and the container that maps
    every registered name to its option and every first name to its
    synonyms. */
module Options {
  import opened Wrappers
  import opened Parameters
  import Tokens

  /** What an option reports as its value: presence for a flag, the
      parameter's value otherwise. */
  datatype OptValue<T> = Flag(present: bool) | Given(value: T)

  datatype SetValueError = ForbiddenParameter | ConversionFailed(error: ConversionError)

  datatype Opt<!T> =
    | SimpleOption(isRequired: bool, usageText: string, isPresent: bool)
    | ParameterOption(isRequired: bool, usageText: string, isPresent: bool, parameter: Parameter<T>)
  {
    function Value(): OptValue<T> {
      match this
      case SimpleOption(_, _, present) => Flag(present)
      case ParameterOption(_, _, _, p) => Given(p.Value())
    }

    predicate HasParameter() {
      ParameterOption?
    }

    predicate IsParameterRequired() {
      ParameterOption? && parameter.isRequired
    }

    function ParameterUsageName(): string {
      if ParameterOption? then parameter.usageName else ""
    }

    function MarkPresent(): (r: Opt<T>)
      ensures r.isPresent && r.HasParameter() == HasParameter()
      ensures r.IsParameterRequired() == IsParameterRequired() && r.isRequired == isRequired
      ensures r.ParameterOption? ==> r.parameter == parameter
    {
      this.(isPresent := true)
    }

    /** Sets the parameter from text. A flag refuses any parameter; a
        failed conversion returns the option untouched with the error. */
    function SetValue(s: string): (r: (Opt<T>, Option<SetValueError>))
      ensures SimpleOption? ==> r == (this, Some(ForbiddenParameter))
      ensures ParameterOption? ==> (r.1.None? <==> parameter.convert(s).Success?)
      ensures ParameterOption? && r.1.None? ==>
                r.0.ParameterOption? && r.0.Value() == Given(parameter.convert(s).value)
      ensures r.1.Some? ==> r.0 == this
      ensures r.0.isPresent == isPresent && r.0.isRequired == isRequired
      ensures r.0.HasParameter() == HasParameter() && r.0.IsParameterRequired() == IsParameterRequired()
    {
      match this
      case SimpleOption(_, _, _) => (this, Some(ForbiddenParameter))
      case ParameterOption(_, _, _, p) =>
        var (p', err) := p.SetValue(s);
        if err.Some? then (this, Some(ConversionFailed(err.value)))
        else (this.(parameter := p'), None)
    }
  }

  /** SimpleOption: a parameterless option whose value is its presence. */
  function NewSimpleOption<T>(isRequired: bool, usageText: string): (o: Opt<T>)
    ensures o.Value() == Flag(false) && !o.isPresent && o.isRequired == isRequired
    ensures !o.HasParameter() && !o.IsParameterRequired() && o.ParameterUsageName() == ""
    ensures forall s :: o.SetValue(s).1 == Some(ForbiddenParameter)
  {
    SimpleOption(isRequired, usageText, false)
  }

  datatype ArgumentNull = ArgumentNull(paramName: string)

  /** ParameterOption: refuses a null parameter; otherwise an absent option
      whose value and parameter policy are those of its parameter. */
  function NewParameterOption<T>(isRequired: bool, usageText: string, parameter: Option<Parameter<T>>)
    : (r: Result<Opt<T>, ArgumentNull>)
    ensures parameter.None? <==> r.Failure?
    ensures r.Failure? ==> r.error == ArgumentNull("parameter")
    ensures r.Success? ==>
              && r.value.HasParameter() && !r.value.isPresent && r.value.isRequired == isRequired
              && r.value.Value() == Given(parameter.value.Value())
              && r.value.IsParameterRequired() == parameter.value.isRequired
              && r.value.ParameterUsageName() == parameter.value.usageName
  {
    match parameter
    case None => Failure(ArgumentNull("parameter"))
    case Some(p) => Success(ParameterOption(isRequired, usageText, false, p))
  }

  // ----- The registry -----

  /** An option is known to the registry by a handle; every synonym of an
      option maps to the same handle. */
  type OptId = nat

  /** `index` maps every registered name to its option, `synonyms` maps the
      first name of each option to its full name list, and `order` lists
      those first names as they were registered. */
  datatype Registry = Registry(index: map<string, OptId>, synonyms: map<string, seq<string>>, order: seq<string>)

  const EmptyRegistry := Registry(map[], map[], [])

  datatype ConfigError = NoNames | BadName(nameError: Tokens.NameError) | DuplicateName(name: string)

  function ConfigErrorMessage(e: ConfigError): string {
    match e
    case NoNames => "An Option must have at least one name."
    case BadName(n) => Tokens.NameErrorMessage(n)
    case DuplicateName(n) => "Option name: " + n + " is already assigned, please choose another name."
  }

  /** The registry invariant: names are accepted, first names are listed once
      each, and every synonym list starts with its key and points at one
      option. */
  predicate Valid(reg: Registry) {
    && (forall n :: n in reg.index ==> Tokens.IsAcceptedName(n))
    && (forall i :: 0 <= i < |reg.order| ==> reg.order[i] in reg.synonyms)
    && (forall k :: k in reg.synonyms ==> k in reg.order)
    && (forall i, j :: 0 <= i < j < |reg.order| ==> reg.order[i] != reg.order[j])
    && (forall k :: k in reg.synonyms ==>
          && k in reg.index && |reg.synonyms[k]| >= 1 && reg.synonyms[k][0] == k
          && forall j :: 0 <= j < |reg.synonyms[k]| ==>
               reg.synonyms[k][j] in reg.index && reg.index[reg.synonyms[k][j]] == reg.index[k])
  }

  /** Names that can all be added: present, accepted, new and pairwise distinct. */
  predicate Fresh(index: map<string, OptId>, names: seq<Option<string>>) {
    && (forall i :: 0 <= i < |names| ==>
          names[i].Some? && Tokens.IsAcceptedName(names[i].value) && names[i].value !in index)
    && (forall i, j :: 0 <= i < j < |names| ==> names[i] != names[j])
  }

  /** Fresh for a short name and a possibly missing long name. */
  lemma FreshPair(index: map<string, OptId>, a: string, b: Option<string>)
    ensures Fresh(index, [Some(a), b]) <==>
              && Tokens.IsAcceptedName(a) && a !in index
              && b.Some? && Tokens.IsAcceptedName(b.value) && b.value !in index && b.value != a
  {
    var names := [Some(a), b];
    assert names[0] == Some(a) && names[1] == b;
  }

  function Values(names: seq<Option<string>>): (r: seq<string>)
    requires forall i :: 0 <= i < |names| ==> names[i].Some?
    ensures |r| == |names| && forall i :: 0 <= i < |names| ==> r[i] == names[i].value
  {
    seq(|names|, i requires 0 <= i < |names| => names[i].value)
  }

  /** Why `name` cannot be added to `index`, if it cannot. */
  function Rejection(index: map<string, OptId>, name: Option<string>): (r: Option<ConfigError>)
    ensures name.None? ==> r == Some(BadName(Tokens.NullName))
    ensures name.Some? && !Tokens.IsAcceptedName(name.value) ==> r == Some(BadName(Tokens.InvalidName(name.value)))
    ensures name.Some? && Tokens.IsAcceptedName(name.value) ==>
              r == if name.value in index then Some(DuplicateName(name.value)) else None
  {
    match Tokens.CheckName(name)
    case Fail(e) => Some(BadName(e))
    case Pass => if name.value in index then Some(DuplicateName(name.value)) else None
  }

  /** The name loop stopped at `names[j]`: the names before it were all
      fresh and are exactly what `index'` adds to `index`, and `names[j]` is
      rejected with `err` against that index. */
  ghost predicate StoppedAt(index: map<string, OptId>, names: seq<Option<string>>, j: nat,
                      index': map<string, OptId>, err: ConfigError)
    requires j < |names|
  {
    && Fresh(index, names[..j])
    && (forall n :: n in index' <==> n in index || Some(n) in names[..j])
    && Rejection(index', names[j]) == Some(err)
  }

  /** The name loop of `Add`: each name is checked and indexed in turn, so
      on a failure the names before it stay indexed. */
  function AddNames(index: map<string, OptId>, id: OptId, names: seq<Option<string>>)
    : (r: (map<string, OptId>, Option<ConfigError>))
    ensures r.1.None? <==> Fresh(index, names)
    ensures forall n :: n in index ==> n in r.0 && r.0[n] == index[n]
    ensures forall n :: n in r.0 && n !in index ==> r.0[n] == id && Some(n) in names
    ensures r.1.None? ==> forall i :: 0 <= i < |names| ==> names[i].value in r.0
    ensures r.1.Some? ==> exists j :: 0 <= j < |names| && StoppedAt(index, names, j, r.0, r.1.value)
    decreases |names|
  {
    if |names| == 0 then (index, None)
    else
      var rej := Rejection(index, names[0]);
      if rej.Some? then
        assert names[..0] == [];
        assert StoppedAt(index, names, 0, index, rej.value);
        (index, rej)
      else
        var r := AddNames(index[names[0].value := id], id, names[1..]);
        FreshCons(index, id, names);
        assert forall n :: Some(n) in names[1..] ==> Some(n) in names;
        assert forall i :: 1 <= i < |names| ==> names[i] == names[1..][i - 1];
        if r.1.Some? then
          StoppedAtCons(index, id, names, index[names[0].value := id], names[1..], r.0, r.1.value);
          r
        else r
  }

  /** A stop in the tail, after the head was indexed, is a stop one place
      later in the whole list. */
  lemma StoppedAtCons(index: map<string, OptId>, id: OptId, names: seq<Option<string>>,
                      next: map<string, OptId>, tail: seq<Option<string>>,
                      index': map<string, OptId>, err: ConfigError)
    requires |names| >= 1 && Rejection(index, names[0]).None?
    requires next == index[names[0].value := id] && tail == names[1..]
    requires exists j :: 0 <= j < |tail| && StoppedAt(next, tail, j, index', err)
    ensures exists j :: 0 <= j < |names| && StoppedAt(index, names, j, index', err)
  {
    var j :| 0 <= j < |tail| && StoppedAt(next, tail, j, index', err);
    var prefix := names[..j + 1];
    assert prefix[1..] == names[1..][..j];
    assert prefix == [names[0]] + names[1..][..j];
    FreshCons(index, id, prefix);
    assert names[j + 1] == names[1..][j];
    assert StoppedAt(index, names, j + 1, index', err);
  }

  /** Freshness of a list is freshness of its head followed by freshness of
      its tail once the head is indexed. */
  lemma FreshCons(index: map<string, OptId>, id: OptId, names: seq<Option<string>>)
    requires |names| >= 1 && names[0].Some? && Tokens.IsAcceptedName(names[0].value) && names[0].value !in index
    ensures Fresh(index, names) <==> Fresh(index[names[0].value := id], names[1..])
  {
    var n := names[0].value;
    var index' := index[n := id];
    if Fresh(index', names[1..]) {
      forall i | 0 <= i < |names| ensures names[i].Some? && Tokens.IsAcceptedName(names[i].value) && names[i].value !in index {
        if i > 0 {
          assert names[1..][i - 1] == names[i];
        }
      }
      forall i, j | 0 <= i < j < |names| ensures names[i] != names[j] {
        assert names[1..][j - 1] == names[j];
        if i > 0 {
          assert names[1..][i - 1] == names[i];
        }
      }
    }
    if Fresh(index, names) {
      forall i | 0 <= i < |names[1..]|
        ensures names[1..][i].Some? && names[1..][i].value !in index'
      {
        assert names[1..][i] == names[i + 1];
        assert names[0] != names[i + 1];
      }
    }
  }

  datatype AddOutcome = Added(registry: Registry) | Rejected(error: ConfigError, registry: Registry)

  /** OptionContainer.Add: registers `names` for option `id`. The list must
      be non-empty and every name accepted and unused (also within the list);
      the first name becomes the option's key in `synonyms` and `order`.
      A rejection records no synonym list, but the names checked before the
      failing one stay indexed. */
  function Add(reg: Registry, id: OptId, names: seq<Option<string>>): (r: AddOutcome)
    ensures |names| == 0 ==> r == Rejected(NoNames, reg)
    ensures r.Added? <==> |names| >= 1 && Fresh(reg.index, names)
    ensures forall n :: n in reg.index ==> n in r.registry.index && r.registry.index[n] == reg.index[n]
    ensures forall n :: n in r.registry.index && n !in reg.index ==> r.registry.index[n] == id && Some(n) in names
    ensures r.Added? ==>
              && (forall i :: 0 <= i < |names| ==> names[i].value in r.registry.index)
              && r.registry.synonyms == reg.synonyms[names[0].value := Values(names)]
              && r.registry.order == reg.order + [names[0].value]
    ensures r.Rejected? ==> r.registry.synonyms == reg.synonyms && r.registry.order == reg.order
    ensures r.Rejected? && |names| >= 1 ==>
              exists j :: 0 <= j < |names| && StoppedAt(reg.index, names, j, r.registry.index, r.error)
  {
    if |names| == 0 then Rejected(NoNames, reg)
    else
      var (index', err) := AddNames(reg.index, id, names);
      if err.Some? then Rejected(err.value, reg.(index := index'))
      else Added(Registry(index', reg.synonyms[names[0].value := Values(names)], reg.order + [names[0].value]))
  }

  function FindByName(reg: Registry, name: string): OptId
    requires name in reg.index
  {
    reg.index[name]
  }

  predicate ContainsName(reg: Registry, name: string) {
    name in reg.index
  }

  function ListUniqueNames(reg: Registry): seq<string> {
    reg.order
  }

  function FindSynonymsByName(reg: Registry, name: string): seq<string>
    requires name in reg.synonyms
  {
    reg.synonyms[name]
  }

  // ----- Facts about the registry -----

  /** Adding keeps the registry invariant, whether it succeeds or not. */
  lemma AddPreservesValid(reg: Registry, id: OptId, names: seq<Option<string>>)
    requires Valid(reg)
    ensures Valid(Add(reg, id, names).registry)
  {
    var r := Add(reg, id, names);
    var reg' := r.registry;
    forall n | n in reg'.index ensures Tokens.IsAcceptedName(n) {
      if n !in reg.index {
        var i :| 0 <= i < |names| && names[i] == Some(n);
        if r.Added? {
          assert Fresh(reg.index, names);
        } else {
          AddNamesValid(reg.index, id, names);
        }
      }
    }
    if r.Added? {
      AddedSynonymsValid(reg, id, names);
    }
  }

  /** Every name the name loop indexes has passed the name check. */
  lemma AddNamesValid(index: map<string, OptId>, id: OptId, names: seq<Option<string>>)
    requires forall n :: n in index ==> Tokens.IsAcceptedName(n)
    ensures forall n :: n in AddNames(index, id, names).0 ==> Tokens.IsAcceptedName(n)
    decreases |names|
  {
    if |names| >= 1 && Rejection(index, names[0]).None? {
      AddNamesValid(index[names[0].value := id], id, names[1..]);
    }
  }

  lemma AddedSynonymsValid(reg: Registry, id: OptId, names: seq<Option<string>>)
    requires Valid(reg) && Add(reg, id, names).Added?
    ensures var reg' := Add(reg, id, names).registry;
      && (forall i :: 0 <= i < |reg'.order| ==> reg'.order[i] in reg'.synonyms)
      && (forall k :: k in reg'.synonyms ==> k in reg'.order)
      && (forall i, j :: 0 <= i < j < |reg'.order| ==> reg'.order[i] != reg'.order[j])
      && (forall k :: k in reg'.synonyms ==>
            && k in reg'.index && |reg'.synonyms[k]| >= 1 && reg'.synonyms[k][0] == k
            && forall j :: 0 <= j < |reg'.synonyms[k]| ==>
                 reg'.synonyms[k][j] in reg'.index && reg'.index[reg'.synonyms[k][j]] == reg'.index[k])
  {
    AddedOrderValid(reg, id, names);
    AddedSynonymsLinked(reg, id, names);
  }

  /** After a successful add the first names are still listed once each,
      and exactly the keys of `synonyms`. */
  lemma AddedOrderValid(reg: Registry, id: OptId, names: seq<Option<string>>)
    requires Valid(reg) && Add(reg, id, names).Added?
    ensures var reg' := Add(reg, id, names).registry;
      && (forall i :: 0 <= i < |reg'.order| ==> reg'.order[i] in reg'.synonyms)
      && (forall k :: k in reg'.synonyms ==> k in reg'.order)
      && (forall i, j :: 0 <= i < j < |reg'.order| ==> reg'.order[i] != reg'.order[j])
  {
    var first := names[0].value;
    assert first !in reg.index;
    forall i | 0 <= i < |reg.order| ensures reg.order[i] != first {
      assert reg.order[i] in reg.synonyms;
    }
  }

  /** After a successful add every synonym list starts with its key and
      points at one option. */
  lemma AddedSynonymsLinked(reg: Registry, id: OptId, names: seq<Option<string>>)
    requires Valid(reg) && Add(reg, id, names).Added?
    ensures var reg' := Add(reg, id, names).registry;
      forall k :: k in reg'.synonyms ==>
        && k in reg'.index && |reg'.synonyms[k]| >= 1 && reg'.synonyms[k][0] == k
        && forall j :: 0 <= j < |reg'.synonyms[k]| ==>
             reg'.synonyms[k][j] in reg'.index && reg'.index[reg'.synonyms[k][j]] == reg'.index[k]
  {
    var reg' := Add(reg, id, names).registry;
    var first := names[0].value;
    forall k | k in reg'.synonyms && k != first
      ensures forall j :: 0 <= j < |reg'.synonyms[k]| ==>
                reg'.synonyms[k][j] in reg'.index && reg'.index[reg'.synonyms[k][j]] == reg'.index[k]
    {
      assert reg'.synonyms[k] == reg.synonyms[k];
    }
    forall j | 0 <= j < |names| ensures reg'.index[names[j].value] == id {
      assert names[j].value !in reg.index;
    }
  }

  /** After a successful add every listed name finds the option, the first
      name finds the whole list, and the first names gain exactly it. */
  lemma AddedNamesFindOption(reg: Registry, id: OptId, names: seq<Option<string>>)
    requires Add(reg, id, names).Added?
    ensures var reg' := Add(reg, id, names).registry;
      && (forall i :: 0 <= i < |names| ==> ContainsName(reg', names[i].value) && FindByName(reg', names[i].value) == id)
      && FindSynonymsByName(reg', names[0].value) == Values(names)
      && ListUniqueNames(reg') == ListUniqueNames(reg) + [names[0].value]
      && (forall n :: ContainsName(reg', n) <==> ContainsName(reg, n) || Some(n) in names)
  {
    var reg' := Add(reg, id, names).registry;
    forall i | 0 <= i < |names| ensures reg'.index[names[i].value] == id {
      assert names[i].value !in reg.index;
    }
    forall n | Some(n) in names ensures n in reg'.index {
      var i :| 0 <= i < |names| && names[i] == Some(n);
    }
  }

  /** A name already registered, or repeated within the list, makes the
      add fail, and an existing registration stays as it was. */
  lemma DuplicateRejected(reg: Registry, id: OptId, names: seq<Option<string>>, n: string)
    requires n in reg.index || exists i, j :: 0 <= i < j < |names| && names[i] == names[j] == Some(n)
    requires Some(n) in names
    ensures Add(reg, id, names).Rejected?
    ensures n in reg.index ==> FindByName(Add(reg, id, names).registry, n) == FindByName(reg, n)
  {
    var i :| 0 <= i < |names| && names[i] == Some(n);
  }
}
