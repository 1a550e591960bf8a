/** Parameter constraints: predicates on a converted parameter value that
    `CheckConstraints` applies on request. */
module Constraints {
  import opened Wrappers
  import Text
  import Parameters
  import Options

  /** LowerBoundConstraint(limit): accepts values at or above the limit. */
  function LowerBound(limit: int): (c: int -> bool)
    ensures forall v :: c(v) <==> v >= limit
  {
    v => v >= limit
  }

  /** UpperBoundConstraint(limit): accepts values at or below the limit. */
  function UpperBound(limit: int): (c: int -> bool)
    ensures forall v :: c(v) <==> v <= limit
  {
    v => v <= limit
  }

  /** An equality comparer for strings: the two invariant-culture comparers
      the library selects by `ignoreCase`, or one supplied by the caller. */
  datatype Comparer =
    | InvariantCulture
    | InvariantCultureIgnoreCase
    | Custom(equals: (string, string) -> bool)

  /** Whether `cmp` considers `x` equal to `y`. */
  predicate Equal(cmp: Comparer, x: string, y: string) {
    match cmp
    case InvariantCulture => x == y
    case InvariantCultureIgnoreCase => Text.EqualsIgnoreCase(x, y)
    case Custom(eq) => eq(x, y)
  }

  /** StringEnumerationConstraint: the accepted values and the comparer
      arguments are compared with. */
  datatype StringEnumeration = StringEnumeration(acceptedValues: seq<string>, comparer: Comparer)

  /** The two-argument constructor: both arguments must be non-null, and the
      accepted values are checked first. */
  function NewStringEnumeration(acceptedValues: Option<seq<string>>, comparer: Option<Comparer>)
    : (r: Result<StringEnumeration, Options.ArgumentNull>)
    ensures r.Success? <==> acceptedValues.Some? && comparer.Some?
    ensures acceptedValues.None? ==> r == Failure(Options.ArgumentNull("acceptedValues"))
    ensures acceptedValues.Some? && comparer.None? ==> r == Failure(Options.ArgumentNull("comparer"))
    ensures r.Success? ==> r.value.acceptedValues == acceptedValues.value && r.value.comparer == comparer.value
  {
    if acceptedValues.None? then Failure(Options.ArgumentNull("acceptedValues"))
    else if comparer.None? then Failure(Options.ArgumentNull("comparer"))
    else Success(StringEnumeration(acceptedValues.value, comparer.value))
  }

  /** The `ignoreCase` constructor: picks one of the invariant-culture
      comparers, so only a null list of accepted values can fail. */
  function StringEnumerationIgnoringCase(acceptedValues: Option<seq<string>>, ignoreCase: bool)
    : (r: Result<StringEnumeration, Options.ArgumentNull>)
    ensures r.Failure? <==> acceptedValues.None?
    ensures r.Failure? ==> r.error == Options.ArgumentNull("acceptedValues")
    ensures r.Success? ==> r.value.acceptedValues == acceptedValues.value
    ensures r.Success? ==> (r.value.comparer.InvariantCultureIgnoreCase? <==> ignoreCase)
    ensures r.Success? ==> !r.value.comparer.Custom?
  {
    NewStringEnumeration(acceptedValues,
      Some(if ignoreCase then InvariantCultureIgnoreCase else InvariantCulture))
  }

  /** `Enumerable.Contains(values, p, cmp)`: some element is equal to `p`
      under the comparer, the element passed first. */
  function Contains(values: seq<string>, p: string, cmp: Comparer): (r: bool)
    ensures r <==> exists i :: 0 <= i < |values| && Equal(cmp, values[i], p)
  {
    if |values| == 0 then false
    else if Equal(cmp, values[0], p) then true
    else
      var r := Contains(values[1..], p, cmp);
      assert forall i :: 1 <= i < |values| ==> values[i] == values[1..][i - 1];
      r
  }

  /** StringEnumerationConstraint.IsValid */
  function IsValid(e: StringEnumeration, p: string): (r: bool)
    ensures r <==> exists i :: 0 <= i < |e.acceptedValues| && Equal(e.comparer, e.acceptedValues[i], p)
  {
    Contains(e.acceptedValues, p, e.comparer)
  }

  /** The enumeration as a constraint a string parameter can carry. */
  function AsConstraint(e: StringEnumeration): (c: string -> bool)
    ensures forall p :: c(p) == IsValid(e, p)
  {
    p => IsValid(e, p)
  }

  // ----- Facts about constraints -----

  /** A lower and an upper bound added to an integer parameter accept
      exactly the values in the inclusive range, on top of whatever the
      parameter's earlier constraints demand. */
  lemma BoundsAcceptRange(p: Parameters.Parameter<int>, lo: int, hi: int)
    ensures var q := p.AddConstraint(LowerBound(lo)).AddConstraint(UpperBound(hi));
      (forall i :: 0 <= i < |q.constraints| ==> q.constraints[i](q.Value())) <==>
      ((forall i :: 0 <= i < |p.constraints| ==> p.constraints[i](p.Value())) && lo <= p.Value() <= hi)
  {
    var q1 := p.AddConstraint(LowerBound(lo));
    var q := q1.AddConstraint(UpperBound(hi));
    var n := |p.constraints|;
    assert q.constraints == p.constraints + [LowerBound(lo), UpperBound(hi)];
    assert q.Value() == p.Value();
    assert forall i :: 0 <= i < n ==> q.constraints[i] == p.constraints[i];
    assert q.constraints[n] == LowerBound(lo) && q.constraints[n + 1] == UpperBound(hi);
  }

  /** With the bounds the wrong way round no value is accepted. */
  lemma CrossedBoundsAcceptNothing(lo: int, hi: int, v: int)
    requires lo > hi
    ensures !(LowerBound(lo)(v) && UpperBound(hi)(v))
  {}

  /** The case-sensitive enumeration accepts exactly its listed values. */
  lemma CaseSensitiveIsMembership(values: seq<string>, p: string)
    ensures IsValid(StringEnumeration(values, InvariantCulture), p) <==> p in values
  {
    if p in values {
      var i :| 0 <= i < |values| && values[i] == p;
      assert Equal(InvariantCulture, values[i], p);
    }
  }

  /** The case-insensitive enumeration accepts exactly the strings whose
      case-folded form is the folded form of a listed value. */
  lemma IgnoreCaseIsFoldedMembership(values: seq<string>, p: string)
    ensures IsValid(StringEnumeration(values, InvariantCultureIgnoreCase), p) <==>
            exists i :: 0 <= i < |values| && Text.Fold(values[i]) == Text.Fold(p)
  {}

  /** Ignoring case only widens what is accepted, and every listed value is
      accepted by both comparers. */
  lemma IgnoreCaseWidens(values: seq<string>, p: string)
    ensures IsValid(StringEnumeration(values, InvariantCulture), p) ==>
            IsValid(StringEnumeration(values, InvariantCultureIgnoreCase), p)
    ensures p in values ==> IsValid(StringEnumeration(values, InvariantCulture), p)
    ensures p in values ==> IsValid(StringEnumeration(values, InvariantCultureIgnoreCase), p)
  {
    CaseSensitiveIsMembership(values, p);
    if IsValid(StringEnumeration(values, InvariantCulture), p) {
      var i :| 0 <= i < |values| && values[i] == p;
      assert Equal(InvariantCultureIgnoreCase, values[i], p);
    }
  }
}
