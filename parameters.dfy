/** Parameter descriptions and the Parameters holder: each description checks a value of its kind;
    Parameters checks its positional arguments against the declared descriptions in order, takes
    its keyword arguments unchecked, and fills every declared name still missing with its
    default. */
module ParameterChecks {
  import opened Wrappers

  /** The Python values a parameter can be given: an int, a bool (which Python counts as an int),
      a float, a string, None, or any other object, compared by identity. */
  datatype Value = IntV(i: int) | BoolV(b: bool) | FloatV(r: real) | StrV(s: string) | NoneV | ObjectV(id: nat)
  {
    predicate IsNumber() {
      IntV? || BoolV? || FloatV?
    }

    /** The numeric value of a number; a bool counts as 0 or 1. */
    function Numeric(): real
      requires IsNumber()
    {
      match this
      case IntV(i) => i as real
      case BoolV(b) => if b then 1.0 else 0.0
      case FloatV(r) => r
    }
  }

  /** Python's ==: numbers compare by numeric value across int, bool and float; other values
      compare by content (strings, None) or identity (objects). */
  predicate PyEq(a: Value, b: Value) {
    if a.IsNumber() && b.IsNumber() then a.Numeric() == b.Numeric() else a == b
  }

  /** The kinds of description; None for a bound disables that side of the check. */
  datatype Kind =
    | Base
    | IntKind(minVal: Option<real>, maxVal: Option<real>)
    | FloatKind(minVal: Option<real>, maxVal: Option<real>)
    | StrKind
    | EnumKind(allowed: seq<Value>)

  datatype Parameter = Parameter(name: string, description: string, default: Value, kind: Kind)

  /** A value of the right type for its kind (the enum kind takes any type). */
  predicate WellTyped(k: Kind, v: Value) {
    match k
    case Base => true
    case IntKind(_, _) => v.IntV? || v.BoolV?
    case FloatKind(_, _) => v.FloatV?
    case StrKind => v.StrV?
    case EnumKind(_) => true
  }

  /** A well-typed number within the bounds, both inclusive. */
  predicate WithinBounds(minVal: Option<real>, maxVal: Option<real>, v: Value)
    requires v.IsNumber()
  {
    (minVal.None? || minVal.value <= v.Numeric()) && (maxVal.None? || v.Numeric() <= maxVal.value)
  }

  /** check_value: the base description refuses every value with NotImplementedError; a value of
      the wrong type is a TypeError; a number out of its bounds, or a value equal to none of the
      allowed ones, is a ValueError. */
  function CheckValue(p: Parameter, v: Value): (r: Outcome)
    ensures p.kind.Base? ==> r == Fail(NotImplementedError)
    ensures !p.kind.Base? ==> (r == Fail(TypeError) <==> !WellTyped(p.kind, v))
    ensures (p.kind.IntKind? || p.kind.FloatKind?) ==>
              (r == Pass <==> WellTyped(p.kind, v) && WithinBounds(p.kind.minVal, p.kind.maxVal, v))
    ensures p.kind.StrKind? ==> (r == Pass <==> v.StrV?)
    ensures p.kind.EnumKind? ==> (r == Pass <==> exists k :: 0 <= k < |p.kind.allowed| && PyEq(v, p.kind.allowed[k]))
    ensures r.Fail? ==> r.error in {NotImplementedError, TypeError, ValueError}
  {
    match p.kind
    case Base => Fail(NotImplementedError)
    case IntKind(minVal, maxVal) =>
      if !(v.IntV? || v.BoolV?) then Fail(TypeError)
      else if minVal.Some? && v.Numeric() < minVal.value then Fail(ValueError)
      else if maxVal.Some? && v.Numeric() > maxVal.value then Fail(ValueError)
      else Pass
    case FloatKind(minVal, maxVal) =>
      if !v.FloatV? then Fail(TypeError)
      else if minVal.Some? && v.Numeric() < minVal.value then Fail(ValueError)
      else if maxVal.Some? && v.Numeric() > maxVal.value then Fail(ValueError)
      else Pass
    case StrKind =>
      if !v.StrV? then Fail(TypeError) else Pass
    case EnumKind(allowed) =>
      if !(exists a :: a in allowed && PyEq(v, a)) then Fail(ValueError) else Pass
  }

  /** The descriptions Parameters declares. */
  const Declared: seq<Parameter> := [
    Parameter("attr_int", "An integer attribute", IntV(15), IntKind(Some(0.0), None)),
    Parameter("attr_float", "A float attribute", FloatV(0.0), FloatKind(Some(-100.0), Some(100.0))),
    Parameter("attr_str", "A string attribute", StrV("default_value"), StrKind),
    Parameter("attr_enum", "An enum attribute", IntV(0), EnumKind([StrV("A"), IntV(0), ObjectV(0), NoneV]))
  ]

  /** A float description refuses every int, even one within its bounds; the declared enum
      accepts False and 0.0 because they equal its allowed 0, and refuses a string it does not
      list. */
  lemma CheckValueExamples(i: int)
    ensures CheckValue(Declared[1], IntV(i)) == Fail(TypeError)
    ensures CheckValue(Declared[0], BoolV(true)) == Pass && CheckValue(Declared[0], IntV(-1)) == Fail(ValueError)
    ensures CheckValue(Declared[3], BoolV(false)) == Pass && CheckValue(Declared[3], FloatV(0.0)) == Pass
    ensures CheckValue(Declared[3], StrV("B")) == Fail(ValueError)
  {
    assert PyEq(BoolV(false), Declared[3].kind.allowed[1]);
    assert PyEq(FloatV(0.0), Declared[3].kind.allowed[1]);
    assert StrV("B") != StrV("A") by {
      assert StrV("B").s[0] != StrV("A").s[0];
    }
  }

  // ---------------------------------------------------------------------------------------------
  // Parameters

  /** How the positional arguments from position i on fare: the first one beyond the declared
      descriptions is an IndexError, the first one its description refuses gives that error. */
  function ArgsOutcomeFrom(ds: seq<Parameter>, args: seq<Value>, i: nat): (o: Outcome)
    requires i <= |args|
    decreases |args| - i
  {
    if i == |args| then Pass
    else if i >= |ds| then Fail(IndexError)
    else if CheckValue(ds[i], args[i]).Fail? then CheckValue(ds[i], args[i])
    else ArgsOutcomeFrom(ds, args, i + 1)
  }

  /** The positional arguments are accepted exactly when there are no more of them than
      descriptions and each passes its own description's check. */
  lemma {:induction false} ArgsOutcomePass(ds: seq<Parameter>, args: seq<Value>, i: nat)
    requires i <= |args| && i <= |ds|
    ensures ArgsOutcomeFrom(ds, args, i) == Pass <==>
              |args| <= |ds| && forall j :: i <= j < |args| ==> CheckValue(ds[j], args[j]) == Pass
    decreases |args| - i
  {
    if i < |args| && i < |ds| {
      ArgsOutcomePass(ds, args, i + 1);
      if CheckValue(ds[i], args[i]).Fail? {
        assert CheckValue(ds[i], args[i]) != Pass;
      }
    } else if i < |args| {
      assert ArgsOutcomeFrom(ds, args, i) == Fail(IndexError);
    }
  }

  /** The values stored for the positional arguments: argument i under the name of description i. */
  function Positional(ds: seq<Parameter>, args: seq<Value>): map<string, Value>
    requires |args| <= |ds|
  {
    if args == [] then map[]
    else Positional(ds, args[..|args| - 1])[ds[|args| - 1].name := args[|args| - 1]]
  }

  /** The keyword arguments stored over m, in order. */
  function WithKeywords(m: map<string, Value>, kwargs: seq<(string, Value)>): map<string, Value> {
    if kwargs == [] then m
    else WithKeywords(m, kwargs[..|kwargs| - 1])[kwargs[|kwargs| - 1].0 := kwargs[|kwargs| - 1].1]
  }

  /** The defaults of the descriptions whose names m still lacks. */
  function WithDefaults(m: map<string, Value>, ds: seq<Parameter>): map<string, Value> {
    if ds == [] then m
    else
      var m' := WithDefaults(m, ds[..|ds| - 1]);
      if ds[|ds| - 1].name in m' then m' else m'[ds[|ds| - 1].name := ds[|ds| - 1].default]
  }

  /** The names of a list of descriptions. */
  function Names(ds: seq<Parameter>): (ns: set<string>)
    ensures forall k :: 0 <= k < |ds| ==> ds[k].name in ns
    ensures forall n :: n in ns ==> exists k :: 0 <= k < |ds| && ds[k].name == n
  {
    set k | 0 <= k < |ds| :: ds[k].name
  }

  /** The keywords of a list of keyword arguments. */
  function Keywords(kwargs: seq<(string, Value)>): (ks: set<string>)
    ensures forall k :: 0 <= k < |kwargs| ==> kwargs[k].0 in ks
    ensures forall n :: n in ks ==> exists k :: 0 <= k < |kwargs| && kwargs[k].0 == n
  {
    set k | 0 <= k < |kwargs| :: kwargs[k].0
  }

  /** The value the last keyword argument with a given keyword carries. */
  function LastKeyword(kwargs: seq<(string, Value)>, key: string): Value
    requires key in Keywords(kwargs)
  {
    if kwargs[|kwargs| - 1].0 == key then kwargs[|kwargs| - 1].1
    else
      assert key in Keywords(kwargs[..|kwargs| - 1]) by {
        var k :| 0 <= k < |kwargs| && kwargs[k].0 == key;
        assert kwargs[..|kwargs| - 1][k].0 == key;
      }
      LastKeyword(kwargs[..|kwargs| - 1], key)
  }

  /** The names of descriptions carry no duplicates. */
  predicate DistinctNames(ds: seq<Parameter>) {
    forall p, q :: 0 <= p < q < |ds| ==> ds[p].name != ds[q].name
  }

  /** The holder of the parameter values of a metaheuristic or a problem. */
  class Parameters {
    const descriptors: seq<Parameter>
    var values: map<string, Value>

    /** A fresh holder over the declared descriptions, with no value yet. */
    constructor ()
      ensures descriptors == Declared && values == map[]
    {
      descriptors := Declared;
      values := map[];
    }

    /** __init__'s body on a fresh holder: positional arguments are checked and stored under
        their descriptions' names, keyword arguments are stored unchecked over them, and every
        declared name still missing gets its default. */
    method Init(args: seq<Value>, kwargs: seq<(string, Value)>) returns (o: Outcome)
      requires values == map[]
      modifies this
      ensures o == ArgsOutcomeFrom(descriptors, args, 0)
      ensures o == Pass ==> |args| <= |descriptors| &&
                            values == WithDefaults(WithKeywords(Positional(descriptors, args), kwargs), descriptors)
    {
      for i := 0 to |args|
        invariant i <= |descriptors|
        invariant ArgsOutcomeFrom(descriptors, args, 0) == ArgsOutcomeFrom(descriptors, args, i)
        invariant values == Positional(descriptors, args[..i])
      {
        if i >= |descriptors| {
          return Fail(IndexError);
        }
        var check := CheckValue(descriptors[i], args[i]);
        if check.Fail? {
          return check;
        }
        assert args[..i + 1][..i] == args[..i];
        values := values[descriptors[i].name := args[i]];
      }
      assert args[..|args|] == args;
      ghost var positional := values;
      for j := 0 to |kwargs|
        invariant values == WithKeywords(positional, kwargs[..j])
      {
        assert kwargs[..j + 1][..j] == kwargs[..j];
        values := values[kwargs[j].0 := kwargs[j].1];
      }
      assert kwargs[..|kwargs|] == kwargs;
      ghost var keyed := values;
      for k := 0 to |descriptors|
        invariant values == WithDefaults(keyed, descriptors[..k])
      {
        assert descriptors[..k + 1][..k] == descriptors[..k];
        if descriptors[k].name !in values {
          values := values[descriptors[k].name := descriptors[k].default];
        }
      }
      assert descriptors[..|descriptors|] == descriptors;
      o := Pass;
    }

    /** __getitem__: the stored value, or AttributeError for a name with none. */
    method GetItem(key: string) returns (r: Result<Value>)
      ensures key in values ==> r == Success(values[key])
      ensures key !in values ==> r == Failure(AttributeError)
    {
      if key !in values {
        return Failure(AttributeError);
      }
      return Success(values[key]);
    }
  }

  // ---------------------------------------------------------------------------------------------
  // What construction promises

  lemma {:induction false} PositionalKeys(ds: seq<Parameter>, args: seq<Value>)
    requires |args| <= |ds|
    ensures forall n :: n in Positional(ds, args) <==> exists i :: 0 <= i < |args| && ds[i].name == n
  {
    if args != [] {
      PositionalKeys(ds, args[..|args| - 1]);
    }
  }

  /** With distinct names, argument i is stored under the name of description i. */
  lemma {:induction false} PositionalAt(ds: seq<Parameter>, args: seq<Value>, i: nat)
    requires |args| <= |ds| && DistinctNames(ds) && i < |args|
    ensures ds[i].name in Positional(ds, args) && Positional(ds, args)[ds[i].name] == args[i]
  {
    if i < |args| - 1 {
      PositionalAt(ds, args[..|args| - 1], i);
    }
  }

  /** A keyword argument wins: the last value given for a keyword is stored under it. */
  lemma {:induction false} WithKeywordsAt(m: map<string, Value>, kwargs: seq<(string, Value)>, key: string)
    ensures key in Keywords(kwargs) ==> key in WithKeywords(m, kwargs) && WithKeywords(m, kwargs)[key] == LastKeyword(kwargs, key)
    ensures key !in Keywords(kwargs) ==> (key in WithKeywords(m, kwargs) <==> key in m) &&
                                          (key in m ==> WithKeywords(m, kwargs)[key] == m[key])
  {
    if kwargs != [] {
      var init := kwargs[..|kwargs| - 1];
      WithKeywordsAt(m, init, key);
      if key != kwargs[|kwargs| - 1].0 {
        assert key in Keywords(kwargs) ==> key in Keywords(init) by {
          if key in Keywords(kwargs) {
            var k :| 0 <= k < |kwargs| && kwargs[k].0 == key;
            assert init[k].0 == key;
          }
        }
        assert key in Keywords(init) ==> key in Keywords(kwargs) by {
          if key in Keywords(init) {
            var k :| 0 <= k < |init| && init[k].0 == key;
            assert kwargs[k].0 == key;
          }
        }
      }
    }
  }

  /** Defaults fill only the missing names: a name already present keeps its value, a declared
      missing name gets the default of its description, nothing else is added. */
  lemma {:induction false} WithDefaultsAt(m: map<string, Value>, ds: seq<Parameter>, key: string)
    requires DistinctNames(ds)
    ensures key in m ==> key in WithDefaults(m, ds) && WithDefaults(m, ds)[key] == m[key]
    ensures key !in m && key !in Names(ds) ==> key !in WithDefaults(m, ds)
    ensures forall i :: 0 <= i < |ds| && ds[i].name == key && key !in m ==>
              key in WithDefaults(m, ds) && WithDefaults(m, ds)[key] == ds[i].default
  {
    if ds != [] {
      var init := ds[..|ds| - 1];
      assert DistinctNames(init);
      WithDefaultsAt(m, init, key);
      forall i | 0 <= i < |ds| && ds[i].name == key && key !in m
        ensures key in WithDefaults(m, ds) && WithDefaults(m, ds)[key] == ds[i].default
      {
        if i < |init| {
          assert init[i].name == key;
        }
      }
    }
  }

  /** After a successful construction over descriptions with distinct names: every declared name
      has a value; a keyword argument's value is stored under its keyword; a positional argument
      is stored under its description's name unless a keyword argument overrides it; a declared
      name given neither way holds its default; and no other name is stored. */
  lemma ConstructedValues(ds: seq<Parameter>, args: seq<Value>, kwargs: seq<(string, Value)>, key: string)
    requires |args| <= |ds| && DistinctNames(ds)
    ensures var values := WithDefaults(WithKeywords(Positional(ds, args), kwargs), ds);
            (key in values <==> key in Names(ds) || key in Keywords(kwargs)) &&
            (key in Keywords(kwargs) ==> values[key] == LastKeyword(kwargs, key)) &&
            (forall i :: 0 <= i < |args| && ds[i].name == key && key !in Keywords(kwargs) ==> values[key] == args[i]) &&
            (forall i :: |args| <= i < |ds| && ds[i].name == key && key !in Keywords(kwargs) ==> values[key] == ds[i].default)
  {
    var pos := Positional(ds, args);
    var kw := WithKeywords(pos, kwargs);
    PositionalKeys(ds, args);
    WithKeywordsAt(pos, kwargs, key);
    WithDefaultsAt(kw, ds, key);
    forall i | 0 <= i < |args| && ds[i].name == key
      ensures key in pos && pos[key] == args[i]
    {
      PositionalAt(ds, args, i);
    }
  }
}
