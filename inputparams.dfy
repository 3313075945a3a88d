/**
 * The simulator's parameter store (`objects.InputParameters`): one
 * `Parameter` per field, `setParameter`, the loop that applies the
 * default-parameters file (with its name/label/description/category/value
 * blocks), the loop that applies a user parameters file, and what reloading
 * an exported parameter file does.
 */
module InputParams {
  import opened Wrappers
  import opened JUtils
  import opened ParamTable
  import opened ParamFile

  /** A parameter value of any of the four declared types. */
  datatype Value = DoubleVal(d: real) | IntVal(i: int) | BoolVal(b: bool) | StringVal(s: string)

  /** `objects.Parameter<E>`: a value with its label, description, name and category. */
  datatype Parameter<T> = Parameter(value: T, labelText: string, description: string, name: string, category: string)

  /** The parameter fields of `InputParameters`, one map per declared type, keyed by field name. */
  datatype Params = Params(
    doubles: map<string, Parameter<real>>,
    ints: map<string, Parameter<int>>,
    bools: map<string, Parameter<bool>>,
    strings: map<string, Parameter<string>>)

  /** There is a parameter for every field of each type and for nothing else. */
  predicate Complete(p: Params) {
    p.doubles.Keys == DOUBLE_FIELDS && p.ints.Keys == INT_FIELDS
    && p.bools.Keys == BOOL_FIELDS && p.strings.Keys == STRING_FIELDS
  }

  function Lift<T>(q: Parameter<T>, v: Value): Parameter<Value>
  {
    Parameter(v, q.labelText, q.description, q.name, q.category)
  }

  /** The field called f, whichever map of the store holds it. */
  function Lookup(p: Params, f: string): Option<Parameter<Value>>
  {
    if f in p.doubles then Some(Lift(p.doubles[f], DoubleVal(p.doubles[f].value)))
    else if f in p.ints then Some(Lift(p.ints[f], IntVal(p.ints[f].value)))
    else if f in p.bools then Some(Lift(p.bools[f], BoolVal(p.bools[f].value)))
    else if f in p.strings then Some(Lift(p.strings[f], StringVal(p.strings[f].value)))
    else None
  }

  /** `new Parameter<T>("", "", "", "", zero)` for each declared type. */
  function Blank(t: Ty): Parameter<Value>
  {
    var v := match t
      case TDouble => DoubleVal(0.0)
      case TInt => IntVal(0)
      case TBool => BoolVal(false)
      case TString => StringVal("");
    Parameter(v, "", "", "", "")
  }

  /** The store `initialiseInputParameters` builds. */
  function InitialParams(): Params
  {
    Params(
      map f | f in DOUBLE_FIELDS :: Parameter(0.0, "", "", "", ""),
      map f | f in INT_FIELDS :: Parameter(0, "", "", "", ""),
      map f | f in BOOL_FIELDS :: Parameter(false, "", "", "", ""),
      map f | f in STRING_FIELDS :: Parameter("", "", "", "", ""))
  }

  /** Every field starts blank, holding the zero value of its declared type. */
  lemma InitialParamsBlank(f: string)
    requires f in FIELDS
    ensures Complete(InitialParams())
    ensures Lookup(InitialParams(), f) == Some(Blank(TypeOf(f)))
  {
    FieldInTypeSet(f);
  }

  /** One `setParameter(name, label, description, category, value)` call. */
  datatype Call = Call(name: string, labelText: string, description: string, category: string, value: string)

  /** The value `setParameter` stores for the text of a value. */
  function Converted(k: Kind, value: string, parseReal: string -> Option<real>): Value
  {
    match k
    case DoubleKind(fallback) => DoubleVal(ParseDouble(parseReal(value), fallback))
    case IntKind => IntVal(ParseInteger(value, NONE))
    case BoolKind(ifBroken) => BoolVal(ParseBoolean(value, ifBroken))
    case StringKind => StringVal(value)
  }

  /** The parameter after an assignment: new value; label, description and category only when given. */
  function Assigned<T>(q: Parameter<T>, v: T, c: Call): Parameter<T>
  {
    q.(value := v,
       labelText := if c.labelText != "" then c.labelText else q.labelText,
       description := if c.description != "" then c.description else q.description,
       category := if c.category != "" then c.category else q.category)
  }

  /** The store after field f is assigned the value v, with the metadata of call c. */
  function Store(p: Params, f: string, v: Value, c: Call): Params
  {
    match v
    case DoubleVal(d) => if f in p.doubles then p.(doubles := p.doubles[f := Assigned(p.doubles[f], d, c)]) else p
    case IntVal(i) => if f in p.ints then p.(ints := p.ints[f := Assigned(p.ints[f], i, c)]) else p
    case BoolVal(b) => if f in p.bools then p.(bools := p.bools[f := Assigned(p.bools[f], b, c)]) else p
    case StringVal(t) => if f in p.strings then p.(strings := p.strings[f := Assigned(p.strings[f], t, c)]) else p
  }

  /** The parameters after one `setParameter` call: unknown names change nothing. */
  function SetSpec(p: Params, c: Call, parseReal: string -> Option<real>): Params
  {
    match Recognised(c.name)
    case None => p
    case Some(key) => Store(p, key.field, Converted(key.kind, c.value, parseReal), c)
  }

  /** The parameters after a series of `setParameter` calls, in order. */
  function ApplyCalls(p: Params, calls: seq<Call>, parseReal: string -> Option<real>): Params
  {
    if |calls| == 0 then p
    else SetSpec(ApplyCalls(p, calls[..|calls| - 1], parseReal), calls[|calls| - 1], parseReal)
  }

  /** `setParameter` never adds or removes a field. */
  lemma SetSpecComplete(p: Params, c: Call, parseReal: string -> Option<real>)
    requires Complete(p)
    ensures Complete(SetSpec(p, c, parseReal))
  {
  }

  lemma {:induction false} ApplyCallsComplete(p: Params, calls: seq<Call>, parseReal: string -> Option<real>)
    requires Complete(p)
    ensures Complete(ApplyCalls(p, calls, parseReal))
  {
    if |calls| > 0 {
      ApplyCallsComplete(p, calls[..|calls| - 1], parseReal);
      SetSpecComplete(ApplyCalls(p, calls[..|calls| - 1], parseReal), calls[|calls| - 1], parseReal);
    }
  }

  function ValueType(v: Value): Ty
  {
    match v
    case DoubleVal(_) => TDouble
    case IntVal(_) => TInt
    case BoolVal(_) => TBool
    case StringVal(_) => TString
  }

  /** The map of a complete store that holds the field a key selects. */
  lemma KeyInStore(p: Params, key: Key)
    requires Complete(p) && key.field in FIELDS && KindType(key.kind) == TypeOf(key.field)
    ensures key.kind.DoubleKind? ==> key.field in p.doubles
    ensures key.kind.IntKind? ==> key.field in p.ints
    ensures key.kind.BoolKind? ==> key.field in p.bools
    ensures key.kind.StringKind? ==> key.field in p.strings
  {
    FieldInTypeSet(key.field);
  }

  /** Assigning a field a value of its declared type reaches that field... */
  lemma StoreHere(p: Params, f: string, v: Value, c: Call)
    requires Complete(p) && f in FIELDS && ValueType(v) == TypeOf(f)
    ensures Lookup(p, f).Some?
    ensures Lookup(Store(p, f, v, c), f) == Some(Assigned(Lookup(p, f).value, v, c))
  {
    FieldInTypeSet(f);
  }

  /** ...and no other. */
  lemma StoreElsewhere(p: Params, f: string, v: Value, c: Call, g: string)
    requires g != f
    ensures Lookup(Store(p, f, v, c), g) == Lookup(p, g)
  {
  }

  lemma ConvertedType(k: Kind, value: string, parseReal: string -> Option<real>)
    ensures ValueType(Converted(k, value, parseReal)) == KindType(k)
  {
  }

  /**
   * One `setParameter` call changes at most the field its name selects: the
   * value is replaced by the converted text, and label, description and
   * category only when the call gives a non-empty one; the parameter's name
   * is never changed.
   */
  lemma SetParameterEffect(p: Params, c: Call, parseReal: string -> Option<real>)
    requires Complete(p)
    ensures var r := SetSpec(p, c, parseReal);
      match Recognised(c.name)
      case None => r == p
      case Some(key) =>
        && Lookup(p, key.field).Some? && Lookup(r, key.field).Some?
        && Lookup(r, key.field).value.value == Converted(key.kind, c.value, parseReal)
        && Lookup(r, key.field).value.name == Lookup(p, key.field).value.name
        && Lookup(r, key.field).value.labelText
           == (if c.labelText == "" then Lookup(p, key.field).value.labelText else c.labelText)
        && Lookup(r, key.field).value.description
           == (if c.description == "" then Lookup(p, key.field).value.description else c.description)
        && Lookup(r, key.field).value.category
           == (if c.category == "" then Lookup(p, key.field).value.category else c.category)
        && (forall g :: g != key.field ==> Lookup(r, g) == Lookup(p, g))
  {
    if Recognised(c.name).Some? {
      var key := Recognised(c.name).value;
      var v := Converted(key.kind, c.value, parseReal);
      ConvertedType(key.kind, c.value, parseReal);
      StoreHere(p, key.field, v, c);
      forall g | g != key.field
        ensures Lookup(SetSpec(p, c, parseReal), g) == Lookup(p, g)
      {
        StoreElsewhere(p, key.field, v, c, g);
      }
    }
  }

  /**
   * Unparsable numbers: every double parameter falls back to `NONE` except
   * TF_SPECIFIC_ENERGY_THRESHOLD, which falls back to 0.0; every integer
   * parameter falls back to `NONE`.
   */
  lemma ConvertedFallback(name: string, value: string, parseReal: string -> Option<real>)
    requires Recognised(name).Some?
    requires parseReal(value).None?
    requires forall i :: 0 <= i < |value| ==> !('0' <= value[i] <= '9')
    ensures var key := Recognised(name).value;
      (key.kind.DoubleKind? ==>
         Converted(key.kind, value, parseReal)
         == DoubleVal(if key.field == "TF_SPECIFIC_ENERGY_THRESHOLD" then 0.0 else NONE as real))
      && (key.kind.IntKind? ==> Converted(key.kind, value, parseReal) == IntVal(NONE))
  {
    ParseIntegerDefault(value, NONE);
  }

  // ---------------------------------------------------------------------------
  // The two loaders

  /** The calls `loadParameters` makes: one per pair with a non-empty name, with empty metadata. */
  function LoadCalls(pairs: seq<(string, string)>): seq<Call>
  {
    if |pairs| == 0 then []
    else
      var p := pairs[|pairs| - 1];
      LoadCalls(pairs[..|pairs| - 1]) + (if p.0 != "" then [Call(p.0, "", "", "", p.1)] else [])
  }

  /** The local variables `loadInitialInputParameters` carries through its loop. */
  datatype Acc = Acc(name: string, labelText: string, description: string, category: string, value: string, lastLoad: string)

  const START: Acc := Acc("", "", "", "", "", "")

  /** One pair of the default-parameters file: a new `name` flushes the current block. */
  function Step(a: Acc, p: (string, string)): (Acc, seq<Call>)
  {
    if p.0 == "name" then
      if a.name != "" then
        (a.(name := p.1, lastLoad := a.name), [Call(a.name, a.labelText, a.description, a.category, a.value)])
      else (a.(name := p.1), [])
    else if p.0 == "label" then (a.(labelText := p.1), [])
    else if p.0 == "description" then (a.(description := p.1), [])
    else if p.0 == "category" then (a.(category := p.1), [])
    else if p.0 == "value" then (a.(value := p.1), [])
    else (a, [])
  }

  /** The variables and the calls made so far after a prefix of the pairs. */
  function Run(pairs: seq<(string, string)>): (Acc, seq<Call>)
  {
    if |pairs| == 0 then (START, [])
    else
      var prev := Run(pairs[..|pairs| - 1]);
      var next := Step(prev.0, pairs[|pairs| - 1]);
      (next.0, prev.1 + next.1)
  }

  /** The last block is flushed unless its name is the one flushed last. */
  function FinalFlush(a: Acc): seq<Call>
  {
    if a.name != "" && a.lastLoad != a.name then [Call(a.name, a.labelText, a.description, a.category, a.value)] else []
  }

  /** Every `setParameter` call `loadInitialInputParameters` makes, in order. */
  function InitialCalls(pairs: seq<(string, string)>): seq<Call>
  {
    Run(pairs).1 + FinalFlush(Run(pairs).0)
  }

  /** Applying one more call after a series of calls. */
  lemma ApplySnoc(p: Params, done: seq<Call>, c: Call, parseReal: string -> Option<real>)
    ensures ApplyCalls(p, done + [c], parseReal) == SetSpec(ApplyCalls(p, done, parseReal), c, parseReal)
  {
    assert (done + [c])[..|done|] == done;
  }

  class InputParameters {
    var params: Params

    predicate Valid()
      reads this
    {
      Complete(params)
    }

    /** `initialiseInputParameters`: every field blank, with its type's zero value. */
    constructor()
      ensures Valid()
      ensures params == InitialParams()
    {
      params := InitialParams();
    }

    /** The assignment of one parameter: new value; label, description and category only when not empty. */
    static method Annotate<T>(q: Parameter<T>, v: T, labelText: string, description: string, category: string)
      returns (r: Parameter<T>)
      ensures r == Assigned(q, v, Call(q.name, labelText, description, category, ""))
    {
      r := q.(value := v);
      if labelText != "" {
        r := r.(labelText := labelText);
      }
      if description != "" {
        r := r.(description := description);
      }
      if category != "" {
        r := r.(category := category);
      }
    }

    /** `setParameter(name, label, description, category, value)`; `parseReal` is `Double.parseDouble`. */
    method SetParameter(name: string, labelText: string, description: string, category: string, value: string,
                        parseReal: string -> Option<real>)
      returns (found: bool)
      requires Valid()
      modifies this
      ensures Valid()
      ensures found <==> Recognised(name).Some?
      ensures params == SetSpec(old(params), Call(name, labelText, description, category, value), parseReal)
    {
      found := false;
      match Recognised(name)
      case None =>
      case Some(key) =>
        AssignField(key, Call(name, labelText, description, category, value), parseReal);
        found := true;
    }

    /** The branch of `setParameter` for a recognised name: the field is parsed and assigned per its type. */
    method AssignField(key: Key, c: Call, parseReal: string -> Option<real>)
      requires Valid() && key.field in FIELDS && KindType(key.kind) == TypeOf(key.field)
      modifies this
      ensures Valid()
      ensures params == Store(old(params), key.field, Converted(key.kind, c.value, parseReal), c)
    {
      var f := key.field;
      KeyInStore(params, key);
      match key.kind {
        case DoubleKind(fallback) =>
          AssignDouble(f, ParseDouble(parseReal(c.value), fallback), c);
        case IntKind =>
          AssignInt(f, ParseInteger(c.value, NONE), c);
        case BoolKind(ifBroken) =>
          AssignBool(f, ParseBoolean(c.value, ifBroken), c);
        case StringKind =>
          AssignString(f, c.value, c);
      }
    }

    /** The assignment to a `Parameter<Double>` field; the store keeps its fields. */
    method AssignDouble(f: string, v: real, c: Call)
      requires Valid() && f in params.doubles
      modifies this
      ensures Valid() && params == Store(old(params), f, DoubleVal(v), c)
    {
      var q := Annotate(params.doubles[f], v, c.labelText, c.description, c.category);
      params := params.(doubles := params.doubles[f := q]);
      assert params.doubles.Keys == old(params.doubles.Keys);
    }

    /** The assignment to a `Parameter<Integer>` field; the store keeps its fields. */
    method AssignInt(f: string, v: int, c: Call)
      requires Valid() && f in params.ints
      modifies this
      ensures Valid() && params == Store(old(params), f, IntVal(v), c)
    {
      var q := Annotate(params.ints[f], v, c.labelText, c.description, c.category);
      params := params.(ints := params.ints[f := q]);
      assert params.ints.Keys == old(params.ints.Keys);
    }

    /** The assignment to a `Parameter<Boolean>` field; the store keeps its fields. */
    method AssignBool(f: string, v: bool, c: Call)
      requires Valid() && f in params.bools
      modifies this
      ensures Valid() && params == Store(old(params), f, BoolVal(v), c)
    {
      var q := Annotate(params.bools[f], v, c.labelText, c.description, c.category);
      params := params.(bools := params.bools[f := q]);
      assert params.bools.Keys == old(params.bools.Keys);
    }

    /** The assignment to a `Parameter<String>` field; the store keeps its fields. */
    method AssignString(f: string, v: string, c: Call)
      requires Valid() && f in params.strings
      modifies this
      ensures Valid() && params == Store(old(params), f, StringVal(v), c)
    {
      var q := Annotate(params.strings[f], v, c.labelText, c.description, c.category);
      params := params.(strings := params.strings[f := q]);
      assert params.strings.Keys == old(params.strings.Keys);
    }

    /** One `setParameter` call made by a loader, on top of the calls it made before. */
    method Apply(c: Call, ghost start: Params, ghost done: seq<Call>, parseReal: string -> Option<real>)
      requires Valid() && params == ApplyCalls(start, done, parseReal)
      modifies this
      ensures Valid() && params == ApplyCalls(start, done + [c], parseReal)
    {
      ApplySnoc(start, done, c, parseReal);
      var _ := SetParameter(c.name, c.labelText, c.description, c.category, c.value, parseReal);
    }

    /** `loadParameters(reader)`: every named pair of the file through `setParameter`, in file order. */
    method LoadParameters(lines: seq<string>, syn: Syntax, parseReal: string -> Option<real>)
      requires Valid()
      modifies this
      ensures Valid()
      ensures params == ApplyCalls(old(params), LoadCalls(ParamArray(lines, syn)), parseReal)
    {
      var pairs := GetParamArray(lines, syn);
      var i := 0;
      while i < |pairs|
        invariant 0 <= i <= |pairs|
        invariant Valid()
        invariant params == ApplyCalls(old(params), LoadCalls(pairs[..i]), parseReal)
      {
        var name := pairs[i].0;
        var value := pairs[i].1;
        LoadCallsSnoc(pairs, i);
        if name != "" {
          Apply(Call(name, "", "", "", value), old(params), LoadCalls(pairs[..i]), parseReal);
        } else {
          assert LoadCalls(pairs[..i + 1]) == LoadCalls(pairs[..i]);
        }
        i := i + 1;
      }
      assert pairs[..i] == pairs;
    }

    /**
     * `loadInitialInputParameters(reader)`: the blocks of the
     * default-parameters file, each flushed through `setParameter` when the
     * next `name` arrives and once more at the end.
     */
    method LoadInitialInputParameters(lines: seq<string>, syn: Syntax, parseReal: string -> Option<real>)
      requires Valid()
      modifies this
      ensures Valid()
      ensures params == ApplyCalls(old(params), InitialCalls(ParamArray(lines, syn)), parseReal)
    {
      var pairs := GetParamArray(lines, syn);
      var name, labelText, description, category, value := "", "", "", "", "";
      var lastLoadParam := "";
      var i := 0;
      while i < |pairs|
        invariant 0 <= i <= |pairs|
        invariant Valid()
        invariant Run(pairs[..i]).0 == Acc(name, labelText, description, category, value, lastLoadParam)
        invariant params == ApplyCalls(old(params), Run(pairs[..i]).1, parseReal)
      {
        assert pairs[..i + 1][..i] == pairs[..i];
        var next := ReadDefaultPair(pairs[i], Acc(name, labelText, description, category, value, lastLoadParam),
                                    old(params), Run(pairs[..i]).1, parseReal);
        name, labelText, description, category, value := next.name, next.labelText, next.description, next.category, next.value;
        lastLoadParam := next.lastLoad;
        i := i + 1;
      }
      assert pairs[..i] == pairs;
      ghost var done := Run(pairs).1;
      if name != "" && lastLoadParam != name {
        Apply(Call(name, labelText, description, category, value), old(params), done, parseReal);
      } else {
        assert done + [] == done;
      }
    }

    /**
     * One pair of the default-parameters file in `loadInitialInputParameters`:
     * a `name` flushes the block gathered so far through `setParameter`,
     * the other keys fill in the block.
     */
    method ReadDefaultPair(pair: (string, string), a: Acc, ghost start: Params, ghost done: seq<Call>,
                           parseReal: string -> Option<real>)
      returns (next: Acc)
      requires Valid() && params == ApplyCalls(start, done, parseReal)
      modifies this
      ensures Valid() && next == Step(a, pair).0
      ensures params == ApplyCalls(start, done + Step(a, pair).1, parseReal)
    {
      next := a;
      var key := pair.0;
      if key == "name" {
        StepName(a, pair.1);
        if a.name != "" {
          Apply(Call(a.name, a.labelText, a.description, a.category, a.value), start, done, parseReal);
          next := next.(lastLoad := a.name);
        } else {
          assert done + [] == done;
        }
        next := next.(name := pair.1);
      } else {
        if key == "label" {
          StepLabel(a, pair.1);
          next := next.(labelText := pair.1);
        } else if key == "description" {
          StepDescription(a, pair.1);
          next := next.(description := pair.1);
        } else if key == "category" {
          StepCategory(a, pair.1);
          next := next.(category := pair.1);
        } else if key == "value" {
          StepValue(a, pair.1);
          next := next.(value := pair.1);
        } else {
          StepOther(a, pair);
        }
        assert done + [] == done;
      }
    }
  }

  // ---------------------------------------------------------------------------
  // Properties of the loaders

  /** How one call of `loadParameters` affects the field a recognised name selects. */
  lemma SetSpecAt(q: Params, c: Call, name: string, parseReal: string -> Option<real>)
    requires Complete(q) && Recognised(name).Some?
    ensures var key := Recognised(name).value;
      c.name == name ==>
        Lookup(SetSpec(q, c, parseReal), key.field).Some?
        && Lookup(SetSpec(q, c, parseReal), key.field).value.value == Converted(key.kind, c.value, parseReal)
    ensures c.name != name ==> Lookup(SetSpec(q, c, parseReal), Recognised(name).value.field) == Lookup(q, Recognised(name).value.field)
  {
    SetParameterEffect(q, c, parseReal);
    if c.name != name && Recognised(c.name).Some? && Recognised(c.name).value.field == Recognised(name).value.field {
      RecognisedInjective(c.name, name);
    }
  }

  lemma LoadCallsSnoc(pairs: seq<(string, string)>, i: nat)
    requires i < |pairs|
    ensures LoadCalls(pairs[..i + 1])
      == LoadCalls(pairs[..i]) + (if pairs[i].0 != "" then [Call(pairs[i].0, "", "", "", pairs[i].1)] else [])
  {
    assert pairs[..i + 1][..i] == pairs[..i];
  }

  /** The store after the calls of all pairs, from the store after the calls of all but the last. */
  lemma LoadApplySnoc(p: Params, pairs: seq<(string, string)>, parseReal: string -> Option<real>)
    requires |pairs| > 0
    ensures var k := |pairs| - 1;
      var before := ApplyCalls(p, LoadCalls(pairs[..k]), parseReal);
      ApplyCalls(p, LoadCalls(pairs), parseReal)
      == if pairs[k].0 != "" then SetSpec(before, Call(pairs[k].0, "", "", "", pairs[k].1), parseReal) else before
  {
    var k := |pairs| - 1;
    LoadCallsSnoc(pairs, k);
    assert pairs[..k + 1] == pairs;
    if pairs[k].0 != "" {
      ApplySnoc(p, LoadCalls(pairs[..k]), Call(pairs[k].0, "", "", "", pairs[k].1), parseReal);
    } else {
      assert LoadCalls(pairs) == LoadCalls(pairs[..k]);
    }
  }

  /** A last pair naming a recognised parameter sets its value. */
  lemma NamedLast(p: Params, pairs: seq<(string, string)>, name: string, k: nat, parseReal: string -> Option<real>)
    requires Complete(p) && Recognised(name).Some?
    requires k + 1 == |pairs| && pairs[k].0 == name
    ensures var r := ApplyCalls(p, LoadCalls(pairs), parseReal);
      Lookup(r, Recognised(name).value.field).Some?
      && Lookup(r, Recognised(name).value.field).value.value == Converted(Recognised(name).value.kind, pairs[k].1, parseReal)
  {
    RecognisedNonEmpty(name);
    LoadApplySnoc(p, pairs, parseReal);
    ApplyCallsComplete(p, LoadCalls(pairs[..k]), parseReal);
    SetSpecAt(ApplyCalls(p, LoadCalls(pairs[..k]), parseReal), Call(name, "", "", "", pairs[k].1), name, parseReal);
  }

  /** A last pair not naming a recognised parameter leaves it as it was. */
  lemma OtherLast(p: Params, pairs: seq<(string, string)>, name: string, parseReal: string -> Option<real>)
    requires Complete(p) && Recognised(name).Some?
    requires |pairs| > 0 && pairs[|pairs| - 1].0 != name
    ensures var field := Recognised(name).value.field;
      Lookup(ApplyCalls(p, LoadCalls(pairs), parseReal), field)
      == Lookup(ApplyCalls(p, LoadCalls(pairs[..|pairs| - 1]), parseReal), field)
  {
    var k := |pairs| - 1;
    LoadApplySnoc(p, pairs, parseReal);
    if pairs[k].0 != "" {
      ApplyCallsComplete(p, LoadCalls(pairs[..k]), parseReal);
      SetSpecAt(ApplyCalls(p, LoadCalls(pairs[..k]), parseReal), Call(pairs[k].0, "", "", "", pairs[k].1), name, parseReal);
    }
  }

  /** `loadParameters`: a parameter no pair names keeps its value. */
  lemma {:induction false} UnnamedKept(p: Params, pairs: seq<(string, string)>, name: string,
                                      parseReal: string -> Option<real>)
    requires Complete(p) && Recognised(name).Some?
    requires forall i :: 0 <= i < |pairs| ==> pairs[i].0 != name
    ensures Lookup(ApplyCalls(p, LoadCalls(pairs), parseReal), Recognised(name).value.field)
      == Lookup(p, Recognised(name).value.field)
  {
    if |pairs| > 0 {
      UnnamedKept(p, pairs[..|pairs| - 1], name, parseReal);
      OtherLast(p, pairs, name, parseReal);
    }
  }

  /** `loadParameters`: the last pair naming a recognised parameter decides its value. */
  lemma {:induction false} LastWins(p: Params, pairs: seq<(string, string)>, name: string, j: nat,
                                   parseReal: string -> Option<real>)
    requires Complete(p) && Recognised(name).Some?
    requires j < |pairs| && pairs[j].0 == name
    requires forall i :: j < i < |pairs| ==> pairs[i].0 != name
    ensures var r := ApplyCalls(p, LoadCalls(pairs), parseReal);
      Lookup(r, Recognised(name).value.field).Some?
      && Lookup(r, Recognised(name).value.field).value.value == Converted(Recognised(name).value.kind, pairs[j].1, parseReal)
  {
    var k := |pairs| - 1;
    if j < k {
      assert pairs[..k][j] == pairs[j];
      LastWins(p, pairs[..k], name, j, parseReal);
      OtherLast(p, pairs, name, parseReal);
    } else {
      NamedLast(p, pairs, name, j, parseReal);
    }
  }

  lemma RunSnoc(ps: seq<(string, string)>, p: (string, string))
    ensures Run(ps + [p]) == (Step(Run(ps).0, p).0, Run(ps).1 + Step(Run(ps).0, p).1)
  {
    assert (ps + [p])[..|ps|] == ps;
  }

  lemma StepName(a: Acc, x: string)
    ensures Step(a, ("name", x)).0 == (if a.name != "" then a.(name := x, lastLoad := a.name) else a.(name := x))
    ensures Step(a, ("name", x)).1 == (if a.name != "" then [Call(a.name, a.labelText, a.description, a.category, a.value)] else [])
  {
  }

  lemma StepLabel(a: Acc, x: string)
    ensures Step(a, ("label", x)) == (a.(labelText := x), [])
  {
    assert "label"[0] != "name"[0];
  }

  lemma StepValue(a: Acc, x: string)
    ensures Step(a, ("value", x)) == (a.(value := x), [])
  {
    assert "value"[0] != "name"[0] && "value"[0] != "label"[0];
    assert "value"[0] != "description"[0] && "value"[0] != "category"[0];
  }

  lemma StepDescription(a: Acc, x: string)
    ensures Step(a, ("description", x)) == (a.(description := x), [])
  {
    assert "description"[0] != "name"[0] && "description"[0] != "label"[0];
  }

  lemma StepCategory(a: Acc, x: string)
    ensures Step(a, ("category", x)) == (a.(category := x), [])
  {
    assert "category"[0] != "name"[0] && "category"[0] != "label"[0];
    assert "category"[0] != "description"[0];
  }

  /** A key that is none of the five the loader knows changes nothing. */
  lemma StepOther(a: Acc, p: (string, string))
    requires p.0 !in {"name", "label", "description", "category", "value"}
    ensures Step(a, p) == (a, [])
  {
  }

  /**
   * The variables of `loadInitialInputParameters` are never reset: a block
   * without a label inherits the label of the block before it.
   */
  lemma InheritedLabel(a: string, b: string, l: string, v: string, w: string)
    requires a != "" && b != "" && a != b
    ensures InitialCalls([("name", a), ("label", l), ("value", v), ("name", b), ("value", w)])
      == [Call(a, l, "", "", v), Call(b, l, "", "", w)]
  {
    var p1, p2, p3, p4, p5 := ("name", a), ("label", l), ("value", v), ("name", b), ("value", w);
    var a1 := START.(name := a);
    var a2 := a1.(labelText := l);
    var a3 := a2.(value := v);
    var a4 := a3.(name := b, lastLoad := a);
    var a5 := a4.(value := w);
    var flushed := [Call(a, l, "", "", v)];
    var none: seq<Call> := [];
    assert none + none == none && none + flushed == flushed && flushed + none == flushed;
    RunSnoc([], p1);
    StepName(START, a);
    assert [] + [p1] == [p1];
    assert Run([p1]) == (a1, none);
    RunSnoc([p1], p2);
    StepLabel(a1, l);
    assert [p1] + [p2] == [p1, p2];
    assert Run([p1, p2]) == (a2, none);
    RunSnoc([p1, p2], p3);
    StepValue(a2, v);
    assert [p1, p2] + [p3] == [p1, p2, p3];
    assert Run([p1, p2, p3]) == (a3, none);
    RunSnoc([p1, p2, p3], p4);
    StepName(a3, b);
    assert [p1, p2, p3] + [p4] == [p1, p2, p3, p4];
    assert Run([p1, p2, p3, p4]) == (a4, flushed);
    RunSnoc([p1, p2, p3, p4], p5);
    StepValue(a4, w);
    assert [p1, p2, p3, p4] + [p5] == [p1, p2, p3, p4, p5];
    assert Run([p1, p2, p3, p4, p5]) == (a5, flushed);
    assert FinalFlush(a5) == [Call(b, l, "", "", w)];
  }

  /**
   * Two consecutive blocks with the same name: the final flush is skipped
   * because that name was the one flushed last, so the second block's value
   * is never applied.
   */
  lemma RepeatedNameLastBlockSkipped(a: string, v: string, w: string)
    requires a != ""
    ensures InitialCalls([("name", a), ("value", v), ("name", a), ("value", w)]) == [Call(a, "", "", "", v)]
  {
    var p1, p2, p3, p4 := ("name", a), ("value", v), ("name", a), ("value", w);
    var a1 := START.(name := a);
    var a2 := a1.(value := v);
    var a3 := a2.(lastLoad := a);
    var a4 := a3.(value := w);
    var flushed := [Call(a, "", "", "", v)];
    var none: seq<Call> := [];
    assert none + none == none && none + flushed == flushed && flushed + none == flushed;
    RunSnoc([], p1);
    StepName(START, a);
    assert [] + [p1] == [p1];
    assert Run([p1]) == (a1, none);
    RunSnoc([p1], p2);
    StepValue(a1, v);
    assert [p1] + [p2] == [p1, p2];
    assert Run([p1, p2]) == (a2, none);
    RunSnoc([p1, p2], p3);
    StepName(a2, a);
    assert [p1, p2] + [p3] == [p1, p2, p3];
    assert Run([p1, p2, p3]) == (a3, flushed);
    RunSnoc([p1, p2, p3], p4);
    StepValue(a3, w);
    assert [p1, p2, p3] + [p4] == [p1, p2, p3, p4];
    assert Run([p1, p2, p3, p4]) == (a4, flushed);
    assert FinalFlush(a4) == [];
  }

  // ---------------------------------------------------------------------------
  // Reloading an exported parameter file

  /**
   * The export writes the repression rate under TF_REPRESSION_RATE, a name
   * `setParameter` does not recognise (it reads TF_REPR_RATE), so loading
   * an exported file leaves the repression rate as it was.
   */
  lemma ExportedRepressionRateNotRead(p: Params, value: string, parseReal: string -> Option<real>)
    ensures ExportKey("TF_REPRESSION_RATE") == Some("TF_REPRESSION_RATE")
    ensures Recognised("TF_REPRESSION_RATE").None?
    ensures SetSpec(p, Call("TF_REPRESSION_RATE", "", "", "", value), parseReal) == p
  {
  }

  /** The export with the repression rate written under the name the reader recognises. */
  function CorrectedExportKey(f: string): Option<string>
  {
    if f == "TF_REPRESSION_RATE" then Some("TF_REPR_RATE") else ExportKey(f)
  }

  /**
   * Every key of the corrected export is recognised and selects the field
   * whose value was written after it, so reloading an exported file sets
   * each exported field from its own line.
   */
  lemma CorrectedExportRead(f: string, value: string, parseReal: string -> Option<real>, p: Params)
    requires Complete(p) && f in FIELDS
    requires CorrectedExportKey(f).Some?
    ensures var key := Recognised(CorrectedExportKey(f).value);
      var r := SetSpec(p, Call(CorrectedExportKey(f).value, "", "", "", value), parseReal);
      key.Some? && key.value.field == f
      && Lookup(r, f).Some? && Lookup(r, f).value.value == Converted(key.value.kind, value, parseReal)
  {
    SetterNameRecognised("", f);
    var c := Call(CorrectedExportKey(f).value, "", "", "", value);
    SetParameterEffect(p, c, parseReal);
  }
}
