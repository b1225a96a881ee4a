/** The modelled slices of `JavaScriptRuntime.Object`: canonical array-index
    parsing, keyed writes on arrays and strings, property deletion, and the
    descriptor-redefinition and integrity-level rules of ECMA-262 section
    20.1.2 (`defineProperty`, `preventExtensions`, `isExtensible`, `seal`,
    `freeze`, `isSealed`, `isFrozen`).

    An object's own properties are one map from key to descriptor: a plain
    dictionary entry without an explicit descriptor is the default
    descriptor (a writable, enumerable, configurable data property). */
module JsObject {
  import opened JsValues
  import JsString
  import JsArray

  /** The decimal rendering of a natural number (`int.ToString`). */
  function DecimalString(n: nat): (r: string)
    ensures |r| >= 1
    ensures forall i :: 0 <= i < |r| ==> JsString.IsDigit(r[i])
    ensures JsString.DigitsValue(r) == n
    ensures n == 0 <==> r == "0"
    ensures r[0] == '0' ==> n == 0
  {
    if n < 10 then
      var r := [DigitChar(n)];
      assert r[..0] == [];
      r
    else
      var p := DecimalString(n / 10);
      var r := p + [DigitChar(n % 10)];
      assert r[..|r| - 1] == p;
      r
  }

  function DigitChar(d: nat): (c: char)
    requires d < 10
    ensures JsString.IsDigit(c) && c as int - '0' as int == d
  {
    ('0' as int + d) as char
  }

  predicate AllDigits(s: string)
  {
    forall i :: 0 <= i < |s| ==> JsString.IsDigit(s[i])
  }

  /** A run of digits without a leading zero has a positive value. */
  lemma {:induction false} LeadingNonZeroPositive(s: string)
    requires |s| >= 1 && AllDigits(s) && s[0] != '0'
    ensures JsString.DigitsValue(s) >= 1
  {
    if |s| > 1 {
      var p := s[..|s| - 1];
      assert p[0] == s[0];
      LeadingNonZeroPositive(p);
    }
  }

  /** A run of digits is the rendering of its value exactly when it has no
      leading zero (or is "0" itself). */
  lemma DecimalStringOfDigits(s: string)
    requires |s| >= 1 && AllDigits(s)
    ensures DecimalString(JsString.DigitsValue(s)) == s <==> (s[0] != '0' || |s| == 1)
  {
    if s[0] != '0' || |s| == 1 {
      RenderCanonicalDigits(s);
    }
  }

  lemma {:induction false} RenderCanonicalDigits(s: string)
    requires |s| >= 1 && AllDigits(s) && (s[0] != '0' || |s| == 1)
    ensures DecimalString(JsString.DigitsValue(s)) == s
  {
    var n := JsString.DigitsValue(s);
    if |s| == 1 {
      assert s[..0] == [];
      assert JsString.DigitsValue(s[..0]) == 0;
      assert n == s[0] as int - '0' as int;
      assert DecimalString(n) == [DigitChar(n)];
    } else {
      var p := s[..|s| - 1];
      var d := s[|s| - 1] as int - '0' as int;
      assert p[0] == s[0];
      LeadingNonZeroPositive(p);
      var q := JsString.DigitsValue(p);
      assert n == q * 10 + d;
      LastDigit(q, d);
      RenderCanonicalDigits(p);
      assert DecimalString(n) == DecimalString(q) + [DigitChar(d)];
      assert s == p + [s[|s| - 1]];
    }
  }

  lemma LastDigit(q: nat, d: nat)
    requires d < 10
    ensures (q * 10 + d) / 10 == q && (q * 10 + d) % 10 == d
  {
    ModUnique(q * 10 + d, 10, q, d);
  }

  /** A canonical array index: a non-empty run of decimal digits without a
      leading zero (except "0") whose value fits in a 32-bit signed int. */
  ghost predicate IsCanonicalIndex(s: string)
  {
    |s| >= 1 && AllDigits(s) && (s[0] != '0' || |s| == 1) && JsString.DigitsValue(s) <= Int32Max
  }

  /** `TryParseCanonicalIndexString`: `int.TryParse` with no sign, white
      space or separators, then a check that the value renders back to the
      same text. */
  function ParseCanonicalIndex(s: string): (r: Option<nat>)
    ensures r.Some? <==> IsCanonicalIndex(s)
    ensures r.Some? ==> r.value == JsString.DigitsValue(s) && DecimalString(r.value) == s
  {
    if |s| == 0 then None
    else if !AllDigits(s) then None
    else
      var parsed := JsString.DigitsValue(s);
      if parsed > Int32Max then None
      else
        DecimalStringOfDigits(s);
        if DecimalString(parsed) != s then None else Some(parsed)
  }

  /** Every index up to 2^31-1 renders to a canonical index string that
      parses back to it. */
  lemma CanonicalIndexRoundTrip(n: nat)
    requires n <= Int32Max
    ensures ParseCanonicalIndex(DecimalString(n)) == Some(n)
  {
    DecimalStringOfDigits(DecimalString(n));
  }

  /** "01", "-1", "1.0" and "" are not canonical indices. */
  lemma NonCanonicalExamples()
    ensures ParseCanonicalIndex("01") == None
    ensures ParseCanonicalIndex("-1") == None
    ensures ParseCanonicalIndex("1.0") == None
    ensures ParseCanonicalIndex("") == None
  {
    assert !JsString.IsDigit("-1"[0]);
    assert !JsString.IsDigit("1.0"[1]);
  }

  /** The receivers `SetItem(obj, key, value)` distinguishes here. */
  datatype Receiver =
    | UndefinedReceiver
    | NullReceiver
    | StringReceiver(s: string)
    | ArrayReceiver(arr: JsArray.JsArray)

  /** What a keyed write does: it yields the assigned value, throws, or for
      a non-index key on an array hands over to the generic `SetProperty`
      (a prototype walk that is not part of this model). */
  datatype SetItemOutcome = Assigned(value: Value) | Thrown(error: JsError) | ToSetProperty

  /** `SetItem(obj, string key, value)`: undefined and null receivers throw
      `TypeError`; a string receiver is left alone and the value returned;
      on an array a canonical index key overwrites, appends or pads with
      undefined so that the value lands at that index. */
  method SetItem(receiver: Receiver, key: string, value: Value) returns (r: SetItemOutcome)
    modifies if receiver.ArrayReceiver? then {receiver.arr} else {}
    ensures receiver.UndefinedReceiver? || receiver.NullReceiver? ==> r == Thrown(TypeError)
    ensures receiver.StringReceiver? ==> r == Assigned(value)
    ensures receiver.ArrayReceiver? && !IsCanonicalIndex(key) ==>
      r == ToSetProperty && receiver.arr.elems == old(receiver.arr.elems)
    ensures receiver.ArrayReceiver? && IsCanonicalIndex(key) ==>
      r == Assigned(value)
      && receiver.arr.elems == JsArray.WrittenAt(old(receiver.arr.elems), JsString.DigitsValue(key), value)
  {
    match receiver
    case UndefinedReceiver => return Thrown(TypeError);
    case NullReceiver => return Thrown(TypeError);
    case StringReceiver(_) => return Assigned(value);
    case ArrayReceiver(list) =>
      var parsed := ParseCanonicalIndex(key);
      if parsed.None? {
        return ToSetProperty;
      }
      var intIndex := parsed.value;
      if intIndex < |list.elems| {
        list.elems := list.elems[intIndex := value];
        return Assigned(value);
      }
      if intIndex == |list.elems| {
        list.elems := list.elems + [value];
        return Assigned(value);
      }
      ghost var before := list.elems;
      while |list.elems| < intIndex
        invariant |before| <= |list.elems| <= intIndex
        invariant list.elems == before + JsArray.Padding(|list.elems| - |before|)
        decreases intIndex - |list.elems|
      {
        list.elems := list.elems + [Undefined];
      }
      list.elems := list.elems + [value];
      return Assigned(value);
  }

  datatype DescriptorKind = DataProperty | AccessorProperty

  /** `JsPropertyDescriptor`: the kind, the two common attributes, and the
      data (`writable`, `value`) and accessor (`get`, `set`) parts. */
  datatype PropertyDescriptor = PropertyDescriptor(
    kind: DescriptorKind,
    enumerable: bool,
    configurable: bool,
    writable: bool,
    value: Value,
    getter: Value,
    setter: Value)

  /** The unused part of a descriptor holds its defaults. */
  predicate WellFormed(d: PropertyDescriptor)
  {
    if d.kind == DataProperty then d.getter == Undefined && d.setter == Undefined
    else !d.writable && d.value == Undefined
  }

  /** The descriptor of a plain dictionary entry. */
  function DefaultDescriptor(v: Value): (d: PropertyDescriptor)
    ensures WellFormed(d) && d.kind == DataProperty
    ensures d.writable && d.enumerable && d.configurable && d.value == v
  {
    PropertyDescriptor(DataProperty, true, true, true, v, Undefined, Undefined)
  }

  /** The attributes object given to `defineProperty`, one field per own
      property it has (already converted with `ToBoolean` where the source
      does so). */
  datatype Attributes = Attributes(
    getter: Option<Value>,
    setter: Option<Value>,
    enumerable: Option<bool>,
    configurable: Option<bool>,
    writable: Option<bool>,
    value: Option<Value>)

  predicate IsAccessorRequest(a: Attributes)
  {
    a.getter.Some? || a.setter.Some?
  }

  /** A boolean attribute: its given value, or false when absent. */
  function Flag(o: Option<bool>): bool
  {
    o.Some? && o.value
  }

  function ValueOr(o: Option<Value>, dflt: Value): Value
  {
    if o.Some? then o.value else dflt
  }

  /** The redefinition checks for an existing property (ECMA-262 section
      10.1.6.3): a configurable property may be redefined at will; a
      non-configurable one may not become configurable, change its
      enumerability or its kind, become writable, change a non-writable
      value, or change its accessor functions. */
  predicate RedefinitionAllowed(existing: PropertyDescriptor, a: Attributes)
  {
    existing.configurable
    || (&& !Flag(a.configurable)
        && (a.enumerable.None? || a.enumerable.value == existing.enumerable)
        && (existing.kind == AccessorProperty <==> IsAccessorRequest(a))
        && (existing.kind == DataProperty && !existing.writable ==>
              !Flag(a.writable) && (a.value.None? || a.value.value == existing.value))
        && (existing.kind == AccessorProperty ==>
              (a.getter.None? || a.getter.value == existing.getter)
              && (a.setter.None? || a.setter.value == existing.setter)))
  }

  /** The descriptor `defineProperty` stores in the source: built from the
      attributes alone, each absent attribute false or undefined, whatever
      the property had before. */
  function AppliedAsWritten(a: Attributes): (d: PropertyDescriptor)
    ensures WellFormed(d)
    ensures d.kind == AccessorProperty <==> IsAccessorRequest(a)
  {
    if IsAccessorRequest(a) then
      PropertyDescriptor(AccessorProperty, Flag(a.enumerable), Flag(a.configurable), false,
        Undefined, ValueOr(a.getter, Undefined), ValueOr(a.setter, Undefined))
    else
      PropertyDescriptor(DataProperty, Flag(a.enumerable), Flag(a.configurable), Flag(a.writable),
        ValueOr(a.value, Undefined), Undefined, Undefined)
  }

  /** The descriptor a redefinition should store: for a new property, or a
      change of kind, the attributes with absent ones false or undefined;
      for an existing property of the same kind, absent attributes keep
      their current values. */
  function Applied(existing: Option<PropertyDescriptor>, a: Attributes): (d: PropertyDescriptor)
    requires existing.Some? ==> WellFormed(existing.value)
    ensures WellFormed(d)
    ensures d.kind == AccessorProperty <==> IsAccessorRequest(a)
    ensures existing.None? ==> d == AppliedAsWritten(a)
    ensures a.enumerable.Some? ==> d.enumerable == a.enumerable.value
    ensures a.configurable.Some? ==> d.configurable == a.configurable.value
  {
    var built := AppliedAsWritten(a);
    if existing.None? || existing.value.kind != built.kind then built
    else
      var e := existing.value;
      var en := if a.enumerable.Some? then a.enumerable.value else e.enumerable;
      var co := if a.configurable.Some? then a.configurable.value else e.configurable;
      if built.kind == AccessorProperty then
        PropertyDescriptor(AccessorProperty, en, co, false, Undefined, ValueOr(a.getter, e.getter), ValueOr(a.setter, e.setter))
      else
        PropertyDescriptor(DataProperty, en, co, if a.writable.Some? then a.writable.value else e.writable,
          ValueOr(a.value, e.value), Undefined, Undefined)
  }

  /** With the source's descriptor replacement, an empty attributes object
      passes the checks on a frozen property and then erases its value. */
  lemma AsWrittenErasesFrozenValue()
    ensures var frozen := PropertyDescriptor(DataProperty, true, false, false, Num(1), Undefined, Undefined);
      var empty := Attributes(None, None, None, None, None, None);
      && RedefinitionAllowed(frozen, empty)
      && AppliedAsWritten(empty).value == Undefined
      && AppliedAsWritten(empty) != frozen
  {
  }

  /** A successful redefinition of a non-configurable, non-writable data
      property leaves its descriptor exactly as it was. */
  lemma AppliedKeepsFrozenProperty(e: PropertyDescriptor, a: Attributes)
    requires WellFormed(e) && e.kind == DataProperty && !e.configurable && !e.writable
    requires RedefinitionAllowed(e, a)
    ensures Applied(Some(e), a) == e
  {
  }

  /** No successful redefinition makes a non-configurable property
      configurable. */
  lemma AppliedKeepsNonConfigurable(e: PropertyDescriptor, a: Attributes)
    requires WellFormed(e) && !e.configurable && RedefinitionAllowed(e, a)
    ensures !Applied(Some(e), a).configurable
    ensures Applied(Some(e), a).enumerable == e.enumerable
    ensures Applied(Some(e), a).kind == e.kind
  {
  }

  /** The keys `GetOwnKeysForIntegrity` walks: every own key but "". */
  function IntegrityKeys(props: map<string, PropertyDescriptor>): set<string>
  {
    props.Keys - {""}
  }

  /** Every integrity key is non-configurable. */
  ghost predicate AllNonConfigurable(props: map<string, PropertyDescriptor>)
  {
    forall k :: k in IntegrityKeys(props) ==> !props[k].configurable
  }

  /** Every integrity key is non-configurable and no data property is writable. */
  ghost predicate AllFrozen(props: map<string, PropertyDescriptor>)
  {
    AllNonConfigurable(props)
    && forall k :: k in IntegrityKeys(props) ==> !(props[k].kind == DataProperty && props[k].writable)
  }

  /** One property sealed: it becomes non-configurable, and nothing else
      about it changes (the empty key is skipped). */
  function SealOne(key: string, d: PropertyDescriptor): (r: PropertyDescriptor)
    ensures key != "" ==> !r.configurable
    ensures key == "" ==> r == d
    ensures r.kind == d.kind && r.enumerable == d.enumerable && r.writable == d.writable
    ensures r.value == d.value && r.getter == d.getter && r.setter == d.setter
  {
    if key == "" then d else d.(configurable := false)
  }

  /** One property frozen: it becomes non-configurable and, when it is a
      data property, non-writable; its kind, enumerability, value and
      accessors stay (the empty key is skipped). */
  function FreezeOne(key: string, d: PropertyDescriptor): (r: PropertyDescriptor)
    ensures key != "" ==> !r.configurable && !(r.kind == DataProperty && r.writable)
    ensures key == "" || r.kind == AccessorProperty ==> r.writable == d.writable
    ensures key == "" ==> r == d
    ensures r.kind == d.kind && r.enumerable == d.enumerable
    ensures r.value == d.value && r.getter == d.getter && r.setter == d.setter
  {
    if key == "" then d
    else if d.kind == DataProperty then d.(configurable := false, writable := false)
    else d.(configurable := false)
  }

  /** The descriptors after `seal`: every integrity key non-configurable,
      everything else as before. */
  function Sealed(props: map<string, PropertyDescriptor>): (r: map<string, PropertyDescriptor>)
    ensures r.Keys == props.Keys
    ensures AllNonConfigurable(r)
  {
    map k | k in props :: SealOne(k, props[k])
  }

  /** The descriptors after `freeze`. */
  function Frozen(props: map<string, PropertyDescriptor>): (r: map<string, PropertyDescriptor>)
    ensures r.Keys == props.Keys
    ensures AllFrozen(r)
  {
    map k | k in props :: FreezeOne(k, props[k])
  }

  /** `seal` (or `freeze`) part way through its loop: the keys still in
      `remaining` keep their descriptors, the others are sealed (frozen). */
  function PartlySealed(props: map<string, PropertyDescriptor>, remaining: set<string>, freeze: bool): map<string, PropertyDescriptor>
  {
    map k | k in props :: if k in remaining then props[k] else if freeze then FreezeOne(k, props[k]) else SealOne(k, props[k])
  }

  lemma PartlySealedNone(props: map<string, PropertyDescriptor>)
    ensures PartlySealed(props, props.Keys, false) == props
    ensures PartlySealed(props, props.Keys, true) == props
  {
  }

  lemma PartlySealedAll(props: map<string, PropertyDescriptor>, freeze: bool)
    ensures PartlySealed(props, {}, freeze) == if freeze then Frozen(props) else Sealed(props)
  {
  }

  /** Visiting `key` seals (freezes) it and nothing else. */
  lemma PartlySealedStep(props: map<string, PropertyDescriptor>, remaining: set<string>, key: string, freeze: bool)
    requires key in remaining && remaining <= props.Keys
    ensures var d := PartlySealed(props, remaining, freeze)[key];
      && d == props[key]
      && PartlySealed(props, remaining - {key}, freeze)
         == PartlySealed(props, remaining, freeze)[key := if freeze then FreezeOne(key, d) else SealOne(key, d)]
  {
  }

  lemma FrozenIsSealed(props: map<string, PropertyDescriptor>)
    ensures AllFrozen(props) ==> AllNonConfigurable(props)
  {
  }

  /** Sealing and freezing change only attributes, never values or kinds. */
  lemma IntegrityKeepsValues(props: map<string, PropertyDescriptor>, k: string)
    requires k in props
    ensures Sealed(props)[k].value == props[k].value && Sealed(props)[k].kind == props[k].kind
    ensures Frozen(props)[k].value == props[k].value && Frozen(props)[k].kind == props[k].kind
    ensures Sealed(props)[k].enumerable == props[k].enumerable
    ensures Frozen(props)[k].enumerable == props[k].enumerable
  {
  }

  /** Freezing twice is freezing once. */
  lemma FreezeIdempotent(props: map<string, PropertyDescriptor>)
    ensures Frozen(Frozen(props)) == Frozen(props)
  {
    assert forall k :: k in props ==> FreezeOne(k, FreezeOne(k, props[k])) == FreezeOne(k, props[k]);
  }

  /** An object: its own properties and its `ObjectIntegrityState`. */
  class PropertyBag {
    var props: map<string, PropertyDescriptor>
    var extensible: bool
    var sealed: bool
    var frozen: bool

    /** A new object literal: extensible, with default descriptors. */
    constructor (entries: map<string, Value>)
      ensures props == map k | k in entries :: DefaultDescriptor(entries[k])
      ensures extensible && !sealed && !frozen
    {
      props := map k | k in entries :: DefaultDescriptor(entries[k]);
      extensible := true;
      sealed := false;
      frozen := false;
    }

    /** `defineProperty(obj, key, attributes)` on an object: a TypeError for
        a null attributes object, for a new key on a non-extensible object,
        and for a forbidden redefinition; otherwise the descriptor is
        stored and nothing else changes. */
    method DefineProperty(key: string, attributes: Option<Attributes>) returns (r: Result<()>)
      requires forall k :: k in props ==> WellFormed(props[k])
      modifies this
      ensures r.Err? <==>
        || attributes.None?
        || (!old(extensible) && key !in old(props))
        || (key in old(props) && !RedefinitionAllowed(old(props)[key], attributes.value))
      ensures r.Err? ==> r.error == TypeError && props == old(props)
      ensures r.Ok? ==> props == old(props)[key := Applied(if key in old(props) then Some(old(props)[key]) else None, attributes.value)]
      ensures extensible == old(extensible) && sealed == old(sealed) && frozen == old(frozen)
      ensures forall k :: k in props ==> WellFormed(props[k])
    {
      if attributes.None? {
        return Err(TypeError);
      }
      var a := attributes.value;
      if !extensible && key !in props {
        return Err(TypeError);
      }
      var existing := if key in props then Some(props[key]) else None;
      var isAccessor := a.getter.Some? || a.setter.Some?;
      var enumerable := Flag(a.enumerable);
      var configurable := Flag(a.configurable);
      var writable := Flag(a.writable);
      if existing.Some? && !existing.value.configurable {
        var e := existing.value;
        if configurable {
          return Err(TypeError);
        }
        if a.enumerable.Some? && enumerable != e.enumerable {
          return Err(TypeError);
        }
        if e.kind != (if isAccessor then AccessorProperty else DataProperty) {
          return Err(TypeError);
        }
        if e.kind == DataProperty {
          if !e.writable {
            if a.writable.Some? && writable {
              return Err(TypeError);
            }
            if a.value.Some? && e.value != a.value.value {
              return Err(TypeError);
            }
          }
        } else {
          if a.getter.Some? && e.getter != a.getter.value {
            return Err(TypeError);
          }
          if a.setter.Some? && e.setter != a.setter.value {
            return Err(TypeError);
          }
        }
      }
      props := props[key := Applied(existing, a)];
      return Ok(());
    }

    /** The loop of `seal`: visits every own key once, in no fixed order,
        and makes each property but the empty key non-configurable. */
    method SealProperties()
      modifies this
      ensures props == Sealed(old(props))
      ensures extensible == old(extensible) && sealed == old(sealed) && frozen == old(frozen)
    {
      var remaining := props.Keys;
      PartlySealedNone(props);
      while remaining != {}
        invariant remaining <= old(props).Keys
        invariant props == PartlySealed(old(props), remaining, false)
        invariant extensible == old(extensible) && sealed == old(sealed) && frozen == old(frozen)
        decreases |remaining|
      {
        var key :| key in remaining;
        PartlySealedStep(old(props), remaining, key, false);
        if key != "" {
          var desc := props[key];
          props := props[key := desc.(configurable := false)];
        }
        remaining := remaining - {key};
      }
      PartlySealedAll(old(props), false);
    }

    /** The loop of `freeze`: as `seal`, and every data property also
        becomes non-writable. */
    method FreezeProperties()
      modifies this
      ensures props == Frozen(old(props))
      ensures extensible == old(extensible) && sealed == old(sealed) && frozen == old(frozen)
    {
      var remaining := props.Keys;
      PartlySealedNone(props);
      while remaining != {}
        invariant remaining <= old(props).Keys
        invariant props == PartlySealed(old(props), remaining, true)
        invariant extensible == old(extensible) && sealed == old(sealed) && frozen == old(frozen)
        decreases |remaining|
      {
        var key :| key in remaining;
        PartlySealedStep(old(props), remaining, key, true);
        if key != "" {
          var desc := props[key];
          desc := desc.(configurable := false);
          if desc.kind == DataProperty {
            desc := desc.(writable := false);
          }
          props := props[key := desc];
        }
        remaining := remaining - {key};
      }
      PartlySealedAll(old(props), true);
    }
  }

  /** The receivers of the integrity operations. */
  datatype Target = UndefinedTarget | NullTarget | PrimitiveTarget | ObjectTarget(obj: PropertyBag)

  function ObjectsOf(t: Target): set<PropertyBag>
  {
    if t.ObjectTarget? then {t.obj} else {}
  }

  /** `defineProperty` with its receiver check: undefined and null throw;
      on an object the outcome and the new properties are those of
      `PropertyBag.DefineProperty`. */
  method DefinePropertyOn(obj: PropertyBag?, key: string, attributes: Option<Attributes>) returns (r: Result<()>)
    requires obj != null ==> forall k :: k in obj.props ==> WellFormed(obj.props[k])
    modifies if obj == null then {} else {obj}
    ensures obj == null ==> r == Err(TypeError)
    ensures obj != null ==> (r.Err? <==>
      || attributes.None?
      || (!old(obj.extensible) && key !in old(obj.props))
      || (key in old(obj.props) && !RedefinitionAllowed(old(obj.props)[key], attributes.value)))
    ensures obj != null && r.Err? ==> r.error == TypeError && obj.props == old(obj.props)
    ensures obj != null && r.Ok? ==>
      obj.props == old(obj.props)[key := Applied(if key in old(obj.props) then Some(old(obj.props)[key]) else None, attributes.value)]
    ensures obj != null ==> obj.extensible == old(obj.extensible) && obj.sealed == old(obj.sealed) && obj.frozen == old(obj.frozen)
  {
    if obj == null {
      return Err(TypeError);
    }
    r := obj.DefineProperty(key, attributes);
  }

  /** `preventExtensions`: primitives are returned untouched, objects become
      non-extensible. */
  method PreventExtensions(t: Target) returns (r: Result<Target>)
    modifies ObjectsOf(t)
    ensures t.UndefinedTarget? || t.NullTarget? ==> r == Err(TypeError)
    ensures t.PrimitiveTarget? ==> r == Ok(t)
    ensures t.ObjectTarget? ==>
      r == Ok(t) && !t.obj.extensible && t.obj.props == old(t.obj.props)
      && t.obj.sealed == old(t.obj.sealed) && t.obj.frozen == old(t.obj.frozen)
  {
    match t
    case UndefinedTarget => return Err(TypeError);
    case NullTarget => return Err(TypeError);
    case PrimitiveTarget => return Ok(t);
    case ObjectTarget(obj) =>
      obj.extensible := false;
      return Ok(t);
  }

  /** `isExtensible`: primitives are reported non-extensible. */
  function IsExtensible(t: Target): (r: Result<bool>)
    reads ObjectsOf(t)
    ensures t.UndefinedTarget? || t.NullTarget? ==> r == Err(TypeError)
    ensures t.PrimitiveTarget? ==> r == Ok(false)
    ensures t.ObjectTarget? ==> r == Ok(t.obj.extensible)
  {
    match t
    case UndefinedTarget => Err(TypeError)
    case NullTarget => Err(TypeError)
    case PrimitiveTarget => Ok(false)
    case ObjectTarget(obj) => Ok(obj.extensible)
  }

  /** `seal`: every own property becomes non-configurable, the object
      non-extensible and sealed. */
  method Seal(t: Target) returns (r: Result<Target>)
    modifies ObjectsOf(t)
    ensures t.UndefinedTarget? || t.NullTarget? ==> r == Err(TypeError)
    ensures t.PrimitiveTarget? ==> r == Ok(t)
    ensures t.ObjectTarget? ==>
      && r == Ok(t)
      && t.obj.props == Sealed(old(t.obj.props))
      && !t.obj.extensible && t.obj.sealed && t.obj.frozen == old(t.obj.frozen)
  {
    match t
    case UndefinedTarget => return Err(TypeError);
    case NullTarget => return Err(TypeError);
    case PrimitiveTarget => return Ok(t);
    case ObjectTarget(obj) =>
      obj.SealProperties();
      obj.extensible := false;
      obj.sealed := true;
      return Ok(t);
  }

  /** `freeze`: every own property becomes non-configurable and every own
      data property non-writable; the object is non-extensible, sealed and
      frozen. */
  method Freeze(t: Target) returns (r: Result<Target>)
    modifies ObjectsOf(t)
    ensures t.UndefinedTarget? || t.NullTarget? ==> r == Err(TypeError)
    ensures t.PrimitiveTarget? ==> r == Ok(t)
    ensures t.ObjectTarget? ==>
      && r == Ok(t)
      && t.obj.props == Frozen(old(t.obj.props))
      && !t.obj.extensible && t.obj.sealed && t.obj.frozen
  {
    match t
    case UndefinedTarget => return Err(TypeError);
    case NullTarget => return Err(TypeError);
    case PrimitiveTarget => return Ok(t);
    case ObjectTarget(obj) =>
      obj.FreezeProperties();
      obj.extensible := false;
      obj.sealed := true;
      obj.frozen := true;
      return Ok(t);
  }

  /** `isSealed`: primitives are sealed; an object is sealed when it is not
      extensible and no own property is configurable. */
  method IsSealed(t: Target) returns (r: Result<bool>)
    ensures t.UndefinedTarget? || t.NullTarget? ==> r == Err(TypeError)
    ensures t.PrimitiveTarget? ==> r == Ok(true)
    ensures t.ObjectTarget? ==> r == Ok(!t.obj.extensible && AllNonConfigurable(t.obj.props))
  {
    match t
    case UndefinedTarget => return Err(TypeError);
    case NullTarget => return Err(TypeError);
    case PrimitiveTarget => return Ok(true);
    case ObjectTarget(obj) =>
      if obj.extensible {
        return Ok(false);
      }
      var remaining := obj.props.Keys;
      while remaining != {}
        invariant remaining <= obj.props.Keys
        invariant forall k :: k in IntegrityKeys(obj.props) && k !in remaining ==> !obj.props[k].configurable
        decreases |remaining|
      {
        var key :| key in remaining;
        if key != "" && obj.props[key].configurable {
          assert key in IntegrityKeys(obj.props);
          return Ok(false);
        }
        remaining := remaining - {key};
      }
      return Ok(true);
  }

  /** `isFrozen`: primitives are frozen; an object is frozen when it is
      sealed and no own data property is writable. */
  method IsFrozen(t: Target) returns (r: Result<bool>)
    ensures t.UndefinedTarget? || t.NullTarget? ==> r == Err(TypeError)
    ensures t.PrimitiveTarget? ==> r == Ok(true)
    ensures t.ObjectTarget? ==> r == Ok(!t.obj.extensible && AllFrozen(t.obj.props))
  {
    var isSealed := IsSealed(t);
    if isSealed.Err? || t.PrimitiveTarget? {
      return isSealed;
    }
    var obj := t.obj;
    if !isSealed.value {
      return Ok(false);
    }
    var remaining := obj.props.Keys;
    while remaining != {}
      invariant remaining <= obj.props.Keys
      invariant forall k :: k in IntegrityKeys(obj.props) && k !in remaining ==>
        !(obj.props[k].kind == DataProperty && obj.props[k].writable)
      decreases |remaining|
    {
      var key :| key in remaining;
      if key != "" && obj.props[key].kind == DataProperty && obj.props[key].writable {
        assert key in IntegrityKeys(obj.props);
        return Ok(false);
      }
      remaining := remaining - {key};
    }
    return Ok(true);
  }

  /** `freeze` followed by `isFrozen` and `isSealed` reports true for both. */
  method FreezeThenCheck(t: Target) returns (frozen: Result<bool>, sealed: Result<bool>)
    requires t.ObjectTarget?
    modifies ObjectsOf(t)
    ensures frozen == Ok(true) && sealed == Ok(true)
  {
    var _ := Freeze(t);
    frozen := IsFrozen(t);
    sealed := IsSealed(t);
  }

  /** `DeleteProperty`: undefined and null throw; a non-configurable own
      property stays and the result is false; otherwise the key is removed
      (if present) and the result is true.  Primitives are left alone. */
  method DeleteProperty(t: Target, key: string) returns (r: Result<bool>)
    modifies ObjectsOf(t)
    ensures t.UndefinedTarget? || t.NullTarget? ==> r == Err(TypeError)
    ensures t.PrimitiveTarget? ==> r == Ok(true)
    ensures t.ObjectTarget? && key in old(t.obj.props) && !old(t.obj.props)[key].configurable ==>
      r == Ok(false) && t.obj.props == old(t.obj.props)
    ensures t.ObjectTarget? && !(key in old(t.obj.props) && !old(t.obj.props)[key].configurable) ==>
      r == Ok(true) && t.obj.props == old(t.obj.props) - {key}
    ensures t.ObjectTarget? ==> t.obj.extensible == old(t.obj.extensible)
  {
    match t
    case UndefinedTarget => return Err(TypeError);
    case NullTarget => return Err(TypeError);
    case PrimitiveTarget => return Ok(true);
    case ObjectTarget(obj) =>
      if key in obj.props && !obj.props[key].configurable {
        return Ok(false);
      }
      obj.props := obj.props - {key};
      return Ok(true);
  }
}
