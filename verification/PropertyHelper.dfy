/**
 The property-attribute probes: `verifyProperty` and the helpers that find out about
 an attribute by writing, enumerating or deleting.  Objects are ordinary objects with
 data properties (section 10.1 of ECMA-262), in strict mode.
 */
module PropertyHelper {
  import opened JsValues
  import opened Options
  import opened SortedKeys

  datatype Prop = Prop(value: Value, writable: bool, enumerable: bool, configurable: bool)

  datatype Thrown = TypeError | Test262Error

  datatype Completion<+T> = Normal(value: T) | Throws(error: Thrown)

  /** The sequence without one of its elements. */
  function Without(s: seq<string>, x: string): seq<string> {
    if s == [] then [] else if s[0] == x then Without(s[1..], x) else [s[0]] + Without(s[1..], x)
  }

  lemma {:induction false} WithoutElements(s: seq<string>, x: string)
    ensures forall y :: y in Without(s, x) <==> y in s && y != x
    ensures Distinct(s) ==> Distinct(Without(s, x))
  {
    if s != [] {
      WithoutElements(s[1..], x);
      assert s == [s[0]] + s[1..];
      if Distinct(s) {
        var t := Without(s[1..], x);
        assert s[0] !in t by { assert forall j | 0 < j < |s| :: s[0] != s[j]; }
        assert Distinct(t) by {
          assert forall i, j | 0 <= i < j < |s[1..]| :: s[1..][i] == s[i + 1] && s[1..][j] == s[j + 1];
        }
      }
    }
  }

  lemma {:induction false} WithoutAbsent(s: seq<string>, x: string)
    requires x !in s
    ensures Without(s, x) == s && Without(s + [x], x) == s
  {
    if s != [] {
      WithoutAbsent(s[1..], x);
      assert (s + [x])[1..] == s[1..] + [x];
      assert s == [s[0]] + s[1..];
    }
  }

  /** Whether a full data descriptor may replace an existing property (section 10.1.6.3 of ECMA-262). */
  predicate MayRedefine(current: Prop, p: Prop) {
    || current.configurable
    || (&& !p.configurable
        && p.enumerable == current.enumerable
        && (current.writable || (!p.writable && SameValue(p.value, current.value))))
  }

  /** What the writability probe writes: the given value, or text that the property does not hold. */
  function ProbeValue(value: Value, oldValue: Value): (r: Value)
    ensures value == Undefined ==> !SameValue(oldValue, r)
    ensures value != Undefined ==> r == value
  {
    if StrictEquals(value, Undefined) then
      var text := Prim(Text("unlikelyValue"));
      if StrictEquals(text, oldValue) then Prim(Text("unlikelyValue" + "2")) else text
    else value
  }

  /** The property the writability probe reads back. */
  function ReadName(name: string, verifyProp: string): string {
    if verifyProp != "" then verifyProp else name
  }

  /** The properties after an assignment that takes effect. */
  function Written(props: map<string, Prop>, name: string, v: Value): map<string, Prop> {
    props[name := if name in props then props[name].(value := v) else Prop(v, true, true, true)]
  }

  lemma SameValueReflexive(v: Value)
    ensures SameValue(v, v)
  {
  }

  lemma RestoredMap(m: map<string, Prop>, k: string, v: Value)
    requires k in m
    ensures var n := m[k := m[k].(value := v)]; n[k := n[k].(value := m[k].value)] == m
  {
  }

  lemma RemovedMap(m: map<string, Prop>, k: string, p: Prop)
    requires k !in m
    ensures m[k := p] - {k} == m && m - {k} == m
  {
  }

  lemma RedefineSame(p: Prop)
    ensures MayRedefine(p, p)
  {
  }

  class JsObject {
    var props: map<string, Prop>
    /** The own names in the order they were created; integer-like names are not in scope. */
    var order: seq<string>
    const extensible: bool
    /** What the prototype chain offers under each name. */
    const inherited: map<string, Prop>

    ghost predicate Valid()
      reads this
    {
      Distinct(order) && forall k :: k in order <==> k in props
    }

    function HasOwn(name: string): bool
      reads this
    {
      name in props
    }

    function Get(name: string): Value
      reads this
    {
      if name in props then props[name].value
      else if name in inherited then inherited[name].value
      else Undefined
    }

    /** Whether an assignment to `name` takes effect (section 10.1.9 of ECMA-262). */
    predicate CanPut(name: string)
      reads this
    {
      if name in props then props[name].writable
      else (name in inherited ==> inherited[name].writable) && extensible
    }

    /** The names a for-in loop visits; a non-enumerable own property hides an inherited one. */
    predicate ForInVisits(name: string)
      reads this
    {
      if name in props then props[name].enumerable else name in inherited && inherited[name].enumerable
    }

    /** `obj[name] = v`; a refused assignment throws. */
    method Put(name: string, v: Value) returns (threw: bool)
      requires Valid()
      modifies this
      ensures Valid() && threw == !old(CanPut(name))
      ensures threw ==> props == old(props) && order == old(order)
      ensures !threw && old(HasOwn(name)) ==>
        props == old(props)[name := old(props)[name].(value := v)] && order == old(order)
      ensures !threw && !old(HasOwn(name)) ==>
        props == old(props)[name := Prop(v, true, true, true)] && order == old(order) + [name]
    {
      if !CanPut(name) { return true; }
      if name in props {
        props := props[name := props[name].(value := v)];
      } else {
        props := props[name := Prop(v, true, true, true)];
        order := order + [name];
      }
      return false;
    }

    /** `delete obj[name]`; refusing to delete a non-configurable property throws. */
    method Delete(name: string) returns (threw: bool)
      requires Valid()
      modifies this
      ensures Valid() && threw == (old(HasOwn(name)) && !old(props)[name].configurable)
      ensures threw ==> props == old(props) && order == old(order)
      ensures !threw ==> props == old(props) - {name} && order == Without(old(order), name)
    {
      if name in props && !props[name].configurable { return true; }
      WithoutElements(order, name);
      props := props - {name};
      order := Without(order, name);
      return false;
    }

    /** `Object.defineProperty(obj, name, p)` with all four attributes given. */
    method Define(name: string, p: Prop) returns (threw: bool)
      requires Valid()
      modifies this
      ensures Valid()
      ensures threw == if old(HasOwn(name)) then !MayRedefine(old(props)[name], p) else !extensible
      ensures threw ==> props == old(props) && order == old(order)
      ensures !threw ==> props == old(props)[name := p]
      ensures !threw ==> order == if old(HasOwn(name)) then old(order) else old(order) + [name]
    {
      if name in props {
        if !MayRedefine(props[name], p) { return true; }
      } else {
        if !extensible { return true; }
        order := order + [name];
      }
      props := props[name := p];
      return false;
    }

    /** `__t262_isConfigurable`: a configurable property is gone afterwards. */
    method IsConfigurable(name: string) returns (r: bool)
      requires Valid()
      modifies this
      ensures Valid() && r == (name in old(props) ==> old(props)[name].configurable)
      ensures props == if r then old(props) - {name} else old(props)
      ensures order == if r then Without(old(order), name) else old(order)
    {
      var threw := Delete(name);
      if HasOwn(name) { return false; }
      return true;
    }

    /** `__t262_isEnumerable` */
    method IsEnumerable(name: string) returns (r: bool)
      ensures r == (name in props && props[name].enumerable)
    {
      var stringCheck := ForInVisits(name);
      if !stringCheck { return false; }
      if !HasOwn(name) { return false; }
      if !props[name].enumerable { return false; }
      return true;
    }

    /**
     `__t262_isWritable`; `verifyProp` is empty and `value` Undefined when the caller gives
     none.  The probe is seen when the property to read back holds it afterwards; a write
     that took effect without being seen stays.
     */
    method IsWritable(name: string, verifyProp: string, value: Value) returns (r: Completion<bool>)
      requires Valid()
      modifies this
      ensures Valid()
      ensures
        var read := if verifyProp == "" then name else verifyProp;
        var was := if name in old(props) then old(props)[name].value
                   else if name in inherited then inherited[name].value else Undefined;
        var held := if read in old(props) then old(props)[read].value
                    else if read in inherited then inherited[read].value else Undefined;
        var probe := ProbeValue(value, was);
        var seen := (read == name && old(CanPut(name))) || SameValue(held, probe);
        var stays := old(CanPut(name)) && !seen;
        && r == (if seen && old(HasOwn(name)) && !old(CanPut(name)) then Throws(TypeError) else Normal(seen))
        && props == (if stays then Written(old(props), name, probe) else old(props))
        && order == (if stays && !old(HasOwn(name)) then old(order) + [name] else old(order))
      ensures (verifyProp == "" || verifyProp == name) && value == Undefined ==>
        && r == Normal(if name in old(props) then old(props)[name].writable
                       else extensible && (name in inherited ==> inherited[name].writable))
        && props == old(props) && order == old(order)
    {
      var hadValue := HasOwn(name);
      var oldValue := Get(name);
      var newValue := ProbeValue(value, oldValue);
      var readProp := ReadName(name, verifyProp);
      if !hadValue { WithoutAbsent(order, name); }
      hide IsSameValue, SameValue, Without, Valid, ProbeValue, StrictEquals, ReadName;
      var threw := Put(name, newValue);  // a TypeError is caught
      IsSameValueIsSameValue(Get(readProp), newValue);
      SameValueReflexive(newValue);
      var writeSucceeded := IsSameValue(Get(readProp), newValue);
      if writeSucceeded {
        if hadValue {
          RestoredMap(old(props), name, newValue);
          threw := Put(name, oldValue);
          if threw { return Throws(TypeError); }
        } else {
          RemovedMap(old(props), name, Prop(newValue, true, true, true));
          threw := Delete(name);
        }
      }
      return Normal(writeSucceeded);
    }

    method EnumerableMismatch(name: string, original: Prop, fields: map<Field, Value>) returns (mismatch: bool)
      requires HasOwn(name) && original == props[name]
      ensures mismatch == !FlagMatches(fields, EnumerableField, original.enumerable)
    {
      if EnumerableField !in fields || fields[EnumerableField] == Undefined { return false; }
      var wanted := fields[EnumerableField];
      if !StrictEquals(wanted, Flag(original.enumerable)) { return true; }
      var probed := IsEnumerable(name);
      return !StrictEquals(wanted, Flag(probed));
    }

    method WritableMismatch(name: string, original: Prop, fields: map<Field, Value>) returns (mismatch: bool)
      requires Valid() && HasOwn(name) && original == props[name]
      modifies this
      ensures Valid() && props == old(props) && order == old(order)
      ensures mismatch == !FlagMatches(fields, WritableField, original.writable)
    {
      if WritableField !in fields || fields[WritableField] == Undefined { return false; }
      var wanted := fields[WritableField];
      if !StrictEquals(wanted, Flag(original.writable)) { return true; }
      var probed := IsWritable(name, "", Undefined);
      return !StrictEquals(wanted, Flag(probed.value));
    }

    method ConfigurableMismatch(name: string, original: Prop, fields: map<Field, Value>) returns (mismatch: bool)
      requires Valid() && HasOwn(name) && original == props[name]
      modifies this
      ensures Valid() && mismatch == !FlagMatches(fields, ConfigurableField, original.configurable)
      ensures props == if Deletes(original, fields) then old(props) - {name} else old(props)
      ensures order == if Deletes(original, fields) then Without(old(order), name) else old(order)
    {
      if ConfigurableField !in fields || fields[ConfigurableField] == Undefined { return false; }
      var wanted := fields[ConfigurableField];
      if !StrictEquals(wanted, Flag(original.configurable)) { return true; }
      var probed := IsConfigurable(name);
      return !StrictEquals(wanted, Flag(probed));
    }

    /** The middle of `verifyProperty`: compares and probes every supplied attribute in turn. */
    method CollectFailures(name: string, original: Prop, fields: map<Field, Value>) returns (failures: seq<string>)
      requires Valid() && HasOwn(name) && original == props[name]
      modifies this
      ensures Valid()
      ensures failures == [] <==> Matches(original, fields)
      ensures props == if Deletes(original, fields) then old(props) - {name} else old(props)
      ensures order == if Deletes(original, fields) then Without(old(order), name) else old(order)
    {
      failures := [];
      hide SameValue, IsSameValue, ForInVisits, Without, Valid;
      if ValueField in fields {
        IsSameValueIsSameValue(fields[ValueField], original.value);
        if !IsSameValue(fields[ValueField], original.value) { failures := failures + ["descriptor value"]; }
        if !IsSameValue(fields[ValueField], Get(name)) { failures := failures + ["value"]; }
      }
      var mismatch := EnumerableMismatch(name, original, fields);
      if mismatch { failures := failures + ["enumerable"]; }
      mismatch := WritableMismatch(name, original, fields);
      if mismatch { failures := failures + ["writable"]; }
      mismatch := ConfigurableMismatch(name, original, fields);
      if mismatch { failures := failures + ["configurable"]; }
    }

    /**
     `__t262_verifyProperty` on an object that may have any own data property under
     `name`.  A failing check throws before the restoring step, so what the deletion
     probe removed stays removed.
     */
    method VerifyProperty(name: string, desc: Descriptor, restore: bool) returns (r: Completion<bool>)
      requires Valid()
      modifies this
      ensures Valid()
      ensures desc == NoDescriptor ==> r == if old(HasOwn(name)) then Throws(Test262Error) else Normal(true)
      ensures desc != NoDescriptor && !Checkable(old(props), name, desc) ==> r == Throws(Test262Error)
      ensures desc == NoDescriptor || !Checkable(old(props), name, desc) ==> props == old(props) && order == old(order)
      ensures Checkable(old(props), name, desc) ==>
        var p, f := old(props)[name], desc.fields;
        var gone := Deletes(p, f);
        && (!Matches(p, f) ==> r == Throws(Test262Error))
        && (Matches(p, f) && restore && gone && !extensible ==> r == Throws(TypeError))
        && (Matches(p, f) && !(restore && gone && !extensible) ==> r == Normal(true))
        && props == (if gone && !(r == Normal(true) && restore) then old(props) - {name} else old(props))
        && order == (if !gone then old(order)
                     else Without(old(order), name) + if r == Normal(true) && restore then [name] else [])
      ensures name in old(props) && desc.Fields? && (forall f | f in desc.fields :: !f.OtherField?) ==>
        && (r == Throws(Test262Error) <==> SomeDiffers(old(props)[name], desc.fields))
        && (r.Throws? || r == Normal(true))
        && (r == Throws(TypeError) <==>
              !SomeDiffers(old(props)[name], desc.fields) && restore && !extensible
              && Probed(desc.fields) && old(props)[name].configurable)
        && (name !in props <==> Probed(desc.fields) && old(props)[name].configurable
                                && !(r == Normal(true) && restore))
      ensures name !in old(props) && desc != NoDescriptor ==> r == Throws(Test262Error)
    {
      if name in props && desc.Fields? {
        MatchesMeans(props[name], desc.fields);
        DeletesMeans(props[name], desc.fields);
      }
      hide SomeDiffers, Probed, SameValue;
      hide Matches, Deletes, MayRedefine, Without, Valid;
      var originalDesc := if HasOwn(name) then Some(props[name]) else None;
      if desc.NoDescriptor? {
        if originalDesc.Some? { return Throws(Test262Error); }
        return Normal(true);
      }
      if !HasOwn(name) { return Throws(Test262Error); }
      if desc.NullDescriptor? { return Throws(Test262Error); }
      if desc.NotAnObject? { return Throws(Test262Error); }
      var fields := desc.fields;
      if exists f | f in fields :: f.OtherField? { return Throws(Test262Error); }
      var original := originalDesc.value;
      var failures := CollectFailures(name, original, fields);
      if failures != [] { return Throws(Test262Error); }
      if restore {
        RedefineSame(original);
        var threw := Define(name, original);
        if threw { return Throws(TypeError); }
      }
      return Normal(true);
    }

    /**
     A run of restoring checks on an extensible object: it gets through exactly when
     every check matches the properties the run started with, and leaves them as they were.
     */
    method VerifyAll(checks: seq<(string, map<Field, Value>)>) returns (r: Completion<bool>)
      requires Valid() && extensible
      requires forall i | 0 <= i < |checks| :: Checkable(props, checks[i].0, Fields(checks[i].1))
      modifies this
      ensures Valid()
      ensures r == Normal(true) <==> forall i | 0 <= i < |checks| :: Passes(old(props), checks[i].0, checks[i].1)
      ensures r == Normal(true) <==> forall i, key | 0 <= i < |checks| && checks[i].0 in old(props) ::
                                       !Differs(key, old(props)[checks[i].0], checks[i].1)
      ensures r == Normal(true) ==> props == old(props)
    {
      forall i | 0 <= i < |checks| { MatchesMeans(props[checks[i].0], checks[i].1); }
      hide Matches, Differs;
      for i := 0 to |checks|
        invariant Valid() && props == old(props)
        invariant forall k | 0 <= k < i :: Passes(props, checks[k].0, checks[k].1)
      {
        r := VerifyProperty(checks[i].0, Fields(checks[i].1), true);
        if r.Throws? { return; }
      }
      return Normal(true);
    }

    /** Without restoring, a check that passes by deleting the property fails when repeated. */
    method VerifyTwice(name: string, fields: map<Field, Value>)
      returns (first: Completion<bool>, second: Completion<bool>)
      requires Valid() && Checkable(props, name, Fields(fields)) && Matches(props[name], fields)
      modifies this
      ensures Valid() && first == Normal(true)
      ensures second == if Probed(fields) && old(props)[name].configurable then Throws(Test262Error) else Normal(true)
    {
      DeletesMeans(props[name], fields);
      first := VerifyProperty(name, Fields(fields), false);
      second := VerifyProperty(name, Fields(fields), false);
    }
  }

  /** The own names of a descriptor object: the six attributes, or anything else. */
  datatype Field =
    | ValueField | WritableField | EnumerableField | ConfigurableField | GetField | SetField
    | OtherField(name: string)

  /** The `desc` argument: absent, null, not an object, or an object with own fields. */
  datatype Descriptor = NoDescriptor | NullDescriptor | NotAnObject | Fields(fields: map<Field, Value>)

  function Flag(b: bool): Value { Prim(Bool(b)) }

  predicate Checkable(props: map<string, Prop>, name: string, desc: Descriptor) {
    name in props && desc.Fields? && forall f | f in desc.fields :: !f.OtherField?
  }

  predicate FlagMatches(f: map<Field, Value>, key: Field, b: bool) {
    key in f && f[key] != Undefined ==> f[key] == Flag(b)
  }

  /** Every supplied attribute is the property's; `get` and `set` are allowed but not looked at. */
  predicate Matches(p: Prop, f: map<Field, Value>) {
    && (ValueField in f ==> SameValue(f[ValueField], p.value))
    && FlagMatches(f, EnumerableField, p.enumerable)
    && FlagMatches(f, WritableField, p.writable)
    && FlagMatches(f, ConfigurableField, p.configurable)
  }

  predicate Passes(props: map<string, Prop>, name: string, f: map<Field, Value>) {
    name in props && Matches(props[name], f)
  }

  /** The check that finds a property configurable by deleting it. */
  predicate Deletes(p: Prop, f: map<Field, Value>) {
    ConfigurableField in f && f[ConfigurableField] == Flag(true) && p.configurable
  }

  // ----- attribute by attribute

  /** What a property has under a field of a descriptor, as a value. */
  function Own(key: Field, p: Prop): Value {
    match key
    case ValueField => p.value
    case WritableField => Prim(Bool(p.writable))
    case EnumerableField => Prim(Bool(p.enumerable))
    case ConfigurableField => Prim(Bool(p.configurable))
    case _ => Undefined
  }

  /** A descriptor supplies an attribute that is not the property's; a flag may be undefined, a value not. */
  predicate Differs(key: Field, p: Prop, f: map<Field, Value>) {
    && key in {ValueField, WritableField, EnumerableField, ConfigurableField}
    && key in f
    && (f[key] != Undefined || key == ValueField)
    && !SameValue(f[key], Own(key, p))
  }

  ghost predicate SomeDiffers(p: Prop, f: map<Field, Value>) {
    exists key :: Differs(key, p, f)
  }

  /** The deletion probe runs: the descriptor asks for a configurable property. */
  predicate Probed(f: map<Field, Value>) {
    ConfigurableField in f && f[ConfigurableField] == Prim(Bool(true))
  }

  lemma MatchesMeans(p: Prop, f: map<Field, Value>)
    ensures Matches(p, f) <==> !SomeDiffers(p, f)
  {
    FlagMeans(p, f, WritableField);
    FlagMeans(p, f, EnumerableField);
    FlagMeans(p, f, ConfigurableField);
    assert Differs(ValueField, p, f) <==> ValueField in f && !SameValue(f[ValueField], p.value);
    hide FlagMatches, SameValue;
  }

  lemma FlagMeans(p: Prop, f: map<Field, Value>, key: Field)
    requires key in {WritableField, EnumerableField, ConfigurableField}
    ensures var b := if key == WritableField then p.writable
                     else if key == EnumerableField then p.enumerable else p.configurable;
            FlagMatches(f, key, b) <==> !Differs(key, p, f)
  {
  }

  lemma DeletesMeans(p: Prop, f: map<Field, Value>)
    ensures Deletes(p, f) <==> Probed(f) && p.configurable
  {
  }
}
