/**
  `CopyPropertiesTo` and `CopyPropertiesOfInstanceTypesTo`: for every source property
  that is not skipped and that the destination also has, read it from the source and
  write it to the destination. An object is seen through reflection as the public
  properties of its runtime type and a map from property name to value.

  `GetValue` and `SetValue` use the get or set accessor whatever its visibility, and
  throw when there is none; the exception ends the loop, leaving the properties
  copied before it in place.

  The value map covers every property reflection can reach on the object: the public
  properties of its runtime type, and also those it has only through an interface it
  implements explicitly, which `typeof(T1).GetProperties()` lists for an interface
  `T1` although the runtime type does not show them as public.
 */
module CopyProperties {
  import opened Expressions

  /** An object, the public properties of its runtime type, and the values of every
      property it has. */
  class Instance<V> {
    /** The runtime type's public properties, in the order `GetProperties()` returns them. */
    const runtimeProperties: seq<PropertyInfo>
    /** The current value of each property, whether public on the runtime type or
        reached through an interface. */
    var values: map<string, V>

    ghost predicate Valid()
      reads this
    {
      forall n :: n in Names(runtimeProperties) ==> n in values
    }

    constructor (properties: seq<PropertyInfo>, initial: map<string, V>)
      requires forall n :: n in Names(properties) ==> n in initial
      ensures Valid()
      ensures runtimeProperties == properties && values == initial
    {
      runtimeProperties := properties;
      values := initial;
    }
  }

  /** The exception that ends a copy: the property that could not be read from the
      source, or written to the destination. */
  datatype CopyFault = GetterMissing(name: string) | SetterMissing(name: string)

  /** `destinationType.GetProperty(name)`: the destination property of that name. */
  function Lookup(ps: seq<PropertyInfo>, name: string): (r: Option<PropertyInfo>)
    ensures r.Some? ==> r.value in ps && r.value.name == name
    ensures r.None? <==> name !in Names(ps)
  {
    if |ps| == 0 then None
    else if ps[0].name == name then Some(ps[0])
    else
      assert ps == [ps[0]] + ps[1..];
      Lookup(ps[1..], name)
  }

  /** Whether the copy writes the property `n`: the source lists it, it is not
      skipped, and the destination has a property of that name. */
  predicate IsCopied(n: string, sourceProperties: seq<string>, destinationProperties: seq<string>, skippedProperties: seq<string>)
  {
    n in sourceProperties && n !in skippedProperties && n in destinationProperties
  }

  /** The exception the copy of the source property `p` raises, if any: `GetValue` is
      evaluated before `SetValue`, so a missing getter is reported first. */
  function FaultOf(p: PropertyInfo, destinationProperties: seq<PropertyInfo>, skippedProperties: seq<string>): (r: Option<CopyFault>)
    ensures r.Some? ==> p.name !in skippedProperties && p.name in Names(destinationProperties)
    ensures r == Some(GetterMissing(p.name)) <==>
      p.name !in skippedProperties && p.name in Names(destinationProperties) && !p.canRead
    ensures r == Some(SetterMissing(p.name)) <==>
      p.name !in skippedProperties && p.name in Names(destinationProperties) && p.canRead && !Lookup(destinationProperties, p.name).value.canWrite
  {
    if p.name in skippedProperties then None
    else match Lookup(destinationProperties, p.name)
      case None => None
      case Some(d) =>
        if !p.canRead then Some(GetterMissing(p.name))
        else if !d.canWrite then Some(SetterMissing(p.name))
        else None
  }

  /** What a copy leaves behind: the destination's values and the exception, if any. */
  datatype Outcome<V> = Outcome(values: map<string, V>, fault: Option<CopyFault>)

  /** The destination values after the source property `p` is copied without an
      exception: written when it is not skipped and the destination has it. */
  function CopyOne<V>(
    sourceValues: map<string, V>,
    destinationValues: map<string, V>,
    p: PropertyInfo,
    destinationProperties: seq<PropertyInfo>,
    skippedProperties: seq<string>): (r: map<string, V>)
    requires p.name in sourceValues
    requires forall n :: n in Names(destinationProperties) ==> n in destinationValues
    ensures r.Keys == destinationValues.Keys
    ensures forall n :: n in r ==>
      r[n] == if n == p.name && n !in skippedProperties && n in Names(destinationProperties) then sourceValues[n] else destinationValues[n]
  {
    if p.name in skippedProperties || p.name !in Names(destinationProperties) then destinationValues
    else destinationValues[p.name := sourceValues[p.name]]
  }

  /** The loop over the source properties, head first, stopping at the first exception. */
  function CopyRun<V>(
    sourceValues: map<string, V>,
    destinationValues: map<string, V>,
    sourceProperties: seq<PropertyInfo>,
    destinationProperties: seq<PropertyInfo>,
    skippedProperties: seq<string>): (r: Outcome<V>)
    requires forall n :: n in Names(sourceProperties) ==> n in sourceValues
    requires forall n :: n in Names(destinationProperties) ==> n in destinationValues
    ensures r.values.Keys == destinationValues.Keys
    decreases |sourceProperties|
  {
    if |sourceProperties| == 0 then Outcome(destinationValues, None)
    else
      var p := sourceProperties[0];
      assert Names(sourceProperties) == [p.name] + Names(sourceProperties[1..]);
      var fault := FaultOf(p, destinationProperties, skippedProperties);
      if fault.Some? then Outcome(destinationValues, fault)
      else
        CopyRun(sourceValues, CopyOne(sourceValues, destinationValues, p, destinationProperties, skippedProperties),
                sourceProperties[1..], destinationProperties, skippedProperties)
  }

  /** The values a copy of the properties `sourceProperties` leaves, when none of them
      raises: every copied property holds the source's value, every other keeps its own. */
  function Copied<V>(
    sourceValues: map<string, V>,
    destinationValues: map<string, V>,
    sourceProperties: seq<string>,
    destinationProperties: seq<string>,
    skippedProperties: seq<string>): (r: map<string, V>)
    requires forall n :: n in sourceProperties ==> n in sourceValues
    ensures r.Keys == destinationValues.Keys
    ensures forall n :: n in r ==>
      r[n] == if IsCopied(n, sourceProperties, destinationProperties, skippedProperties) then sourceValues[n] else destinationValues[n]
  {
    map n | n in destinationValues ::
      if IsCopied(n, sourceProperties, destinationProperties, skippedProperties) then sourceValues[n] else destinationValues[n]
  }

  /** `CopyPropertiesTo<T1, T2>`: the property lists are those of the compile-time types
      `T1` and `T2`. Each object has a value for every property of its compile-time
      type, directly or through an interface it implements. Source and destination
      may be the same object. */
  method CopyPropertiesTo<V>(
    source: Instance<V>,
    destination: Instance<V>,
    sourceProperties: seq<PropertyInfo>,
    destinationProperties: seq<PropertyInfo>,
    skippedProperties: seq<string>)
    returns (fault: Option<CopyFault>)
    requires source.Valid() && destination.Valid()
    requires forall n :: n in Names(sourceProperties) ==> n in source.values
    requires forall n :: n in Names(destinationProperties) ==> n in destination.values
    modifies destination
    ensures destination.Valid()
    ensures Outcome(destination.values, fault) ==
      CopyRun(old(source.values), old(destination.values), sourceProperties, destinationProperties, skippedProperties)
    ensures source.values == old(source.values)
  {
    var i := 0;
    while i < |sourceProperties|
      invariant 0 <= i <= |sourceProperties|
      invariant destination.Valid()
      invariant source.values == old(source.values)
      invariant destination.values.Keys == old(destination.values.Keys)
      invariant CopyRun(source.values, destination.values, sourceProperties[i..], destinationProperties, skippedProperties) ==
        CopyRun(old(source.values), old(destination.values), sourceProperties, destinationProperties, skippedProperties)
    {
      ghost var rest := sourceProperties[i..];
      ghost var before := destination.values;
      assert rest[0] == sourceProperties[i] && rest[1..] == sourceProperties[i + 1..];
      assert Names(rest) == [rest[0].name] + Names(rest[1..]);
      fault := CopyProperty(source, destination, sourceProperties[i], destinationProperties, skippedProperties);
      if fault.Some? {
        return;
      }
      assert CopyRun(source.values, before, rest, destinationProperties, skippedProperties) ==
        CopyRun(source.values, destination.values, rest[1..], destinationProperties, skippedProperties);
      i := i + 1;
    }
    return None;
  }

  /** One pass of the loop: `p2.SetValue(destination, p1.GetValue(source, null), null)`
      when `p1` is not skipped and the destination type has a property `p2` of its name. */
  method CopyProperty<V>(
    source: Instance<V>,
    destination: Instance<V>,
    p1: PropertyInfo,
    destinationProperties: seq<PropertyInfo>,
    skippedProperties: seq<string>)
    returns (fault: Option<CopyFault>)
    requires source.Valid() && destination.Valid()
    requires p1.name in source.values
    requires forall n :: n in Names(destinationProperties) ==> n in destination.values
    modifies destination
    ensures destination.Valid()
    ensures fault == FaultOf(p1, destinationProperties, skippedProperties)
    ensures destination.values ==
      if fault.Some? then old(destination.values)
      else CopyOne(old(source.values), old(destination.values), p1, destinationProperties, skippedProperties)
    ensures source.values == old(source.values)
  {
    if p1.name in skippedProperties {
      return None;
    }
    var p2 := Lookup(destinationProperties, p1.name);
    if p2.None? {
      return None;
    }
    if !p1.canRead {
      return Some(GetterMissing(p1.name));
    }
    var value := source.values[p1.name];
    if !p2.value.canWrite {
      return Some(SetterMissing(p1.name));
    }
    destination.values := destination.values[p1.name := value];
    return None;
  }

  /** `CopyPropertiesOfInstanceTypesTo<T1, T2>`: the same loop over the properties of
      the two objects' runtime types. */
  method CopyPropertiesOfInstanceTypesTo<V>(source: Instance<V>, destination: Instance<V>, skippedProperties: seq<string>)
    returns (fault: Option<CopyFault>)
    requires source.Valid() && destination.Valid()
    modifies destination
    ensures destination.Valid()
    ensures Outcome(destination.values, fault) ==
      CopyRun(old(source.values), old(destination.values), source.runtimeProperties, destination.runtimeProperties, skippedProperties)
    ensures source.values == old(source.values)
  {
    fault := CopyPropertiesTo(source, destination, source.runtimeProperties, destination.runtimeProperties, skippedProperties);
  }

  /** A copy is the closed-form copy of the properties before the first one that
      raises, and reports that one's exception; when none raises, it copies them all. */
  lemma {:induction false} CopyRunIsPrefixCopy<V>(
    sourceValues: map<string, V>,
    destinationValues: map<string, V>,
    sourceProperties: seq<PropertyInfo>,
    destinationProperties: seq<PropertyInfo>,
    skippedProperties: seq<string>,
    k: int)
    requires forall n :: n in Names(sourceProperties) ==> n in sourceValues
    requires forall n :: n in Names(destinationProperties) ==> n in destinationValues
    requires 0 <= k <= |sourceProperties|
    requires forall j :: 0 <= j < k ==> FaultOf(sourceProperties[j], destinationProperties, skippedProperties).None?
    requires k < |sourceProperties| ==> FaultOf(sourceProperties[k], destinationProperties, skippedProperties).Some?
    ensures
      var r := CopyRun(sourceValues, destinationValues, sourceProperties, destinationProperties, skippedProperties);
      r.values == Copied(sourceValues, destinationValues, Names(sourceProperties[..k]), Names(destinationProperties), skippedProperties) &&
      r.fault == if k < |sourceProperties| then FaultOf(sourceProperties[k], destinationProperties, skippedProperties) else None
    decreases |sourceProperties|
  {
    var ps := sourceProperties;
    if k == 0 {
      CopyRunAtFault(sourceValues, destinationValues, ps, destinationProperties, skippedProperties);
    } else {
      var next := CopyRunSteps(sourceValues, destinationValues, ps, destinationProperties, skippedProperties);
      TailFaults(ps, destinationProperties, skippedProperties, k);
      CopyRunIsPrefixCopy(sourceValues, next, ps[1..], destinationProperties, skippedProperties, k - 1);
      PrefixNames(ps, k);
      CopiedStep(sourceValues, destinationValues, ps[0], Names(ps[1..][..k - 1]), destinationProperties, skippedProperties);
    }
  }

  /** A copy whose first property raises stops there, having copied nothing. */
  lemma CopyRunAtFault<V>(
    sourceValues: map<string, V>,
    destinationValues: map<string, V>,
    sourceProperties: seq<PropertyInfo>,
    destinationProperties: seq<PropertyInfo>,
    skippedProperties: seq<string>)
    requires forall n :: n in Names(sourceProperties) ==> n in sourceValues
    requires forall n :: n in Names(destinationProperties) ==> n in destinationValues
    requires |sourceProperties| > 0 ==> FaultOf(sourceProperties[0], destinationProperties, skippedProperties).Some?
    ensures
      var r := CopyRun(sourceValues, destinationValues, sourceProperties, destinationProperties, skippedProperties);
      r.values == Copied(sourceValues, destinationValues, Names(sourceProperties[..0]), Names(destinationProperties), skippedProperties) &&
      r.fault == if 0 < |sourceProperties| then FaultOf(sourceProperties[0], destinationProperties, skippedProperties) else None
  {
    assert Names(sourceProperties[..0]) == [];
    CopiedNothing(sourceValues, destinationValues, Names(destinationProperties), skippedProperties);
  }

  /** The conditions on the first `k` properties, shifted to the tail. */
  lemma TailFaults(ps: seq<PropertyInfo>, destinationProperties: seq<PropertyInfo>, skippedProperties: seq<string>, k: int)
    requires 0 < k <= |ps|
    requires forall j :: 0 <= j < k ==> FaultOf(ps[j], destinationProperties, skippedProperties).None?
    requires k < |ps| ==> FaultOf(ps[k], destinationProperties, skippedProperties).Some?
    ensures FaultOf(ps[0], destinationProperties, skippedProperties).None?
    ensures forall j :: 0 <= j < k - 1 ==> FaultOf(ps[1..][j], destinationProperties, skippedProperties).None?
    ensures k - 1 < |ps[1..]| ==> FaultOf(ps[1..][k - 1], destinationProperties, skippedProperties).Some?
  {
    assert forall j :: 0 <= j < |ps| - 1 ==> ps[1..][j] == ps[j + 1];
  }

  /** One step of the loop over a property that raises nothing: the copy continues from
      the destination values `next`. */
  lemma CopyRunSteps<V>(
    sourceValues: map<string, V>,
    destinationValues: map<string, V>,
    sourceProperties: seq<PropertyInfo>,
    destinationProperties: seq<PropertyInfo>,
    skippedProperties: seq<string>)
    returns (next: map<string, V>)
    requires forall n :: n in Names(sourceProperties) ==> n in sourceValues
    requires forall n :: n in Names(destinationProperties) ==> n in destinationValues
    requires |sourceProperties| > 0 && FaultOf(sourceProperties[0], destinationProperties, skippedProperties).None?
    ensures sourceProperties[0].name in sourceValues
    ensures forall n :: n in Names(sourceProperties[1..]) ==> n in sourceValues
    ensures forall n :: n in Names(destinationProperties) ==> n in next
    ensures next == CopyOne(sourceValues, destinationValues, sourceProperties[0], destinationProperties, skippedProperties)
    ensures CopyRun(sourceValues, destinationValues, sourceProperties, destinationProperties, skippedProperties) ==
      CopyRun(sourceValues, next, sourceProperties[1..], destinationProperties, skippedProperties)
  {
    var p := sourceProperties[0];
    assert Names(sourceProperties) == [p.name] + Names(sourceProperties[1..]);
    next := CopyOne(sourceValues, destinationValues, p, destinationProperties, skippedProperties);
  }

  /** The names of the first `k` properties: the first name, then those of the next `k - 1`. */
  lemma PrefixNames(ps: seq<PropertyInfo>, k: int)
    requires 0 < k <= |ps|
    ensures Names(ps[..k]) == [ps[0].name] + Names(ps[1..][..k - 1])
    ensures forall m :: m in Names(ps[1..][..k - 1]) ==> m in Names(ps)
  {
    assert ps[..k] == [ps[0]] + ps[1..][..k - 1];
    NamesAppend([ps[0]], ps[1..][..k - 1]);
    forall m | m in Names(ps[1..][..k - 1])
      ensures m in Names(ps)
    {
      var i :| 0 <= i < |Names(ps[1..][..k - 1])| && Names(ps[1..][..k - 1])[i] == m;
      assert ps[i + 1] == ps[1..][..k - 1][i];
      assert Names(ps)[i + 1] == m;
    }
  }

  lemma CopiedNothing<V>(sourceValues: map<string, V>, destinationValues: map<string, V>, destinationProperties: seq<string>, skippedProperties: seq<string>)
    ensures Copied(sourceValues, destinationValues, [], destinationProperties, skippedProperties) == destinationValues
  {
  }

  /** Copying `p` first and then the rest is copying `p` together with the rest. */
  lemma CopiedStep<V>(
    sourceValues: map<string, V>,
    destinationValues: map<string, V>,
    p: PropertyInfo,
    rest: seq<string>,
    destinationProperties: seq<PropertyInfo>,
    skippedProperties: seq<string>)
    requires p.name in sourceValues && forall m :: m in rest ==> m in sourceValues
    requires forall m :: m in Names(destinationProperties) ==> m in destinationValues
    ensures
      var next := CopyOne(sourceValues, destinationValues, p, destinationProperties, skippedProperties);
      Copied(sourceValues, next, rest, Names(destinationProperties), skippedProperties) ==
        Copied(sourceValues, destinationValues, [p.name] + rest, Names(destinationProperties), skippedProperties)
  {
    var dn := Names(destinationProperties);
    var next := CopyOne(sourceValues, destinationValues, p, destinationProperties, skippedProperties);
    var left := Copied(sourceValues, next, rest, dn, skippedProperties);
    var right := Copied(sourceValues, destinationValues, [p.name] + rest, dn, skippedProperties);
    assert left.Keys == right.Keys;
    forall m | m in left
      ensures left[m] == right[m]
    {
      assert m in [p.name] + rest <==> m == p.name || m in rest;
    }
  }

  lemma {:induction false} NamesAppend(a: seq<PropertyInfo>, b: seq<PropertyInfo>)
    ensures Names(a + b) == Names(a) + Names(b)
    decreases |a|
  {
    if |a| > 0 {
      assert (a + b)[1..] == a[1..] + b;
      NamesAppend(a[1..], b);
    }
  }

  /** When no listed property raises, the copy writes every copied property with the
      source's value and keeps every other destination property. */
  lemma CopyWithoutFault<V>(
    sourceValues: map<string, V>,
    destinationValues: map<string, V>,
    sourceProperties: seq<PropertyInfo>,
    destinationProperties: seq<PropertyInfo>,
    skippedProperties: seq<string>)
    requires forall n :: n in Names(sourceProperties) ==> n in sourceValues
    requires forall n :: n in Names(destinationProperties) ==> n in destinationValues
    requires forall j :: 0 <= j < |sourceProperties| ==> FaultOf(sourceProperties[j], destinationProperties, skippedProperties).None?
    ensures CopyRun(sourceValues, destinationValues, sourceProperties, destinationProperties, skippedProperties) ==
      Outcome(Copied(sourceValues, destinationValues, Names(sourceProperties), Names(destinationProperties), skippedProperties), None)
  {
    CopyRunIsPrefixCopy(sourceValues, destinationValues, sourceProperties, destinationProperties, skippedProperties, |sourceProperties|);
    assert sourceProperties[..|sourceProperties|] == sourceProperties;
  }

  /** A copy completes without an exception exactly when no listed property raises one. */
  lemma {:induction false} CopyCompletesIffNoFault<V>(
    sourceValues: map<string, V>,
    destinationValues: map<string, V>,
    sourceProperties: seq<PropertyInfo>,
    destinationProperties: seq<PropertyInfo>,
    skippedProperties: seq<string>)
    requires forall n :: n in Names(sourceProperties) ==> n in sourceValues
    requires forall n :: n in Names(destinationProperties) ==> n in destinationValues
    ensures CopyRun(sourceValues, destinationValues, sourceProperties, destinationProperties, skippedProperties).fault.None? <==>
      forall j :: 0 <= j < |sourceProperties| ==> FaultOf(sourceProperties[j], destinationProperties, skippedProperties).None?
    decreases |sourceProperties|
  {
    var ps := sourceProperties;
    if |ps| > 0 {
      var p := ps[0];
      assert Names(ps) == [p.name] + Names(ps[1..]);
      var next := CopyOne(sourceValues, destinationValues, p, destinationProperties, skippedProperties);
      CopyCompletesIffNoFault(sourceValues, next, ps[1..], destinationProperties, skippedProperties);
      assert forall j :: 0 < j < |ps| ==> ps[j] == ps[1..][j - 1];
    }
  }

  /** Copying twice from an unchanged source leaves what copying once leaves. */
  lemma CopyIdempotent<V>(
    sourceValues: map<string, V>,
    destinationValues: map<string, V>,
    sourceProperties: seq<string>,
    destinationProperties: seq<string>,
    skippedProperties: seq<string>)
    requires forall n :: n in sourceProperties ==> n in sourceValues
    ensures
      var once := Copied(sourceValues, destinationValues, sourceProperties, destinationProperties, skippedProperties);
      Copied(sourceValues, once, sourceProperties, destinationProperties, skippedProperties) == once
  {
  }
}
