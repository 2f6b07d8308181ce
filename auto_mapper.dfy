/**
  `ExpressionMapper`: builds the lambda `x => new TResult(...) { P1 = ..., P2 = ... }`
  that copies same-named properties from a source type to a result type, starting
  from an optional template lambda whose object initialiser takes precedence.

  The method `ExpressionMapper` is the imperative algorithm; `ExpressionMapperSpec`
  is the same computation as a fold over the visited result properties (`Visit`,
  one `Step` per property), against which the method is proved. The properties the
  mapper promises are proved about the fold in module AutoMapperProperties.
 */
module AutoMapper {
  import opened Expressions

  /** Why building one property's binding failed (the exception caught at the
      per-property catch block). */
  datatype BuildFault =
    | NotAMemberAssignment    // the template binding is a list or nested binding: its `Expression` is null
    | NoGetter                // the source property has no get accessor: `Expression.Property` accepts it, but
                              // `Expression.TryCatch` or `Expression.Bind` rejects the read before any other check
    | NoSetter                // `Expression.Bind` on a result property without a set accessor
    | TypeMismatch(actual: TypeRef)  // `Expression.Bind`: the property type is not assignable from the expression's

  datatype MapperError =
    | InvalidTemplate                               // the template's body is neither `new T(...)` nor `new T(...) { ... }`
    | NoParameterlessConstructor(resultType: TypeRef)  // `Expression.New(typeof(TResult))` has nothing to call
    | BindingFailed(propertyName: string, propertyType: TypeRef, fault: BuildFault)  // rethrown with the property's name and type

  datatype Result<+T> = Ok(value: T) | Err(error: MapperError)

  /** `Type.IsAssignableFrom`, as the runtime decides it: `f(target, actual)` holds
      when a value of type `actual` may be stored in a member of type `target`. */
  type Assignability = (TypeRef, TypeRef) -> bool

  /** The arguments of one `ExpressionMapper<TSource, TResult>` call, with the two type
      arguments as the reflection data the method reads from them. */
  datatype MapperCall = MapperCall(
    source: TypeInfo,
    result: TypeInfo,
    baseMapper: Option<Lambda>,
    userTryCatchForEachProperty: bool,
    useOnlyBaseMapper: bool,
    excludedProperties: Option<seq<string>>)

  /** `excludedProperties ?? new List<string>()`. */
  function ExcludedNames(c: MapperCall): seq<string>
  {
    if c.excludedProperties.Some? then c.excludedProperties.value else []
  }

  /** The object-initialiser bindings of the template, when it has any. */
  function TemplateBindings(c: MapperCall): seq<MemberBinding>
  {
    if c.baseMapper.Some? && c.baseMapper.value.body.MemberInit? then c.baseMapper.value.body.bindings else []
  }

  /** Recursive form of "no two bindings name the same member". */
  ghost predicate DistinctBindingNames(bs: seq<MemberBinding>)
    decreases |bs|
  {
    |bs| == 0 || ((forall b :: b in bs[1..] ==> b.member != bs[0].member) && DistinctBindingNames(bs[1..]))
  }

  /** Recursive form of "no two properties have the same name". */
  ghost predicate DistinctPropertyNames(ps: seq<PropertyInfo>)
    decreases |ps|
  {
    |ps| == 0 || ((forall p :: p in ps[1..] ==> p.name != ps[0].name) && DistinctPropertyNames(ps[1..]))
  }

  /** The template bindings whose member is not excluded, in order. */
  function WithoutExcluded(bs: seq<MemberBinding>, excluded: seq<string>): (r: seq<MemberBinding>)
    ensures forall b :: b in r <==> b in bs && b.member !in excluded
    ensures DistinctBindingNames(bs) ==> DistinctBindingNames(r)
  {
    if |bs| == 0 then []
    else
      var rest := WithoutExcluded(bs[1..], excluded);
      assert bs == [bs[0]] + bs[1..];
      if bs[0].member in excluded then rest
      else
        assert ([bs[0]] + rest)[1..] == rest;
        [bs[0]] + rest
  }

  /** The result properties whose name is not excluded, in their listed order. */
  function VisibleProperties(ps: seq<PropertyInfo>, excluded: seq<string>): (r: seq<PropertyInfo>)
    ensures forall p :: p in r <==> p in ps && p.name !in excluded
    ensures DistinctPropertyNames(ps) ==> DistinctPropertyNames(r)
  {
    if |ps| == 0 then []
    else
      var rest := VisibleProperties(ps[1..], excluded);
      assert ps == [ps[0]] + ps[1..];
      if ps[0].name in excluded then rest
      else
        assert ([ps[0]] + rest)[1..] == rest;
        [ps[0]] + rest
  }

  /** Position `k` holds the first binding of the member `name`. */
  predicate FirstBindingAt(bs: seq<MemberBinding>, name: string, k: int)
  {
    0 <= k < |bs| && bs[k].member == name && forall j :: 0 <= j < k ==> bs[j].member != name
  }

  /** Position `k` holds the first property named `name`. */
  predicate FirstPropertyAt(ps: seq<PropertyInfo>, name: string, k: int)
  {
    0 <= k < |ps| && ps[k].name == name && forall j :: 0 <= j < k ==> ps[j].name != name
  }

  /** `bindings.FirstOrDefault(x => x.Member.Name == name)`: the first binding of the
      member, if any. */
  function FindBinding(bs: seq<MemberBinding>, name: string): (r: Option<MemberBinding>)
    ensures r.Some? ==> r.value in bs && r.value.member == name
    ensures r.Some? ==> exists k :: FirstBindingAt(bs, name, k) && bs[k] == r.value
    ensures r.None? <==> forall b :: b in bs ==> b.member != name
  {
    if |bs| == 0 then None
    else if bs[0].member == name then
      assert FirstBindingAt(bs, name, 0);
      Some(bs[0])
    else
      assert bs == [bs[0]] + bs[1..];
      var r := FindBinding(bs[1..], name);
      if r.Some? then
        var k :| FirstBindingAt(bs[1..], name, k) && bs[1..][k] == r.value;
        assert FirstBindingAt(bs, name, k + 1);
        r
      else r
  }

  /** `bindings.Remove(existingBinding)` for the binding `FindBinding` found: drops the
      first binding of the member, and nothing when there is none. */
  function RemoveFirst(bs: seq<MemberBinding>, name: string): (r: seq<MemberBinding>)
    ensures FindBinding(bs, name).None? ==> r == bs
    ensures FindBinding(bs, name).Some? ==> |r| == |bs| - 1
    ensures forall b :: b in r ==> b in bs
    ensures DistinctBindingNames(bs) ==> DistinctBindingNames(r) && forall b :: b in r ==> b.member != name
  {
    if |bs| == 0 then []
    else if bs[0].member == name then bs[1..]
    else
      var rest := RemoveFirst(bs[1..], name);
      assert bs == [bs[0]] + bs[1..];
      assert ([bs[0]] + rest)[1..] == rest;
      [bs[0]] + rest
  }

  /** `List.Remove` takes out exactly the binding `FindBinding` found, the first of its
      member, and keeps the others in order. */
  lemma {:induction false} RemoveFirstAt(bs: seq<MemberBinding>, name: string)
    requires FindBinding(bs, name).Some?
    ensures exists k :: (FirstBindingAt(bs, name, k) && bs[k] == FindBinding(bs, name).value &&
      RemoveFirst(bs, name) == bs[..k] + bs[k + 1..])
    decreases |bs|
  {
    if bs[0].member == name {
      RemoveFirstAtHead(bs, name);
    } else {
      RemoveFirstAt(bs[1..], name);
      var k :| FirstBindingAt(bs[1..], name, k) && bs[1..][k] == FindBinding(bs[1..], name).value &&
        RemoveFirst(bs[1..], name) == bs[1..][..k] + bs[1..][k + 1..];
      RemoveFirstAfterHead(bs, name, k);
    }
  }

  lemma RemoveFirstAtHead(bs: seq<MemberBinding>, name: string)
    requires |bs| > 0 && bs[0].member == name
    ensures FirstBindingAt(bs, name, 0) && bs[0] == FindBinding(bs, name).value &&
      RemoveFirst(bs, name) == bs[..0] + bs[0 + 1..]
  {
    DropHead(bs);
  }

  lemma DropHead<T>(s: seq<T>)
    requires |s| > 0
    ensures s[..0] + s[0 + 1..] == s[1..]
  {
  }

  /** The inductive step of `RemoveFirstAt`: a first binding at `k` in the tail is a
      first binding at `k + 1` in the whole list. */
  lemma RemoveFirstAfterHead(bs: seq<MemberBinding>, name: string, k: int)
    requires |bs| > 0 && bs[0].member != name
    requires FirstBindingAt(bs[1..], name, k) && bs[1..][k] == FindBinding(bs[1..], name).value
    requires RemoveFirst(bs[1..], name) == bs[1..][..k] + bs[1..][k + 1..]
    ensures FirstBindingAt(bs, name, k + 1) && bs[k + 1] == FindBinding(bs, name).value &&
      RemoveFirst(bs, name) == bs[..k + 1] + bs[k + 1 + 1..]
  {
    FirstBindingAfterHead(bs, name, k);
    assert RemoveFirst(bs, name) == [bs[0]] + RemoveFirst(bs[1..], name);
    DropAfterHead(bs, k);
  }

  /** The first binding of a name the head does not have is one position further on. */
  lemma FirstBindingAfterHead(bs: seq<MemberBinding>, name: string, k: int)
    requires |bs| > 0 && bs[0].member != name
    requires FirstBindingAt(bs[1..], name, k)
    ensures FirstBindingAt(bs, name, k + 1) && bs[k + 1] == bs[1..][k]
    ensures FindBinding(bs, name) == FindBinding(bs[1..], name)
  {
    forall j | 0 <= j < k + 1
      ensures bs[j].member != name
    {
      if j > 0 { assert bs[j] == bs[1..][j - 1]; }
    }
  }

  /** Dropping position `k` of the tail, with the head put back, drops position `k + 1`. */
  lemma DropAfterHead<T>(s: seq<T>, k: int)
    requires 0 <= k < |s| - 1
    ensures [s[0]] + (s[1..][..k] + s[1..][k + 1..]) == s[..k + 1] + s[k + 2..]
  {
    assert s[..k + 1] == [s[0]] + s[1..][..k];
    assert s[k + 2..] == s[1..][k + 1..];
  }

  /** `sourceProperties.FirstOrDefault(p => p.Name == resultProperty.Name &&
      p.GetType() == resultProperty.GetType())`. The second test compares the types of
      the two PropertyInfo objects, which always agree, so the match is by name only. */
  function FindSourceProperty(sources: seq<PropertyInfo>, resultProperty: PropertyInfo): (r: Option<PropertyInfo>)
    ensures r.Some? ==> r.value in sources && r.value.name == resultProperty.name
    ensures r.Some? ==> exists k :: FirstPropertyAt(sources, resultProperty.name, k) && sources[k] == r.value
    ensures r.None? <==> resultProperty.name !in Names(sources)
  {
    if |sources| == 0 then None
    else if sources[0].name == resultProperty.name && MetadataType(sources[0]) == MetadataType(resultProperty) then
      assert FirstPropertyAt(sources, resultProperty.name, 0);
      Some(sources[0])
    else
      assert sources == [sources[0]] + sources[1..];
      var r := FindSourceProperty(sources[1..], resultProperty);
      if r.Some? then
        var k :| FirstPropertyAt(sources[1..], resultProperty.name, k) && sources[1..][k] == r.value;
        assert FirstPropertyAt(sources, resultProperty.name, k + 1);
        r
      else r
  }

  /** `Expression.Variable(typeof(Exception), "ex")`. */
  const ExceptionVariable := Parameter("ex", ExceptionType)

  /** The conversion and the optional try/catch applied to a property's expression.
      The conversion is decided on `resultProperty.GetType()`, the PropertyInfo's own
      type, which is not a value type, so no conversion is ever added; the catch
      handler evaluates the same expression again. */
  function Wrap(e: Expr, resultProperty: PropertyInfo, userTryCatchForEachProperty: bool): (r: Expr)
    ensures r == if userTryCatchForEachProperty then TryCatch(e, ExceptionVariable, e) else e
    ensures TypeOf(r) == TypeOf(e)
  {
    var t := MetadataType(resultProperty);
    var convertedAssignment := if t.isValueType then Unary(Convert, e, resultProperty.propertyType) else e;
    if userTryCatchForEachProperty then TryCatch(convertedAssignment, ExceptionVariable, convertedAssignment)
    else convertedAssignment
  }

  /** What stays fixed while the result properties are visited. */
  datatype Env = Env(
    parameter: Parameter,
    sourceProperties: seq<PropertyInfo>,
    userTryCatchForEachProperty: bool,
    isAssignableFrom: Assignability)

  /** `Expression.Bind(resultProperty, Wrap(e))`, which needs a setter and an
      assignable expression type. */
  function Bound(resultProperty: PropertyInfo, e: Expr, env: Env): (r: Result<Option<MemberBinding>>)
    ensures r.Ok? ==> r == Ok(Some(Assignment(resultProperty.name, Wrap(e, resultProperty, env.userTryCatchForEachProperty))))
    ensures r.Ok? <==> resultProperty.canWrite && env.isAssignableFrom(resultProperty.propertyType, TypeOf(e))
  {
    var resultExpression := Wrap(e, resultProperty, env.userTryCatchForEachProperty);
    if !resultProperty.canWrite then
      Err(BindingFailed(resultProperty.name, resultProperty.propertyType, NoSetter))
    else if !env.isAssignableFrom(resultProperty.propertyType, TypeOf(resultExpression)) then
      Err(BindingFailed(resultProperty.name, resultProperty.propertyType, TypeMismatch(TypeOf(resultExpression))))
    else
      Ok(Some(Assignment(resultProperty.name, resultExpression)))
  }

  /** The binding that one visited result property contributes, given the binding of
      that name already in the list (if any): the existing expression, else a read of
      the same-named source property, else nothing (`continue`). */
  function Contribution(existing: Option<MemberBinding>, resultProperty: PropertyInfo, env: Env): (r: Result<Option<MemberBinding>>)
    ensures r.Err? ==> r.error.BindingFailed? && r.error.propertyName == resultProperty.name && r.error.propertyType == resultProperty.propertyType
    ensures r.Ok? && r.value.Some? ==> r.value.value.Assignment? && r.value.value.member == resultProperty.name
    ensures r == Ok(None) <==> existing.None? && resultProperty.name !in Names(env.sourceProperties)
  {
    match existing
    case Some(OtherBinding(_)) =>
      Err(BindingFailed(resultProperty.name, resultProperty.propertyType, NotAMemberAssignment))
    case Some(Assignment(_, e)) =>
      Bound(resultProperty, e, env)
    case None =>
      match FindSourceProperty(env.sourceProperties, resultProperty)
      case None => Ok(None)
      case Some(sourceProperty) =>
        if !sourceProperty.canRead then
          Err(BindingFailed(resultProperty.name, resultProperty.propertyType, NoGetter))
        else
          Bound(resultProperty, Member(Param(env.parameter), sourceProperty.name, sourceProperty.propertyType), env)
  }

  /** One iteration of the loop over result properties: take over (remove, then
      re-append) or synthesise the property's binding, or leave the list as it is. */
  function Step(bs: seq<MemberBinding>, resultProperty: PropertyInfo, env: Env): Result<seq<MemberBinding>>
  {
    match Contribution(FindBinding(bs, resultProperty.name), resultProperty, env)
    case Err(e) => Err(e)
    case Ok(None) => Ok(bs)
    case Ok(Some(b)) => Ok(RemoveFirst(bs, resultProperty.name) + [b])
  }

  /** The whole loop: the steps for `ps` in order, stopping at the first failure.
      Every binding it leaves is one it started with or names a visited property,
      every failure names a visited property, and distinct member names stay distinct. */
  function Visit(bs: seq<MemberBinding>, ps: seq<PropertyInfo>, env: Env): (r: Result<seq<MemberBinding>>)
    ensures r.Ok? ==> forall b :: b in r.value ==> b in bs || b.member in Names(ps)
    ensures r.Ok? && DistinctBindingNames(bs) ==> DistinctBindingNames(r.value)
    ensures r.Err? ==> (r.error.BindingFailed? &&
      exists i :: 0 <= i < |ps| && r.error.propertyName == ps[i].name && r.error.propertyType == ps[i].propertyType)
    decreases |ps|
  {
    if |ps| == 0 then Ok(bs)
    else
      match Step(bs, ps[0], env)
      case Err(e) => Err(e)
      case Ok(next) =>
        var r := Visit(next, ps[1..], env);
        assert forall i :: 0 <= i < |ps| - 1 ==> ps[1..][i] == ps[i + 1];
        assert Names(ps) == [ps[0].name] + Names(ps[1..]);
        assert DistinctBindingNames(bs) ==> DistinctBindingNames(next) by {
          if DistinctBindingNames(bs) && next != bs {
            var b :| Contribution(FindBinding(bs, ps[0].name), ps[0], env) == Ok(Some(b));
            DistinctAppend(RemoveFirst(bs, ps[0].name), b);
          }
        }
        r
  }

  lemma {:induction false} DistinctAppend(bs: seq<MemberBinding>, b: MemberBinding)
    requires DistinctBindingNames(bs)
    requires forall x :: x in bs ==> x.member != b.member
    ensures DistinctBindingNames(bs + [b])
    decreases |bs|
  {
    if |bs| > 0 {
      assert (bs + [b])[1..] == bs[1..] + [b];
      DistinctAppend(bs[1..], b);
    }
  }

  /** The starting point of the loop: the lambda parameter, the constructor call and
      the initial binding list, taken from the template when there is one. */
  datatype Initial = Initial(parameter: Parameter, newExpr: NewExpr, bindings: seq<MemberBinding>)

  function Initialize(c: MapperCall): (r: Result<Initial>)
    ensures r.Ok? ==> r.value.bindings == WithoutExcluded(TemplateBindings(c), ExcludedNames(c))
  {
    if c.baseMapper.Some? then
      match c.baseMapper.value.body
      case MemberInit(newExpr, bindings) =>
        Ok(Initial(c.baseMapper.value.parameter, newExpr, WithoutExcluded(bindings, ExcludedNames(c))))
      case New(newExpr) =>
        Ok(Initial(c.baseMapper.value.parameter, newExpr, []))
      case OtherBody(_) =>
        Err(InvalidTemplate)
    else if !c.result.hasParameterlessConstructor then
      Err(NoParameterlessConstructor(c.result.typeRef))
    else
      Ok(Initial(Parameter("x", c.source.typeRef), NewExpr(c.result.typeRef, []), []))
  }

  function EnvOf(c: MapperCall, parameter: Parameter, isAssignableFrom: Assignability): Env
  {
    Env(parameter, c.source.properties, c.userTryCatchForEachProperty, isAssignableFrom)
  }

  /** The value `ExpressionMapper` returns (`Ok(None)` stands for a null lambda), or the
      exception it throws. */
  function ExpressionMapperSpec(c: MapperCall, isAssignableFrom: Assignability): (r: Result<Option<Lambda>>)
    ensures c.useOnlyBaseMapper ==> r == Ok(c.baseMapper)
    ensures !c.useOnlyBaseMapper ==>
      (r == Err(InvalidTemplate) <==> c.baseMapper.Some? && c.baseMapper.value.body.OtherBody?)
    ensures !c.useOnlyBaseMapper ==>
      (r == Err(NoParameterlessConstructor(c.result.typeRef)) <==> c.baseMapper.None? && !c.result.hasParameterlessConstructor)
    ensures !c.useOnlyBaseMapper && r.Ok? ==>
      r.value.Some? && r.value.value.body.MemberInit? &&
      (c.baseMapper.Some? ==>
        r.value.value.parameter == c.baseMapper.value.parameter &&
        r.value.value.body.newExpr == c.baseMapper.value.body.newExpr) &&
      (c.baseMapper.None? ==>
        r.value.value.parameter == Parameter("x", c.source.typeRef) &&
        r.value.value.body.newExpr == NewExpr(c.result.typeRef, []))
  {
    if c.useOnlyBaseMapper then Ok(c.baseMapper)
    else
      match Initialize(c)
      case Err(e) => Err(e)
      case Ok(s) =>
        match Visit(s.bindings, VisibleProperties(c.result.properties, ExcludedNames(c)), EnvOf(c, s.parameter, isAssignableFrom))
        case Err(e) => Err(e)
        case Ok(bs) => Ok(Some(Lambda(s.parameter, MemberInit(s.newExpr, bs))))
  }

  /** The body of the `try` block for one result property: look up the existing
      binding, take it over or synthesise a read of the source property, wrap it and
      append the new binding; any failure is reported with the property's name and type. */
  method BindResultProperty(
    bindings: seq<MemberBinding>,
    resultProperty: PropertyInfo,
    parameterX: Parameter,
    sourceProperties: seq<PropertyInfo>,
    userTryCatchForEachProperty: bool,
    isAssignableFrom: Assignability)
    returns (r: Result<seq<MemberBinding>>)
    ensures r == Step(bindings, resultProperty, Env(parameterX, sourceProperties, userTryCatchForEachProperty, isAssignableFrom))
  {
    var existingBinding := FindBinding(bindings, resultProperty.name);
    var sourceExpression: Expr;
    var remaining := bindings;
    if existingBinding.Some? {
      if existingBinding.value.OtherBinding? {
        return Err(BindingFailed(resultProperty.name, resultProperty.propertyType, NotAMemberAssignment));
      }
      sourceExpression := existingBinding.value.expression;
      remaining := RemoveFirst(bindings, resultProperty.name);
    } else {
      var sourceProperty := FindSourceProperty(sourceProperties, resultProperty);
      if sourceProperty.None? {
        return Ok(bindings);
      }
      if !sourceProperty.value.canRead {
        return Err(BindingFailed(resultProperty.name, resultProperty.propertyType, NoGetter));
      }
      sourceExpression := Member(Param(parameterX), sourceProperty.value.name, sourceProperty.value.propertyType);
    }

    var t := MetadataType(resultProperty);
    var convertedAssignment := if t.isValueType then Unary(Convert, sourceExpression, resultProperty.propertyType)
                               else sourceExpression;
    var resultExpression: Expr;
    if userTryCatchForEachProperty {
      var exVariable := Parameter("ex", ExceptionType);
      resultExpression := TryCatch(convertedAssignment, exVariable, convertedAssignment);
    } else {
      resultExpression := convertedAssignment;
    }
    if !resultProperty.canWrite {
      return Err(BindingFailed(resultProperty.name, resultProperty.propertyType, NoSetter));
    }
    if !isAssignableFrom(resultProperty.propertyType, TypeOf(resultExpression)) {
      return Err(BindingFailed(resultProperty.name, resultProperty.propertyType, TypeMismatch(TypeOf(resultExpression))));
    }
    return Ok(remaining + [Assignment(resultProperty.name, resultExpression)]);
  }

  /** The `foreach` over the visited result properties, stopping at the first failure. */
  method BindResultProperties(
    initial: seq<MemberBinding>,
    resultProperties: seq<PropertyInfo>,
    parameterX: Parameter,
    sourceProperties: seq<PropertyInfo>,
    userTryCatchForEachProperty: bool,
    isAssignableFrom: Assignability)
    returns (r: Result<seq<MemberBinding>>)
    ensures r == Visit(initial, resultProperties, Env(parameterX, sourceProperties, userTryCatchForEachProperty, isAssignableFrom))
  {
    ghost var env := Env(parameterX, sourceProperties, userTryCatchForEachProperty, isAssignableFrom);
    var bindings := initial;
    var i := 0;
    while i < |resultProperties|
      invariant 0 <= i <= |resultProperties|
      invariant Visit(bindings, resultProperties[i..], env) == Visit(initial, resultProperties, env)
    {
      assert resultProperties[i..][0] == resultProperties[i] && resultProperties[i..][1..] == resultProperties[i + 1..];
      var next := BindResultProperty(bindings, resultProperties[i], parameterX, sourceProperties, userTryCatchForEachProperty, isAssignableFrom);
      if next.Err? {
        return Err(next.error);
      }
      bindings := next.value;
      i := i + 1;
    }
    return Ok(bindings);
  }

  /** `ReflectionHelper.ExpressionMapper<TSource, TResult>`. */
  method ExpressionMapper(
    source: TypeInfo,
    result: TypeInfo,
    baseMapper: Option<Lambda>,
    userTryCatchForEachProperty: bool,
    useOnlyBaseMapper: bool,
    excludedProperties: Option<seq<string>>,
    isAssignableFrom: Assignability)
    returns (r: Result<Option<Lambda>>)
    ensures r == ExpressionMapperSpec(
      MapperCall(source, result, baseMapper, userTryCatchForEachProperty, useOnlyBaseMapper, excludedProperties),
      isAssignableFrom)
  {
    ghost var c := MapperCall(source, result, baseMapper, userTryCatchForEachProperty, useOnlyBaseMapper, excludedProperties);
    if useOnlyBaseMapper {
      return Ok(baseMapper);
    }
    var excluded := if excludedProperties.Some? then excludedProperties.value else [];

    var parameterX: Parameter;
    var newExpression: NewExpr;
    var bindings: seq<MemberBinding>;
    if baseMapper.Some? {
      parameterX := baseMapper.value.parameter;
      match baseMapper.value.body {
        case MemberInit(initNew, initBindings) =>
          newExpression := initNew;
          bindings := WithoutExcluded(initBindings, excluded);
        case New(bareNew) =>
          newExpression := bareNew;
          bindings := [];
        case OtherBody(_) =>
          return Err(InvalidTemplate);
      }
    } else {
      parameterX := Parameter("x", source.typeRef);
      if !result.hasParameterlessConstructor {
        return Err(NoParameterlessConstructor(result.typeRef));
      }
      newExpression := NewExpr(result.typeRef, []);
      bindings := [];
    }

    var resultProperties := VisibleProperties(result.properties, excluded);
    assert Initialize(c) == Ok(Initial(parameterX, newExpression, bindings));
    var visited := BindResultProperties(bindings, resultProperties, parameterX, source.properties, userTryCatchForEachProperty, isAssignableFrom);
    if visited.Err? {
      return Err(visited.error);
    }
    bindings := visited.value;
    return Ok(Some(Lambda(parameterX, MemberInit(newExpression, bindings))));
  }
}
