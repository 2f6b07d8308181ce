/**
  Worked calls of `ExpressionMapper` on small types, with `Type.IsAssignableFrom`
  taken as type equality (enough for the sealed types used here).
 */
module AutoMapperScenarios {
  import opened Expressions
  import opened AutoMapper

  const Int := TypeRef("System.Int32", true)
  const Str := TypeRef("System.String", false)
  const Dec := TypeRef("System.Decimal", true)

  function SameType(target: TypeRef, actual: TypeRef): bool { target == actual }

  function Prop(name: string, t: TypeRef): PropertyInfo { PropertyInfo(name, t, true, true) }

  /** Without a template, `Id` and `Name` are read off a fresh parameter `x`, in the
      result type's order; the source's extra `Age` is ignored. */
  lemma SameNamedPropertiesAreCopied()
    ensures
      var source := TypeInfo(TypeRef("Person", false), [Prop("Id", Int), Prop("Name", Str), Prop("Age", Int)], true);
      var result := TypeInfo(TypeRef("PersonView", false), [Prop("Id", Int), Prop("Name", Str)], true);
      var x := Parameter("x", source.typeRef);
      ExpressionMapperSpec(MapperCall(source, result, None, false, false, None), SameType) ==
        Ok(Some(Lambda(x, MemberInit(NewExpr(result.typeRef, []), [
          Assignment("Id", Member(Param(x), "Id", Int)),
          Assignment("Name", Member(Param(x), "Name", Str))]))))
  {
    var c := PersonViewCall();
    var x := Parameter("x", c.source.typeRef);
    var env := EnvOf(c, x, SameType);
    var ps := c.result.properties;
    assert ps[1..][1..] == [] && VisibleProperties(ps[1..], []) == ps[1..];
    assert VisibleProperties(ps, []) == ps;
    var b1 := Assignment("Id", Member(Param(x), "Id", Int));
    var b2 := Assignment("Name", Member(Param(x), "Name", Str));
    PersonViewIdStep();
    PersonViewNameStep();
    assert ps[1..][0] == ps[1] && ps[1..][1..] == [];
    assert Visit([b1, b2], ps[1..][1..], env) == Ok([b1, b2]);
    assert Visit([b1], ps[1..], env) == Ok([b1, b2]);
    assert Visit([], ps, env) == Ok([b1, b2]);
  }

  function PersonViewCall(): MapperCall
  {
    var source := TypeInfo(TypeRef("Person", false), [Prop("Id", Int), Prop("Name", Str), Prop("Age", Int)], true);
    var result := TypeInfo(TypeRef("PersonView", false), [Prop("Id", Int), Prop("Name", Str)], true);
    MapperCall(source, result, None, false, false, None)
  }

  /** The first step of that call synthesises the binding of `Id`. */
  lemma PersonViewIdStep()
    ensures
      var c := PersonViewCall();
      var x := Parameter("x", c.source.typeRef);
      Step([], c.result.properties[0], EnvOf(c, x, SameType)) == Ok([Assignment("Id", Member(Param(x), "Id", Int))])
  {
    var c := PersonViewCall();
    var x := Parameter("x", c.source.typeRef);
    var env := EnvOf(c, x, SameType);
    var ps := c.result.properties;
    var b1 := Assignment("Id", Member(Param(x), "Id", Int));
    assert FindBinding([], ps[0].name) == None;
    assert RemoveFirst([], ps[0].name) + [b1] == [b1];
    assert FindSourceProperty(c.source.properties, ps[0]) == Some(c.source.properties[0]);
    assert Bound(ps[0], Member(Param(x), "Id", Int), env) == Ok(Some(b1));
    assert Contribution(None, ps[0], env) == Ok(Some(b1));
  }

  /** The second step appends the binding of `Name` after that of `Id`. */
  lemma PersonViewNameStep()
    ensures
      var c := PersonViewCall();
      var x := Parameter("x", c.source.typeRef);
      var b1 := Assignment("Id", Member(Param(x), "Id", Int));
      Step([b1], c.result.properties[1], EnvOf(c, x, SameType)) == Ok([b1, Assignment("Name", Member(Param(x), "Name", Str))])
  {
    var c := PersonViewCall();
    var x := Parameter("x", c.source.typeRef);
    var env := EnvOf(c, x, SameType);
    var ps := c.result.properties;
    var b1 := Assignment("Id", Member(Param(x), "Id", Int));
    var b2 := Assignment("Name", Member(Param(x), "Name", Str));
    assert FindSourceProperty(c.source.properties[1..], ps[1]) == Some(c.source.properties[1]);
    assert FindSourceProperty(c.source.properties, ps[1]) == Some(c.source.properties[1]);
    assert Bound(ps[1], Member(Param(x), "Name", Str), env) == Ok(Some(b2));
    assert Contribution(None, ps[1], env) == Ok(Some(b2));
    assert FindBinding([b1], ps[1].name) == None;
    assert RemoveFirst([b1], ps[1].name) == [b1];
    assert [b1] + [b2] == [b1, b2];
  }

  /** A same-named property of another type is matched all the same, and since no
      conversion is added, binding `int Total` to `decimal Total` fails in
      `Expression.Bind`, reported with the property's name and type. */
  lemma DifferentlyTypedPropertyFails()
    ensures
      var source := TypeInfo(TypeRef("Order", false), [Prop("Id", Int), Prop("Total", Int)], true);
      var result := TypeInfo(TypeRef("OrderView", false), [Prop("Id", Int), Prop("Total", Dec)], true);
      ExpressionMapperSpec(MapperCall(source, result, None, false, false, None), SameType) ==
        Err(BindingFailed("Total", Dec, TypeMismatch(Int)))
  {
    var source := TypeInfo(TypeRef("Order", false), [Prop("Id", Int), Prop("Total", Int)], true);
    var result := TypeInfo(TypeRef("OrderView", false), [Prop("Id", Int), Prop("Total", Dec)], true);
    var c := MapperCall(source, result, None, false, false, None);
    var x := Parameter("x", source.typeRef);
    var env := EnvOf(c, x, SameType);
    var ps := result.properties;
    assert ps[1..][1..] == [] && VisibleProperties(ps[1..], []) == ps[1..];
    assert VisibleProperties(ps, []) == ps;
    var b1 := Assignment("Id", Member(Param(x), "Id", Int));
    assert FindBinding([], ps[0].name) == None;
    assert RemoveFirst([], ps[0].name) + [b1] == [b1];
    assert FindSourceProperty(source.properties, ps[0]) == Some(source.properties[0]);
    assert Bound(ps[0], Member(Param(x), "Id", Int), env) == Ok(Some(b1));
    assert Contribution(None, ps[0], env) == Ok(Some(b1));
    assert Step([], ps[0], env) == Ok([b1]);
    assert FindBinding([b1], ps[1].name) == None;
    assert FindSourceProperty(source.properties[1..], ps[1]) == Some(source.properties[1]);
    assert FindSourceProperty(source.properties, ps[1]) == Some(source.properties[1]);
    assert Contribution(None, ps[1], env) == Err(BindingFailed("Total", Dec, TypeMismatch(Int)));
    assert Step([b1], ps[1], env) == Err(BindingFailed("Total", Dec, TypeMismatch(Int)));
    assert ps[1..][0] == ps[1];
    assert Visit([b1], ps[1..], env) == Err(BindingFailed("Total", Dec, TypeMismatch(Int)));
  }

  /** A template binding for `FullName` is kept as written (wrapped in the try/catch
      that was asked for); the excluded `Age` is bound neither from the template nor
      from the source. */
  lemma TemplateAndExclusion()
    ensures
      var source := TypeInfo(TypeRef("Person", false), [Prop("First", Str), Prop("Last", Str), Prop("Age", Int)], true);
      var result := TypeInfo(TypeRef("PersonView", false), [Prop("FullName", Str), Prop("Age", Int)], true);
      var x := Parameter("p", source.typeRef);
      var custom := Opaque("(p.First + p.Last)", Str);
      var template := Lambda(x, MemberInit(NewExpr(result.typeRef, []), [Assignment("FullName", custom), Assignment("Age", Member(Param(x), "Age", Int))]));
      ExpressionMapperSpec(MapperCall(source, result, Some(template), true, false, Some(["Age"])), SameType) ==
        Ok(Some(Lambda(x, MemberInit(NewExpr(result.typeRef, []), [
          Assignment("FullName", TryCatch(custom, ExceptionVariable, custom))]))))
  {
    var source := TypeInfo(TypeRef("Person", false), [Prop("First", Str), Prop("Last", Str), Prop("Age", Int)], true);
    var result := TypeInfo(TypeRef("PersonView", false), [Prop("FullName", Str), Prop("Age", Int)], true);
    var x := Parameter("p", source.typeRef);
    var custom := Opaque("(p.First + p.Last)", Str);
    var kept := Assignment("FullName", custom);
    var template := Lambda(x, MemberInit(NewExpr(result.typeRef, []), [kept, Assignment("Age", Member(Param(x), "Age", Int))]));
    var c := MapperCall(source, result, Some(template), true, false, Some(["Age"]));
    var env := EnvOf(c, x, SameType);
    var ps := result.properties;
    var bs := template.body.bindings;
    assert bs[1..][1..] == [];
    assert WithoutExcluded(bs[1..], ["Age"]) == [];
    assert WithoutExcluded(bs, ["Age"]) == [kept];
    assert ps[1..][1..] == [];
    assert VisibleProperties(ps[1..], ["Age"]) == [];
    assert VisibleProperties(ps, ["Age"]) == [ps[0]];
    var b := Assignment("FullName", TryCatch(custom, ExceptionVariable, custom));
    assert FindBinding([kept], ps[0].name) == Some(kept);
    assert RemoveFirst([kept], ps[0].name) + [b] == [b];
    assert Bound(ps[0], custom, env) == Ok(Some(b));
    assert Contribution(Some(kept), ps[0], env) == Ok(Some(b));
    assert Step([kept], ps[0], env) == Ok([b]);
    assert Visit([kept], [ps[0]], env) == Ok([b]);
  }
}
