/**
  What `ExpressionMapper` promises, proved about its fold `ExpressionMapperSpec`.

  The fold edits one binding list property by property. The reference below
  describes the outcome in closed form instead: every property's contribution is
  decided against the template bindings alone (`Contributions`), and the result is
  the template bindings no visited property claims (`Leftover`), in template order,
  followed by the contributions in result-property order. The two agree whenever the
  template binds each member at most once and the result type's property names are
  distinct, which is what the C# compiler and the CLR guarantee for ordinary types
  and object initialisers.
 */
module AutoMapperProperties {
  import opened Expressions
  import opened AutoMapper

  /** The contribution of `p` when it is decided against the bindings `bs`. */
  function ContributionFor(bs: seq<MemberBinding>, p: PropertyInfo, env: Env): Result<Option<MemberBinding>>
  {
    Contribution(FindBinding(bs, p.name), p, env)
  }

  /** The contributions of `ps`, in order, or the first failure among them. */
  function Contributions(bs: seq<MemberBinding>, ps: seq<PropertyInfo>, env: Env): Result<seq<MemberBinding>>
    decreases |ps|
  {
    if |ps| == 0 then Ok([])
    else
      match ContributionFor(bs, ps[0], env)
      case Err(e) => Err(e)
      case Ok(o) =>
        match Contributions(bs, ps[1..], env)
        case Err(e) => Err(e)
        case Ok(rest) => Ok((if o.Some? then [o.value] else []) + rest)
  }

  /** The bindings of `bs` whose member is not the name of a property in `ps`. */
  function Leftover(bs: seq<MemberBinding>, ps: seq<PropertyInfo>): seq<MemberBinding>
    decreases |bs|
  {
    if |bs| == 0 then []
    else (if bs[0].member in Names(ps) then [] else [bs[0]]) + Leftover(bs[1..], ps)
  }

  /** `left` followed by the contributions, or the failure. */
  function Assemble(left: seq<MemberBinding>, contributions: Result<seq<MemberBinding>>): Result<seq<MemberBinding>>
  {
    match contributions
    case Err(e) => Err(e)
    case Ok(a) => Ok(left + a)
  }

  // ---------------------------------------------------------------------------
  // Helper facts about the list operations.

  lemma {:induction false} LeftoverAppend(a: seq<MemberBinding>, b: seq<MemberBinding>, ps: seq<PropertyInfo>)
    ensures Leftover(a + b, ps) == Leftover(a, ps) + Leftover(b, ps)
    decreases |a|
  {
    if |a| > 0 {
      assert (a + b)[0] == a[0] && (a + b)[1..] == a[1..] + b;
      LeftoverAppend(a[1..], b, ps);
    } else {
      assert a + b == b;
    }
  }

  lemma {:induction false} LeftoverMembers(bs: seq<MemberBinding>, ps: seq<PropertyInfo>)
    ensures forall b :: b in Leftover(bs, ps) ==> b in bs && b.member !in Names(ps)
    decreases |bs|
  {
    if |bs| > 0 {
      LeftoverMembers(bs[1..], ps);
    }
  }

  /** Dropping the first property does not change the leftover when no binding names it. */
  lemma {:induction false} LeftoverWithoutUnboundName(bs: seq<MemberBinding>, ps: seq<PropertyInfo>)
    requires |ps| > 0
    requires forall b :: b in bs ==> b.member != ps[0].name
    ensures Leftover(bs, ps[1..]) == Leftover(bs, ps)
    decreases |bs|
  {
    assert Names(ps) == [ps[0].name] + Names(ps[1..]);
    if |bs| > 0 {
      LeftoverWithoutUnboundName(bs[1..], ps);
    }
  }

  /** Removing the only binding of the first property's name and leaving that property
      out of the visited list gives the same leftover. */
  lemma {:induction false} LeftoverAfterRemoveFirst(bs: seq<MemberBinding>, ps: seq<PropertyInfo>)
    requires |ps| > 0
    requires DistinctBindingNames(bs)
    ensures Leftover(RemoveFirst(bs, ps[0].name), ps[1..]) == Leftover(bs, ps)
    decreases |bs|
  {
    var n := ps[0].name;
    assert Names(ps) == [n] + Names(ps[1..]);
    if |bs| > 0 {
      if bs[0].member == n {
        LeftoverWithoutUnboundName(bs[1..], ps);
      } else {
        var rest := RemoveFirst(bs[1..], n);
        assert RemoveFirst(bs, n) == [bs[0]] + rest;
        LeftoverAppend([bs[0]], rest, ps[1..]);
        LeftoverAfterRemoveFirst(bs[1..], ps);
      }
    }
  }

  lemma {:induction false} FindBindingInDistinct(bs: seq<MemberBinding>, b: MemberBinding)
    requires DistinctBindingNames(bs) && b in bs
    ensures FindBinding(bs, b.member) == Some(b)
    decreases |bs|
  {
    if bs[0] != b {
      FindBindingInDistinct(bs[1..], b);
    }
  }

  lemma {:induction false} DistinctSameMember(bs: seq<MemberBinding>, x: MemberBinding, y: MemberBinding)
    requires DistinctBindingNames(bs) && x in bs && y in bs && x.member == y.member
    ensures x == y
    decreases |bs|
  {
    if x != bs[0] && y != bs[0] {
      DistinctSameMember(bs[1..], x, y);
    }
  }

  lemma {:induction false} FindBindingAfterRemoveFirst(bs: seq<MemberBinding>, m: string, n: string)
    requires m != n
    ensures FindBinding(RemoveFirst(bs, m), n) == FindBinding(bs, n)
    decreases |bs|
  {
    if |bs| > 0 && bs[0].member != m {
      FindBindingAfterRemoveFirst(bs[1..], m, n);
      assert RemoveFirst(bs, m) == [bs[0]] + RemoveFirst(bs[1..], m);
    }
  }

  lemma {:induction false} FindBindingAfterAppend(bs: seq<MemberBinding>, b: MemberBinding, n: string)
    requires b.member != n
    ensures FindBinding(bs + [b], n) == FindBinding(bs, n)
    decreases |bs|
  {
    if |bs| == 0 {
      assert bs + [b] == [b];
      assert [b][1..] == [];
    } else {
      assert (bs + [b])[1..] == bs[1..] + [b];
      FindBindingAfterAppend(bs[1..], b, n);
    }
  }

  /** Contributions are decided by the bindings found for the visited names alone. */
  lemma {:induction false} ContributionsAgree(bs1: seq<MemberBinding>, bs2: seq<MemberBinding>, ps: seq<PropertyInfo>, env: Env)
    requires forall i :: 0 <= i < |ps| ==> FindBinding(bs1, ps[i].name) == FindBinding(bs2, ps[i].name)
    ensures Contributions(bs1, ps, env) == Contributions(bs2, ps, env)
    decreases |ps|
  {
    if |ps| > 0 {
      assert forall i :: 0 <= i < |ps| - 1 ==> ps[1..][i] == ps[i + 1];
      ContributionsAgree(bs1, bs2, ps[1..], env);
    }
  }

  // ---------------------------------------------------------------------------
  // The fold equals the reference.

  /** With distinct names, the property-by-property list editing yields the leftover
      bindings followed by the contributions, or the first contribution's failure. */
  lemma {:induction false} VisitMatchesReference(bs: seq<MemberBinding>, ps: seq<PropertyInfo>, env: Env)
    requires DistinctBindingNames(bs)
    requires DistinctPropertyNames(ps)
    ensures Visit(bs, ps, env) == Assemble(Leftover(bs, ps), Contributions(bs, ps, env))
    decreases |ps|, 1
  {
    if |ps| == 0 {
      LeftoverAllKept(bs, ps);
      assert bs + [] == bs;
    } else {
      match ContributionFor(bs, ps[0], env)
      case Err(e) =>
      case Ok(None) => VisitSkipsProperty(bs, ps, env);
      case Ok(Some(b)) => VisitTakesOverProperty(bs, ps, env, b);
    }
  }

  /** The step for a property that contributes nothing. */
  lemma {:induction false} VisitSkipsProperty(bs: seq<MemberBinding>, ps: seq<PropertyInfo>, env: Env)
    requires DistinctBindingNames(bs) && DistinctPropertyNames(ps)
    requires |ps| > 0 && ContributionFor(bs, ps[0], env) == Ok(None)
    ensures Visit(bs, ps, env) == Assemble(Leftover(bs, ps), Contributions(bs, ps, env))
    decreases |ps|, 0
  {
    var p, tail := ps[0], ps[1..];
    assert FindBinding(bs, p.name).None?;
    LeftoverWithoutUnboundName(bs, ps);
    VisitMatchesReference(bs, tail, env);
    assert Step(bs, p, env) == Ok(bs);
    assert Visit(bs, ps, env) == Visit(bs, tail, env);
    if Contributions(bs, tail, env).Ok? {
      var rest := Contributions(bs, tail, env).value;
      assert Contributions(bs, ps, env) == Ok([] + rest);
      assert [] + rest == rest;
    }
  }

  /** The step for a property that contributes the binding `b`. */
  lemma {:induction false} VisitTakesOverProperty(bs: seq<MemberBinding>, ps: seq<PropertyInfo>, env: Env, b: MemberBinding)
    requires DistinctBindingNames(bs) && DistinctPropertyNames(ps)
    requires |ps| > 0 && ContributionFor(bs, ps[0], env) == Ok(Some(b))
    ensures Visit(bs, ps, env) == Assemble(Leftover(bs, ps), Contributions(bs, ps, env))
    decreases |ps|, 0
  {
    var tail := ps[1..];
    var next := RemoveFirst(bs, ps[0].name) + [b];
    StepTakesOver(bs, ps, env, b);
    NextBindingsAgree(bs, ps, b);
    ContributionsAgree(next, bs, tail, env);
    VisitMatchesReference(next, tail, env);
    LeftoverAfterTakeOver(bs, ps, b);
    AssembleAssociates(Leftover(bs, ps), b, Contributions(bs, tail, env));
  }

  lemma AssembleAssociates(left: seq<MemberBinding>, b: MemberBinding, r: Result<seq<MemberBinding>>)
    ensures Assemble(left + [b], r) == Assemble(left, Assemble([b], r))
  {
    if r.Ok? {
      assert left + [b] + r.value == left + ([b] + r.value);
    }
  }

  /** Unfolding one take-over step of the fold and of the reference. */
  lemma StepTakesOver(bs: seq<MemberBinding>, ps: seq<PropertyInfo>, env: Env, b: MemberBinding)
    requires DistinctBindingNames(bs) && DistinctPropertyNames(ps)
    requires |ps| > 0 && ContributionFor(bs, ps[0], env) == Ok(Some(b))
    ensures b.member == ps[0].name
    ensures DistinctBindingNames(RemoveFirst(bs, ps[0].name) + [b]) && DistinctPropertyNames(ps[1..])
    ensures Visit(bs, ps, env) == Visit(RemoveFirst(bs, ps[0].name) + [b], ps[1..], env)
    ensures Contributions(bs, ps, env) == Assemble([b], Contributions(bs, ps[1..], env))
  {
    DistinctAppend(RemoveFirst(bs, ps[0].name), b);
    assert Step(bs, ps[0], env) == Ok(RemoveFirst(bs, ps[0].name) + [b]);
  }

  lemma LeftoverAfterTakeOver(bs: seq<MemberBinding>, ps: seq<PropertyInfo>, b: MemberBinding)
    requires DistinctBindingNames(bs) && DistinctPropertyNames(ps) && |ps| > 0 && b.member == ps[0].name
    ensures Leftover(RemoveFirst(bs, ps[0].name) + [b], ps[1..]) == Leftover(bs, ps) + [b]
  {
    var tail := ps[1..];
    LeftoverAppend(RemoveFirst(bs, ps[0].name), [b], tail);
    assert b.member !in Names(tail);
    assert Leftover([b], tail) == [b] + Leftover([b][1..], tail);
    assert [b][1..] == [];
    LeftoverAfterRemoveFirst(bs, ps);
  }

  /** Taking over the first property's binding does not change what the later
      properties find. */
  lemma NextBindingsAgree(bs: seq<MemberBinding>, ps: seq<PropertyInfo>, b: MemberBinding)
    requires DistinctPropertyNames(ps) && |ps| > 0 && b.member == ps[0].name
    ensures forall i :: 0 <= i < |ps| - 1 ==>
      FindBinding(RemoveFirst(bs, ps[0].name) + [b], ps[1..][i].name) == FindBinding(bs, ps[1..][i].name)
  {
    var tail := ps[1..];
    forall i | 0 <= i < |tail|
      ensures FindBinding(RemoveFirst(bs, ps[0].name) + [b], tail[i].name) == FindBinding(bs, tail[i].name)
    {
      assert tail[i] in tail;
      FindBindingAfterAppend(RemoveFirst(bs, ps[0].name), b, tail[i].name);
      FindBindingAfterRemoveFirst(bs, ps[0].name, tail[i].name);
    }
  }

  lemma {:induction false} LeftoverAllKept(bs: seq<MemberBinding>, ps: seq<PropertyInfo>)
    requires |ps| == 0
    ensures Leftover(bs, ps) == bs
    decreases |bs|
  {
    if |bs| > 0 {
      LeftoverAllKept(bs[1..], ps);
    }
  }

  /** The contributions of a successful run: every visited property's contribution
      succeeded, and a binding of a visited property's name is among them exactly
      when it is that property's contribution. */
  lemma {:induction false} ContributionsContents(bs: seq<MemberBinding>, ps: seq<PropertyInfo>, env: Env, a: seq<MemberBinding>, i: int)
    requires DistinctPropertyNames(ps)
    requires Contributions(bs, ps, env) == Ok(a)
    requires 0 <= i < |ps|
    ensures ContributionFor(bs, ps[i], env).Ok?
    ensures forall b :: b in a && b.member == ps[i].name <==> ContributionFor(bs, ps[i], env) == Ok(Some(b))
    decreases |ps|
  {
    var o := ContributionFor(bs, ps[0], env).value;
    var rest := Contributions(bs, ps[1..], env).value;
    assert a == (if o.Some? then [o.value] else []) + rest;
    assert forall j :: 0 <= j < |ps| - 1 ==> ps[1..][j] == ps[j + 1];
    if i == 0 {
      forall b | b in rest && b.member == ps[0].name
        ensures false
      {
        ContributionsNamed(bs, ps[1..], env, rest, b);
      }
    } else {
      ContributionsContents(bs, ps[1..], env, rest, i - 1);
      assert ps[i] in ps[1..];
    }
  }

  lemma {:induction false} ContributionsNamed(bs: seq<MemberBinding>, ps: seq<PropertyInfo>, env: Env, a: seq<MemberBinding>, b: MemberBinding)
    requires Contributions(bs, ps, env) == Ok(a)
    requires b in a
    ensures exists p :: p in ps && b.member == p.name
    decreases |ps|
  {
    var o := ContributionFor(bs, ps[0], env).value;
    var rest := Contributions(bs, ps[1..], env).value;
    if b in rest {
      ContributionsNamed(bs, ps[1..], env, rest, b);
    } else {
      assert ps[0] in ps;
    }
  }

  /** A run whose contributions include a failure fails. */
  lemma {:induction false} ContributionsFail(bs: seq<MemberBinding>, ps: seq<PropertyInfo>, env: Env, p: PropertyInfo)
    requires p in ps && ContributionFor(bs, p, env).Err?
    ensures Contributions(bs, ps, env).Err?
    decreases |ps|
  {
    ContributionsErr(bs, ps, env);
    if ps[0] != p {
      assert ps == [ps[0]] + ps[1..];
      ContributionsFail(bs, ps[1..], env, p);
    }
  }

  /** A run fails exactly when its first contribution or the rest of the run fails. */
  lemma ContributionsErr(bs: seq<MemberBinding>, ps: seq<PropertyInfo>, env: Env)
    requires |ps| > 0
    ensures Contributions(bs, ps, env).Err? <==>
      ContributionFor(bs, ps[0], env).Err? || Contributions(bs, ps[1..], env).Err?
  {
  }

  /** In a successful run, the bindings of a visited property's name are exactly its
      contribution: the leftover template bindings never carry that name. */
  lemma BindingsOfVisited(bs: seq<MemberBinding>, ps: seq<PropertyInfo>, env: Env, a: seq<MemberBinding>, i: int, result: seq<MemberBinding>)
    requires DistinctPropertyNames(ps)
    requires Contributions(bs, ps, env) == Ok(a)
    requires 0 <= i < |ps|
    requires result == Leftover(bs, ps) + a
    ensures ContributionFor(bs, ps[i], env).Ok?
    ensures forall b :: b in result && b.member == ps[i].name <==> ContributionFor(bs, ps[i], env) == Ok(Some(b))
  {
    ContributionsContents(bs, ps, env, a, i);
    LeftoverMembers(bs, ps);
    assert Names(ps)[i] == ps[i].name;
  }

  /** A property that no binding names and that has a source property contributes,
      when it succeeds, a read of that source property. */
  lemma SynthesisedContribution(bs: seq<MemberBinding>, p: PropertyInfo, env: Env, sp: PropertyInfo)
    requires forall b :: b in bs ==> b.member != p.name
    requires FindSourceProperty(env.sourceProperties, p) == Some(sp)
    ensures sp.name == p.name
    ensures ContributionFor(bs, p, env).Ok? ==>
      ContributionFor(bs, p, env) == Ok(Some(Assignment(p.name, Wrap(Member(Param(env.parameter), p.name, sp.propertyType), p, env.userTryCatchForEachProperty))))
  {
    assert FindBinding(bs, p.name).None?;
  }

  // ---------------------------------------------------------------------------
  // The properties of `ExpressionMapperSpec`.

  /** The bindings the mapper starts from and the properties it visits. */
  function StartBindings(c: MapperCall): seq<MemberBinding>
  {
    WithoutExcluded(TemplateBindings(c), ExcludedNames(c))
  }

  function VisitedProperties(c: MapperCall): seq<PropertyInfo>
  {
    VisibleProperties(c.result.properties, ExcludedNames(c))
  }

  /** Ordering: the result's bindings are the template bindings for members that are
      not visited result properties, in template order, followed by one binding per
      visited property that has one, in the order of the result property list; a failure is that of the
      first visited property whose binding cannot be built. */
  lemma MapperMatchesReference(c: MapperCall, f: Assignability)
    requires !c.useOnlyBaseMapper && Initialize(c).Ok?
    requires DistinctBindingNames(TemplateBindings(c)) && DistinctPropertyNames(c.result.properties)
    ensures
      var s := Initialize(c).value;
      match Assemble(Leftover(StartBindings(c), VisitedProperties(c)),
                     Contributions(StartBindings(c), VisitedProperties(c), EnvOf(c, s.parameter, f)))
      case Err(e) => ExpressionMapperSpec(c, f) == Err(e)
      case Ok(bs) => ExpressionMapperSpec(c, f) == Ok(Some(Lambda(s.parameter, MemberInit(s.newExpr, bs))))
  {
    var s := Initialize(c).value;
    VisitMatchesReference(StartBindings(c), VisitedProperties(c), EnvOf(c, s.parameter, f));
  }

  /** Exclusions: no binding of the result targets an excluded name, whether it came
      from the template or was synthesised. */
  lemma NoExcludedBinding(c: MapperCall, f: Assignability, l: Lambda)
    requires !c.useOnlyBaseMapper
    requires ExpressionMapperSpec(c, f) == Ok(Some(l))
    ensures l.body.MemberInit?
    ensures forall b :: b in l.body.bindings ==> b.member !in ExcludedNames(c)
  {
    var s := Initialize(c).value;
    var V := VisitedProperties(c);
    forall b | b in l.body.bindings
      ensures b.member !in ExcludedNames(c)
    {
      if b.member in Names(V) {
        var i :| 0 <= i < |V| && Names(V)[i] == b.member;
        assert V[i] in V;
      }
    }
  }

  /** Uniqueness: when the template binds each member at most once, so does the result. */
  lemma AtMostOneBindingPerMember(c: MapperCall, f: Assignability, l: Lambda)
    requires !c.useOnlyBaseMapper
    requires DistinctBindingNames(TemplateBindings(c))
    requires ExpressionMapperSpec(c, f) == Ok(Some(l))
    ensures l.body.MemberInit? && DistinctBindingNames(l.body.bindings)
  {
  }

  /** Template precedence: a template assignment for a visited property survives with
      its own expression (wrapped when asked for) and is the only binding of that name. */
  lemma TemplateBindingKept(c: MapperCall, f: Assignability, l: Lambda, p: PropertyInfo, e: Expr)
    requires !c.useOnlyBaseMapper
    requires DistinctBindingNames(TemplateBindings(c)) && DistinctPropertyNames(c.result.properties)
    requires p in c.result.properties && p.name !in ExcludedNames(c)
    requires Assignment(p.name, e) in TemplateBindings(c)
    requires ExpressionMapperSpec(c, f) == Ok(Some(l))
    ensures l.body.MemberInit?
    ensures Assignment(p.name, Wrap(e, p, c.userTryCatchForEachProperty)) in l.body.bindings
    ensures forall b :: b in l.body.bindings && b.member == p.name ==>
      b == Assignment(p.name, Wrap(e, p, c.userTryCatchForEachProperty))
  {
    var s := Initialize(c).value;
    var T := StartBindings(c);
    var V := VisitedProperties(c);
    var env := EnvOf(c, s.parameter, f);
    MapperMatchesReference(c, f);
    FindBindingInDistinct(T, Assignment(p.name, e));
    var a := Contributions(T, V, env).value;
    var i :| 0 <= i < |V| && V[i] == p;
    ContributionsContents(T, V, env, a, i);
    var b0 := Assignment(p.name, Wrap(e, p, c.userTryCatchForEachProperty));
    assert b0 in a;
    LeftoverMembers(T, V);
    assert Names(V)[i] == p.name;
    forall b | b in l.body.bindings && b.member == p.name
      ensures b == b0
    {
      assert b !in Leftover(T, V);
    }
  }

  /** Synthesis: a visited property that the template does not bind, with a readable
      source property of the same name (whatever its type), gets exactly one binding,
      a read of that property on the lambda's parameter. */
  lemma SourcePropertyBound(c: MapperCall, f: Assignability, l: Lambda, p: PropertyInfo, sp: PropertyInfo)
    requires !c.useOnlyBaseMapper
    requires DistinctBindingNames(TemplateBindings(c)) && DistinctPropertyNames(c.result.properties)
    requires p in c.result.properties && p.name !in ExcludedNames(c)
    requires forall b :: b in TemplateBindings(c) ==> b.member != p.name
    requires FindSourceProperty(c.source.properties, p) == Some(sp)
    requires ExpressionMapperSpec(c, f) == Ok(Some(l))
    ensures l.body.MemberInit?
    ensures sp.name == p.name
    ensures forall b :: b in l.body.bindings && b.member == p.name <==>
      b == Assignment(p.name, Wrap(Member(Param(l.parameter), p.name, sp.propertyType), p, c.userTryCatchForEachProperty))
  {
    var s := Initialize(c).value;
    var T := StartBindings(c);
    var V := VisitedProperties(c);
    var env := EnvOf(c, s.parameter, f);
    MapperMatchesReference(c, f);
    var a := Contributions(T, V, env).value;
    var i :| 0 <= i < |V| && V[i] == p;
    BindingsOfVisited(T, V, env, a, i, l.body.bindings);
    SynthesisedContribution(T, p, env, sp);
  }

  /** A visited property that neither the template nor the source type has gets no binding. */
  lemma UnmatchedPropertyUnbound(c: MapperCall, f: Assignability, l: Lambda, p: PropertyInfo)
    requires !c.useOnlyBaseMapper
    requires DistinctBindingNames(TemplateBindings(c)) && DistinctPropertyNames(c.result.properties)
    requires p in c.result.properties && p.name !in ExcludedNames(c)
    requires forall b :: b in TemplateBindings(c) ==> b.member != p.name
    requires p.name !in Names(c.source.properties)
    requires ExpressionMapperSpec(c, f) == Ok(Some(l))
    ensures l.body.MemberInit?
    ensures forall b :: b in l.body.bindings ==> b.member != p.name
  {
    var s := Initialize(c).value;
    var T := StartBindings(c);
    var V := VisitedProperties(c);
    var env := EnvOf(c, s.parameter, f);
    MapperMatchesReference(c, f);
    var a := Contributions(T, V, env).value;
    var i :| 0 <= i < |V| && V[i] == p;
    ContributionsContents(T, V, env, a, i);
    LeftoverMembers(T, V);
    assert Names(V)[i] == p.name;
  }

  /** Errors: a binding failure names a visited property and its declared type. */
  lemma BindingFailureNamesProperty(c: MapperCall, f: Assignability)
    requires ExpressionMapperSpec(c, f).Err?
    requires ExpressionMapperSpec(c, f).error.BindingFailed?
    ensures var e := ExpressionMapperSpec(c, f).error;
      exists p :: p in c.result.properties && p.name !in ExcludedNames(c) &&
        e.propertyName == p.name && e.propertyType == p.propertyType
  {
    var V := VisitedProperties(c);
    var e := ExpressionMapperSpec(c, f).error;
    var i :| 0 <= i < |V| && e.propertyName == V[i].name && e.propertyType == V[i].propertyType;
    assert V[i] in V;
  }

  /** Errors: one visited property whose binding cannot be built makes the whole call
      fail; no partial lambda is returned. */
  lemma FailingPropertyAborts(c: MapperCall, f: Assignability, p: PropertyInfo)
    requires !c.useOnlyBaseMapper && Initialize(c).Ok?
    requires DistinctBindingNames(TemplateBindings(c)) && DistinctPropertyNames(c.result.properties)
    requires p in c.result.properties && p.name !in ExcludedNames(c)
    requires ContributionFor(StartBindings(c), p, EnvOf(c, Initialize(c).value.parameter, f)).Err?
    ensures ExpressionMapperSpec(c, f).Err? && ExpressionMapperSpec(c, f).error.BindingFailed?
  {
    var s := Initialize(c).value;
    ContributionsFail(StartBindings(c), VisitedProperties(c), EnvOf(c, s.parameter, f), p);
    MapperMatchesReference(c, f);
  }
}
