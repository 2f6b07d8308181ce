# ReflectionHelper in Dafny

A model of `Helpers.ReflectionHelper` from the AutoMapper helper library. It covers three parts.

- **`ExpressionMapper<TSource, TResult>`** builds the expression tree of a lambda
  `x => new TResult(...) { P1 = ..., P2 = ... }`. That lambda copies every public
  property of `TResult` from the same-named property of `TSource`. The caller may pass
  a template lambda: the template's constructor call is kept, and so are its own member
  assignments. The caller may also exclude property names, wrap each assignment in a
  try/catch, or ask for the template alone.
- **`GetPropertyName` / `GetLastPropertyName`** take a selector lambda such as
  `x => x.Address.Zip` and return a property name.
- **`CopyPropertiesTo` / `CopyPropertiesOfInstanceTypesTo`** copy property values
  between two objects through reflection.

## Files

- `expressions.dfy` (module `Expressions`) holds the reflection and expression-tree
  vocabulary as plain data:
  - types, property descriptors, expression nodes, member bindings and lambdas;
  - `MetadataType`, the type of a `PropertyInfo` object itself.
- `property_names.dfy` (module `PropertyNames`) holds the name extraction.
  - A selector body is given two ways: its shape, as an `Expr`, and its
    `Expression.ToString()` text, as a string.
  - `MemberChain` and `Render` describe how .NET renders a member chain, so the module
    can prove what each overload returns for `x.P0. ... .Pn`.
- `auto_mapper.dfy` (module `AutoMapper`) holds the mapper.
  - `ExpressionMapper` is the imperative method. It edits the binding list inside the
    loop over result properties, and its two helpers carry the try body
    (`BindResultProperty`) and the loop (`BindResultProperties`).
  - Each method is proved equal to a specification function: `ExpressionMapperSpec`,
    `Step` and `Visit`.
  - With `useOnlyBaseMapper`, the template is returned as it is; when there is none,
    that is null, written `Ok(None)`.
  - Every exception the model represents is an `Err` value, namely:
    - an invalid template;
    - a missing parameterless constructor;
    - a binding failure, tagged with the property's name and type.
- `auto_mapper_properties.dfy` (module `AutoMapperProperties`) holds the properties of
  the mapper.
  - A reference definition (`Leftover`, `Contributions`, `Assemble`) says which bindings
    come out and in what order.
  - `VisitMatchesReference` proves that the list editing agrees with it.
  - The lemmas about exclusions, template precedence, synthesis, uniqueness and errors
    follow from that.
- `auto_mapper_scenarios.dfy` (module `AutoMapperScenarios`) works through three
  concrete calls of the mapper.
- `copy_properties.dfy` (module `CopyProperties`) holds the copy loops.
  - Each object is an `Instance`: a class whose `values` map goes from property name to
    value.
  - The loop updates that map in place and returns the exception that ended it, if any:
    `GetValue` on a property without a get accessor, or `SetValue` on one without a
    set accessor.
  - The method is proved equal to the fold `CopyRun`. Lemmas relate that fold to the
    closed form `Copied`: the properties before the first failing one are copied, and
    nothing after it.

Reflection is given as data:
- `TypeInfo.properties` is the `GetProperties()` list, in the order `GetProperties()` returns
  them. .NET documents no particular order, and the model depends on none: the list is
  an input.
- `hasParameterlessConstructor` says whether `Expression.New(typeof(TResult))` succeeds.
- `Type.IsAssignableFrom`, as used by `Expression.Bind`, is the parameter
  `isAssignableFrom`.

### Where the code and the documentation differ

The model follows the code in each of these cases.

- **Matching is by name only.**
  - The doc comment of `ExpressionMapper` says properties are copied when they have "the
    same name and the same type".
  - The test at `ReflectionHelper.cs:132` compares `p.GetType()` with
    `resultProperty.GetType()`. Those are the types of the two `PropertyInfo` objects,
    which are always equal.
  - `FindSourceProperty` therefore matches by name only.
  - A same-named property of another type is chosen anyway, and the failure surfaces in
    `Expression.Bind` (`AutoMapperScenarios.DifferentlyTypedPropertyFails`).
- **No conversion is ever added.**
  - The conversion at line 140 tests `resultProperty.GetType().IsValueType`, and a
    `PropertyInfo` is never a value type.
  - So an `int` source property is never converted to a `decimal` target.
- **The catch handler does not rethrow.**
  - With `userTryCatchForEachProperty`, the catch handler evaluates the same expression
    again; it does not rethrow a wrapped exception.
  - The `throwExpression` built at line 146 is never used.
  - Template bindings are wrapped too.

## Model

| member | source | states |
|---|---|---|
| `Expressions.MetadataType` | ReflectionHelper.cs:139-140 | The type of any property descriptor object is the same reference type, so the value-type test at 139–140 never holds |
| `PropertyNames.IndexOf` | ReflectionHelper.cs:28 | `IndexOf` gives -1 exactly when the character is absent; otherwise it gives a position holding the character with no earlier occurrence |
| `PropertyNames.GetPropertyName` | ReflectionHelper.cs:15-29 | With no dot, the result is the whole body text. With a dot, the text is a dot-free prefix, then a dot, then the result (the part after the first dot) |
| `PropertyNames.GetPropertyNameAfterPrefix` | ReflectionHelper.cs:27-28 | For any dot-free prefix, `prefix.rest` yields exactly `rest` |
| `PropertyNames.GetPropertyNameOfChain` | ReflectionHelper.cs:25-29 | For a selector `x.P0. ... .Pn` whose parameter name has no dot, the result is the whole path `P0. ... .Pn`, not its last segment |
| `PropertyNames.GetLastPropertyName` | ReflectionHelper.cs:50-63 | A member body gives its member name, and so does a unary node (such as a cast) over a member. Any other body falls back to the text after the first dot |
| `PropertyNames.GetLastPropertyNameOfChain` | ReflectionHelper.cs:50-63 | For any member chain, or a cast of one, the result is the chain's last segment, whatever the rendered text |
| `PropertyNames.GetLastPropertyNameDelegating` | ReflectionHelper.cs:40-48 | The `object` and extension-method overloads, as written, give what `GetPropertyName` gives, ignoring the body's shape |
| `PropertyNames.DelegatingOverloadReturnsWholePath` | ReflectionHelper.cs:40-48 | For `x => x.InvoicesData.Zip`, the as-written overloads return `InvoicesData.Zip`, while the intended ones return `Zip` |
| `PropertyNames.GetLastPropertyNameIntended` | ReflectionHelper.cs:33-48 | The overloads as their summary describes them: the member name for a member body or a cast of one |
| `PropertyNames.DelegatingOverloadOnBoxedProperty` | ReflectionHelper.cs:40-48 | For `x => x.Zip` over an `object` selector with a value-type `Zip`, the body is a conversion. The as-written overloads return `Zip)`, while the intended ones return `Zip` |
| `PropertyNames.IntendedOverloadReturnsLastSegment` | ReflectionHelper.cs:33-48 | The intended overloads return the last segment of every member chain |
| `AutoMapper.WithoutExcluded` | ReflectionHelper.cs:97 | A template binding is kept iff its member is not excluded. Distinct member names stay distinct |
| `AutoMapper.VisibleProperties` | ReflectionHelper.cs:119 | A result property is visited iff its name is not excluded. Distinct names stay distinct |
| `AutoMapper.FindBinding` | ReflectionHelper.cs:123 | A found binding is the first binding in the list that names the member. Nothing is found iff no binding names it |
| `AutoMapper.RemoveFirst` | ReflectionHelper.cs:130 | Removal leaves the list unchanged when no binding names the member, and shortens it by one otherwise. It adds nothing. With distinct names, no binding of that member is left |
| `AutoMapper.RemoveFirstAt` | ReflectionHelper.cs:123-130 | When a binding names the member, removal takes out exactly the binding `FindBinding` found, the first of that member, and keeps all others in their order |
| `AutoMapper.FindSourceProperty` | ReflectionHelper.cs:132 | A found source property is the first one with the result property's name, whatever the types. Nothing is found iff no source property has that name |
| `AutoMapper.Wrap` | ReflectionHelper.cs:139-152 | No conversion is added. With the try/catch flag, the expression becomes a try/catch whose handler is the same expression. The static type is kept |
| `AutoMapper.Bound` | ReflectionHelper.cs:154 | `Expression.Bind` succeeds iff the result property is writable and its type is assignable from the expression's. It then assigns the wrapped expression to that property |
| `AutoMapper.Contribution` | ReflectionHelper.cs:123-159 | A failure is a binding failure tagged with the property's name and declared type. A new binding assigns that property. Nothing is bound iff neither the template nor the source type has the name |
| `AutoMapper.Visit` | ReflectionHelper.cs:119-160 | After the loop, each binding is a template binding or names a visited property, and distinct member names stay distinct. A failure names a visited property and its type |
| `AutoMapper.Initialize` | ReflectionHelper.cs:85-114 | The loop starts from the template's non-excluded bindings |
| `AutoMapper.ExpressionMapperSpec` | ReflectionHelper.cs:80-165 | With `useOnlyBaseMapper`, the template comes back unchanged, null included. The invalid-template error occurs iff the template body is neither `new` nor `new {...}`. The missing-constructor error occurs iff there is no template and no parameterless constructor. A result is an object initialiser: it reuses the template's parameter and constructor call, or else uses `x` of type `TSource` and `new TResult()` |
| `AutoMapper.BindResultProperty` | ReflectionHelper.cs:121-159 | The try body for one property computes exactly one `Step` of the fold |
| `AutoMapper.BindResultProperties` | ReflectionHelper.cs:119-160 | The `foreach` over visited properties computes `Visit`, stopping at the first failure |
| `AutoMapper.ExpressionMapper` | ReflectionHelper.cs:80-165 | The method returns exactly the value `ExpressionMapperSpec` describes, or its error |
| `AutoMapperProperties.VisitMatchesReference` | ReflectionHelper.cs:119-160 | With distinct names, removing and re-appending bindings gives: the template bindings for non-visited members, in template order, then each visited property's contribution, in the order `GetProperties()` returns the properties. Otherwise it gives the first failure |
| `AutoMapperProperties.MapperMatchesReference` | ReflectionHelper.cs:119-164 | The whole call's result, or its failure, is that reference ordering of bindings inside the template's (or the default) constructor call |
| `AutoMapperProperties.NoExcludedBinding` | ReflectionHelper.cs:97-119 | No binding of the result targets an excluded name |
| `AutoMapperProperties.AtMostOneBindingPerMember` | ReflectionHelper.cs:123-154 | When the template binds each member at most once, so does the result |
| `AutoMapperProperties.TemplateBindingKept` | ReflectionHelper.cs:123-154 | A template assignment for a visited property appears in the result with its own expression, wrapped as requested. It is the only binding of that name |
| `AutoMapperProperties.SourcePropertyBound` | ReflectionHelper.cs:132-154 | A visited property the template does not bind, but whose name the source has, gets exactly one binding: a read of that source property on the lambda parameter |
| `AutoMapperProperties.UnmatchedPropertyUnbound` | ReflectionHelper.cs:132-137 | A visited property that is in neither the template nor the source type gets no binding |
| `AutoMapperProperties.BindingFailureNamesProperty` | ReflectionHelper.cs:156-159 | Every binding failure names a non-excluded result property and its declared type |
| `AutoMapperProperties.FailingPropertyAborts` | ReflectionHelper.cs:121-159 | If any one visited property's binding cannot be built, the whole call fails and no lambda is returned |
| `AutoMapperScenarios.SameNamedPropertiesAreCopied` | ReflectionHelper.cs:111-164 | Source `{Id, Name, Age}` and result `{Id, Name}` give `x => new PersonView { Id = x.Id, Name = x.Name }` |
| `AutoMapperScenarios.DifferentlyTypedPropertyFails` | ReflectionHelper.cs:132-159 | An `int Total` is matched to a `decimal Total` by name, is not converted, and fails in `Expression.Bind` with the property's name and type |
| `AutoMapperScenarios.TemplateAndExclusion` | ReflectionHelper.cs:90-154 | A template `FullName` assignment is kept, wrapped in the requested try/catch. The excluded `Age` is bound neither from the template nor from the source |
| `CopyProperties.Lookup` | ReflectionHelper.cs:221 | `GetProperty` finds a destination property with the name iff the destination type has one |
| `CopyProperties.FaultOf` | ReflectionHelper.cs:219-224 | The copy of a source property raises an exception iff the property is not skipped, the destination has it, and either the source property has no getter or the destination property has no setter. A missing getter is reported first |
| `CopyProperties.CopyPropertiesTo` | ReflectionHelper.cs:214-227 | The loop over the non-skipped properties of the compile-time source type `T1` leaves exactly the values and the exception of the fold `CopyRun` over the values before the call. No destination property is added or removed, and the source is unchanged, even when it is also the destination. The only thing asked of the caller is that each object has a value for every property of its compile-time type, whether public on its runtime type or reached through an interface |
| `CopyProperties.CopyProperty` | ReflectionHelper.cs:219-225 | One iteration: the exception it raises is `FaultOf` the property. On an exception the destination is untouched, because `GetValue` runs before `SetValue`; otherwise the destination changes as `CopyOne` says, only at the property's name |
| `CopyProperties.CopyPropertiesOfInstanceTypesTo` | ReflectionHelper.cs:236-249 | The same loop, over the property lists of the two objects' runtime types |
| `CopyProperties.CopyRunIsPrefixCopy` | ReflectionHelper.cs:219-226 | Take the first source property whose copy raises. Every destination property named by an earlier, non-skipped source property holds the source's value, every other keeps its own, and that property's exception is reported. When none raises, all are copied and nothing is reported |
| `CopyProperties.CopyWithoutFault` | ReflectionHelper.cs:219-226 | When no source property raises, the copy completes. Each destination property holds the source's value if a non-skipped source property has its name, and keeps its own otherwise |
| `CopyProperties.CopyCompletesIffNoFault` | ReflectionHelper.cs:219-226 | A copy ends without an exception iff no listed source property raises one |
| `CopyProperties.CopyIdempotent` | ReflectionHelper.cs:219-226 | Copying a second time from an unchanged source changes nothing |

## Left out

- Compiling and running the produced lambda (`Compile()`) is left out, including what the emitted try/catch does at run time. That is the runtime's expression compiler.
- `ExpressionMapperSingle` (both overloads) and the two `SelectExpressionMapper` overloads are left out. They compile the lambda and apply it, or hand it to a LINQ `Select`.
  - The single-object forms and the in-memory `SelectExpressionMapper` call `ExpressionMapper` with `userTryCatchForEachProperty` set to true.
  - The queryable form passes both flags through.
- Reflection is given as data, not computed from types: `GetProperties`, `GetProperty`, `GetValue`, `SetValue` and the exception constructor lookup at line 69. Static properties and indexers are not represented.
- `SetValue` rejecting a value of the wrong type is not modelled: the value type is a parameter `V` shared by both objects. Neither is the `AmbiguousMatchException` from `GetProperty` when the destination has two properties of one name.
- `Expression.ToString()` is an input string and is not derived from the tree. The exception messages at lines 67–70, 145 and 158 are tagged error values: their text, their formatting and the inner exception are not modelled.
- The checks that `Expression.MemberInit` and `Expression.Lambda` make on their arguments are not modelled.
- `Expression.Property` at line 134 looks the name up ignoring case. That lookup throws `AmbiguousMatchException` when the source type has two property names equal up to case (`Id` and `ID`). It also throws when the source type has two properties of the very same name, because a derived type hides an inherited property with `new` and a different type. Lines 156–158 turn either exception into a binding failure. The model does not represent this. On the first input `Contribution` builds a read of the property whose name matches exactly, and on the second a read of the first property of that name.
- A static source property is not represented, so neither is the exception `Expression.Property` at line 134 throws for one.
- Null arguments are not modelled: a null source or destination object, or a null `skippedProperties` array.
- The `System.Web` import plays no part in the modelled code.
- Determinism is not stated separately. Re-running the mapper on the same inputs gives the same result because `ExpressionMapperSpec` is a function.
- `AutoMapperProperties.MapperMatchesReference` assumes that the template assigns each member at most once, which the C# compiler enforces for object initialisers. It also assumes the result type's property names are distinct, which does not hold when a derived type hides a property with `new` and a different type. With the same type, `GetProperties()` lists only the hiding property.
- `AutoMapperProperties.TemplateBindingKept`, `AutoMapperProperties.SourcePropertyBound`, `AutoMapperProperties.UnmatchedPropertyUnbound` and `AutoMapperProperties.FailingPropertyAborts` make the same two assumptions.
- `AutoMapperProperties.AtMostOneBindingPerMember` assumes only the first of them.
- `CopyProperties.CopyPropertiesTo`, `CopyProperties.CopyProperty` and `CopyProperties.CopyPropertiesOfInstanceTypesTo` do not model accessor bodies, which are code the model cannot see. A getter or setter that throws raises `TargetInvocationException`, which ends the loop at line 224 just as a missing accessor does. The only faults modelled are the missing accessors.
- `CopyProperties.CopyPropertiesTo`, `CopyProperties.CopyProperty` and `CopyProperties.CopyPropertiesOfInstanceTypesTo` model a reference-type destination only, or a box the caller holds through `object` or an interface. `Instance` stands for that object. For a value-type `T2`, each `SetValue` at lines 224 and 246 boxes a fresh copy of `destination` and writes into that box, which is then dropped. The copy then has no visible effect, not even on the method's own copy, whereas the model's contract says the destination ends as `CopyRun` gives.
- `CopyProperties.CopyPropertiesTo`: each object keeps one value per property name, so it covers a property that `T1` or `T2` reaches through an interface the class implements explicitly (`int IFoo.P { get; }`). It does not tell such a property apart from a public property of the same name on the runtime type.

## Findings

| source | as written | input that shows it | evidently intended | confidence | as-written member | corrected member |
|---|---|---|---|---|---|---|
| ReflectionHelper.cs:40-48 | The `object` and extension-method `GetLastPropertyName` overloads delegate to `GetPropertyName`, which returns everything after the first dot | `x => x.InvoicesData.Zip` gives `InvoicesData.Zip`; a boxed `x => x.Zip` gives `Zip)` | `Zip`: the last property name, as the summary at lines 33–36 says. The overloads should delegate to the general `GetLastPropertyName` | high; not executed | `PropertyNames.DelegatingOverloadReturnsWholePath` | `PropertyNames.IntendedOverloadReturnsLastSegment` |
