/**
  The pieces of .NET reflection and of System.Linq.Expressions that ReflectionHelper
  touches, reduced to plain data: types, property descriptors, the expression nodes
  the mapper builds or inspects, member bindings and lambda templates.
 */
module Expressions {

  datatype Option<+T> = None | Some(value: T)

  /** A runtime type, reduced to its name and whether it is a value type. */
  datatype TypeRef = TypeRef(name: string, isValueType: bool)

  /** `typeof(Exception)`, the type of the catch variable the mapper declares. */
  const ExceptionType := TypeRef("System.Exception", false)

  /** The runtime type of every PropertyInfo object that `Type.GetProperties` hands out.
      It is a class, so it is never a value type. */
  const PropertyInfoType := TypeRef("System.Reflection.RuntimePropertyInfo", false)

  /** A `ParameterExpression` (also used for the variable of a catch block). */
  datatype Parameter = Parameter(name: string, parameterType: TypeRef)

  /** The node type of a `UnaryExpression`. */
  datatype UnaryOp = Convert | OtherUnary(nodeType: string)

  /** The expression nodes the model distinguishes. `Member` is a `MemberExpression`
      (a property or field read on a target); anything else a caller writes in a
      template (a call, a concatenation, a constant) is `Opaque`, carrying its
      rendered text and its static type. */
  datatype Expr =
    | Param(parameter: Parameter)
    | Member(target: Expr, name: string, memberType: TypeRef)
    | Unary(op: UnaryOp, operand: Expr, unaryType: TypeRef)
    | TryCatch(body: Expr, exVariable: Parameter, handler: Expr)
    | Opaque(text: string, exprType: TypeRef)

  /** `Expression.Type`: the static type of an expression node. */
  function TypeOf(e: Expr): TypeRef
  {
    match e
    case Param(p) => p.parameterType
    case Member(_, _, t) => t
    case Unary(_, _, t) => t
    case TryCatch(body, _, _) => TypeOf(body)
    case Opaque(_, t) => t
  }

  /** A `MemberBinding` of an object initialiser: a `MemberAssignment` (`Name = expr`)
      or one of the other two binding kinds (a list or a nested member initialiser),
      which carry no single expression. */
  datatype MemberBinding =
    | Assignment(member: string, expression: Expr)
    | OtherBinding(member: string)

  /** A `NewExpression`: the constructed type and the constructor arguments. */
  datatype NewExpr = NewExpr(newType: TypeRef, arguments: seq<Expr>)

  /** The body of a mapping lambda: a bare constructor call, a constructor call with
      an object initialiser, or any other expression. */
  datatype Body =
    | New(newExpr: NewExpr)
    | MemberInit(newExpr: NewExpr, bindings: seq<MemberBinding>)
    | OtherBody(expr: Expr)

  /** An `Expression<Func<TSource, TResult>>`: a lambda with exactly one parameter. */
  datatype Lambda = Lambda(parameter: Parameter, body: Body)

  /** A public property as reflection describes it. */
  datatype PropertyInfo = PropertyInfo(name: string, propertyType: TypeRef, canRead: bool, canWrite: bool)

  /** What reflection tells about a type: its public properties in the order `GetProperties()` returns them
      and whether `Expression.New(type)` can build it without arguments. */
  datatype TypeInfo = TypeInfo(typeRef: TypeRef, properties: seq<PropertyInfo>, hasParameterlessConstructor: bool)

  /** `PropertyInfo.GetType()`: the type of the metadata object, not the declared
      type of the property. It is the same for every property. */
  function MetadataType(p: PropertyInfo): (t: TypeRef)
    ensures t == PropertyInfoType && !t.isValueType
  {
    PropertyInfoType
  }

  /** The names of a list of properties, in order. */
  function Names(ps: seq<PropertyInfo>): (ns: seq<string>)
    ensures |ns| == |ps|
    ensures forall i :: 0 <= i < |ps| ==> ns[i] == ps[i].name
  {
    if |ps| == 0 then [] else [ps[0].name] + Names(ps[1..])
  }
}
