/**
  Property-name extraction from selector lambdas (`x => x.Address.Zip`).
  The textual form of a selector body (`Expression.ToString()`) is an input string;
  the body's shape is an `Expr`.
 */
module PropertyNames {
  import opened Expressions

  /** `string.IndexOf(char)`: the first position of `c` in `s`, or -1 when there is none. */
  function IndexOf(s: string, c: char): (i: int)
    ensures -1 <= i < |s|
    ensures i == -1 <==> c !in s
    ensures 0 <= i ==> s[i] == c && c !in s[..i]
  {
    if |s| == 0 then -1
    else if s[0] == c then 0
    else
      var j := IndexOf(s[1..], c);
      assert s[1..] == s[1..][..] && s == [s[0]] + s[1..];
      if j == -1 then -1
      else
        assert s[..j + 1] == [s[0]] + s[1..][..j];
        j + 1
  }

  /** All three `GetPropertyName` overloads: the body's text after its first dot,
      or the whole text when it has no dot (`IndexOf` gives -1, so `Substring(0)`). */
  function GetPropertyName(bodyText: string): (r: string)
    ensures '.' !in bodyText ==> r == bodyText
    ensures '.' in bodyText ==>
      |r| < |bodyText| &&
      bodyText == bodyText[..|bodyText| - |r| - 1] + "." + r &&
      '.' !in bodyText[..|bodyText| - |r| - 1]
  {
    var k := IndexOf(bodyText, '.');
    assert k >= 0 ==> bodyText == bodyText[..k] + "." + bodyText[k + 1..];
    bodyText[k + 1..]
  }

  /** The general `GetLastPropertyName` overload: the member name when the body is a
      member access or a unary node (such as a conversion) over a member access, and
      otherwise the text after the first dot. */
  function GetLastPropertyName(body: Expr, bodyText: string): (r: string)
    ensures body.Member? ==> r == body.name
    ensures body.Unary? && body.operand.Member? ==> r == body.operand.name
    ensures !body.Member? && !(body.Unary? && body.operand.Member?) ==> r == GetPropertyName(bodyText)
  {
    match body
    case Member(_, name, _) => name
    case Unary(_, Member(_, name, _), _) => name
    case _ => GetPropertyName(bodyText)
  }

  /** The two `GetLastPropertyName` overloads over `object` selectors and over an
      instance, as written: they delegate to `GetPropertyName`, so they ignore the
      body's shape. */
  function GetLastPropertyNameDelegating(body: Expr, bodyText: string): (r: string)
    ensures r == GetPropertyName(bodyText)
  {
    GetPropertyName(bodyText)
  }

  /** The same two overloads as their documentation describes them: delegating to the
      general `GetLastPropertyName`. */
  function GetLastPropertyNameIntended(body: Expr, bodyText: string): (r: string)
    ensures body.Member? ==> r == body.name
    ensures body.Unary? && body.operand.Member? ==> r == body.operand.name
  {
    GetLastPropertyName(body, bodyText)
  }

  // ---------------------------------------------------------------------------
  // Member chains `x.P0.P1. ... .Pn` and how `Expression.ToString()` renders them.

  /** The member access `root.path[0].path[1]...`, built left to right. */
  function MemberChain(root: Parameter, path: seq<string>, types: seq<TypeRef>): Expr
    requires |types| == |path|
  {
    if |path| == 0 then Param(root)
    else Member(MemberChain(root, path[..|path| - 1], types[..|path| - 1]), path[|path| - 1], types[|path| - 1])
  }

  /** The rendering .NET Framework gives a selector body: a parameter as its name, a
      member access as the target's text, a dot and the member name, and a conversion
      (the boxing of a value-type member in an `object` selector) as `Convert(...)`.
      Other nodes are shown as their stored text. The cases for other unary nodes
      (node type applied to the operand) and for try/catch nodes (their body) are
      placeholders, not .NET's rendering, which writes `-x`, `(x As T)` or `try { … }`;
      nothing here depends on them. */
  function Render(e: Expr): string
  {
    match e
    case Param(p) => p.name
    case Member(target, name, _) => Render(target) + "." + name
    case Unary(Convert, operand, _) => "Convert(" + Render(operand) + ")"
    case Unary(OtherUnary(nodeType), operand, _) => nodeType + "(" + Render(operand) + ")"
    case TryCatch(body, _, _) => Render(body)
    case Opaque(text, _) => text
  }

  /** The segments of a path separated by dots. */
  function JoinDots(path: seq<string>): string
    requires |path| > 0
  {
    if |path| == 1 then path[0] else JoinDots(path[..|path| - 1]) + "." + path[|path| - 1]
  }

  /** Splitting at the first dot returns exactly what follows a dot-free prefix. */
  lemma {:induction false} GetPropertyNameAfterPrefix(prefix: string, rest: string)
    requires '.' !in prefix
    ensures GetPropertyName(prefix + "." + rest) == rest
  {
    var s := prefix + "." + rest;
    assert s[|prefix|] == '.';
    assert s[..|prefix|] == prefix;
    assert IndexOf(s, '.') == |prefix|;
    assert s[|prefix| + 1..] == rest;
  }

  lemma {:induction false} RenderMemberChain(root: Parameter, path: seq<string>, types: seq<TypeRef>)
    requires |path| > 0 && |types| == |path|
    ensures Render(MemberChain(root, path, types)) == root.name + "." + JoinDots(path)
    decreases |path|
  {
    if |path| > 1 {
      var n := |path| - 1;
      RenderMemberChain(root, path[..n], types[..n]);
      assert path[..n][..n - 1] == path[..n - 1];
    }
  }

  /** For a selector over a member chain `x.P0. ... .Pn` whose parameter name has no
      dot, `GetPropertyName` yields the whole path `P0. ... .Pn`. */
  lemma GetPropertyNameOfChain(root: Parameter, path: seq<string>, types: seq<TypeRef>)
    requires |path| > 0 && |types| == |path|
    requires '.' !in root.name
    ensures GetPropertyName(Render(MemberChain(root, path, types))) == JoinDots(path)
  {
    RenderMemberChain(root, path, types);
    GetPropertyNameAfterPrefix(root.name, JoinDots(path));
  }

  /** For the same chain, or a conversion of it, `GetLastPropertyName` yields the last
      segment `Pn`, whatever the rendered text is. */
  lemma GetLastPropertyNameOfChain(root: Parameter, path: seq<string>, types: seq<TypeRef>, op: UnaryOp, t: TypeRef, bodyText: string)
    requires |path| > 0 && |types| == |path|
    ensures GetLastPropertyName(MemberChain(root, path, types), bodyText) == path[|path| - 1]
    ensures GetLastPropertyName(Unary(op, MemberChain(root, path, types), t), bodyText) == path[|path| - 1]
  {
  }

  /** The delegating overloads return the whole path for a chain of two or more
      members, which is not its last segment when the segments have no dots:
      `x => x.InvoicesData.Zip` gives `InvoicesData.Zip`, not `Zip`. */
  lemma DelegatingOverloadReturnsWholePath()
    ensures
      var x := Parameter("x", TypeRef("Invoice", false));
      var body := MemberChain(x, ["InvoicesData", "Zip"], [TypeRef("InvoicesData", false), TypeRef("System.String", false)]);
      GetLastPropertyNameDelegating(body, Render(body)) == "InvoicesData.Zip" &&
      GetLastPropertyNameIntended(body, Render(body)) == "Zip"
  {
    var x := Parameter("x", TypeRef("Invoice", false));
    var path := ["InvoicesData", "Zip"];
    var types := [TypeRef("InvoicesData", false), TypeRef("System.String", false)];
    GetPropertyNameOfChain(x, path, types);
    assert path[..1] == ["InvoicesData"];
    assert JoinDots(path) == "InvoicesData.Zip";
  }

  /** In the `object` overload, a value-type property is boxed, so `x => x.Zip` has a
      conversion as its body: as written the overload returns `Zip)`, the intended one `Zip`. */
  lemma DelegatingOverloadOnBoxedProperty()
    ensures
      var x := Parameter("x", TypeRef("Address", false));
      var body := Unary(Convert, Member(Param(x), "Zip", TypeRef("System.Int32", true)), TypeRef("System.Object", false));
      GetLastPropertyNameDelegating(body, Render(body)) == "Zip)" &&
      GetLastPropertyNameIntended(body, Render(body)) == "Zip"
  {
    var x := Parameter("x", TypeRef("Address", false));
    var body := Unary(Convert, Member(Param(x), "Zip", TypeRef("System.Int32", true)), TypeRef("System.Object", false));
    assert Render(body) == "Convert(x" + "." + "Zip)";
    GetPropertyNameAfterPrefix("Convert(x", "Zip)");
  }

  /** The intended overloads return the last segment of any member chain. */
  lemma IntendedOverloadReturnsLastSegment(root: Parameter, path: seq<string>, types: seq<TypeRef>, bodyText: string)
    requires |path| > 0 && |types| == |path|
    ensures GetLastPropertyNameIntended(MemberChain(root, path, types), bodyText) == path[|path| - 1]
  {
  }
}
