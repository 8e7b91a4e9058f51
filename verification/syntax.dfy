/** What the extension reads from a parsed TypeScript/JavaScript file. The
    parser itself is not modelled: a file is given by the syntax facts its
    analyses query, each list in document order. */
module Syntax {
  import opened Wrappers

  /** Zero-based line and character, as editor positions are. */
  datatype Pos = Pos(line: nat, character: nat)
  datatype Range = Range(start: Pos, end: Pos)

  /** A name as written in the source, with where it is written. */
  datatype Token = Token(text: string, range: Range)

  datatype Expr =
    | Literal(text: string)             // string literal or template literal without substitutions
    | ObjectLit(props: seq<Prop>)
    | Call(callee: Expr, args: seq<Expr>)
    | Satisfies(inner: Expr)            // `inner satisfies T`
    | Ident(name: string)
    | OtherExpr

  /** A member of an object literal. */
  datatype Prop =
    | Assign(name: Token, init: Expr)   // `name: init`; the name as written, quotes included
    | OtherMember(key: Option<string>)  // shorthand, method, accessor or spread

  function PropKey(p: Prop): Option<string> {
    match p
    case Assign(name, _) => Some(name.text)
    case OtherMember(key) => key
  }

  /** `object.getProperty(key)`: the first member with that name. */
  function GetProperty(props: seq<Prop>, key: string): (r: Option<Prop>)
    ensures r.Some? ==> r.value in props && PropKey(r.value) == Some(key)
    ensures r.None? ==> forall i :: 0 <= i < |props| ==> PropKey(props[i]) != Some(key)
  {
    if props == [] then None
    else if PropKey(props[0]) == Some(key) then Some(props[0])
    else GetProperty(props[1..], key)
  }

  /** The text of a string or no-substitution template literal. */
  function LiteralText(e: Expr): Option<string> {
    if e.Literal? then Some(e.text) else None
  }

  /** A binding element of `const { a, b: c } = …`. */
  datatype BindingElement = BindingElement(propertyName: Option<Token>, name: Token)

  /** How a call expression's result is bound. */
  datatype Binding =
    | NotDeclared                               // the call does not initialise a variable declaration
    | BindName(name: string, nameIndex: nat)    // `const v = call`; the index of `v` among the identifiers
    | BindObject(elements: seq<BindingElement>) // `const { … } = call`
    | BindOther                                 // an array binding pattern

  /** A call expression with its source range and its binding. */
  datatype CallSite = CallSite(callee: Expr, args: seq<Expr>, range: Range, binding: Binding)

  /** Where an identifier occurrence sits. */
  datatype IdentParent =
    | MemberObject(first: Token, more: seq<Token>) // `id.first.more…`: the chain of property accesses on it
    | ElementObject(arg: Expr, argRange: Range)    // `id[arg]`
    | Declaration                                  // direct child of a binding element, variable or parameter declaration
    | PropertyName                                 // name of a property assignment
    | OtherParent

  datatype Identifier = Identifier(text: string, range: Range, parent: IdentParent)

  datatype VarDecl = VarDecl(name: string, init: Option<Expr>)

  datatype SourceFile = SourceFile(
    calls: seq<CallSite>,
    identifiers: seq<Identifier>,
    objectLiterals: seq<seq<Prop>>,
    exportDefault: Option<Expr>,  // `export default e`, never `export = e`
    variables: seq<VarDecl>)

  /** `sourceFile.getVariableDeclaration(name)`: the first declaration of that name. */
  function VariableDeclaration(vars: seq<VarDecl>, name: string): (r: Option<VarDecl>)
    ensures r.Some? ==> r.value in vars && r.value.name == name
    ensures r.None? ==> forall i :: 0 <= i < |vars| ==> vars[i].name != name
  {
    if vars == [] then None
    else if vars[0].name == name then Some(vars[0])
    else VariableDeclaration(vars[1..], name)
  }

  /** The two accessor functions whose calls link code to a dictionary. */
  predicate IsAccessorCallee(callee: Expr) {
    callee == Ident("useIntlayer") || callee == Ident("getIntlayer")
  }
}
