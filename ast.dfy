/**
 * The abstract syntax tree the plugin works on: only the node types the
 * plugin inspects are distinguished, every other node is `Other` with its
 * children in traversal order.
 */
module Ast {

  datatype Option<+T> = None | Some(value: T)

  /** The exceptions that abort a transform */
  datatype Error =
    | TypeError   // an unsupported node reaches the target resolver, or `null.name`
    | LoadError   // the `rename` module cannot be loaded

  datatype Result<+T> = Ok(value: T) | Err(error: Error)

  /**
   * The binding side of a declaration (an identifier, or a destructuring
   * pattern, which has no `name`).
   */
  datatype LVal = LVal(name: Option<string>)

  datatype Node =
    | Program(body: seq<Node>)
    | BlockStatement(body: seq<Node>)
      /** `hasBody` is false when the class has no body node (its `members` are then unused) */
    | ClassDeclaration(id: Option<LVal>, hasBody: bool, members: seq<Node>)
      /**
       * `key` is the key's name when the key is an identifier; `head` holds
       * the nodes a traversal visits before the body (a computed key, the
       * parameters and their default values), in order
       */
    | ClassMethod(key: Option<string>, head: seq<Node>, fbody: Node)
    | ObjectMethod(key: Option<string>, head: seq<Node>, fbody: Node)
    | FunctionDeclaration(fid: Option<LVal>, head: seq<Node>, fbody: Node)
    | FunctionExpression(fid: Option<LVal>, head: seq<Node>, fbody: Node)
    | ArrowFunctionExpression(head: seq<Node>, fbody: Node)
      /** `pattern` holds the nodes inside a destructuring `target` (default values, computed keys) */
    | VariableDeclarator(target: LVal, pattern: seq<Node>, init: Option<Node>)
    | ExportDefaultDeclaration(declaration: Node)
      /** `attrs` holds the nodes of the element's name and attributes, in order */
    | JSXOpeningElement(tag: string, attrs: seq<Node>)
      /** `left = right`, the binding made for an anonymous default export */
    | AssignmentExpression(left: LVal, right: Node)
      /** the statement `object.displayName = "displayName";` */
    | DisplayNameStatement(object: LVal, displayName: string)
    | Other(kind: string, children: seq<Node>)

  /** Babel's `Block` alias: the nodes whose children are a statement list */
  predicate IsBlock(n: Node) {
    n.Program? || n.BlockStatement?
  }

  /** Babel's `Function` alias */
  predicate IsFunction(n: Node) {
    n.FunctionDeclaration? || n.FunctionExpression? || n.ArrowFunctionExpression?
    || n.ClassMethod? || n.ObjectMethod?
  }

  /** The nodes the plugin's visitors are called on */
  predicate IsDeclaration(n: Node) {
    n.ClassDeclaration? || IsFunction(n)
  }

  /** The value of `node.id` (absent on arrows and methods) */
  function DeclId(n: Node): (r: Option<LVal>)
    ensures r.Some? ==> n.ClassDeclaration? || n.FunctionDeclaration? || n.FunctionExpression?
  {
    match n
    case ClassDeclaration(id, _, _) => id
    case FunctionDeclaration(id, _, _) => id
    case FunctionExpression(id, _, _) => id
    case _ => None
  }

  /** The child nodes a traversal visits, in order */
  function Children(n: Node): (r: seq<Node>)
    ensures forall i :: 0 <= i < |r| ==> r[i] < n
    ensures IsBlock(n) ==> r == n.body
  {
    match n
    case Program(b) => b
    case BlockStatement(b) => b
    case ClassDeclaration(_, hasBody, ms) => if hasBody then ms else []
    case ClassMethod(_, h, b) => h + [b]
    case ObjectMethod(_, h, b) => h + [b]
    case FunctionDeclaration(_, h, b) => h + [b]
    case FunctionExpression(_, h, b) => h + [b]
    case ArrowFunctionExpression(h, b) => h + [b]
    case VariableDeclarator(_, ps, i) => if i.Some? then ps + [i.value] else ps
    case ExportDefaultDeclaration(d) => [d]
    case JSXOpeningElement(_, attrs) => attrs
    case AssignmentExpression(_, r) => [r]
    case DisplayNameStatement(_, _) => []
    case Other(_, cs) => cs
  }

  /**
   * `n` with its children replaced by `cs`; only a statement list may change
   * its length.
   */
  function WithChildren(n: Node, cs: seq<Node>): (r: Node)
    requires |cs| == |Children(n)| || IsBlock(n)
    ensures Children(r) == cs
    ensures IsBlock(r) == IsBlock(n) && r.Program? == n.Program?
    ensures IsDeclaration(r) == IsDeclaration(n)
    ensures r.VariableDeclarator? == n.VariableDeclarator?
    ensures r.VariableDeclarator? ==> r.target == n.target
    ensures r.ExportDefaultDeclaration? == n.ExportDefaultDeclaration?
  {
    match n
    case Program(_) => Program(cs)
    case BlockStatement(_) => BlockStatement(cs)
    case ClassDeclaration(id, hasBody, _) => if hasBody then ClassDeclaration(id, true, cs) else n
    case ClassMethod(k, _, _) => ClassMethod(k, cs[..|cs| - 1], cs[|cs| - 1])
    case ObjectMethod(k, _, _) => ObjectMethod(k, cs[..|cs| - 1], cs[|cs| - 1])
    case FunctionDeclaration(id, _, _) => FunctionDeclaration(id, cs[..|cs| - 1], cs[|cs| - 1])
    case FunctionExpression(id, _, _) => FunctionExpression(id, cs[..|cs| - 1], cs[|cs| - 1])
    case ArrowFunctionExpression(_, _) => ArrowFunctionExpression(cs[..|cs| - 1], cs[|cs| - 1])
    case VariableDeclarator(t, _, i) =>
      if i.Some? then VariableDeclarator(t, cs[..|cs| - 1], Some(cs[|cs| - 1])) else VariableDeclarator(t, cs, None)
    case ExportDefaultDeclaration(_) => ExportDefaultDeclaration(cs[0])
    case JSXOpeningElement(t, _) => JSXOpeningElement(t, cs)
    case AssignmentExpression(l, _) => AssignmentExpression(l, cs[0])
    case DisplayNameStatement(_, _) => n
    case Other(k, _) => Other(k, cs)
  }

  lemma WithOwnChildren(n: Node)
    ensures WithChildren(n, Children(n)) == n
  {
  }

  lemma ChildrenOfWithChildren(n: Node, cs: seq<Node>)
    requires |cs| == |Children(n)| || IsBlock(n)
    ensures Children(WithChildren(n, cs)) == cs
  {
  }

  lemma WithChildrenTwice(n: Node, cs: seq<Node>, ds: seq<Node>)
    requires |cs| == |Children(n)| || IsBlock(n)
    requires |ds| == |cs| || IsBlock(n)
    ensures WithChildren(WithChildren(n, cs), ds) == WithChildren(n, ds)
  {
  }

  /**
   * `a` is `b` with possibly other children: same node type and same
   * attributes.
   */
  predicate SameShell(a: Node, b: Node) {
    (|Children(a)| == |Children(b)| || IsBlock(b)) && a == WithChildren(b, Children(a))
  }

  /** Nodes with the same shell agree on everything the plugin asks of an ancestor. */
  lemma ShellKind(a: Node, b: Node)
    requires SameShell(a, b)
    ensures IsBlock(a) == IsBlock(b) && a.Program? == b.Program?
    ensures IsDeclaration(a) == IsDeclaration(b)
    ensures a.VariableDeclarator? == b.VariableDeclarator?
    ensures a.VariableDeclarator? ==> a.target == b.target
    ensures a.ExportDefaultDeclaration? == b.ExportDefaultDeclaration?
  {
  }

  lemma WithChildrenShell(n: Node, cs: seq<Node>)
    requires |cs| == |Children(n)| || IsBlock(n)
    ensures SameShell(WithChildren(n, cs), n)
  {
    WithChildrenTwice(n, cs, cs);
  }

  lemma SameShellTrans(a: Node, b: Node, c: Node)
    requires SameShell(a, b) && SameShell(b, c)
    ensures SameShell(a, c)
  {
    WithChildrenTwice(c, Children(b), Children(a));
  }

  /** `n`, or some node below it, is a JSX opening element */
  predicate ContainsJSX(n: Node) {
    n.JSXOpeningElement? || exists i :: 0 <= i < |Children(n)| && ContainsJSX(Children(n)[i])
  }

  /** some node strictly below `n` is a JSX opening element */
  predicate HasJSXBelow(n: Node) {
    exists i :: 0 <= i < |Children(n)| && ContainsJSX(Children(n)[i])
  }

  /** No JSX opening element and no class declaration anywhere in `n`: nothing the plugin reacts to */
  predicate Plain(n: Node) {
    !n.JSXOpeningElement? && !n.ClassDeclaration? &&
    forall i :: 0 <= i < |Children(n)| ==> Plain(Children(n)[i])
  }

  lemma {:induction false} PlainHasNoJSX(n: Node)
    requires Plain(n)
    ensures !ContainsJSX(n)
    decreases n
  {
    forall i | 0 <= i < |Children(n)|
      ensures !ContainsJSX(Children(n)[i])
    {
      PlainHasNoJSX(Children(n)[i]);
    }
  }

  /** A function with nothing the plugin reacts to has no JSX in its body. */
  lemma PlainFunction(n: Node)
    requires IsFunction(n) && Plain(n)
    ensures !HasJSXBelow(n.fbody)
  {
    PlainHasNoJSX(n);
    assert Children(n)[|n.head|] == n.fbody;
  }
}
