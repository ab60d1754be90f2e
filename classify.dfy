/**
 * The two component classifiers: a class is a component when it declares a
 * `render` method, a function when its body holds a JSX element.
 */
module Classify {
  import opened Ast

  /** A class member of type ClassMethod whose key is the identifier `render` */
  predicate IsRenderMethod(m: Node) {
    m.ClassMethod? && m.key == Some("render")
  }

  /** The class has a body with a `render` method in it */
  predicate HasRenderMethod(c: Node)
    requires c.ClassDeclaration?
  {
    c.hasBody && exists i :: 0 <= i < |c.members| && IsRenderMethod(c.members[i])
  }

  /** `classHasRenderMethod(path)`: scans the members in order, stops at the first `render` */
  method ClassHasRenderMethod(c: Node) returns (b: bool)
    requires c.ClassDeclaration?
    ensures b <==> HasRenderMethod(c)
  {
    if !c.hasBody {
      return false;
    }
    var members := c.members;
    var i := 0;
    while i < |members|
      invariant 0 <= i <= |members|
      invariant forall j :: 0 <= j < i ==> !IsRenderMethod(members[j])
    {
      if members[i].ClassMethod? && members[i].key == Some("render") {
        return true;
      }
      i := i + 1;
    }
    return false;
  }

  /**
   * One step of `path.traverse` with the visitor of `doesReturnJSX`: once
   * `found` is set the node is skipped (its subtree is not visited);
   * otherwise a JSX opening element sets `found`, and the children are
   * visited in order.
   */
  method Enter(n: Node, found: bool) returns (f: bool)
    ensures f == (found || ContainsJSX(n))
    ensures found ==> f
    decreases n
  {
    if found {
      return true;
    }
    f := n.JSXOpeningElement?;
    var cs := Children(n);
    var i := 0;
    while i < |cs|
      invariant 0 <= i <= |cs|
      invariant f == (n.JSXOpeningElement? || exists j :: 0 <= j < i && ContainsJSX(cs[j]))
    {
      f := Enter(cs[i], f);
      i := i + 1;
    }
  }

  /**
   * `doesReturnJSX(path)`: traverses the nodes below `body` with a `found`
   * flag that is never reset; true iff some node below `body` is a JSX
   * opening element.
   */
  method DoesReturnJSX(body: Node) returns (found: bool)
    ensures found == HasJSXBelow(body)
  {
    found := false;
    var cs := Children(body);
    var i := 0;
    while i < |cs|
      invariant 0 <= i <= |cs|
      invariant found == exists j :: 0 <= j < i && ContainsJSX(cs[j])
    {
      found := Enter(cs[i], found);
      i := i + 1;
    }
  }
}
