/**
 * What the traversal of a program computes, as a structural recursion on
 * the tree: the visit of a node depends on the node, on the hook state, on
 * the names in use and on three facts about its ancestors (`Ctx`). Both
 * visitors call `path.skip()`, so the recursion stops at every class
 * declaration and every function.
 */
module Traversal {
  import opened Ast
  import opened Naming
  import opened Uid
  import opened Classify

  /**
   * What a visit reads from the ancestors of its node: whether the node is
   * the root (it has no parent path), whether its parent is an
   * `export default`, and the target of the nearest enclosing variable
   * declarator, if there is one.
   */
  datatype Ctx = Ctx(root: bool, exported: bool, declarator: Option<LVal>)

  /** The context of the root of a traversal */
  const RootCtx := Ctx(true, false, None)

  /** The context of every child of `n`, which has context `c` */
  function ChildCtx(c: Ctx, n: Node): (d: Ctx)
    ensures !d.root && (d.exported <==> n.ExportDefaultDeclaration?)
    ensures n.VariableDeclarator? ==> d.declarator == Some(n.target)
    ensures !n.VariableDeclarator? ==> d.declarator == c.declarator
  {
    Ctx(false, n.ExportDefaultDeclaration?, if n.VariableDeclarator? then Some(n.target) else c.declarator)
  }

  /**
   * The `Function` visitor goes on to annotate `n`: some node below its
   * body is a JSX opening element, and an arrow or a function expression
   * sits inside a variable declarator.
   */
  predicate Component(c: Ctx, n: Node)
    requires IsFunction(n)
  {
    HasJSXBelow(n.fbody) && !((n.ArrowFunctionExpression? || n.FunctionExpression?) && c.declarator.None?)
  }

  /** `getTargetNode` makes a binding: `n` is an anonymous non-class `export default` declaration */
  predicate Binds(c: Ctx, n: Node) {
    !n.ClassDeclaration? && c.exported && DeclId(n).None?
  }

  /**
   * What `getTargetNode` returns for a node that needs no new binding: a
   * class's own id; the own id of a default-exported node; the target of
   * the nearest declarator for an arrow or a function expression; a
   * function declaration's own id; a TypeError otherwise, and whenever the
   * node has no parent.
   */
  function Target(c: Ctx, n: Node): (t: Result<Option<LVal>>)
    requires !Binds(c, n)
    ensures t.Err? ==> t.error == TypeError
    ensures n.ClassDeclaration? ==> t == Ok(n.id)
    ensures !n.ClassDeclaration? && c.root ==> t == Err(TypeError)
    ensures !n.ClassDeclaration? && !c.root && c.exported ==> DeclId(n).Some? && t == Ok(DeclId(n))
    ensures (n.ArrowFunctionExpression? || n.FunctionExpression?) && !c.root && !c.exported ==>
      (t.Ok? <==> c.declarator.Some?) && (t.Ok? ==> t == Ok(c.declarator))
    ensures n.FunctionDeclaration? && !c.root && !c.exported ==> t == Ok(n.fid)
    ensures !c.exported && !(n.ClassDeclaration? || n.FunctionDeclaration? || n.FunctionExpression? || n.ArrowFunctionExpression?)
      ==> t == Err(TypeError)
  {
    if n.ClassDeclaration? then Ok(n.id)
    else if c.root then Err(TypeError)
    else if c.exported then Ok(DeclId(n))
    else if n.ArrowFunctionExpression? || n.FunctionExpression? then
      if c.declarator.None? then Err(TypeError) else Ok(c.declarator)
    else if n.FunctionDeclaration? then Ok(n.fid)
    else Err(TypeError)
  }

  /**
   * The effect of a visit: an error, or the node that replaces the visited
   * one, the statements to insert after its block-level statement, the
   * names in use afterwards and the uids declared, in order.
   */
  datatype Outcome = Outcome(err: Option<Error>, sub: Node, added: seq<Node>, taken: set<string>, uids: seq<string>)

  /** The `ClassDeclaration` visitor on `n` */
  function ClassOutcome(n: Node, st: State, taken: set<string>): Outcome
    requires n.ClassDeclaration?
  {
    if !HasRenderMethod(n) then Outcome(None, n, [], taken, [])
    else match GetName(n.id, st)
      case Err(e) => Outcome(Some(e), n, [], taken, [])
      case Ok(name) => Outcome(None, n, [DisplayNameStatement(n.id.value, name)], taken, [])
  }

  /** The `Function` visitor on `n`, with context `c` */
  ghost function FunctionOutcome(c: Ctx, n: Node, st: State, taken: set<string>): Outcome
    requires IsFunction(n)
  {
    if !Component(c, n) then Outcome(None, n, [], taken, [])
    else if Binds(c, n) then
      var u := FreshUid(taken);
      var id := LVal(Some(u));
      Outcome(None, AssignmentExpression(id, n), [DisplayNameStatement(id, GetName(Some(id), st).value)], taken + {u}, [u])
    else match Target(c, n)
      case Err(e) => Outcome(Some(e), n, [], taken, [])
      case Ok(t) =>
        match GetName(t, st)
        case Err(e) => Outcome(Some(e), n, [], taken, [])
        case Ok(name) => Outcome(None, n, [DisplayNameStatement(t.value, name)], taken, [])
  }

  /** `FunctionOutcome` case by case */
  lemma FunctionOutcomeCases(c: Ctx, n: Node, st: State, taken: set<string>)
    requires IsFunction(n)
    ensures var w := FunctionOutcome(c, n, st, taken);
      !Component(c, n) ==> w == Outcome(None, n, [], taken, [])
    ensures var w := FunctionOutcome(c, n, st, taken);
      Component(c, n) && Binds(c, n) ==>
        var id := LVal(Some(FreshUid(taken)));
        w == Outcome(None, AssignmentExpression(id, n), [DisplayNameStatement(id, GetName(Some(id), st).value)], taken + {id.name.value}, [id.name.value])
    ensures var w := FunctionOutcome(c, n, st, taken);
      Component(c, n) && !Binds(c, n) ==>
        var t := Target(c, n);
        if t.Err? || t.value.None? then w == Outcome(Some(TypeError), n, [], taken, [])
        else w == Outcome(None, n, [DisplayNameStatement(t.value.value, GetName(t.value, st).value)], taken, [])
  {
  }

  /**
   * The visit of `n` with context `c`: the two visitors, and otherwise a
   * visit of every child, statement lists and other nodes alike, stopping
   * at the first error.
   */
  ghost function Walk(c: Ctx, n: Node, st: State, taken: set<string>): Outcome
    decreases n, 2, 0
  {
    if n.ClassDeclaration? then ClassOutcome(n, st, taken)
    else if IsFunction(n) then FunctionOutcome(c, n, st, taken)
    else if IsBlock(n) then
      var l := WalkList(ChildCtx(c, n), n, |Children(n)|, st, taken);
      if l.err.Some? then Outcome(l.err, n, [], l.taken, l.uids)
      else Outcome(None, WithChildren(n, l.nodes), [], l.taken, l.uids)
    else
      var l := WalkParts(ChildCtx(c, n), n, |Children(n)|, st, taken);
      if l.err.Some? then Outcome(l.err, n, [], l.taken, l.uids)
      else Outcome(None, WithChildren(n, l.nodes), l.added, l.taken, l.uids)
  }

  /** The visit of the first children of a node so far */
  datatype Progress = Progress(err: Option<Error>, nodes: seq<Node>, added: seq<Node>, taken: set<string>, uids: seq<string>)

  /**
   * The visit of the first `i` statements of the statement list `n`: each
   * visited statement is followed by the statements its visit inserts.
   */
  ghost function WalkList(c: Ctx, n: Node, i: nat, st: State, taken: set<string>): Progress
    requires i <= |Children(n)|
    decreases n, 1, i
  {
    if i == 0 then Progress(None, [], [], taken, [])
    else
      var prev := WalkList(c, n, i - 1, st, taken);
      if prev.err.Some? then prev
      else
        var w := Walk(c, Children(n)[i - 1], st, prev.taken);
        Progress(w.err, prev.nodes + [w.sub] + w.added, [], w.taken, prev.uids + w.uids)
  }

  /**
   * The visit of the first `i` children of `n`, which is not a statement
   * list: each child is replaced in place, and what a later child inserts
   * goes before what the earlier ones inserted.
   */
  ghost function WalkParts(c: Ctx, n: Node, i: nat, st: State, taken: set<string>): (l: Progress)
    requires i <= |Children(n)|
    ensures l.err.None? ==> |l.nodes| == i
    decreases n, 1, i
  {
    if i == 0 then Progress(None, [], [], taken, [])
    else
      var prev := WalkParts(c, n, i - 1, st, taken);
      if prev.err.Some? then prev
      else
        var w := Walk(c, Children(n)[i - 1], st, prev.taken);
        Progress(w.err, prev.nodes + [w.sub], w.added + prev.added, w.taken, prev.uids + w.uids)
  }

  /** Once a visit of the statements fails, the later statements are not visited. */
  lemma {:induction false} ListErrorStays(c: Ctx, n: Node, i: nat, k: nat, st: State, taken: set<string>)
    requires i <= k <= |Children(n)| && WalkList(c, n, i, st, taken).err.Some?
    ensures WalkList(c, n, k, st, taken) == WalkList(c, n, i, st, taken)
    decreases k - i
  {
    if i < k {
      ListErrorStays(c, n, i, k - 1, st, taken);
    }
  }

  /** Once a visit of the children fails, the later children are not visited. */
  lemma {:induction false} PartsErrorStays(c: Ctx, n: Node, i: nat, k: nat, st: State, taken: set<string>)
    requires i <= k <= |Children(n)| && WalkParts(c, n, i, st, taken).err.Some?
    ensures WalkParts(c, n, k, st, taken) == WalkParts(c, n, i, st, taken)
    decreases k - i
  {
    if i < k {
      PartsErrorStays(c, n, i, k - 1, st, taken);
    }
  }

  /** Nodes with the same shell give their children the same context. */
  lemma ChildCtxShell(c: Ctx, a: Node, b: Node)
    requires SameShell(a, b)
    ensures ChildCtx(c, a) == ChildCtx(c, b)
  {
    ShellKind(a, b);
  }

  /** Visiting statement `i` appends it, as visited, and its insertions to the list walked so far. */
  lemma ListWalkStep(c: Ctx, n: Node, i: nat, st: State, taken: set<string>, d0: seq<string>)
    requires i < |Children(n)| && WalkList(c, n, i, st, taken).err.None?
    ensures var l := WalkList(c, n, i, st, taken);
      var w := Walk(c, Children(n)[i], st, l.taken);
      var l' := WalkList(c, n, i + 1, st, taken);
      l'.err == w.err &&
      (w.err.None? ==> l'.nodes == l.nodes + [w.sub] + w.added && l'.taken == w.taken && d0 + l'.uids == d0 + l.uids + w.uids)
  {
    var l := WalkList(c, n, i, st, taken);
    var w := Walk(c, Children(n)[i], st, l.taken);
    assert WalkList(c, n, i + 1, st, taken) == Progress(w.err, l.nodes + [w.sub] + w.added, [], w.taken, l.uids + w.uids);
    assert d0 + (l.uids + w.uids) == d0 + l.uids + w.uids;
  }

  /**
   * Visiting child `i` of `n`, whose first `i` children are visited as
   * `cs[..i]`: the visited form replaces child `i`, and its insertions go
   * before the earlier ones.
   */
  lemma PartsAdvance(c: Ctx, n: Node, i: nat, st: State, t0: set<string>, d0: seq<string>,
                     cs: seq<Node>, added: seq<Node>, declared: seq<string>)
    requires i < |Children(n)| && i < |cs|
    requires var l := WalkParts(c, n, i, st, t0);
      l.err.None? && cs[..i] == l.nodes && added == l.added && declared == d0 + l.uids
    ensures var l := WalkParts(c, n, i, st, t0);
      var w := Walk(c, Children(n)[i], st, l.taken);
      var l' := WalkParts(c, n, i + 1, st, t0);
      l'.err == w.err &&
      (w.err.None? ==> cs[i := w.sub][..i + 1] == l'.nodes && w.added + added == l'.added && w.taken == l'.taken &&
                       declared + w.uids == d0 + l'.uids)
  {
    var l := WalkParts(c, n, i, st, t0);
    var w := Walk(c, Children(n)[i], st, l.taken);
    assert WalkParts(c, n, i + 1, st, t0) == Progress(w.err, l.nodes + [w.sub], w.added + l.added, w.taken, l.uids + w.uids);
    assert d0 + (l.uids + w.uids) == d0 + l.uids + w.uids;
    assert cs[i := w.sub][..i + 1] == cs[..i] + [w.sub];
  }

  /** `WalkList` one statement further, after a successful prefix */
  lemma ListStepIs(c: Ctx, n: Node, i: nat, st: State, taken: set<string>)
    requires 0 < i <= |Children(n)| && WalkList(c, n, i - 1, st, taken).err.None?
    ensures var l := WalkList(c, n, i - 1, st, taken);
      var w := Walk(c, Children(n)[i - 1], st, l.taken);
      WalkList(c, n, i, st, taken) == Progress(w.err, l.nodes + [w.sub] + w.added, [], w.taken, l.uids + w.uids)
  {
  }

  /** `WalkParts` one child further, after a successful prefix */
  lemma PartsStepIs(c: Ctx, n: Node, i: nat, st: State, taken: set<string>)
    requires 0 < i <= |Children(n)| && WalkParts(c, n, i - 1, st, taken).err.None?
    ensures var l := WalkParts(c, n, i - 1, st, taken);
      var w := Walk(c, Children(n)[i - 1], st, l.taken);
      WalkParts(c, n, i, st, taken) == Progress(w.err, l.nodes + [w.sub], w.added + l.added, w.taken, l.uids + w.uids)
  {
  }
}
