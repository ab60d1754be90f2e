/**
 * The plugin itself: the `ClassDeclaration` and `Function` visitors, the
 * helpers that find a component's binding and insert its `displayName`,
 * and the `Program` visitor that filters the file, loads the `rename`
 * hook and traverses the program.
 */
module Plugin {
  import opened Ast
  import opened Paths
  import opened Annotations
  import opened Edits
  import opened Naming
  import opened Classify
  import opened Uid
  import opened FileFilter
  import opened Traversal
  import opened Counting

  /** The node at `p` is the `declaration` of an `export default` */
  predicate DefaultExported(r: Node, p: Path)
    requires ValidPath(r, p)
  {
    p != [] && At(r, Parent(p)).ExportDefaultDeclaration?
  }

  /**
   * The context the visit of the node at `p` reads: whether it has no
   * parent, whether it is what an `export default` exports, and the target
   * of its nearest enclosing variable declarator.
   */
  function CtxOf(r: Node, p: Path): Ctx
    requires ValidPath(r, p)
  {
    NearestDeclaratorSpec(r, p);
    Ctx(p == [], DefaultExported(r, p),
        match NearestDeclarator(r, p)
        case None => None
        case Some(k) => Some(At(r, p[..k]).target))
  }

  /**
   * The context in terms of the ancestors: the declarator target is that
   * of the nearest strict ancestor that is a variable declarator, and
   * there is none exactly when no strict ancestor is one.
   */
  lemma CtxOfSpec(r: Node, p: Path)
    requires ValidPath(r, p)
    ensures CtxOf(r, p).root <==> p == []
    ensures CtxOf(r, p).exported <==> DefaultExported(r, p)
    ensures CtxOf(r, p).declarator.Some? <==> exists k :: 0 <= k < |p| && DeclaratorAt(r, p, k)
    ensures CtxOf(r, p).declarator.Some? ==>
      exists k :: 0 <= k < |p| && DeclaratorAt(r, p, k) && CtxOf(r, p).declarator == Some(At(r, p[..k]).target) &&
        forall k' :: k < k' < |p| ==> !DeclaratorAt(r, p, k')
  {
    NearestDeclaratorSpec(r, p);
  }

  /** The context of a child is computed from its parent's context and the parent node. */
  lemma CtxOfChild(r: Node, p: Path, i: nat)
    requires ValidPath(r, p + [i])
    ensures ValidPath(r, p) && CtxOf(r, p + [i]) == ChildCtx(CtxOf(r, p), At(r, p))
  {
    var q := p + [i];
    assert Parent(q) == p && q[..|p|] == p;
    assert DefaultExported(r, q) == At(r, p).ExportDefaultDeclaration?;
    if At(r, p).VariableDeclarator? {
      assert NearestDeclarator(r, q) == Some(|p|);
    } else {
      assert NearestDeclarator(r, q) == NearestDeclarator(r, p);
      match NearestDeclarator(r, p)
      case None =>
      case Some(k) =>
        assert q[..k] == p[..k];
    }
  }

  /** The context depends only on the strict ancestors. */
  lemma CtxOfAgrees(r1: Node, r2: Node, p: Path)
    requires ValidPath(r1, p) && ValidPath(r2, p) && SameAncestors(r1, r2, p)
    ensures CtxOf(r1, p) == CtxOf(r2, p)
  {
    DeclaratorAgrees(r1, r2, p);
    if p != [] {
      var k := |p| - 1;
      assert SameAncestor(r1, r2, p, k);
      assert p[..k] == Parent(p);
      ShellKind(At(r2, Parent(p)), At(r1, Parent(p)));
    }
  }

  /** The context of statement `j` of the partly visited list `cur` at `p` is the context of the original statements. */
  lemma StatementCtx(r0: Node, p: Path, n: Node, cur: Node, j: nat)
    requires ValidPath(r0, p) && IsBlock(n) && SameShell(cur, n)
    requires ValidPath(Replace(r0, p, cur), p + [j])
    ensures CtxOf(Replace(r0, p, cur), p + [j]) == ChildCtx(CtxOf(r0, p), n)
  {
    var r := Replace(r0, p, cur);
    ReplaceSameAncestors(r0, p, cur);
    ReplaceAt(r0, p, cur);
    CtxOfChild(r, p, j);
    CtxOfAgrees(r0, r, p);
    ChildCtxShell(CtxOf(r0, p), cur, n);
  }

  /** The context of child `i` of the partly visited node `cur` at `p` is the context of the original children. */
  lemma PartCtx(r0: Node, p: Path, n: Node, cur: Node, added: seq<Node>, i: nat)
    requires ValidPath(r0, p) && SameShell(cur, n)
    requires ValidPath(Edit(r0, p, cur, added), p + [i])
    ensures CtxOf(Edit(r0, p, cur, added), p + [i]) == ChildCtx(CtxOf(r0, p), n)
  {
    var r := Edit(r0, p, cur, added);
    EditLevel(r0, p, cur, added);
    CtxOfChild(r, p, i);
    CtxOfAgrees(r0, r, p);
    ChildCtxShell(CtxOf(r0, p), cur, n);
  }

  /**
   * The first `i` statements of the list `n`, whose statements have context
   * `c`, have been visited as `WalkList` says: `err` is its error and,
   * without one, the list `cur` begins with its `j` nodes, and the names in
   * use and the uids declared after `d0` are its.
   */
  ghost predicate ListWalked(c: Ctx, n: Node, i: nat, st: State, t0: set<string>, d0: seq<string>,
                             err: Option<Error>, cur: Node, j: nat, taken: set<string>, declared: seq<string>)
    requires i <= |Children(n)|
  {
    var l := WalkList(c, n, i, st, t0);
    err == l.err &&
    (err.None? ==> j <= |Children(cur)| && Children(cur)[..j] == l.nodes && taken == l.taken && declared == d0 + l.uids)
  }

  /**
   * The first `i` children of `n`, whose children have context `c`, have
   * been visited as `WalkParts` says: `err` is its error and, without one,
   * `cur` begins with its nodes, and the inserted statements, the names in
   * use and the uids declared after `d0` are its.
   */
  ghost predicate PartsWalked(c: Ctx, n: Node, i: nat, st: State, t0: set<string>, d0: seq<string>,
                              err: Option<Error>, cur: Node, added: seq<Node>, taken: set<string>, declared: seq<string>)
    requires i <= |Children(n)|
  {
    var l := WalkParts(c, n, i, st, t0);
    err == l.err &&
    (err.None? ==> i <= |Children(cur)| && Children(cur)[..i] == l.nodes && added == l.added && taken == l.taken &&
                   declared == d0 + l.uids)
  }

  /** The visit of child `i` extends `PartsWalked` by one child. */
  lemma PartsWalkedStep(c: Ctx, n: Node, i: nat, st: State, t0: set<string>, d0: seq<string>,
                        cur: Node, added: seq<Node>, taken: set<string>, declared: seq<string>,
                        err: Option<Error>, s: Node, a: seq<Node>, next: Node, added': seq<Node>, taken': set<string>, declared': seq<string>)
    requires i < |Children(n)| && i < |Children(cur)| && PartsWalked(c, n, i, st, t0, d0, None, cur, added, taken, declared)
    requires var w := Walk(c, Children(n)[i], st, taken);
      err == w.err && (err.None? ==> s == w.sub && a == w.added && taken' == w.taken && declared' == declared + w.uids)
    requires err.None? ==> Children(next) == Children(cur)[i := s] && added' == a + added
    ensures PartsWalked(c, n, i + 1, st, t0, d0, err, next, added', taken', declared')
  {
    PartsAdvance(c, n, i, st, t0, d0, Children(cur), added, declared);
  }

  /** When the loop over the children stops, `PartsWalked` describes the whole node. */
  lemma PartsWalkedDone(c: Ctx, n: Node, i: nat, st: State, t0: set<string>, d0: seq<string>,
                        err: Option<Error>, cur: Node, added: seq<Node>, taken: set<string>, declared: seq<string>)
    requires i <= |Children(n)| && PartsWalked(c, n, i, st, t0, d0, err, cur, added, taken, declared)
    requires err.Some? || i == |Children(n)| == |Children(cur)|
    ensures var l := WalkParts(c, n, |Children(n)|, st, t0);
      err == l.err &&
      (err.None? ==> Children(cur) == l.nodes && added == l.added && taken == l.taken && declared == d0 + l.uids)
  {
    if err.None? {
      assert Children(cur)[..i] == Children(cur);
    } else {
      PartsErrorStays(c, n, i, |Children(n)|, st, t0);
    }
  }

  /** When the loop over the statements stops, `ListWalked` describes the whole list. */
  lemma ListWalkedDone(c: Ctx, n: Node, i: nat, st: State, t0: set<string>, d0: seq<string>,
                       err: Option<Error>, cur: Node, j: nat, taken: set<string>, declared: seq<string>)
    requires i <= |Children(n)| && ListWalked(c, n, i, st, t0, d0, err, cur, j, taken, declared)
    requires err.Some? || (i == |Children(n)| && j == |Children(cur)|)
    ensures var l := WalkList(c, n, |Children(n)|, st, t0);
      err == l.err && (err.None? ==> Children(cur) == l.nodes && taken == l.taken && declared == d0 + l.uids)
  {
    if err.None? {
      assert Children(cur)[..j] == Children(cur);
    } else {
      ListErrorStays(c, n, i, |Children(n)|, st, t0);
    }
  }

  /** The `rename` option: absent (or of another type), a function, or the path of a module exporting one */
  datatype RenameOption = NoRename | RenameFunction(hook: Hook) | RenameModule(modulePath: string)

  datatype Options = Options(filter: FilterOptions, rename: RenameOption)

  /**
   * What the `Program` visitor takes from its surroundings: `path.relative`
   * and `path.resolve`, micromatch's case-insensitive test of one pattern,
   * and `import-file` (None when the module cannot be loaded).
   */
  datatype Host = Host(
    relative: (string, string) -> string,
    resolve: (string, string) -> string,
    matches: Matcher,
    load: string -> Option<Hook>)

  /** The name the file filters see: the path relative to `cwd`, or `<source>` without a file name */
  function SourceName(filename: Option<string>, cwd: string, host: Host): (name: string)
    ensures !Truthy(filename) ==> name == "<source>"
  {
    if Truthy(filename) then host.relative(cwd, filename.value) else "<source>"
  }

  /** The `Program` visitor returns at once: the file has a name and the filters exclude it */
  predicate Skipped(opts: Options, filename: Option<string>, cwd: string, host: Host) {
    Truthy(filename) && Skip(opts.filter, SourceName(filename, cwd, host), host.matches)
  }

  /** The `rename` option names a module that cannot be loaded */
  predicate LoadFails(opts: Options, cwd: string, host: Host) {
    opts.rename.RenameModule? && host.load(host.resolve(cwd, opts.rename.modulePath)).None?
  }

  /** The hook the `Program` visitor sets up: the `rename` function, or what the module it names exports */
  function HookOf(opts: Options, cwd: string, host: Host): Option<Hook> {
    match opts.rename
    case NoRename => None
    case RenameFunction(hook) => Some(hook)
    case RenameModule(modulePath) => host.load(host.resolve(cwd, modulePath))
  }

  /** A file being transformed: its syntax tree and the names in use in its program scope */
  class Tree {
    var root: Node
    /** the labels, bindings, globals, references and uids of the program scope */
    var taken: set<string>
    /** the uids `generateDeclaredUidIdentifier` declared (as `var _default;`), in order */
    var declared: seq<string>

    /** Every declared uid is in use, and no two are the same */
    ghost predicate Valid()
      reads this
    {
      (forall u :: u in declared ==> u in taken) &&
      forall i, j :: 0 <= i < j < |declared| ==> declared[i] != declared[j]
    }

    constructor (program: Node, names: set<string>)
      ensures root == program && taken == names && declared == []
      ensures Valid()
    {
      root := program;
      taken := names;
      declared := [];
    }

    /**
     * `setDisplayNameAfter`: inserts `target.displayName = "name";` right
     * after the nearest ancestor-or-self of the node at `p` whose parent is
     * a statement list, if there is one.
     */
    method SetDisplayNameAfter(p: Path, target: LVal, name: string)
      requires ValidPath(root, p)
      modifies this
      ensures root == Annotate(old(root), p, target, name)
      ensures taken == old(taken) && declared == old(declared)
    {
      var level := BlockLevel(root, p);
      if level.Some? {
        BlockLevelInBlock(root, p);
        root := InsertAll(root, p[..level.value], [DisplayNameStatement(target, name)]);
      }
    }

    /**
     * `getTargetNode`: the binding the component at `p` is stored in. An
     * anonymous non-class `export default` declaration is first rewritten
     * into `uid = declaration` with a fresh `_default` uid.
     */
    method GetTargetNode(p: Path) returns (t: Result<Option<LVal>>)
      requires Valid() && ValidPath(root, p)
      modifies this
      ensures Valid()
      ensures var c, n := CtxOf(old(root), p), At(old(root), p);
        !Binds(c, n) ==> t == Target(c, n) && root == old(root) && taken == old(taken) && declared == old(declared)
      ensures var c, n := CtxOf(old(root), p), At(old(root), p);
        Binds(c, n) ==>
          var uid := FreshUid(old(taken));
          t == Ok(Some(LVal(Some(uid)))) && taken == old(taken) + {uid} && declared == old(declared) + [uid] &&
          root == Replace(old(root), p, AssignmentExpression(LVal(Some(uid)), n))
    {
      var n := At(root, p);
      if n.ClassDeclaration? {
        return Ok(n.id);
      } else if p == [] {
        return Err(TypeError);
      } else if At(root, Parent(p)).ExportDefaultDeclaration? {
        if DeclId(n).None? {
          var uid, _ := GenerateUid(taken);
          var id := LVal(Some(uid));
          taken := taken + {uid};
          declared := declared + [uid];
          root := Replace(root, p, AssignmentExpression(id, n));
          return Ok(Some(id));
        }
        return Ok(DeclId(n));
      } else if n.ArrowFunctionExpression? || n.FunctionExpression? {
        NearestDeclaratorSpec(root, p);
        var d := NearestDeclarator(root, p);
        if d.None? {
          return Err(TypeError);
        }
        return Ok(Some(At(root, p[..d.value]).target));
      } else if n.FunctionDeclaration? {
        return Ok(n.fid);
      }
      return Err(TypeError);
    }

    /**
     * The `ClassDeclaration` visitor: a class with a `render` method gets
     * its `displayName`; its members are not visited.
     */
    method VisitClass(p: Path, st: State) returns (err: Option<Error>, ghost sub: Node, ghost added: seq<Node>)
      requires Valid() && ValidPath(root, p) && At(root, p).ClassDeclaration?
      modifies this
      ensures Valid() && taken == old(taken) && declared == old(declared)
      ensures var n := At(old(root), p);
        if !HasRenderMethod(n) then err.None? && root == old(root)
        else if n.id.None? then err == Some(TypeError) && root == old(root)
        else err.None? && root == Annotate(old(root), p, n.id.value, GetName(n.id, st).value)
      ensures var w := ClassOutcome(At(old(root), p), st, old(taken));
        err == w.err && (err.None? ==> sub == w.sub && added == w.added)
      ensures err.None? ==> root == Edit(old(root), p, sub, added) && Strip(sub) == Strip(At(old(root), p)) && AllAnnotations(added)
    {
      var n := At(root, p);
      sub, added := n, [];
      EditUnchanged(root, p);
      var isComponent := ClassHasRenderMethod(n);
      if !isComponent {
        return None, sub, added;
      }
      var id := GetTargetNode(p);
      var name := GetName(id.value, st);
      if name.Err? {
        return Some(name.error), sub, added;
      }
      ghost var r0 := root;
      SetDisplayNameAfter(p, id.value.value, name.value);
      added := [DisplayNameStatement(id.value.value, name.value)];
      AnnotateIsEdit(r0, p, id.value.value, name.value);
      return None, sub, added;
    }

    /**
     * The `Function` visitor: a function whose body holds JSX gets the
     * `displayName` of its binding, except an arrow or a function
     * expression outside any variable declarator; its body is not visited.
     */
    method VisitFunction(p: Path, st: State) returns (err: Option<Error>, ghost sub: Node, ghost added: seq<Node>)
      requires Valid() && ValidPath(root, p) && IsFunction(At(root, p))
      modifies this
      ensures Valid() && old(taken) <= taken && old(declared) <= declared
      ensures var c, n := CtxOf(old(root), p), At(old(root), p);
        !Component(c, n) ==> err.None? && root == old(root) && taken == old(taken) && declared == old(declared)
      ensures var c, n := CtxOf(old(root), p), At(old(root), p);
        Component(c, n) && !Binds(c, n) ==>
          taken == old(taken) && declared == old(declared) &&
          var t := Target(c, n);
          if t.Err? || t.value.None? then err == Some(TypeError)
          else err.None? && root == Annotate(old(root), p, t.value.value, GetName(t.value, st).value)
      ensures var c, n := CtxOf(old(root), p), At(old(root), p);
        Component(c, n) && Binds(c, n) ==>
          var id := LVal(Some(FreshUid(old(taken))));
          err.None? && root == Edit(old(root), p, AssignmentExpression(id, n), [DisplayNameStatement(id, GetName(Some(id), st).value)])
      ensures var w := FunctionOutcome(CtxOf(old(root), p), At(old(root), p), st, old(taken));
        err == w.err && (err.None? ==> sub == w.sub && added == w.added && taken == w.taken && declared == old(declared) + w.uids)
      ensures err.None? ==> root == Edit(old(root), p, sub, added) && Strip(sub) == Strip(At(old(root), p)) && AllAnnotations(added)
    {
      var n := At(root, p);
      ghost var r0 := root;
      ghost var c := CtxOf(r0, p);
      FunctionOutcomeCases(c, n, st, taken);
      sub, added := n, [];
      EditUnchanged(r0, p);
      var jsx := DoesReturnJSX(n.fbody);
      if !jsx {
        return None, sub, added;
      }
      if n.ArrowFunctionExpression? || n.FunctionExpression? {
        if NearestDeclarator(root, p).None? {
          return None, sub, added;
        }
      }
      var t := GetTargetNode(p);
      if t.Err? {
        return Some(t.error), sub, added;
      }
      var name := GetName(t.value, st);
      if name.Err? {
        return Some(name.error), sub, added;
      }
      sub := if Binds(c, n) then AssignmentExpression(t.value.value, n) else n;
      ReplaceSelf(r0, p);
      ReplaceAt(r0, p, sub);
      SetDisplayNameAfter(p, t.value.value, name.value);
      added := [DisplayNameStatement(t.value.value, name.value)];
      AnnotateAfterReplace(r0, p, sub, t.value.value, name.value);
      return None, sub, added;
    }

    /**
     * The traversal's visit of the node at `p`: the visitors for class
     * declarations and functions, and otherwise a visit of each child. It
     * does exactly what `Walk` describes: the node at `p` is replaced by
     * the walk's node and the walk's statements are inserted after the
     * statement that holds it.
     */
    method Visit(p: Path, ghost n: Node, st: State) returns (err: Option<Error>, ghost sub: Node, ghost added: seq<Node>)
      requires Valid() && ValidPath(root, p) && At(root, p) == n
      modifies this
      decreases n, 3
      ensures Valid() && old(taken) <= taken && old(declared) <= declared
      ensures var w := Walk(CtxOf(old(root), p), n, st, old(taken));
        err == w.err && (err.None? ==> sub == w.sub && added == w.added && taken == w.taken && declared == old(declared) + w.uids)
      ensures err.Some? ==> err == Some(TypeError)
      ensures err.None? ==> root == Edit(old(root), p, sub, added) && Strip(sub) == Strip(n) && AllAnnotations(added)
      ensures Plain(n) ==>
        err.None? && root == old(root) && sub == n && added == [] && taken == old(taken) && declared == old(declared)
    {
      var node := At(root, p);
      if node.ClassDeclaration? {
        err, sub, added := VisitClass(p, st);
      } else if IsFunction(node) {
        if Plain(n) {
          PlainFunction(n);
        }
        err, sub, added := VisitFunction(p, st);
      } else if IsBlock(node) {
        ghost var r0 := root;
        err, sub := VisitStatements(p, n, st);
        added := [];
        EditNothing(r0, p, sub);
      } else {
        err, sub, added := VisitParts(p, n, st);
      }
    }

    /**
     * Visits the statements of the list at `p` in order, as `WalkList`
     * describes. The statements a visit inserts go right after the visited
     * statement and are skipped; the next original statement is visited at
     * its shifted position.
     */
    method VisitStatements(p: Path, ghost n: Node, st: State) returns (err: Option<Error>, ghost sub: Node)
      requires Valid() && ValidPath(root, p) && At(root, p) == n && IsBlock(n)
      modifies this
      decreases n, 1
      ensures Valid() && old(taken) <= taken && old(declared) <= declared
      ensures var l := WalkList(ChildCtx(CtxOf(old(root), p), n), n, |Children(n)|, st, old(taken));
        err == l.err && (err.None? ==> Children(sub) == l.nodes && taken == l.taken && declared == old(declared) + l.uids)
      ensures err.Some? ==> err == Some(TypeError)
      ensures err.None? ==> root == Replace(old(root), p, sub) && SameShell(sub, n) && Strip(sub) == Strip(n)
      ensures Plain(n) ==>
        err.None? && root == old(root) && sub == n && taken == old(taken) && declared == old(declared)
    {
      ghost var r0 := root;
      ghost var cc := ChildCtx(CtxOf(r0, p), n);
      var count := |Children(At(root, p))|;
      sub := n;
      ReplaceSelf(r0, p);
      ListStart(n);
      err := None;
      var i, j: nat := 0, 0;
      while i < count && err.None?
        invariant i <= count == |Children(n)|
        invariant Valid() && old(taken) <= taken && old(declared) <= declared
        invariant err.Some? ==> err == Some(TypeError)
        invariant ValidPath(r0, p) && (err.None? ==> root == Replace(r0, p, sub) && ListProgress(n, sub, i, j))
        invariant ListWalked(cc, n, i, st, old(taken), old(declared), err, sub, j, taken, declared)
        invariant Plain(n) ==> err.None? && sub == n && j == i && taken == old(taken) && declared == old(declared)
      {
        err, sub, j := VisitStatementAt(p, n, r0, sub, i, j, st, Plain(n) && sub == n, cc, old(taken), old(declared));
        i := i + 1;
      }
      if err.None? {
        ListEnd(n, sub, j);
        ListDone(n, sub, j);
      }
      ListWalkedDone(cc, n, i, st, old(taken), old(declared), err, sub, j, taken, declared);
    }

    /**
     * One step of `VisitStatements`: visits statement `j` of the list
     * `cur` at `p`, which was statement `i` of the original list `n`, and
     * returns the list after the visit and the position of the next
     * original statement. `plain` says that the list holds nothing the
     * plugin reacts to and is still untouched; `cc`, `t0` and `d0` are the
     * context of the statements and the names in use and the uids declared
     * before the list was visited.
     */
    method VisitStatementAt(p: Path, ghost n: Node, ghost r0: Node, ghost cur: Node, i: nat, j: nat, st: State, ghost plain: bool,
                            ghost cc: Ctx, ghost t0: set<string>, ghost d0: seq<string>)
      returns (err: Option<Error>, ghost next: Node, j': nat)
      requires Valid() && ValidPath(r0, p) && root == Replace(r0, p, cur)
      requires ListProgress(n, cur, i, j) && i < |Children(n)|
      requires plain ==> Plain(n) && cur == n
      requires cc == ChildCtx(CtxOf(r0, p), n)
      requires ListWalked(cc, n, i, st, t0, d0, None, cur, j, taken, declared)
      modifies this
      decreases n, 0
      ensures Valid() && old(taken) <= taken && old(declared) <= declared
      ensures err.Some? ==> err == Some(TypeError)
      ensures err.None? ==> root == Replace(r0, p, next) && ListProgress(n, next, i + 1, j')
      ensures ListWalked(cc, n, i + 1, st, t0, d0, err, next, j', taken, declared)
      ensures plain ==>
        err.None? && next == n && j' == j + 1 && taken == old(taken) && declared == old(declared)
    {
      ghost var child := Children(n)[i];
      StatementEntry(r0, p, n, cur, i, j);
      StatementCtx(r0, p, n, cur, j);
      var before := |Children(At(root, p))|;
      ghost var s, a;
      err, s, a := Visit(p + [j], child, st);
      next, j' := cur, j;
      ListWalkStep(cc, n, i, st, t0, d0);
      if err.None? {
        StatementsStep(r0, p, n, cur, i, j, s, a);
        next := NextList(cur, j, s, a);
        j' := j + 1 + (|Children(At(root, p))| - before);
        if plain {
          SpliceNothing(cur, j);
        }
      }
    }

    /**
     * Visits the children of the node at `p`, which is not a statement
     * list, in order, as `WalkParts` describes; what they insert goes after
     * the statement that holds the node, each insertion before the earlier
     * ones.
     */
    method VisitParts(p: Path, ghost n: Node, st: State) returns (err: Option<Error>, ghost sub: Node, ghost added: seq<Node>)
      requires Valid() && ValidPath(root, p) && At(root, p) == n && !IsBlock(n)
      modifies this
      decreases n, 2
      ensures Valid() && old(taken) <= taken && old(declared) <= declared
      ensures var l := WalkParts(ChildCtx(CtxOf(old(root), p), n), n, |Children(n)|, st, old(taken));
        err == l.err &&
        (err.None? ==> Children(sub) == l.nodes && added == l.added && taken == l.taken && declared == old(declared) + l.uids)
      ensures err.Some? ==> err == Some(TypeError)
      ensures err.None? ==>
        root == Edit(old(root), p, sub, added) && SameShell(sub, n) && Strip(sub) == Strip(n) && AllAnnotations(added)
      ensures Plain(n) ==>
        err.None? && root == old(root) && sub == n && added == [] && taken == old(taken) && declared == old(declared)
    {
      ghost var r0 := root;
      ghost var cc := ChildCtx(CtxOf(r0, p), n);
      EditUnchanged(r0, p);
      ghost var k;
      err, sub, added, k := VisitPartsLoop(p, n, r0, st, cc);
      PartsWalkedDone(cc, n, k, st, old(taken), old(declared), err, sub, added, taken, declared);
    }

    /**
     * The loop of `VisitParts`: visits the children of `n` at `p` in order
     * until one fails, and returns how many it visited.
     */
    method VisitPartsLoop(p: Path, ghost n: Node, ghost r0: Node, st: State, ghost cc: Ctx)
      returns (err: Option<Error>, ghost sub: Node, ghost added: seq<Node>, ghost k: nat)
      requires Valid() && root == r0 && ValidPath(r0, p) && At(r0, p) == n && !IsBlock(n)
      requires cc == ChildCtx(CtxOf(r0, p), n)
      modifies this
      decreases n, 1
      ensures Valid() && old(taken) <= taken && old(declared) <= declared
      ensures err.Some? ==> err == Some(TypeError)
      ensures k <= |Children(n)| && (err.None? ==> k == |Children(n)|)
      ensures err.None? ==> root == Edit(r0, p, sub, added) && PartProgress(n, sub, k) && AllAnnotations(added)
      ensures PartsWalked(cc, n, k, st, old(taken), old(declared), err, sub, added, taken, declared)
      ensures Plain(n) ==> err.None? && sub == n && added == [] && taken == old(taken) && declared == old(declared)
    {
      EditUnchanged(r0, p);
      PartStart(n);
      var count := |Children(At(root, p))|;
      err, sub, added := None, n, [];
      var i := 0;
      while i < count && err.None?
        invariant 0 <= i <= count == |Children(n)|
        invariant Valid() && old(taken) <= taken && old(declared) <= declared
        invariant err.Some? ==> err == Some(TypeError)
        invariant err.None? ==> root == Edit(r0, p, sub, added) && PartProgress(n, sub, i) && AllAnnotations(added)
        invariant PartsWalked(cc, n, i, st, old(taken), old(declared), err, sub, added, taken, declared)
        invariant Plain(n) ==> err.None? && sub == n && added == [] && taken == old(taken) && declared == old(declared)
      {
        err, sub, added := VisitPartAt(p, n, r0, sub, added, i, st, Plain(n) && sub == n && added == [], cc, old(taken), old(declared));
        i := i + 1;
      }
      k := i;
    }

    /**
     * One step of `VisitParts`: visits child `i` of the node `cur` at `p`,
     * whose original form is `n`; `added` are the statements inserted so
     * far, and `cc`, `t0` and `d0` are the context of the children and the
     * names in use and the uids declared before the node was visited.
     */
    method VisitPartAt(p: Path, ghost n: Node, ghost r0: Node, ghost cur: Node, ghost added: seq<Node>, i: nat, st: State,
                       ghost plain: bool, ghost cc: Ctx, ghost t0: set<string>, ghost d0: seq<string>)
      returns (err: Option<Error>, ghost next: Node, ghost added': seq<Node>)
      requires Valid() && ValidPath(r0, p) && root == Edit(r0, p, cur, added)
      requires PartProgress(n, cur, i) && i < |Children(n)| && AllAnnotations(added)
      requires plain ==> Plain(n) && cur == n && added == []
      requires cc == ChildCtx(CtxOf(r0, p), n)
      requires PartsWalked(cc, n, i, st, t0, d0, None, cur, added, taken, declared)
      modifies this
      decreases n, 0
      ensures Valid() && old(taken) <= taken && old(declared) <= declared
      ensures err.Some? ==> err == Some(TypeError)
      ensures err.None? ==> root == Edit(r0, p, next, added') && PartProgress(n, next, i + 1) && AllAnnotations(added')
      ensures PartsWalked(cc, n, i + 1, st, t0, d0, err, next, added', taken, declared)
      ensures plain ==>
        err.None? && next == n && added' == [] && taken == old(taken) && declared == old(declared)
    {
      ghost var child := Children(n)[i];
      PartEntry(r0, p, n, cur, added, i);
      PartCtx(r0, p, n, cur, added, i);
      ghost var s, a;
      ghost var taken0, declared0 := taken, declared;
      err, s, a := Visit(p + [i], child, st);
      next, added' := cur, added;
      if err.None? {
        PartStep(r0, p, n, cur, added, i, s, a);
        next, added' := WithChildren(cur, Children(cur)[i := s]), a + added;
      }
      PartsWalkedStep(cc, n, i, st, t0, d0, cur, added, taken0, declared0, err, s, a, next, added', taken, declared);
    }

    /**
     * The `Program` visitor: a named file the filters exclude is left as it
     * is; otherwise the `rename` hook is set up (loading its module if the
     * option is a path) and the program's statements are visited.
     * `Ok(true)`: the program was traversed, `Ok(false)`: the file was
     * skipped.
     */
    method Transform(opts: Options, filename: Option<string>, cwd: string, host: Host) returns (res: Result<bool>)
      requires Valid() && root.Program?
      modifies this
      ensures Valid() && old(taken) <= taken && old(declared) <= declared
      ensures Skipped(opts, filename, cwd, host) ==> res == Ok(false) && root == old(root)
      ensures !Skipped(opts, filename, cwd, host) && LoadFails(opts, cwd, host) ==>
        res == Err(LoadError) && root == old(root)
      ensures !Skipped(opts, filename, cwd, host) && !LoadFails(opts, cwd, host) ==>
        res == Ok(true) || res == Err(TypeError)
      ensures res == Ok(true) ==> root.Program? && Strip(root) == Strip(old(root))
      ensures res == Ok(true) ==> DisplayCount(root) == DisplayCount(old(root)) + Components(RootCtx, old(root))
      ensures !Skipped(opts, filename, cwd, host) && !LoadFails(opts, cwd, host) ==>
        var w := Walk(RootCtx, old(root), State(HookOf(opts, cwd, host), filename, cwd), old(taken));
        (res.Ok? <==> w.err.None?) &&
        (res.Ok? ==> root == w.sub && taken == w.taken && declared == old(declared) + w.uids)
      ensures !Skipped(opts, filename, cwd, host) && !LoadFails(opts, cwd, host) && Plain(old(root)) ==>
        res == Ok(true) && root == old(root) && taken == old(taken) && declared == old(declared)
    {
      var name := if Truthy(filename) then host.relative(cwd, filename.value) else "<source>";
      if Truthy(filename) && Skip(opts.filter, name, host.matches) {
        return Ok(false);
      }
      var rename: Option<Hook> := None;
      match opts.rename {
        case NoRename =>
        case RenameFunction(hook) =>
          rename := Some(hook);
        case RenameModule(modulePath) =>
          var loaded := host.load(host.resolve(cwd, modulePath));
          if loaded.None? {
            return Err(LoadError);
          }
          rename := loaded;
      }
      var st := State(rename, filename, cwd);
      ghost var r0 := root;
      assert CtxOf(r0, []) == RootCtx;
      var err, sub := VisitStatements([], root, st);
      if err.Some? {
        return Err(err.value);
      }
      assert sub == WithChildren(r0, Children(sub));
      ShellKind(sub, r0);
      ProgramCount(r0, st, old(taken));
      return Ok(true);
    }
  }
}
