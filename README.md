# babel-plugin-react-rename, modelled in Dafny

This project models `src/createReactRenamePlugin.js`, a Babel plugin. The plugin gives React components a
`displayName`: after each class declaration that has a `render` method, and after each function whose
body holds a JSX element, it inserts the statement `target.displayName = "name";`. `target` is the
binding the component is stored in. `name` is that binding's name, passed through an optional
user-supplied `rename` hook. A program-level visitor first skips files excluded by the `only` / `ignore`
glob options and loads the hook, then traverses the program.

The modules follow the parts of the plugin:

- `Ast` (ast.dfy): the syntax tree.
  - Only the node types the plugin inspects are distinguished; every other node is `Other` with its
    children in traversal order.
  - Every child the traversal enters has a slot: a function's computed key, parameters and their
    default values (`head`), the nodes inside a declarator's destructuring pattern (`pattern`), and
    the name and attributes of a JSX opening element (`attrs`).
  - Two node types are created by the plugin itself: the `uid = value` binding of an anonymous default
    export (`AssignmentExpression`) and the inserted display-name statement (`DisplayNameStatement`).
- `Paths` (paths.dfy): positions in the tree, given as sequences of child indices.
  - The two tree edits: replacing the node at a path, and inserting statements after a statement.
  - The two ancestor searches: `path.find(p => p.parentPath.isBlock())` (`BlockLevel`) and
    `path.findParent(p => p.isVariableDeclarator())` (`NearestDeclarator`).
- `FileFilter` (filter.dfy): `skip`.
- `Classify` (classify.dfy): `classHasRenderMethod` and `doesReturnJSX`, as loops.
- `Naming` (naming.dfy): `getName` and the rename hook.
- `Uid` (uid.dfy): the `_default`, `_default2`, … names of `generateDeclaredUidIdentifier('default')`.
- `Annotations` (strip.dfy): `Strip` removes everything the plugin adds.
  - It drops the display-name statements and unwraps `uid = value`.
  - Every visit keeps `Strip` of the program unchanged, so the plugin only ever adds to a program.
- `Edits` (edits.dfy): the effect of one visit.
  - `Edit`: the visited node is replaced by a new subtree, and statements are inserted after the
    statement that contains it.
  - `Annotate`: what `setDisplayNameAfter` does.
  - Lemmas that compose these effects the way the traversal does.
- `Traversal` (walk.dfy): what the traversal computes, as a structural recursion.
  - `Ctx` is all that a visit reads from the ancestors of its node: whether it is the root, whether
    its parent is an `export default`, and the target of the nearest enclosing variable declarator.
  - `Walk` gives the outcome of the visit of a node: an error, or the node that replaces it, the
    statements inserted after its statement, the names in use and the uids declared.
  - `WalkList` and `WalkParts` do the same for the children of a statement list and of any other node.
- `Counting` (count.dfy): one display-name statement per outermost component.
  - `Components` counts the classes with a `render` method and the functions the `Function` visitor
    annotates, without descending into either.
  - `WalkCount` proves that a successful walk adds exactly that many display-name statements.
- `Plugin` (plugin.dfy): a class `Tree` holding the program, the names in use in its scope, and the
  uids declared so far. Its methods change that state in place:
  - `SetDisplayNameAfter`, `GetTargetNode`;
  - the `ClassDeclaration` and `Function` visitors;
  - the depth-first traversal;
  - the `Program` visitor (`Transform`).

  Every method is proved to do what `Walk` describes for the context of its node. `CtxOf` computes
  that context from the path, and it is unchanged by the edits the visits of earlier siblings make.

Both visitors call `path.skip()`, so nothing inside a class declaration or a function is traversed, and
a component nested in another component gets no `displayName`. Every error the plugin can raise is a
value:

- `TypeError` for the cases where the code throws: an unsupported node reaches `getTargetNode`, or a
  `null` target's `.name` is read;
- `LoadError` when the `rename` module cannot be loaded.

Two behaviours of the code are easy to overlook:

- `export default () => <div/>` gets no `displayName`. The `Function` visitor returns early for an
  arrow or a function expression outside any variable declarator (src/createReactRenamePlugin.js:112-115),
  before `getTargetNode` looks at default exports. The `_default` naming, which the test at
  test/spec/createReactRenamePlugin.spec.js:58-62 expects for a default-exported stateless component,
  applies to an anonymous default-exported function declaration.
- An anonymous class declaration, default-exported or not, raises `TypeError`. `getTargetNode` checks
  for a class declaration first and returns its absent `id`, and `getName(null)` reads `.name` of
  `null`.

## Model

| member | source | states |
|---|---|---|
| FileFilter.MatchesAny | src/createReactRenamePlugin.js:8-12 | true exactly when some pattern of the list matches the file |
| FileFilter.Micromatch | src/createReactRenamePlugin.js:8-12 | matching the one-file list gives at most one file, and gives `[file]` exactly when some pattern matches |
| FileFilter.Skip | src/createReactRenamePlugin.js:6-22 | if `only` is set, the file is skipped iff no `only` pattern matches. Otherwise, if `ignore` is set, it is skipped iff some `ignore` pattern matches. With neither set it is never skipped |
| FileFilter.OnlyOverridesIgnore | src/createReactRenamePlugin.js:7-13 | with `only` set, the decision does not depend on `ignore` |
| FileFilter.SinglePatternIsList | src/createReactRenamePlugin.js:10-17 | a single pattern decides like a one-element array, for both `only` and `ignore` |
| FileFilter.EmptyOnlySkipsEverything | src/createReactRenamePlugin.js:7-12 | an empty `only` array is truthy, so every file is skipped |
| FileFilter.EmptyStringOnlyIsUnset | src/createReactRenamePlugin.js:7-14 | `only: ''` is falsy and decides exactly as if `only` were absent |
| Classify.ClassHasRenderMethod | src/createReactRenamePlugin.js:24-35 | true iff the class has a body and one of its members is a `ClassMethod` whose key is `render` |
| Classify.Enter | src/createReactRenamePlugin.js:39-48 | after visiting a subtree, `found` is its old value or-ed with "the subtree holds a JSX opening element". A set flag is never cleared |
| Classify.DoesReturnJSX | src/createReactRenamePlugin.js:37-51 | true iff some node strictly below the function body is a JSX opening element |
| Naming.BaseName | src/createReactRenamePlugin.js:88 | never empty: the identifier's name when it is a non-empty string, `"null"` otherwise |
| Naming.GetName | src/createReactRenamePlugin.js:87-94 | fails with TypeError iff the target is absent. Otherwise the name is non-empty: the hook's answer when a hook is set and answers a non-empty string, the base name otherwise |
| Naming.NoHookGivesBaseName | src/createReactRenamePlugin.js:89-93 | without a hook the display name is the base name |
| Naming.DecliningHookGivesBaseName | src/createReactRenamePlugin.js:91 | a hook answering a falsy value leaves the base name |
| Naming.UpperCaseHookExample | src/createReactRenamePlugin.js:89-91 | with the hook `name => name.toUpperCase()`, a component bound to `foo` is named `FOO` |
| Naming.NamelessTargetIsNull | src/createReactRenamePlugin.js:88 | without a hook, a target without a name, or with an empty name, is named `null` |
| Uid.DecimalInjective | src/createReactRenamePlugin.js:71 | different counters give different decimal suffixes |
| Uid.CandidateInjective | src/createReactRenamePlugin.js:71 | the candidate names `_default`, `_default2`, … are pairwise different |
| Uid.FirstFreeUnique | src/createReactRenamePlugin.js:71 | the generated name is determined by the set of names in use |
| Uid.FirstFreeExists | src/createReactRenamePlugin.js:71 | for every finite set of names in use, some candidate is free and all earlier candidates are in use |
| Uid.FreshUid | src/createReactRenamePlugin.js:71 | the name generated for a set of names in use: not in use, and every earlier candidate is in use |
| Uid.GenerateUid | src/createReactRenamePlugin.js:71 | the result is not in use, and every earlier candidate is in use. It is `_default` when that is free, and it is `FreshUid` of the names in use |
| Paths.BlockLevelSpec | src/createReactRenamePlugin.js:54 | `BlockLevel` finds the nearest ancestor-or-self whose parent is a statement list. None lies between it and the node; with no result, none exists |
| Paths.NearestDeclaratorSpec | src/createReactRenamePlugin.js:79 | `NearestDeclarator` finds the nearest strict ancestor that is a variable declarator. None lies between it and the node; with no result, none exists |
| Paths.InsertBelow | src/createReactRenamePlugin.js:62 | inserting after a statement changes nothing at or below that statement |
| Paths.InsertTwice | src/createReactRenamePlugin.js:62 | two insertions after the same statement give the later one first |
| Paths.InsertThenReplace | src/createReactRenamePlugin.js:72-74 | replacing a node at or below a statement commutes with inserting after that statement |
| Paths.InsertSameAncestors | src/createReactRenamePlugin.js:62 | an insertion after a statement keeps the types and attributes of every ancestor of the nodes below it |
| Paths.BlockLevelAgrees | src/createReactRenamePlugin.js:54 | the block-level statement of a node depends only on the kinds of its ancestors |
| Paths.DeclaratorAgrees | src/createReactRenamePlugin.js:79 | the nearest declarator, and the target it declares, depend only on the ancestors |
| Annotations.StripOriginal | src/createReactRenamePlugin.js:57-62 | a program without plugin-made nodes strips to itself |
| Annotations.StripReplace | src/createReactRenamePlugin.js:72-74 | replacing a node by one with the same stripped form keeps the stripped program |
| Annotations.StripInsert | src/createReactRenamePlugin.js:62 | inserting display-name statements after a statement keeps the stripped program |
| Edits.AnnotateInserts | src/createReactRenamePlugin.js:53-64 | the statement list holding the block-level statement gains exactly one statement, `target.displayName = "name"`, right after it. The other statements keep their order, and the annotated node is unchanged |
| Edits.StripAnnotate | src/createReactRenamePlugin.js:53-64 | an annotation changes nothing but what `Strip` removes |
| Edits.AnnotateIsEdit | src/createReactRenamePlugin.js:100-103 | annotating a class is the edit that keeps the node and adds one display-name statement |
| Edits.AnnotateAfterReplace | src/createReactRenamePlugin.js:117-118 | binding a default export and then annotating it is one edit: the node replaced, one statement added |
| Edits.StripEdit | src/createReactRenamePlugin.js:98-119 | a visit that keeps its node's stripped form and adds only display-name statements keeps the stripped program |
| Edits.EditPart | src/createReactRenamePlugin.js:134 | the visits of the children of a non-list node compose into one edit of that node. Later insertions come before earlier ones |
| Edits.StatementsStep | src/createReactRenamePlugin.js:134 | visiting one statement of a list replaces it and puts its insertions right after it. The unvisited statements follow unchanged and the list keeps its stripped prefix |
| Edits.ListEnd | src/createReactRenamePlugin.js:134 | a statement list visited to the end strips to the original list |
| Traversal.Target | src/createReactRenamePlugin.js:66-85 | for a node that needs no new binding: a class gets its own id; any other node at the root raises TypeError; a named default-exported node gets its own id; an arrow or function expression gets the target of the nearest variable declarator, TypeError when there is none; a function declaration gets its own id; any other node raises TypeError. Only TypeError is raised |
| Traversal.ListErrorStays | src/createReactRenamePlugin.js:134 | once the visit of a statement fails, the later statements are not visited and the failure is the outcome of the list |
| Traversal.PartsErrorStays | src/createReactRenamePlugin.js:134 | once the visit of a child fails, the later children are not visited and the failure is the outcome of the node |
| Counting.WalkCount | src/createReactRenamePlugin.js:97-134 | a successful visit of a node adds exactly one display-name statement per outermost component below it (a class with `render`, or a function the `Function` visitor annotates), counting the node that replaces it and the statements inserted after it |
| Counting.ProgramCount | src/createReactRenamePlugin.js:134 | a successful traversal of a program adds exactly one display-name statement per outermost component |
| Plugin.CtxOfSpec | src/createReactRenamePlugin.js:69-79 | the context of a node: the root exactly at the empty path; exported exactly when the parent is an `export default`; the declarator target is that of the nearest strict ancestor that is a variable declarator, and absent exactly when there is none |
| Plugin.CtxOfChild | src/createReactRenamePlugin.js:69-79 | the context of a child is `ChildCtx` of its parent's context and the parent node |
| Plugin.CtxOfAgrees | src/createReactRenamePlugin.js:69-79 | the context of a node depends only on the kinds and attributes of its ancestors, so edits beside and below it do not change it |
| Plugin.SourceName | src/createReactRenamePlugin.js:125-126 | without a file name the label is `<source>`; a file without a name is never filtered, since the filters apply only when the name is truthy |
| Plugin.Tree.SetDisplayNameAfter | src/createReactRenamePlugin.js:53-64 | the new tree is `Annotate` of the old one, and the names in use are unchanged |
| Plugin.Tree.GetTargetNode | src/createReactRenamePlugin.js:66-85 | a node needing no binding gets `Target` of its context with nothing changed. An anonymous default-exported non-class node is wrapped as `uid = node`, with the first free `_default` uid (`FreshUid`) recorded as taken and declared, and the uid is returned |
| Plugin.Tree.VisitClass | src/createReactRenamePlugin.js:98-104 | a class without `render` is left alone. An anonymous one raises TypeError. Otherwise the tree is annotated with the class's id and its name. The effect is `ClassOutcome` |
| Plugin.Tree.VisitFunction | src/createReactRenamePlugin.js:105-119 | the tree is unchanged unless the body holds JSX and an arrow or function expression is inside a declarator. Otherwise the target is `Target` of the node's context, or a fresh uid binding is made, and the display-name statement is inserted. TypeError where the target cannot be resolved; the stripped node is kept. The effect is `FunctionOutcome` |
| Plugin.Tree.Visit | src/createReactRenamePlugin.js:97-120 | the error, the node that replaces the visited one, the inserted statements, the names in use and the uids declared are exactly those of `Walk` on the node's context, and the tree is that edit of the old one. It keeps the stripped form and adds only display-name statements; a subtree with no class and no JSX is left untouched |
| Plugin.Tree.VisitStatements | src/createReactRenamePlugin.js:134 | the statements of a list are visited in order: the error, the new statements, the names in use and the uids declared are exactly those of `WalkList`. The list keeps its kind and its stripped form, and a list with nothing to react to is unchanged |
| Plugin.Tree.VisitStatementAt | src/createReactRenamePlugin.js:134 | one step of the statement loop extends the agreement with `WalkList` by one original statement. The position of the next original statement skips the inserted statements |
| Plugin.Tree.VisitParts | src/createReactRenamePlugin.js:134 | the children of a non-list node are visited in order: the error, the new children, the inserted statements, the names in use and the uids declared are exactly those of `WalkParts`, and the result is one edit of the node that keeps its stripped form |
| Plugin.Tree.VisitPartsLoop | src/createReactRenamePlugin.js:134 | the child loop stops at the first failing child or after the last child, and the children it visited agree with `WalkParts` of that many children; a node with nothing to react to is left as it is |
| Plugin.Tree.VisitPartAt | src/createReactRenamePlugin.js:134 | one step of the child loop extends the agreement with `WalkParts` by one child |
| Plugin.Tree.Transform | src/createReactRenamePlugin.js:123-134 | a named file the filters exclude gives `Ok(false)` and an unchanged tree. A `rename` module that cannot be loaded gives LoadError. Otherwise the program is traversed as `Walk` describes from the root context, with the hook set up from the option: it fails exactly when the walk fails, and on success the tree, the names in use and the declared uids are the walk's. A successful traversal strips to the original program and adds exactly one display-name statement per outermost component; a program with nothing to react to is unchanged |

## Left out

- Babel itself is not modelled. This covers parsing, printing, scopes beyond the set of names in use, builder validation, and re-queueing: replaced and inserted nodes are not visited again.
- The traversal visits only the original children of a statement list. The inserted display-name statements hold no class or function, so a visit of them would find nothing.
- The `var _default;` declaration that `generateDeclaredUidIdentifier` adds to the program scope is recorded in `Tree.declared`, not inserted into the tree.
- `path.relative`, `path.resolve`, micromatch's pattern test and `import-file` are parameters (`Host`). Micromatch's glob syntax, negated patterns and `nocase` matching are left to that parameter: a list matches when one of its patterns does.
- Naming.GetName: a hook is modelled as answering a string or a falsy value. A truthy non-string answer, which the code would pass through as the display name, is not modelled.
- Naming.Upper: upper-cases ASCII letters only, not the full Unicode mapping of `toUpperCase`.
- Plugin.Tree.Transform: which programs raise TypeError is stated through `Walk`, not as a closed condition on the program. The per-node conditions are stated by `VisitClass`, `VisitFunction` and `Target`.
- When `path.find` or `parentPath` reaches the program node, the code reads a property of `null`. The model instead returns "no block-level statement" at the root of the tree. Under a `Program` root every node lies below a statement of the program, so this case does not arise there.
- An exception aborts the whole transform. The model stops the traversal at the first error and returns it; the partly edited tree is then of no further use.
