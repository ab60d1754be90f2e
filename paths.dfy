/**
 * Node paths: a path is the sequence of child indices that leads from the
 * root to a node, so the ancestors of the node at `p` are the nodes at the
 * prefixes of `p`. Replacing the node at a path and inserting statements
 * after a block-level node are the two tree edits the plugin makes.
 */
module Paths {
  import opened Ast

  type Path = seq<nat>

  function Parent(p: Path): Path
    requires p != []
  {
    p[..|p| - 1]
  }

  function Last(p: Path): nat
    requires p != []
  {
    p[|p| - 1]
  }

  predicate ValidPath(r: Node, p: Path)
    decreases |p|, 0
  {
    p == [] || (ValidPath(r, Parent(p)) && Last(p) < |Children(At(r, Parent(p)))|)
  }

  /** The node at path `p` */
  function At(r: Node, p: Path): Node
    requires ValidPath(r, p)
    decreases |p|, 1
  {
    if p == [] then r else Children(At(r, Parent(p)))[Last(p)]
  }

  /** `r` with the node at path `p` replaced by `m` */
  function Replace(r: Node, p: Path, m: Node): Node
    requires ValidPath(r, p)
    decreases |p|
  {
    if p == [] then m
    else
      var up := At(r, Parent(p));
      Replace(r, Parent(p), WithChildren(up, Children(up)[Last(p) := m]))
  }

  lemma ParentOfAppend(p: Path, s: Path)
    requires s != []
    ensures p + s != [] && Parent(p + s) == p + Parent(s) && Last(p + s) == Last(s)
  {
    assert (p + s)[..|p + s| - 1] == p + s[..|s| - 1];
  }

  /** A path is its prefix of length `k` followed by the rest. */
  lemma PrefixSplit(p: Path, k: nat)
    requires k <= |p|
    ensures p == p[..k] + p[k..]
  {
  }

  /** A non-empty path is its parent path followed by its last index. */
  lemma LastSplit(a: Path, s: Path)
    requires a != []
    ensures a == Parent(a) + [Last(a)]
    ensures a + s == Parent(a) + ([Last(a)] + s)
  {
    assert a == Parent(a) + [Last(a)];
  }

  /** The path `p + s` leads to the node at `s` below the node at `p`. */
  lemma {:induction false} AtAppend(r: Node, p: Path, s: Path)
    ensures ValidPath(r, p + s) <==> ValidPath(r, p) && ValidPath(At(r, p), s)
    ensures ValidPath(r, p + s) ==> At(r, p + s) == At(At(r, p), s)
    decreases |s|
  {
    if s == [] {
      assert p + s == p;
    } else {
      ParentOfAppend(p, s);
      AtAppend(r, p, Parent(s));
    }
  }

  lemma PrefixValid(r: Node, p: Path, k: nat)
    requires ValidPath(r, p) && k <= |p|
    ensures ValidPath(r, p[..k])
  {
    PrefixSplit(p, k);
    AtAppend(r, p[..k], p[k..]);
  }

  /** After `Replace(r, p, m)` the node at `p` is `m`. */
  lemma {:induction false} ReplaceAt(r: Node, p: Path, m: Node)
    requires ValidPath(r, p)
    ensures ValidPath(Replace(r, p, m), p) && At(Replace(r, p, m), p) == m
    decreases |p|
  {
    if p != [] {
      var up := At(r, Parent(p));
      var up' := WithChildren(up, Children(up)[Last(p) := m]);
      ReplaceAt(r, Parent(p), up');
    }
  }

  /** Below the replaced node, paths lead into the new node. */
  lemma ReplaceBelow(r: Node, p: Path, m: Node, s: Path)
    requires ValidPath(r, p) && ValidPath(m, s)
    ensures ValidPath(Replace(r, p, m), p + s) && At(Replace(r, p, m), p + s) == At(m, s)
  {
    ReplaceAt(r, p, m);
    AtAppend(Replace(r, p, m), p, s);
  }

  /** Replacing a node by itself changes nothing. */
  lemma {:induction false} ReplaceSelf(r: Node, p: Path)
    requires ValidPath(r, p)
    ensures Replace(r, p, At(r, p)) == r
    decreases |p|
  {
    if p != [] {
      var up := At(r, Parent(p));
      assert Children(up)[Last(p) := At(r, p)] == Children(up);
      WithOwnChildren(up);
      ReplaceSelf(r, Parent(p));
    }
  }

  /** A second replacement at the same path overrides the first. */
  lemma {:induction false} ReplaceTwice(r: Node, p: Path, x: Node, y: Node)
    requires ValidPath(r, p)
    ensures ValidPath(Replace(r, p, x), p)
    ensures Replace(Replace(r, p, x), p, y) == Replace(r, p, y)
    decreases |p|
  {
    ReplaceAt(r, p, x);
    if p != [] {
      var q := Parent(p);
      var up := At(r, q);
      var ux := WithChildren(up, Children(up)[Last(p) := x]);
      var r1 := Replace(r, q, ux);
      ReplaceAt(r, q, ux);
      assert At(r1, q) == ux;
      WithChildrenTwice(up, Children(up)[Last(p) := x], Children(ux)[Last(p) := y]);
      assert Children(ux)[Last(p) := y] == Children(up)[Last(p) := y];
      ReplaceTwice(r, q, ux, WithChildren(up, Children(up)[Last(p) := y]));
    }
  }

  /** A replacement below a replaced node is a replacement inside the new node. */
  lemma {:induction false} ReplaceInside(r: Node, p: Path, x: Node, s: Path, y: Node)
    requires ValidPath(r, p) && ValidPath(x, s)
    ensures ValidPath(Replace(r, p, x), p + s)
    ensures Replace(Replace(r, p, x), p + s, y) == Replace(r, p, Replace(x, s, y))
    decreases |s|
  {
    ReplaceBelow(r, p, x, s);
    if s == [] {
      assert p + s == p;
      ReplaceTwice(r, p, x, y);
    } else {
      var r1 := Replace(r, p, x);
      ParentOfAppend(p, s);
      var q := Parent(s);
      var ax := At(x, q);
      ReplaceBelow(r, p, x, q);
      assert At(r1, p + q) == ax;
      var ax' := WithChildren(ax, Children(ax)[Last(s) := y]);
      assert Replace(r1, p + s, y) == Replace(r1, p + q, ax');
      ReplaceInside(r, p, x, q, ax');
    }
  }

  /** A replacement above a replaced node overrides it. */
  lemma {:induction false} ReplaceOver(r: Node, p: Path, s: Path, x: Node, y: Node)
    requires ValidPath(r, p + s)
    ensures ValidPath(r, p) && ValidPath(Replace(r, p + s, x), p)
    ensures Replace(Replace(r, p + s, x), p, y) == Replace(r, p, y)
    decreases |s|
  {
    AtAppend(r, p, s);
    if s == [] {
      assert p + s == p;
      ReplaceTwice(r, p, x, y);
    } else {
      ParentOfAppend(p, s);
      var q := Parent(s);
      var up := At(r, p + q);
      var ux := WithChildren(up, Children(up)[Last(s) := x]);
      assert Replace(r, p + s, x) == Replace(r, p + q, ux);
      ReplaceOver(r, p, q, ux, y);
    }
  }

  /** Above a replaced node, the ancestors see the replacement inside them. */
  lemma {:induction false} ReplaceAbove(r: Node, p: Path, s: Path, x: Node)
    requires ValidPath(r, p + s)
    ensures ValidPath(r, p) && ValidPath(At(r, p), s)
    ensures ValidPath(Replace(r, p + s, x), p)
    ensures At(Replace(r, p + s, x), p) == Replace(At(r, p), s, x)
    decreases |s|
  {
    AtAppend(r, p, s);
    if s == [] {
      assert p + s == p;
      ReplaceAt(r, p, x);
    } else {
      ParentOfAppend(p, s);
      var q := Parent(s);
      var up := At(r, p + q);
      var ux := WithChildren(up, Children(up)[Last(s) := x]);
      AtAppend(r, p, q);
      assert Replace(r, p + s, x) == Replace(r, p + q, ux);
      ReplaceAbove(r, p, q, ux);
    }
  }

  /** Replacing below a node keeps the node's type and attributes. */
  lemma {:induction false} ReplaceKeepsShell(a: Node, s: Path, x: Node)
    requires ValidPath(a, s) && s != []
    ensures SameShell(Replace(a, s, x), a)
    decreases |s|
  {
    var q := Parent(s);
    var up := At(a, q);
    var ux := WithChildren(up, Children(up)[Last(s) := x]);
    if q == [] {
      WithChildrenShell(a, Children(a)[Last(s) := x]);
    } else {
      ReplaceKeepsShell(a, q, ux);
    }
  }

  /** The strict ancestors of a replaced node keep their type and attributes. */
  lemma ReplaceKeepsAncestors(r: Node, q: Path, x: Node, k: nat)
    requires ValidPath(r, q) && k < |q|
    ensures ValidPath(r, q[..k]) && ValidPath(Replace(r, q, x), q[..k])
    ensures SameShell(At(Replace(r, q, x), q[..k]), At(r, q[..k]))
  {
    PrefixSplit(q, k);
    ReplaceAbove(r, q[..k], q[k..], x);
    ReplaceKeepsShell(At(r, q[..k]), q[k..], x);
  }

  // ---------------------------------------------------------------------
  // Inserting statements after a block-level node

  /** The node at `a` is a statement of a statement list */
  predicate InBlock(r: Node, a: Path) {
    a != [] && ValidPath(r, a) && IsBlock(At(r, Parent(a)))
  }

  /** The statement list `n` with `xs` inserted right after its `i`-th statement */
  function Splice(n: Node, i: nat, xs: seq<Node>): (r: Node)
    requires IsBlock(n) && i < |Children(n)|
    ensures IsBlock(r) && Children(r) == Children(n)[..i + 1] + xs + Children(n)[i + 1..]
  {
    WithChildren(n, Children(n)[..i + 1] + xs + Children(n)[i + 1..])
  }

  /** `xs` inserted, in this order, right after the statement at `a` */
  function InsertAll(r: Node, a: Path, xs: seq<Node>): Node
    requires InBlock(r, a)
  {
    Replace(r, Parent(a), Splice(At(r, Parent(a)), Last(a), xs))
  }

  lemma InsertNothing(r: Node, a: Path)
    requires InBlock(r, a)
    ensures InsertAll(r, a, []) == r
  {
    var up := At(r, Parent(a));
    var i := Last(a);
    assert Children(up)[..i + 1] + [] + Children(up)[i + 1..] == Children(up);
    WithOwnChildren(up);
    ReplaceSelf(r, Parent(a));
  }

  lemma ChildPath(n: Node, i: nat)
    requires i < |Children(n)|
    ensures ValidPath(n, [i]) && At(n, [i]) == Children(n)[i]
  {
    var p: Path := [i];
    assert Parent(p) == [] && Last(p) == i;
    assert ValidPath(n, Parent(p));
    assert At(n, Parent(p)) == n;
  }

  /** Two nodes with the same `i`-th child agree on the paths through it. */
  lemma SameChild(n: Node, n': Node, i: nat, s: Path)
    requires i < |Children(n)| && i < |Children(n')| && Children(n)[i] == Children(n')[i]
    ensures ValidPath(n, [i] + s) <==> ValidPath(n', [i] + s)
    ensures ValidPath(n, [i] + s) ==> At(n, [i] + s) == At(n', [i] + s)
  {
    ChildPath(n, i);
    ChildPath(n', i);
    AtAppend(n, [i], s);
    AtAppend(n', [i], s);
  }

  /** A path through child `i` replaces inside that child. */
  lemma ReplaceThroughChild(n: Node, i: nat, s: Path, x: Node)
    requires ValidPath(n, [i] + s)
    ensures i < |Children(n)| && ValidPath(Children(n)[i], s)
    ensures Replace(n, [i] + s, x) == WithChildren(n, Children(n)[i := Replace(Children(n)[i], s, x)])
  {
    assert Parent([i]) == [];
    AtAppend(n, [i], s);
    var c := Children(n)[i];
    ReplaceInside(n, [i], c, s, x);
    ReplaceSelf(n, [i]);
  }

  /** Below the statement at `a`, an insertion after `a` changes nothing. */
  lemma InsertBelow(r: Node, a: Path, xs: seq<Node>, s: Path)
    requires InBlock(r, a)
    ensures ValidPath(r, a + s) <==> ValidPath(InsertAll(r, a, xs), a + s)
    ensures ValidPath(r, a + s) ==> At(InsertAll(r, a, xs), a + s) == At(r, a + s)
    ensures InBlock(InsertAll(r, a, xs), a)
  {
    var q := Parent(a);
    var up := At(r, q);
    var i := Last(a);
    var up' := Splice(up, i, xs);
    var r1 := InsertAll(r, a, xs);
    assert Children(up')[i] == Children(up)[i];
    SameChild(up, up', i, s);
    var t := [i] + s;
    LastSplit(a, s);
    ReplaceAt(r, q, up');
    AtAppend(r, q, t);
    AtAppend(r1, q, t);
    SameChild(up, up', i, []);
    AtAppend(r1, q, [i]);
  }

  lemma SpliceTwice(n: Node, i: nat, xs: seq<Node>, ys: seq<Node>)
    requires IsBlock(n) && i < |Children(n)|
    ensures i < |Children(Splice(n, i, xs))|
    ensures Splice(Splice(n, i, xs), i, ys) == Splice(n, i, ys + xs)
  {
    var cs := Children(n);
    var cs1 := cs[..i + 1] + xs + cs[i + 1..];
    assert cs1[..i + 1] == cs[..i + 1];
    assert cs1[i + 1..] == xs + cs[i + 1..];
    assert cs1[..i + 1] + ys + cs1[i + 1..] == cs[..i + 1] + (ys + xs) + cs[i + 1..];
    WithChildrenTwice(n, cs1, cs1[..i + 1] + ys + cs1[i + 1..]);
  }

  /** Two insertions after the same statement: the later one comes first. */
  lemma InsertTwice(r: Node, a: Path, xs: seq<Node>, ys: seq<Node>)
    requires InBlock(r, a)
    ensures InBlock(InsertAll(r, a, xs), a)
    ensures InsertAll(InsertAll(r, a, xs), a, ys) == InsertAll(r, a, ys + xs)
  {
    InsertBelow(r, a, xs, []);
    var q := Parent(a);
    var up := At(r, q);
    var up1 := Splice(up, Last(a), xs);
    ReplaceAt(r, q, up1);
    SpliceTwice(up, Last(a), xs, ys);
    ReplaceTwice(r, q, up1, Splice(up, Last(a), ys + xs));
  }

  /** Inside one statement list, replacing below statement `i` commutes with splicing after it. */
  lemma SpliceThenReplace(n: Node, i: nat, xs: seq<Node>, s: Path, x: Node)
    requires IsBlock(n) && ValidPath(n, [i] + s)
    ensures i < |Children(n)|
    ensures ValidPath(Splice(n, i, xs), [i] + s)
    ensures IsBlock(Replace(n, [i] + s, x)) && i < |Children(Replace(n, [i] + s, x))|
    ensures Replace(Splice(n, i, xs), [i] + s, x) == Splice(Replace(n, [i] + s, x), i, xs)
  {
    ReplaceThroughChild(n, i, s, x);
    var cs := Children(n);
    var n1 := Splice(n, i, xs);
    assert Children(n1)[i] == cs[i];
    SameChild(n, n1, i, s);
    ReplaceThroughChild(n1, i, s, x);
    var c' := Replace(cs[i], s, x);
    var cs2 := cs[i := c'];
    assert Children(n1)[i := c'] == cs2[..i + 1] + xs + cs2[i + 1..];
    WithChildrenTwice(n, cs[..i + 1] + xs + cs[i + 1..], cs2[..i + 1] + xs + cs2[i + 1..]);
    WithChildrenTwice(n, cs2, cs2[..i + 1] + xs + cs2[i + 1..]);
  }

  /** A replacement at or below the statement at `a` leaves `a` a statement of its list. */
  lemma ReplaceKeepsInBlock(r: Node, a: Path, s: Path, x: Node)
    requires InBlock(r, a) && ValidPath(r, a + s)
    ensures InBlock(Replace(r, a + s, x), a)
    ensures ValidPath(At(r, Parent(a)), [Last(a)] + s)
    ensures At(Replace(r, a + s, x), Parent(a)) == Replace(At(r, Parent(a)), [Last(a)] + s, x)
  {
    var q := Parent(a);
    var i := Last(a);
    var up := At(r, q);
    var t := [i] + s;
    LastSplit(a, s);
    AtAppend(r, q, t);
    ReplaceAbove(r, q, t, x);
    var r2 := Replace(r, a + s, x);
    ReplaceThroughChild(up, i, s, x);
    AtAppend(r2, q, [i]);
    ChildPath(At(r2, q), i);
  }

  /** A replacement at or below the statement at `a` commutes with an insertion after `a`. */
  lemma InsertThenReplace(r: Node, a: Path, xs: seq<Node>, s: Path, x: Node)
    requires InBlock(r, a) && ValidPath(r, a + s)
    ensures ValidPath(InsertAll(r, a, xs), a + s)
    ensures InBlock(Replace(r, a + s, x), a)
    ensures Replace(InsertAll(r, a, xs), a + s, x) == InsertAll(Replace(r, a + s, x), a, xs)
  {
    InsertBelow(r, a, xs, s);
    ReplaceKeepsInBlock(r, a, s, x);
    var q := Parent(a);
    var i := Last(a);
    var up := At(r, q);
    var t := [i] + s;
    LastSplit(a, s);
    AtAppend(r, q, t);
    var s2 := Splice(Replace(up, t, x), i, xs);
    var r1 := InsertAll(r, a, xs);
    assert r1 == Replace(r, q, Splice(up, i, xs));
    ReplaceUnderSplice(r, q, i, s, xs, x);
    assert Replace(r1, a + s, x) == Replace(r, q, s2);
    var r2 := Replace(r, a + s, x);
    assert InsertAll(r2, a, xs) == Replace(r2, q, s2);
    ReplaceOver(r, q, t, x, s2);
  }

  /** Replacing below statement `i` of the list at `q` after splicing into the list is splicing into the replaced list. */
  lemma ReplaceUnderSplice(r: Node, q: Path, i: nat, s: Path, xs: seq<Node>, x: Node)
    requires ValidPath(r, q) && IsBlock(At(r, q)) && ValidPath(At(r, q), [i] + s)
    ensures i < |Children(At(r, q))| && IsBlock(Replace(At(r, q), [i] + s, x))
    ensures i < |Children(Replace(At(r, q), [i] + s, x))|
    ensures ValidPath(Replace(r, q, Splice(At(r, q), i, xs)), q + ([i] + s))
    ensures Replace(Replace(r, q, Splice(At(r, q), i, xs)), q + ([i] + s), x) ==
      Replace(r, q, Splice(Replace(At(r, q), [i] + s, x), i, xs))
  {
    var up := At(r, q);
    SpliceThenReplace(up, i, xs, s, x);
    ReplaceInside(r, q, Splice(up, i, xs), [i] + s, x);
  }

  // ---------------------------------------------------------------------
  // Ancestor queries

  /** The prefix of length `k` of `p` leads to a statement list */
  predicate BlockAt(r: Node, p: Path, k: nat) {
    k <= |p| && ValidPath(r, p[..k]) && IsBlock(At(r, p[..k]))
  }

  /** The prefix of length `k` of `p` leads to a variable declarator */
  predicate DeclaratorAt(r: Node, p: Path, k: nat) {
    k <= |p| && ValidPath(r, p[..k]) && At(r, p[..k]).VariableDeclarator?
  }

  /**
   * `path.find(p => p.parentPath.isBlock())`: the length of the path of the
   * nearest ancestor-or-self of the node at `p` whose parent is a statement
   * list, or None when there is none.
   */
  function BlockLevel(r: Node, p: Path): (l: Option<nat>)
    requires ValidPath(r, p)
    ensures l.Some? ==> 0 < l.value <= |p|
    decreases |p|
  {
    if p == [] then None
    else if IsBlock(At(r, Parent(p))) then Some(|p|)
    else BlockLevel(r, Parent(p))
  }

  /** A strict prefix of `p` is the same prefix of `Parent(p)`. */
  lemma ParentPrefix(r: Node, p: Path, k: nat)
    requires p != [] && k < |p|
    ensures BlockAt(r, p, k) == BlockAt(r, Parent(p), k)
    ensures DeclaratorAt(r, p, k) == DeclaratorAt(r, Parent(p), k)
  {
    assert Parent(p)[..k] == p[..k];
  }

  /**
   * `BlockLevel` finds the nearest one: the parent of the node it finds is
   * a statement list, and no node between it and the node at `p` has a
   * statement list as its parent.
   */
  lemma {:induction false} BlockLevelSpec(r: Node, p: Path)
    requires ValidPath(r, p)
    ensures BlockLevel(r, p).Some? ==> BlockAt(r, p, BlockLevel(r, p).value - 1)
    ensures forall k :: (if BlockLevel(r, p).Some? then BlockLevel(r, p).value else 0) <= k < |p| ==> !BlockAt(r, p, k)
    decreases |p|
  {
    if p != [] {
      forall k | 0 <= k < |p|
        ensures BlockAt(r, p, k) == BlockAt(r, Parent(p), k)
      {
        ParentPrefix(r, p, k);
      }
      assert BlockAt(r, p, |p| - 1) == IsBlock(At(r, Parent(p)));
      if !IsBlock(At(r, Parent(p))) {
        BlockLevelSpec(r, Parent(p));
        assert BlockLevel(r, p) == BlockLevel(r, Parent(p));
      }
    }
  }

  /**
   * `path.findParent(p => p.isVariableDeclarator())`: the length of the path
   * of the nearest strict ancestor that is a variable declarator.
   */
  function NearestDeclarator(r: Node, p: Path): (l: Option<nat>)
    requires ValidPath(r, p)
    ensures l.Some? ==> l.value < |p|
    decreases |p|
  {
    if p == [] then None
    else if At(r, Parent(p)).VariableDeclarator? then Some(|p| - 1)
    else NearestDeclarator(r, Parent(p))
  }

  /** `NearestDeclarator` finds the nearest strict ancestor that is a variable declarator. */
  lemma {:induction false} NearestDeclaratorSpec(r: Node, p: Path)
    requires ValidPath(r, p)
    ensures NearestDeclarator(r, p).Some? ==> DeclaratorAt(r, p, NearestDeclarator(r, p).value)
    ensures forall k :: (if NearestDeclarator(r, p).Some? then NearestDeclarator(r, p).value + 1 else 0) <= k < |p| ==>
      !DeclaratorAt(r, p, k)
    decreases |p|
  {
    if p != [] {
      forall k | 0 <= k < |p|
        ensures DeclaratorAt(r, p, k) == DeclaratorAt(r, Parent(p), k)
      {
        ParentPrefix(r, p, k);
      }
      assert DeclaratorAt(r, p, |p| - 1) == At(r, Parent(p)).VariableDeclarator?;
      if !At(r, Parent(p)).VariableDeclarator? {
        NearestDeclaratorSpec(r, Parent(p));
        assert NearestDeclarator(r, p) == NearestDeclarator(r, Parent(p));
      }
    }
  }

  /** The statement found by `BlockLevel` is a statement of its list. */
  lemma BlockLevelInBlock(r: Node, p: Path)
    requires ValidPath(r, p) && BlockLevel(r, p).Some?
    ensures InBlock(r, p[..BlockLevel(r, p).value])
  {
    var l := BlockLevel(r, p).value;
    BlockLevelSpec(r, p);
    PrefixValid(r, p, l);
    assert Parent(p[..l]) == p[..l - 1];
  }

  /** The ancestor at depth `k` of the node at `p` has the same type and attributes in both trees */
  predicate SameAncestor(r1: Node, r2: Node, p: Path, k: nat) {
    k <= |p| && ValidPath(r1, p[..k]) && ValidPath(r2, p[..k]) && SameShell(At(r2, p[..k]), At(r1, p[..k]))
  }

  /** The strict ancestors of the node at `p` have the same types and attributes in both trees */
  predicate SameAncestors(r1: Node, r2: Node, p: Path) {
    forall k: nat :: k < |p| ==> SameAncestor(r1, r2, p, k)
  }

  lemma SameAncestorAt(r1: Node, r2: Node, p: Path, k: nat)
    requires SameAncestors(r1, r2, p) && k < |p|
    ensures BlockAt(r1, p, k) == BlockAt(r2, p, k)
    ensures DeclaratorAt(r1, p, k) == DeclaratorAt(r2, p, k)
    ensures DeclaratorAt(r1, p, k) ==> At(r1, p[..k]).target == At(r2, p[..k]).target
  {
    assert SameAncestor(r1, r2, p, k);
    ShellKind(At(r2, p[..k]), At(r1, p[..k]));
  }

  /** `BlockLevel` only looks at the strict ancestors. */
  lemma BlockLevelAgrees(r1: Node, r2: Node, p: Path)
    requires ValidPath(r1, p) && ValidPath(r2, p) && SameAncestors(r1, r2, p)
    ensures BlockLevel(r1, p) == BlockLevel(r2, p)
  {
    forall k | 0 <= k < |p|
      ensures BlockAt(r1, p, k) == BlockAt(r2, p, k)
    {
      SameAncestorAt(r1, r2, p, k);
    }
    LevelsAgree(r1, r2, p);
  }

  lemma LevelsAgree(r1: Node, r2: Node, p: Path)
    requires ValidPath(r1, p) && ValidPath(r2, p)
    requires forall k :: 0 <= k < |p| ==> BlockAt(r1, p, k) == BlockAt(r2, p, k)
    ensures BlockLevel(r1, p) == BlockLevel(r2, p)
  {
    BlockLevelSpec(r1, p);
    BlockLevelSpec(r2, p);
    var b1, b2 := BlockLevel(r1, p), BlockLevel(r2, p);
    var n1 := if b1.Some? then b1.value else 0;
    var n2 := if b2.Some? then b2.value else 0;
    if n2 < n1 {
      assert false;
    } else if n1 < n2 {
      assert false;
    }
  }

  /** `NearestDeclarator` only looks at the strict ancestors, and so does the declarator's target. */
  lemma DeclaratorAgrees(r1: Node, r2: Node, p: Path)
    requires ValidPath(r1, p) && ValidPath(r2, p) && SameAncestors(r1, r2, p)
    ensures NearestDeclarator(r1, p) == NearestDeclarator(r2, p)
    ensures NearestDeclarator(r1, p).Some? ==>
      DeclaratorAt(r1, p, NearestDeclarator(r1, p).value) && DeclaratorAt(r2, p, NearestDeclarator(r1, p).value) &&
      At(r1, p[..NearestDeclarator(r1, p).value]).target == At(r2, p[..NearestDeclarator(r1, p).value]).target
  {
    NearestDeclaratorSpec(r1, p);
    NearestDeclaratorSpec(r2, p);
    var d1, d2 := NearestDeclarator(r1, p), NearestDeclarator(r2, p);
    if d1.Some? && (d2.None? || d2.value < d1.value) {
      SameAncestorAt(r1, r2, p, d1.value);
    } else if d2.Some? && (d1.None? || d1.value < d2.value) {
      SameAncestorAt(r1, r2, p, d2.value);
    }
    if d1.Some? && d1 == d2 {
      SameAncestorAt(r1, r2, p, d1.value);
    }
  }

  /** A replacement at `q` keeps the strict ancestors of `q`. */
  lemma ReplaceSameAncestors(r: Node, q: Path, x: Node)
    requires ValidPath(r, q)
    ensures ValidPath(Replace(r, q, x), q)
    ensures SameAncestors(r, Replace(r, q, x), q)
  {
    ReplaceAt(r, q, x);
    forall k: nat | k < |q|
      ensures SameAncestor(r, Replace(r, q, x), q, k)
    {
      ReplaceKeepsAncestors(r, q, x, k);
    }
  }

  lemma SameAncestorsTrans(r1: Node, r2: Node, r3: Node, p: Path)
    requires SameAncestors(r1, r2, p) && SameAncestors(r2, r3, p)
    ensures SameAncestors(r1, r3, p)
  {
    forall k: nat | k < |p|
      ensures SameAncestor(r1, r3, p, k)
    {
      assert SameAncestor(r1, r2, p, k) && SameAncestor(r2, r3, p, k);
      SameShellTrans(At(r3, p[..k]), At(r2, p[..k]), At(r1, p[..k]));
    }
  }

  /** An insertion after the statement at `a` keeps the ancestors of every node at or below `a`. */
  lemma InsertSameAncestors(r: Node, a: Path, xs: seq<Node>, s: Path)
    requires InBlock(r, a) && ValidPath(r, a + s)
    ensures ValidPath(InsertAll(r, a, xs), a + s)
    ensures SameAncestors(r, InsertAll(r, a, xs), a + s)
  {
    var q := a + s;
    var up := At(r, Parent(a));
    var x := Splice(up, Last(a), xs);
    var r' := InsertAll(r, a, xs);
    InsertBelow(r, a, xs, s);
    forall k: nat | k < |q|
      ensures SameAncestor(r, r', q, k)
    {
      if k < |a| - 1 {
        assert q[..k] == Parent(a)[..k];
        ReplaceKeepsAncestors(r, Parent(a), x, k);
      } else if k == |a| - 1 {
        assert q[..k] == Parent(a);
        ReplaceAt(r, Parent(a), x);
        WithChildrenShell(up, Children(up)[..Last(a) + 1] + xs + Children(up)[Last(a) + 1..]);
      } else {
        var s' := s[..k - |a|];
        assert q[..k] == a + s';
        PrefixSplit(q, k);
        AtAppend(r, q[..k], q[k..]);
        InsertBelow(r, a, xs, s');
        WithOwnChildren(At(r, q[..k]));
      }
    }
  }
}
