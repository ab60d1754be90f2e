/**
 * The effect of visiting one node: the node is replaced by a new subtree
 * and statements are inserted right after the statement that contains it.
 * These lemmas compose such effects the way the traversal does, child by
 * child.
 */
module Edits {
  import opened Ast
  import opened Paths
  import opened Annotations

  lemma EditWellDefined(r: Node, p: Path, sub: Node, l: nat)
    requires ValidPath(r, p) && BlockLevel(r, p) == Some(l)
    ensures l <= |p| && p == p[..l] + p[l..]
    ensures InBlock(Replace(r, p, sub), p[..l])
  {
    BlockLevelInBlock(r, p);
    PrefixSplit(p, l);
    ReplaceKeepsInBlock(r, p[..l], p[l..], sub);
  }

  /**
   * The tree after a visit of the node at `p`: that node replaced by `sub`,
   * then `added` inserted right after the statement that contains it, if
   * there is such a statement.
   */
  function Edit(r: Node, p: Path, sub: Node, added: seq<Node>): Node
    requires ValidPath(r, p)
  {
    match BlockLevel(r, p)
    case None => Replace(r, p, sub)
    case Some(l) =>
      EditWellDefined(r, p, sub, l);
      InsertAll(Replace(r, p, sub), p[..l], added)
  }

  /**
   * `setDisplayNameAfter`: the statement `target.displayName = "name";`
   * right after the statement that contains the node at `p`; nothing when
   * no ancestor-or-self of it is a statement.
   */
  function Annotate(r: Node, p: Path, target: LVal, name: string): Node
    requires ValidPath(r, p)
  {
    match BlockLevel(r, p)
    case None => r
    case Some(l) =>
      BlockLevelInBlock(r, p);
      InsertAll(r, p[..l], [DisplayNameStatement(target, name)])
  }

  /**
   * The annotation is one new statement right after the block-level
   * statement (at `p[..l]`), the other statements of that list keep their
   * order, and everything at or below the block-level statement is
   * unchanged.
   */
  lemma AnnotateInserts(r: Node, p: Path, target: LVal, name: string, l: nat)
    requires ValidPath(r, p) && BlockLevel(r, p) == Some(l)
    ensures 0 < l <= |p| && InBlock(r, p[..l])
    ensures var a := p[..l];
      var cs := Children(At(r, Parent(a)));
      ValidPath(Annotate(r, p, target, name), Parent(a)) &&
      Children(At(Annotate(r, p, target, name), Parent(a))) ==
        cs[..Last(a) + 1] + [DisplayNameStatement(target, name)] + cs[Last(a) + 1..]
    ensures ValidPath(Annotate(r, p, target, name), p) && At(Annotate(r, p, target, name), p) == At(r, p)
  {
    AnnotateAt(r, p, target, name, l);
    InsertedList(r, p[..l], [DisplayNameStatement(target, name)]);
    AnnotateKeepsNode(r, p, target, name, l);
  }

  lemma AnnotateKeepsNode(r: Node, p: Path, target: LVal, name: string, l: nat)
    requires ValidPath(r, p) && BlockLevel(r, p) == Some(l)
    ensures ValidPath(Annotate(r, p, target, name), p) && At(Annotate(r, p, target, name), p) == At(r, p)
  {
    var a := p[..l];
    AnnotateAt(r, p, target, name, l);
    PrefixSplit(p, l);
    InsertBelow(r, a, [DisplayNameStatement(target, name)], p[l..]);
  }

  lemma AnnotateAt(r: Node, p: Path, target: LVal, name: string, l: nat)
    requires ValidPath(r, p) && BlockLevel(r, p) == Some(l)
    ensures 0 < l <= |p| && InBlock(r, p[..l])
    ensures Annotate(r, p, target, name) == InsertAll(r, p[..l], [DisplayNameStatement(target, name)])
  {
    BlockLevelInBlock(r, p);
  }

  lemma InsertedList(r: Node, a: Path, xs: seq<Node>)
    requires InBlock(r, a)
    ensures ValidPath(InsertAll(r, a, xs), Parent(a))
    ensures var cs := Children(At(r, Parent(a)));
      Children(At(InsertAll(r, a, xs), Parent(a))) == cs[..Last(a) + 1] + xs + cs[Last(a) + 1..]
  {
    ReplaceAt(r, Parent(a), Splice(At(r, Parent(a)), Last(a), xs));
  }

  /** An annotation is all a display-name insertion changes: the stripped program is the same. */
  lemma StripAnnotate(r: Node, p: Path, target: LVal, name: string)
    requires ValidPath(r, p)
    ensures Strip(Annotate(r, p, target, name)) == Strip(r)
  {
    if BlockLevel(r, p).Some? {
      BlockLevelInBlock(r, p);
      StripInsert(r, p[..BlockLevel(r, p).value], [DisplayNameStatement(target, name)]);
    }
  }

  lemma EditUnchanged(r: Node, p: Path)
    requires ValidPath(r, p)
    ensures Edit(r, p, At(r, p), []) == r
  {
    ReplaceSelf(r, p);
    if BlockLevel(r, p).Some? {
      EditWellDefined(r, p, At(r, p), BlockLevel(r, p).value);
      InsertNothing(r, p[..BlockLevel(r, p).value]);
    }
  }

  /** A visit that keeps the stripped form of its node and adds only annotations keeps the stripped program. */
  lemma StripEdit(r: Node, p: Path, sub: Node, added: seq<Node>)
    requires ValidPath(r, p) && Strip(sub) == Strip(At(r, p)) && AllAnnotations(added)
    ensures Strip(Edit(r, p, sub, added)) == Strip(r)
  {
    StripReplace(r, p, sub);
    if BlockLevel(r, p).Some? {
      var l := BlockLevel(r, p).value;
      EditWellDefined(r, p, sub, l);
      StripInsert(Replace(r, p, sub), p[..l], added);
    }
  }

  /** After an edit at `p` the node at `p` is the new subtree and its ancestors keep their kinds. */
  lemma EditLevel(r: Node, p: Path, sub: Node, added: seq<Node>)
    requires ValidPath(r, p)
    ensures ValidPath(Edit(r, p, sub, added), p) && At(Edit(r, p, sub, added), p) == sub
    ensures SameAncestors(r, Edit(r, p, sub, added), p)
    ensures BlockLevel(Edit(r, p, sub, added), p) == BlockLevel(r, p)
  {
    var r1 := Replace(r, p, sub);
    ReplaceAt(r, p, sub);
    ReplaceSameAncestors(r, p, sub);
    if BlockLevel(r, p).Some? {
      var l := BlockLevel(r, p).value;
      EditWellDefined(r, p, sub, l);
      InsertBelow(r1, p[..l], added, p[l..]);
      InsertSameAncestors(r1, p[..l], added, p[l..]);
      SameAncestorsTrans(r, r1, Edit(r, p, sub, added), p);
    }
    BlockLevelAgrees(r, Edit(r, p, sub, added), p);
  }

  /** Annotating after a replacement at the same node is one edit. */
  lemma AnnotateAfterReplace(r: Node, p: Path, sub: Node, target: LVal, name: string)
    requires ValidPath(r, p)
    ensures ValidPath(Replace(r, p, sub), p)
    ensures Annotate(Replace(r, p, sub), p, target, name) == Edit(r, p, sub, [DisplayNameStatement(target, name)])
  {
    EditLevel(r, p, sub, []);
    ReplaceAt(r, p, sub);
    ReplaceSameAncestors(r, p, sub);
    BlockLevelAgrees(r, Replace(r, p, sub), p);
  }

  lemma AnnotateIsEdit(r: Node, p: Path, target: LVal, name: string)
    requires ValidPath(r, p)
    ensures Annotate(r, p, target, name) == Edit(r, p, At(r, p), [DisplayNameStatement(target, name)])
  {
    AnnotateAfterReplace(r, p, At(r, p), target, name);
    ReplaceSelf(r, p);
  }

  lemma ReplaceChild(r: Node, p: Path, cur: Node, i: nat, s: Node)
    requires ValidPath(r, p) && i < |Children(cur)|
    ensures ValidPath(Replace(r, p, cur), p + [i]) && At(Replace(r, p, cur), p + [i]) == Children(cur)[i]
    ensures Replace(Replace(r, p, cur), p + [i], s) == Replace(r, p, WithChildren(cur, Children(cur)[i := s]))
  {
    ChildPath(cur, i);
    ReplaceBelow(r, p, cur, [i]);
    ReplaceInside(r, p, cur, [i], s);
    ReplaceThroughChild(cur, i, [], s);
    assert [i] + [] == [i];
  }

  /** Below a node that is not a statement list, the block-level statement is that of the node. */
  lemma LevelOfPart(r: Node, p: Path, i: nat)
    requires ValidPath(r, p + [i]) && !IsBlock(At(r, p))
    ensures BlockLevel(r, p + [i]) == BlockLevel(r, p)
  {
    var q := p + [i];
    assert Parent(q) == p;
  }

  lemma EditPartPath(r: Node, p: Path, cur: Node, added: seq<Node>, i: nat)
    requires ValidPath(r, p) && !IsBlock(cur) && i < |Children(cur)|
    ensures ValidPath(Edit(r, p, cur, added), p + [i])
    ensures At(Edit(r, p, cur, added), p + [i]) == Children(cur)[i]
    ensures BlockLevel(Edit(r, p, cur, added), p + [i]) == BlockLevel(r, p)
  {
    var e := Edit(r, p, cur, added);
    EditLevel(r, p, cur, added);
    ChildPath(cur, i);
    AtAppend(e, p, [i]);
    LevelOfPart(e, p, i);
  }

  /**
   * One step of the traversal of a node that is not a statement list: the
   * edit made by visiting child `i` joins the edit made so far; its
   * insertions go before the earlier ones.
   */
  lemma EditPart(r: Node, p: Path, cur: Node, added: seq<Node>, i: nat, s: Node, a: seq<Node>)
    requires ValidPath(r, p) && !IsBlock(cur) && i < |Children(cur)|
    ensures ValidPath(Edit(r, p, cur, added), p + [i])
    ensures At(Edit(r, p, cur, added), p + [i]) == Children(cur)[i]
    ensures Edit(Edit(r, p, cur, added), p + [i], s, a) == Edit(r, p, WithChildren(cur, Children(cur)[i := s]), a + added)
  {
    EditPartPath(r, p, cur, added, i);
    ReplaceChild(r, p, cur, i, s);
    if BlockLevel(r, p).Some? {
      EditPartInsert(r, p, cur, added, i, s, a, BlockLevel(r, p).value);
    }
  }

  /**
   * The node `cur` is a copy of the original node `n`, which is not a
   * statement list, whose children before `i` have been visited: they
   * strip to the original children, the others are untouched.
   */
  ghost predicate PartProgress(n: Node, cur: Node, i: nat) {
    SameShell(cur, n) && !IsBlock(cur) && |Children(cur)| == |Children(n)| && i <= |Children(n)| &&
    Children(cur)[i..] == Children(n)[i..] && Strip(cur) == Strip(n)
  }

  lemma PartStart(n: Node)
    requires !IsBlock(n)
    ensures PartProgress(n, n, 0)
  {
    WithOwnChildren(n);
  }

  /** Where the traversal of the node at `p` finds its child `i` */
  lemma PartEntry(r: Node, p: Path, n: Node, cur: Node, added: seq<Node>, i: nat)
    requires ValidPath(r, p) && PartProgress(n, cur, i) && i < |Children(n)|
    ensures ValidPath(Edit(r, p, cur, added), p + [i]) && At(Edit(r, p, cur, added), p + [i]) == Children(n)[i]
    ensures Plain(n) ==> Plain(Children(n)[i])
  {
    assert Children(cur)[i..][0] == Children(n)[i];
    EditPartPath(r, p, cur, added, i);
  }

  /** The visit of child `i` becomes part of the edit of the node at `p`. */
  lemma PartStep(r: Node, p: Path, n: Node, cur: Node, added: seq<Node>, i: nat, s: Node, a: seq<Node>)
    requires ValidPath(r, p) && PartProgress(n, cur, i) && i < |Children(n)|
    requires Strip(s) == Strip(Children(n)[i])
    ensures ValidPath(Edit(r, p, cur, added), p + [i])
    ensures var next := WithChildren(cur, Children(cur)[i := s]);
      Edit(Edit(r, p, cur, added), p + [i], s, a) == Edit(r, p, next, a + added) &&
      PartProgress(n, next, i + 1) &&
      (s == Children(n)[i] ==> next == cur)
  {
    EditPart(r, p, cur, added, i, s, a);
    PartAdvance(n, cur, i, s);
  }

  /** The node with child `i` replaced by its visited form has progressed by one child. */
  lemma PartAdvance(n: Node, cur: Node, i: nat, s: Node)
    requires PartProgress(n, cur, i) && i < |Children(n)|
    requires Strip(s) == Strip(Children(n)[i])
    ensures var next := WithChildren(cur, Children(cur)[i := s]);
      PartProgress(n, next, i + 1) && (s == Children(n)[i] ==> next == cur)
  {
    var cs := Children(cur)[i := s];
    var next := WithChildren(cur, cs);
    SuffixStep(Children(cur), Children(n), i, s);
    StripStep(cur, i, s);
    WithChildrenShell(cur, cs);
    SameShellTrans(next, cur, n);
    if s == Children(n)[i] {
      WithOwnChildren(cur);
    }
  }

  /** Updating the first element of a shared suffix leaves the rest shared. */
  lemma SuffixStep(cs: seq<Node>, ds: seq<Node>, i: nat, s: Node)
    requires i < |cs| && i < |ds| && cs[i..] == ds[i..]
    ensures cs[i] == ds[i] && cs[i := s][i + 1..] == ds[i + 1..]
    ensures s == ds[i] ==> cs[i := s] == cs
  {
    assert cs[i..][0] == ds[i..][0];
    assert cs[i := s][i + 1..] == cs[i..][1..];
    assert ds[i + 1..] == ds[i..][1..];
  }

  lemma EditPartInsert(r: Node, p: Path, cur: Node, added: seq<Node>, i: nat, s: Node, a: seq<Node>, l: nat)
    requires ValidPath(r, p) && !IsBlock(cur) && i < |Children(cur)| && BlockLevel(r, p) == Some(l)
    requires ValidPath(Edit(r, p, cur, added), p + [i])
    requires BlockLevel(Edit(r, p, cur, added), p + [i]) == Some(l)
    requires ValidPath(Replace(r, p, cur), p + [i])
    requires Replace(Replace(r, p, cur), p + [i], s) == Replace(r, p, WithChildren(cur, Children(cur)[i := s]))
    ensures Edit(Edit(r, p, cur, added), p + [i], s, a) == Edit(r, p, WithChildren(cur, Children(cur)[i := s]), a + added)
  {
    var r1 := Replace(r, p, cur);
    var cur' := WithChildren(cur, Children(cur)[i := s]);
    var q := p + [i];
    EditWellDefined(r, p, cur, l);
    var a0 := p[..l];
    assert q == a0 + (p[l..] + [i]);
    assert q[..l] == a0;
    InsertThenReplace(r1, a0, added, p[l..] + [i], s);
    EditWellDefined(r, p, cur', l);
    InsertTwice(Replace(r, p, cur'), a0, added, a);
  }

  /**
   * One step of the traversal of a statement list at `p`: visiting its
   * statement `j` replaces that statement and inserts the additions right
   * after it, in the list itself.
   */
  lemma EditStatement(r: Node, p: Path, cur: Node, j: nat, s: Node, a: seq<Node>)
    requires ValidPath(r, p) && IsBlock(cur) && j < |Children(cur)|
    ensures ValidPath(Replace(r, p, cur), p + [j]) && At(Replace(r, p, cur), p + [j]) == Children(cur)[j]
    ensures BlockLevel(Replace(r, p, cur), p + [j]) == Some(|p| + 1)
    ensures IsBlock(WithChildren(cur, Children(cur)[j := s]))
    ensures Edit(Replace(r, p, cur), p + [j], s, a) == Replace(r, p, Splice(WithChildren(cur, Children(cur)[j := s]), j, a))
  {
    var r1 := Replace(r, p, cur);
    var q := p + [j];
    ReplaceChild(r, p, cur, j, s);
    ReplaceAt(r, p, cur);
    assert Parent(q) == p && Last(q) == j;
    assert q[..|p|] == p;
    var cur' := WithChildren(cur, Children(cur)[j := s]);
    var r2 := Replace(r, p, cur');
    ReplaceAt(r, p, cur');
    EditWellDefined(r1, q, s, |p| + 1);
    assert q[..|p| + 1] == q;
    ReplaceTwice(r, p, cur', Splice(cur', j, a));
  }

  lemma EditNothing(r: Node, p: Path, sub: Node)
    requires ValidPath(r, p)
    ensures Edit(r, p, sub, []) == Replace(r, p, sub)
  {
    if BlockLevel(r, p).Some? {
      var l := BlockLevel(r, p).value;
      var r1 := Replace(r, p, sub);
      EditWellDefined(r, p, sub, l);
      InsertNothing(r1, p[..l]);
      assert Edit(r, p, sub, []) == InsertAll(r1, p[..l], []);
    }
  }

  /**
   * The statement list after visiting statement `j`: the statement
   * replaced by `s`, then the additions `a`, then the statements not yet
   * visited.
   */
  lemma SpliceShape(cur: Node, j: nat, s: Node, a: seq<Node>)
    requires IsBlock(cur) && j < |Children(cur)|
    ensures IsBlock(WithChildren(cur, Children(cur)[j := s]))
    ensures var cur' := Splice(WithChildren(cur, Children(cur)[j := s]), j, a);
      Children(cur') == Children(cur)[..j] + [s] + a + Children(cur)[j + 1..] &&
      Children(cur')[..j + 1 + |a|] == Children(cur)[..j] + [s] + a &&
      Children(cur')[j + 1 + |a|..] == Children(cur)[j + 1..] &&
      SameShell(cur', cur)
  {
    var cs := Children(cur)[j := s];
    var c1 := WithChildren(cur, cs);
    var cs' := cs[..j + 1] + a + cs[j + 1..];
    assert cs[..j + 1] == Children(cur)[..j] + [s];
    assert cs[j + 1..] == Children(cur)[j + 1..];
    WithChildrenTwice(cur, cs, cs');
    WithChildrenShell(cur, cs');
  }

  lemma SpliceNothing(cur: Node, j: nat)
    requires IsBlock(cur) && j < |Children(cur)|
    ensures Splice(WithChildren(cur, Children(cur)[j := Children(cur)[j]]), j, []) == cur
  {
    var cs := Children(cur);
    assert cs[j := cs[j]] == cs;
    WithOwnChildren(cur);
    assert cs[..j + 1] + [] + cs[j + 1..] == cs;
  }

  /** The stripped statement list grows by the stripped new statement; the additions strip away. */
  lemma ListStep(done: seq<Node>, orig: seq<Node>, i: nat, s: Node, a: seq<Node>)
    requires i < |orig| && Unannotated(StripSeq(done)) == Unannotated(StripSeq(orig[..i]))
    requires Strip(s) == Strip(orig[i]) && AllAnnotations(a)
    ensures Unannotated(StripSeq(done + [s] + a)) == Unannotated(StripSeq(orig[..i + 1]))
  {
    UnannotatedStripSnoc(done, s, a);
    UnannotatedStripPrefix(orig, i);
    UnannotatedStripOne(s, orig[i]);
  }

  /** Two statement lists of the same kind whose stripped statements agree strip to the same node. */
  lemma BlockStrip(cur: Node, n: Node)
    requires IsBlock(n) && SameShell(cur, n)
    requires Unannotated(StripSeq(Children(cur))) == Unannotated(StripSeq(Children(n)))
    ensures Strip(cur) == Strip(n)
  {
    ShellKind(cur, n);
    StripUnfold(cur);
    StripUnfold(n);
    WithChildrenTwice(n, Children(cur), Unannotated(StripSeq(Children(n))));
  }

  /** The statement list after visiting statement `j`, which became `s` and was followed by `a` */
  function NextList(cur: Node, j: nat, s: Node, a: seq<Node>): (next: Node)
    requires IsBlock(cur) && j < |Children(cur)|
    ensures IsBlock(next)
    ensures Children(next) == Children(cur)[..j] + [s] + a + Children(cur)[j + 1..]
    ensures Children(next)[..j + 1 + |a|] == Children(cur)[..j] + [s] + a
  {
    SpliceShape(cur, j, s, a);
    Splice(WithChildren(cur, Children(cur)[j := s]), j, a)
  }

  /**
   * The statement list `cur`, at position `j`, is a partly visited copy of
   * the original list `n` at position `i`: the statements from there on
   * are untouched, the ones before strip to the same statements.
   */
  ghost predicate ListProgress(n: Node, cur: Node, i: nat, j: nat) {
    IsBlock(cur) && SameShell(cur, n) && i <= |Children(n)| && j <= |Children(cur)| &&
    Children(cur)[j..] == Children(n)[i..] &&
    Unannotated(StripSeq(Children(cur)[..j])) == Unannotated(StripSeq(Children(n)[..i]))
  }

  lemma ListStart(n: Node)
    requires IsBlock(n)
    ensures ListProgress(n, n, 0, 0)
  {
    WithOwnChildren(n);
  }

  /** A statement list visited to the end strips to the original list. */
  lemma ListEnd(n: Node, cur: Node, j: nat)
    requires IsBlock(n) && ListProgress(n, cur, |Children(n)|, j)
    ensures Strip(cur) == Strip(n)
  {
    assert Children(cur)[..j] == Children(cur);
    assert Children(n)[..|Children(n)|] == Children(n);
    BlockStrip(cur, n);
  }

  /** A statement list visited to the end has no unvisited statements left. */
  lemma ListDone(n: Node, cur: Node, j: nat)
    requires ListProgress(n, cur, |Children(n)|, j)
    ensures Children(cur)[..j] == Children(cur)
  {
    assert |Children(cur)[j..]| == 0;
  }

  /** Where the traversal of the statement list at `p` finds original statement `i` */
  lemma StatementEntry(r: Node, p: Path, n: Node, cur: Node, i: nat, j: nat)
    requires ValidPath(r, p) && ListProgress(n, cur, i, j) && i < |Children(n)|
    ensures ValidPath(Replace(r, p, cur), p) && At(Replace(r, p, cur), p) == cur
    ensures ValidPath(Replace(r, p, cur), p + [j]) && At(Replace(r, p, cur), p + [j]) == Children(n)[i]
    ensures Plain(n) ==> Plain(Children(n)[i])
  {
    assert Children(cur)[j..][0] == Children(n)[i];
    ReplaceChild(r, p, cur, j, Children(n)[i]);
    ReplaceAt(r, p, cur);
  }

  /** One step of the traversal of the statement list at `p`, whose original form is `n` */
  lemma StatementsStep(r: Node, p: Path, n: Node, cur: Node, i: nat, j: nat, s: Node, a: seq<Node>)
    requires ValidPath(r, p) && ListProgress(n, cur, i, j) && i < |Children(n)|
    requires Strip(s) == Strip(Children(n)[i]) && AllAnnotations(a)
    ensures j < |Children(cur)| && ValidPath(Replace(r, p, cur), p + [j])
    ensures Edit(Replace(r, p, cur), p + [j], s, a) == Replace(r, p, NextList(cur, j, s, a))
    ensures var next := NextList(cur, j, s, a);
      ValidPath(Replace(r, p, next), p) && At(Replace(r, p, next), p) == next &&
      |Children(next)| == |Children(cur)| + |a| &&
      ListProgress(n, next, i + 1, j + 1 + |a|)
  {
    var next := NextList(cur, j, s, a);
    assert Children(cur)[j..][0] == Children(n)[i..][0];
    EditStatement(r, p, cur, j, s, a);
    SpliceShape(cur, j, s, a);
    assert Children(cur)[j + 1..] == Children(cur)[j..][1..];
    ListStep(Children(cur)[..j], Children(n), i, s, a);
    SameShellTrans(next, cur, n);
    ReplaceAt(r, p, next);
  }
}
