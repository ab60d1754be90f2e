/**
 * How many `displayName` statements a traversal adds: one for every
 * outermost component, that is every class declaration with a `render`
 * method and every function the `Function` visitor annotates, where the
 * search for components does not descend into a class or a function.
 */
module Counting {
  import opened Ast
  import opened Naming
  import opened Classify
  import opened Traversal

  /** The number of display-name statements in the tree `n` */
  function DisplayCount(n: Node): nat
    decreases n, 1
  {
    if n.DisplayNameStatement? then 1 else ChildrenCount(n, |Children(n)|)
  }

  /** The number of display-name statements in the first `i` children of `n` */
  function ChildrenCount(n: Node, i: nat): nat
    requires i <= |Children(n)|
    decreases n, 0, i
  {
    if i == 0 then 0 else ChildrenCount(n, i - 1) + DisplayCount(Children(n)[i - 1])
  }

  /** The number of display-name statements in the trees `cs` */
  function Count(cs: seq<Node>): nat {
    if cs == [] then 0 else Count(cs[..|cs| - 1]) + DisplayCount(cs[|cs| - 1])
  }

  /** The outermost components of `n`, which has context `c` */
  ghost function Components(c: Ctx, n: Node): nat
    decreases n, 1
  {
    if n.ClassDeclaration? then (if HasRenderMethod(n) then 1 else 0)
    else if IsFunction(n) then (if Component(c, n) then 1 else 0)
    else ChildComponents(ChildCtx(c, n), n, |Children(n)|)
  }

  /** The outermost components of the first `i` children of `n`, whose context is `c` */
  ghost function ChildComponents(c: Ctx, n: Node, i: nat): nat
    requires i <= |Children(n)|
    decreases n, 0, i
  {
    if i == 0 then 0 else ChildComponents(c, n, i - 1) + Components(c, Children(n)[i - 1])
  }

  lemma {:induction false} CountAppend(a: seq<Node>, b: seq<Node>)
    ensures Count(a + b) == Count(a) + Count(b)
    decreases |b|
  {
    if b == [] {
      assert a + b == a;
    } else {
      assert (a + b)[..|a + b| - 1] == a + b[..|b| - 1];
      CountAppend(a, b[..|b| - 1]);
    }
  }

  lemma CountOne(x: Node)
    ensures Count([x]) == DisplayCount(x)
  {
    assert [x][..0] == [];
  }

  lemma CountThree(a: seq<Node>, x: Node, b: seq<Node>)
    ensures Count(a + [x] + b) == Count(a) + DisplayCount(x) + Count(b)
  {
    CountAppend(a + [x], b);
    CountAppend(a, [x]);
    CountOne(x);
  }

  /** Counting a prefix one element longer */
  lemma CountSplit(cs: seq<Node>, i: nat)
    requires 0 < i <= |cs|
    ensures Count(cs[..i]) == Count(cs[..i - 1]) + DisplayCount(cs[i - 1])
  {
    assert cs[..i][..i - 1] == cs[..i - 1];
  }

  /** `ChildrenCount` counts a prefix of the children. */
  lemma {:induction false} ChildrenCountPrefix(n: Node, i: nat)
    requires i <= |Children(n)|
    ensures ChildrenCount(n, i) == Count(Children(n)[..i])
  {
    if i > 0 {
      ChildrenCountPrefix(n, i - 1);
      assert Children(n)[..i][..i - 1] == Children(n)[..i - 1];
    }
  }

  /** A node other than a display-name statement holds what its children hold. */
  lemma NodeCount(n: Node, cs: seq<Node>)
    requires !n.DisplayNameStatement? && (|cs| == |Children(n)| || IsBlock(n))
    ensures DisplayCount(WithChildren(n, cs)) == Count(cs)
  {
    var m := WithChildren(n, cs);
    ChildrenOfWithChildren(n, cs);
    ChildrenCountPrefix(m, |cs|);
    assert cs[..|cs|] == cs;
  }

  /** The `ClassDeclaration` visitor adds one display-name statement for a class with `render`. */
  lemma ClassCount(n: Node, st: State, taken: set<string>)
    requires n.ClassDeclaration?
    ensures var w := ClassOutcome(n, st, taken);
      w.err.None? ==> w.sub == n && Count(w.added) == (if HasRenderMethod(n) then 1 else 0)
  {
    var w := ClassOutcome(n, st, taken);
    if w.err.None? && HasRenderMethod(n) {
      CountOne(w.added[0]);
    }
  }

  /** The `Function` visitor adds one display-name statement for a component. */
  lemma FunctionCount(c: Ctx, n: Node, st: State, taken: set<string>)
    requires IsFunction(n)
    ensures var w := FunctionOutcome(c, n, st, taken);
      w.err.None? ==> DisplayCount(w.sub) == DisplayCount(n) && Count(w.added) == (if Component(c, n) then 1 else 0)
  {
    var w := FunctionOutcome(c, n, st, taken);
    if w.err.None? && Component(c, n) {
      CountOne(w.added[0]);
      if Binds(c, n) {
        assert Children(w.sub) == [n];
        ChildrenCountPrefix(w.sub, 1);
        CountOne(n);
      }
    }
  }

  /**
   * A successful visit adds exactly one display-name statement per
   * outermost component of `n`, either inside the node that replaces `n`
   * or among the statements inserted after it.
   */
  lemma {:induction false} WalkCount(c: Ctx, n: Node, st: State, taken: set<string>)
    ensures var w := Walk(c, n, st, taken);
      w.err.None? ==> DisplayCount(w.sub) + Count(w.added) == DisplayCount(n) + Components(c, n)
    decreases n, 2
  {
    var w := Walk(c, n, st, taken);
    if w.err.Some? {
    } else if n.ClassDeclaration? {
      ClassCount(n, st, taken);
    } else if IsFunction(n) {
      FunctionCount(c, n, st, taken);
    } else {
      var cc := ChildCtx(c, n);
      var k := |Children(n)|;
      ChildrenCountPrefix(n, k);
      assert Children(n)[..k] == Children(n);
      if n.DisplayNameStatement? {
        assert w.sub == n && w.added == [];
      } else if IsBlock(n) {
        ListCount(cc, n, k, st, taken);
        NodeCount(n, WalkList(cc, n, k, st, taken).nodes);
      } else {
        PartsCount(cc, n, k, st, taken);
        NodeCount(n, WalkParts(cc, n, k, st, taken).nodes);
      }
    }
  }

  /** The counting step of `ListCount`, on the values alone */
  lemma ListCountStep(cs: seq<Node>, i: nat, nodes: seq<Node>, sub: Node, added: seq<Node>, before: nat, comps: nat)
    requires 0 < i <= |cs|
    requires Count(nodes) == Count(cs[..i - 1]) + before
    requires DisplayCount(sub) + Count(added) == DisplayCount(cs[i - 1]) + comps
    ensures Count(nodes + [sub] + added) == Count(cs[..i]) + before + comps
  {
    CountThree(nodes, sub, added);
    CountSplit(cs, i);
  }

  /** The counting step of `PartsCount`, on the values alone */
  lemma PartsCountStep(cs: seq<Node>, i: nat, nodes: seq<Node>, added: seq<Node>, sub: Node, added': seq<Node>,
                       before: nat, comps: nat)
    requires 0 < i <= |cs|
    requires Count(nodes) + Count(added) == Count(cs[..i - 1]) + before
    requires DisplayCount(sub) + Count(added') == DisplayCount(cs[i - 1]) + comps
    ensures Count(nodes + [sub]) + Count(added' + added) == Count(cs[..i]) + before + comps
  {
    CountAppend(added', added);
    CountAppend(nodes, [sub]);
    CountOne(sub);
    CountSplit(cs, i);
  }

  /** The statements visited so far hold the original ones' statements plus one per component. */
  lemma {:induction false} ListCount(c: Ctx, n: Node, i: nat, st: State, taken: set<string>)
    requires i <= |Children(n)|
    ensures var l := WalkList(c, n, i, st, taken);
      l.err.None? ==> Count(l.nodes) == Count(Children(n)[..i]) + ChildComponents(c, n, i)
    decreases n, 1, i
  {
    if i > 0 {
      var l := WalkList(c, n, i - 1, st, taken);
      ListCount(c, n, i - 1, st, taken);
      if l.err.None? {
        var x := Children(n)[i - 1];
        var w := Walk(c, x, st, l.taken);
        WalkCount(c, x, st, l.taken);
        ListStepIs(c, n, i, st, taken);
        if w.err.None? {
          ListCountStep(Children(n), i, l.nodes, w.sub, w.added, ChildComponents(c, n, i - 1), Components(c, x));
        }
      }
    }
  }

  /**
   * The children visited so far and the statements they inserted hold the
   * original children's statements plus one per component.
   */
  lemma {:induction false} PartsCount(c: Ctx, n: Node, i: nat, st: State, taken: set<string>)
    requires i <= |Children(n)|
    ensures var l := WalkParts(c, n, i, st, taken);
      l.err.None? ==> Count(l.nodes) + Count(l.added) == Count(Children(n)[..i]) + ChildComponents(c, n, i)
    decreases n, 1, i
  {
    if i > 0 {
      var l := WalkParts(c, n, i - 1, st, taken);
      PartsCount(c, n, i - 1, st, taken);
      if l.err.None? {
        var x := Children(n)[i - 1];
        var w := Walk(c, x, st, l.taken);
        WalkCount(c, x, st, l.taken);
        PartsStepIs(c, n, i, st, taken);
        if w.err.None? {
          PartsCountStep(Children(n), i, l.nodes, l.added, w.sub, w.added, ChildComponents(c, n, i - 1), Components(c, x));
        }
      }
    }
  }

  /**
   * A successful traversal of a program adds one display-name statement
   * per outermost component of the program and no other.
   */
  lemma ProgramCount(r: Node, st: State, taken: set<string>)
    requires r.Program?
    ensures var w := Walk(RootCtx, r, st, taken);
      w.err.None? ==> DisplayCount(w.sub) == DisplayCount(r) + Components(RootCtx, r)
  {
    WalkCount(RootCtx, r, st, taken);
  }
}
