/**
 * What the plugin adds to a program, and how to take it away again: the
 * display-name statements it inserts into statement lists and the
 * `uid = value` bindings it wraps around anonymous default exports.
 * `Strip` removes both, so a transform that only adds these leaves `Strip`
 * of the program unchanged.
 */
module Annotations {
  import opened Ast
  import opened Paths

  /** Every node of `xs` is an inserted `X.displayName = "..."` statement */
  predicate AllAnnotations(xs: seq<Node>) {
    forall i :: 0 <= i < |xs| ==> xs[i].DisplayNameStatement?
  }

  /** A program as written: no node the plugin creates appears in it */
  predicate Original(n: Node) {
    !n.AssignmentExpression? && !n.DisplayNameStatement? &&
    forall i :: 0 <= i < |Children(n)| ==> Original(Children(n)[i])
  }

  /** The statement list `cs` without its display-name statements, in order */
  function Unannotated(cs: seq<Node>): (r: seq<Node>)
    ensures |r| <= |cs|
    ensures forall i :: 0 <= i < |r| ==> !r[i].DisplayNameStatement?
  {
    if cs == [] then []
    else if cs[0].DisplayNameStatement? then Unannotated(cs[1..])
    else [cs[0]] + Unannotated(cs[1..])
  }

  /** A list of display-name statements vanishes. */
  lemma {:induction false} UnannotatedAll(cs: seq<Node>)
    requires AllAnnotations(cs)
    ensures Unannotated(cs) == []
    decreases |cs|
  {
    if cs != [] {
      UnannotatedAll(cs[1..]);
    }
  }

  /** A list without display-name statements is kept whole. */
  lemma {:induction false} UnannotatedNone(cs: seq<Node>)
    requires forall i :: 0 <= i < |cs| ==> !cs[i].DisplayNameStatement?
    ensures Unannotated(cs) == cs
    decreases |cs|
  {
    if cs != [] {
      UnannotatedNone(cs[1..]);
      assert [cs[0]] + cs[1..] == cs;
    }
  }

  lemma {:induction false} UnannotatedAppend(a: seq<Node>, b: seq<Node>)
    ensures Unannotated(a + b) == Unannotated(a) + Unannotated(b)
    decreases |a|
  {
    if a == [] {
      assert a + b == b;
    } else {
      assert (a + b)[1..] == a[1..] + b;
      UnannotatedAppend(a[1..], b);
    }
  }

  /**
   * The program before the plugin ran: display-name statements dropped
   * from every statement list, every `uid = value` replaced by `value`.
   */
  function Strip(n: Node): (r: Node)
    ensures !r.AssignmentExpression?
    decreases n
  {
    if n.AssignmentExpression? then Strip(n.right)
    else
      var cs := Children(n);
      var ss := seq(|cs|, i requires 0 <= i < |cs| => Strip(cs[i]));
      WithChildren(n, if IsBlock(n) then Unannotated(ss) else ss)
  }

  function StripSeq(cs: seq<Node>): (r: seq<Node>)
    ensures |r| == |cs| && forall i :: 0 <= i < |cs| ==> r[i] == Strip(cs[i])
  {
    seq(|cs|, i requires 0 <= i < |cs| => Strip(cs[i]))
  }

  lemma StripSeqAppend(a: seq<Node>, b: seq<Node>)
    ensures StripSeq(a + b) == StripSeq(a) + StripSeq(b)
  {
  }

  /** Stripping and dropping annotations distribute over concatenation. */
  lemma UnannotatedStripAppend(a: seq<Node>, b: seq<Node>)
    ensures Unannotated(StripSeq(a + b)) == Unannotated(StripSeq(a)) + Unannotated(StripSeq(b))
  {
    StripSeqAppend(a, b);
    UnannotatedAppend(StripSeq(a), StripSeq(b));
  }

  /** Inserted display-name statements strip away entirely. */
  lemma UnannotatedStripAll(xs: seq<Node>)
    requires AllAnnotations(xs)
    ensures Unannotated(StripSeq(xs)) == []
  {
    assert AllAnnotations(StripSeq(xs));
    UnannotatedAll(StripSeq(xs));
  }

  lemma UnannotatedStripOne(x: Node, y: Node)
    requires Strip(x) == Strip(y)
    ensures Unannotated(StripSeq([x])) == Unannotated(StripSeq([y]))
  {
    StripSeqOne(x);
    StripSeqOne(y);
  }

  lemma StripSeqOne(x: Node)
    ensures StripSeq([x]) == [Strip(x)]
  {
    var r := StripSeq([x]);
    assert |r| == 1 && r[0] == Strip(x);
  }

  /** A statement followed by display-name statements adds its own stripped form only. */
  lemma UnannotatedStripSnoc(done: seq<Node>, s: Node, a: seq<Node>)
    requires AllAnnotations(a)
    ensures Unannotated(StripSeq(done + [s] + a)) == Unannotated(StripSeq(done)) + Unannotated(StripSeq([s]))
  {
    UnannotatedStripDrop(done + [s], a);
    UnannotatedStripAppend(done, [s]);
  }

  /** Display-name statements at the end of a list strip away. */
  lemma UnannotatedStripDrop(cs: seq<Node>, xs: seq<Node>)
    requires AllAnnotations(xs)
    ensures Unannotated(StripSeq(cs + xs)) == Unannotated(StripSeq(cs))
  {
    UnannotatedStripAppend(cs, xs);
    UnannotatedStripAll(xs);
    assert Unannotated(StripSeq(cs)) + [] == Unannotated(StripSeq(cs));
  }

  lemma UnannotatedStripPrefix(cs: seq<Node>, i: nat)
    requires i < |cs|
    ensures Unannotated(StripSeq(cs[..i + 1])) == Unannotated(StripSeq(cs[..i])) + Unannotated(StripSeq([cs[i]]))
  {
    assert cs[..i] + [cs[i]] == cs[..i + 1];
    UnannotatedStripAppend(cs[..i], [cs[i]]);
  }

  lemma StripUnfold(n: Node)
    requires !n.AssignmentExpression?
    ensures Strip(n) == WithChildren(n, if IsBlock(n) then Unannotated(StripSeq(Children(n))) else StripSeq(Children(n)))
  {
    var cs := Children(n);
    assert seq(|cs|, i requires 0 <= i < |cs| => Strip(cs[i])) == StripSeq(cs);
  }

  /** A program as written is its own stripped form. */
  lemma {:induction false} StripOriginal(n: Node)
    requires Original(n)
    ensures Strip(n) == n
    decreases n
  {
    var cs := Children(n);
    forall i | 0 <= i < |cs|
      ensures Strip(cs[i]) == cs[i]
    {
      StripOriginal(cs[i]);
    }
    assert StripSeq(cs) == cs;
    UnannotatedNone(cs);
    StripUnfold(n);
    WithOwnChildren(n);
  }

  /** Replacing one child by a node with the same stripped form keeps the stripped form of the parent. */
  lemma StripStep(up: Node, i: nat, x: Node)
    requires i < |Children(up)| && Strip(x) == Strip(Children(up)[i])
    ensures Strip(WithChildren(up, Children(up)[i := x])) == Strip(up)
  {
    var cs := Children(up);
    var up' := WithChildren(up, cs[i := x]);
    ChildrenOfWithChildren(up, cs[i := x]);
    if !up.AssignmentExpression? {
      assert !up'.AssignmentExpression?;
      assert StripSeq(cs[i := x]) == StripSeq(cs);
      StripUnfold(up);
      StripUnfold(up');
      var ss := if IsBlock(up) then Unannotated(StripSeq(cs)) else StripSeq(cs);
      WithChildrenTwice(up, cs[i := x], ss);
    }
  }

  lemma {:induction false} StripReplace(r: Node, p: Path, x: Node)
    requires ValidPath(r, p) && Strip(x) == Strip(At(r, p))
    ensures Strip(Replace(r, p, x)) == Strip(r)
    decreases |p|
  {
    if p != [] {
      var up := At(r, Parent(p));
      StripStep(up, Last(p), x);
      StripReplace(r, Parent(p), WithChildren(up, Children(up)[Last(p) := x]));
    }
  }

  /** Inserting display-name statements into a statement list keeps its stripped form. */
  lemma StripSplice(n: Node, i: nat, xs: seq<Node>)
    requires IsBlock(n) && i < |Children(n)| && AllAnnotations(xs)
    ensures Strip(Splice(n, i, xs)) == Strip(n)
  {
    var cs := Children(n);
    var cs' := cs[..i + 1] + xs + cs[i + 1..];
    StripUnfold(n);
    StripUnfold(Splice(n, i, xs));
    UnannotatedSplice(cs, i, xs);
    WithChildrenTwice(n, cs', Unannotated(StripSeq(cs')));
  }

  lemma UnannotatedSplice(cs: seq<Node>, i: nat, xs: seq<Node>)
    requires i < |cs| && AllAnnotations(xs)
    ensures Unannotated(StripSeq(cs[..i + 1] + xs + cs[i + 1..])) == Unannotated(StripSeq(cs))
  {
    UnannotatedStripAppend(cs[..i + 1] + xs, cs[i + 1..]);
    UnannotatedStripDrop(cs[..i + 1], xs);
    UnannotatedStripSplit(cs, i + 1);
  }

  lemma UnannotatedStripSplit(cs: seq<Node>, k: nat)
    requires k <= |cs|
    ensures Unannotated(StripSeq(cs)) == Unannotated(StripSeq(cs[..k])) + Unannotated(StripSeq(cs[k..]))
  {
    assert cs[..k] + cs[k..] == cs;
    UnannotatedStripAppend(cs[..k], cs[k..]);
  }

  lemma StripInsert(r: Node, a: Path, xs: seq<Node>)
    requires InBlock(r, a) && AllAnnotations(xs)
    ensures Strip(InsertAll(r, a, xs)) == Strip(r)
  {
    var up := At(r, Parent(a));
    StripSplice(up, Last(a), xs);
    StripReplace(r, Parent(a), Splice(up, Last(a), xs));
  }
}
