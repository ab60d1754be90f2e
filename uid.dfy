/**
 * Fresh binding names for an anonymous default export: the candidates
 * `_default`, `_default2`, `_default3`, ... are tried in order and the first
 * one the scope does not already use is taken.
 */
module Uid {

  function DigitChar(d: nat): char
    requires d < 10
  {
    ('0' as int + d) as char
  }

  /** The decimal representation of `n` */
  function Decimal(n: nat): (s: string)
    ensures |s| >= 1
    ensures n < 10 <==> |s| == 1
    decreases n
  {
    if n < 10 then [DigitChar(n)] else Decimal(n / 10) + [DigitChar(n % 10)]
  }

  /** Different numbers have different decimal representations. */
  lemma {:induction false} DecimalInjective(a: nat, b: nat)
    requires Decimal(a) == Decimal(b)
    ensures a == b
    decreases a
  {
    if a >= 10 && b >= 10 {
      var da, db := Decimal(a), Decimal(b);
      assert da[|da| - 1] == db[|db| - 1];
      assert a % 10 == b % 10;
      assert Decimal(a / 10) == da[..|da| - 1] == db[..|db| - 1] == Decimal(b / 10);
      DecimalInjective(a / 10, b / 10);
    }
  }

  /** The `i`-th candidate name, counting from 1 */
  function Candidate(i: nat): (s: string)
    requires i >= 1
  {
    if i == 1 then "_default" else "_default" + Decimal(i)
  }

  /** The candidates are pairwise different. */
  lemma CandidateInjective(i: nat, j: nat)
    requires i >= 1 && j >= 1 && Candidate(i) == Candidate(j)
    ensures i == j
  {
    if i > 1 && j > 1 {
      assert Decimal(i) == Candidate(i)[8..] == Candidate(j)[8..] == Decimal(j);
      DecimalInjective(i, j);
    }
  }

  /** `uid` is the first candidate that is not in `taken` */
  ghost predicate FirstFree(taken: set<string>, uid: string) {
    exists i: nat :: i >= 1 && uid == Candidate(i) && uid !in taken &&
      forall j :: 1 <= j < i ==> Candidate(j) in taken
  }

  /** The generated name is determined by the names already in use. */
  lemma FirstFreeUnique(taken: set<string>, u1: string, u2: string)
    requires FirstFree(taken, u1) && FirstFree(taken, u2)
    ensures u1 == u2
  {
    var i1: nat :| i1 >= 1 && u1 == Candidate(i1) && u1 !in taken &&
      forall j :: 1 <= j < i1 ==> Candidate(j) in taken;
    var i2: nat :| i2 >= 1 && u2 == Candidate(i2) && u2 !in taken &&
      forall j :: 1 <= j < i2 ==> Candidate(j) in taken;
    FreeNotBefore(taken, i1, i2);
    FreeNotBefore(taken, i2, i1);
  }

  lemma FreeNotBefore(taken: set<string>, i: nat, j: nat)
    requires i >= 1 && Candidate(i) !in taken
    requires forall k :: 1 <= k < j ==> Candidate(k) in taken
    ensures j <= i
  {
  }

  /** Some candidate is the first free one: `taken` is finite and the candidates are pairwise different. */
  lemma FirstFreeExists(taken: set<string>)
    ensures exists u :: FirstFree(taken, u)
  {
    var i := 1;
    ghost var seen: set<string> := {};
    while Candidate(i) in taken
      invariant i >= 1 && seen <= taken
      invariant forall j :: 1 <= j < i ==> Candidate(j) in seen
      invariant forall x :: x in seen ==> exists j :: 1 <= j < i && Candidate(j) == x
      decreases taken - seen
    {
      assert Candidate(i) !in seen by {
        if Candidate(i) in seen {
          var j :| 1 <= j < i && Candidate(j) == Candidate(i);
          CandidateInjective(i, j);
        }
      }
      seen := seen + {Candidate(i)};
      i := i + 1;
    }
    assert FirstFree(taken, Candidate(i));
  }

  /** The name `generateUid('default')` picks when the names in `taken` are in use */
  ghost function FreshUid(taken: set<string>): (u: string)
    ensures FirstFree(taken, u) && u !in taken
  {
    FirstFreeExists(taken);
    var u :| FirstFree(taken, u);
    u
  }

  /**
   * The first candidate not in `taken`; `taken` stands for the labels,
   * bindings, globals, references and earlier uids of the scope.
   */
  method GenerateUid(taken: set<string>) returns (uid: string, i: nat)
    ensures uid !in taken
    ensures i >= 1 && uid == Candidate(i)
    ensures forall j :: 1 <= j < i ==> Candidate(j) in taken
    ensures "_default" !in taken ==> uid == "_default"
    ensures FirstFree(taken, uid) && uid == FreshUid(taken)
  {
    i := 1;
    uid := Candidate(1);
    ghost var seen: set<string> := {};
    while uid in taken
      invariant i >= 1 && uid == Candidate(i)
      invariant seen <= taken
      invariant forall j :: 1 <= j < i ==> Candidate(j) in seen
      invariant forall x :: x in seen ==> exists j :: 1 <= j < i && Candidate(j) == x
      decreases taken - seen
    {
      assert uid !in seen by {
        if uid in seen {
          var j :| 1 <= j < i && Candidate(j) == uid;
          CandidateInjective(i, j);
        }
      }
      seen := seen + {uid};
      i := i + 1;
      uid := Candidate(i);
    }
    FirstFreeUnique(taken, uid, FreshUid(taken));
  }
}
