/**
 * Sequence helpers shared by the board and calendar models: the order-preserving
 * filter that both `groupRecordsByField` functions reduce to, and the facts about it
 * (append, occurrence counts, and the index picture of "keeps the input order").
 */
module Seqs {

  /** The elements of `s` that satisfy `p`, in their order in `s`. */
  function Filter<T>(s: seq<T>, p: T -> bool): (r: seq<T>)
    ensures |r| <= |s|
    ensures forall x :: x in r ==> x in s && p(x)
  {
    if s == [] then [] else (if p(s[0]) then [s[0]] else []) + Filter(s[1..], p)
  }

  /** Adds one to every index. */
  function Shift(q: seq<nat>): (r: seq<nat>)
    ensures |r| == |q| && forall j :: 0 <= j < |q| ==> r[j] == q[j] + 1
  {
    seq(|q|, j requires 0 <= j < |q| => q[j] + 1)
  }

  /** The positions of `s` whose element satisfies `p`, in increasing order. */
  function Selected<T>(s: seq<T>, p: T -> bool): seq<nat>
  {
    if s == [] then [] else (if p(s[0]) then [0] else []) + Shift(Selected(s[1..], p))
  }

  ghost predicate StrictlyIncreasing(q: seq<nat>)
  {
    forall i, j :: 0 <= i < j < |q| ==> q[i] < q[j]
  }

  lemma {:induction false} FilterAppend<T>(a: seq<T>, b: seq<T>, p: T -> bool)
    ensures Filter(a + b, p) == Filter(a, p) + Filter(b, p)
  {
    if a == [] {
      assert a + b == b;
    } else {
      assert (a + b)[0] == a[0];
      assert (a + b)[1..] == a[1..] + b;
      FilterAppend(a[1..], b, p);
    }
  }

  /** Filtering the one-element sequence `[x]`. */
  lemma FilterSingleton<T>(x: T, p: T -> bool)
    ensures Filter([x], p) == if p(x) then [x] else []
  {
    assert [x][1..] == [];
  }

  /** An element occurs in the filtered sequence exactly as often as in `s` if it passes, never otherwise. */
  lemma {:induction false} FilterCount<T>(s: seq<T>, p: T -> bool, x: T)
    ensures multiset(Filter(s, p))[x] == if p(x) then multiset(s)[x] else 0
  {
    if s != [] {
      FilterCount(s[1..], p, x);
      assert s == [s[0]] + s[1..];
      assert multiset(s) == multiset{s[0]} + multiset(s[1..]);
    }
  }

  /** `Selected(s, p)` lists positions of `s`, in increasing order, one per element of the filter. */
  lemma {:induction false} SelectedShape<T>(s: seq<T>, p: T -> bool)
    ensures |Selected(s, p)| == |Filter(s, p)|
    ensures StrictlyIncreasing(Selected(s, p))
    ensures forall j :: 0 <= j < |Selected(s, p)| ==> Selected(s, p)[j] < |s|
  {
    if s != [] {
      SelectedShape(s[1..], p);
      var rest := Shift(Selected(s[1..], p));
      var head: seq<nat> := if p(s[0]) then [0] else [];
      assert Selected(s, p) == head + rest;
      assert forall j :: 0 <= j < |rest| ==> rest[j] >= 1;
    }
  }

  lemma ShiftMember(q: seq<nat>, i: nat)
    ensures i in Shift(q) <==> i >= 1 && i - 1 in q
  {
    if i in Shift(q) {
      var j :| 0 <= j < |q| && Shift(q)[j] == i;
      assert q[j] == i - 1;
    }
    if i >= 1 && i - 1 in q {
      var j :| 0 <= j < |q| && q[j] == i - 1;
      assert Shift(q)[j] == i;
    }
  }

  /** A position is selected exactly when its element satisfies `p`. */
  lemma {:induction false} SelectedExactly<T>(s: seq<T>, p: T -> bool, i: nat)
    requires i < |s|
    ensures p(s[i]) <==> i in Selected(s, p)
  {
    var rest := Selected(s[1..], p);
    var head: seq<nat> := if p(s[0]) then [0] else [];
    assert Selected(s, p) == head + Shift(rest);
    ShiftMember(rest, i);
    assert i in Selected(s, p) <==> i in head || i in Shift(rest);
    if i > 0 {
      SelectedExactly(s[1..], p, i - 1);
      assert s[i] == s[1..][i - 1];
    }
  }

  /** The `j`-th element of the filter is the element of `s` at the `j`-th selected position. */
  lemma {:induction false} SelectedPicks<T>(s: seq<T>, p: T -> bool, j: nat)
    requires j < |Filter(s, p)|
    ensures |Selected(s, p)| == |Filter(s, p)|
    ensures Selected(s, p)[j] < |s| && Filter(s, p)[j] == s[Selected(s, p)[j]]
  {
    SelectedShape(s, p);
    var head: seq<nat> := if p(s[0]) then [0] else [];
    var rest := Selected(s[1..], p);
    assert Selected(s, p) == head + Shift(rest);
    if j >= |head| {
      SelectedPicks(s[1..], p, j - |head|);
      assert Filter(s, p)[j] == Filter(s[1..], p)[j - |head|];
    }
  }

  /**
   * Order preservation: the filtered sequence is exactly `s` read at the positions
   * `Selected(s, p)`, which increase, and which are precisely the positions whose
   * element satisfies `p`.
   */
  lemma FilterKeepsOrder<T>(s: seq<T>, p: T -> bool)
    ensures var idx := Selected(s, p);
      && |Filter(s, p)| == |idx|
      && StrictlyIncreasing(idx)
      && (forall j :: 0 <= j < |idx| ==> idx[j] < |s| && Filter(s, p)[j] == s[idx[j]])
      && (forall i :: 0 <= i < |s| ==> (p(s[i]) <==> i in idx))
  {
    SelectedShape(s, p);
    forall j | 0 <= j < |Selected(s, p)|
      ensures Selected(s, p)[j] < |s| && Filter(s, p)[j] == s[Selected(s, p)[j]]
    {
      SelectedPicks(s, p, j);
    }
    forall i | 0 <= i < |s|
      ensures p(s[i]) <==> i in Selected(s, p)
    {
      SelectedExactly(s, p, i);
    }
  }
}
