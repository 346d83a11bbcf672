/** Finite sets of numbers, listed in ascending order. */
module Ordered {

  predicate IsMin(s: set<int>, m: int) {
    m in s && forall y :: y in s ==> m <= y
  }

  lemma HasElement(s: set<int>)
    ensures s == {} || exists x :: x in s
  {
    if forall x :: x !in s {
      assert s == {};
    }
  }

  lemma {:induction false} HasMin(s: set<int>)
    requires s != {}
    ensures exists m :: IsMin(s, m)
    decreases |s|
  {
    HasElement(s);
    var x :| x in s;
    var rest := s - {x};
    if rest == {} {
      assert s == {x};
      assert IsMin(s, x);
    } else {
      HasMin(rest);
      var m :| IsMin(rest, m);
      assert forall y :: y in s ==> y == x || y in rest;
      assert IsMin(s, if x < m then x else m);
    }
  }

  function MinOf(s: set<int>): (m: int)
    requires s != {}
    ensures m in s && forall y :: y in s ==> m <= y
  {
    HasMin(s);
    var m :| m in s && IsMin(s, m);
    m
  }

  ghost predicate StrictlyAscending(q: seq<int>) {
    forall i, j :: 0 <= i < j < |q| ==> q[i] < q[j]
  }

  ghost function Elements(q: seq<int>): set<int> {
    set x | x in q
  }

  function Ascending(s: set<int>): (q: seq<int>)
    ensures StrictlyAscending(q)
    ensures forall x :: x in q <==> x in s
    ensures |q| == |s|
    decreases |s|
  {
    if s == {} then []
    else
      var m := MinOf(s);
      [m] + Ascending(s - {m})
  }

  lemma AscendingStep(s: set<int>)
    ensures s == {} ==> Ascending(s) == []
    ensures s != {} ==> Ascending(s) == [MinOf(s)] + Ascending(s - {MinOf(s)})
  {
  }

  /** A set has only one ascending listing. */
  lemma {:induction false} AscendingUnique(q: seq<int>, s: set<int>)
    requires StrictlyAscending(q) && forall x :: x in q <==> x in s
    ensures q == Ascending(s)
    decreases |q|
  {
    hide Ascending;
    AscendingStep(s);
    if q == [] {
      assert s == {};
    } else {
      assert q[0] in q && q[0] in s;
      var m := MinOf(s);
      assert m in q;
      var k :| 0 <= k < |q| && q[k] == m;
      assert m == q[0];
      TailElements(q);
      AscendingUnique(q[1..], s - {m});
    }
  }

  lemma TailElements(q: seq<int>)
    requires StrictlyAscending(q) && q != []
    ensures StrictlyAscending(q[1..])
    ensures forall x :: x in q[1..] <==> x in q && x != q[0]
  {
    forall x | x in q && x != q[0]
      ensures x in q[1..]
    {
      var i :| 0 <= i < |q| && q[i] == x;
      assert q[1..][i - 1] == x;
    }
  }

  ghost predicate StrictlyDescending(q: seq<int>) {
    forall i, j :: 0 <= i < j < |q| ==> q[i] > q[j]
  }

  function Reversed(q: seq<int>): (r: seq<int>)
    ensures |r| == |q| && forall i :: 0 <= i < |q| ==> r[i] == q[|q| - 1 - i]
  {
    seq(|q|, i requires 0 <= i < |q| => q[|q| - 1 - i])
  }

  lemma ReversedElements(q: seq<int>)
    ensures forall x :: x in q <==> x in Reversed(q)
  {
    var r := Reversed(q);
    forall x | x in q
      ensures x in r
    {
      var i :| 0 <= i < |q| && q[i] == x;
      assert r[|q| - 1 - i] == x;
    }
  }

  function Descending(s: set<int>): (q: seq<int>)
    ensures StrictlyDescending(q)
    ensures forall x :: x in q <==> x in s
    ensures |q| == |s|
  {
    hide Ascending;
    ReversedElements(Ascending(s));
    Reversed(Ascending(s))
  }

  /** A set has only one descending listing. */
  lemma DescendingUnique(q: seq<int>, s: set<int>)
    requires StrictlyDescending(q) && forall x :: x in q <==> x in s
    ensures q == Descending(s)
  {
    hide Ascending;
    var a := Reversed(q);
    ReversedElements(q);
    AscendingUnique(a, s);
    assert Reversed(a) == q;
  }
}
