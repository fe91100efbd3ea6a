/** The order in which a `BTreeMap` or `BTreeSet` yields its keys. */
module Ordered {

  predicate Ascending(s: seq<int>)
  {
    forall i, j :: 0 <= i < j < |s| ==> s[i] < s[j]
  }

  lemma HasElement(s: set<int>)
    ensures s == {} || exists x :: x in s
  {
    if !exists x :: x in s {
      assert s == {};
    }
  }

  lemma {:induction false} LeastExists(s: set<int>) returns (x: int)
    requires s != {}
    ensures x in s && forall y :: y in s ==> x <= y
  {
    HasElement(s);
    var z :| z in s;
    var rest := s - {z};
    assert s == rest + {z};
    if rest == {} {
      x := z;
    } else {
      var y := LeastExists(rest);
      x := if y < z then y else z;
    }
  }

  function Least(s: set<int>): (x: int)
    requires s != {}
    ensures x in s && forall y :: y in s ==> x <= y
  {
    assert exists x :: x in s && forall y :: y in s ==> x <= y by {
      var _ := LeastExists(s);
    }
    var x :| x in s && forall y :: y in s ==> x <= y;
    x
  }

  /** The elements of `s`, smallest first. */
  function Sorted(s: set<int>): (r: seq<int>)
    ensures Ascending(r)
    ensures forall x :: x in r <==> x in s
    ensures |r| == |s|
  {
    if s == {} then [] else
      var x := Least(s);
      var rest := Sorted(s - {x});
      assert forall y :: y in rest ==> x < y;
      [x] + rest
  }

  function Elems(s: seq<int>): set<int> { set x | x in s }

  lemma ElemsStep(s: seq<int>)
    requires s != []
    ensures Elems(s) == {s[0]} + Elems(s[1..])
  {
    assert s == [s[0]] + s[1..];
  }

  lemma RemoveStep<V>(m: map<int, V>, todo: seq<int>)
    requires todo != []
    ensures (m - {todo[0]}) - Elems(todo[1..]) == m - Elems(todo)
  {
    ElemsStep(todo);
  }

  lemma RemoveNone<V>(m: map<int, V>)
    ensures m - Elems([]) == m
  {
  }

  lemma ElemsSorted(s: set<int>)
    ensures Elems(Sorted(s)) == s
  {
    hide Sorted;
  }

  lemma {:induction false} CardinalityBelow(a: set<int>, b: set<int>)
    requires a <= b
    ensures |a| <= |b|
  {
    if b == {} {
      assert a == {};
    } else {
      HasElement(b);
      var x :| x in b;
      CardinalityBelow(a - {x}, b - {x});
    }
  }
}
