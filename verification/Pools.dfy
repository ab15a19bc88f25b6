/** Tables to which a value is appended unless it is there already, up to a limit: the
    symbol table, and the pool of large literals on ARM. */
module Pools {
  import opened Wrappers

  /** The first position of `x`. */
  function IndexOf<T(==)>(s: seq<T>, x: T): (r: Option<nat>)
    ensures r.Some? ==> r.value < |s| && s[r.value] == x && x !in s[..r.value]
    ensures r.None? <==> x !in s
  {
    if s == [] then None
    else if s[0] == x then Some(0)
    else
      var i :- IndexOf(s[1..], x);
      assert s[..i + 1] == [s[0]] + s[1..][..i];
      Some(i + 1)
  }

  lemma {:induction false} FirstIndex<T>(s: seq<T>, x: T, i: nat)
    requires i < |s| && s[i] == x && x !in s[..i]
    ensures IndexOf(s, x) == Some(i)
  {
    if i > 0 {
      assert s[0] == s[..i][0];
      assert s[..i] == [s[0]] + s[1..][..i - 1];
      FirstIndex(s[1..], x, i - 1);
    }
  }

  lemma FoundLater<T>(s: seq<T>, later: seq<T>, x: T)
    requires s <= later && IndexOf(s, x).Some?
    ensures IndexOf(later, x) == IndexOf(s, x)
  {
    var i := IndexOf(s, x).value;
    assert later[i] == s[i] && later[..i] == s[..i];
    FirstIndex(later, x, i);
  }

  /** None if `x` is new and the table is full. */
  function Add<T(==)>(s: seq<T>, x: T, limit: nat): (r: Option<seq<T>>)
    ensures r.Some? ==> s <= r.value && x in r.value
  {
    if x in s then Some(s) else if |s| >= limit then None else Some(s + [x])
  }

  /** The table after adding `xs` one after the other. */
  function AddAll<T(==)>(s: seq<T>, xs: seq<T>, limit: nat): Option<seq<T>>
    decreases |xs|
  {
    if xs == [] then Some(s)
    else
      var s1 :- Add(s, xs[0], limit);
      AddAll(s1, xs[1..], limit)
  }

  ghost predicate Distinct<T>(s: seq<T>) {
    forall i, j :: 0 <= i < j < |s| ==> s[i] != s[j]
  }

  lemma AddDistinct<T>(s: seq<T>, x: T, limit: nat)
    requires Distinct(s) && |s| <= limit
    ensures Add(s, x, limit).Some? ==> var r := Add(s, x, limit).value; Distinct(r) && |r| <= limit
  {
  }

  ghost function Elements<T>(s: seq<T>): set<T> {
    set x | x in s
  }

  /** A table that started with distinct values keeps every position it had, and ends with
      exactly the old and the new values, all distinct; adding fails exactly if these are too many. */
  lemma {:induction false} RunOfAdds<T>(s: seq<T>, xs: seq<T>, limit: nat)
    requires Distinct(s) && |s| <= limit
    ensures AddAll(s, xs, limit).Some? <==> |Elements(s) + Elements(xs)| <= limit
    ensures AddAll(s, xs, limit).Some? ==>
              var r := AddAll(s, xs, limit).value;
              s <= r && Distinct(r) && Elements(r) == Elements(s) + Elements(xs) && |r| <= limit
    decreases |xs|
  {
    hide Elements;
    DistinctSize(s);
    if xs == [] {
      NoElements(s);
    } else {
      FirstElement(s, xs);
      if xs[0] in s {
        RunOfAdds(s, xs[1..], limit);
      } else {
        var s1 := s + [xs[0]];
        DistinctSize(s1);
        if |s| < limit {
          RunOfAdds(s1, xs[1..], limit);
        } else {
          SubsetSize(Elements(s1), Elements(s1) + Elements(xs[1..]));
        }
      }
    }
  }

  lemma NoElements<T>(s: seq<T>)
    ensures Elements(s) + Elements([]) == Elements(s)
  {
  }

  lemma FirstElement<T>(s: seq<T>, xs: seq<T>)
    requires xs != []
    ensures Elements(s) + Elements(xs) == Elements(if xs[0] in s then s else s + [xs[0]]) + Elements(xs[1..])
  {
    assert xs == [xs[0]] + xs[1..];
  }

  lemma {:induction false} DistinctSize<T>(s: seq<T>)
    requires Distinct(s)
    ensures |Elements(s)| == |s|
  {
    if s != [] {
      var front, x := s[..|s| - 1], s[|s| - 1];
      DistinctSize(front);
      assert s == front + [x];
      assert x !in Elements(front);
      assert Elements(s) == Elements(front) + {x};
    }
  }

  lemma SubsetSize<T>(a: set<T>, b: set<T>)
    requires a <= b
    ensures |a| <= |b|
  {
    assert b == a + (b - a);
  }
}
