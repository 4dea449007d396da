/** Small definitions shared by every component model. */
module Prelude {

  /** A value the program may leave unset (Python's None, SQL's NULL). */
  datatype Option<+T> = None | Some(value: T) {
    function GetOr(fallback: T): T {
      if Some? then value else fallback
    }
  }

  function Last<T>(s: seq<T>): T
    requires |s| > 0
  {
    s[|s| - 1]
  }

  function Init<T>(s: seq<T>): seq<T>
    requires |s| > 0
  {
    s[..|s| - 1]
  }

  lemma InitSnoc<T>(s: seq<T>, x: T)
    ensures Init(s + [x]) == s && Last(s + [x]) == x
  {
  }

  lemma ConcatSnoc<T>(s: seq<T>, t: seq<T>, x: T)
    ensures s + (t + [x]) == (s + t) + [x]
  {
  }

  /** No two positions hold the same element. */
  ghost predicate NoDup<T>(s: seq<T>) {
    forall i, j :: 0 <= i < j < |s| ==> s[i] != s[j]
  }

  lemma NoDupConcat<T>(s: seq<T>, t: seq<T>)
    requires NoDup(s) && NoDup(t) && forall x :: x in t ==> x !in s
    ensures NoDup(s + t)
  {
    forall i, j | 0 <= i < j < |s + t|
      ensures (s + t)[i] != (s + t)[j]
    {
      if i < |s| <= j {
        assert t[j - |s|] in t;
      }
    }
  }

  /** xs is what is left of ys after leaving some out. */
  predicate InOrder<T(==)>(xs: seq<T>, ys: seq<T>) {
    if ys == [] then xs == []
    else InOrder(xs, Init(ys)) || (xs != [] && Last(xs) == Last(ys) && InOrder(Init(xs), Init(ys)))
  }

  /** Where the elements with a property are. */
  function Positions<T>(s: seq<T>, p: T -> bool): seq<int> {
    if s == [] then [] else Positions(Init(s), p) + if p(Last(s)) then [|s| - 1] else []
  }

  /** These are exactly the positions of the elements with the property, in ascending order. */
  ghost predicate PositionsOf<T>(s: seq<T>, p: T -> bool, ps: seq<int>) {
    && (forall a, b :: 0 <= a < b < |ps| ==> ps[a] < ps[b])
    && (forall k :: k in ps <==> 0 <= k < |s| && p(s[k]))
  }

  lemma {:induction false} PositionsHold<T>(s: seq<T>, p: T -> bool, k: int)
    ensures k in Positions(s, p) <==> 0 <= k < |s| && p(s[k])
  {
    if s != [] {
      PositionsHold(Init(s), p, k);
    }
  }

  lemma {:induction false} PositionsAscend<T>(s: seq<T>, p: T -> bool, b: int)
    requires 0 <= b < |Positions(s, p)|
    ensures 0 <= Positions(s, p)[b] < |s| && p(s[Positions(s, p)[b]])
    ensures forall a :: 0 <= a < b ==> Positions(s, p)[a] < Positions(s, p)[b]
  {
    var before := Positions(Init(s), p);
    if b < |before| {
      PositionsAscend(Init(s), p, b);
    } else {
      forall a | 0 <= a < b ensures before[a] < |s| - 1 {
        PositionsAscend(Init(s), p, a);
      }
    }
  }

  lemma PositionsAre<T>(s: seq<T>, p: T -> bool)
    ensures PositionsOf(s, p, Positions(s, p))
    ensures forall a :: 0 <= a < |Positions(s, p)| ==> 0 <= Positions(s, p)[a] < |s| && p(s[Positions(s, p)[a]])
  {
    forall k ensures k in Positions(s, p) <==> 0 <= k < |s| && p(s[k]) {
      PositionsHold(s, p, k);
    }
    forall b | 0 <= b < |Positions(s, p)|
      ensures 0 <= Positions(s, p)[b] < |s| && p(s[Positions(s, p)[b]])
      ensures forall a :: 0 <= a < b ==> Positions(s, p)[a] < Positions(s, p)[b]
    {
      PositionsAscend(s, p, b);
    }
  }

  lemma MultisetSnoc<T>(s: seq<T>, x: T)
    ensures multiset(s + [x]) == multiset(s) + multiset{x}
  {
  }

  /** Maps with the same keys and the same values are equal. */
  lemma MapsEqual<K, V>(a: map<K, V>, b: map<K, V>)
    requires a.Keys == b.Keys
    requires forall k :: k in a ==> a[k] == b[k]
    ensures a == b
  {
  }
}
