/** Sequence helpers shared by the model: the set of a sequence's elements,
    duplicate-freedom, `Array.from(new Set(xs))` and `Array.prototype.filter`. */
module Collections {

  /** The elements of `s` as a set (`new Set(s)`). */
  function Elements<T(==)>(s: seq<T>): set<T> {
    set x | x in s
  }

  predicate NoDuplicates<T(==)>(s: seq<T>) {
    forall i, j :: 0 <= i < j < |s| ==> s[i] != s[j]
  }

  /** A set built from a sequence has at most as many elements as the sequence. */
  lemma {:induction false} ElementsBound<T>(s: seq<T>)
    ensures |Elements(s)| <= |s|
  {
    if s != [] {
      var init := s[..|s| - 1];
      ElementsBound(init);
      assert Elements(s) == Elements(init) + {s[|s| - 1]};
    }
  }

  /** A duplicate-free sequence has exactly as many elements as its set. */
  lemma {:induction false} ElementsOfNoDuplicates<T>(s: seq<T>)
    requires NoDuplicates(s)
    ensures |Elements(s)| == |s|
  {
    if s != [] {
      var init := s[..|s| - 1];
      ElementsOfNoDuplicates(init);
      assert s[|s| - 1] !in Elements(init);
      assert Elements(s) == Elements(init) + {s[|s| - 1]};
    }
  }

  /** `Array.from(new Set(s))`: the first occurrence of each value, in order. */
  function Distinct<T(==)>(s: seq<T>): (r: seq<T>)
    ensures NoDuplicates(r)
    ensures Elements(r) == Elements(s)
    ensures |r| <= |s|
  {
    if s == [] then []
    else
      var init := Distinct(s[..|s| - 1]);
      var x := s[|s| - 1];
      assert Elements(s) == Elements(s[..|s| - 1]) + {x};
      if x in init then init else init + [x]
  }

  /** `Distinct(s)` has as many entries as `s` has distinct values. */
  lemma DistinctLength<T>(s: seq<T>)
    ensures |Distinct(s)| == |Elements(s)|
  {
    ElementsOfNoDuplicates(Distinct(s));
  }

  /** A duplicate-free sequence passes through `Distinct` unchanged. */
  lemma {:induction false} DistinctOfNoDuplicates<T>(s: seq<T>)
    requires NoDuplicates(s)
    ensures Distinct(s) == s
  {
    if s != [] {
      var init := s[..|s| - 1];
      DistinctOfNoDuplicates(init);
      assert s[|s| - 1] !in init;
      assert init + [s[|s| - 1]] == s;
    }
  }

  /** `s.filter(p)`: the entries satisfying `p`, in order. */
  function Filter<T(==)>(s: seq<T>, p: T -> bool): (r: seq<T>)
    ensures |r| <= |s|
    ensures forall i :: 0 <= i < |r| ==> r[i] in s && p(r[i])
    ensures forall i :: 0 <= i < |s| && p(s[i]) ==> s[i] in r
  {
    if s == [] then []
    else if p(s[0]) then [s[0]] + Filter(s[1..], p)
    else Filter(s[1..], p)
  }

  lemma {:induction false} FilterConcat<T>(a: seq<T>, b: seq<T>, p: T -> bool)
    ensures Filter(a + b, p) == Filter(a, p) + Filter(b, p)
  {
    if a != [] {
      assert (a + b)[1..] == a[1..] + b;
      FilterConcat(a[1..], b, p);
    } else {
      assert a + b == b;
    }
  }
}
