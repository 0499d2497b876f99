/** Sequence helpers shared by the tick and the brush: both build lists that
    take each value once, in order of first occurrence (a `Contains` check before
    every `Add`). */
module Lists {

  predicate NoDuplicates<T(==)>(s: seq<T>)
  {
    forall i, j :: 0 <= i < j < |s| ==> s[i] != s[j]
  }

  /** The values of s, each once, in order of first occurrence: the list a loop
      builds by adding each value that is not already in it. */
  function Distinct<T(==,!new)>(s: seq<T>): (r: seq<T>)
    ensures NoDuplicates(r)
    ensures forall v :: v in r <==> v in s
    ensures |r| <= |s|
  {
    if s == [] then []
    else
      var p := Distinct(s[..|s| - 1]);
      var last := s[|s| - 1];
      assert forall v :: v in s <==> v in s[..|s| - 1] || v == last by {
        assert s == s[..|s| - 1] + [last];
      }
      if last in p then p else p + [last]
  }

  /** One more step of that loop. */
  lemma DistinctSnoc<T(!new)>(s: seq<T>, v: T)
    ensures Distinct(s + [v]) == if v in Distinct(s) then Distinct(s) else Distinct(s) + [v]
  {
    assert (s + [v])[..|s + [v]| - 1] == s;
  }
}
