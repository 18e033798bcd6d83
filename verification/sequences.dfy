/** Facts about sequences whose elements are pairwise distinct. */
module Sequences {

  predicate NoDuplicates<T(==)>(s: seq<T>)
  {
    forall i, j :: 0 <= i < j < |s| ==> s[i] != s[j]
  }

  lemma AppendFreshKeepsDistinct<T>(s: seq<T>, x: T)
    requires NoDuplicates(s) && x !in s
    ensures NoDuplicates(s + [x])
  {
    var t := s + [x];
    forall i, j | 0 <= i < j < |t|
      ensures t[i] != t[j]
    {
      if j == |s| {
        assert t[i] == s[i];
      } else {
        assert t[i] == s[i] && t[j] == s[j];
      }
    }
  }

  lemma {:induction false} DistinctCountsOnce<T>(s: seq<T>, x: T)
    requires NoDuplicates(s) && x in s
    ensures multiset(s)[x] == 1
  {
    var k := |s| - 1;
    assert s == s[..k] + [s[k]];
    assert NoDuplicates(s[..k]);
    if s[k] == x {
      assert x !in s[..k] by {
        forall i | 0 <= i < k ensures s[..k][i] != x {
          assert s[i] != s[k];
        }
      }
    } else {
      assert x in s[..k];
      DistinctCountsOnce(s[..k], x);
    }
  }
}
