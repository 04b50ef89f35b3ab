/** `insertion_sort` of src/insertion.rs: for each position from 1, the
    element there is swapped backwards past every strictly greater
    neighbour.  The slice is modelled as a sequence value that the method
    rewrites in place and returns. */
module Insertion {
  import opened Lex

  /** The swap of positions `j - 1` and `j`. */
  function Swap(s: seq<Item>, j: nat): (r: seq<Item>)
    requires 0 < j < |s|
    ensures |r| == |s| && r[j - 1] == s[j] && r[j] == s[j - 1]
    ensures forall k | 0 <= k < |s| && k != j - 1 && k != j :: r[k] == s[k]
    ensures multiset(r) == multiset(s)
  {
    var r := s[j - 1 := s[j]][j := s[j - 1]];
    assert r == s[..j - 1] + [s[j], s[j - 1]] + s[j + 1..];
    assert s == s[..j - 1] + [s[j - 1], s[j]] + s[j + 1..];
    r
  }

  /** `insertion_sort`: the result is the ascending permutation of the input. */
  method InsertionSort(data: seq<Item>) returns (r: seq<Item>)
    ensures Sorted(r) && multiset(r) == multiset(data)
    ensures r == Sort(data)
    ensures Sorted(data) ==> r == data
  {
    r := data;
    if |r| <= 1 {
      // the range 1..len is empty
      SortIsUnique(data, r);
      return;
    }
    var i := 1;
    while i < |r|
      invariant 1 <= i <= |r| && |r| == |data|
      invariant multiset(r) == multiset(data)
      invariant forall x, y | 0 <= x < y < i :: Le(r[x], r[y])
    {
      var j := i;
      while j > 0 && !Le(r[j - 1], r[j])
        invariant 0 <= j <= i && |r| == |data|
        invariant multiset(r) == multiset(data)
        invariant forall x, y | 0 <= x < y <= i && x != j && y != j :: Le(r[x], r[y])
        invariant forall y | j < y <= i :: Le(r[j], r[y])
      {
        LeTotal(r[j - 1], r[j]);
        r := Swap(r, j);
        j := j - 1;
      }
      forall x, y | 0 <= x < y <= i
        ensures Le(r[x], r[y])
      {
        if y == j && x < j - 1 {
          LeTrans(r[x], r[j - 1], r[j]);
        }
      }
      i := i + 1;
    }
    SortIsUnique(data, r);
    if Sorted(data) {
      SortIsUnique(data, data);
    }
  }
}
