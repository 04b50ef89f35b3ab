/** Items, the lexicographic order every sort in the repository produces, and a
    reference sort standing for the standard library's `sort_unstable`.

    An item is a finite sequence of units: the bytes of a `String` or
    `[u8]`, or the Unicode scalar values of a `str`.  Rust compares both
    `String` and `str` byte-wise, and UTF-8 byte order coincides with scalar
    value order, so one order on `seq<nat>` serves every trie. */
module Lex {

  type Item = seq<nat>

  /** Lexicographic order: unit by unit, a proper prefix ordering first. */
  predicate Le(a: Item, b: Item)
    decreases |a|
  {
    |a| == 0 || (|b| > 0 && (a[0] < b[0] || (a[0] == b[0] && Le(a[1..], b[1..]))))
  }

  lemma LeRefl(a: Item)
    ensures Le(a, a)
  {
  }

  lemma LeAntisym(a: Item, b: Item)
    requires Le(a, b) && Le(b, a)
    ensures a == b
  {
    if |a| > 0 && |b| > 0 {
      LeAntisym(a[1..], b[1..]);
      assert a == [a[0]] + a[1..];
      assert b == [b[0]] + b[1..];
    }
  }

  lemma LeTrans(a: Item, b: Item, c: Item)
    requires Le(a, b) && Le(b, c)
    ensures Le(a, c)
    decreases |a|
  {
    if |a| > 0 && |b| > 0 && |c| > 0 && a[0] == b[0] == c[0] {
      LeTrans(a[1..], b[1..], c[1..]);
    }
  }

  lemma LeTotal(a: Item, b: Item)
    ensures Le(a, b) || Le(b, a)
    decreases |a|
  {
    if |a| > 0 && |b| > 0 && a[0] == b[0] {
      LeTotal(a[1..], b[1..]);
    }
  }

  /** `p` is an initial segment of `x`. */
  predicate HasPrefix(x: Item, p: Item)
  {
    |p| <= |x| && x[..|p|] == p
  }

  lemma PrefixExtend(x: Item, p: Item, u: nat)
    requires HasPrefix(x, p + [u])
    ensures HasPrefix(x, p) && |x| > |p| && x[|p|] == u
  {
    assert x[..|p|] == x[..|p| + 1][..|p|];
    assert x[|p|] == x[..|p| + 1][|p|];
  }

  lemma PrefixStep(x: Item, p: Item)
    requires HasPrefix(x, p) && |x| > |p|
    ensures HasPrefix(x, p + [x[|p|]])
  {
    assert x[..|p| + 1] == x[..|p|] + [x[|p|]];
  }

  /** Removing a shared initial segment does not change how two items compare. */
  lemma LeDrop(a: Item, b: Item, n: nat)
    requires n <= |a| && n <= |b| && a[..n] == b[..n]
    ensures Le(a, b) == Le(a[n..], b[n..])
    decreases n
  {
    if n > 0 {
      assert a[0] == a[..n][0] && b[0] == b[..n][0];
      assert a[1..][..n - 1] == a[1..n] == a[..n][1..];
      assert b[1..][..n - 1] == b[1..n] == b[..n][1..];
      LeDrop(a[1..], b[1..], n - 1);
      assert a[1..][n - 1..] == a[n..];
      assert b[1..][n - 1..] == b[n..];
    }
  }

  /** Two items that agree up to position `n` and differ there are ordered by that unit. */
  lemma LeBranch(a: Item, b: Item, n: nat)
    requires n < |a| && n < |b| && a[..n] == b[..n] && a[n] < b[n]
    ensures Le(a, b) && !Le(b, a)
  {
    LeDrop(a, b, n);
    LeDrop(b, a, n);
  }

  /** An initial segment orders before every item it starts. */
  lemma LePrefix(p: Item, y: Item)
    requires HasPrefix(y, p)
    ensures Le(p, y)
  {
    LeDrop(p, y, |p|);
  }

  /** Branch order phrased on prefixes: items below `p + [u]` precede items below `p + [v]` when `u < v`. */
  lemma LeChildren(x: Item, y: Item, p: Item, u: nat, v: nat)
    requires HasPrefix(x, p + [u]) && HasPrefix(y, p + [v]) && u < v
    ensures Le(x, y) && !Le(y, x)
  {
    PrefixExtend(x, p, u);
    PrefixExtend(y, p, v);
    LeBranch(x, y, |p|);
  }

  predicate Sorted(s: seq<Item>)
  {
    forall i, j | 0 <= i < j < |s| :: Le(s[i], s[j])
  }

  lemma SortedAppend(a: seq<Item>, b: seq<Item>)
    requires Sorted(a) && Sorted(b)
    requires forall x, y | x in a && y in b :: Le(x, y)
    ensures Sorted(a + b)
  {
    forall i, j | 0 <= i < j < |a + b|
      ensures Le((a + b)[i], (a + b)[j])
    {
      if j < |a| {
      } else if i >= |a| {
        assert (a + b)[i] == b[i - |a|] && (a + b)[j] == b[j - |a|];
      } else {
        assert (a + b)[i] in a && (a + b)[j] in b;
      }
    }
  }

  /** The items below `p` whose unit at `|p|` is at least `base`. */
  predicate InBranches(y: Item, p: Item, base: nat)
  {
    HasPrefix(y, p) && |y| > |p| && y[|p|] >= base
  }

  /** An ascending run of items below `p + [base]` followed by an ascending
      run from later branches of `p` is ascending: the merge of one child
      followed by the merge of its right siblings. */
  lemma BranchesAppend(first: seq<Item>, rest: seq<Item>, p: Item, base: nat)
    requires Sorted(first) && Sorted(rest)
    requires forall y | y in first :: HasPrefix(y, p + [base])
    requires forall y | y in rest :: InBranches(y, p, base + 1)
    ensures Sorted(first + rest)
    ensures forall y | y in first + rest :: InBranches(y, p, base)
  {
    forall y | y in first
      ensures InBranches(y, p, base) && y[|p|] == base
    {
      PrefixExtend(y, p, base);
    }
    forall x, y | x in first && y in rest
      ensures Le(x, y)
    {
      LeBranch(x, y, |p|);
    }
    SortedAppend(first, rest);
  }

  /** Two ascending permutations of one multiset are the same sequence: the
      sorted order of a collection of items is unique. */
  lemma {:induction false} SortedUnique(a: seq<Item>, b: seq<Item>)
    requires Sorted(a) && Sorted(b) && multiset(a) == multiset(b)
    ensures a == b
    decreases |a|
  {
    assert |a| == |multiset(a)| == |multiset(b)| == |b|;
    if |a| > 0 {
      SortedHeads(a, b);
      assert a == [a[0]] + a[1..];
      assert b == [b[0]] + b[1..];
      assert multiset(a[1..]) == multiset(a) - multiset{a[0]};
      assert multiset(b[1..]) == multiset(b) - multiset{b[0]};
      SortedTail(a);
      SortedTail(b);
      SortedUnique(a[1..], b[1..]);
    }
  }

  lemma SortedTail(a: seq<Item>)
    requires Sorted(a) && a != []
    ensures Sorted(a[1..])
  {
    forall i, j | 0 <= i < j < |a[1..]|
      ensures Le(a[1..][i], a[1..][j])
    {
      assert a[1..][i] == a[i + 1] && a[1..][j] == a[j + 1];
    }
  }

  /** Each head is at most the other, so the heads agree. */
  lemma SortedHeads(a: seq<Item>, b: seq<Item>)
    requires Sorted(a) && Sorted(b) && multiset(a) == multiset(b) && a != [] && b != []
    ensures a[0] == b[0]
  {
    assert a[0] in multiset(b);
    var j :| 0 <= j < |b| && b[j] == a[0];
    assert b[0] in multiset(a);
    var i :| 0 <= i < |a| && a[i] == b[0];
    if j > 0 {
      assert Le(b[0], b[j]);
    } else {
      LeRefl(b[0]);
    }
    if i > 0 {
      assert Le(a[0], a[i]);
    } else {
      LeRefl(a[0]);
    }
    LeAntisym(a[0], b[0]);
  }

  /** The part of `a` from offset `o` on, as `&a[o..]` in the source (empty past the end). */
  function Drop(a: Item, o: nat): Item
  {
    if o <= |a| then a[o..] else []
  }

  /** Comparison of the suffixes from offset `o`, as the `hint_long` and
      bucket sorts do; at offset 0 this is `Le` itself. */
  predicate LeFrom(o: nat, a: Item, b: Item)
  {
    Le(Drop(a, o), Drop(b, o))
  }

  predicate SortedFrom(o: nat, s: seq<Item>)
  {
    forall i, j | 0 <= i < j < |s| :: LeFrom(o, s[i], s[j])
  }

  /** Insert `x` before the first element it does not follow. */
  function InsertFrom(o: nat, x: Item, s: seq<Item>): (r: seq<Item>)
    ensures multiset(r) == multiset(s) + multiset{x}
  {
    if s == [] then [x]
    else if LeFrom(o, x, s[0]) then [x] + s
    else
      assert s == [s[0]] + s[1..];
      [s[0]] + InsertFrom(o, x, s[1..])
  }

  /** Insertion sort on the suffixes from offset `o`. */
  function SortFrom(o: nat, s: seq<Item>): (r: seq<Item>)
    ensures multiset(r) == multiset(s)
  {
    if s == [] then []
    else
      assert s == [s[0]] + s[1..];
      InsertFrom(o, s[0], SortFrom(o, s[1..]))
  }

  /** The reference sort: the ascending permutation of `s`. */
  function Sort(s: seq<Item>): seq<Item>
  {
    SortFrom(0, s)
  }

  lemma {:induction false} InsertFromSorted(o: nat, x: Item, s: seq<Item>)
    requires SortedFrom(o, s)
    ensures SortedFrom(o, InsertFrom(o, x, s))
    decreases |s|
  {
    if s == [] {
    } else if LeFrom(o, x, s[0]) {
      forall y | y in s
        ensures LeFrom(o, x, y)
      {
        var k :| 0 <= k < |s| && s[k] == y;
        if k > 0 {
          LeTrans(Drop(x, o), Drop(s[0], o), Drop(y, o));
        }
      }
      SortedFromCons(o, x, s);
    } else {
      var t := InsertFrom(o, x, s[1..]);
      InsertFromSorted(o, x, s[1..]);
      LeTotal(Drop(x, o), Drop(s[0], o));
      forall y | y in t
        ensures LeFrom(o, s[0], y)
      {
        assert y in multiset(t);
        if y != x {
          assert y in s[1..];
          var k :| 0 <= k < |s[1..]| && s[1..][k] == y;
          assert s[k + 1] == y;
        }
      }
      SortedFromCons(o, s[0], t);
    }
  }

  lemma SortedFromCons(o: nat, a: Item, t: seq<Item>)
    requires SortedFrom(o, t) && forall y | y in t :: LeFrom(o, a, y)
    ensures SortedFrom(o, [a] + t)
  {
    var r := [a] + t;
    forall i, j | 0 <= i < j < |r|
      ensures LeFrom(o, r[i], r[j])
    {
      assert r[j] == t[j - 1];
      if i > 0 {
        assert r[i] == t[i - 1];
      } else {
        assert r[j] in t;
      }
    }
  }

  lemma {:induction false} SortFromSorted(o: nat, s: seq<Item>)
    ensures SortedFrom(o, SortFrom(o, s))
    decreases |s|
  {
    if s != [] {
      SortFromSorted(o, s[1..]);
      InsertFromSorted(o, s[0], SortFrom(o, s[1..]));
    }
  }

  /** `Sort` returns the ascending permutation of its input. */
  lemma SortSpec(s: seq<Item>)
    ensures Sorted(Sort(s)) && multiset(Sort(s)) == multiset(s)
  {
    var r := Sort(s);
    SortFromSorted(0, s);
    forall i, j | 0 <= i < j < |r|
      ensures Le(r[i], r[j])
    {
      assert LeFrom(0, r[i], r[j]);
      assert Drop(r[i], 0) == r[i] && Drop(r[j], 0) == r[j];
    }
  }

  /** Any ascending permutation of `s` is `Sort(s)`. */
  lemma SortIsUnique(s: seq<Item>, r: seq<Item>)
    requires Sorted(r) && multiset(r) == multiset(s)
    ensures r == Sort(s)
  {
    SortSpec(s);
    SortedUnique(r, Sort(s));
  }

  /** When every item starts with `p`, sorting on the suffixes after `p`
      gives the same sequence as sorting the whole items. */
  lemma SortFromCommonPrefix(s: seq<Item>, p: Item)
    requires forall x | x in s :: HasPrefix(x, p)
    ensures SortFrom(|p|, s) == Sort(s)
  {
    var o := |p|;
    var r := SortFrom(o, s);
    SortFromSorted(o, s);
    forall i, j | 0 <= i < j < |r|
      ensures Le(r[i], r[j])
    {
      assert r[i] in multiset(s) && r[j] in multiset(s);
      assert r[i] in s && r[j] in s;
      assert HasPrefix(r[i], p) && HasPrefix(r[j], p);
      assert LeFrom(o, r[i], r[j]);
      LeDrop(r[i], r[j], o);
    }
    SortIsUnique(s, r);
  }

  /** Items equal to the path `p` followed by an ascending run of items on
      that path form an ascending run: a node's matches come first. */
  lemma PathThenSorted(m: seq<Item>, rest: seq<Item>, p: Item)
    requires forall y | y in m :: y == p
    requires Sorted(rest) && forall y | y in rest :: HasPrefix(y, p)
    ensures Sorted(m + rest)
    ensures forall y | y in m + rest :: HasPrefix(y, p)
  {
    LeRefl(p);
    assert Sorted(m) by {
      forall i, j | 0 <= i < j < |m|
        ensures Le(m[i], m[j])
      {
        assert m[i] in m && m[j] in m;
      }
    }
    forall x, y | x in m && y in rest
      ensures Le(x, y)
    {
      LePrefix(p, y);
    }
    SortedAppend(m, rest);
  }

  /** Sorting the items on a path, on whole items or on the part after the
      path, gives the ascending permutation. */
  lemma SortOnPath(s: seq<Item>, p: Item)
    requires forall y | y in s :: HasPrefix(y, p)
    ensures SortFrom(|p|, s) == SortFrom(0, s) == Sort(s)
    ensures Sorted(Sort(s)) && forall y | y in Sort(s) :: HasPrefix(y, p)
  {
    SortFromCommonPrefix(s, p);
    SortSpec(s);
    forall y | y in Sort(s)
      ensures HasPrefix(y, p)
    {
      assert y in multiset(Sort(s));
    }
  }

  /** The longest item of a sequence (0 for none); a termination measure. */
  ghost function MaxLen(s: seq<Item>): nat
  {
    if s == [] then 0 else Max(|s[0]|, MaxLen(s[1..]))
  }

  lemma {:induction false} MaxLenAll(s: seq<Item>)
    ensures forall x | x in s :: |x| <= MaxLen(s)
  {
    if s != [] {
      MaxLenAll(s[1..]);
      assert forall x | x in s :: x == s[0] || x in s[1..];
    }
  }

  lemma {:induction false} MaxLenBound(s: seq<Item>, b: nat)
    requires forall x | x in s :: |x| <= b
    ensures MaxLen(s) <= b
  {
    if s != [] {
      MaxLenBound(s[1..], b);
    }
  }

  /** A sequence whose neighbours are in order is ascending. */
  lemma {:induction false} AdjacentSorted(s: seq<Item>)
    requires forall i | 0 < i < |s| :: Le(s[i - 1], s[i])
    ensures Sorted(s)
    decreases |s|
  {
    if |s| > 1 {
      var t := s[1..];
      assert forall i | 0 < i < |t| :: t[i - 1] == s[i] && t[i] == s[i + 1];
      AdjacentSorted(t);
      forall i, j | 0 <= i < j < |s|
        ensures Le(s[i], s[j])
      {
        if i == 0 && j > 1 {
          assert s[j] == t[j - 1];
          LeTrans(s[0], s[1], s[j]);
        } else if i > 0 {
          assert s[i] == t[i - 1] && s[j] == t[j - 1];
        }
      }
    }
  }

  /** A sequence holds its front part and its last element. */
  lemma MultisetSnoc(s: seq<Item>)
    requires s != []
    ensures multiset(s) == multiset(s[..|s| - 1]) + multiset{s[|s| - 1]}
  {
    assert s == s[..|s| - 1] + [s[|s| - 1]];
  }

  function Max(a: nat, b: nat): nat
  {
    if a < b then b else a
  }
}
