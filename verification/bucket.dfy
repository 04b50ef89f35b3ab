/** `bucket_sort` of src/bucket.rs: every element is pushed, in input order,
    onto the bucket its key names; the buckets are written back over the
    slice in bucket order; an insertion sort finishes the job.  A key at or
    past the number of buckets is the error `OutOfRange(element)`, returned
    before the slice is touched. */
module Bucket {
  import opened Lex
  import opened Insertion

  /** What `make_buckets` returns: the buckets, or the element whose key
      found no bucket. */
  datatype Made = Buckets(buckets: seq<seq<Item>>) | Missed(value: Item)

  /** `Result<(), BucketError<T>>`; `OutOfRange` is the one error kind. */
  datatype BucketResult = Ok | OutOfRange(value: Item)

  /** Every element's key names one of `num` buckets. */
  predicate AllFit(data: seq<Item>, key: Item -> nat, num: nat)
  {
    forall i | 0 <= i < |data| :: key(data[i]) < num
  }

  /** `i` is the first position whose key names no bucket. */
  predicate FirstMiss(data: seq<Item>, key: Item -> nat, num: nat, i: nat)
  {
    i < |data| && key(data[i]) >= num && AllFit(data[..i], key, num)
  }

  /** The elements of `s` whose key is `k`, in their order in `s`. */
  function Filter(s: seq<Item>, key: Item -> nat, k: nat): seq<Item>
    decreases |s|
  {
    if s == [] then []
    else
      var last := s[|s| - 1];
      Filter(s[..|s| - 1], key, k) + (if key(last) == k then [last] else [])
  }

  lemma FilterSnoc(s: seq<Item>, key: Item -> nat, k: nat, x: Item)
    ensures Filter(s + [x], key, k) == Filter(s, key, k) + (if key(x) == k then [x] else [])
  {
    assert (s + [x])[..|s|] == s;
  }

  /** The buckets laid end to end, in bucket order. */
  function Concat(bs: seq<seq<Item>>): seq<Item>
    decreases |bs|
  {
    if bs == [] then []
    else Concat(bs[..|bs| - 1]) + bs[|bs| - 1]
  }

  lemma {:induction false} ConcatEmpties(bs: seq<seq<Item>>)
    requires forall i | 0 <= i < |bs| :: bs[i] == []
    ensures Concat(bs) == []
    decreases |bs|
  {
    if bs != [] {
      ConcatEmpties(bs[..|bs| - 1]);
    }
  }

  /** Pushing `x` onto one bucket adds `x` to the concatenation's contents. */
  lemma {:induction false} ConcatPush(bs: seq<seq<Item>>, k: nat, x: Item)
    requires k < |bs|
    ensures multiset(Concat(bs[k := bs[k] + [x]])) == multiset(Concat(bs)) + multiset{x}
    decreases |bs|
  {
    var bs' := bs[k := bs[k] + [x]];
    var n := |bs| - 1;
    assert bs'[..n] == if k == n then bs[..n] else bs[..n][k := bs[k] + [x]];
    if k < n {
      ConcatPush(bs[..n], k, x);
    }
  }

  /** The concatenation of a prefix of the buckets begins the whole. */
  lemma {:induction false} ConcatPrefix(bs: seq<seq<Item>>, i: nat)
    requires i <= |bs|
    ensures |Concat(bs[..i])| <= |Concat(bs)|
    ensures Concat(bs)[..|Concat(bs[..i])|] == Concat(bs[..i])
    decreases |bs| - i
  {
    if i < |bs| {
      ConcatPrefix(bs, i + 1);
      assert bs[..i + 1][..i] == bs[..i];
    } else {
      assert bs[..i] == bs;
    }
  }

  /** `make_buckets`: `num` empty buckets, then each element in input
      order onto bucket `key(x)`; the first element whose key is `num` or
      more stops the loop with that element. */
  method MakeBuckets(data: seq<Item>, key: Item -> nat, num: nat) returns (r: Made)
    ensures r.Buckets? <==> AllFit(data, key, num)
    ensures r.Buckets? ==> |r.buckets| == num && forall k | 0 <= k < num :: r.buckets[k] == Filter(data, key, k)
    ensures r.Buckets? ==> multiset(Concat(r.buckets)) == multiset(data)
    ensures r.Missed? ==> exists i: nat :: FirstMiss(data, key, num, i) && data[i] == r.value
  {
    var buckets: seq<seq<Item>> := seq(num, _ => []);
    ConcatEmpties(buckets);
    var i := 0;
    while i < |data|
      invariant 0 <= i <= |data| && |buckets| == num
      invariant forall k | 0 <= k < num :: buckets[k] == Filter(data[..i], key, k)
      invariant forall j | 0 <= j < i :: key(data[j]) < num
      invariant multiset(Concat(buckets)) == multiset(data[..i])
    {
      var x := data[i];
      var k := key(x);
      if k >= num {
        assert AllFit(data[..i], key, num) by {
          forall j | 0 <= j < i
            ensures key(data[..i][j]) < num
          {
            assert data[..i][j] == data[j];
          }
        }
        assert FirstMiss(data, key, num, i);
        assert !AllFit(data, key, num);
        return Missed(x);
      }
      assert data[..i + 1] == data[..i] + [x];
      assert multiset(data[..i + 1]) == multiset(data[..i]) + multiset{x};
      ConcatPush(buckets, k, x);
      var buckets' := buckets[k := buckets[k] + [x]];
      assert multiset(Concat(buckets')) == multiset(data[..i + 1]);
      forall c | 0 <= c < num
        ensures buckets'[c] == Filter(data[..i + 1], key, c)
      {
        FilterSnoc(data[..i], key, c, x);
      }
      forall j | 0 <= j < i + 1
        ensures key(data[j]) < num
      {
        if j == i {
          assert data[j] == x;
        }
      }
      buckets := buckets';
      i := i + 1;
    }
    assert data[..i] == data;
    r := Buckets(buckets);
  }

  /** `dump_buckets`: each bucket is copied over the next stretch of the
      slice, so the prefix the buckets cover becomes their concatenation.
      A total longer than the slice would panic on the range. */
  method DumpBuckets(data: seq<Item>, buckets: seq<seq<Item>>) returns (r: seq<Item>)
    requires |Concat(buckets)| <= |data|
    ensures r == Concat(buckets) + data[|Concat(buckets)|..]
  {
    r := data;
    var start := 0;
    var i := 0;
    while i < |buckets|
      invariant 0 <= i <= |buckets|
      invariant start == |Concat(buckets[..i])| <= |data|
      invariant r == Concat(buckets[..i]) + data[start..]
    {
      var b := buckets[i];
      var end := start + |b|;
      ConcatPrefix(buckets, i + 1);
      assert buckets[..i + 1][..i] == buckets[..i];
      assert Concat(buckets[..i + 1]) == Concat(buckets[..i]) + b;
      r := r[..start] + b + r[end..];
      start := end;
      i := i + 1;
    }
    assert buckets[..i] == buckets;
  }

  /** `bucket_sort`: on a key out of range the slice is untouched and the
      error names the first element past the buckets; otherwise the slice
      ends up as the ascending permutation of its input, whatever the key. */
  method BucketSort(data: seq<Item>, key: Item -> nat, num: nat) returns (res: BucketResult, out: seq<Item>)
    ensures res.Ok? <==> AllFit(data, key, num)
    ensures res.Ok? ==> out == Sort(data)
    ensures res.OutOfRange? ==> out == data
    ensures res.OutOfRange? ==> exists i: nat :: FirstMiss(data, key, num, i) && data[i] == res.value
  {
    var made := MakeBuckets(data, key, num);
    if made.Missed? {
      return OutOfRange(made.value), data;
    }
    assert |Concat(made.buckets)| == |data| by {
      assert |multiset(Concat(made.buckets))| == |multiset(data)|;
    }
    var dumped := DumpBuckets(data, made.buckets);
    assert data[|data|..] == [];
    assert dumped == Concat(made.buckets);
    out := InsertionSort(dumped);
    SortIsUnique(data, out);
    res := Ok;
  }

  /** The key of the test in src/bucket.rs: the first byte, or 0 for the
      empty string. */
  function FirstByte(x: Item): nat
  {
    if |x| > 0 then x[0] else 0
  }

  /** The units of a `String` are bytes. */
  predicate IsBytes(x: Item)
  {
    forall i | 0 <= i < |x| :: x[i] < 256
  }

  /** With the first-byte key and 256 buckets every string finds a bucket,
      and the sort agrees with `sort_unstable`. */
  method FirstByteBucketSort(data: seq<Item>) returns (out: seq<Item>)
    requires forall i | 0 <= i < |data| :: IsBytes(data[i])
    ensures out == Sort(data)
  {
    assert AllFit(data, FirstByte, 256);
    var res;
    res, out := BucketSort(data, FirstByte, 256);
  }
}
