/** The dense byte-table burst trie of burstsort/src/byte.rs; its `String`
    twin src/burst_trie/tabular.rs has the same insert and burst, and a
    consuming stable merge.  A node at `offset` is either a `Bucket` of
    unsorted items or a `Table` holding the items that end at `offset` plus
    one child per byte value at `offset + 1`.  A bucket bursts once it holds
    `BURST_LIMIT` items.  `TableNode::new` builds only 255 children, so the
    byte value 255 indexes past the table: the model keeps that panic. */
module ByteTrie {
  import opened Lex

  /** `BURST_LIMIT`: a bucket bursts once it holds this many items. */
  const BurstLimit: nat := 8192

  /** The number of children `TableNode::new` builds (`for _ in 0..255`). */
  const TableWidth: nat := 255

  /** One child per byte value: the width the byte indexing needs. */
  const ByteValues: nat := 256

  datatype TrieNode = TrieNode(offset: nat, data: NodeKind)

  datatype NodeKind = Bucket(bucket: seq<Item>) | Table(matches: seq<Item>, table: seq<TrieNode>)

  /** How a call ends: normally, or with the panic of indexing a vector of
      length `len` at `index`. */
  datatype Outcome<T> = Ok(value: T) | OutOfBounds(len: nat, index: nat)

  /** Every unit of `x` indexes a table of `width` children. */
  predicate Classifiable(width: nat, x: Item)
  {
    forall i | 0 <= i < |x| :: x[i] < width
  }

  /** `TrieNode::new`: an empty bucket at `offset`. */
  function New(offset: nat): (r: TrieNode)
    ensures r.offset == offset && Valid(r) && Items(r) == multiset{} && Height(r) == 0
  {
    TrieNode(offset, Bucket([]))
  }

  /** The children `TableNode::new` builds: `width` empty buckets one level down. */
  function NewTable(width: nat, offset: nat): (t: seq<TrieNode>)
    ensures |t| == width && forall k | 0 <= k < width :: t[k] == New(offset + 1)
  {
    seq(width, _ => New(offset + 1))
  }

  // ---------------------------------------------------------------------
  // Ghost views: contents, height, validity, well-formedness

  ghost function Items(n: TrieNode): multiset<Item>
    decreases n
  {
    match n.data
    case Bucket(b) => multiset(b)
    case Table(m, t) => multiset(m) + ItemsAll(t)
  }

  ghost function ItemsAll(t: seq<TrieNode>): multiset<Item>
    decreases t
  {
    if t == [] then multiset{} else Items(t[0]) + ItemsAll(t[1..])
  }

  /** The longest item stored below a node: with the offset, the insert measure. */
  ghost function Height(n: TrieNode): nat
    decreases n
  {
    match n.data
    case Bucket(b) => MaxLen(b)
    case Table(m, t) => Max(MaxLen(m), HeightAll(t))
  }

  ghost function HeightAll(t: seq<TrieNode>): nat
    decreases t
  {
    if t == [] then 0 else Max(Height(t[0]), HeightAll(t[1..]))
  }

  /** What the slicing `[offset..]` and the table insert need: bucket items
      reach the node's offset, and table children sit one offset down. */
  ghost predicate Valid(n: TrieNode)
    decreases n
  {
    match n.data
    case Bucket(b) => forall y | y in b :: |y| >= n.offset
    case Table(_, t) => ValidTable(t, n.offset)
  }

  ghost predicate ValidTable(t: seq<TrieNode>, offset: nat)
    decreases t
  {
    forall k | 0 <= k < |t| :: t[k].offset == offset + 1 && Valid(t[k])
  }

  /** The structural invariant: a node at offset L lies on path `p`
      (|p| == L); its bucket items extend `p` and have every byte below
      `width`, a table's matches are exactly `p`, and child `k` of a
      `width`-child table lies on path `p + [k]`. */
  ghost predicate Wf(width: nat, n: TrieNode, p: Item)
    decreases n
  {
    && n.offset == |p|
    && match n.data
       case Bucket(b) => forall y | y in b :: HasPrefix(y, p) && Classifiable(width, y)
       case Table(m, t) => (forall y | y in m :: y == p) && |t| == width && WfTable(width, t, p)
  }

  ghost predicate WfTable(width: nat, t: seq<TrieNode>, p: Item)
    decreases t
  {
    forall k | 0 <= k < |t| :: Wf(width, t[k], p + [k])
  }

  // ---------------------------------------------------------------------
  // Operations

  /** `TrieNode::insert`.  A table node hands the item to its table; a
      bucket node pushes it and bursts once the bucket reaches `BurstLimit`. */
  function Insert(width: nat, n: TrieNode, s: Item): (r: Outcome<TrieNode>)
    requires Valid(n) && |s| >= n.offset
    ensures r.Ok? ==> Valid(r.value) && r.value.offset == n.offset
    ensures r.Ok? ==> Height(r.value) <= Max(Height(n), |s|)
    decreases Max(Height(n), |s|) - n.offset, 4, 0
  {
    match n.data
    case Bucket(b) =>
      var b' := b + [s];
      MaxLenAll(b);
      MaxLenBound(b', Max(Height(n), |s|));
      if |b'| >= BurstLimit then Burst(width, n.offset, b')
      else Ok(n.(data := Bucket(b')))
    case Table(_, _) =>
      TableInsert(width, n, s)
  }

  /** `TableNode::insert`: an item of length `offset` joins the matches,
      any other goes to `table[byte at offset]`, which panics when that byte
      is not below the table's length. */
  function TableInsert(width: nat, n: TrieNode, s: Item): (r: Outcome<TrieNode>)
    requires n.data.Table? && Valid(n) && |s| >= n.offset
    ensures r.Ok? ==> r.value.data.Table? && Valid(r.value) && r.value.offset == n.offset
    ensures r.Ok? ==> Height(r.value) <= Max(Height(n), |s|)
    decreases Max(Height(n), |s|) - n.offset, 1, 0
  {
    var m := n.data.matches;
    var t := n.data.table;
    if |s| == n.offset then
      MaxLenAll(m);
      MaxLenBound(m + [s], Max(Height(n), |s|));
      Ok(n.(data := Table(m + [s], t)))
    else
      var index := s[n.offset];
      if index >= |t| then OutOfBounds(|t|, index)
      else
        assert ValidTable(t, n.offset);
        assert t[index].offset == n.offset + 1 && Valid(t[index]);
        HeightAllElem(t, index);
        match Insert(width, t[index], s)
        case Ok(c) =>
          HeightAllUpdate(t, index, c);
          ValidUpdate(t, index, c, n.offset);
          Ok(n.(data := Table(m, t[index := c])))
        case OutOfBounds(len, i) => OutOfBounds(len, i)
  }

  /** `BucketNode::burst`: a fresh table of `width` children filled by
      popping the bucket from the back. */
  function Burst(width: nat, offset: nat, b: seq<Item>): (r: Outcome<TrieNode>)
    requires forall y | y in b :: |y| >= offset
    ensures r.Ok? ==> r.value.data.Table? && Valid(r.value) && r.value.offset == offset
    ensures r.Ok? ==> Height(r.value) <= MaxLen(b)
    decreases MaxLen(b) - offset, 3, 0
  {
    var t := NewTable(width, offset);
    FreshTableFacts(t, offset);
    Distribute(width, TrieNode(offset, Table([], t)), b)
  }

  /** The loop `while let Some(item) = bucket.pop() { table.insert(item, off) }`. */
  function Distribute(width: nat, n: TrieNode, items: seq<Item>): (r: Outcome<TrieNode>)
    requires n.data.Table? && Valid(n)
    requires forall y | y in items :: |y| >= n.offset
    ensures r.Ok? ==> r.value.data.Table? && Valid(r.value) && r.value.offset == n.offset
    ensures r.Ok? ==> Height(r.value) <= Max(Height(n), MaxLen(items))
    decreases Max(Height(n), MaxLen(items)) - n.offset, 2, |items|
  {
    if items == [] then Ok(n)
    else
      var last := items[|items| - 1];
      var rest := items[..|items| - 1];
      assert last in items;
      assert forall z | z in rest :: z in items;
      MaxLenAll(items);
      MaxLenBound(rest, MaxLen(items));
      match TableInsert(width, n, last)
      case Ok(n') => Distribute(width, n', rest)
      case OutOfBounds(len, index) => OutOfBounds(len, index)
  }

  /** `merge`, `merge_unstable` and the consuming `merge` of tabular.rs: a
      bucket sorted on the suffixes from `offset`, or a table's matches
      followed by every child in byte order. */
  function Merge(n: TrieNode): (r: seq<Item>)
    ensures multiset(r) == Items(n)
    decreases n
  {
    match n.data
    case Bucket(b) => SortFrom(n.offset, b)
    case Table(m, t) => m + MergeAll(t)
  }

  function MergeAll(t: seq<TrieNode>): (r: seq<Item>)
    ensures multiset(r) == ItemsAll(t)
    decreases t
  {
    if t == [] then [] else Merge(t[0]) + MergeAll(t[1..])
  }

  /** Pop every item off the back of `data` into the trie; the first panic ends the loop. */
  function InsertAll(width: nat, n: TrieNode, data: seq<Item>): (r: Outcome<TrieNode>)
    requires Valid(n) && forall y | y in data :: |y| >= n.offset
    ensures r.Ok? ==> Valid(r.value) && r.value.offset == n.offset
    decreases |data|
  {
    if data == [] then Ok(n)
    else
      var last := data[|data| - 1];
      assert last in data;
      assert forall z | z in data[..|data| - 1] :: z in data;
      match Insert(width, n, last)
      case Ok(n') => InsertAll(width, n', data[..|data| - 1])
      case OutOfBounds(len, index) => OutOfBounds(len, index)
  }

  /** The pop-all / insert / merge driver over a root at offset 0 whose
      tables have `width` children. */
  function BurstSort(width: nat, data: seq<Item>): (r: Outcome<seq<Item>>)
    ensures r.Ok? ==> multiset(r.value) == multiset(data)
  {
    InsertAllItems(width, New(0), data);
    match InsertAll(width, New(0), data)
    case Ok(n) => Ok(Merge(n))
    case OutOfBounds(len, index) => OutOfBounds(len, index)
  }

  /** `tabular_burst_sort` (sorts.rs) and `burst_sort` (src/string.rs) as
      written: tables of 255 children. */
  function TabularBurstSort(data: seq<Item>): (r: Outcome<seq<Item>>)
    ensures r.Ok? ==> multiset(r.value) == multiset(data)
  {
    BurstSort(TableWidth, data)
  }

  /** The same driver with one child per byte value. */
  function CorrectedBurstSort(data: seq<Item>): (r: Outcome<seq<Item>>)
  {
    BurstSort(ByteValues, data)
  }

  // ---------------------------------------------------------------------
  // Bookkeeping over child tables

  lemma {:induction false} FreshTableFacts(t: seq<TrieNode>, offset: nat)
    requires forall k | 0 <= k < |t| :: t[k] == New(offset + 1)
    ensures ItemsAll(t) == multiset{} && HeightAll(t) == 0 && ValidTable(t, offset)
  {
    if t != [] {
      FreshTableFacts(t[1..], offset);
    }
  }

  lemma {:induction false} HeightAllElem(t: seq<TrieNode>, k: nat)
    requires k < |t|
    ensures Height(t[k]) <= HeightAll(t)
  {
    if k > 0 {
      HeightAllElem(t[1..], k - 1);
    }
  }

  lemma {:induction false} HeightAllUpdate(t: seq<TrieNode>, k: nat, c: TrieNode)
    requires k < |t|
    ensures HeightAll(t[k := c]) <= Max(HeightAll(t), Height(c))
  {
    if k > 0 {
      HeightAllUpdate(t[1..], k - 1, c);
      assert t[k := c][1..] == t[1..][k - 1 := c];
    } else {
      assert t[k := c][1..] == t[1..];
    }
  }

  lemma {:induction false} ItemsAllGrow(t: seq<TrieNode>, k: nat, c: TrieNode, m: multiset<Item>)
    requires k < |t| && Items(c) == Items(t[k]) + m
    ensures ItemsAll(t[k := c]) == ItemsAll(t) + m
  {
    var u := t[k := c];
    if k > 0 {
      ItemsAllGrow(t[1..], k - 1, c, m);
      assert u[1..] == t[1..][k - 1 := c];
      assert u[0] == t[0];
    } else {
      assert u[1..] == t[1..];
    }
  }

  /** Replacing one child by a valid node one offset down keeps the table valid. */
  lemma ValidUpdate(t: seq<TrieNode>, k: nat, c: TrieNode, offset: nat)
    requires k < |t| && c.offset == offset + 1 && Valid(c) && ValidTable(t, offset)
    ensures ValidTable(t[k := c], offset)
  {
    var u := t[k := c];
    assert forall j | 0 <= j < |u| :: u[j] == if j == k then c else t[j];
  }

  lemma WfUpdate(width: nat, t: seq<TrieNode>, k: nat, c: TrieNode, p: Item)
    requires k < |t| && Wf(width, c, p + [k]) && WfTable(width, t, p)
    ensures WfTable(width, t[k := c], p)
  {
    var u := t[k := c];
    assert forall j | 0 <= j < |u| :: u[j] == if j == k then c else t[j];
  }

  // ---------------------------------------------------------------------
  // Contents: a successful insert adds exactly its item

  lemma {:induction false} InsertItems(width: nat, n: TrieNode, s: Item)
    requires Valid(n) && |s| >= n.offset
    ensures var r := Insert(width, n, s); r.Ok? ==> Items(r.value) == Items(n) + multiset{s}
    decreases Max(Height(n), |s|) - n.offset, 4, 0
  {
    match n.data
    case Bucket(b) =>
      var b' := b + [s];
      assert multiset(b') == multiset(b) + multiset{s};
      MaxLenAll(b);
      MaxLenBound(b', Max(Height(n), |s|));
      if |b'| >= BurstLimit {
        BurstItems(width, n.offset, b');
      }
    case Table(_, _) =>
      TableInsertItems(width, n, s);
  }

  lemma {:induction false} TableInsertItems(width: nat, n: TrieNode, s: Item)
    requires n.data.Table? && Valid(n) && |s| >= n.offset
    ensures var r := TableInsert(width, n, s); r.Ok? ==> Items(r.value) == Items(n) + multiset{s}
    decreases Max(Height(n), |s|) - n.offset, 1, 0
  {
    var m := n.data.matches;
    var t := n.data.table;
    if |s| == n.offset {
      assert multiset(m + [s]) == multiset(m) + multiset{s};
    } else {
      var index := s[n.offset];
      if index < |t| {
        HeightAllElem(t, index);
        InsertItems(width, t[index], s);
        var r := Insert(width, t[index], s);
        if r.Ok? {
          ItemsAllGrow(t, index, r.value, multiset{s});
        }
      }
    }
  }

  lemma {:induction false} BurstItems(width: nat, offset: nat, b: seq<Item>)
    requires forall y | y in b :: |y| >= offset
    ensures var r := Burst(width, offset, b); r.Ok? ==> Items(r.value) == multiset(b)
    decreases MaxLen(b) - offset, 3, 0
  {
    var t := NewTable(width, offset);
    FreshTableFacts(t, offset);
    DistributeItems(width, TrieNode(offset, Table([], t)), b);
  }

  lemma {:induction false} DistributeItems(width: nat, n: TrieNode, items: seq<Item>)
    requires n.data.Table? && Valid(n)
    requires forall y | y in items :: |y| >= n.offset
    ensures var r := Distribute(width, n, items); r.Ok? ==> Items(r.value) == Items(n) + multiset(items)
    decreases Max(Height(n), MaxLen(items)) - n.offset, 2, |items|
  {
    if items != [] {
      var last := items[|items| - 1];
      var rest := items[..|items| - 1];
      assert last in items;
      assert forall z | z in rest :: z in items;
      MaxLenAll(items);
      MaxLenBound(rest, MaxLen(items));
      TableInsertItems(width, n, last);
      var r := TableInsert(width, n, last);
      if r.Ok? {
        DistributeItems(width, r.value, rest);
        MultisetSnoc(items);
      }
    }
  }

  lemma {:induction false} InsertAllItems(width: nat, n: TrieNode, data: seq<Item>)
    requires Valid(n) && forall y | y in data :: |y| >= n.offset
    ensures var r := InsertAll(width, n, data); r.Ok? ==> Items(r.value) == Items(n) + multiset(data)
    decreases |data|
  {
    if data != [] {
      var last := data[|data| - 1];
      var rest := data[..|data| - 1];
      assert last in data;
      assert forall z | z in rest :: z in data;
      InsertItems(width, n, last);
      var r := Insert(width, n, last);
      if r.Ok? {
        InsertAllItems(width, r.value, rest);
        MultisetSnoc(data);
      }
    }
  }

  // ---------------------------------------------------------------------
  // No panic and order, when every byte indexes the table

  lemma {:induction false} WfValid(width: nat, n: TrieNode, p: Item)
    requires Wf(width, n, p)
    ensures Valid(n)
    decreases n
  {
    match n.data
    case Bucket(b) =>
      forall y | y in b
        ensures |y| >= n.offset
      {
      }
    case Table(_, t) =>
      WfTableValid(width, t, p);
  }

  lemma {:induction false} WfTableValid(width: nat, t: seq<TrieNode>, p: Item)
    requires WfTable(width, t, p)
    ensures ValidTable(t, |p|)
    decreases t
  {
    forall k | 0 <= k < |t|
      ensures t[k].offset == |p| + 1 && Valid(t[k])
    {
      WfValid(width, t[k], p + [k]);
    }
  }

  /** An item on the node's path whose every byte indexes a `width`-child
      table is stored without panic, and every item stays on its path. */
  lemma {:induction false} InsertWf(width: nat, n: TrieNode, p: Item, s: Item)
    requires Wf(width, n, p) && Valid(n) && HasPrefix(s, p) && Classifiable(width, s)
    ensures Insert(width, n, s).Ok? && Wf(width, Insert(width, n, s).value, p)
    decreases Max(Height(n), |s|) - n.offset, 4, 0
  {
    match n.data
    case Bucket(b) =>
      var b' := b + [s];
      MaxLenAll(b);
      MaxLenBound(b', Max(Height(n), |s|));
      if |b'| >= BurstLimit {
        BurstWf(width, p, b');
      }
    case Table(_, _) =>
      TableInsertWf(width, n, p, s);
  }

  lemma {:induction false} TableInsertWf(width: nat, n: TrieNode, p: Item, s: Item)
    requires n.data.Table? && Valid(n) && Wf(width, n, p)
    requires HasPrefix(s, p) && Classifiable(width, s)
    ensures TableInsert(width, n, s).Ok? && Wf(width, TableInsert(width, n, s).value, p)
    decreases Max(Height(n), |s|) - n.offset, 1, 0
  {
    if |s| == |p| {
      assert s == s[..|p|] == p;
    } else {
      var t := n.data.table;
      var index := s[|p|];
      HeightAllElem(t, index);
      PrefixStep(s, p);
      InsertWf(width, t[index], p + [index], s);
      WfUpdate(width, t, index, Insert(width, t[index], s).value, p);
    }
  }

  lemma {:induction false} BurstWf(width: nat, p: Item, b: seq<Item>)
    requires forall y | y in b :: |y| >= |p| && HasPrefix(y, p) && Classifiable(width, y)
    ensures Burst(width, |p|, b).Ok? && Wf(width, Burst(width, |p|, b).value, p)
    decreases MaxLen(b) - |p|, 3, 0
  {
    var t := NewTable(width, |p|);
    FreshTableFacts(t, |p|);
    forall k | 0 <= k < |t|
      ensures Wf(width, t[k], p + [k])
    {
    }
    DistributeWf(width, TrieNode(|p|, Table([], t)), p, b);
  }

  lemma {:induction false} DistributeWf(width: nat, n: TrieNode, p: Item, items: seq<Item>)
    requires n.data.Table? && Valid(n) && Wf(width, n, p)
    requires forall y | y in items :: |y| >= |p| && HasPrefix(y, p) && Classifiable(width, y)
    ensures Distribute(width, n, items).Ok? && Wf(width, Distribute(width, n, items).value, p)
    decreases Max(Height(n), MaxLen(items)) - n.offset, 2, |items|
  {
    if items != [] {
      var last := items[|items| - 1];
      var rest := items[..|items| - 1];
      assert last in items;
      assert forall z | z in rest :: z in items;
      MaxLenAll(items);
      MaxLenBound(rest, MaxLen(items));
      TableInsertWf(width, n, p, last);
      DistributeWf(width, TableInsert(width, n, last).value, p, rest);
    }
  }

  /** Merge of a well-formed node is ascending and stays on the node's path. */
  lemma {:induction false} MergeSorted(width: nat, n: TrieNode, p: Item)
    requires Wf(width, n, p)
    ensures Sorted(Merge(n))
    ensures forall y | y in Merge(n) :: HasPrefix(y, p)
    decreases n
  {
    match n.data
    case Bucket(b) =>
      assert Merge(n) == SortFrom(|p|, b);
      SortOnPath(b, p);
    case Table(m, t) =>
      assert Merge(n) == m + MergeAll(t);
      TableMergeSorted(width, m, t, p);
  }

  lemma {:induction false} TableMergeSorted(width: nat, m: seq<Item>, t: seq<TrieNode>, p: Item)
    requires forall y | y in m :: y == p
    requires WfTable(width, t, p)
    ensures Sorted(m + MergeAll(t))
    ensures forall y | y in m + MergeAll(t) :: HasPrefix(y, p)
    decreases t, 2
  {
    TableBase(width, t, p);
    MergeAllSorted(width, t, p, 0);
    PathThenSorted(m, MergeAll(t), p);
  }

  /** Children `base`, `base + 1`, ... of path `p`. */
  ghost predicate WfFrom(width: nat, t: seq<TrieNode>, p: Item, base: nat)
  {
    forall k | 0 <= k < |t| :: Wf(width, t[k], p + [base + k])
  }

  lemma TableBase(width: nat, t: seq<TrieNode>, p: Item)
    requires WfTable(width, t, p)
    ensures WfFrom(width, t, p, 0)
  {
    forall k | 0 <= k < |t|
      ensures Wf(width, t[k], p + [0 + k])
    {
      assert p + [0 + k] == p + [k];
    }
  }

  lemma {:induction false} MergeAllSorted(width: nat, t: seq<TrieNode>, p: Item, base: nat)
    requires WfFrom(width, t, p, base)
    ensures Sorted(MergeAll(t))
    ensures forall y | y in MergeAll(t) :: InBranches(y, p, base)
    decreases t, 1
  {
    if t != [] {
      MergeSorted(width, t[0], p + [base]);
      assert forall k | 0 <= k < |t[1..]| :: t[1..][k] == t[k + 1];
      MergeAllSorted(width, t[1..], p, base + 1);
      BranchesAppend(Merge(t[0]), MergeAll(t[1..]), p, base);
    }
  }

  lemma {:induction false} InsertAllWf(width: nat, n: TrieNode, data: seq<Item>)
    requires Wf(width, n, []) && Valid(n) && forall y | y in data :: Classifiable(width, y)
    ensures InsertAll(width, n, data).Ok? && Wf(width, InsertAll(width, n, data).value, [])
    decreases |data|
  {
    if data != [] {
      var last := data[|data| - 1];
      assert last in data;
      assert forall z | z in data[..|data| - 1] :: z in data;
      InsertWf(width, n, [], last);
      WfValid(width, Insert(width, n, last).value, []);
      InsertAllWf(width, Insert(width, n, last).value, data[..|data| - 1]);
    }
  }

  /** When every byte of every item indexes the table, the driver does not
      panic and returns exactly the reference sort of its input. */
  lemma BurstSortIsSort(width: nat, data: seq<Item>)
    requires forall y | y in data :: Classifiable(width, y)
    ensures BurstSort(width, data) == Ok(Sort(data))
  {
    InsertAllWf(width, New(0), data);
    MergeSorted(width, InsertAll(width, New(0), data).value, []);
    SortIsUnique(data, BurstSort(width, data).value);
  }

  /** As written, the driver sorts every input whose bytes stay below 255
      (the equivalence that sorts.rs and src/string.rs check). */
  lemma TabularSortsBelow255(data: seq<Item>)
    requires forall y | y in data :: Classifiable(TableWidth, y)
    ensures TabularBurstSort(data) == Ok(Sort(data))
  {
    BurstSortIsSort(TableWidth, data);
  }

  /** With one child per byte value, every byte string is sorted. */
  lemma CorrectedSortsAllBytes(data: seq<Item>)
    requires forall y | y in data :: Classifiable(ByteValues, y)
    ensures CorrectedBurstSort(data) == Ok(Sort(data))
  {
    BurstSortIsSort(ByteValues, data);
  }

  // ---------------------------------------------------------------------
  // Routing of one insert

  /** Where one insert puts its item.  A bucket node pushes it and becomes a
      table of `width` children exactly when the bucket reaches
      `BurstLimit`; a table node puts an item of length `offset` in its
      matches, panics on a byte past the table, and otherwise hands the item
      to child `s[offset]`, leaving every other child alone. */
  lemma InsertRoutes(width: nat, n: TrieNode, s: Item)
    requires Valid(n) && |s| >= n.offset
    ensures var r := Insert(width, n, s);
      && (n.data.Bucket? && |n.data.bucket| + 1 < BurstLimit ==>
            r == Ok(n.(data := Bucket(n.data.bucket + [s]))))
      && (n.data.Bucket? && |n.data.bucket| + 1 >= BurstLimit && r.Ok? ==>
            r.value.data.Table? && |r.value.data.table| == width)
      && (n.data.Table? && |s| == n.offset ==>
            r == Ok(n.(data := n.data.(matches := n.data.matches + [s]))))
      && (n.data.Table? && |s| > n.offset && s[n.offset] >= |n.data.table| ==>
            r == OutOfBounds(|n.data.table|, s[n.offset]))
      && (n.data.Table? && |s| > n.offset && s[n.offset] < |n.data.table| && r.Ok? ==>
            && r.value.data.Table? && r.value.data.matches == n.data.matches
            && |r.value.data.table| == |n.data.table|
            && Items(r.value.data.table[s[n.offset]]) == Items(n.data.table[s[n.offset]]) + multiset{s}
            && forall k | 0 <= k < |n.data.table| && k != s[n.offset] :: r.value.data.table[k] == n.data.table[k])
  {
    var r := Insert(width, n, s);
    if n.data.Bucket? && |n.data.bucket| + 1 >= BurstLimit && r.Ok? {
      var t := NewTable(width, n.offset);
      FreshTableFacts(t, n.offset);
      DistributeWidth(width, TrieNode(n.offset, Table([], t)), n.data.bucket + [s]);
    }
    if n.data.Table? && |s| > n.offset && s[n.offset] < |n.data.table| {
      var t := n.data.table;
      assert t[s[n.offset]].offset == n.offset + 1 && Valid(t[s[n.offset]]);
      InsertItems(width, t[s[n.offset]], s);
    }
  }

  /** Distribution never changes the number of children. */
  lemma {:induction false} DistributeWidth(width: nat, n: TrieNode, items: seq<Item>)
    requires n.data.Table? && Valid(n)
    requires forall y | y in items :: |y| >= n.offset
    ensures var r := Distribute(width, n, items); r.Ok? ==> |r.value.data.table| == |n.data.table|
    decreases |items|
  {
    if items != [] {
      var rest := items[..|items| - 1];
      assert items[|items| - 1] in items;
      assert forall z | z in rest :: z in items;
      var r := TableInsert(width, n, items[|items| - 1]);
      if r.Ok? {
        DistributeWidth(width, r.value, rest);
      }
    }
  }

  // ---------------------------------------------------------------------
  // The 255-child table: a byte 255 that reaches a burst panics

  /** `n` copies of the one-byte item `[255]`. */
  function Bytes255(n: nat): (s: seq<Item>)
    ensures |s| == n && forall i | 0 <= i < n :: s[i] == [255]
  {
    seq(n, _ => [255])
  }

  /** Below the burst limit the items just pile up in the root bucket. */
  lemma {:induction false} FillBucket(j: nat, k: nat)
    requires j + k < BurstLimit
    ensures InsertAll(TableWidth, TrieNode(0, Bucket(Bytes255(j))), Bytes255(k)) == Ok(TrieNode(0, Bucket(Bytes255(j + k))))
    decreases k
  {
    if k > 0 {
      assert Bytes255(k)[..k - 1] == Bytes255(k - 1);
      assert Bytes255(j) + [[255]] == Bytes255(j + 1);
      FillBucket(j + 1, k - 1);
    }
  }

  /** The insert that fills the bucket bursts it, and the first item popped
      indexes byte 255 of a 255-child table. */
  lemma {:induction false} OverflowBucket(j: nat, k: nat)
    requires j + k == BurstLimit && k >= 1
    ensures InsertAll(TableWidth, TrieNode(0, Bucket(Bytes255(j))), Bytes255(k)) == OutOfBounds(255, 255)
    decreases k
  {
    assert Bytes255(k)[..k - 1] == Bytes255(k - 1);
    assert Bytes255(j) + [[255]] == Bytes255(j + 1);
    var full := Bytes255(BurstLimit);
    if k == 1 {
      var t := NewTable(TableWidth, 0);
      FreshTableFacts(t, 0);
      var root := TrieNode(0, Table([], t));
      assert full[|full| - 1] == [255];
      assert TableInsert(TableWidth, root, [255]) == OutOfBounds(255, 255);
      assert Distribute(TableWidth, root, full) == OutOfBounds(255, 255);
      assert Insert(TableWidth, TrieNode(0, Bucket(Bytes255(j))), [255]) == Burst(TableWidth, 0, full);
    } else {
      OverflowBucket(j + 1, k - 1);
    }
  }

  /** 8192 copies of the byte string `[255]` make the as-written driver
      panic, although every unit is a byte. */
  lemma Byte255Panics()
    ensures TabularBurstSort(Bytes255(BurstLimit)) == OutOfBounds(255, 255)
    ensures CorrectedBurstSort(Bytes255(BurstLimit)) == Ok(Bytes255(BurstLimit))
  {
    OverflowBucket(0, BurstLimit);
    assert Bytes255(0) == [];
    var d := Bytes255(BurstLimit);
    CorrectedSortsAllBytes(d);
    assert Sorted(d) by {
      forall i, j | 0 <= i < j < |d|
        ensures Le(d[i], d[j])
      {
        LeRefl(d[i]);
      }
    }
    SortIsUnique(d, d);
  }
}
