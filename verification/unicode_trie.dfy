/** The sparse, character-keyed burst trie of burstsort/src/unicode.rs; its
    `String` twin src/burst_trie/dynamic.rs has the same insert, burst and
    child search.  A node at `offset` holds the items that end at `offset`
    and either a `Collapsed` list of longer items or a `Burst` vector of
    children kept in ascending order of their character, found by binary
    search and created on first use.  The children vector of `(char, node)`
    pairs is kept as two parallel sequences, `keys` and `kids`. */
module UnicodeTrie {
  import opened Lex

  /** `BURST_LIMIT`: a collapsed list bursts once it holds this many items. */
  const BurstLimit: nat := 8192

  datatype TrieNode = TrieNode(offset: nat, matches: seq<Item>, kind: NodeKind)

  datatype NodeKind = Collapsed(items: seq<Item>) | Burst(keys: seq<nat>, kids: seq<TrieNode>)

  /** The answer of `binary_search_by_key`: where `c` is, or where it would go. */
  datatype Search = Found(index: nat) | Missing(index: nat)

  predicate Increasing(keys: seq<nat>)
  {
    forall i, j | 0 <= i < j < |keys| :: keys[i] < keys[j]
  }

  /** `TrieNode::new`: no matches and an empty collapsed list. */
  function New(offset: nat): (r: TrieNode)
    ensures r.offset == offset && Valid(r) && Items(r) == multiset{} && Height(r) == 0
  {
    TrieNode(offset, [], Collapsed([]))
  }

  /** `s` with `x` inserted before position `i` (`Vec::insert`). */
  function Splice<T>(s: seq<T>, i: nat, x: T): (r: seq<T>)
    requires i <= |s|
    ensures |r| == |s| + 1
    ensures forall j | 0 <= j < |r| :: r[j] == if j < i then s[j] else if j == i then x else s[j - 1]
  {
    s[..i] + [x] + s[i..]
  }

  // ---------------------------------------------------------------------
  // Binary search over the children's characters

  /** `binary_search_by_key(&c, |x| x.0)` over strictly ascending keys. */
  function BinarySearch(keys: seq<nat>, c: nat): (r: Search)
    requires Increasing(keys)
    ensures r.Found? ==> r.index < |keys| && keys[r.index] == c
    ensures r.Missing? ==> r.index <= |keys|
                           && (forall j | 0 <= j < r.index :: keys[j] < c)
                           && (forall j | r.index <= j < |keys| :: c < keys[j])
    ensures r.Found? <==> c in keys
  {
    SearchBetween(keys, c, 0, |keys|)
  }

  /** The search narrowed to `[lo, hi)`, everything left of `lo` being below
      `c` and everything from `hi` above it. */
  function SearchBetween(keys: seq<nat>, c: nat, lo: nat, hi: nat): (r: Search)
    requires Increasing(keys) && lo <= hi <= |keys|
    requires forall j | 0 <= j < lo :: keys[j] < c
    requires forall j | hi <= j < |keys| :: c < keys[j]
    ensures r.Found? ==> r.index < |keys| && keys[r.index] == c
    ensures r.Missing? ==> r.index <= |keys|
                           && (forall j | 0 <= j < r.index :: keys[j] < c)
                           && (forall j | r.index <= j < |keys| :: c < keys[j])
    decreases hi - lo
  {
    if lo == hi then Missing(lo)
    else
      var mid := (lo + hi) / 2;
      if keys[mid] == c then Found(mid)
      else if keys[mid] < c then SearchBetween(keys, c, mid + 1, hi)
      else SearchBetween(keys, c, lo, mid)
  }

  // ---------------------------------------------------------------------
  // Ghost views: contents, height, validity, well-formedness

  ghost function Items(n: TrieNode): multiset<Item>
    decreases n
  {
    multiset(n.matches) +
      match n.kind
      case Collapsed(l) => multiset(l)
      case Burst(_, kids) => ItemsAll(kids)
  }

  ghost function ItemsAll(kids: seq<TrieNode>): multiset<Item>
    decreases kids
  {
    if kids == [] then multiset{} else Items(kids[0]) + ItemsAll(kids[1..])
  }

  /** The longest item stored below a node: with the offset, the insert measure. */
  ghost function Height(n: TrieNode): nat
    decreases n
  {
    Max(MaxLen(n.matches),
        match n.kind
        case Collapsed(l) => MaxLen(l)
        case Burst(_, kids) => HeightAll(kids))
  }

  ghost function HeightAll(kids: seq<TrieNode>): nat
    decreases kids
  {
    if kids == [] then 0 else Max(Height(kids[0]), HeightAll(kids[1..]))
  }

  /** What `unwrap` in the burst and the child search need: collapsed items
      reach past the offset, keys ascend, children sit one offset down. */
  ghost predicate Valid(n: TrieNode)
    decreases n
  {
    match n.kind
    case Collapsed(l) => forall y | y in l :: |y| > n.offset
    case Burst(keys, kids) => |keys| == |kids| && Increasing(keys) && ValidKids(kids, n.offset)
  }

  ghost predicate ValidKids(kids: seq<TrieNode>, offset: nat)
    decreases kids
  {
    forall k | 0 <= k < |kids| :: kids[k].offset == offset + 1 && Valid(kids[k])
  }

  /** The structural invariant: a node at offset L lies on path `p`
      (|p| == L); its matches are exactly `p`, its collapsed items extend
      `p` by at least one unit, and the child keyed `c` lies on `p + [c]`. */
  ghost predicate Wf(n: TrieNode, p: Item)
    decreases n
  {
    && n.offset == |p|
    && (forall y | y in n.matches :: y == p)
    && match n.kind
       case Collapsed(l) => forall y | y in l :: |y| > |p| && HasPrefix(y, p)
       case Burst(keys, kids) => |keys| == |kids| && Increasing(keys) && WfKids(keys, kids, p)
  }

  ghost predicate WfKids(keys: seq<nat>, kids: seq<TrieNode>, p: Item)
    decreases kids
  {
    forall k | 0 <= k < |kids| && k < |keys| :: Wf(kids[k], p + [keys[k]])
  }

  // ---------------------------------------------------------------------
  // Operations

  /** `TrieNode::insert`.  An item with no character at `offset` joins the
      matches; otherwise a burst node hands it to `add_to_burst_node`, and a
      collapsed node pushes it and bursts once the list reaches `BurstLimit`. */
  function Insert(n: TrieNode, s: Item): (r: TrieNode)
    requires Valid(n)
    ensures Valid(r) && r.offset == n.offset
    ensures Height(r) <= Max(Height(n), |s|)
    decreases Max(Height(n), |s|) - n.offset, 3, 0
  {
    if |s| <= n.offset then
      MaxLenAll(n.matches);
      MaxLenBound(n.matches + [s], Max(Height(n), |s|));
      n.(matches := n.matches + [s])
    else
      match n.kind
      case Burst(keys, kids) =>
        n.(kind := AddToBurstNode(n.offset, keys, kids, s))
      case Collapsed(l) =>
        var l' := l + [s];
        MaxLenAll(l);
        MaxLenBound(l', Max(Height(n), |s|));
        if |l'| >= BurstLimit then n.(kind := BurstList(n.offset, l'))
        else n.(kind := Collapsed(l'))
  }

  /** `add_to_burst_node`: the child keyed `s[offset]` takes the item; when
      there is none, a new node one offset down takes it and is inserted at
      the position the search reports, keeping the keys ascending. */
  function AddToBurstNode(offset: nat, keys: seq<nat>, kids: seq<TrieNode>, s: Item): (r: NodeKind)
    requires |keys| == |kids| && Increasing(keys) && ValidKids(kids, offset) && |s| > offset
    ensures r.Burst? && |r.keys| == |r.kids| && Increasing(r.keys) && ValidKids(r.kids, offset)
    ensures HeightAll(r.kids) <= Max(HeightAll(kids), |s|)
    decreases Max(HeightAll(kids), |s|) - offset, 0, 0
  {
    var c := s[offset];
    match BinarySearch(keys, c)
    case Found(i) =>
      assert kids[i].offset == offset + 1 && Valid(kids[i]);
      HeightAllElem(kids, i);
      var child := Insert(kids[i], s);
      HeightAllUpdate(kids, i, child);
      ValidUpdate(kids, i, child, offset);
      Burst(keys, kids[i := child])
    case Missing(i) =>
      var child := Insert(New(offset + 1), s);
      HeightAllSplice(kids, i, child);
      SpliceIncreasing(keys, i, c);
      ValidSplice(kids, i, child, offset);
      Burst(Splice(keys, i, c), Splice(kids, i, child))
  }

  /** `TrieNode::burst`: an empty children vector filled by popping the list
      from the back; `chars().nth(offset).unwrap()` cannot fail because
      every collapsed item reaches past the offset. */
  function BurstList(offset: nat, l: seq<Item>): (r: NodeKind)
    requires forall y | y in l :: |y| > offset
    ensures r.Burst? && |r.keys| == |r.kids| && Increasing(r.keys) && ValidKids(r.kids, offset)
    ensures HeightAll(r.kids) <= MaxLen(l)
    decreases MaxLen(l) - offset, 2, 0
  {
    Distribute(offset, [], [], l)
  }

  /** The loop `while let Some(s) = children.pop() { add_to_burst_node(...) }`. */
  function Distribute(offset: nat, keys: seq<nat>, kids: seq<TrieNode>, items: seq<Item>): (r: NodeKind)
    requires |keys| == |kids| && Increasing(keys) && ValidKids(kids, offset)
    requires forall y | y in items :: |y| > offset
    ensures r.Burst? && |r.keys| == |r.kids| && Increasing(r.keys) && ValidKids(r.kids, offset)
    ensures HeightAll(r.kids) <= Max(HeightAll(kids), MaxLen(items))
    decreases Max(HeightAll(kids), MaxLen(items)) - offset, 1, |items|
  {
    if items == [] then Burst(keys, kids)
    else
      var last := items[|items| - 1];
      var rest := items[..|items| - 1];
      assert last in items;
      assert forall z | z in rest :: z in items;
      MaxLenAll(items);
      MaxLenBound(rest, MaxLen(items));
      var k := AddToBurstNode(offset, keys, kids, last);
      Distribute(offset, k.keys, k.kids, rest)
  }

  /** `merge`, `merge_unstable` and the merge of dynamic.rs: the matches,
      then a collapsed list sorted on whole items, or every child in
      ascending order of its character. */
  function Merge(n: TrieNode): (r: seq<Item>)
    ensures multiset(r) == Items(n)
    decreases n
  {
    n.matches +
      match n.kind
      case Collapsed(l) => Sort(l)
      case Burst(_, kids) => MergeAll(kids)
  }

  function MergeAll(kids: seq<TrieNode>): (r: seq<Item>)
    ensures multiset(r) == ItemsAll(kids)
    decreases kids
  {
    if kids == [] then [] else Merge(kids[0]) + MergeAll(kids[1..])
  }

  /** Pop every item off the back of `data` into the trie. */
  function InsertAll(n: TrieNode, data: seq<Item>): (r: TrieNode)
    requires Valid(n)
    ensures Valid(r) && r.offset == n.offset
    decreases |data|
  {
    if data == [] then n
    else InsertAll(Insert(n, data[|data| - 1]), data[..|data| - 1])
  }

  /** `dynamic_burst_sort` (sorts.rs): pop all, insert into a root at offset
      0, merge. */
  function DynamicBurstSort(data: seq<Item>): (r: seq<Item>)
    ensures multiset(r) == multiset(data)
  {
    InsertAllItems(New(0), data);
    Merge(InsertAll(New(0), data))
  }

  // ---------------------------------------------------------------------
  // Bookkeeping over children

  lemma {:induction false} HeightAllElem(kids: seq<TrieNode>, k: nat)
    requires k < |kids|
    ensures Height(kids[k]) <= HeightAll(kids)
  {
    if k > 0 {
      HeightAllElem(kids[1..], k - 1);
    }
  }

  lemma {:induction false} HeightAllUpdate(kids: seq<TrieNode>, k: nat, c: TrieNode)
    requires k < |kids|
    ensures HeightAll(kids[k := c]) <= Max(HeightAll(kids), Height(c))
  {
    if k > 0 {
      HeightAllUpdate(kids[1..], k - 1, c);
      assert kids[k := c][1..] == kids[1..][k - 1 := c];
    } else {
      assert kids[k := c][1..] == kids[1..];
    }
  }

  lemma {:induction false} HeightAllSplice(kids: seq<TrieNode>, i: nat, c: TrieNode)
    requires i <= |kids|
    ensures HeightAll(Splice(kids, i, c)) == Max(HeightAll(kids), Height(c))
  {
    var u := Splice(kids, i, c);
    if i == 0 {
      assert u[1..] == kids;
    } else {
      HeightAllSplice(kids[1..], i - 1, c);
      assert u[0] == kids[0];
      assert u[1..] == Splice(kids[1..], i - 1, c);
    }
  }

  lemma {:induction false} ItemsAllGrow(kids: seq<TrieNode>, k: nat, c: TrieNode, m: multiset<Item>)
    requires k < |kids| && Items(c) == Items(kids[k]) + m
    ensures ItemsAll(kids[k := c]) == ItemsAll(kids) + m
  {
    var u := kids[k := c];
    if k > 0 {
      ItemsAllGrow(kids[1..], k - 1, c, m);
      assert u[1..] == kids[1..][k - 1 := c];
      assert u[0] == kids[0];
    } else {
      assert u[1..] == kids[1..];
    }
  }

  lemma {:induction false} ItemsAllSplice(kids: seq<TrieNode>, i: nat, c: TrieNode)
    requires i <= |kids|
    ensures ItemsAll(Splice(kids, i, c)) == ItemsAll(kids) + Items(c)
  {
    var u := Splice(kids, i, c);
    if i == 0 {
      assert u[1..] == kids;
    } else {
      ItemsAllSplice(kids[1..], i - 1, c);
      assert u[0] == kids[0];
      assert u[1..] == Splice(kids[1..], i - 1, c);
    }
  }

  lemma ValidUpdate(kids: seq<TrieNode>, k: nat, c: TrieNode, offset: nat)
    requires k < |kids| && c.offset == offset + 1 && Valid(c) && ValidKids(kids, offset)
    ensures ValidKids(kids[k := c], offset)
  {
    var u := kids[k := c];
    assert forall j | 0 <= j < |u| :: u[j] == if j == k then c else kids[j];
  }

  lemma ValidSplice(kids: seq<TrieNode>, i: nat, c: TrieNode, offset: nat)
    requires i <= |kids| && c.offset == offset + 1 && Valid(c) && ValidKids(kids, offset)
    ensures ValidKids(Splice(kids, i, c), offset)
  {
  }

  lemma SpliceIncreasing(keys: seq<nat>, i: nat, c: nat)
    requires Increasing(keys) && i <= |keys|
    requires forall j | 0 <= j < i :: keys[j] < c
    requires forall j | i <= j < |keys| :: c < keys[j]
    ensures Increasing(Splice(keys, i, c))
  {
  }

  lemma WfUpdate(keys: seq<nat>, kids: seq<TrieNode>, k: nat, c: TrieNode, p: Item)
    requires k < |kids| == |keys| && Wf(c, p + [keys[k]]) && WfKids(keys, kids, p)
    ensures WfKids(keys, kids[k := c], p)
  {
    var u := kids[k := c];
    assert forall j | 0 <= j < |u| :: u[j] == if j == k then c else kids[j];
  }

  lemma WfSplice(keys: seq<nat>, kids: seq<TrieNode>, i: nat, c: nat, child: TrieNode, p: Item)
    requires i <= |kids| == |keys| && Wf(child, p + [c]) && WfKids(keys, kids, p)
    ensures WfKids(Splice(keys, i, c), Splice(kids, i, child), p)
  {
    var ks := Splice(keys, i, c);
    var u := Splice(kids, i, child);
    forall j | 0 <= j < |u| && j < |ks|
      ensures Wf(u[j], p + [ks[j]])
    {
      if j > i {
        assert u[j] == kids[j - 1] && ks[j] == keys[j - 1];
      }
    }
  }

  // ---------------------------------------------------------------------
  // Contents: an insert adds exactly its item

  lemma {:induction false} InsertItems(n: TrieNode, s: Item)
    requires Valid(n)
    ensures Items(Insert(n, s)) == Items(n) + multiset{s}
    decreases Max(Height(n), |s|) - n.offset, 3, 1
  {
    if |s| <= n.offset {
      assert multiset(n.matches + [s]) == multiset(n.matches) + multiset{s};
    } else if n.kind.Burst? {
      AddItems(n.offset, n.kind.keys, n.kind.kids, s);
    } else {
      CollapsedInsertItems(n, s);
    }
  }

  lemma {:induction false} CollapsedInsertItems(n: TrieNode, s: Item)
    requires Valid(n) && n.kind.Collapsed? && |s| > n.offset
    ensures Items(Insert(n, s)) == Items(n) + multiset{s}
    decreases Max(Height(n), |s|) - n.offset, 3, 0
  {
    var l := n.kind.items;
    var l' := l + [s];
    assert multiset(l') == multiset(l) + multiset{s};
    if |l'| >= BurstLimit {
      MaxLenAll(l);
      MaxLenBound(l', Max(Height(n), |s|));
      DistributeItems(n.offset, [], [], l');
    }
  }

  lemma {:induction false} AddItems(offset: nat, keys: seq<nat>, kids: seq<TrieNode>, s: Item)
    requires |keys| == |kids| && Increasing(keys) && ValidKids(kids, offset) && |s| > offset
    ensures ItemsAll(AddToBurstNode(offset, keys, kids, s).kids) == ItemsAll(kids) + multiset{s}
    decreases Max(HeightAll(kids), |s|) - offset, 0, 0
  {
    match BinarySearch(keys, s[offset])
    case Found(i) =>
      assert kids[i].offset == offset + 1 && Valid(kids[i]);
      HeightAllElem(kids, i);
      InsertItems(kids[i], s);
      ItemsAllGrow(kids, i, Insert(kids[i], s), multiset{s});
    case Missing(i) =>
      InsertItems(New(offset + 1), s);
      ItemsAllSplice(kids, i, Insert(New(offset + 1), s));
  }

  lemma {:induction false} DistributeItems(offset: nat, keys: seq<nat>, kids: seq<TrieNode>, items: seq<Item>)
    requires |keys| == |kids| && Increasing(keys) && ValidKids(kids, offset)
    requires forall y | y in items :: |y| > offset
    ensures ItemsAll(Distribute(offset, keys, kids, items).kids) == ItemsAll(kids) + multiset(items)
    decreases Max(HeightAll(kids), MaxLen(items)) - offset, 1, |items|
  {
    if items != [] {
      var last := items[|items| - 1];
      var rest := items[..|items| - 1];
      assert last in items;
      assert forall z | z in rest :: z in items;
      MaxLenAll(items);
      MaxLenBound(rest, MaxLen(items));
      AddItems(offset, keys, kids, last);
      var k := AddToBurstNode(offset, keys, kids, last);
      DistributeItems(offset, k.keys, k.kids, rest);
      MultisetSnoc(items);
    }
  }

  lemma {:induction false} InsertAllItems(n: TrieNode, data: seq<Item>)
    requires Valid(n)
    ensures Items(InsertAll(n, data)) == Items(n) + multiset(data)
    decreases |data|
  {
    if data != [] {
      InsertItems(n, data[|data| - 1]);
      InsertAllItems(Insert(n, data[|data| - 1]), data[..|data| - 1]);
      MultisetSnoc(data);
    }
  }

  // ---------------------------------------------------------------------
  // Order

  lemma {:induction false} WfValid(n: TrieNode, p: Item)
    requires Wf(n, p)
    ensures Valid(n)
    decreases n
  {
    match n.kind
    case Collapsed(l) =>
    case Burst(keys, kids) =>
      forall k | 0 <= k < |kids|
        ensures kids[k].offset == |p| + 1 && Valid(kids[k])
      {
        WfValid(kids[k], p + [keys[k]]);
      }
  }

  /** Every item on the node's path keeps the node well formed. */
  lemma {:induction false} InsertWf(n: TrieNode, p: Item, s: Item)
    requires Wf(n, p) && Valid(n) && HasPrefix(s, p)
    ensures Wf(Insert(n, s), p)
    decreases Max(Height(n), |s|) - n.offset, 3, 0
  {
    if |s| <= |p| {
      assert s == s[..|p|] == p;
    } else {
      match n.kind
      case Burst(keys, kids) =>
        AddWf(keys, kids, p, s);
      case Collapsed(l) =>
        var l' := l + [s];
        MaxLenAll(l);
        MaxLenBound(l', Max(Height(n), |s|));
        if |l'| >= BurstLimit {
          DistributeWf([], [], p, l');
        }
    }
  }

  lemma {:induction false} AddWf(keys: seq<nat>, kids: seq<TrieNode>, p: Item, s: Item)
    requires |keys| == |kids| && Increasing(keys) && ValidKids(kids, |p|) && WfKids(keys, kids, p)
    requires HasPrefix(s, p) && |s| > |p|
    ensures WfKids(AddToBurstNode(|p|, keys, kids, s).keys, AddToBurstNode(|p|, keys, kids, s).kids, p)
    decreases Max(HeightAll(kids), |s|) - |p|, 0, 0
  {
    var c := s[|p|];
    PrefixStep(s, p);
    match BinarySearch(keys, c)
    case Found(i) =>
      assert kids[i].offset == |p| + 1 && Valid(kids[i]);
      assert Wf(kids[i], p + [keys[i]]);
      HeightAllElem(kids, i);
      InsertWf(kids[i], p + [c], s);
      WfUpdate(keys, kids, i, Insert(kids[i], s), p);
    case Missing(i) =>
      InsertWf(New(|p| + 1), p + [c], s);
      WfSplice(keys, kids, i, c, Insert(New(|p| + 1), s), p);
  }

  lemma {:induction false} DistributeWf(keys: seq<nat>, kids: seq<TrieNode>, p: Item, items: seq<Item>)
    requires |keys| == |kids| && Increasing(keys) && ValidKids(kids, |p|) && WfKids(keys, kids, p)
    requires forall y | y in items :: |y| > |p| && HasPrefix(y, p)
    ensures var r := Distribute(|p|, keys, kids, items); WfKids(r.keys, r.kids, p)
    decreases Max(HeightAll(kids), MaxLen(items)) - |p|, 1, |items|
  {
    if items != [] {
      var last := items[|items| - 1];
      var rest := items[..|items| - 1];
      assert last in items;
      assert forall z | z in rest :: z in items;
      MaxLenAll(items);
      MaxLenBound(rest, MaxLen(items));
      AddWf(keys, kids, p, last);
      var k := AddToBurstNode(|p|, keys, kids, last);
      DistributeWf(k.keys, k.kids, p, rest);
    }
  }

  /** Merge of a well-formed node is ascending and stays on the node's path. */
  lemma {:induction false} MergeSorted(n: TrieNode, p: Item)
    requires Wf(n, p)
    ensures Sorted(Merge(n))
    ensures forall y | y in Merge(n) :: HasPrefix(y, p)
    decreases n, 1
  {
    match n.kind
    case Collapsed(l) =>
      SortOnPath(l, p);
      PathThenSorted(n.matches, Sort(l), p);
    case Burst(keys, kids) =>
      MergeAllSorted(keys, kids, p, 0);
      forall y | y in MergeAll(kids)
        ensures HasPrefix(y, p)
      {
      }
      PathThenSorted(n.matches, MergeAll(kids), p);
  }

  /** The children's merges, in ascending key order, are ascending and lie
      in the branches of `p` at or after `base`. */
  lemma {:induction false} MergeAllSorted(keys: seq<nat>, kids: seq<TrieNode>, p: Item, base: nat)
    requires |keys| == |kids| && Increasing(keys) && WfKids(keys, kids, p)
    requires forall k | 0 <= k < |keys| :: base <= keys[k]
    ensures Sorted(MergeAll(kids))
    ensures forall y | y in MergeAll(kids) :: InBranches(y, p, base)
    decreases kids, 0
  {
    if kids != [] {
      var ks := keys[1..];
      var ts := kids[1..];
      assert Wf(kids[0], p + [keys[0]]);
      MergeSorted(kids[0], p + [keys[0]]);
      assert forall k | 0 <= k < |ts| :: ts[k] == kids[k + 1] && ks[k] == keys[k + 1];
      MergeAllSorted(ks, ts, p, keys[0] + 1);
      BranchesAppend(Merge(kids[0]), MergeAll(ts), p, keys[0]);
    }
  }

  lemma {:induction false} InsertAllWf(n: TrieNode, data: seq<Item>)
    requires Wf(n, []) && Valid(n)
    ensures Wf(InsertAll(n, data), [])
    decreases |data|
  {
    if data != [] {
      InsertWf(n, [], data[|data| - 1]);
      WfValid(Insert(n, data[|data| - 1]), []);
      InsertAllWf(Insert(n, data[|data| - 1]), data[..|data| - 1]);
    }
  }

  /** The driver returns exactly the reference sort of its input, for every
      input: the equivalence that sorts.rs checks against `sort_unstable`. */
  lemma DynamicBurstSortIsSort(data: seq<Item>)
    ensures DynamicBurstSort(data) == Sort(data)
  {
    InsertAllWf(New(0), data);
    var root := InsertAll(New(0), data);
    MergeSorted(root, []);
    SortIsUnique(data, DynamicBurstSort(data));
  }

  // ---------------------------------------------------------------------
  // Routing of one insert into a burst node

  /** Where `add_to_burst_node` puts its item.  When the search finds the
      item's character the keys stay as they are and only that child
      changes, gaining the item; otherwise the character is inserted at the
      reported position, between smaller and larger keys, and the new child
      there holds just the item. */
  lemma AddRoutes(offset: nat, keys: seq<nat>, kids: seq<TrieNode>, s: Item)
    requires |keys| == |kids| && Increasing(keys) && ValidKids(kids, offset) && |s| > offset
    ensures var r, q := AddToBurstNode(offset, keys, kids, s), BinarySearch(keys, s[offset]);
      && (q.Found? ==>
            && r.keys == keys && |r.kids| == |kids|
            && Items(r.kids[q.index]) == Items(kids[q.index]) + multiset{s}
            && forall k | 0 <= k < |kids| && k != q.index :: r.kids[k] == kids[k])
      && (q.Missing? ==>
            && r.keys == keys[..q.index] + [s[offset]] + keys[q.index..]
            && r.kids[..q.index] == kids[..q.index] && r.kids[q.index + 1..] == kids[q.index..]
            && Items(r.kids[q.index]) == multiset{s})
  {
    match BinarySearch(keys, s[offset])
    case Found(i) =>
      assert kids[i].offset == offset + 1 && Valid(kids[i]);
      InsertItems(kids[i], s);
    case Missing(i) =>
      var r := AddToBurstNode(offset, keys, kids, s);
      InsertItems(New(offset + 1), s);
      assert r.kids[..i] == kids[..i];
      assert r.kids[i + 1..] == kids[i..];
  }

  // ---------------------------------------------------------------------
  // The example of sorts.rs

  /** The scalar values of a string. */
  function Units(w: string): (r: Item)
    ensures |r| == |w| && forall i | 0 <= i < |w| :: r[i] == w[i] as nat
  {
    seq(|w|, i requires 0 <= i < |w| => w[i] as nat)
  }

  /** The input of the `simple_dynamic` test. */
  function Animals(): seq<Item>
  {
    [Units("cat"), Units("apple"), Units("jackal"), Units("silver"),
     Units("bat"), Units("applesauce"), Units("ostritch")]
  }

  /** The same words in dictionary order. */
  function AnimalsInOrder(): seq<Item>
  {
    [Units("apple"), Units("applesauce"), Units("bat"), Units("cat"),
     Units("jackal"), Units("ostritch"), Units("silver")]
  }

  lemma AnimalsAscend()
    ensures Sorted(AnimalsInOrder())
  {
    var s := AnimalsInOrder();
    assert HasPrefix(s[1], s[0]) by {
      assert s[1][..5] == s[0];
    }
    LePrefix(s[0], s[1]);
    LeBranch(s[1], s[2], 0);
    LeBranch(s[2], s[3], 0);
    LeBranch(s[3], s[4], 0);
    LeBranch(s[4], s[5], 0);
    LeBranch(s[5], s[6], 0);
    AdjacentSorted(s);
  }

  lemma AnimalsPermuted()
    ensures multiset(AnimalsInOrder()) == multiset(Animals())
  {
    var b := AnimalsInOrder();
    Shuffle(b[0], b[1], b[2], b[3], b[4], b[5], b[6]);
  }

  lemma Shuffle(x0: Item, x1: Item, x2: Item, x3: Item, x4: Item, x5: Item, x6: Item)
    ensures multiset([x0, x1, x2, x3, x4, x5, x6]) == multiset([x3, x0, x4, x6, x2, x1, x5])
  {
    SevenSingletons(x0, x1, x2, x3, x4, x5, x6);
    SevenSingletons(x3, x0, x4, x6, x2, x1, x5);
  }

  lemma SevenSingletons(x0: Item, x1: Item, x2: Item, x3: Item, x4: Item, x5: Item, x6: Item)
    ensures multiset([x0, x1, x2, x3, x4, x5, x6])
         == multiset{x0} + multiset{x1} + multiset{x2} + multiset{x3} + multiset{x4} + multiset{x5} + multiset{x6}
  {
    var s := [x0, x1, x2, x3, x4, x5, x6];
    assert s == s[..6] + [x6];
    assert s[..6] == s[..5] + [x5];
    assert s[..5] == s[..4] + [x4];
    assert s[..4] == s[..3] + [x3];
    assert s[..3] == s[..2] + [x2];
    assert s[..2] == [x0] + [x1];
  }

  /** The seven words of the `simple_dynamic` test come out in dictionary
      order. */
  lemma SevenWords()
    ensures DynamicBurstSort(Animals()) == AnimalsInOrder()
  {
    AnimalsAscend();
    AnimalsPermuted();
    SortIsUnique(Animals(), AnimalsInOrder());
    DynamicBurstSortIsSort(Animals());
  }
}
