/** The generic configurable burst trie of burstsort/src/trie.rs (sequential
    path).  A node at `level` keeps the items that end exactly there in
    `matches`; the rest sit in a flat `List` until it holds more than
    `burst_limit` items, when the node becomes a `Burst` table of `classes`
    children at `level + 1`, indexed by each item's unit at `level`. */
module BurstTrie {
  import opened Lex

  /** `initial_capacity` only pre-sizes vectors and has no effect on results. */
  datatype BurstConfig = BurstConfig(burstLimit: nat, initialCapacity: nat, classes: nat, hintLong: bool)

  /** The configuration is shared by every node of one sort, so it is passed
      to the operations rather than stored in each node. */
  datatype TrieNode = TrieNode(level: nat, matches: seq<Item>, inner: TrieNodeKind)

  datatype TrieNodeKind = List(list: seq<Item>) | Burst(table: seq<TrieNode>)

  /** Every unit of `x` indexes a table of `classes` children (`table[radix]` is in bounds). */
  predicate Classifiable(cfg: BurstConfig, x: Item)
  {
    forall i | 0 <= i < |x| :: x[i] < cfg.classes
  }

  function Fresh(level: nat): TrieNode
  {
    TrieNode(level, [], List([]))
  }

  /** All items stored in a node, wherever they sit. */
  ghost function Items(n: TrieNode): multiset<Item>
    decreases n
  {
    multiset(n.matches) + match n.inner
      case List(l) => multiset(l)
      case Burst(t) => ItemsAll(t)
  }

  ghost function ItemsAll(t: seq<TrieNode>): multiset<Item>
    decreases t
  {
    if t == [] then multiset{} else Items(t[0]) + ItemsAll(t[1..])
  }

  /** The longest item stored below a node: with the level, the insert measure. */
  ghost function Height(n: TrieNode): nat
    decreases n
  {
    Max(MaxLen(n.matches), match n.inner
      case List(l) => MaxLen(l)
      case Burst(t) => HeightAll(t))
  }

  ghost function HeightAll(t: seq<TrieNode>): nat
    decreases t
  {
    if t == [] then 0 else Max(Height(t[0]), HeightAll(t[1..]))
  }

  /** What `insert` needs to stay in bounds: list items have a unit at the
      node's level, every such unit indexes the table, and a burst node has
      exactly `classes` children one level down. */
  ghost predicate Valid(cfg: BurstConfig, n: TrieNode)
    decreases n
  {
    match n.inner
    case List(l) => forall y | y in l :: |y| > n.level && Classifiable(cfg, y)
    case Burst(t) => |t| == cfg.classes && ValidTable(cfg, t, n.level)
  }

  /** Every child of a table sits one level below `level` and is valid. */
  ghost predicate ValidTable(cfg: BurstConfig, t: seq<TrieNode>, level: nat)
    decreases t
  {
    forall k | 0 <= k < |t| :: t[k].level == level + 1 && Valid(cfg, t[k])
  }

  /** The structural invariant: a node at level L lies on path `p` (|p| == L);
      its matches are exactly `p`, its list items extend `p`, and child `k`
      of a burst node lies on path `p + [k]`. */
  ghost predicate Wf(cfg: BurstConfig, n: TrieNode, p: Item)
    decreases n
  {
    && n.level == |p|
    && (forall y | y in n.matches :: y == p)
    && match n.inner
       case List(l) => forall y | y in l :: |y| > |p| && HasPrefix(y, p) && Classifiable(cfg, y)
       case Burst(t) => |t| == cfg.classes && WfTable(cfg, t, p)
  }

  /** Child `k` of a table lies on path `p + [k]`. */
  ghost predicate WfTable(cfg: BurstConfig, t: seq<TrieNode>, p: Item)
    decreases t
  {
    forall k | 0 <= k < |t| :: Wf(cfg, t[k], p + [k])
  }

  /** `TrieNode::root`: level 0, an empty list, no matches. */
  function Root(cfg: BurstConfig): (r: TrieNode)
    ensures Wf(cfg, r, []) && Items(r) == multiset{} && r.inner.List?
  {
    Fresh(0)
  }

  /** `TrieNode::insert`.  An item without a unit at `level` joins `matches`;
      otherwise it joins the list, which bursts once longer than
      `burst_limit`, or goes down to `table[unit]`. */
  function Insert(cfg: BurstConfig, n: TrieNode, x: Item): (r: TrieNode)
    requires Valid(cfg, n) && Classifiable(cfg, x)
    ensures Valid(cfg, r) && r.level == n.level
    ensures Height(r) <= Max(Height(n), |x|)
    decreases Max(Height(n), |x|) - n.level, 2, 0
  {
    if |x| <= n.level then
      MaxLenAll(n.matches);
      MaxLenBound(n.matches + [x], Max(Height(n), |x|));
      n.(matches := n.matches + [x])
    else
      match n.inner
      case List(l) =>
        var l' := l + [x];
        MaxLenAll(l);
        MaxLenBound(l', Max(Height(n), |x|));
        if |l'| > cfg.burstLimit then
          n.(inner := Burst(BurstList(cfg, n.level, l')))
        else
          n.(inner := List(l'))
      case Burst(t) =>
        n.(inner := Burst(InsertChild(cfg, n.level, t, x)))
  }

  /** The burst branch of insert: `table[radix].insert(item)`. */
  function InsertChild(cfg: BurstConfig, level: nat, t: seq<TrieNode>, x: Item): (r: seq<TrieNode>)
    requires |x| > level && Classifiable(cfg, x)
    requires |t| == cfg.classes && ValidTable(cfg, t, level)
    ensures |r| == |t| && ValidTable(cfg, r, level)
    ensures HeightAll(r) <= Max(HeightAll(t), |x|)
    decreases Max(HeightAll(t), |x|) - level, 1, 0
  {
    var k := x[level];
    HeightAllElem(t, k);
    var c := Insert(cfg, t[k], x);
    HeightAllUpdate(t, k, c);
    ValidUpdate(cfg, t, k, c, level);
    t[k := c]
  }

  /** A burst: `classes` fresh list children one level down, filled by
      re-inserting every list item in order. */
  function BurstList(cfg: BurstConfig, level: nat, l: seq<Item>): (r: seq<TrieNode>)
    requires forall y | y in l :: |y| > level && Classifiable(cfg, y)
    ensures |r| == cfg.classes && ValidTable(cfg, r, level)
    ensures HeightAll(r) <= MaxLen(l)
    decreases MaxLen(l) - level, 1, 0
  {
    var t := FreshTable(cfg.classes, level + 1);
    FreshTableFacts(cfg, t, level);
    Distribute(cfg, level, t, l)
  }

  /** The burst loop `for x in list.drain(..) { table[radix].insert(x) }`. */
  function Distribute(cfg: BurstConfig, level: nat, t: seq<TrieNode>, items: seq<Item>): (r: seq<TrieNode>)
    requires |t| == cfg.classes && ValidTable(cfg, t, level)
    requires forall y | y in items :: |y| > level && Classifiable(cfg, y)
    ensures |r| == |t| && ValidTable(cfg, r, level)
    ensures HeightAll(r) <= Max(HeightAll(t), MaxLen(items))
    decreases Max(HeightAll(t), MaxLen(items)) - level, 0, |items|
  {
    if items == [] then t
    else
      var y := items[0];
      assert y in items;
      var k := y[level];
      assert Classifiable(cfg, y);
      HeightAllElem(t, k);
      var c := Insert(cfg, t[k], y);
      HeightAllUpdate(t, k, c);
      ValidUpdate(cfg, t, k, c, level);
      MaxLenAll(items);
      MaxLenBound(items[1..], MaxLen(items));
      assert forall z | z in items[1..] :: z in items;
      Distribute(cfg, level, t[k := c], items[1..])
  }

  /** `TrieNode::merge`: matches first, then the sorted list (on the suffix
      from `level` when `hint_long` is set) or every child in index order. */
  function Merge(cfg: BurstConfig, n: TrieNode): (r: seq<Item>)
    ensures multiset(r) == Items(n)
    decreases n, 1
  {
    n.matches + MergeRest(cfg, n)
  }

  /** What merge emits after the matches. */
  function MergeRest(cfg: BurstConfig, n: TrieNode): (r: seq<Item>)
    ensures multiset(n.matches) + multiset(r) == Items(n)
    decreases n, 0
  {
    match n.inner
    case List(l) => if cfg.hintLong then SortFrom(n.level, l) else SortFrom(0, l)
    case Burst(t) => MergeAll(cfg, t)
  }

  function MergeAll(cfg: BurstConfig, t: seq<TrieNode>): (r: seq<Item>)
    ensures multiset(r) == ItemsAll(t)
    decreases t
  {
    if t == [] then [] else Merge(cfg, t[0]) + MergeAll(cfg, t[1..])
  }

  /** Pop every item off the back of `data` into the trie. */
  function InsertAll(cfg: BurstConfig, n: TrieNode, data: seq<Item>): (r: TrieNode)
    requires Valid(cfg, n) && forall y | y in data :: Classifiable(cfg, y)
    ensures Valid(cfg, r) && r.level == n.level
    decreases |data|
  {
    if data == [] then n
    else
      var last := data[|data| - 1];
      assert last in data;
      assert forall z | z in data[..|data| - 1] :: z in data;
      InsertAll(cfg, Insert(cfg, n, last), data[..|data| - 1])
  }

  /** The pop-all / insert / merge driver over a fresh root. */
  function BurstSort(cfg: BurstConfig, data: seq<Item>): (r: seq<Item>)
    requires forall y | y in data :: Classifiable(cfg, y)
    ensures multiset(r) == multiset(data)
  {
    InsertAllItems(cfg, Root(cfg), data);
    Merge(cfg, InsertAll(cfg, Root(cfg), data))
  }

  function FreshTable(size: nat, level: nat): (t: seq<TrieNode>)
    ensures |t| == size && forall k | 0 <= k < size :: t[k] == Fresh(level)
  {
    seq(size, _ => Fresh(level))
  }

  // ---------------------------------------------------------------------
  // Bookkeeping over child tables

  lemma {:induction false} FreshTableFacts(cfg: BurstConfig, t: seq<TrieNode>, level: nat)
    requires forall k | 0 <= k < |t| :: t[k] == Fresh(level + 1)
    ensures ItemsAll(t) == multiset{} && HeightAll(t) == 0 && ValidTable(cfg, t, level)
  {
    if t != [] {
      FreshTableFacts(cfg, t[1..], level);
    }
  }

  lemma {:induction false} HeightAllElem(t: seq<TrieNode>, k: nat)
    requires k < |t|
    ensures Height(t[k]) <= HeightAll(t)
  {
    if k > 0 {
      HeightAllElem(t[1..], k - 1);
    }
  }

  lemma {:induction false} ItemsAllGrow(t: seq<TrieNode>, k: nat, c: TrieNode, m: multiset<Item>)
    requires k < |t| && Items(c) == Items(t[k]) + m
    ensures ItemsAll(t[k := c]) == ItemsAll(t) + m
  {
    var u := t[k := c];
    if k > 0 {
      ItemsAllGrow(t[1..], k - 1, c, m);
      assert u[1..] == t[1..][k - 1 := c];
      assert u[0] == t[0];
    } else {
      assert u[1..] == t[1..];
    }
  }

  /** Replacing one child by a valid node one level down keeps the table valid. */
  lemma ValidUpdate(cfg: BurstConfig, t: seq<TrieNode>, k: nat, c: TrieNode, level: nat)
    requires k < |t| && c.level == level + 1 && Valid(cfg, c) && ValidTable(cfg, t, level)
    ensures ValidTable(cfg, t[k := c], level)
  {
    var u := t[k := c];
    assert forall j | 0 <= j < |u| :: u[j] == if j == k then c else t[j];
  }

  lemma {:induction false} HeightAllUpdate(t: seq<TrieNode>, k: nat, c: TrieNode)
    requires k < |t|
    ensures HeightAll(t[k := c]) <= Max(HeightAll(t), Height(c))
  {
    if k > 0 {
      HeightAllUpdate(t[1..], k - 1, c);
      assert t[k := c][1..] == t[1..][k - 1 := c];
    } else {
      assert t[k := c][1..] == t[1..];
    }
  }

  // ---------------------------------------------------------------------
  // Contents: nothing is lost or duplicated

  /** Insert adds exactly its item to the node's contents. */
  lemma {:induction false} InsertItems(cfg: BurstConfig, n: TrieNode, x: Item)
    requires Valid(cfg, n) && Classifiable(cfg, x)
    ensures Items(Insert(cfg, n, x)) == Items(n) + multiset{x}
    decreases Max(Height(n), |x|) - n.level, 2, 1
  {
    var r := Insert(cfg, n, x);
    if |x| <= n.level {
      assert r == n.(matches := n.matches + [x]);
      assert multiset(r.matches) == multiset(n.matches) + multiset{x};
    } else if n.inner.List? {
      ListInsertItems(cfg, n, x);
    } else {
      var t := n.inner.table;
      InsertChildItems(cfg, n.level, t, x);
      assert r == n.(inner := Burst(InsertChild(cfg, n.level, t, x)));
    }
  }

  lemma {:induction false} ListInsertItems(cfg: BurstConfig, n: TrieNode, x: Item)
    requires Valid(cfg, n) && Classifiable(cfg, x) && |x| > n.level && n.inner.List?
    ensures Items(Insert(cfg, n, x)) == Items(n) + multiset{x}
    decreases Max(Height(n), |x|) - n.level, 2, 0
  {
    var r := Insert(cfg, n, x);
    var l := n.inner.list;
    var l' := l + [x];
    assert multiset(l') == multiset(l) + multiset{x};
    if |l'| > cfg.burstLimit {
      MaxLenAll(l);
      MaxLenBound(l', Max(Height(n), |x|));
      BurstListItems(cfg, n.level, l');
      assert r == n.(inner := Burst(BurstList(cfg, n.level, l')));
    } else {
      assert r == n.(inner := List(l'));
    }
  }

  lemma {:induction false} InsertChildItems(cfg: BurstConfig, level: nat, t: seq<TrieNode>, x: Item)
    requires |x| > level && Classifiable(cfg, x)
    requires |t| == cfg.classes && ValidTable(cfg, t, level)
    ensures ItemsAll(InsertChild(cfg, level, t, x)) == ItemsAll(t) + multiset{x}
    decreases Max(HeightAll(t), |x|) - level, 1, 0
  {
    var k := x[level];
    HeightAllElem(t, k);
    InsertItems(cfg, t[k], x);
    ItemsAllGrow(t, k, Insert(cfg, t[k], x), multiset{x});
  }

  lemma {:induction false} BurstListItems(cfg: BurstConfig, level: nat, l: seq<Item>)
    requires forall y | y in l :: |y| > level && Classifiable(cfg, y)
    ensures ItemsAll(BurstList(cfg, level, l)) == multiset(l)
    decreases MaxLen(l) - level, 1, 0
  {
    var t := FreshTable(cfg.classes, level + 1);
    FreshTableFacts(cfg, t, level);
    DistributeItems(cfg, level, t, l);
  }

  lemma {:induction false} DistributeItems(cfg: BurstConfig, level: nat, t: seq<TrieNode>, items: seq<Item>)
    requires |t| == cfg.classes && ValidTable(cfg, t, level)
    requires forall y | y in items :: |y| > level && Classifiable(cfg, y)
    ensures ItemsAll(Distribute(cfg, level, t, items)) == ItemsAll(t) + multiset(items)
    decreases Max(HeightAll(t), MaxLen(items)) - level, 0, |items|
  {
    if items != [] {
      var y := items[0];
      assert y in items;
      var k := y[level];
      HeightAllElem(t, k);
      var c := Insert(cfg, t[k], y);
      InsertItems(cfg, t[k], y);
      ItemsAllGrow(t, k, c, multiset{y});
      HeightAllUpdate(t, k, c);
      ValidUpdate(cfg, t, k, c, level);
      MaxLenAll(items);
      MaxLenBound(items[1..], MaxLen(items));
      assert forall z | z in items[1..] :: z in items;
      DistributeItems(cfg, level, t[k := c], items[1..]);
      MultisetCons(items);
      Assoc(ItemsAll(t), multiset{y}, multiset(items[1..]));
    }
  }

  lemma {:induction false} InsertAllItems(cfg: BurstConfig, n: TrieNode, data: seq<Item>)
    requires Valid(cfg, n) && forall y | y in data :: Classifiable(cfg, y)
    ensures Items(InsertAll(cfg, n, data)) == Items(n) + multiset(data)
    decreases |data|
  {
    if data != [] {
      var last := data[|data| - 1];
      var init := data[..|data| - 1];
      assert last in data;
      assert forall z | z in init :: z in data;
      InsertItems(cfg, n, last);
      assert InsertAll(cfg, n, data) == InsertAll(cfg, Insert(cfg, n, last), init);
      InsertAllItems(cfg, Insert(cfg, n, last), init);
      assert data == init + [last];
      assert multiset(data) == multiset(init) + multiset{last};
    }
  }

  lemma MultisetCons(s: seq<Item>)
    requires s != []
    ensures multiset(s) == multiset{s[0]} + multiset(s[1..])
  {
    assert s == [s[0]] + s[1..];
  }

  lemma Assoc(a: multiset<Item>, b: multiset<Item>, c: multiset<Item>)
    ensures a + b + c == a + (b + c)
  {
  }

  // ---------------------------------------------------------------------
  // Order: every item stays on its node's path

  lemma {:induction false} WfValid(cfg: BurstConfig, n: TrieNode, p: Item)
    requires Wf(cfg, n, p)
    ensures Valid(cfg, n)
    decreases n
  {
    match n.inner
    case List(_) =>
    case Burst(t) => WfTableValid(cfg, t, p);
  }

  lemma {:induction false} WfTableValid(cfg: BurstConfig, t: seq<TrieNode>, p: Item)
    requires WfTable(cfg, t, p)
    ensures ValidTable(cfg, t, |p|)
    decreases t
  {
    forall k | 0 <= k < |t|
      ensures t[k].level == |p| + 1 && Valid(cfg, t[k])
    {
      WfValid(cfg, t[k], p + [k]);
    }
  }

  /** Insert keeps every item on its node's path. */
  lemma {:induction false} InsertWf(cfg: BurstConfig, n: TrieNode, p: Item, x: Item)
    requires Wf(cfg, n, p) && Valid(cfg, n) && HasPrefix(x, p) && Classifiable(cfg, x)
    ensures Wf(cfg, Insert(cfg, n, x), p)
    decreases Max(Height(n), |x|) - n.level, 2, 0
  {
    var r := Insert(cfg, n, x);
    if |x| <= n.level {
      assert x == x[..|p|] == p;
      assert r == n.(matches := n.matches + [x]);
    } else {
      match n.inner
      case List(l) =>
        var l' := l + [x];
        MaxLenAll(l);
        MaxLenBound(l', Max(Height(n), |x|));
        if |l'| > cfg.burstLimit {
          BurstListWf(cfg, p, l');
          assert r == n.(inner := Burst(BurstList(cfg, n.level, l')));
        } else {
          assert r == n.(inner := List(l'));
        }
      case Burst(t) =>
        InsertChildWf(cfg, p, t, x);
        assert r == n.(inner := Burst(InsertChild(cfg, n.level, t, x)));
    }
  }

  lemma {:induction false} InsertChildWf(cfg: BurstConfig, p: Item, t: seq<TrieNode>, x: Item)
    requires |x| > |p| && HasPrefix(x, p) && Classifiable(cfg, x)
    requires |t| == cfg.classes && ValidTable(cfg, t, |p|) && WfTable(cfg, t, p)
    ensures WfTable(cfg, InsertChild(cfg, |p|, t, x), p)
    decreases Max(HeightAll(t), |x|) - |p|, 1, 0
  {
    var k := x[|p|];
    HeightAllElem(t, k);
    PrefixStep(x, p);
    InsertWf(cfg, t[k], p + [k], x);
    WfUpdate(cfg, t, k, Insert(cfg, t[k], x), p);
  }

  lemma WfUpdate(cfg: BurstConfig, t: seq<TrieNode>, k: nat, c: TrieNode, p: Item)
    requires k < |t| && Wf(cfg, c, p + [k]) && WfTable(cfg, t, p)
    ensures WfTable(cfg, t[k := c], p)
  {
    var u := t[k := c];
    assert forall j | 0 <= j < |u| :: u[j] == if j == k then c else t[j];
  }

  lemma {:induction false} BurstListWf(cfg: BurstConfig, p: Item, l: seq<Item>)
    requires forall y | y in l :: |y| > |p| && HasPrefix(y, p) && Classifiable(cfg, y)
    ensures WfTable(cfg, BurstList(cfg, |p|, l), p)
    decreases MaxLen(l) - |p|, 1, 0
  {
    var t := FreshTable(cfg.classes, |p| + 1);
    FreshTableFacts(cfg, t, |p|);
    forall k | 0 <= k < |t|
      ensures Wf(cfg, t[k], p + [k])
    {
    }
    DistributeWf(cfg, p, t, l);
  }

  lemma {:induction false} DistributeWf(cfg: BurstConfig, p: Item, t: seq<TrieNode>, items: seq<Item>)
    requires |t| == cfg.classes && ValidTable(cfg, t, |p|) && WfTable(cfg, t, p)
    requires forall y | y in items :: |y| > |p| && HasPrefix(y, p) && Classifiable(cfg, y)
    ensures WfTable(cfg, Distribute(cfg, |p|, t, items), p)
    decreases Max(HeightAll(t), MaxLen(items)) - |p|, 0, |items|
  {
    if items != [] {
      var y := items[0];
      assert y in items;
      var k := y[|p|];
      HeightAllElem(t, k);
      PrefixStep(y, p);
      InsertWf(cfg, t[k], p + [k], y);
      var c := Insert(cfg, t[k], y);
      HeightAllUpdate(t, k, c);
      ValidUpdate(cfg, t, k, c, |p|);
      WfUpdate(cfg, t, k, c, p);
      MaxLenAll(items);
      MaxLenBound(items[1..], MaxLen(items));
      assert forall z | z in items[1..] :: z in items;
      DistributeWf(cfg, p, t[k := c], items[1..]);
    }
  }

  /** Merge of a well-formed node is ascending and stays on the node's path. */
  lemma {:induction false} MergeSorted(cfg: BurstConfig, n: TrieNode, p: Item)
    requires Wf(cfg, n, p)
    ensures Sorted(Merge(cfg, n))
    ensures forall y | y in Merge(cfg, n) :: HasPrefix(y, p)
    decreases n, 1
  {
    MergeRestSorted(cfg, n, p);
    PathThenSorted(n.matches, MergeRest(cfg, n), p);
  }

  lemma {:induction false} MergeRestSorted(cfg: BurstConfig, n: TrieNode, p: Item)
    requires Wf(cfg, n, p)
    ensures Sorted(MergeRest(cfg, n))
    ensures forall y | y in MergeRest(cfg, n) :: HasPrefix(y, p)
    decreases n, 0
  {
    match n.inner
    case List(l) =>
      SortOnPath(l, p);
      assert MergeRest(cfg, n) == Sort(l);
    case Burst(t) =>
      TableSorted(cfg, t, p);
  }

  lemma {:induction false} TableSorted(cfg: BurstConfig, t: seq<TrieNode>, p: Item)
    requires WfTable(cfg, t, p)
    ensures Sorted(MergeAll(cfg, t))
    ensures forall y | y in MergeAll(cfg, t) :: HasPrefix(y, p)
    decreases t, 2
  {
    TableBase(cfg, t, p);
    MergeAllSorted(cfg, t, p, 0);
  }

  /** Children `base`, `base + 1`, ... of path `p`. */
  ghost predicate WfFrom(cfg: BurstConfig, t: seq<TrieNode>, p: Item, base: nat)
  {
    forall k | 0 <= k < |t| :: Wf(cfg, t[k], p + [base + k])
  }

  lemma TableBase(cfg: BurstConfig, t: seq<TrieNode>, p: Item)
    requires WfTable(cfg, t, p)
    ensures WfFrom(cfg, t, p, 0)
  {
    forall k | 0 <= k < |t|
      ensures Wf(cfg, t[k], p + [0 + k])
    {
      assert p + [0 + k] == p + [k];
    }
  }

  lemma {:induction false} MergeAllSorted(cfg: BurstConfig, t: seq<TrieNode>, p: Item, base: nat)
    requires WfFrom(cfg, t, p, base)
    ensures Sorted(MergeAll(cfg, t))
    ensures forall y | y in MergeAll(cfg, t) :: InBranches(y, p, base)
    decreases t, 1
  {
    if t != [] {
      MergeSorted(cfg, t[0], p + [base]);
      assert forall k | 0 <= k < |t[1..]| :: t[1..][k] == t[k + 1];
      MergeAllSorted(cfg, t[1..], p, base + 1);
      BranchesAppend(Merge(cfg, t[0]), MergeAll(cfg, t[1..]), p, base);
    }
  }

  lemma {:induction false} InsertAllWf(cfg: BurstConfig, n: TrieNode, data: seq<Item>)
    requires Wf(cfg, n, []) && Valid(cfg, n) && forall y | y in data :: Classifiable(cfg, y)
    ensures Wf(cfg, InsertAll(cfg, n, data), [])
    decreases |data|
  {
    if data != [] {
      var last := data[|data| - 1];
      assert last in data;
      assert forall z | z in data[..|data| - 1] :: z in data;
      InsertWf(cfg, n, [], last);
      WfValid(cfg, Insert(cfg, n, last), []);
      InsertAllWf(cfg, Insert(cfg, n, last), data[..|data| - 1]);
    }
  }

  /** The driver returns exactly the reference sort of its input, for every
      configuration whose `classes` covers the units (tests.rs runs it with
      `burst_limit` 8 and both values of `hint_long`). */
  lemma BurstSortIsSort(cfg: BurstConfig, data: seq<Item>)
    requires forall y | y in data :: Classifiable(cfg, y)
    ensures BurstSort(cfg, data) == Sort(data)
  {
    InsertAllWf(cfg, Root(cfg), data);
    MergeSorted(cfg, InsertAll(cfg, Root(cfg), data), []);
    SortIsUnique(data, BurstSort(cfg, data));
  }

  /** Tuning changes nothing but speed: any two configurations covering the
      units give the same output. */
  lemma ConfigIndependent(cfg1: BurstConfig, cfg2: BurstConfig, data: seq<Item>)
    requires forall y | y in data :: Classifiable(cfg1, y) && Classifiable(cfg2, y)
    ensures BurstSort(cfg1, data) == BurstSort(cfg2, data)
  {
    BurstSortIsSort(cfg1, data);
    BurstSortIsSort(cfg2, data);
  }

  /** Where one insert puts its item.  An item without a unit at `level`
      lands in `matches`; otherwise a list node appends it and bursts exactly
      when the list grows past `burst_limit`, into `classes` children one
      level down; a burst node hands it to child `x[level]` and leaves every
      other child alone, and stays a burst node. */
  lemma InsertRoutes(cfg: BurstConfig, n: TrieNode, x: Item)
    requires Valid(cfg, n) && Classifiable(cfg, x)
    ensures var r := Insert(cfg, n, x);
      && (|x| <= n.level ==> r.matches == n.matches + [x] && r.inner == n.inner)
      && (|x| > n.level && n.inner.List? ==>
            && r.matches == n.matches
            && (r.inner.Burst? <==> |n.inner.list| + 1 > cfg.burstLimit)
            && (r.inner.List? ==> r.inner.list == n.inner.list + [x])
            && (r.inner.Burst? ==> |r.inner.table| == cfg.classes && ValidTable(cfg, r.inner.table, n.level)))
      && (|x| > n.level && n.inner.Burst? ==>
            && r.matches == n.matches && r.inner.Burst?
            && |r.inner.table| == |n.inner.table|
            && Items(r.inner.table[x[n.level]]) == Items(n.inner.table[x[n.level]]) + multiset{x}
            && forall k | 0 <= k < |n.inner.table| && k != x[n.level] :: r.inner.table[k] == n.inner.table[k])
  {
    if |x| > n.level && n.inner.Burst? {
      var t := n.inner.table;
      assert t[x[n.level]].level == n.level + 1 && Valid(cfg, t[x[n.level]]);
      InsertItems(cfg, t[x[n.level]], x);
    }
  }
}
