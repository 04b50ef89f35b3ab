/** The alphanumeric burst tries of burstsort/src/alphanumeric/mod.rs and
    of the older burstsort/src/alphanumeric.rs.  Both store byte strings; a
    node at `offset` keeps the items that end there in `matches` and is
    either `Collapsed` (a bucket of longer items) or `Burst` (62 children
    one offset down, chosen by an index table).  Both have a checked insert
    that answers `Err(byte)` for a byte that is not ASCII alphanumeric; mod.rs
    adds an unchecked insert and alphanumeric.rs a silent one that drops
    such items.  A bucket bursts once it holds `ALPHANUMERIC_BURST_LIMIT`
    items, re-inserting them through the checked path with `unwrap`.  The
    two files differ only in their index table, which is a parameter here. */
module AlphaTrie {
  import opened Lex
  import opened AlphaTable

  /** `ALPHANUMERIC_BURST_LIMIT`. */
  const BurstLimit: nat := 8192

  datatype TrieNode = TrieNode(offset: nat, matches: seq<Item>, kind: NodeKind)

  datatype NodeKind = Collapsed(bucket: seq<Item>) | Burst(children: seq<TrieNode>)

  /** How an insert ends: normally, with the `Err(byte)` of the checked
      insert, with an index past a table or child array, or with the panic
      of `unwrap` on an `Err(byte)` during a burst. */
  datatype Step<T> = Done(value: T) | Err(byte: nat) | OutOfBounds(len: nat, index: nat) | UnwrapOnErr(byte: nat)

  /** The three insert paths: `insert`, `insert_unchecked` (mod.rs) and
      `insert_silent` (alphanumeric.rs). */
  datatype Mode = Checked | Unchecked | Silent

  /** Every unit of `y` is in the table's alphabet. */
  predicate Usable(ix: Indexing, y: Item)
  {
    forall i | 0 <= i < |y| :: Alphabet(ix, y[i])
  }

  /** `DynamicAlphaNumericNode::new`: a collapsed node with nothing in it. */
  function New(offset: nat): (r: TrieNode)
    ensures r.offset == offset && Valid(r) && Items(r) == multiset{} && Height(r) == 0
  {
    TrieNode(offset, [], Collapsed([]))
  }

  /** The children `BurstAlphaNumericNode::new` builds. */
  function NewChildren(offset: nat): (t: seq<TrieNode>)
    ensures |t| == Children && forall k | 0 <= k < Children :: t[k] == New(offset + 1)
  {
    seq(Children, _ => New(offset + 1))
  }

  // ---------------------------------------------------------------------
  // Ghost views: contents, height, validity, well-formedness

  ghost function Items(n: TrieNode): multiset<Item>
    decreases n
  {
    multiset(n.matches) +
      match n.kind
      case Collapsed(b) => multiset(b)
      case Burst(t) => ItemsAll(t)
  }

  ghost function ItemsAll(t: seq<TrieNode>): multiset<Item>
    decreases t
  {
    if t == [] then multiset{} else Items(t[0]) + ItemsAll(t[1..])
  }

  /** The longest item stored below a node: with the offset, the insert measure. */
  ghost function Height(n: TrieNode): nat
    decreases n
  {
    Max(MaxLen(n.matches),
        match n.kind
        case Collapsed(b) => MaxLen(b)
        case Burst(t) => HeightAll(t))
  }

  ghost function HeightAll(t: seq<TrieNode>): nat
    decreases t
  {
    if t == [] then 0 else Max(Height(t[0]), HeightAll(t[1..]))
  }

  /** Bucket items reach past the offset; children sit one offset down. */
  ghost predicate Valid(n: TrieNode)
    decreases n
  {
    match n.kind
    case Collapsed(b) => forall y | y in b :: |y| > n.offset
    case Burst(t) => ValidKids(t, n.offset)
  }

  ghost predicate ValidKids(t: seq<TrieNode>, offset: nat)
    decreases t
  {
    forall k | 0 <= k < |t| :: t[k].offset == offset + 1 && Valid(t[k])
  }

  /** The structural invariant: a node at offset L lies on path `p`
      (|p| == L); its matches are exactly `p`, its bucket items extend `p`
      and use only the table's alphabet, and child `k` of its 62 lies on
      `p + [Label(ix, k)]`. */
  ghost predicate Wf(ix: Indexing, n: TrieNode, p: Item)
    decreases n
  {
    && n.offset == |p|
    && (forall y | y in n.matches :: y == p)
    && match n.kind
       case Collapsed(b) => forall y | y in b :: |y| > |p| && HasPrefix(y, p) && Usable(ix, y)
       case Burst(t) => |t| == Children && WfKids(ix, t, p)
  }

  ghost predicate WfKids(ix: Indexing, t: seq<TrieNode>, p: Item)
    decreases t
  {
    forall k | 0 <= k < |t| :: Wf(ix, t[k], p + [Label(ix, k)])
  }

  // ---------------------------------------------------------------------
  // Checked insert and burst

  /** `DynamicAlphaNumericNode::insert`.  A burst node delegates.  A
      collapsed node puts an item with no byte at `offset` in its matches,
      an alphanumeric byte in its bucket, and answers `Err` for any other
      byte before the burst check; after a successful insert it bursts
      once the bucket holds `BurstLimit` items. */
  function Insert(ix: Indexing, n: TrieNode, s: Item): (r: Step<TrieNode>)
    requires Valid(n)
    ensures r.Done? ==> Valid(r.value) && r.value.offset == n.offset
    ensures r.Done? ==> Height(r.value) <= Max(Height(n), |s|)
    ensures |s| > n.offset && !IsAlnum(s[n.offset]) ==> r == Err(s[n.offset])
    decreases Max(Height(n), |s|) - n.offset, 4, 0
  {
    match n.kind
    case Burst(_) => BurstInsert(ix, n, s)
    case Collapsed(_) =>
      if |s| > n.offset && !IsAlnum(s[n.offset]) then Err(s[n.offset])
      else
        var n' := Push(n, s);
        if |n'.kind.bucket| >= BurstLimit then BurstNode(ix, n') else Done(n')
  }

  /** A collapsed node stores an item: in the matches when it has no byte
      at the offset, else at the end of the bucket. */
  function Push(n: TrieNode, s: Item): (r: TrieNode)
    requires n.kind.Collapsed? && Valid(n)
    ensures r.kind.Collapsed? && Valid(r) && r.offset == n.offset
    ensures |s| > n.offset ==> r.matches == n.matches && r.kind.bucket == n.kind.bucket + [s]
    ensures |s| <= n.offset ==> r.matches == n.matches + [s] && r.kind.bucket == n.kind.bucket
    ensures Items(r) == Items(n) + multiset{s}
    ensures Height(r) <= Max(Height(n), |s|)
  {
    var b := n.kind.bucket;
    MaxLenAll(n.matches);
    MaxLenAll(b);
    if |s| > n.offset then
      assert multiset(b + [s]) == multiset(b) + multiset{s};
      MaxLenBound(b + [s], Max(Height(n), |s|));
      TrieNode(n.offset, n.matches, Collapsed(b + [s]))
    else
      assert multiset(n.matches + [s]) == multiset(n.matches) + multiset{s};
      MaxLenBound(n.matches + [s], Max(Height(n), |s|));
      TrieNode(n.offset, n.matches + [s], Collapsed(b))
  }

  /** `BurstAlphaNumericNode::insert`: no byte at `offset` joins the
      matches; an alphanumeric byte goes to `children[index of byte]`,
      whose errors propagate; any other byte is `Err(byte)`. */
  function BurstInsert(ix: Indexing, n: TrieNode, s: Item): (r: Step<TrieNode>)
    requires n.kind.Burst? && Valid(n)
    ensures r.Done? ==> r.value.kind.Burst? && Valid(r.value) && r.value.offset == n.offset
    ensures r.Done? ==> Height(r.value) <= Max(Height(n), |s|)
    ensures |s| > n.offset && !IsAlnum(s[n.offset]) ==> r == Err(s[n.offset])
    decreases Max(Height(n), |s|) - n.offset, 1, 0
  {
    var t := n.kind.children;
    if |s| <= n.offset then
      MaxLenAll(n.matches);
      MaxLenBound(n.matches + [s], Max(Height(n), |s|));
      Done(n.(matches := n.matches + [s]))
    else if !IsAlnum(s[n.offset]) then Err(s[n.offset])
    else
      match LookupWith(ix, s[n.offset])
      case OutOfRange(len, i) => OutOfBounds(len, i)
      case Index(k) =>
        if k >= |t| then OutOfBounds(|t|, k)
        else
          assert ValidKids(t, n.offset);
          assert t[k].offset == n.offset + 1 && Valid(t[k]);
          HeightAllElem(t, k);
          var r := Insert(ix, t[k], s);
          if r.Done? then
            HeightAllUpdate(t, k, r.value);
            ValidUpdate(t, k, r.value, n.offset);
            Done(n.(kind := Burst(t[k := r.value])))
          else r
  }

  /** `CollapsedAlphaNumericNode::burst`: a burst node with 62 fresh
      children takes over the matches, then every bucket item is popped and
      re-inserted through the checked insert, whose `Err` the `unwrap`
      turns into a panic. */
  function BurstNode(ix: Indexing, n: TrieNode): (r: Step<TrieNode>)
    requires n.kind.Collapsed? && Valid(n)
    ensures r.Done? ==> r.value.kind.Burst? && Valid(r.value) && r.value.offset == n.offset
    ensures r.Done? ==> Height(r.value) <= Height(n)
    ensures !r.Err?
    decreases Height(n) - n.offset, 3, 0
  {
    var t := NewChildren(n.offset);
    FreshFacts(t, n.offset);
    Distribute(ix, TrieNode(n.offset, n.matches, Burst(t)), n.kind.bucket)
  }

  /** The loop `while let Some(item) = bucket.pop() { new_node.insert(item).unwrap() }`. */
  function Distribute(ix: Indexing, n: TrieNode, items: seq<Item>): (r: Step<TrieNode>)
    requires n.kind.Burst? && Valid(n)
    requires forall y | y in items :: |y| > n.offset
    ensures r.Done? ==> r.value.kind.Burst? && Valid(r.value) && r.value.offset == n.offset
    ensures r.Done? ==> Height(r.value) <= Max(Height(n), MaxLen(items))
    ensures !r.Err?
    decreases Max(Height(n), MaxLen(items)) - n.offset, 2, |items|
  {
    if items == [] then Done(n)
    else
      var last := items[|items| - 1];
      var rest := items[..|items| - 1];
      assert last in items;
      assert forall z | z in rest :: z in items;
      MaxLenAll(items);
      MaxLenBound(rest, MaxLen(items));
      var r := BurstInsert(ix, n, last);
      if r.Done? then Distribute(ix, r.value, rest)
      else if r.Err? then UnwrapOnErr(r.byte)
      else r
  }

  // ---------------------------------------------------------------------
  // Unchecked and silent inserts

  /** `insert_unchecked` (mod.rs): every item longer than the offset goes
      to the bucket, and a burst node looks up whatever byte it finds. */
  function InsertUnchecked(ix: Indexing, n: TrieNode, s: Item): (r: Step<TrieNode>)
    requires Valid(n)
    ensures r.Done? ==> Valid(r.value) && r.value.offset == n.offset
    ensures !r.Err?
    decreases Max(Height(n), |s|) - n.offset
  {
    match n.kind
    case Collapsed(_) =>
      var n' := Push(n, s);
      if |n'.kind.bucket| >= BurstLimit then BurstNode(ix, n') else Done(n')
    case Burst(t) =>
      if |s| <= n.offset then Done(n.(matches := n.matches + [s]))
      else
        match LookupWith(ix, s[n.offset])
        case OutOfRange(len, i) => OutOfBounds(len, i)
        case Index(k) =>
          if k >= |t| then OutOfBounds(|t|, k)
          else
            assert ValidKids(t, n.offset);
            assert t[k].offset == n.offset + 1 && Valid(t[k]);
            HeightAllElem(t, k);
            var r := InsertUnchecked(ix, t[k], s);
            if r.Done? then
              ValidUpdate(t, k, r.value, n.offset);
              Done(n.(kind := Burst(t[k := r.value])))
            else r
  }

  /** `insert_silent` (alphanumeric.rs): an item whose byte at the offset
      is not alphanumeric is dropped, at a collapsed or a burst node; a
      collapsed node checks for a burst whether or not it stored the item. */
  function InsertSilent(ix: Indexing, n: TrieNode, s: Item): (r: Step<TrieNode>)
    requires Valid(n)
    ensures r.Done? ==> Valid(r.value) && r.value.offset == n.offset
    ensures !r.Err?
    ensures |s| > n.offset && !IsAlnum(s[n.offset]) && n.kind.Burst? ==> r == Done(n)
    ensures |s| > n.offset && !IsAlnum(s[n.offset]) && n.kind.Collapsed? && |n.kind.bucket| < BurstLimit ==> r == Done(n)
    decreases Max(Height(n), |s|) - n.offset
  {
    match n.kind
    case Collapsed(_) =>
      var n' := if |s| > n.offset && !IsAlnum(s[n.offset]) then n else Push(n, s);
      if |n'.kind.bucket| >= BurstLimit then BurstNode(ix, n') else Done(n')
    case Burst(t) =>
      if |s| <= n.offset then Done(n.(matches := n.matches + [s]))
      else if !IsAlnum(s[n.offset]) then Done(n)
      else
        match LookupWith(ix, s[n.offset])
        case OutOfRange(len, i) => OutOfBounds(len, i)
        case Index(k) =>
          if k >= |t| then OutOfBounds(|t|, k)
          else
            assert ValidKids(t, n.offset);
            assert t[k].offset == n.offset + 1 && Valid(t[k]);
            HeightAllElem(t, k);
            var r := InsertSilent(ix, t[k], s);
            if r.Done? then
              ValidUpdate(t, k, r.value, n.offset);
              Done(n.(kind := Burst(t[k := r.value])))
            else r
  }

  function InsertWith(mode: Mode, ix: Indexing, n: TrieNode, s: Item): (r: Step<TrieNode>)
    requires Valid(n)
    ensures r.Done? ==> Valid(r.value) && r.value.offset == n.offset
  {
    match mode
    case Checked => Insert(ix, n, s)
    case Unchecked => InsertUnchecked(ix, n, s)
    case Silent => InsertSilent(ix, n, s)
  }

  // ---------------------------------------------------------------------
  // Merge and drivers

  /** `merge`: the matches, then the bucket sorted, or every child in
      index order. */
  function Merge(n: TrieNode): (r: seq<Item>)
    ensures multiset(r) == Items(n)
    decreases n
  {
    n.matches +
      match n.kind
      case Collapsed(b) => Sort(b)
      case Burst(t) => MergeAll(t)
  }

  function MergeAll(t: seq<TrieNode>): (r: seq<Item>)
    ensures multiset(r) == ItemsAll(t)
    decreases t
  {
    if t == [] then [] else Merge(t[0]) + MergeAll(t[1..])
  }

  /** Pop every item off the back of `data` into the trie; the first
      failure ends the loop. */
  function InsertAll(mode: Mode, ix: Indexing, n: TrieNode, data: seq<Item>): (r: Step<TrieNode>)
    requires Valid(n)
    ensures r.Done? ==> Valid(r.value) && r.value.offset == n.offset
    decreases |data|
  {
    if data == [] then Done(n)
    else
      var r := InsertWith(mode, ix, n, data[|data| - 1]);
      if r.Done? then InsertAll(mode, ix, r.value, data[..|data| - 1]) else r
  }

  /** The pop-all / insert / merge driver over `make_trie()`: when it
      finishes, the silent path returns part of its input and the other two
      a permutation of it. */
  function AlphaSort(mode: Mode, ix: Indexing, data: seq<Item>): (r: Step<seq<Item>>)
    ensures r.Done? ==> multiset(r.value) <= multiset(data)
    ensures r.Done? && mode != Silent ==> multiset(r.value) == multiset(data)
  {
    InsertAllItems(mode, ix, New(0), data);
    match InsertAll(mode, ix, New(0), data)
    case Done(n) => Done(Merge(n))
    case Err(c) => Err(c)
    case OutOfBounds(len, i) => OutOfBounds(len, i)
    case UnwrapOnErr(c) => UnwrapOnErr(c)
  }

  // ---------------------------------------------------------------------
  // Bookkeeping over children

  lemma {:induction false} FreshFacts(t: seq<TrieNode>, offset: nat)
    requires forall k | 0 <= k < |t| :: t[k] == New(offset + 1)
    ensures ItemsAll(t) == multiset{} && HeightAll(t) == 0 && ValidKids(t, offset)
  {
    if t != [] {
      FreshFacts(t[1..], offset);
    }
  }

  lemma {:induction false} HeightAllElem(t: seq<TrieNode>, k: nat)
    requires k < |t|
    ensures Height(t[k]) <= HeightAll(t)
  {
    if k > 0 {
      HeightAllElem(t[1..], k - 1);
    }
  }

  lemma {:induction false} HeightAllUpdate(t: seq<TrieNode>, k: nat, c: TrieNode)
    requires k < |t|
    ensures HeightAll(t[k := c]) <= Max(HeightAll(t), Height(c))
  {
    if k > 0 {
      HeightAllUpdate(t[1..], k - 1, c);
      assert t[k := c][1..] == t[1..][k - 1 := c];
    } else {
      assert t[k := c][1..] == t[1..];
    }
  }

  lemma {:induction false} ItemsAllGrow(t: seq<TrieNode>, k: nat, c: TrieNode, m: multiset<Item>)
    requires k < |t| && Items(c) == Items(t[k]) + m
    ensures ItemsAll(t[k := c]) == ItemsAll(t) + m
  {
    var u := t[k := c];
    if k > 0 {
      ItemsAllGrow(t[1..], k - 1, c, m);
      assert u[1..] == t[1..][k - 1 := c];
      assert u[0] == t[0];
    } else {
      assert u[1..] == t[1..];
    }
  }

  /** What one child gains, its burst parent gains. */
  lemma ChildGrows(n: TrieNode, k: nat, c: TrieNode, m: multiset<Item>)
    requires n.kind.Burst? && k < |n.kind.children| && Items(c) == Items(n.kind.children[k]) + m
    ensures Items(n.(kind := Burst(n.kind.children[k := c]))) == Items(n) + m
  {
    ItemsAllGrow(n.kind.children, k, c, m);
  }

  lemma ValidUpdate(t: seq<TrieNode>, k: nat, c: TrieNode, offset: nat)
    requires k < |t| && c.offset == offset + 1 && Valid(c) && ValidKids(t, offset)
    ensures ValidKids(t[k := c], offset)
  {
    var u := t[k := c];
    assert forall j | 0 <= j < |u| :: u[j] == if j == k then c else t[j];
  }

  lemma WfUpdate(ix: Indexing, t: seq<TrieNode>, k: nat, c: TrieNode, p: Item)
    requires k < |t| && Wf(ix, c, p + [Label(ix, k)]) && WfKids(ix, t, p)
    ensures WfKids(ix, t[k := c], p)
  {
    var u := t[k := c];
    assert forall j | 0 <= j < |u| :: u[j] == if j == k then c else t[j];
  }

  // ---------------------------------------------------------------------
  // Contents

  /** A successful checked insert adds exactly its item. */
  lemma {:induction false} InsertItems(ix: Indexing, n: TrieNode, s: Item)
    requires Valid(n)
    ensures var r := Insert(ix, n, s); r.Done? ==> Items(r.value) == Items(n) + multiset{s}
    decreases Max(Height(n), |s|) - n.offset, 4, 1
  {
    if n.kind.Burst? {
      BurstInsertItems(ix, n, s);
    } else {
      CollapsedInsertItems(ix, n, s);
    }
  }

  lemma {:induction false} CollapsedInsertItems(ix: Indexing, n: TrieNode, s: Item)
    requires n.kind.Collapsed? && Valid(n)
    ensures var r := Insert(ix, n, s); r.Done? ==> Items(r.value) == Items(n) + multiset{s}
    decreases Max(Height(n), |s|) - n.offset, 4, 0
  {
    if !(|s| > n.offset && !IsAlnum(s[n.offset])) {
      var n' := Push(n, s);
      if |n'.kind.bucket| >= BurstLimit {
        BurstNodeItems(ix, n');
      }
    }
  }

  lemma {:induction false} BurstInsertItems(ix: Indexing, n: TrieNode, s: Item)
    requires n.kind.Burst? && Valid(n)
    ensures var r := BurstInsert(ix, n, s); r.Done? ==> Items(r.value) == Items(n) + multiset{s}
    decreases Max(Height(n), |s|) - n.offset, 1, 0
  {
    var t := n.kind.children;
    if |s| <= n.offset {
      assert multiset(n.matches + [s]) == multiset(n.matches) + multiset{s};
    } else if IsAlnum(s[n.offset]) {
      var l := LookupWith(ix, s[n.offset]);
      if l.Index? && l.value < |t| {
        var k := l.value;
        assert t[k].offset == n.offset + 1 && Valid(t[k]);
        HeightAllElem(t, k);
        InsertItems(ix, t[k], s);
        var r := Insert(ix, t[k], s);
        if r.Done? {
          ItemsAllGrow(t, k, r.value, multiset{s});
        }
      }
    }
  }

  lemma {:induction false} BurstNodeItems(ix: Indexing, n: TrieNode)
    requires n.kind.Collapsed? && Valid(n)
    ensures var r := BurstNode(ix, n); r.Done? ==> Items(r.value) == Items(n)
    decreases Height(n) - n.offset, 3, 0
  {
    var t := NewChildren(n.offset);
    FreshFacts(t, n.offset);
    DistributeItems(ix, TrieNode(n.offset, n.matches, Burst(t)), n.kind.bucket);
  }

  lemma {:induction false} DistributeItems(ix: Indexing, n: TrieNode, items: seq<Item>)
    requires n.kind.Burst? && Valid(n)
    requires forall y | y in items :: |y| > n.offset
    ensures var r := Distribute(ix, n, items); r.Done? ==> Items(r.value) == Items(n) + multiset(items)
    decreases Max(Height(n), MaxLen(items)) - n.offset, 2, |items|
  {
    if items != [] {
      var last := items[|items| - 1];
      var rest := items[..|items| - 1];
      assert last in items;
      assert forall z | z in rest :: z in items;
      MaxLenAll(items);
      MaxLenBound(rest, MaxLen(items));
      BurstInsertItems(ix, n, last);
      var r := BurstInsert(ix, n, last);
      if r.Done? {
        assert Distribute(ix, n, items) == Distribute(ix, r.value, rest);
        DistributeItems(ix, r.value, rest);
        MultisetSnoc(items);
        assert Items(n) + multiset(items) == Items(r.value) + multiset(rest);
      }
    }
  }

  /** The checked insert answers `Err(c)` only for a byte `c` of the item,
      at or past the offset, that is not alphanumeric (a burst never
      answers `Err`), and always does for such a byte at the offset. */
  lemma {:induction false} InsertErr(ix: Indexing, n: TrieNode, s: Item)
    requires Valid(n)
    ensures var r := Insert(ix, n, s);
      r.Err? ==> exists i | n.offset <= i < |s| :: s[i] == r.byte && !IsAlnum(s[i])
    ensures |s| > n.offset && !IsAlnum(s[n.offset]) ==> Insert(ix, n, s) == Err(s[n.offset])
    decreases Max(Height(n), |s|) - n.offset
  {
    if n.kind.Burst? {
      var t := n.kind.children;
      if |s| > n.offset && IsAlnum(s[n.offset]) {
        var l := LookupWith(ix, s[n.offset]);
        if l.Index? && l.value < |t| {
          assert t[l.value].offset == n.offset + 1 && Valid(t[l.value]);
          HeightAllElem(t, l.value);
          InsertErr(ix, t[l.value], s);
        }
      }
    }
  }

  /** A successful unchecked insert adds exactly its item, whatever its
      bytes. */
  lemma {:induction false} UncheckedItems(ix: Indexing, n: TrieNode, s: Item)
    requires Valid(n)
    ensures var r := InsertUnchecked(ix, n, s); r.Done? ==> Items(r.value) == Items(n) + multiset{s}
    decreases Max(Height(n), |s|) - n.offset, 1
  {
    if n.kind.Collapsed? {
      var n' := Push(n, s);
      if |n'.kind.bucket| >= BurstLimit {
        BurstNodeItems(ix, n');
      }
    } else {
      UncheckedBurstItems(ix, n, s);
    }
  }

  lemma {:induction false} UncheckedBurstItems(ix: Indexing, n: TrieNode, s: Item)
    requires n.kind.Burst? && Valid(n)
    ensures var r := InsertUnchecked(ix, n, s); r.Done? ==> Items(r.value) == Items(n) + multiset{s}
    decreases Max(Height(n), |s|) - n.offset, 0
  {
    var t := n.kind.children;
    if |s| <= n.offset {
      assert multiset(n.matches + [s]) == multiset(n.matches) + multiset{s};
    } else {
      var l := LookupWith(ix, s[n.offset]);
      if l.Index? && l.value < |t| {
        var k := l.value;
        assert t[k].offset == n.offset + 1 && Valid(t[k]);
        HeightAllElem(t, k);
        UncheckedItems(ix, t[k], s);
        var r := InsertUnchecked(ix, t[k], s);
        if r.Done? {
          assert InsertUnchecked(ix, n, s) == Done(n.(kind := Burst(t[k := r.value])));
          ChildGrows(n, k, r.value, multiset{s});
        }
      }
    }
  }

  /** Where the unchecked insert sends an item: a collapsed node stores
      any item longer than its offset in its bucket, alphanumeric or not;
      a burst node sends a byte the table holds to that child, so the
      127-entry table sends every other byte below 127 to child 0 and
      panics on a byte from 127 on. */
  lemma UncheckedRoutes(ix: Indexing, n: TrieNode, s: Item)
    requires Valid(n)
    ensures n.kind.Collapsed? && |s| > n.offset && |n.kind.bucket| + 1 < BurstLimit ==>
      InsertUnchecked(ix, n, s) == Done(n.(kind := Collapsed(n.kind.bucket + [s])))
    ensures n.kind.Collapsed? && |s| > n.offset && |n.kind.bucket| + 1 >= BurstLimit ==>
      InsertUnchecked(ix, n, s) == BurstNode(ix, n.(kind := Collapsed(n.kind.bucket + [s])))
    ensures n.kind.Burst? && |s| > n.offset && LookupWith(ix, s[n.offset]).OutOfRange? ==>
      InsertUnchecked(ix, n, s) == OutOfBounds(LookupWith(ix, s[n.offset]).len, s[n.offset])
    ensures ix == LookupAlpha && n.kind.Burst? && |s| > n.offset && s[n.offset] >= TableSize ==>
      InsertUnchecked(ix, n, s) == OutOfBounds(TableSize, s[n.offset])
    ensures (&& ix == LookupAlpha && n.kind.Burst? && |n.kind.children| == Children
             && |s| > n.offset && s[n.offset] < TableSize && !IsAlnum(s[n.offset])) ==>
        var r := InsertUnchecked(ix, n, s);
        r.Done? ==> && r.value.matches == n.matches && r.value.kind.Burst?
                    && |r.value.kind.children| == Children
                    && (forall k | 0 < k < Children :: r.value.kind.children[k] == n.kind.children[k])
                    && Items(r.value.kind.children[0]) == Items(n.kind.children[0]) + multiset{s}
  {
    if n.kind.Burst? && |n.kind.children| == Children && |s| > n.offset && LookupWith(ix, s[n.offset]) == Index(0) {
      var t := n.kind.children;
      assert t[0].offset == n.offset + 1 && Valid(t[0]);
      HeightAllElem(t, 0);
      UncheckedItems(ix, t[0], s);
    }
  }

  /** Some byte of `s` from position `o` on is not alphanumeric. */
  predicate BadFrom(s: Item, o: nat)
  {
    exists i | o <= i < |s| :: !IsAlnum(s[i])
  }

  /** The silent insert either adds exactly its item or, having met a byte
      at or past the offset that is not alphanumeric, keeps the contents
      as they were; it always keeps them for such a byte at the offset. */
  lemma {:induction false} SilentItems(ix: Indexing, n: TrieNode, s: Item)
    requires Valid(n)
    ensures var r := InsertSilent(ix, n, s);
      r.Done? ==> (|| Items(r.value) == Items(n) + multiset{s}
                   || (Items(r.value) == Items(n) && BadFrom(s, n.offset)))
    ensures var r := InsertSilent(ix, n, s);
      r.Done? && |s| > n.offset && !IsAlnum(s[n.offset]) ==> Items(r.value) == Items(n)
    decreases Max(Height(n), |s|) - n.offset, 1
  {
    if n.kind.Collapsed? {
      SilentCollapsedItems(ix, n, s);
    } else {
      SilentBurstItems(ix, n, s);
    }
  }

  lemma SilentCollapsedItems(ix: Indexing, n: TrieNode, s: Item)
    requires n.kind.Collapsed? && Valid(n)
    ensures var r := InsertSilent(ix, n, s);
      r.Done? ==> (|| Items(r.value) == Items(n) + multiset{s}
                   || (Items(r.value) == Items(n) && BadFrom(s, n.offset)))
    ensures var r := InsertSilent(ix, n, s);
      r.Done? && |s| > n.offset && !IsAlnum(s[n.offset]) ==> Items(r.value) == Items(n)
  {
    var drop := |s| > n.offset && !IsAlnum(s[n.offset]);
    var n' := if drop then n else Push(n, s);
    if drop {
      assert BadFrom(s, n.offset) by {
        assert !IsAlnum(s[n.offset]);
      }
    }
    if |n'.kind.bucket| >= BurstLimit {
      BurstNodeItems(ix, n');
    }
  }

  lemma {:induction false} SilentBurstItems(ix: Indexing, n: TrieNode, s: Item)
    requires n.kind.Burst? && Valid(n)
    ensures var r := InsertSilent(ix, n, s);
      r.Done? ==> (|| Items(r.value) == Items(n) + multiset{s}
                   || (Items(r.value) == Items(n) && BadFrom(s, n.offset)))
    ensures var r := InsertSilent(ix, n, s);
      r.Done? && |s| > n.offset && !IsAlnum(s[n.offset]) ==> Items(r.value) == Items(n)
    decreases Max(Height(n), |s|) - n.offset, 0
  {
    var t := n.kind.children;
    if |s| <= n.offset {
      assert multiset(n.matches + [s]) == multiset(n.matches) + multiset{s};
    } else if !IsAlnum(s[n.offset]) {
      assert BadFrom(s, n.offset);
    } else {
      var l := LookupWith(ix, s[n.offset]);
      if l.Index? && l.value < |t| {
        var k := l.value;
        assert t[k].offset == n.offset + 1 && Valid(t[k]);
        HeightAllElem(t, k);
        SilentItems(ix, t[k], s);
        var r := InsertSilent(ix, t[k], s);
        if r.Done? {
          assert InsertSilent(ix, n, s) == Done(n.(kind := Burst(t[k := r.value])));
          SilentChildItems(n, k, r.value, s);
        }
      }
    }
  }

  /** A child that gained the item, or kept its contents because of a bad
      byte further on, makes its parent do the same. */
  lemma SilentChildItems(n: TrieNode, k: nat, c: TrieNode, s: Item)
    requires n.kind.Burst? && k < |n.kind.children|
    requires || Items(c) == Items(n.kind.children[k]) + multiset{s}
             || (Items(c) == Items(n.kind.children[k]) && BadFrom(s, n.offset + 1))
    ensures var u := n.(kind := Burst(n.kind.children[k := c]));
      || Items(u) == Items(n) + multiset{s}
      || (Items(u) == Items(n) && BadFrom(s, n.offset))
  {
    var t := n.kind.children;
    if Items(c) == Items(t[k]) + multiset{s} {
      ItemsAllGrow(t, k, c, multiset{s});
    } else {
      ItemsAllGrow(t, k, c, multiset{});
      var i :| n.offset + 1 <= i < |s| && !IsAlnum(s[i]);
    }
  }

  /** One insert on any path adds exactly its item, except that the silent
      path may drop it. */
  lemma InsertWithItems(mode: Mode, ix: Indexing, n: TrieNode, s: Item)
    requires Valid(n)
    ensures var r := InsertWith(mode, ix, n, s);
      r.Done? ==> Items(n) <= Items(r.value) <= Items(n) + multiset{s}
    ensures var r := InsertWith(mode, ix, n, s);
      r.Done? && mode != Silent ==> Items(r.value) == Items(n) + multiset{s}
  {
    match mode
    case Checked => InsertItems(ix, n, s);
    case Unchecked => UncheckedItems(ix, n, s);
    case Silent => SilentItems(ix, n, s);
  }

  /** Bounds on contents compose along the pop loop. */
  lemma BoundsCompose(a: multiset<Item>, b: multiset<Item>, c: multiset<Item>, x: Item, rest: multiset<Item>)
    requires a <= b <= a + multiset{x} && b <= c <= b + rest
    ensures a <= c <= a + (rest + multiset{x})
  {
  }

  /** When the pop loop finishes, the trie holds what it held plus the
      popped items: all of them on the checked and unchecked paths, some of
      them on the silent path. */
  lemma {:induction false} InsertAllItems(mode: Mode, ix: Indexing, n: TrieNode, data: seq<Item>)
    requires Valid(n)
    ensures var r := InsertAll(mode, ix, n, data);
      r.Done? ==> Items(n) <= Items(r.value) <= Items(n) + multiset(data)
    ensures var r := InsertAll(mode, ix, n, data);
      r.Done? && mode != Silent ==> Items(r.value) == Items(n) + multiset(data)
    decreases |data|
  {
    if data != [] {
      var last := data[|data| - 1];
      var rest := data[..|data| - 1];
      InsertWithItems(mode, ix, n, last);
      var r := InsertWith(mode, ix, n, last);
      if r.Done? {
        assert InsertAll(mode, ix, n, data) == InsertAll(mode, ix, r.value, rest);
        InsertAllItems(mode, ix, r.value, rest);
        MultisetSnoc(data);
        var f := InsertAll(mode, ix, r.value, rest);
        if f.Done? {
          BoundsCompose(Items(n), Items(r.value), Items(f.value), last, multiset(rest));
        }
      }
    }
  }

  // ---------------------------------------------------------------------
  // The three inserts agree on alphanumeric items

  predicate Alnum(y: Item)
  {
    forall i | 0 <= i < |y| :: IsAlnum(y[i])
  }

  /** On an item made of alphanumeric bytes the unchecked insert does what
      the checked one does. */
  lemma {:induction false} UncheckedAgrees(ix: Indexing, n: TrieNode, s: Item)
    requires Valid(n) && Alnum(s)
    ensures InsertUnchecked(ix, n, s) == Insert(ix, n, s)
    decreases Max(Height(n), |s|) - n.offset
  {
    if n.kind.Burst? {
      var t := n.kind.children;
      if |s| > n.offset {
        var l := LookupWith(ix, s[n.offset]);
        if l.Index? && l.value < |t| {
          assert t[l.value].offset == n.offset + 1 && Valid(t[l.value]);
          HeightAllElem(t, l.value);
          UncheckedAgrees(ix, t[l.value], s);
        }
      }
    }
  }

  /** On an item made of alphanumeric bytes the silent insert does what
      the checked one does. */
  lemma {:induction false} SilentAgrees(ix: Indexing, n: TrieNode, s: Item)
    requires Valid(n) && Alnum(s)
    ensures InsertSilent(ix, n, s) == Insert(ix, n, s)
    decreases Max(Height(n), |s|) - n.offset
  {
    if n.kind.Burst? {
      var t := n.kind.children;
      if |s| > n.offset {
        var l := LookupWith(ix, s[n.offset]);
        if l.Index? && l.value < |t| {
          assert t[l.value].offset == n.offset + 1 && Valid(t[l.value]);
          HeightAllElem(t, l.value);
          SilentAgrees(ix, t[l.value], s);
        }
      }
    }
  }

  /** On items made of alphanumeric bytes the three drivers agree. */
  lemma {:induction false} InsertAllAgrees(mode: Mode, ix: Indexing, n: TrieNode, data: seq<Item>)
    requires Valid(n) && forall y | y in data :: Alnum(y)
    ensures InsertAll(mode, ix, n, data) == InsertAll(Checked, ix, n, data)
    decreases |data|
  {
    if data != [] {
      var last := data[|data| - 1];
      assert last in data;
      UncheckedAgrees(ix, n, last);
      SilentAgrees(ix, n, last);
      var r := Insert(ix, n, last);
      if r.Done? {
        assert forall z | z in data[..|data| - 1] :: z in data;
        InsertAllAgrees(mode, ix, r.value, data[..|data| - 1]);
      }
    }
  }

  // ---------------------------------------------------------------------
  // No failure and order, on the table's alphabet

  lemma {:induction false} WfValid(ix: Indexing, n: TrieNode, p: Item)
    requires Wf(ix, n, p)
    ensures Valid(n)
    decreases n
  {
    match n.kind
    case Collapsed(b) =>
    case Burst(t) =>
      forall k | 0 <= k < |t|
        ensures t[k].offset == |p| + 1 && Valid(t[k])
      {
        WfValid(ix, t[k], p + [Label(ix, k)]);
      }
  }

  /** An item on the node's path made of the table's alphabet is stored
      without error or panic, and the node stays well formed. */
  lemma {:induction false} InsertWf(ix: Indexing, n: TrieNode, p: Item, s: Item)
    requires Wf(ix, n, p) && Valid(n) && HasPrefix(s, p) && Usable(ix, s)
    ensures Insert(ix, n, s).Done? && Wf(ix, Insert(ix, n, s).value, p)
    decreases Max(Height(n), |s|) - n.offset, 4, 1
  {
    if n.kind.Burst? {
      BurstInsertWf(ix, n, p, s);
    } else {
      CollapsedInsertWf(ix, n, p, s);
    }
  }

  lemma {:induction false} CollapsedInsertWf(ix: Indexing, n: TrieNode, p: Item, s: Item)
    requires n.kind.Collapsed? && Wf(ix, n, p) && Valid(n) && HasPrefix(s, p) && Usable(ix, s)
    ensures Insert(ix, n, s).Done? && Wf(ix, Insert(ix, n, s).value, p)
    decreases Max(Height(n), |s|) - n.offset, 4, 0
  {
    var b := n.kind.bucket;
    if |s| > |p| {
      AlphabetRoutes(ix, s[|p|]);
    } else {
      assert s == s[..|p|] == p;
    }
    var n' := Push(n, s);
    assert Wf(ix, n', p);
    if |n'.kind.bucket| >= BurstLimit {
      BurstNodeWf(ix, n', p);
    }
  }

  lemma {:induction false} BurstInsertWf(ix: Indexing, n: TrieNode, p: Item, s: Item)
    requires n.kind.Burst? && Valid(n) && Wf(ix, n, p)
    requires HasPrefix(s, p) && Usable(ix, s)
    ensures BurstInsert(ix, n, s).Done? && Wf(ix, BurstInsert(ix, n, s).value, p)
    decreases Max(Height(n), |s|) - n.offset, 1, 0
  {
    var t := n.kind.children;
    if |s| <= |p| {
      assert s == s[..|p|] == p;
    } else {
      var c := s[|p|];
      AlphabetRoutes(ix, c);
      var k := LookupWith(ix, c).value;
      assert t[k].offset == |p| + 1 && Valid(t[k]);
      assert Wf(ix, t[k], p + [Label(ix, k)]);
      HeightAllElem(t, k);
      PrefixStep(s, p);
      InsertWf(ix, t[k], p + [c], s);
      WfUpdate(ix, t, k, Insert(ix, t[k], s).value, p);
    }
  }

  lemma {:induction false} BurstNodeWf(ix: Indexing, n: TrieNode, p: Item)
    requires n.kind.Collapsed? && Valid(n) && Wf(ix, n, p)
    ensures BurstNode(ix, n).Done? && Wf(ix, BurstNode(ix, n).value, p)
    decreases Height(n) - n.offset, 3, 0
  {
    var t := NewChildren(n.offset);
    FreshFacts(t, n.offset);
    forall k | 0 <= k < |t|
      ensures Wf(ix, t[k], p + [Label(ix, k)])
    {
    }
    DistributeWf(ix, TrieNode(n.offset, n.matches, Burst(t)), p, n.kind.bucket);
  }

  lemma {:induction false} DistributeWf(ix: Indexing, n: TrieNode, p: Item, items: seq<Item>)
    requires n.kind.Burst? && Valid(n) && Wf(ix, n, p)
    requires forall y | y in items :: |y| > |p| && HasPrefix(y, p) && Usable(ix, y)
    ensures Distribute(ix, n, items).Done? && Wf(ix, Distribute(ix, n, items).value, p)
    decreases Max(Height(n), MaxLen(items)) - n.offset, 2, |items|
  {
    if items != [] {
      var last := items[|items| - 1];
      var rest := items[..|items| - 1];
      assert last in items;
      assert forall z | z in rest :: z in items;
      MaxLenAll(items);
      MaxLenBound(rest, MaxLen(items));
      BurstInsertWf(ix, n, p, last);
      DistributeWf(ix, BurstInsert(ix, n, last).value, p, rest);
    }
  }

  /** Merge of a well-formed node is ascending and stays on the node's path. */
  lemma {:induction false} MergeSorted(ix: Indexing, n: TrieNode, p: Item)
    requires Wf(ix, n, p)
    ensures Sorted(Merge(n))
    ensures forall y | y in Merge(n) :: HasPrefix(y, p)
    decreases n, 1
  {
    match n.kind
    case Collapsed(b) =>
      SortOnPath(b, p);
      PathThenSorted(n.matches, Sort(b), p);
    case Burst(t) =>
      assert forall k | 0 <= k < |t| :: Wf(ix, t[k], p + [Label(ix, 0 + k)]);
      MergeAllSorted(ix, t, p, 0);
      PathThenSorted(n.matches, MergeAll(t), p);
  }

  /** The merges of children `j, j + 1, ...` are ascending and lie in the
      branches of `p` from label `j` on. */
  lemma {:induction false} MergeAllSorted(ix: Indexing, t: seq<TrieNode>, p: Item, j: nat)
    requires forall k | 0 <= k < |t| :: Wf(ix, t[k], p + [Label(ix, j + k)])
    ensures Sorted(MergeAll(t))
    ensures forall y | y in MergeAll(t) :: InBranches(y, p, Label(ix, j))
    decreases t, 0
  {
    if t != [] {
      MergeSorted(ix, t[0], p + [Label(ix, j)]);
      assert forall k | 0 <= k < |t[1..]| :: t[1..][k] == t[k + 1];
      MergeAllSorted(ix, t[1..], p, j + 1);
      LabelsAscend(ix, j, j + 1);
      BranchesAppend(Merge(t[0]), MergeAll(t[1..]), p, Label(ix, j));
    }
  }

  /** Popping items made of the table's alphabet into a well-formed root
      never fails and keeps it well formed, in every mode, and adds
      exactly the popped items. */
  lemma {:induction false} InsertAllWf(ix: Indexing, n: TrieNode, data: seq<Item>)
    requires Wf(ix, n, []) && Valid(n) && forall y | y in data :: Usable(ix, y)
    ensures InsertAll(Checked, ix, n, data).Done?
    ensures Wf(ix, InsertAll(Checked, ix, n, data).value, [])
    ensures Items(InsertAll(Checked, ix, n, data).value) == Items(n) + multiset(data)
    decreases |data|
  {
    if data != [] {
      var last := data[|data| - 1];
      assert last in data;
      assert forall z | z in data[..|data| - 1] :: z in data;
      InsertOneWf(ix, n, last);
      var n' := Insert(ix, n, last).value;
      assert InsertAll(Checked, ix, n, data) == InsertAll(Checked, ix, n', data[..|data| - 1]);
      InsertAllWf(ix, n', data[..|data| - 1]);
      MultisetSnoc(data);
    }
  }

  /** One item of the alphabet goes in without error or panic. */
  lemma InsertOneWf(ix: Indexing, n: TrieNode, s: Item)
    requires Wf(ix, n, []) && Valid(n) && Usable(ix, s)
    ensures Insert(ix, n, s).Done?
    ensures Wf(ix, Insert(ix, n, s).value, []) && Valid(Insert(ix, n, s).value)
    ensures Items(Insert(ix, n, s).value) == Items(n) + multiset{s}
  {
    InsertWf(ix, n, [], s);
    InsertItems(ix, n, s);
    WfValid(ix, Insert(ix, n, s).value, []);
  }

  /** The alphabet of every table is alphanumeric. */
  lemma UsableAlnum(ix: Indexing, data: seq<Item>)
    requires forall y | y in data :: Usable(ix, y)
    ensures forall y | y in data :: Alnum(y)
  {
    forall y, i | y in data && 0 <= i < |y|
      ensures IsAlnum(y[i])
    {
      AlphabetRoutes(ix, y[i]);
    }
  }

  /** On items made of the table's alphabet every driver returns exactly
      the reference sort of its input. */
  lemma AlphaSortIsSort(mode: Mode, ix: Indexing, data: seq<Item>)
    requires forall y | y in data :: Usable(ix, y)
    ensures AlphaSort(mode, ix, data) == Done(Sort(data))
  {
    UsableAlnum(ix, data);
    InsertAllAgrees(mode, ix, New(0), data);
    InsertAllWf(ix, New(0), data);
    var root := InsertAll(Checked, ix, New(0), data).value;
    MergeSorted(ix, root, []);
    SortIsUnique(data, Merge(root));
  }

  /** The 127-entry table sorts every alphanumeric input that never uses
      the byte `'A'`. */
  lemma LookupAlphaSortsWithoutA(mode: Mode, data: seq<Item>)
    requires forall y | y in data :: forall i | 0 <= i < |y| :: IsAlnum(y[i]) && y[i] != 65
    ensures AlphaSort(mode, LookupAlpha, data) == Done(Sort(data))
  {
    AlphaSortIsSort(mode, LookupAlpha, data);
  }

  /** With the corrected index every alphanumeric input is sorted. */
  lemma CorrectedSortsAlnum(mode: Mode, data: seq<Item>)
    requires forall y | y in data :: Alnum(y)
    ensures AlphaSort(mode, Corrected, data) == Done(Sort(data))
  {
    AlphaSortIsSort(mode, Corrected, data);
  }

  // ---------------------------------------------------------------------
  // Concrete inputs: nines fill the root bucket up to the burst limit, and
  // the item popped last makes it burst

  /** `k` copies of the one-byte item `"9"`. */
  function Nines(k: nat): (r: seq<Item>)
    ensures |r| == k && forall i | 0 <= i < k :: r[i] == [57]
  {
    seq(k, _ => [57])
  }

  function Root(b: seq<Item>): TrieNode
  {
    TrieNode(0, [], Collapsed(b))
  }

  /** At a collapsed node all three inserts agree on an item they all accept. */
  lemma CollapsedAgrees(mode: Mode, ix: Indexing, n: TrieNode, s: Item)
    requires n.kind.Collapsed? && Valid(n) && (|s| <= n.offset || IsAlnum(s[n.offset]))
    ensures InsertWith(mode, ix, n, s) == Insert(ix, n, s)
  {
  }

  lemma RootValid(b: seq<Item>)
    requires forall y | y in b :: |y| > 0
    ensures Valid(Root(b))
  {
  }

  lemma NinesValid(k: nat)
    ensures Valid(Root(Nines(k)))
  {
    forall y | y in Nines(k)
      ensures |y| > 0
    {
      var i :| 0 <= i < k && Nines(k)[i] == y;
    }
  }

  /** One step of `InsertAll`: the last item is inserted first. */
  lemma InsertAllLast(mode: Mode, ix: Indexing, n: TrieNode, d: seq<Item>, y: Item)
    requires Valid(n)
    ensures var r := InsertWith(mode, ix, n, y);
            InsertAll(mode, ix, n, d + [y]) == if r.Done? then InsertAll(mode, ix, r.value, d) else r
  {
    var data := d + [y];
    assert data[|data| - 1] == y && data[..|data| - 1] == d;
  }

  /** The driver pops the back part first: on `a + b` it runs over `b`,
      then over `a` from where `b` left the trie. */
  lemma {:induction false} InsertAllAppend(mode: Mode, ix: Indexing, n: TrieNode, a: seq<Item>, b: seq<Item>)
    requires Valid(n)
    ensures var r := InsertAll(mode, ix, n, b);
            InsertAll(mode, ix, n, a + b) == if r.Done? then InsertAll(mode, ix, r.value, a) else r
    decreases |b|
  {
    if b == [] {
      assert a + b == a;
    } else {
      var y := b[|b| - 1];
      var b' := b[..|b| - 1];
      assert a + b == (a + b') + [y];
      assert b == b' + [y];
      InsertAllLast(mode, ix, n, a + b', y);
      InsertAllLast(mode, ix, n, b', y);
      var r := InsertWith(mode, ix, n, y);
      if r.Done? {
        InsertAllAppend(mode, ix, r.value, a, b');
      }
    }
  }

  /** Below the burst limit the nines pile up in the root bucket. */
  lemma {:induction false} FillNines(ix: Indexing, b: seq<Item>, k: nat)
    requires |b| + k < BurstLimit && forall y | y in b :: |y| > 0
    ensures Valid(Root(b))
    ensures InsertAll(Checked, ix, Root(b), Nines(k)) == Done(Root(b + Nines(k)))
    decreases k
  {
    RootValid(b);
    if k > 0 {
      var k' := k - 1;
      NinesLast(b, k, k');
      assert Insert(ix, Root(b), [57]) == Done(Root(b + [[57]]));
      FillNines(ix, b + [[57]], k');
      InsertAllLast(Checked, ix, Root(b), Nines(k'), [57]);
    } else {
      assert b + Nines(k) == b;
    }
  }

  lemma NinesAlnum(k: nat)
    ensures forall y | y in Nines(k) :: Alnum(y)
  {
    forall y | y in Nines(k)
      ensures Alnum(y)
    {
      var i :| 0 <= i < k && Nines(k)[i] == y;
    }
  }

  /** Every driver piles `m` nines into the root bucket before reaching `h`. */
  lemma FillRoot(mode: Mode, ix: Indexing, h: Item, m: nat)
    requires m < BurstLimit
    ensures Valid(Root(Nines(m)))
    ensures InsertAll(mode, ix, New(0), [h] + Nines(m)) == InsertAll(mode, ix, Root(Nines(m)), [h])
  {
    assert New(0) == Root(Nines(0));
    NinesValid(0);
    InsertAllAppend(mode, ix, New(0), [h], Nines(m));
    NinesAlnum(m);
    InsertAllAgrees(mode, ix, New(0), Nines(m));
    FillNines(ix, [], m);
    assert [] + Nines(m) == Nines(m);
  }

  /** Pushing `h` onto `m` = 8191 nines bursts the root: the children `t`
      are fresh and `h`, popped first, is re-inserted first. */
  lemma RootBursts(ix: Indexing, h: Item, m: nat, t: seq<TrieNode>)
    requires m + 1 == BurstLimit && |h| > 0 && IsAlnum(h[0]) && t == NewChildren(0)
    ensures Valid(Root(Nines(m)))
    ensures Valid(TrieNode(0, [], Burst(t)))
    ensures Insert(ix, Root(Nines(m)), h) == Distribute(ix, TrieNode(0, [], Burst(t)), Nines(m) + [h])
  {
    var b := Nines(m) + [h];
    NinesValid(m);
    RootValid(b);
    FreshFacts(t, 0);
    assert |b| >= BurstLimit;
    assert Insert(ix, Root(Nines(m)), h) == BurstNode(ix, Root(b));
  }

  /** The driver on `[h]` followed by `m` = 8191 nines bursts the root on `h`. */
  lemma DriveToBurst(mode: Mode, ix: Indexing, h: Item, m: nat, t: seq<TrieNode>)
    requires m + 1 == BurstLimit && |h| > 0 && IsAlnum(h[0]) && t == NewChildren(0)
    ensures Valid(TrieNode(0, [], Burst(t)))
    ensures InsertAll(mode, ix, New(0), [h] + Nines(m)) == Distribute(ix, TrieNode(0, [], Burst(t)), Nines(m) + [h])
  {
    FillRoot(mode, ix, h, m);
    CollapsedAgrees(mode, ix, Root(Nines(m)), h);
    RootBursts(ix, h, m, t);
    InsertAllLast(mode, ix, Root(Nines(m)), [], h);
    assert [] + [h] == [h];
  }

  /** One step of `Distribute`: the last item is re-inserted first. */
  lemma DistributeLast(ix: Indexing, n: TrieNode, b: seq<Item>, h: Item)
    requires n.kind.Burst? && Valid(n) && |h| > n.offset
    requires forall y | y in b :: |y| > n.offset
    ensures var r := BurstInsert(ix, n, h);
            Distribute(ix, n, b + [h]) ==
              if r.Done? then Distribute(ix, r.value, b)
              else if r.Err? then UnwrapOnErr(r.byte)
              else r
  {
    var items := b + [h];
    assert items[|items| - 1] == h && items[..|items| - 1] == b;
  }

  /** A burst root sends a one-byte item to the child its byte indexes. */
  lemma BurstRootOne(ix: Indexing, t: seq<TrieNode>, c: nat, k: nat)
    requires |t| == Children && ValidKids(t, 0) && k < Children
    requires IsAlnum(c) && LookupWith(ix, c) == Index(k) && t[k].kind.Collapsed? && t[k].kind.bucket == []
    ensures BurstInsert(ix, TrieNode(0, [], Burst(t)), [c])
         == Done(TrieNode(0, [], Burst(t[k := t[k].(matches := t[k].matches + [[c]])])))
  {
    assert t[k].offset == 1 && Valid(t[k]);
  }

  lemma NinesLast(ms: seq<Item>, k: nat, k': nat)
    requires k' + 1 == k
    ensures Nines(k) == Nines(k') + [[57]]
    ensures ms + [[57]] + Nines(k') == ms + Nines(k)
  {
  }

  /** One nine goes to the matches of child 9. */
  lemma NineStep(ms: seq<Item>, t: seq<TrieNode>, k: nat, k': nat)
    requires |t| == Children && ValidKids(t, 0) && t[9] == TrieNode(1, ms, Collapsed([])) && k' + 1 == k
    ensures Valid(TrieNode(0, [], Burst(t)))
    ensures ValidKids(t[9 := TrieNode(1, ms + [[57]], Collapsed([]))], 0)
    ensures Distribute(LookupAlpha, TrieNode(0, [], Burst(t)), Nines(k))
         == Distribute(LookupAlpha, TrieNode(0, [], Burst(t[9 := TrieNode(1, ms + [[57]], Collapsed([]))])), Nines(k'))
  {
    NinesLast(ms, k, k');
    BurstRootOne(LookupAlpha, t, 57, 9);
    DistributeLast(LookupAlpha, TrieNode(0, [], Burst(t)), Nines(k'), [57]);
    ValidUpdate(t, 9, TrieNode(1, ms + [[57]], Collapsed([])), 0);
  }

  /** Distributing nines under the 127-entry table appends them all to the
      matches of child 9. */
  lemma {:induction false} DistributeNines(ms: seq<Item>, t: seq<TrieNode>, k: nat)
    requires |t| == Children && ValidKids(t, 0) && t[9] == TrieNode(1, ms, Collapsed([]))
    ensures Valid(TrieNode(0, [], Burst(t)))
    ensures Distribute(LookupAlpha, TrieNode(0, [], Burst(t)), Nines(k))
         == Done(TrieNode(0, [], Burst(t[9 := TrieNode(1, ms + Nines(k), Collapsed([]))])))
    decreases k
  {
    if k == 0 {
      assert ms + Nines(0) == ms;
      assert t[9 := t[9]] == t;
    } else {
      var c := TrieNode(1, ms + [[57]], Collapsed([]));
      NineStep(ms, t, k, k - 1);
      DistributeNines(ms + [[57]], t[9 := c], k - 1);
      NinesLast(ms, k, k - 1);
      var c' := TrieNode(1, ms + Nines(k), Collapsed([]));
      assert t[9 := c][9 := c'] == t[9 := c'];
    }
  }

  lemma {:induction false} MergeAllFresh(t: seq<TrieNode>, o: nat)
    requires forall j | 0 <= j < |t| :: t[j] == New(o)
    ensures MergeAll(t) == []
  {
    if t != [] {
      assert Merge(t[0]) == [];
      MergeAllFresh(t[1..], o);
    }
  }

  /** Merging fresh children with one child replaced gives that child's merge. */
  lemma {:induction false} MergeAllOne(t: seq<TrieNode>, o: nat, k: nat, c: TrieNode)
    requires k < |t| && forall j | 0 <= j < |t| :: t[j] == New(o)
    ensures MergeAll(t[k := c]) == Merge(c)
  {
    var u := t[k := c];
    if k == 0 {
      assert u[1..] == t[1..];
      MergeAllFresh(t[1..], o);
      assert MergeAll(u) == Merge(c) + MergeAll(t[1..]);
    } else {
      assert u[1..] == t[1..][k - 1 := c];
      MergeAllOne(t[1..], o, k - 1, c);
      assert Merge(u[0]) == [];
    }
  }

  /** `"9"`, then `"A"`, then `m` copies of `"9"`: `"A"` has a nine on
      each side. */
  function CollisionInput(m: nat): (r: seq<Item>)
    ensures |r| == m + 2 && r[0] == [57] && r[1] == [65]
    ensures forall i | 2 <= i < m + 2 :: r[i] == [57]
  {
    [[57], [65]] + Nines(m)
  }

  /** Below the burst limit, `m` nines pile up in the root bucket on every
      insert path. */
  lemma NinesFill(mode: Mode, ix: Indexing, m: nat)
    requires m < BurstLimit
    ensures Valid(Root(Nines(m)))
    ensures InsertAll(mode, ix, New(0), Nines(m)) == Done(Root(Nines(m)))
  {
    assert New(0) == Root([]);
    NinesAlnum(m);
    InsertAllAgrees(mode, ix, New(0), Nines(m));
    FillNines(ix, [], m);
    assert [] + Nines(m) == Nines(m);
  }

  /** Below the burst limit a collapsed root takes an alphanumeric item
      at the end of its bucket on every insert path. */
  lemma RootPush(mode: Mode, ix: Indexing, b: seq<Item>, h: Item)
    requires Valid(Root(b)) && |b| + 1 < BurstLimit && |h| > 0 && IsAlnum(h[0])
    ensures Valid(Root(b + [h]))
    ensures InsertWith(mode, ix, Root(b), h) == Done(Root(b + [h]))
  {
    CollapsedAgrees(mode, ix, Root(b), h);
    assert Insert(ix, Root(b), h) == Done(Root(b + [h]));
  }

  /** The driver's next item goes to the end of the root bucket while the
      bucket stays below the burst limit. */
  lemma PushLast(mode: Mode, ix: Indexing, b: seq<Item>, a: seq<Item>, h: Item)
    requires Valid(Root(b)) && |b| + 1 < BurstLimit && |h| > 0 && IsAlnum(h[0])
    ensures Valid(Root(b + [h]))
    ensures InsertAll(mode, ix, Root(b), a + [h]) == InsertAll(mode, ix, Root(b + [h]), a)
  {
    RootPush(mode, ix, b, h);
    InsertAllLast(mode, ix, Root(b), a, h);
  }

  /** `m` nines, popped first, fill the root bucket and `h` joins them. */
  lemma FillPush(mode: Mode, ix: Indexing, m: nat, a: seq<Item>, h: Item)
    requires m + 1 < BurstLimit && |h| > 0 && IsAlnum(h[0])
    ensures Valid(Root(Nines(m) + [h]))
    ensures InsertAll(mode, ix, New(0), a + [h] + Nines(m)) == InsertAll(mode, ix, Root(Nines(m) + [h]), a)
  {
    NinesFill(mode, ix, m);
    InsertAllAppend(mode, ix, New(0), a + [h], Nines(m));
    PushLast(mode, ix, Nines(m), a, h);
  }

  /** The nines, popped first, fill the root bucket and `"A"` joins them. */
  lemma CollisionFill(mode: Mode, m: nat)
    requires m + 2 == BurstLimit
    ensures Valid(Root(Nines(m) + [[65]]))
    ensures InsertAll(mode, LookupAlpha, New(0), CollisionInput(m))
         == InsertAll(mode, LookupAlpha, Root(Nines(m) + [[65]]), [[57]])
  {
    FillPush(mode, LookupAlpha, m, [[57]], [65]);
    PairPrefix([57], [65], Nines(m));
  }

  lemma PairPrefix(x: Item, y: Item, rest: seq<Item>)
    ensures [x] + [y] + rest == [x, y] + rest
  {
    assert [x] + [y] == [x, y];
  }

  /** The leading `"9"`, popped last, bursts the root: the children `t`
      are fresh and the bucket is re-inserted from its end. */
  lemma CollisionBursts(mode: Mode, m: nat, t: seq<TrieNode>)
    requires m + 2 == BurstLimit && t == NewChildren(0)
    ensures Valid(TrieNode(0, [], Burst(t)))
    ensures InsertAll(mode, LookupAlpha, New(0), CollisionInput(m))
         == Distribute(LookupAlpha, TrieNode(0, [], Burst(t)), Nines(m) + [[65]] + [[57]])
  {
    CollisionFill(mode, m);
    RootBurstStep(mode, LookupAlpha, Nines(m) + [[65]], [57], t);
  }

  /** Under the 127-entry table, `"9"` or `"A"` popped off the end of the
      bucket joins the matches of child 9 of a burst root. */
  lemma MatchStep(t: seq<TrieNode>, ms: seq<Item>, c: nat, rest: seq<Item>)
    requires |t| == Children && ValidKids(t, 0) && t[9] == TrieNode(1, ms, Collapsed([]))
    requires (c == 57 || c == 65) && forall y | y in rest :: |y| > 0
    ensures Valid(TrieNode(0, [], Burst(t)))
    ensures ValidKids(t[9 := TrieNode(1, ms + [[c]], Collapsed([]))], 0)
    ensures Distribute(LookupAlpha, TrieNode(0, [], Burst(t)), rest + [[c]])
         == Distribute(LookupAlpha, TrieNode(0, [], Burst(t[9 := TrieNode(1, ms + [[c]], Collapsed([]))])), rest)
  {
    BurstRootOne(LookupAlpha, t, c, 9);
    DistributeLast(LookupAlpha, TrieNode(0, [], Burst(t)), rest, [c]);
    ValidUpdate(t, 9, TrieNode(1, ms + [[c]], Collapsed([])), 0);
  }

  /** Two of `"9"` and `"A"`, popped off the end of the bucket, join the
      matches of child 9 of a burst root in popping order. */
  lemma MatchTwo(t: seq<TrieNode>, ms: seq<Item>, c: nat, d: nat, rest: seq<Item>)
    requires |t| == Children && ValidKids(t, 0) && t[9] == TrieNode(1, ms, Collapsed([]))
    requires (c == 57 || c == 65) && (d == 57 || d == 65) && forall y | y in rest :: |y| > 0
    ensures Valid(TrieNode(0, [], Burst(t)))
    ensures ValidKids(t[9 := TrieNode(1, ms + [[c], [d]], Collapsed([]))], 0)
    ensures Distribute(LookupAlpha, TrieNode(0, [], Burst(t)), rest + [[d]] + [[c]])
         == Distribute(LookupAlpha, TrieNode(0, [], Burst(t[9 := TrieNode(1, ms + [[c], [d]], Collapsed([]))])), rest)
  {
    var c1 := TrieNode(1, ms + [[c]], Collapsed([]));
    var c2 := TrieNode(1, ms + [[c], [d]], Collapsed([]));
    assert forall y | y in rest + [[d]] :: y in rest || y == [d];
    MatchStep(t, ms, c, rest + [[d]]);
    assert ms + [[c]] + [[d]] == ms + [[c], [d]];
    MatchStep(t[9 := c1], ms + [[c]], d, rest);
    assert t[9 := c1][9 := c2] == t[9 := c2];
  }

  /** The burst re-inserts `"9"`, then `"A"`, then the nines, all into the
      matches of child 9. */
  lemma CollisionDistribute(m: nat, t: seq<TrieNode>)
    requires t == NewChildren(0)
    ensures Distribute(LookupAlpha, TrieNode(0, [], Burst(t)), Nines(m) + [[65]] + [[57]])
         == Done(TrieNode(0, [], Burst(t[9 := TrieNode(1, CollisionInput(m), Collapsed([]))])))
  {
    var c2 := TrieNode(1, [[57], [65]], Collapsed([]));
    var c3 := TrieNode(1, CollisionInput(m), Collapsed([]));
    FreshFacts(t, 0);
    NonEmptyNines([], m);
    assert [] + Nines(m) == Nines(m) && [] + [[57], [65]] == [[57], [65]];
    MatchTwo(t, [], 57, 65, Nines(m));
    DistributeNines([[57], [65]], t[9 := c2], m);
    assert t[9 := c2][9 := c3] == t[9 := c3];
  }

  /** Under the 127-entry table the collision input bursts the root into a
      single used child, 9, whose matches are the items in input order. */
  lemma CollisionTrie(mode: Mode, m: nat, t: seq<TrieNode>)
    requires m + 2 == BurstLimit && t == NewChildren(0)
    ensures InsertAll(mode, LookupAlpha, New(0), CollisionInput(m))
         == Done(TrieNode(0, [], Burst(t[9 := TrieNode(1, CollisionInput(m), Collapsed([]))])))
  {
    CollisionBursts(mode, m, t);
    CollisionDistribute(m, t);
  }

  /** Sorting the collision input yields the nines, then `"A"`. */
  lemma CollisionSorted(m: nat)
    ensures Sort(CollisionInput(m)) == Nines(m + 1) + [[65]]
  {
    var input := CollisionInput(m);
    var r := Nines(m + 1) + [[65]];
    assert Sorted(r) by {
      forall i, j | 0 <= i < j < |r|
        ensures Le(r[i], r[j])
      {
        assert r[i] == [57];
      }
    }
    assert Nines(m + 1) == [[57]] + Nines(m);
    assert input == [[57]] + ([[65]] + Nines(m));
    assert r == [[57]] + (Nines(m) + [[65]]);
    assert multiset([[65]] + Nines(m)) == multiset(Nines(m) + [[65]]);
    assert multiset(r) == multiset(input);
    SortIsUnique(input, r);
  }

  /** Merging fresh children with only child 9 holding the matches `ms`
      reads `ms`. */
  lemma MergeChildNine(ms: seq<Item>, t: seq<TrieNode>)
    requires t == NewChildren(0)
    ensures Merge(TrieNode(0, [], Burst(t[9 := TrieNode(1, ms, Collapsed([]))]))) == ms
  {
    var c := TrieNode(1, ms, Collapsed([]));
    MergeAllOne(t, 1, 9, c);
    assert Sort([]) == [];
    assert Merge(c) == ms + [];
  }

  /** Under the 127-entry table `'A'` and `"9"` share child 9, whose
      matches keep insertion order, so `"9"`, `"A"` and 8190 more nines
      come back in input order, with `"A"` ahead of nines, from every
      insert path; with the corrected table the same input comes out
      sorted. */
  lemma CollisionMisorders(mode: Mode, m: nat)
    requires m + 2 == BurstLimit
    ensures AlphaSort(mode, LookupAlpha, CollisionInput(m)) == Done(CollisionInput(m))
    ensures !Sorted(CollisionInput(m))
    ensures AlphaSort(mode, Corrected, CollisionInput(m)) == Done(Nines(m + 1) + [[65]])
  {
    CollisionLookup(mode, m);
    CollisionCorrected(mode, m);
    var input := CollisionInput(m);
    assert !Le(input[1], input[2]);
  }

  lemma CollisionLookup(mode: Mode, m: nat)
    requires m + 2 == BurstLimit
    ensures AlphaSort(mode, LookupAlpha, CollisionInput(m)) == Done(CollisionInput(m))
  {
    CollisionTrie(mode, m, NewChildren(0));
    MergeChildNine(CollisionInput(m), NewChildren(0));
  }

  lemma CollisionCorrected(mode: Mode, m: nat)
    ensures AlphaSort(mode, Corrected, CollisionInput(m)) == Done(Nines(m + 1) + [[65]])
  {
    var input := CollisionInput(m);
    forall y | y in input
      ensures Alnum(y)
    {
    }
    CorrectedSortsAlnum(mode, input);
    CollisionSorted(m);
  }

  /** The collision input back to front: `m` nines, `"A"`, then `"9"`.
      A driver that takes the items front to back sees the collision input
      as the model's driver sees this sequence. */
  function CollisionReversed(m: nat): (r: seq<Item>)
    ensures |r| == m + 2 && forall i | 0 <= i < m + 2 :: r[i] == CollisionInput(m)[m + 1 - i]
  {
    Nines(m) + [[65], [57]]
  }

  /** Items of a prefix that are not empty stay so with nines appended. */
  lemma NonEmptyNines(pre: seq<Item>, k: nat)
    requires forall y | y in pre :: |y| > 0
    ensures forall y | y in pre + Nines(k) :: |y| > 0
  {
    forall y | y in pre + Nines(k)
      ensures |y| > 0
    {
      if y !in pre {
        var i :| 0 <= i < k && Nines(k)[i] == y;
      }
    }
  }

  /** Nines popped off the end of the bucket all join the matches of
      child 9 of a burst root, ahead of what is left. */
  lemma {:induction false} DistributeNinesOver(pre: seq<Item>, ms: seq<Item>, t: seq<TrieNode>, k: nat)
    requires |t| == Children && ValidKids(t, 0) && t[9] == TrieNode(1, ms, Collapsed([]))
    requires forall y | y in pre :: |y| > 0
    ensures Valid(TrieNode(0, [], Burst(t)))
    ensures ValidKids(t[9 := TrieNode(1, ms + Nines(k), Collapsed([]))], 0)
    ensures Distribute(LookupAlpha, TrieNode(0, [], Burst(t)), pre + Nines(k))
         == Distribute(LookupAlpha, TrieNode(0, [], Burst(t[9 := TrieNode(1, ms + Nines(k), Collapsed([]))])), pre)
    decreases k
  {
    if k == 0 {
      assert pre + Nines(0) == pre && ms + Nines(0) == ms;
      assert t[9 := t[9]] == t;
    } else {
      var rest := pre + Nines(k - 1);
      NonEmptyNines(pre, k - 1);
      NinesLast(ms, k, k - 1);
      assert rest + [[57]] == pre + Nines(k);
      MatchStep(t, ms, 57, rest);
      var c := TrieNode(1, ms + [[57]], Collapsed([]));
      var c' := TrieNode(1, ms + Nines(k), Collapsed([]));
      DistributeNinesOver(pre, ms + [[57]], t[9 := c], k - 1);
      assert t[9 := c][9 := c'] == t[9 := c'];
    }
  }

  /** The first of two alphanumeric items popped into a fresh root starts
      its bucket. */
  lemma PushFirst(mode: Mode, ix: Indexing, x: Item, y: Item)
    requires |x| > 0 && IsAlnum(x[0])
    ensures Valid(Root([x]))
    ensures InsertAll(mode, ix, New(0), [y, x]) == InsertAll(mode, ix, Root([x]), [y])
  {
    assert New(0) == Root([]) && [y, x] == [y] + [x];
    PushLast(mode, ix, [], [y], x);
    assert [] + [x] == [x];
  }

  /** The second one joins it, and the bucket holds both in popping order. */
  lemma PushSecond(mode: Mode, ix: Indexing, x: Item, y: Item)
    requires |x| > 0 && IsAlnum(x[0]) && |y| > 0 && IsAlnum(y[0])
    ensures Valid(Root([x, y]))
    ensures InsertAll(mode, ix, Root([x]), [y]) == Done(Root([x, y]))
  {
    RootValid([x]);
    assert [y] == [] + [y] && [x] + [y] == [x, y];
    PushLast(mode, ix, [x], [], y);
  }

  /** Popped from the end, `"9"` and then `"A"` go first into the root
      bucket. */
  lemma ReversedPair(mode: Mode)
    ensures Valid(Root([[57], [65]]))
    ensures InsertAll(mode, LookupAlpha, New(0), [[65], [57]]) == Done(Root([[57], [65]]))
  {
    PushFirst(mode, LookupAlpha, [57], [65]);
    PushSecond(mode, LookupAlpha, [57], [65]);
  }

  /** After `"9"` and `"A"`, the nines of the reversed input go into the
      root bucket. */
  lemma ReversedStart(mode: Mode, m: nat)
    ensures Valid(Root([[57], [65]]))
    ensures InsertAll(mode, LookupAlpha, New(0), CollisionReversed(m))
         == InsertAll(mode, LookupAlpha, Root([[57], [65]]), Nines(m))
  {
    ReversedPair(mode);
    InsertAllAppend(mode, LookupAlpha, New(0), Nines(m), [[65], [57]]);
  }

  /** All nines but the one at the front follow into the bucket, up to one
      short of the burst limit. */
  lemma ReversedFill(mode: Mode, m: nat)
    requires m + 2 == BurstLimit
    ensures Valid(Root([[57], [65]] + Nines(m - 1)))
    ensures InsertAll(mode, LookupAlpha, Root([[57], [65]]), Nines(m))
         == InsertAll(mode, LookupAlpha, Root([[57], [65]] + Nines(m - 1)), [[57]])
  {
    var ix := LookupAlpha;
    var b := [[57], [65]];
    var k := m - 1;
    RootValid(b);
    NinesLast([], m, k);
    assert Nines(m) == [[57]] + Nines(k);
    InsertAllAppend(mode, ix, Root(b), [[57]], Nines(k));
    NinesAlnum(k);
    InsertAllAgrees(mode, ix, Root(b), Nines(k));
    FillNines(ix, b, k);
  }

  /** An alphanumeric item that fills the root bucket to the burst limit
      bursts the root: the children `t` are fresh and the bucket is
      re-inserted from its end. */
  lemma RootBurstStep(mode: Mode, ix: Indexing, b: seq<Item>, h: Item, t: seq<TrieNode>)
    requires Valid(Root(b)) && |b| + 1 == BurstLimit && |h| > 0 && IsAlnum(h[0])
    requires t == NewChildren(0)
    ensures Valid(TrieNode(0, [], Burst(t)))
    ensures InsertAll(mode, ix, Root(b), [h]) == Distribute(ix, TrieNode(0, [], Burst(t)), b + [h])
  {
    CollapsedAgrees(mode, ix, Root(b), h);
    RootValid(b + [h]);
    FreshFacts(t, 0);
    assert Insert(ix, Root(b), h) == BurstNode(ix, Root(b + [h]));
    InsertAllLast(mode, ix, Root(b), [], h);
    assert [] + [h] == [h];
  }

  /** The nine at the front, popped last, bursts the root. */
  lemma ReversedBursts(mode: Mode, m: nat, t: seq<TrieNode>)
    requires m + 2 == BurstLimit && t == NewChildren(0)
    ensures Valid(TrieNode(0, [], Burst(t)))
    ensures InsertAll(mode, LookupAlpha, New(0), CollisionReversed(m))
         == Distribute(LookupAlpha, TrieNode(0, [], Burst(t)), [[57], [65]] + Nines(m))
  {
    var pre := [[57], [65]];
    var full := pre + Nines(m - 1);
    ReversedStart(mode, m);
    ReversedFill(mode, m);
    RootBurstStep(mode, LookupAlpha, full, [57], t);
    NinesSnoc(pre, m - 1);
  }

  /** One more nine at the end of a prefix and `k` nines. */
  lemma NinesSnoc(pre: seq<Item>, k: nat)
    ensures pre + Nines(k) + [[57]] == pre + Nines(k + 1)
  {
    assert Nines(k + 1) == Nines(k) + [[57]];
  }

  /** The burst re-inserts the nines, then `"A"`, then `"9"`, all into the
      matches of child 9. */
  lemma ReversedDistribute(m: nat, t: seq<TrieNode>)
    requires t == NewChildren(0)
    ensures Distribute(LookupAlpha, TrieNode(0, [], Burst(t)), [[57], [65]] + Nines(m))
         == Done(TrieNode(0, [], Burst(t[9 := TrieNode(1, CollisionReversed(m), Collapsed([]))])))
  {
    var c1 := TrieNode(1, Nines(m), Collapsed([]));
    var c3 := TrieNode(1, CollisionReversed(m), Collapsed([]));
    FreshFacts(t, 0);
    assert [] + Nines(m) == Nines(m);
    DistributeNinesOver([[57], [65]], [], t, m);
    assert [[57], [65]] == [] + [[57]] + [[65]];
    MatchTwo(t[9 := c1], Nines(m), 65, 57, []);
    assert t[9 := c1][9 := c3] == t[9 := c3];
  }

  /** The collision input also misorders when taken front to back: its
      reverse comes back in its own order under the 127-entry table, with
      `"A"` ahead of the last `"9"`, on every insert path. */
  lemma CollisionMisordersReversed(mode: Mode, m: nat)
    requires m + 2 == BurstLimit
    ensures AlphaSort(mode, LookupAlpha, CollisionReversed(m)) == Done(CollisionReversed(m))
    ensures !Sorted(CollisionReversed(m))
  {
    var t := NewChildren(0);
    ReversedBursts(mode, m, t);
    ReversedDistribute(m, t);
    MergeChildNine(CollisionReversed(m), t);
    var r := CollisionReversed(m);
    assert !Le(r[m], r[m + 1]);
  }

  /** The letter bursting a root under the 62-entry table. */
  lemma LetterStep(mode: Mode, m: nat, t: seq<TrieNode>)
    requires m + 1 == BurstLimit && t == NewChildren(0)
    ensures InsertAll(mode, ToAlphanumeric, New(0), [[97]] + Nines(m)) == OutOfBounds(Children, 97)
  {
    var root := TrieNode(0, [], Burst(t));
    DriveToBurst(mode, ToAlphanumeric, [97], m, t);
    DistributeLast(ToAlphanumeric, root, Nines(m), [97]);
    LetterChild(t);
  }

  /** A fresh burst root looks `'a'` up past the 62-entry table. */
  lemma LetterChild(t: seq<TrieNode>)
    requires t == NewChildren(0)
    ensures Valid(TrieNode(0, [], Burst(t)))
    ensures BurstInsert(ToAlphanumeric, TrieNode(0, [], Burst(t)), [97]) == OutOfBounds(Children, 97)
  {
    FreshFacts(t, 0);
  }

  /** The 62-entry table of alphanumeric.rs: once a bucket of 8191 nines
      bursts with a letter in it, the letter indexes past the table. */
  lemma LetterOutOfBounds(mode: Mode, m: nat)
    requires m + 1 == BurstLimit
    ensures AlphaSort(mode, ToAlphanumeric, [[97]] + Nines(m)) == OutOfBounds(Children, 97)
  {
    LetterStep(mode, m, NewChildren(0));
  }

  /** `"a!"` bursting a root under the 127-entry table. */
  lemma UnwrapStep(mode: Mode, m: nat, t: seq<TrieNode>)
    requires m + 1 == BurstLimit && t == NewChildren(0)
    ensures InsertAll(mode, LookupAlpha, New(0), [[97, 33]] + Nines(m)) == UnwrapOnErr(33)
  {
    var root := TrieNode(0, [], Burst(t));
    DriveToBurst(mode, LookupAlpha, [97, 33], m, t);
    DistributeLast(LookupAlpha, root, Nines(m), [97, 33]);
    UnwrapChild(t);
  }

  /** Child `'a'` of a fresh burst root answers `Err('!')` for `"a!"`. */
  lemma UnwrapChild(t: seq<TrieNode>)
    requires t == NewChildren(0)
    ensures Valid(TrieNode(0, [], Burst(t)))
    ensures BurstInsert(LookupAlpha, TrieNode(0, [], Burst(t)), [97, 33]) == Err(33)
  {
    FreshFacts(t, 0);
    assert Insert(LookupAlpha, t[35], [97, 33]) == Err(33);
  }

  /** The checked insert looks at one byte per level, so `"a!"` enters the
      root bucket beside 8191 nines; when the bucket bursts, child `'a'`
      answers `Err('!')` and the `unwrap` panics, under every insert path. */
  lemma BurstUnwrapPanics(mode: Mode, m: nat)
    requires m + 1 == BurstLimit
    ensures AlphaSort(mode, LookupAlpha, [[97, 33]] + Nines(m)) == UnwrapOnErr(33)
  {
    UnwrapStep(mode, m, NewChildren(0));
  }
}
