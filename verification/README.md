# Burst-trie string sorts, bucket sort and insertion sort

This project models the sorting core of the `rust-sorts` repository in Dafny and proves what each sort promises.

A **burst trie** is a trie in which every node starts as an unsorted container of items. Once the container holds a fixed number of items it *bursts*: it becomes a node with one child per possible unit (byte, character or alphanumeric symbol) at the node's depth, and the items are re-inserted one level down. Merging walks the trie in child order. It emits the items that end at each node, then each sorted container, and so produces the items in lexicographic order.

The repository has five burst tries:

- **The generic trie** (`BurstTrie`, burstsort/src/trie.rs):
  - parameterised by a `BurstConfig`;
  - a `List` bursts once it holds more than `burst_limit` items;
  - it bursts into `classes` children.
- **The dense byte-table trie** (`ByteTrie`, burstsort/src/byte.rs and its `String` twin src/burst_trie/tabular.rs):
  - a `Bucket` bursts at 8192 items into a `Table` of 255 children.
- **The sparse character trie** (`UnicodeTrie`, burstsort/src/unicode.rs and its `String` twin src/burst_trie/dynamic.rs):
  - a `Collapsed` list bursts at 8192 items;
  - the result is a vector of `(char, child)` pairs, kept in ascending order by binary search.
- **The alphanumeric tries** (`AlphaTrie`, burstsort/src/alphanumeric/mod.rs and the older burstsort/src/alphanumeric.rs):
  - a burst node has 62 children, chosen through a byte-to-index table (`AlphaTable`);
  - a checked insert answers `Err(byte)` for a byte that is not ASCII alphanumeric;
  - mod.rs adds an unchecked insert, and alphanumeric.rs a silent insert that drops such items.

The project also models two simple sorts:

- **Bucket sort** (`Bucket`, src/bucket.rs): each element is distributed by a key into buckets, the buckets are written back, and an insertion sort finishes the job. A key past the last bucket is reported as the error `OutOfRange(element)`.
- **Insertion sort** (`Insertion`, src/insertion.rs).

The model works as follows:

- **Items.** An item is a `seq<nat>`: the bytes of a `String`, or the scalar values of a `str`. `Lex.Le` is the lexicographic order Rust uses for both. `Lex.Sort` is a reference sort that stands for the standard library's `sort_unstable`. `Lex.SortIsUnique` shows that any ascending permutation of the input equals it, so "the output equals `sort_unstable`" is stated as `== Sort(data)`.
- **Operations.** Every node operation is a pure function on an immutable datatype.
- **Failures.**
  - Panics that the source can reach are explicit outcomes: indexing past a table (`OutOfBounds`) and the `unwrap` of an `Err` during a burst (`UnwrapOnErr`).
  - Panics that a trie's own invariant rules out are `requires` clauses.
- **Contracts.** Insert and merge contracts speak about ghost views of a node:
  - `Items`: the multiset of stored items;
  - `Valid`: what indexing needs;
  - `Wf`: every node lies on the path of units leading to it.
- **The sort theorem.** Each driver's output is a permutation (from `Items`), it is ascending (from `Wf`), and therefore it equals the reference sort.

## Model

| member | source | states |
|---|---|---|
| Insertion.Swap | src/insertion.rs:6 | exchanges the two neighbours and leaves every other position and the multiset of elements unchanged |
| Insertion.InsertionSort | src/insertion.rs:1-11 | the result is the ascending permutation of the input (equal to the reference sort, as the test against `sort_unstable` expects); an already ascending input comes back unchanged |
| Bucket.MakeBuckets | src/bucket.rs:42-60 | succeeds exactly when every key is below the bucket count; bucket `k` then holds the elements with key `k` in input order, and the buckets together hold the input's multiset; otherwise the error carries the first element whose key is out of range |
| Bucket.DumpBuckets | src/bucket.rs:62-73 | the slice begins with the buckets laid end to end and keeps its old contents after them |
| Bucket.BucketSort | src/bucket.rs:28-40 | `Ok` exactly when every key fits; the slice is then the reference sort of its input, whatever the key; on `OutOfRange` the slice is untouched and the error names the first element past the buckets |
| Bucket.FirstByteBucketSort | src/bucket.rs:79-97 | with the first-byte key and 256 buckets every byte string finds a bucket, and the output equals the reference sort |
| AlphaTable.MakeAlphaTable | burstsort/src/alphanumeric/alpha_table.rs:4-18 | the table has 127 entries: each alphanumeric byte holds `precompute_index` of it and every other byte holds 0 |
| AlphaTable.PrecomputeIndex | burstsort/src/alphanumeric/alpha_table.rs:20-32 | every alphanumeric byte maps to one of the 62 children |
| AlphaTable.PrecomputeRanges | burstsort/src/alphanumeric/alpha_table.rs:20-32 | digits take 0..9, uppercase 9..34 and lowercase 35..60, not the 10..35 and 36..61 of the comments |
| AlphaTable.PrecomputeMonotone | burstsort/src/alphanumeric/alpha_table.rs:20-32 | the index never decreases as the byte grows |
| AlphaTable.PrecomputeCollision | burstsort/src/alphanumeric/alpha_table.rs:20-32 | two different alphanumeric bytes share an index if and only if they are `'9'` and `'A'` |
| AlphaTable.LookupAlphaIndex | burstsort/src/alphanumeric/alpha_table.rs:34-37 | a byte below 127 finds its table entry (the index if alphanumeric, 0 otherwise); any larger byte indexes past the 127-entry table |
| AlphaTable.ComputeIndex | burstsort/src/alphanumeric.rs:215-227 | `compute_index` sends digits to 0..9 (`c - 48`), uppercase to 9..34 (`c - 56`) and lowercase to 35..60 (`c - 62`), all below 62, one short of its comments for letters; it agrees with `precompute_index` on every alphanumeric byte |
| AlphaTable.MakeConstTable | burstsort/src/alphanumeric.rs:199-213 | the table has 62 entries; only the digits among positions 0..61 get their index, every other entry is 0 |
| AlphaTable.ToAlphanumericIndex | burstsort/src/alphanumeric.rs:229-233 | a digit finds its value 0..9; every letter indexes past the 62-entry table |
| AlphaTable.CorrectedIndex | burstsort/src/alphanumeric/alpha_table.rs:22-31 | the index the comments describe maps every alphanumeric byte to one of the 62 children |
| AlphaTable.CorrectedStrict | burstsort/src/alphanumeric/alpha_table.rs:22-31 | the index the comments describe keeps byte order strictly, so no two alphanumeric bytes share a child |
| AlphaTable.CorrectedLookup | burstsort/src/alphanumeric/alpha_table.rs:34-37 | a 127-entry table built from the corrected index: alphanumeric bytes find their child, other bytes below 127 find 0, larger bytes index past the end |
| AlphaTable.AlphabetRoutes | burstsort/src/alphanumeric/alpha_table.rs:34-37 | a byte of a table's alphabet is alphanumeric, is looked up without panic, lands below 62, and is the byte its child stands for |
| AlphaTable.AlnumInRange | burstsort/src/alphanumeric/alpha_table.rs:34-37 | the 127-entry and corrected tables send every alphanumeric byte to one of the 62 children |
| BurstTrie.Root | burstsort/src/trie.rs:39-47 | the root is an empty list node on the empty path, holding nothing |
| BurstTrie.Insert | burstsort/src/trie.rs:49-96 | insert keeps the node's level and keeps the node valid: list items reach past the level and every burst table has `classes` children one level down |
| BurstTrie.InsertChild | burstsort/src/trie.rs:84-86 | handing an item to `table[radix]` keeps the table's size and validity |
| BurstTrie.BurstList | burstsort/src/trie.rs:64-81 | a burst builds exactly `classes` valid children one level down |
| BurstTrie.Distribute | burstsort/src/trie.rs:76-79 | the drain loop keeps the table's size and validity |
| BurstTrie.InsertRoutes | burstsort/src/trie.rs:49-96 | an item without a unit at the level joins the matches; a list appends it and bursts exactly when it grows past `burst_limit`; a burst node gives it to child `x[level]` alone |
| BurstTrie.InsertItems | burstsort/src/trie.rs:49-96 | insert adds exactly its item to the node's contents |
| BurstTrie.DistributeItems | burstsort/src/trie.rs:76-79 | the drain loop moves every list item into the table, losing and duplicating none |
| BurstTrie.BurstListItems | burstsort/src/trie.rs:64-81 | the burst table holds exactly the list's items |
| BurstTrie.InsertWf | burstsort/src/trie.rs:49-96 | an item on the node's path keeps every node on its own path (matches equal the path, child `k` extends it by `k`) |
| BurstTrie.Merge | burstsort/src/trie.rs:98-128 | merge emits every stored item exactly once |
| BurstTrie.MergeSorted | burstsort/src/trie.rs:98-128 | merge of a well-formed node is ascending, with or without `hint_long`, and stays on the node's path |
| BurstTrie.InsertAllItems | burstsort/src/tests.rs:14 | inserting every item of the input adds exactly the input to the trie's contents |
| BurstTrie.BurstSort | burstsort/src/tests.rs:3-18 | inserting every item into a fresh root and merging outputs a permutation of the input |
| BurstTrie.BurstSortIsSort | burstsort/src/tests.rs:20-37 | for every configuration whose `classes` covers the units, the output equals the reference sort |
| BurstTrie.ConfigIndependent | burstsort/src/trie.rs:7-17 | the tuning parameters change nothing but speed: any two configurations covering the units give the same output |
| ByteTrie.New | burstsort/src/byte.rs:23-30 | a new node at `offset` is a valid empty bucket holding nothing |
| ByteTrie.NewTable | burstsort/src/byte.rs:96-104 | a new table has `width` empty bucket children one offset down (255 in the source) |
| ByteTrie.Insert | burstsort/src/byte.rs:32-44 | a successful insert keeps the offset and the node valid |
| ByteTrie.TableInsert | burstsort/src/byte.rs:106-114 | a successful table insert keeps a table node at the same offset, valid |
| ByteTrie.Burst | burstsort/src/byte.rs:70-78 | a successful burst yields a valid table node at the bucket's offset |
| ByteTrie.Distribute | burstsort/src/byte.rs:73-75 | a successful pop loop keeps a valid table node at the same offset |
| ByteTrie.InsertRoutes | burstsort/src/byte.rs:106-114 | a bucket appends the item and becomes a `width`-child table exactly when it reaches 8192 items; a table node puts an item of length `offset` in its matches, panics on a byte past the table, and otherwise gives it to child `s[offset]` alone |
| ByteTrie.InsertItems | burstsort/src/byte.rs:32-44 | a successful insert adds exactly its item to the node's contents |
| ByteTrie.TableInsertItems | burstsort/src/byte.rs:106-114 | a successful table insert adds exactly its item |
| ByteTrie.BurstItems | burstsort/src/byte.rs:70-78 | a successful burst table holds exactly the bucket's items |
| ByteTrie.DistributeItems | burstsort/src/byte.rs:73-75 | a successful pop loop moves every bucket item into the table |
| ByteTrie.InsertWf | burstsort/src/byte.rs:32-44 | when every byte indexes the table, an item on the node's path goes in without panic and keeps every node on its path |
| ByteTrie.Merge | burstsort/src/byte.rs:46-58 | merge emits every stored item exactly once |
| ByteTrie.MergeSorted | burstsort/src/byte.rs:80-92 | merge of a well-formed node, whose bucket is sorted on suffixes from the offset, is ascending and stays on the node's path |
| ByteTrie.TableMergeSorted | burstsort/src/byte.rs:116-130 | a table's matches followed by its children in byte order are ascending |
| ByteTrie.InsertAllItems | burstsort/src/sorts.rs:4-6 | when the pop loop finishes without panic, the trie holds exactly what it held plus every popped item |
| ByteTrie.BurstSort | src/string.rs:3-11 | when the pop loop and merge finish, the output is a permutation of the input |
| ByteTrie.TabularBurstSort | burstsort/src/sorts.rs:1-9 | with tables of 255 children, a finished run outputs a permutation of the input |
| ByteTrie.BurstSortIsSort | src/burst_trie/tabular.rs:22-108 | when every byte indexes the table, the driver does not panic and returns the reference sort |
| ByteTrie.TabularSortsBelow255 | burstsort/src/sorts.rs:25-34 | as written, the driver sorts every input whose bytes are below 255, which includes every UTF-8 `String` |
| ByteTrie.CorrectedSortsAllBytes | burstsort/src/byte.rs:96-104 | with 256 children every byte string is sorted without panic |
| ByteTrie.Byte255Panics | burstsort/src/byte.rs:99 | 8192 copies of the byte string `[255]` make the 255-child trie index past its table, while 256 children sort them |
| UnicodeTrie.New | burstsort/src/unicode.rs:15-21 | a new node at `offset` is a valid empty collapsed node holding nothing |
| UnicodeTrie.Splice | burstsort/src/unicode.rs:101 | `Vec::insert` places the new pair at the position and shifts the rest up by one |
| UnicodeTrie.BinarySearch | burstsort/src/unicode.rs:94 | over ascending keys: found exactly when the character is a key, at its position; otherwise the position splits the keys into smaller and larger |
| UnicodeTrie.Insert | burstsort/src/unicode.rs:23-40 | insert keeps the offset and the node valid: collapsed items reach past the offset, the children's characters ascend strictly |
| UnicodeTrie.AddToBurstNode | burstsort/src/unicode.rs:90-104 | adding to a burst node keeps the characters strictly ascending and the children valid |
| UnicodeTrie.BurstList | burstsort/src/unicode.rs:42-55 | a burst yields children with strictly ascending characters; `unwrap` cannot fail |
| UnicodeTrie.Distribute | burstsort/src/unicode.rs:46-49 | the pop loop keeps the characters ascending and the children valid |
| UnicodeTrie.AddRoutes | burstsort/src/unicode.rs:90-104 | a found character leaves the keys alone and adds the item to that child only; a missing one is inserted between smaller and larger keys with a new child holding just the item |
| UnicodeTrie.InsertItems | burstsort/src/unicode.rs:23-40 | insert adds exactly its item to the node's contents |
| UnicodeTrie.AddItems | burstsort/src/unicode.rs:90-104 | adding to a burst node adds exactly the item to the children |
| UnicodeTrie.DistributeItems | burstsort/src/unicode.rs:42-55 | the burst moves every collapsed item into the children |
| UnicodeTrie.InsertWf | burstsort/src/unicode.rs:23-40 | an item on the node's path keeps every node on its path, with the child keyed `c` on path `p + [c]` |
| UnicodeTrie.AddWf | src/burst_trie/dynamic.rs:74-86 | adding to a burst node keeps every child on the path of its character |
| UnicodeTrie.Merge | burstsort/src/unicode.rs:57-71 | merge emits every stored item exactly once |
| UnicodeTrie.MergeSorted | src/burst_trie/dynamic.rs:57-71 | merge of a well-formed node (matches, sorted list or children in character order) is ascending and stays on the path |
| UnicodeTrie.InsertAllItems | burstsort/src/sorts.rs:14-16 | the pop loop adds exactly the popped items to the trie's contents |
| UnicodeTrie.DynamicBurstSort | burstsort/src/sorts.rs:11-19 | the driver outputs a permutation of its input |
| UnicodeTrie.DynamicBurstSortIsSort | burstsort/src/sorts.rs:36-45 | for every input the driver returns the reference sort |
| UnicodeTrie.SevenWords | burstsort/src/sorts.rs:47-66 | the seven words of the test come out in dictionary order |
| AlphaTrie.New | burstsort/src/alphanumeric/mod.rs:21-27 | a new node at `offset` is a valid empty collapsed node holding nothing |
| AlphaTrie.NewChildren | burstsort/src/alphanumeric/mod.rs:185-197 | a burst node starts with 62 empty collapsed children one offset down |
| AlphaTrie.Push | burstsort/src/alphanumeric/mod.rs:100-106 | a collapsed node stores an item with no byte at the offset in its matches and any other at the end of its bucket, adding exactly that item |
| AlphaTrie.Insert | burstsort/src/alphanumeric/mod.rs:30-45 | a byte at the offset that is not alphanumeric answers `Err` with that byte before anything is stored or burst; a successful checked insert keeps the offset and the node valid |
| AlphaTrie.BurstInsert | burstsort/src/alphanumeric/mod.rs:148-164 | a byte at the offset that is not alphanumeric answers `Err` with that byte; a successful insert into a burst node keeps it a valid burst node |
| AlphaTrie.BurstNode | burstsort/src/alphanumeric/mod.rs:128-139 | a burst never answers `Err`: an `Err` during re-insertion becomes the `unwrap` panic |
| AlphaTrie.Distribute | burstsort/src/alphanumeric/mod.rs:133-135 | the pop loop never answers `Err` and, when it finishes, leaves a valid burst node |
| AlphaTrie.InsertUnchecked | burstsort/src/alphanumeric/mod.rs:47-60 | the unchecked insert never answers `Err` and keeps the node valid |
| AlphaTrie.UncheckedRoutes | burstsort/src/alphanumeric/mod.rs:100-174 | a collapsed node appends any item longer than its offset to its bucket, alphanumeric or not, and bursts when the bucket reaches 8192; a burst node panics on a byte the table does not hold, so the 127-entry table panics on every byte from 127 on and sends any other non-alphanumeric byte to child 0, which gains exactly the item while no other child changes |
| AlphaTrie.UncheckedItems | burstsort/src/alphanumeric/mod.rs:47-60 | a successful unchecked insert adds exactly its item, whatever its bytes |
| AlphaTrie.InsertSilent | burstsort/src/alphanumeric.rs:43-56 | the silent insert never answers `Err` and keeps the node valid; an item whose byte at the offset is not alphanumeric leaves a burst node, and a collapsed node below the burst limit, exactly as it was |
| AlphaTrie.SilentItems | burstsort/src/alphanumeric.rs:96-104 | a successful silent insert either adds exactly its item or keeps the contents unchanged, and it keeps them only when some byte at or past the offset is not alphanumeric; such a byte at the offset always keeps them |
| AlphaTrie.InsertErr | burstsort/src/alphanumeric/mod.rs:86-98 | the checked insert answers `Err(c)` only for a non-alphanumeric byte `c` of the item at or past the offset, and always answers `Err(c)` when that byte sits at the offset itself |
| AlphaTrie.InsertItems | burstsort/src/alphanumeric/mod.rs:30-45 | a successful checked insert adds exactly its item |
| AlphaTrie.BurstNodeItems | burstsort/src/alphanumeric/mod.rs:128-139 | a successful burst keeps exactly the node's items, matches included |
| AlphaTrie.DistributeItems | burstsort/src/alphanumeric/mod.rs:133-135 | a successful pop loop moves every bucket item into the children |
| AlphaTrie.UncheckedAgrees | burstsort/src/alphanumeric/mod.rs:166-174 | on an item of alphanumeric bytes the unchecked insert does exactly what the checked one does |
| AlphaTrie.SilentAgrees | burstsort/src/alphanumeric.rs:164-174 | on an item of alphanumeric bytes the silent insert does exactly what the checked one does |
| AlphaTrie.InsertWithItems | burstsort/src/alphanumeric/mod.rs:30-60 | one insert adds exactly its item on the checked and unchecked paths; the silent path adds it or nothing |
| AlphaTrie.InsertAllItems | benchmarking/benches/burstsort-alphanumeric.rs:46-53 | when the pop loop finishes, the trie holds what it held plus every popped item on the checked and unchecked paths, and at most those items on the silent path |
| AlphaTrie.InsertAllAgrees | burstsort/src/alphanumeric/mod.rs:47-60 | on alphanumeric items, inserting all of them gives the same trie on every insert path |
| AlphaTrie.InsertWf | burstsort/src/alphanumeric/mod.rs:30-45 | an item of the table's alphabet on the node's path goes in without error or panic and keeps every node on its path |
| AlphaTrie.BurstInsertWf | burstsort/src/alphanumeric/mod.rs:148-164 | the same for a burst node: child `k` stays on the path extended by the byte it stands for |
| AlphaTrie.BurstNodeWf | burstsort/src/alphanumeric/mod.rs:128-139 | a well-formed bucket bursts without the `unwrap` panicking, into a well-formed burst node |
| AlphaTrie.Merge | burstsort/src/alphanumeric/mod.rs:62-71 | merge emits every stored item exactly once |
| AlphaTrie.MergeSorted | burstsort/src/alphanumeric/mod.rs:176-182 | merge of a well-formed node (matches, then children in index order) is ascending and stays on the path |
| AlphaTrie.InsertAllWf | burstsort/src/alphanumeric/mod.rs:30-45 | inserting items of the table's alphabet into a well-formed root never fails, keeps the root well formed, and adds exactly those items |
| AlphaTrie.AlphaSort | burstsort/src/alphanumeric/mod.rs:7-9 | a finished run over `make_trie()` outputs a permutation of its input on the checked and unchecked paths, and part of it on the silent path |
| AlphaTrie.AlphaSortIsSort | burstsort/src/alphanumeric/mod.rs:7-9 | on items of the table's alphabet, inserting all into `make_trie()` and merging returns the reference sort, on every insert path |
| AlphaTrie.LookupAlphaSortsWithoutA | burstsort/src/alphanumeric/alpha_table.rs:34-37 | the 127-entry table sorts every alphanumeric input that never uses `'A'` |
| AlphaTrie.CorrectedSortsAlnum | burstsort/src/alphanumeric/alpha_table.rs:22-31 | with the index the comments describe, every alphanumeric input is sorted on every insert path |
| AlphaTrie.CollisionMisorders | burstsort/src/alphanumeric/alpha_table.rs:27 | `"9"`, `"A"`, then 8190 copies of `"9"` comes back unsorted and in input order under the 127-entry table, because `'9'` and `'A'` share child 9, whose matches keep insertion order; the corrected table sorts it |
| AlphaTrie.CollisionMisordersReversed | burstsort/src/alphanumeric/alpha_table.rs:27 | the same input taken front to back (its reverse, under the pop-from-the-end driver) also comes back unsorted and in its own order, so the misordering does not depend on which end the driver pops from |
| AlphaTrie.LetterOutOfBounds | burstsort/src/alphanumeric.rs:229-233 | once a bucket holding `"a"` bursts, the 62-entry table is indexed at 97 and panics |
| AlphaTrie.BurstUnwrapPanics | burstsort/src/alphanumeric/mod.rs:133-135 | `"a!"` passes the one-byte check at the root, but when the root bursts, child `'a'` answers `Err('!')` and `unwrap` panics, on every insert path |

## Left out

- The parallel merge (`par_merge`, `merge_sorted`, `par_sort`, burstsort/src/trie.rs:130-183): it needs concurrency; it sorts the same lists that the sequential merge sorts.
- `initial_capacity` and the `reserve` calls: they only pre-size vectors. The field is kept in `BurstConfig` and has no effect.
- Stable vs unstable sorting (`merge` vs `merge_unstable`, `sort_by` vs `sort_unstable`): the two cannot differ here. Items on one node's path that compare equal on their suffixes are identical sequences, so one reference sort stands for both.
- The state of a trie after `merge`: the source drains its vectors into the target. The model returns the merged sequence and does not describe the emptied trie.
- The `Display` and `Error` impls of `BucketError` (src/bucket.rs:16-26): formatting only.
- Insertion.InsertionSort: modelled over items with a total order. The source takes any `PartialOrd` type, and the test uses `i64`; partial orders (NaN) are not modelled.
- Bucket.DumpBuckets: requires the buckets to fit in the slice. The source would panic on the range otherwise, but `bucket_sort` always meets this requirement.
- Bucket.BucketSort: the key is a total function to `nat`; `usize` width is not modelled.
- BurstTrie.Insert: requires every unit of the item to be below `classes`. The source would panic on `table[radix]` otherwise; that panic is a misconfiguration of the generic trie and is not modelled as an outcome.
- ByteTrie.Insert: requires the item to reach the node's offset. Every path from the root guarantees this; the source's `[offset..]` slicing would panic otherwise.
- The `burstsort` driver that burstsort/src/tests.rs calls: it is not part of this model. BurstTrie.BurstSort stands for it: insert every item into `TrieNode::root`, then merge.
- src/string.rs: it uses `crate::burst_trie::TrieNode`, whose module file is not part of this model. Its driver is modelled over the byte-table trie of src/burst_trie/tabular.rs, which has the same insert and burst.
- burstsort/src/sorts.rs calls `crate::tabular` and `crate::dynamic`. These are modelled by the byte-table trie (`ByteTrie`) and the character trie (`UnicodeTrie`).
- UTF-8 decoding: `chars().nth(offset)` is modelled on items that are already sequences of scalar values. Indices are unbounded integers; `usize` overflow is not modelled.
- The trait `AlphaNumericTrieNode` and its dynamic dispatch: modelled as functions over one node datatype. The 62-element `children` array is a sequence of length 62.
- The alphanumeric drivers `alphanumeric_sort` and `alphanumeric_silent_sort`: benchmarking/benches/burstsort-alphanumeric.rs:8,46,53 calls them, but their bodies are not part of this model. AlphaTrie.AlphaSort stands for them: it pops every item into `make_trie()` and merges, as the other drivers do. The bench unwraps the `Result` of `alphanumeric_sort`; AlphaSort likewise ends with the first `Err`.
- Insert paths and index tables are modelled as independent parameters (`Mode` and `Indexing`), so the model also covers pairings the source never builds. The source has four: burstsort/src/alphanumeric/mod.rs pairs the checked and the unchecked insert with `lookup_alpha_index` (`LookupAlpha`), and burstsort/src/alphanumeric.rs pairs the checked and the silent insert with `to_alphanumeric_index` (`ToAlphanumeric`). The silent insert over `LookupAlpha`, the unchecked insert over `ToAlphanumeric`, and every use of `Corrected` exist only in the model. Rows that say "on every insert path" or "in every mode" therefore cover these four pairings and more.
- The benches, binaries and benchmarking helpers: they are out of the sorting core.

## Findings

| source | as written | input that shows it | evidently intended | confidence | as-written member | corrected member |
|---|---|---|---|---|---|---|
| burstsort/src/byte.rs:99 | `TableNode::new` builds 255 children, so the byte value 255 indexes one past the table | 8192 copies of the byte string `[0xFF]` (a `Vec<u8>` item; a UTF-8 `String` never contains 0xFF) | one child per byte value, 256 in all | not executed; high for byte-slice items | ByteTrie.Byte255Panics | ByteTrie.CorrectedSortsAllBytes |
| burstsort/src/alphanumeric/alpha_table.rs:27 | uppercase starts at index 9 and lowercase at 35, one short of the comments, so `'9'` and `'A'` share child 9 and keep insertion order there | `"9"`, `"A"`, then 8190 copies of `"9"` (misordered whichever end the driver pops from, as AlphaTrie.CollisionMisordersReversed shows) | uppercase at 10..35 and lowercase at 36..61, as the comments say | not executed; high | AlphaTrie.CollisionMisorders | AlphaTrie.CorrectedSortsAlnum |
| burstsort/src/alphanumeric.rs:229-233 | `to_alphanumeric_index` reads a 62-entry table at the byte value, so every letter indexes past its end | `"a"` followed by 8191 copies of `"9"` | a table covering every ASCII byte, as in alpha_table.rs, with the corrected index | not executed; high | AlphaTrie.LetterOutOfBounds | AlphaTrie.CorrectedSortsAlnum |
