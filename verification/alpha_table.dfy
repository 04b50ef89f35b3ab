/** The byte-to-child index tables of the alphanumeric tries.

    burstsort/src/alphanumeric/alpha_table.rs builds a 127-entry table that
    maps every ASCII alphanumeric byte to a child of a 62-child burst node
    and every other byte to 0.  Its uppercase and lowercase offsets are one
    short of what its comments say, so `'9'` and `'A'` share child 9.
    burstsort/src/alphanumeric.rs builds the same map into a 62-entry
    table, which only reaches the digits: a letter indexes past its end. */
module AlphaTable {

  /** `TABLE_SIZE` of alpha_table.rs. */
  const TableSize: nat := 127

  /** The children of a burst node, and the length of the older table. */
  const Children: nat := 62

  predicate IsDigit(c: nat) { 48 <= c <= 57 }

  predicate IsUpper(c: nat) { 65 <= c <= 90 }

  predicate IsLower(c: nat) { 97 <= c <= 122 }

  /** `u8::is_ascii_alphanumeric`. */
  predicate IsAlnum(c: nat) { IsDigit(c) || IsUpper(c) || IsLower(c) }

  /** A table lookup: the entry found, or the panic of indexing a table of
      length `len` at `index`. */
  datatype Lookup = Index(value: nat) | OutOfRange(len: nat, index: nat)

  // ---------------------------------------------------------------------
  // alpha_table.rs

  /** `precompute_index`: digits from 0, uppercase from 9, lowercase from 35. */
  function PrecomputeIndex(c: nat): (r: nat)
    requires IsAlnum(c)
    ensures r < Children
  {
    if c < 65 then c - 48
    else if c < 97 then c - 65 + 9
    else c - 97 + 9 + 26
  }

  /** The value `make_alpha_table` stores at position `c`. */
  function AlphaEntry(c: nat): nat
  {
    if IsAlnum(c) then PrecomputeIndex(c) else 0
  }

  /** `ALPHANUMERIC_INDEX_TABLE`. */
  function AlphaTable(): seq<nat>
  {
    seq(TableSize, c requires 0 <= c => AlphaEntry(c))
  }

  /** `make_alpha_table`: the `while` loop over the 127 positions. */
  method MakeAlphaTable() returns (t: seq<nat>)
    ensures |t| == TableSize
    ensures forall c | 0 <= c < TableSize :: IsAlnum(c) ==> t[c] == PrecomputeIndex(c)
    ensures forall c | 0 <= c < TableSize :: !IsAlnum(c) ==> t[c] == 0
    ensures t == AlphaTable()
  {
    t := seq(TableSize, _ => 0);
    var i := 0;
    while i < TableSize
      invariant 0 <= i <= TableSize && |t| == TableSize
      invariant forall c | 0 <= c < i :: t[c] == AlphaEntry(c)
      invariant forall c | i <= c < TableSize :: t[c] == 0
    {
      if IsAlnum(i) {
        t := t[i := PrecomputeIndex(i)];
      }
      i := i + 1;
    }
  }

  /** `lookup_alpha_index`: the table entry, or a panic past position 126. */
  function LookupAlphaIndex(c: nat): (r: Lookup)
    ensures c < TableSize && IsAlnum(c) ==> r == Index(PrecomputeIndex(c))
    ensures c < TableSize && !IsAlnum(c) ==> r == Index(0)
    ensures c >= TableSize ==> r == OutOfRange(TableSize, c)
  {
    var t := AlphaTable();
    if c < |t| then Index(t[c]) else OutOfRange(|t|, c)
  }

  /** Digits take 0..9, uppercase 9..34 and lowercase 35..60, in byte order. */
  lemma PrecomputeRanges(c: nat)
    requires IsAlnum(c)
    ensures IsDigit(c) ==> PrecomputeIndex(c) <= 9 && PrecomputeIndex(c) == c - 48
    ensures IsUpper(c) ==> 9 <= PrecomputeIndex(c) <= 34 && PrecomputeIndex(c) + 56 == c
    ensures IsLower(c) ==> 35 <= PrecomputeIndex(c) <= 60 && PrecomputeIndex(c) + 62 == c
  {
  }

  /** The index never decreases as the byte grows. */
  lemma PrecomputeMonotone(a: nat, b: nat)
    requires IsAlnum(a) && IsAlnum(b) && a <= b
    ensures PrecomputeIndex(a) <= PrecomputeIndex(b)
  {
  }

  /** Two different alphanumeric bytes share an index exactly when they are
      `'9'` and `'A'`. */
  lemma PrecomputeCollision(a: nat, b: nat)
    requires IsAlnum(a) && IsAlnum(b) && a < b
    ensures PrecomputeIndex(a) == PrecomputeIndex(b) <==> a == 57 && b == 65
  {
  }

  // ---------------------------------------------------------------------
  // alphanumeric.rs

  /** `compute_index`, on bytes: digits take 0..9, uppercase 9..34 and
      lowercase 35..60, the same one-short layout as `precompute_index`. */
  function ComputeIndex(c: nat): (r: nat)
    requires IsAlnum(c)
    ensures r < Children
    ensures IsDigit(c) ==> r == c - 48
    ensures IsUpper(c) ==> 9 <= r <= 34 && r + 56 == c
    ensures IsLower(c) ==> 35 <= r <= 60 && r + 62 == c
    ensures r == PrecomputeIndex(c)
  {
    if c < 65 then c - 48
    else if c < 97 then c - 65 + 9
    else c - 97 + 9 + 26
  }

  /** The value `make_const_table` stores at position `i`. */
  function ConstEntry(i: nat): nat
  {
    if IsAlnum(i) then ComputeIndex(i) else 0
  }

  function ConstTable(): seq<nat>
  {
    seq(Children, i requires 0 <= i => ConstEntry(i))
  }

  /** `make_const_table`: the loop runs over positions below 62 only, so
      the digits are the only bytes whose entry it computes. */
  method MakeConstTable() returns (t: seq<nat>)
    ensures |t| == Children
    ensures forall i | 0 <= i < Children :: IsDigit(i) ==> t[i] == i - 48
    ensures forall i | 0 <= i < Children :: !IsDigit(i) ==> t[i] == 0
    ensures t == ConstTable()
  {
    t := seq(Children, _ => 0);
    var i := 0;
    while i < Children
      invariant 0 <= i <= Children && |t| == Children
      invariant forall c | 0 <= c < i :: t[c] == ConstEntry(c)
      invariant forall c | i <= c < Children :: t[c] == 0
    {
      if IsAlnum(i) {
        t := t[i := ComputeIndex(i)];
      }
      i := i + 1;
    }
  }

  /** `to_alphanumeric_index`: digits find their value; every letter
      indexes past the 62-entry table. */
  function ToAlphanumericIndex(c: nat): (r: Lookup)
    ensures IsDigit(c) ==> r == Index(c - 48)
    ensures IsUpper(c) || IsLower(c) ==> r == OutOfRange(Children, c)
  {
    var t := ConstTable();
    if c < |t| then Index(t[c]) else OutOfRange(|t|, c)
  }

  // ---------------------------------------------------------------------
  // The index the comments describe

  /** Digits to 0-9, uppercase to 10-35, lowercase to 36-61. */
  function CorrectedIndex(c: nat): (r: nat)
    requires IsAlnum(c)
    ensures r < Children
  {
    if c < 65 then c - 48
    else if c < 97 then c - 65 + 10
    else c - 97 + 10 + 26
  }

  /** A 127-entry table built from the corrected index. */
  function CorrectedLookup(c: nat): (r: Lookup)
    ensures c < TableSize && IsAlnum(c) ==> r == Index(CorrectedIndex(c))
    ensures c < TableSize && !IsAlnum(c) ==> r == Index(0)
    ensures c >= TableSize ==> r == OutOfRange(TableSize, c)
  {
    var t := seq(TableSize, c requires 0 <= c => if IsAlnum(c) then CorrectedIndex(c) else 0);
    if c < |t| then Index(t[c]) else OutOfRange(|t|, c)
  }

  /** The corrected index keeps byte order strictly, so distinct
      alphanumeric bytes never share a child. */
  lemma CorrectedStrict(a: nat, b: nat)
    requires IsAlnum(a) && IsAlnum(b) && a < b
    ensures CorrectedIndex(a) < CorrectedIndex(b)
  {
  }

  // ---------------------------------------------------------------------
  // The three tables as one parameter of the tries

  datatype Indexing = LookupAlpha | ToAlphanumeric | Corrected

  function LookupWith(ix: Indexing, c: nat): Lookup
  {
    match ix
    case LookupAlpha => LookupAlphaIndex(c)
    case ToAlphanumeric => ToAlphanumericIndex(c)
    case Corrected => CorrectedLookup(c)
  }

  /** The bytes a table sends to a child of their own, in byte order: all
      alphanumerics except `'A'` (which shares child 9 with `'9'`), only
      the digits for the 62-entry table, every alphanumeric once corrected. */
  predicate Alphabet(ix: Indexing, c: nat)
  {
    match ix
    case LookupAlpha => IsAlnum(c) && c != 65
    case ToAlphanumeric => IsDigit(c)
    case Corrected => IsAlnum(c)
  }

  /** The byte that child `k` stands for (or, where no byte of the alphabet
      reaches `k`, a value that keeps the labels ascending). */
  function Label(ix: Indexing, k: nat): nat
  {
    match ix
    case LookupAlpha => if k <= 9 then k + 48 else if k <= 34 then k + 56 else k + 62
    case ToAlphanumeric => if k <= 9 then k + 48 else k + 58
    case Corrected => if k <= 9 then k + 48 else if k <= 35 then k + 55 else k + 61
  }

  /** A byte of the alphabet is looked up without panic, lands on a child
      below 62, and that child's label is the byte itself. */
  lemma AlphabetRoutes(ix: Indexing, c: nat)
    requires Alphabet(ix, c)
    ensures IsAlnum(c)
    ensures LookupWith(ix, c).Index? && LookupWith(ix, c).value < Children
    ensures Label(ix, LookupWith(ix, c).value) == c
  {
  }

  /** Labels ascend strictly with the child index. */
  lemma LabelsAscend(ix: Indexing, j: nat, k: nat)
    requires j < k
    ensures Label(ix, j) < Label(ix, k)
  {
  }

  /** The 127-entry table and the corrected one send every alphanumeric
      byte to one of the 62 children. */
  lemma AlnumInRange(ix: Indexing, c: nat)
    requires ix != ToAlphanumeric && IsAlnum(c)
    ensures LookupWith(ix, c).Index? && LookupWith(ix, c).value < Children
  {
  }
}
