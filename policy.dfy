/**
 * The sizing decisions of SmallPtrSetImplBase, stated apart from the buckets:
 * how many buckets shrink_and_clear installs, when insert_imp_big grows or
 * rehashes, and which array copyFrom copies into.
 */
module Policy {
  import opened Probing
  import opened Buckets

  /** Log2_32_Ceil for x >= 1: the least e with 2^e >= x. */
  function CeilLog2(x: nat): (e: nat)
    requires x >= 1
    ensures Pow2(e) >= x
    ensures e > 0 ==> Pow2(e - 1) < x
    decreases x
  {
    if x == 1 then 0 else 1 + CeilLog2((x + 1) / 2)
  }

  /**
   * The bucket count shrink_and_clear installs for a set of `size` elements: a
   * power of two of at least 32 buckets that holds the old number of elements at
   * a load of at most one half, and, above 16 elements, more than one quarter.
   */
  function ShrinkTarget(size: nat): (r: nat)
    ensures IsPow2(r) && r >= 32
    ensures 2 * size <= r
    ensures size > 16 ==> r < 4 * size
  {
    TableSizesArePow2();
    if size > 16 then
      var e := CeilLog2(size);
      assert Pow2(e + 1) == 2 * Pow2(e);
      assert e > 0 ==> Pow2(e) == 2 * Pow2(e - 1);
      Pow2(e + 1)
    else
      32
  }

  /** What insert_imp_big does to the table before it looks for a bucket. */
  datatype Resize = Keep | Rehash(buckets: nat)

  /**
   * A table at least three quarters full grows; otherwise it is rehashed at its
   * own size exactly when fewer than one eighth of its buckets are empty.
   */
  function InsertResize(size: nat, arraySize: nat, numNonEmpty: nat): (r: Resize)
    ensures size * 4 >= arraySize * 3 ==> r.Rehash? && r.buckets > arraySize
    ensures size * 4 < arraySize * 3 ==>
              && (r.Rehash? <==> arraySize - numNonEmpty < arraySize / 8)
              && (r.Rehash? ==> r.buckets == arraySize)
  {
    if size * 4 >= arraySize * 3 then Rehash(if arraySize < 64 then 128 else arraySize * 2)
    else if arraySize - numNonEmpty < arraySize / 8 then Rehash(arraySize)
    else Keep
  }

  /**
   * After the resize step of insert_imp_big the table is a valid big table with at
   * least two empty buckets, so the one insertion that follows leaves an empty
   * bucket for later probes. A table that is kept is less than three quarters
   * full; a rehashed one is less than three quarters full once its tombstones are
   * dropped. The second disjunct of the precondition is a full small set, the
   * only small set insert_imp_big is called on.
   */
  lemma InsertResizeLeavesRoom(size: nat, arraySize: nat, numNonEmpty: nat)
    requires size <= numNonEmpty <= arraySize
    requires || (IsPow2(arraySize) && arraySize >= MinBigSize && numNonEmpty < arraySize)
             || (size == numNonEmpty == arraySize && (arraySize < 64 || IsPow2(arraySize)))
    ensures match InsertResize(size, arraySize, numNonEmpty)
            case Keep =>
              && IsPow2(arraySize) && arraySize >= MinBigSize
              && arraySize - numNonEmpty >= 2 && size * 4 < arraySize * 3
            case Rehash(m) =>
              && IsPow2(m) && m >= MinBigSize && m >= arraySize
              && size + 2 <= m && size * 4 < m * 3
  {
    TableSizesArePow2();
    if arraySize >= 64 {
      DoubleIsPow2(arraySize);
    }
  }

  // ---------------------------------------------------------------------------
  // copyFrom: which array receives RHS's buckets

  /** Inline: this set's own small storage; Reuse: the array it holds; Allocate: a new heap array. */
  datatype Storage = Inline | Reuse | Allocate

  /** IsSmall once copyFrom has installed the storage. */
  function SmallAfter(isSmall: bool, storage: Storage): bool
  {
    match storage
    case Inline => true
    case Allocate => false
    case Reuse => isSmall
  }

  /**
   * The decision as SmallPtrSet.cpp:171-186 writes it: a big RHS of the same
   * bucket count as this set keeps this set's array, even when that array is the
   * inline small storage.
   */
  function CopyFromStorageAsWritten(isSmall: bool, arraySize: nat, rhsIsSmall: bool, rhsArraySize: nat): (storage: Storage)
    ensures storage == Inline <==> rhsIsSmall
    ensures storage == Reuse ==> arraySize == rhsArraySize
    ensures SmallAfter(isSmall, storage) != rhsIsSmall <==> isSmall && !rhsIsSmall && arraySize == rhsArraySize
  {
    if rhsIsSmall then Inline
    else if arraySize != rhsArraySize then Allocate
    else Reuse
  }

  /**
   * The decision with the small-to-big case sent to a fresh allocation, so that
   * this set's mode always ends as RHS's, and a reused array already has RHS's size.
   */
  function CopyFromStorage(isSmall: bool, arraySize: nat, rhsIsSmall: bool, rhsArraySize: nat): (storage: Storage)
    ensures SmallAfter(isSmall, storage) == rhsIsSmall
    ensures storage == Reuse ==> !isSmall && arraySize == rhsArraySize
    ensures storage == Inline <==> rhsIsSmall
  {
    if rhsIsSmall then Inline
    else if isSmall || arraySize != rhsArraySize then Allocate
    else Reuse
  }

  /**
   * Counterexample for the decision as written. RHS is a big set of 32 buckets
   * holding one pointer x in bucket 1 (what shrink_and_clear leaves for a set of
   * at most 16 elements, plus one insertion). This set is small with 32 inline
   * buckets. The decision as written reuses the inline array and stays small.
   * After copyHelper, the small view is the first NumNonEmpty = 1 buckets. That
   * prefix holds the empty marker and not x, so it is not a small layout.
   */
  lemma CopyFromAsWrittenLosesElement<T>(x: T, hash: T -> nat)
    requires hash(x) % 32 == 1
    ensures var rhs := seq(32, i => if i == 1 then Ptr(x) else Empty);
            && BigLayout(rhs, 1, 0, hash) && Elements(rhs) == {x}
            && CopyFromStorageAsWritten(true, 32, false, 32) == Reuse
            && SmallAfter(true, Reuse)
            && !SmallLayout(rhs[..1], 0) && x !in Elements(rhs[..1])
  {
    var cleared: seq<Slot<T>> := seq(32, i => Empty);
    var rhs := seq(32, i => if i == 1 then Ptr(x) else Empty);
    assert rhs == cleared[1 := Ptr(x)];
    ClearedCounts(cleared);
    CountUpdate(cleared, 1, Ptr(x), TombstoneKind);
    CountUpdate(cleared, 1, Ptr(x), LiveKind);
    ElementsFill(cleared, 1, x);
    TableSizesArePow2();
    assert rhs[0] == Empty;
    assert WellPlaced(rhs, hash) by {
      forall i | 0 <= i < 32 ensures Placed(rhs, hash, i) {
        if i == 1 {
          assert Probe(hash(x), 0, 32) == 1 && ClearPath(rhs, hash(x), 0);
        }
      }
    }
    assert Distinct(rhs);
    assert rhs[..1] == [Empty];
    ElementsMember(rhs[..1], x);
  }
}
