/**
 * SmallPtrSetImplBase: a set of pointers that keeps its elements in an inline
 * array while small and in a quadratically probed hash table once big.
 *
 * The bucket array is `curArray`; in small mode it is the caller's inline
 * storage and only its first `numNonEmpty` buckets are in use, in big mode it is
 * a heap table of `curArraySize` buckets. The hash is a field, fixed for the
 * life of the set.
 */
module SmallPtrSetImpl {
  import opened Probing
  import opened Buckets
  import opened Policy

  datatype Option<A> = None | Some(value: A)

  /** std::copy(src + lo, src + hi, dst + lo): buckets lo..hi of dst take those of src. */
  method CopyRange<X>(src: array<X>, dst: array<X>, lo: nat, hi: nat)
    requires lo <= hi <= src.Length && hi <= dst.Length && src != dst
    modifies dst
    ensures forall j :: 0 <= j < dst.Length ==> dst[j] == if lo <= j < hi then src[j] else old(dst[j])
  {
    var i := lo;
    while i < hi
      invariant lo <= i <= hi
      invariant forall j :: 0 <= j < dst.Length ==> dst[j] == if lo <= j < i then src[j] else old(dst[j])
    {
      dst[i] := src[i];
      i := i + 1;
    }
  }

  /** std::swap_ranges(a, a + n, b): the first n buckets of a and b trade places. */
  method SwapRanges<X>(a: array<X>, b: array<X>, n: nat)
    requires n <= a.Length && n <= b.Length && a != b
    modifies a, b
    ensures forall j :: 0 <= j < a.Length ==> a[j] == if j < n then old(b[j]) else old(a[j])
    ensures forall j :: 0 <= j < b.Length ==> b[j] == if j < n then old(a[j]) else old(b[j])
  {
    var i := 0;
    while i < n
      invariant i <= n
      invariant forall j :: 0 <= j < a.Length ==> a[j] == if j < i then old(b[j]) else old(a[j])
      invariant forall j :: 0 <= j < b.Length ==> b[j] == if j < i then old(a[j]) else old(b[j])
    {
      a[i], b[i] := b[i], a[i];
      i := i + 1;
    }
  }

  class SmallPtrSet<T(==)> {
    var curArray: array<Slot<T>>
    var curArraySize: nat
    var numNonEmpty: nat
    var numTombstones: nat
    var isSmall: bool
    /** DenseMapInfo<void *>::getHashValue */
    const hash: T -> nat

    /**
     * EndPointer() - CurArray: the used prefix in small mode, the whole table in
     * big mode. It never lies past the end of the array.
     */
    function End(): (e: nat)
      reads this
      requires isSmall ==> numNonEmpty <= curArraySize
      ensures e <= curArraySize
      ensures !isSmall ==> e == curArraySize
    {
      if isSmall then numNonEmpty else curArraySize
    }

    ghost predicate Valid()
      reads this, curArray
    {
      && curArray.Length == curArraySize
      && if isSmall then numNonEmpty <= curArraySize && SmallLayout(curArray[..numNonEmpty], numTombstones)
         else BigLayout(curArray[..], numNonEmpty, numTombstones, hash)
    }

    /** The buckets that hold the set. */
    ghost function Used(): seq<Slot<T>>
      reads this, curArray
      requires Valid()
    {
      curArray[..End()]
    }

    /** The pointers in the set. */
    ghost function Contents(): set<T>
      reads this, curArray
      requires Valid()
    {
      Elements(Used())
    }

    /** The set uses the given inline storage exactly when it is small. */
    ghost predicate HasSmallStorage(smallStorage: array<Slot<T>>)
      reads this
    {
      isSmall <==> curArray == smallStorage
    }

    /** An empty small set over the given inline storage of smallSize buckets. */
    constructor Init(smallStorage: array<Slot<T>>, smallSize: nat, hash: T -> nat)
      requires smallStorage.Length == smallSize
      ensures Valid() && isSmall && HasSmallStorage(smallStorage)
      ensures curArraySize == smallSize && numNonEmpty == 0 && numTombstones == 0
      ensures Contents() == {}
    {
      this.hash := hash;
      curArray := smallStorage;
      curArraySize := smallSize;
      numNonEmpty, numTombstones := 0, 0;
      isSmall := true;
      new;
      assert curArray[..0] == [];
    }

    /** size() is the number of pointers, and a big table always keeps an empty bucket. */
    lemma SizeIsContents()
      requires Valid()
      ensures numTombstones <= numNonEmpty
      ensures numNonEmpty - numTombstones == |Contents()|
      ensures !isSmall ==> numNonEmpty < curArraySize
    {
      if isSmall {
        SmallLayoutSize(curArray[..numNonEmpty], numTombstones);
      } else {
        BigLayoutSize(curArray[..], numNonEmpty, numTombstones, hash);
        assert curArray[..End()] == curArray[..];
      }
    }

    /**
     * The bucket where ptr is, or else where it belongs: the first tombstone on its
     * probe path, or else the empty bucket that ends the path.
     */
    method FindBucketFor(ptr: T) returns (bucket: nat, ghost step: nat)
      requires curArray.Length == curArraySize && HashTable(curArray[..], hash)
      ensures bucket < curArraySize && bucket == Probe(hash(ptr), step, curArraySize)
      ensures ClearPath(curArray[..], hash(ptr), step)
      ensures curArray[bucket] == Ptr(ptr) <==> ptr in Elements(curArray[..])
      ensures curArray[bucket] == Ptr(ptr) || curArray[bucket] == Tombstone || curArray[bucket] == Empty
      ensures curArray[bucket] != Ptr(ptr) ==>
                forall j :: 0 <= j < step ==> curArray[Probe(hash(ptr), j, curArraySize)] != Tombstone
    {
      var n := curArraySize;
      var h := hash(ptr);
      ghost var s := curArray[..];
      EmptyOnProbePath(s, h);
      ghost var stop: nat :| stop < n && s[Probe(h, stop, n)] == Empty;
      ProbeNext(h, 0, n);
      bucket := h % n;
      step := 0;
      var probeAmt := 1;
      var tombstone: Option<nat> := None;
      ghost var tombStep: nat := 0;
      while true
        invariant probeAmt == step + 1 && step <= stop
        invariant bucket == Probe(h, step, n)
        invariant forall j :: 0 <= j < step ==> s[Probe(h, j, n)] != Empty && s[Probe(h, j, n)] != Ptr(ptr)
        invariant tombstone.None? ==> forall j :: 0 <= j < step ==> s[Probe(h, j, n)] != Tombstone
        invariant tombstone.Some? ==>
                    && tombStep < step && tombstone.value == Probe(h, tombStep, n)
                    && s[tombstone.value] == Tombstone
                    && forall j :: 0 <= j < tombStep ==> s[Probe(h, j, n)] != Tombstone
        decreases stop - step
      {
        if curArray[bucket] == Empty {
          AbsentPastEmpty(s, hash, ptr, step);
          if tombstone.Some? {
            bucket := tombstone.value;
            step := tombStep;
          }
          return;
        }
        if curArray[bucket] == Ptr(ptr) {
          ElementsMember(s, ptr);
          return;
        }
        if curArray[bucket] == Tombstone && tombstone.None? {
          tombstone := Some(bucket);
          tombStep := step;
        }
        ProbeNext(h, step, n);
        bucket := (bucket + probeAmt) % n;
        probeAmt := probeAmt + 1;
        step := step + 1;
      }
    }

    /** doFind: the bucket holding ptr, or None when ptr is not in the (big) set. */
    method DoFind(ptr: T) returns (found: Option<nat>)
      requires Valid() && !isSmall
      ensures found.Some? <==> ptr in Contents()
      ensures found.Some? ==> found.value < curArraySize && curArray[found.value] == Ptr(ptr)
    {
      var n := curArraySize;
      var h := hash(ptr);
      ghost var s := curArray[..];
      assert Used() == s;
      EmptyOnProbePath(s, h);
      ghost var stop: nat :| stop < n && s[Probe(h, stop, n)] == Empty;
      ProbeNext(h, 0, n);
      var bucketNo := h % n;
      ghost var step: nat := 0;
      var probeAmt := 1;
      while true
        invariant probeAmt == step + 1 && step <= stop
        invariant bucketNo == Probe(h, step, n)
        invariant forall j :: 0 <= j < step ==> s[Probe(h, j, n)] != Empty && s[Probe(h, j, n)] != Ptr(ptr)
        decreases stop - step
      {
        if curArray[bucketNo] == Ptr(ptr) {
          ElementsMember(s, ptr);
          return Some(bucketNo);
        }
        if curArray[bucketNo] == Empty {
          AbsentPastEmpty(s, hash, ptr, step);
          return None;
        }
        ProbeNext(h, step, n);
        bucketNo := (bucketNo + probeAmt) % n;
        probeAmt := probeAmt + 1;
        step := step + 1;
      }
    }

    /** shrink_and_clear: a big set becomes an empty big set sized for its old element count. */
    method ShrinkAndClear()
      requires Valid() && !isSmall
      modifies this
      ensures Valid() && !isSmall && fresh(curArray)
      ensures curArraySize == ShrinkTarget(old(|Contents()|))
      ensures numNonEmpty == 0 && numTombstones == 0
      ensures forall i :: 0 <= i < curArraySize ==> curArray[i] == Empty
      ensures Contents() == {}
    {
      SizeIsContents();
      var size: nat := numNonEmpty - numTombstones;
      curArraySize := ShrinkTarget(size);
      numNonEmpty, numTombstones := 0, 0;
      curArray := new Slot<T>[curArraySize](_ => Empty);
      ClearedCounts(curArray[..]);
      assert curArray[0] == Empty;
      assert curArray[..End()] == curArray[..];
    }
  

    /**
     * Grow: rehash every pointer of the set into a fresh big table of newSize empty
     * buckets, dropping the tombstones. Elements are unchanged.
     */
    method Grow(newSize: nat)
      requires Valid() && IsPow2(newSize) && newSize >= MinBigSize
      requires numNonEmpty - numTombstones < newSize
      modifies this
      ensures Valid() && !isSmall && fresh(curArray) && curArraySize == newSize
      ensures Contents() == old(Contents())
      ensures numTombstones == 0 && numNonEmpty == |Contents()|
    {
      SizeIsContents();
      var oldBuckets := curArray;
      var oldEnd := End();
      assert oldBuckets[..oldEnd] == Used();
      curArray := new Slot<T>[newSize](_ => Empty);
      curArraySize := newSize;
      RehashInto(oldBuckets, oldEnd);
      numNonEmpty := numNonEmpty - numTombstones;
      numTombstones := 0;
      isSmall := false;
      ElementsCard(curArray[..]);
      assert curArray[..End()] == curArray[..];
    }

    /**
     * The loop of Grow: insert the pointer of each of the first oldEnd old buckets
     * into the current table, which starts empty and has more buckets than they
     * hold pointers. Tombstones and empty buckets are skipped.
     */
    method RehashInto(oldBuckets: array<Slot<T>>, oldEnd: nat)
      requires curArray != oldBuckets && curArray.Length == curArraySize && IsPow2(curArraySize)
      requires forall i :: 0 <= i < curArraySize ==> curArray[i] == Empty
      requires oldEnd <= oldBuckets.Length && Distinct(oldBuckets[..oldEnd])
      requires |Elements(oldBuckets[..oldEnd])| < curArraySize
      modifies curArray
      ensures Elements(curArray[..]) == Elements(oldBuckets[..oldEnd])
      ensures Count(curArray[..], TombstoneKind) == 0
      ensures Distinct(curArray[..]) && HashTable(curArray[..], hash)
    {
      ghost var was := oldBuckets[..oldEnd];
      ClearedCounts(curArray[..]);
      assert curArray[0] == Empty;
      var i := 0;
      while i < oldEnd
        invariant i <= oldEnd && oldBuckets[..oldEnd] == was
        invariant Elements(curArray[..]) == Elements(was[..i])
        invariant Count(curArray[..], TombstoneKind) == 0
        invariant Distinct(curArray[..]) && HashTable(curArray[..], hash)
      {
        var elt := oldBuckets[i];
        assert elt == was[i];
        if elt.Ptr? {
          ghost var t := curArray[..];
          var b, k := FindBucketFor(elt.p);
          RehashStep(was, i, t, hash, b, k);
          curArray[b] := elt;
          assert curArray[..] == t[b := elt];
        } else {
          ElementsPrefix(was, i);
        }
        i := i + 1;
      }
      assert was[..i] == was;
    }

    /**
     * The second half of insert_imp_big, once the table has room: find ptr's
     * bucket and, unless ptr is there already, store it there.
     */
    method InsertWithRoom(ptr: T) returns (bucket: nat, inserted: bool)
      requires Valid() && !isSmall && curArraySize - numNonEmpty >= 2
      modifies curArray, `numNonEmpty, `numTombstones
      ensures Valid() && bucket < curArraySize && curArray[bucket] == Ptr(ptr)
      ensures inserted <==> ptr !in old(Contents())
      ensures Contents() == old(Contents()) + {ptr}
      ensures forall i :: 0 <= i < curArraySize && i != bucket ==> curArray[i] == old(curArray[i])
      ensures !inserted ==> numNonEmpty == old(numNonEmpty) && numTombstones == old(numTombstones)
      ensures inserted && old(curArray[bucket]) == Tombstone ==>
                numNonEmpty == old(numNonEmpty) && numTombstones == old(numTombstones) - 1
      ensures inserted && old(curArray[bucket]) != Tombstone ==>
                old(curArray[bucket]) == Empty && numNonEmpty == old(numNonEmpty) + 1 && numTombstones == old(numTombstones)
    {
      ghost var s := curArray[..];
      assert s == Used();
      var b, k := FindBucketFor(ptr);
      bucket := b;
      if curArray[b] == Ptr(ptr) {
        inserted := false;
        return;
      }
      BigLayoutFill(s, numNonEmpty, numTombstones, hash, b, ptr, k);
      if curArray[b] == Tombstone {
        numTombstones := numTombstones - 1;
      } else {
        numNonEmpty := numNonEmpty + 1;
      }
      curArray[b] := Ptr(ptr);
      inserted := true;
      assert curArray[..] == s[b := Ptr(ptr)];
      assert Used() == curArray[..];
    }

    /**
     * insert_imp_big: insert ptr into a big set, or into a full small set (which
     * first grows). Returns the bucket that holds ptr and whether it was inserted.
     * The table first grows when at least three quarters full, or is rehashed in
     * place when fewer than one eighth of its buckets are empty.
     */
    method InsertImpBig(ptr: T) returns (bucket: nat, inserted: bool)
      requires Valid()
      requires isSmall ==> numNonEmpty == curArraySize && numTombstones == 0 && (curArraySize < 64 || IsPow2(curArraySize))
      modifies this, curArray
      ensures Valid() && !isSmall
      ensures bucket < curArraySize && curArray[bucket] == Ptr(ptr)
      ensures inserted <==> ptr !in old(Contents())
      ensures Contents() == old(Contents()) + {ptr}
      ensures old(InsertResize(|Contents()|, curArraySize, numNonEmpty)) == Keep ==>
                && curArray == old(curArray) && curArraySize == old(curArraySize)
                && (forall i :: 0 <= i < curArraySize && i != bucket ==> curArray[i] == old(curArray[i]))
                && (!inserted ==> numNonEmpty == old(numNonEmpty) && numTombstones == old(numTombstones))
                && (inserted && old(curArray[bucket]) == Tombstone ==>
                      numNonEmpty == old(numNonEmpty) && numTombstones == old(numTombstones) - 1)
                && (inserted && old(curArray[bucket]) != Tombstone ==>
                      old(curArray[bucket]) == Empty
                      && numNonEmpty == old(numNonEmpty) + 1 && numTombstones == old(numTombstones))
      ensures old(InsertResize(|Contents()|, curArraySize, numNonEmpty)).Rehash? ==>
                && fresh(curArray)
                && curArraySize == old(InsertResize(|Contents()|, curArraySize, numNonEmpty)).buckets
                && numTombstones == 0 && numNonEmpty == |old(Contents())| + (if inserted then 1 else 0)
    {
      SizeIsContents();
      var size: nat := numNonEmpty - numTombstones;
      InsertResizeLeavesRoom(size, curArraySize, numNonEmpty);
      var resize := InsertResize(size, curArraySize, numNonEmpty);
      assert resize == InsertResize(|Contents()|, curArraySize, numNonEmpty);
      if resize.Rehash? {
        Grow(resize.buckets);
      }
      bucket, inserted := InsertWithRoom(ptr);
    }

    /**
     * copyHelper: take RHS's size and counters and copy its used buckets into the
     * array this set already holds (one of RHS's size, in RHS's mode).
     */
    method CopyHelper(rhs: SmallPtrSet<T>)
      requires rhs != this && rhs.Valid() && hash == rhs.hash
      requires curArray != rhs.curArray && curArray.Length == rhs.curArraySize && isSmall == rhs.isSmall
      modifies this, curArray
      ensures curArray == old(curArray) && isSmall == old(isSmall)
      ensures curArraySize == rhs.curArraySize && numNonEmpty == rhs.numNonEmpty && numTombstones == rhs.numTombstones
      ensures Valid() && Used() == rhs.Used() && Contents() == rhs.Contents()
      ensures forall i :: End() <= i < curArraySize ==> curArray[i] == old(curArray[i])
    {
      curArraySize := rhs.curArraySize;
      CopyRange(rhs.curArray, curArray, 0, rhs.End());
      numNonEmpty := rhs.numNonEmpty;
      numTombstones := rhs.numTombstones;
      assert curArray[..End()] == rhs.curArray[..rhs.End()];
      if !isSmall {
        assert curArray[..] == curArray[..End()];
        assert rhs.curArray[..] == rhs.curArray[..rhs.End()];
      }
    }

    /**
     * The copy constructor: a set equal to `that`, small in the given inline
     * storage when `that` is small, else in a fresh table of the same size.
     */
    constructor Copy(smallStorage: array<Slot<T>>, that: SmallPtrSet<T>)
      requires that.Valid() && smallStorage != that.curArray
      requires that.isSmall ==> smallStorage.Length == that.curArraySize
      modifies smallStorage
      ensures Valid() && HasSmallStorage(smallStorage) && hash == that.hash
      ensures isSmall == that.isSmall && curArraySize == that.curArraySize
      ensures numNonEmpty == that.numNonEmpty && numTombstones == that.numTombstones
      ensures Used() == that.Used() && Contents() == that.Contents()
      ensures !isSmall ==> fresh(curArray)
    {
      isSmall := that.isSmall;
      hash := that.hash;
      if that.isSmall {
        curArray := smallStorage;
      } else {
        curArray := new Slot<T>[that.curArraySize](_ => Empty);
      }
      curArraySize, numNonEmpty, numTombstones := 0, 0, 0;
      new;
      CopyHelper(that);
    }

    /**
     * copyFrom: make this set a copy of RHS, reusing its own inline storage for a
     * small RHS, its heap table when that has RHS's size, and a new table otherwise.
     * The storage decision is CopyFromStorage.
     */
    method CopyFrom(smallStorage: array<Slot<T>>, rhs: SmallPtrSet<T>)
      requires rhs != this && Valid() && rhs.Valid() && hash == rhs.hash
      requires HasSmallStorage(smallStorage)
      requires rhs.isSmall ==> smallStorage.Length == rhs.curArraySize
      requires smallStorage != rhs.curArray && curArray != rhs.curArray
      modifies this, curArray, smallStorage
      ensures Valid() && HasSmallStorage(smallStorage)
      ensures isSmall == rhs.isSmall && curArraySize == rhs.curArraySize
      ensures numNonEmpty == rhs.numNonEmpty && numTombstones == rhs.numTombstones
      ensures Used() == rhs.Used() && Contents() == rhs.Contents()
      ensures !isSmall && curArray != old(curArray) ==> fresh(curArray)
    {
      var storage := CopyFromStorage(isSmall, curArraySize, rhs.isSmall, rhs.curArraySize);
      match storage {
        case Inline =>
          curArray := smallStorage;
          isSmall := true;
        case Allocate =>
          curArray := new Slot<T>[rhs.curArraySize](_ => Empty);
          isSmall := false;
        case Reuse =>
      }
      CopyHelper(rhs);
    }

    /**
     * moveHelper: take over RHS's buckets (a small RHS's are copied into this set's
     * inline storage, a big RHS's table changes hands) and leave RHS empty and
     * small in its own inline storage of smallSize buckets.
     */
    method MoveHelper(smallStorage: array<Slot<T>>, smallSize: nat, rhsSmallStorage: array<Slot<T>>, rhs: SmallPtrSet<T>)
      requires rhs != this && rhs.Valid() && rhs.hash == hash
      requires rhs.HasSmallStorage(rhsSmallStorage)
      requires smallStorage.Length == smallSize && rhsSmallStorage.Length == smallSize
      requires smallStorage != rhs.curArray && smallStorage != rhsSmallStorage
      modifies this, rhs, smallStorage
      ensures Valid() && HasSmallStorage(smallStorage)
      ensures isSmall == old(rhs.isSmall) && curArraySize == old(rhs.curArraySize)
      ensures numNonEmpty == old(rhs.numNonEmpty) && numTombstones == old(rhs.numTombstones)
      ensures Used() == old(rhs.Used()) && Contents() == old(rhs.Contents())
      ensures !isSmall ==> curArray == old(rhs.curArray)
      ensures rhs.Valid() && rhs.isSmall && rhs.curArray == rhsSmallStorage
      ensures rhs.curArraySize == smallSize && rhs.numNonEmpty == 0 && rhs.numTombstones == 0
      ensures rhs.Contents() == {}
    {
      ghost var used := rhs.Used();
      if rhs.isSmall {
        curArray := smallStorage;
        CopyRange(rhs.curArray, curArray, 0, rhs.numNonEmpty);
        assert curArray[..rhs.numNonEmpty] == used;
      } else {
        curArray := rhs.curArray;
        rhs.curArray := rhsSmallStorage;
      }
      curArraySize := rhs.curArraySize;
      numNonEmpty := rhs.numNonEmpty;
      numTombstones := rhs.numTombstones;
      isSmall := rhs.isSmall;

      rhs.curArraySize := smallSize;
      rhs.numNonEmpty := 0;
      rhs.numTombstones := 0;
      rhs.isSmall := true;
      assert Used() == used;
      assert rhs.Used() == [];
    }

    /** The move constructor: moveHelper on a fresh set. */
    constructor Move(smallStorage: array<Slot<T>>, smallSize: nat, rhsSmallStorage: array<Slot<T>>, that: SmallPtrSet<T>)
      requires that.Valid() && that.HasSmallStorage(rhsSmallStorage)
      requires smallStorage.Length == smallSize && rhsSmallStorage.Length == smallSize
      requires smallStorage != that.curArray && smallStorage != rhsSmallStorage
      modifies that, smallStorage
      ensures Valid() && HasSmallStorage(smallStorage) && hash == that.hash
      ensures isSmall == old(that.isSmall) && curArraySize == old(that.curArraySize)
      ensures numNonEmpty == old(that.numNonEmpty) && numTombstones == old(that.numTombstones)
      ensures Used() == old(that.Used()) && Contents() == old(that.Contents())
      ensures !isSmall ==> curArray == old(that.curArray)
      ensures that.Valid() && that.isSmall && that.curArray == rhsSmallStorage
      ensures that.curArraySize == smallSize && that.numNonEmpty == 0 && that.numTombstones == 0
    {
      hash := that.hash;
      curArray := smallStorage;
      curArraySize, numNonEmpty, numTombstones, isSmall := 0, 0, 0, true;
      new;
      MoveHelper(smallStorage, smallSize, rhsSmallStorage, that);
    }

    /** moveFrom: release this set's table, if big, then moveHelper. */
    method MoveFrom(smallStorage: array<Slot<T>>, smallSize: nat, rhsSmallStorage: array<Slot<T>>, rhs: SmallPtrSet<T>)
      requires rhs != this && rhs.Valid() && rhs.hash == hash
      requires rhs.HasSmallStorage(rhsSmallStorage)
      requires smallStorage.Length == smallSize && rhsSmallStorage.Length == smallSize
      requires smallStorage != rhs.curArray && smallStorage != rhsSmallStorage
      modifies this, rhs, smallStorage
      ensures Valid() && HasSmallStorage(smallStorage)
      ensures isSmall == old(rhs.isSmall) && curArraySize == old(rhs.curArraySize)
      ensures numNonEmpty == old(rhs.numNonEmpty) && numTombstones == old(rhs.numTombstones)
      ensures Used() == old(rhs.Used()) && Contents() == old(rhs.Contents())
      ensures !isSmall ==> curArray == old(rhs.curArray)
      ensures rhs.Valid() && rhs.isSmall && rhs.curArray == rhsSmallStorage
      ensures rhs.curArraySize == smallSize && rhs.numNonEmpty == 0 && rhs.numTombstones == 0
      ensures rhs.Contents() == {}
    {
      MoveHelper(smallStorage, smallSize, rhsSmallStorage, rhs);
    }

    /**
     * The mixed case of swap, this set big and RHS small: RHS's used buckets are
     * copied into this set's inline storage, and this set's table goes to RHS.
     */
    method SwapWithSmall(smallStorage: array<Slot<T>>, rhs: SmallPtrSet<T>)
      requires rhs != this && Valid() && rhs.Valid() && hash == rhs.hash
      requires !isSmall && rhs.isSmall && curArray != smallStorage
      requires {curArray, smallStorage} !! {rhs.curArray}
      requires smallStorage.Length == rhs.curArraySize
      modifies this, rhs, smallStorage
      ensures Valid() && rhs.Valid()
      ensures isSmall && curArray == smallStorage && !rhs.isSmall && rhs.curArray == old(curArray)
      ensures curArraySize == old(rhs.curArraySize) && rhs.curArraySize == old(curArraySize)
      ensures numNonEmpty == old(rhs.numNonEmpty) && rhs.numNonEmpty == old(numNonEmpty)
      ensures numTombstones == old(rhs.numTombstones) && rhs.numTombstones == old(numTombstones)
      ensures Used() == old(rhs.Used()) && rhs.Used() == old(Used())
      ensures rhs.curArray != smallStorage
    {
      ghost var used, rhsUsed := Used(), rhs.Used();
      CopyRange(rhs.curArray, smallStorage, 0, rhs.numNonEmpty);
      assert smallStorage[..rhs.numNonEmpty] == rhsUsed;
      rhs.curArraySize, curArraySize := curArraySize, rhs.curArraySize;
      numNonEmpty, rhs.numNonEmpty := rhs.numNonEmpty, numNonEmpty;
      numTombstones, rhs.numTombstones := rhs.numTombstones, numTombstones;
      rhs.curArray := curArray;
      rhs.isSmall := false;
      curArray := smallStorage;
      isSmall := true;
      assert Used() == rhsUsed && rhs.Used() == used;
    }

    /**
     * The both-small case of swap: the common prefix is exchanged with
     * swap_ranges, the longer set's remaining buckets are copied across, and the
     * counters are exchanged.
     */
    method SwapSmall(rhs: SmallPtrSet<T>)
      requires rhs != this && Valid() && rhs.Valid() && hash == rhs.hash
      requires isSmall && rhs.isSmall && curArray != rhs.curArray && curArraySize == rhs.curArraySize
      modifies this, rhs, curArray, rhs.curArray
      ensures Valid() && rhs.Valid()
      ensures isSmall && rhs.isSmall && curArray == old(curArray) && rhs.curArray == old(rhs.curArray)
      ensures curArraySize == old(curArraySize) && rhs.curArraySize == old(rhs.curArraySize)
      ensures numNonEmpty == old(rhs.numNonEmpty) && rhs.numNonEmpty == old(numNonEmpty)
      ensures numTombstones == old(rhs.numTombstones) && rhs.numTombstones == old(numTombstones)
      ensures Used() == old(rhs.Used()) && rhs.Used() == old(Used())
    {
      ghost var used, rhsUsed := Used(), rhs.Used();
      var n, rhsN := numNonEmpty, rhs.numNonEmpty;
      var minNonEmpty := if n < rhsN then n else rhsN;
      SwapRanges(curArray, rhs.curArray, minNonEmpty);
      if n > minNonEmpty {
        CopyRange(curArray, rhs.curArray, minNonEmpty, n);
      } else {
        CopyRange(rhs.curArray, curArray, minNonEmpty, rhsN);
      }
      numNonEmpty, rhs.numNonEmpty := rhs.numNonEmpty, numNonEmpty;
      numTombstones, rhs.numTombstones := rhs.numTombstones, numTombstones;
      assert curArray[..rhsN] == rhsUsed by {
        forall j | 0 <= j < rhsN ensures curArray[j] == rhsUsed[j] {
        }
      }
      assert rhs.curArray[..n] == used by {
        forall j | 0 <= j < n ensures rhs.curArray[j] == used[j] {
        }
      }
    }

    /**
     * swap: exchange the contents of two sets. Two big sets trade tables; a small
     * set's buckets are copied into the other set's inline storage, which must be
     * as large as its own; two small sets exchange their used prefixes in place.
     */
    method Swap(smallStorage: array<Slot<T>>, rhsSmallStorage: array<Slot<T>>, rhs: SmallPtrSet<T>)
      requires Valid() && rhs.Valid() && hash == rhs.hash
      requires HasSmallStorage(smallStorage) && rhs.HasSmallStorage(rhsSmallStorage)
      requires rhs != this ==> {curArray, smallStorage} !! {rhs.curArray, rhsSmallStorage}
      requires rhs != this && (isSmall || rhs.isSmall) ==> smallStorage.Length == rhsSmallStorage.Length
      modifies this, rhs, smallStorage, rhsSmallStorage
      ensures Valid() && rhs.Valid() && HasSmallStorage(smallStorage) && rhs.HasSmallStorage(rhsSmallStorage)
      ensures rhs == this ==>
                && curArray == old(curArray) && curArray[..] == old(curArray[..]) && isSmall == old(isSmall)
                && curArraySize == old(curArraySize) && numNonEmpty == old(numNonEmpty)
                && numTombstones == old(numTombstones)
      ensures rhs != this ==>
                && isSmall == old(rhs.isSmall) && rhs.isSmall == old(isSmall)
                && curArraySize == old(rhs.curArraySize) && rhs.curArraySize == old(curArraySize)
                && numNonEmpty == old(rhs.numNonEmpty) && rhs.numNonEmpty == old(numNonEmpty)
                && numTombstones == old(rhs.numTombstones) && rhs.numTombstones == old(numTombstones)
                && Used() == old(rhs.Used()) && rhs.Used() == old(Used())
                && Contents() == old(rhs.Contents()) && rhs.Contents() == old(Contents())
                && (!isSmall ==> curArray == old(rhs.curArray))
                && (!rhs.isSmall ==> rhs.curArray == old(curArray))
    {
      if this == rhs {
        return;
      }
      if !isSmall && !rhs.isSmall {
        ghost var used, rhsUsed := Used(), rhs.Used();
        curArray, rhs.curArray := rhs.curArray, curArray;
        curArraySize, rhs.curArraySize := rhs.curArraySize, curArraySize;
        numNonEmpty, rhs.numNonEmpty := rhs.numNonEmpty, numNonEmpty;
        numTombstones, rhs.numTombstones := rhs.numTombstones, numTombstones;
        assert Used() == rhsUsed && rhs.Used() == used;
      } else if !isSmall && rhs.isSmall {
        SwapWithSmall(smallStorage, rhs);
      } else if isSmall && !rhs.isSmall {
        rhs.SwapWithSmall(rhsSmallStorage, this);
      } else {
        SwapSmall(rhs);
      }
    }
  }
}
