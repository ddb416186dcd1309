/**
 * The bucket array of SmallPtrSetImplBase as a sequence of slots, the counts the
 * class keeps (NumNonEmpty, NumTombstones), the set of pointers it holds, and the
 * two layouts it uses: a dense prefix in small mode and an open-addressing table
 * in big mode.
 */
module Buckets {
  import opened Probing

  /** A bucket: the empty marker, the tombstone marker, or a live pointer. */
  datatype Slot<T> = Empty | Tombstone | Ptr(p: T)

  datatype Kind = EmptyKind | TombstoneKind | LiveKind

  function KindOf<T>(x: Slot<T>): Kind
  {
    match x
    case Empty => EmptyKind
    case Tombstone => TombstoneKind
    case Ptr(_) => LiveKind
  }

  /** Number of buckets of kind k in s. */
  function Count<T>(s: seq<Slot<T>>, k: Kind): nat
  {
    if |s| == 0 then 0
    else Count(s[..|s| - 1], k) + (if KindOf(s[|s| - 1]) == k then 1 else 0)
  }

  /** The pointers held in s. */
  ghost function Elements<T>(s: seq<Slot<T>>): set<T>
  {
    set i | 0 <= i < |s| && s[i].Ptr? :: s[i].p
  }

  /** No pointer is held in two buckets. */
  ghost predicate Distinct<T>(s: seq<Slot<T>>)
  {
    forall i, j :: 0 <= i < |s| && 0 <= j < |s| && s[i].Ptr? && s[i] == s[j] ==> i == j
  }

  ghost predicate HasEmpty<T>(s: seq<Slot<T>>)
  {
    exists i :: 0 <= i < |s| && s[i] == Empty
  }

  lemma ElementsMember<T>(s: seq<Slot<T>>, x: T)
    ensures x in Elements(s) <==> exists i :: 0 <= i < |s| && s[i] == Ptr(x)
  {
    if exists i :: 0 <= i < |s| && s[i] == Ptr(x) {
      var i :| 0 <= i < |s| && s[i] == Ptr(x);
      assert s[i].p == x;
    }
  }

  /** Every bucket is empty, tombstone or live, so the three counts add up to the size. */
  lemma {:induction false} CountSplit<T>(s: seq<Slot<T>>)
    ensures Count(s, EmptyKind) + Count(s, TombstoneKind) + Count(s, LiveKind) == |s|
  {
    if |s| > 0 {
      CountSplit(s[..|s| - 1]);
    }
  }

  /** Overwriting one bucket changes each count by at most one, as the two kinds dictate. */
  lemma {:induction false} CountUpdate<T>(s: seq<Slot<T>>, i: nat, v: Slot<T>, k: Kind)
    requires i < |s|
    ensures Count(s[i := v], k)
         == Count(s, k) - (if KindOf(s[i]) == k then 1 else 0) + (if KindOf(v) == k then 1 else 0)
  {
    var t := s[i := v];
    if i < |s| - 1 {
      assert t[..|t| - 1] == s[..|s| - 1][i := v];
      CountUpdate(s[..|s| - 1], i, v, k);
    } else {
      assert t[..|t| - 1] == s[..|s| - 1];
    }
  }

  /** An empty bucket exists exactly when the empty count is positive. */
  lemma {:induction false} EmptyCount<T>(s: seq<Slot<T>>)
    ensures HasEmpty(s) <==> Count(s, EmptyKind) > 0
  {
    if |s| > 0 {
      var init := s[..|s| - 1];
      EmptyCount(init);
      if HasEmpty(init) {
        var i :| 0 <= i < |init| && init[i] == Empty;
        assert s[i] == Empty;
      }
      if HasEmpty(s) && s[|s| - 1] != Empty {
        var i :| 0 <= i < |s| && s[i] == Empty;
        assert init[i] == Empty;
      }
    }
  }

  /** A freshly cleared array holds nothing. */
  lemma {:induction false} ClearedCounts<T>(s: seq<Slot<T>>)
    requires forall i :: 0 <= i < |s| ==> s[i] == Empty
    ensures Count(s, TombstoneKind) == 0 && Count(s, LiveKind) == 0 && Elements(s) == {}
  {
    if |s| > 0 {
      ClearedCounts(s[..|s| - 1]);
    }
  }

  /** Extending a prefix by one bucket adds that bucket's pointer, if any. */
  lemma ElementsPrefix<T>(s: seq<Slot<T>>, i: nat)
    requires i < |s|
    ensures Elements(s[..i + 1]) == Elements(s[..i]) + (if s[i].Ptr? then {s[i].p} else {})
    ensures Elements(s[..i]) <= Elements(s)
  {
    var a, b := s[..i], s[..i + 1];
    forall x | x in Elements(b) ensures x in Elements(a) || (s[i].Ptr? && x == s[i].p) {
      var j :| 0 <= j < |b| && b[j].Ptr? && b[j].p == x;
      if j < i {
        assert a[j] == b[j];
      }
    }
    forall x | x in Elements(a) ensures x in Elements(b) && x in Elements(s) {
      var j :| 0 <= j < |a| && a[j].Ptr? && a[j].p == x;
      assert b[j] == a[j] && s[j] == a[j];
    }
    if s[i].Ptr? {
      assert b[i] == s[i];
    }
  }

  /** Any prefix holds a subset of the elements. */
  lemma ElementsPrefixSub<T>(s: seq<Slot<T>>, i: nat)
    requires i <= |s|
    ensures Elements(s[..i]) <= Elements(s)
  {
    if i < |s| {
      ElementsPrefix(s, i);
    } else {
      assert s[..i] == s;
    }
  }

  /** With no duplicates, the pointer in bucket i does not occur in the buckets before it. */
  lemma DistinctFresh<T>(s: seq<Slot<T>>, i: nat)
    requires Distinct(s) && i < |s| && s[i].Ptr?
    ensures s[i].p !in Elements(s[..i])
  {
    forall j | 0 <= j < i ensures s[..i][j] != Ptr(s[i].p) {
      assert s[..i][j] == s[j];
    }
    ElementsMember(s[..i], s[i].p);
  }

  /**
   * Storing x over a bucket that holds no pointer adds x to the elements; when x
   * was not there already, no pointer ends up in two buckets.
   */
  lemma ElementsFill<T>(s: seq<Slot<T>>, i: nat, x: T)
    requires i < |s| && !s[i].Ptr?
    ensures Elements(s[i := Ptr(x)]) == Elements(s) + {x}
    ensures Distinct(s) && x !in Elements(s) ==> Distinct(s[i := Ptr(x)])
  {
    var t := s[i := Ptr(x)];
    forall y | y in Elements(t) ensures y in Elements(s) + {x} {
      var j :| 0 <= j < |t| && t[j].Ptr? && t[j].p == y;
      if j != i {
        assert s[j] == t[j];
      }
    }
    forall y | y in Elements(s) ensures y in Elements(t) {
      var j :| 0 <= j < |s| && s[j].Ptr? && s[j].p == y;
      assert t[j] == s[j];
    }
    assert t[i].p == x;
    if Distinct(s) && x !in Elements(s) {
      ElementsMember(s, x);
      forall j, l | 0 <= j < |t| && 0 <= l < |t| && t[j].Ptr? && t[j] == t[l] ensures j == l {
        if j != i && l != i {
          assert s[j] == t[j] && s[l] == t[l];
        }
      }
    }
  }

  /** With no pointer in two buckets, the live count is the number of elements. */
  lemma {:induction false} ElementsCard<T>(s: seq<Slot<T>>)
    requires Distinct(s)
    ensures |Elements(s)| == Count(s, LiveKind)
  {
    if |s| > 0 {
      var n := |s| - 1;
      var init := s[..n];
      assert Distinct(init) by {
        forall i, j | 0 <= i < n && 0 <= j < n && init[i].Ptr? && init[i] == init[j] ensures i == j {
          assert s[i] == init[i] && s[j] == init[j];
        }
      }
      ElementsCard(init);
      ElementsPrefix(s, n);
      assert s[..n + 1] == s;
      if s[n].Ptr? {
        forall j | 0 <= j < n ensures init[j] != s[n] {
          assert init[j] == s[j];
        }
        ElementsMember(init, s[n].p);
      }
    }
  }

  // ---------------------------------------------------------------------------
  // Probing invariant of the big-mode table

  /** No bucket visited before probe step k is empty. */
  ghost predicate ClearPath<T>(s: seq<Slot<T>>, h: nat, k: nat)
    requires |s| > 0
  {
    forall j :: 0 <= j < k ==> s[Probe(h, j, |s|)] != Empty
  }

  /** The pointer in bucket i, if any, is reachable from its hash without crossing an empty bucket. */
  ghost predicate Placed<T>(s: seq<Slot<T>>, hash: T -> nat, i: nat)
    requires i < |s|
  {
    s[i].Ptr? ==> exists k: nat :: Probe(hash(s[i].p), k, |s|) == i && ClearPath(s, hash(s[i].p), k)
  }

  ghost predicate WellPlaced<T>(s: seq<Slot<T>>, hash: T -> nat)
  {
    |s| > 0 && forall i :: 0 <= i < |s| ==> Placed(s, hash, i)
  }

  /** What FindBucketFor and doFind need of the table: power-of-two size, an empty bucket, placement. */
  ghost predicate HashTable<T>(s: seq<Slot<T>>, hash: T -> nat)
  {
    IsPow2(|s|) && HasEmpty(s) && WellPlaced(s, hash)
  }

  /**
   * Storing x at the bucket of probe step k, when no earlier step met an empty
   * bucket, keeps every pointer reachable: buckets only go from empty to full.
   */
  lemma WellPlacedAfterFill<T>(s: seq<Slot<T>>, hash: T -> nat, b: nat, x: T, k: nat)
    requires WellPlaced(s, hash) && b < |s|
    requires Probe(hash(x), k, |s|) == b && ClearPath(s, hash(x), k)
    ensures WellPlaced(s[b := Ptr(x)], hash)
  {
    var t := s[b := Ptr(x)];
    forall i | 0 <= i < |t| ensures Placed(t, hash, i) {
      if i == b {
        assert ClearPath(t, hash(x), k);
      } else if t[i].Ptr? {
        assert Placed(s, hash, i);
        var h := hash(s[i].p);
        var kk: nat :| Probe(h, kk, |s|) == i && ClearPath(s, h, kk);
        assert ClearPath(t, h, kk);
      }
    }
  }

  /**
   * A pointer's probe sequence meets the pointer before any empty bucket: if step
   * k is empty, the pointer was met at an earlier step.
   */
  lemma MetBeforeEmpty<T>(s: seq<Slot<T>>, hash: T -> nat, i: nat, k: nat)
    requires WellPlaced(s, hash) && i < |s| && s[i].Ptr?
    ensures s[Probe(hash(s[i].p), k, |s|)] == Empty ==>
              exists j :: 0 <= j < k && s[Probe(hash(s[i].p), j, |s|)] == s[i]
  {
    var h := hash(s[i].p);
    assert Placed(s, hash, i);
    var kx: nat :| Probe(h, kx, |s|) == i && ClearPath(s, h, kx);
    if s[Probe(h, k, |s|)] == Empty {
      assert kx < k;
      assert s[Probe(h, kx, |s|)] == s[i];
    }
  }

  /**
   * A probe that has seen neither x nor an empty bucket before step k and meets an
   * empty bucket at step k proves that x is absent.
   */
  lemma AbsentPastEmpty<T>(s: seq<Slot<T>>, hash: T -> nat, x: T, k: nat)
    requires WellPlaced(s, hash)
    requires forall j :: 0 <= j < k ==> s[Probe(hash(x), j, |s|)] != Ptr(x)
    requires s[Probe(hash(x), k, |s|)] == Empty
    ensures x !in Elements(s)
  {
    forall i | 0 <= i < |s| && s[i].Ptr? ensures s[i] != Ptr(x) {
      MetBeforeEmpty(s, hash, i, k);
    }
    ElementsMember(s, x);
  }

  /** In a power-of-two table with an empty bucket, every probe sequence meets one within |s| steps. */
  lemma EmptyOnProbePath<T>(s: seq<Slot<T>>, h: nat)
    requires IsPow2(|s|) && HasEmpty(s)
    ensures exists k: nat :: k < |s| && s[Probe(h, k, |s|)] == Empty
  {
    var e :| 0 <= e < |s| && s[e] == Empty;
    ProbeCovers(h, |s|, e);
    var k: nat :| k < |s| && Probe(h, k, |s|) == e;
    assert s[Probe(h, k, |s|)] == Empty;
  }

  // ---------------------------------------------------------------------------
  // The two layouts

  /**
   * Smallest big-mode table the model admits: with at least 16 buckets the
   * rehash rule (fewer than N/8 empty buckets) leaves two empty buckets before an
   * insertion, so one remains after it. Every table SmallPtrSet.cpp creates has
   * 32 buckets or more.
   */
  const MinBigSize: nat := 16

  /** Small mode: the used prefix holds no empty marker and no duplicate, and NumTombstones counts its tombstones. */
  ghost predicate SmallLayout<T>(prefix: seq<Slot<T>>, numTombstones: nat)
  {
    && (forall i :: 0 <= i < |prefix| ==> prefix[i] != Empty)
    && Distinct(prefix)
    && numTombstones == Count(prefix, TombstoneKind)
  }

  /** Big mode: a probing hash table whose counters match its buckets. */
  ghost predicate BigLayout<T>(s: seq<Slot<T>>, numNonEmpty: nat, numTombstones: nat, hash: T -> nat)
  {
    && |s| >= MinBigSize
    && HashTable(s, hash)
    && Distinct(s)
    && numTombstones == Count(s, TombstoneKind)
    && numNonEmpty == Count(s, LiveKind) + numTombstones
  }

  /** size() = NumNonEmpty - NumTombstones is the number of elements, in both layouts. */
  lemma SmallLayoutSize<T>(prefix: seq<Slot<T>>, numTombstones: nat)
    requires SmallLayout(prefix, numTombstones)
    ensures |prefix| - numTombstones == |Elements(prefix)|
  {
    CountSplit(prefix);
    EmptyCount(prefix);
    ElementsCard(prefix);
  }

  lemma BigLayoutSize<T>(s: seq<Slot<T>>, numNonEmpty: nat, numTombstones: nat, hash: T -> nat)
    requires BigLayout(s, numNonEmpty, numTombstones, hash)
    ensures numNonEmpty - numTombstones == |Elements(s)|
    ensures numNonEmpty < |s|
  {
    CountSplit(s);
    EmptyCount(s);
    ElementsCard(s);
  }

  /**
   * Storing a pointer that is not in the table into the bucket FindBucketFor chose
   * keeps a big layout: a reused tombstone lowers NumTombstones, a used empty
   * bucket raises NumNonEmpty. Two empty buckets beforehand leave one afterwards.
   */
  lemma BigLayoutFill<T>(s: seq<Slot<T>>, numNonEmpty: nat, numTombstones: nat, hash: T -> nat, b: nat, x: T, k: nat)
    requires BigLayout(s, numNonEmpty, numTombstones, hash) && |s| - numNonEmpty >= 2
    requires b < |s| && Probe(hash(x), k, |s|) == b && ClearPath(s, hash(x), k)
    requires (s[b] == Tombstone || s[b] == Empty) && x !in Elements(s)
    ensures Elements(s[b := Ptr(x)]) == Elements(s) + {x}
    ensures s[b] == Tombstone ==>
              numTombstones >= 1 && BigLayout(s[b := Ptr(x)], numNonEmpty, numTombstones - 1, hash)
    ensures s[b] == Empty ==> BigLayout(s[b := Ptr(x)], numNonEmpty + 1, numTombstones, hash)
  {
    var t := s[b := Ptr(x)];
    CountUpdate(s, b, Ptr(x), TombstoneKind);
    CountUpdate(s, b, Ptr(x), LiveKind);
    ElementsFill(s, b, x);
    WellPlacedAfterFill(s, hash, b, x, k);
    CountSplit(s);
    CountSplit(t);
    EmptyCount(t);
  }

  /**
   * One step of Grow's rehash: storing the pointer of old bucket i in the bucket
   * FindBucketFor chose in the new table keeps the new table a hash table without
   * tombstones that holds exactly the pointers of the first i + 1 old buckets.
   * The new table is larger than the old element count, so an empty bucket remains.
   */
  lemma RehashStep<T>(was: seq<Slot<T>>, i: nat, t: seq<Slot<T>>, hash: T -> nat, b: nat, k: nat)
    requires Distinct(was) && |Elements(was)| < |t|
    requires i < |was| && was[i].Ptr?
    requires Elements(t) == Elements(was[..i]) && Count(t, TombstoneKind) == 0
    requires Distinct(t) && HashTable(t, hash)
    requires b < |t| && Probe(hash(was[i].p), k, |t|) == b && ClearPath(t, hash(was[i].p), k)
    requires t[b] == was[i] || t[b] == Tombstone || t[b] == Empty
    requires t[b] == was[i] <==> was[i].p in Elements(t)
    ensures var u := t[b := was[i]];
            && Elements(u) == Elements(was[..i + 1]) && Count(u, TombstoneKind) == 0
            && Distinct(u) && HashTable(u, hash)
  {
    var x := was[i].p;
    DistinctFresh(was, i);
    ElementsPrefix(was, i);
    var u := t[b := was[i]];
    assert u == t[b := Ptr(x)];
    ElementsFill(t, b, x);
    WellPlacedAfterFill(t, hash, b, x, k);
    CountUpdate(t, b, was[i], TombstoneKind);
    ElementsCard(u);
    ElementsPrefixSub(was, i + 1);
    SubsetSize(Elements(u), Elements(was));
    CountSplit(u);
    EmptyCount(u);
  }
}
