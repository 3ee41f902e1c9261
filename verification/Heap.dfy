/** The index arithmetic of the binary heap in pkg/time/timer.go, on the sequence of
    its keys: what one exchange of up or down does to the heap order. */
module Heaps {

  /** The parent slot, with Go's division: it truncates, so slot 0 is its own parent. */
  function Parent(j: nat): (i: nat)
    ensures i <= j && (i < j <==> 0 < j)
  {
    if j == 0 then 0 else (j - 1) / 2
  }

  lemma Children(i: nat)
    ensures forall k: nat :: 0 < k && Parent(k) == i <==> k == 2 * i + 1 || k == 2 * i + 2
  {
  }

  /** The key in slot k is not below the one in its parent slot. */
  predicate Ordered(keys: seq<int>, k: nat)
    requires k < |keys|
  {
    keys[Parent(k)] <= keys[k]
  }

  /** The first n slots form a min-heap. */
  ghost predicate Heap(keys: seq<int>, n: nat)
    requires n <= |keys|
  {
    forall k :: 0 <= k < n ==> Ordered(keys, k)
  }

  /** The children of slot j are not below the parent of slot j. */
  ghost predicate Bridged(keys: seq<int>, n: nat, j: nat)
    requires j < n <= |keys|
  {
    0 < j ==> forall k :: 0 <= k < n && Parent(k) == j ==> keys[Parent(j)] <= keys[k]
  }

  /** A heap except that slot j may be below its parent. */
  ghost predicate HeapButLow(keys: seq<int>, n: nat, j: nat)
    requires j < n <= |keys|
  {
    && (forall k :: 0 <= k < n && k != j ==> Ordered(keys, k))
    && Bridged(keys, n, j)
  }

  function Exchange<T>(s: seq<T>, i: nat, j: nat): (r: seq<T>)
    requires i < |s| && j < |s|
    ensures |r| == |s| && r[i] == s[j] && r[j] == s[i]
    ensures forall k :: 0 <= k < |s| && k != i && k != j ==> r[k] == s[k]
  {
    s[i := s[j]][j := s[i]]
  }

  lemma {:induction false} RootIsLeast(keys: seq<int>, n: nat, k: nat)
    requires k < n <= |keys| && Heap(keys, n)
    ensures keys[0] <= keys[k]
  {
    if k != 0 {
      assert Ordered(keys, k);
      RootIsLeast(keys, n, Parent(k));
    }
  }

  /** One step of up. */
  lemma UpStep(keys: seq<int>, n: nat, j: nat)
    requires 0 < j < n <= |keys| && HeapButLow(keys, n, j)
    requires keys[j] < keys[Parent(j)]
    ensures HeapButLow(Exchange(keys, Parent(j), j), n, Parent(j))
  {
    hide Parent;
    var i := Parent(j);
    var after := Exchange(keys, i, j);
    assert Ordered(keys, i);
    forall k | 0 <= k < n
      ensures k != i ==> Ordered(after, k)
      ensures 0 < i && Parent(k) == i ==> after[Parent(i)] <= after[k]
    {
      assert k != j ==> Ordered(keys, k);
    }
  }

  /** Up stops at the root or below a parent that is in order. */
  lemma UpDone(keys: seq<int>, n: nat, j: nat)
    requires j < n <= |keys| && HeapButLow(keys, n, j)
    requires j == 0 || keys[Parent(j)] <= keys[j]
    ensures Heap(keys, n)
    ensures keys[0] <= keys[j]
  {
    assert forall k :: 0 <= k < n ==> Ordered(keys, k);
    RootIsLeast(keys, n, j);
  }

  /** What down keeps while it carries the key that started in slot i0 and is now in slot i:
      once it has moved, slot i0 holds one of its former children and is in order. */
  ghost predicate Sinking(keys: seq<int>, n: nat, i0: nat, i: nat)
    requires i < n <= |keys|
  {
    && (forall k :: 0 <= k < n && (k == i0 ==> i != i0) && Parent(k) != i ==> Ordered(keys, k))
    && Bridged(keys, n, i)
  }

  /** One step of down: slot c is the lesser child of slot i. */
  lemma DownStep(keys: seq<int>, n: nat, i0: nat, i: nat, c: nat)
    requires i0 <= i < n <= |keys| && Sinking(keys, n, i0, i)
    requires (c == 2 * i + 1 || c == 2 * i + 2) && c < n
    requires keys[c] <= keys[2 * i + 1] && (2 * i + 2 < n ==> keys[c] <= keys[2 * i + 2])
    requires keys[c] < keys[i]
    ensures Sinking(Exchange(keys, i, c), n, i0, c)
  {
    hide Parent;
    Children(i);
    var after := Exchange(keys, i, c);
    forall k | 0 <= k < n
      ensures Parent(k) != c ==> Ordered(after, k)
      ensures Parent(k) == c ==> after[Parent(c)] <= after[k]
    {
      assert k != i0 && Parent(k) != i ==> Ordered(keys, k);
    }
  }

  /** Down stops where no child is below the carried key; only slot i0 may still be below its parent. */
  lemma DownDone(keys: seq<int>, n: nat, i0: nat, i: nat)
    requires i0 <= i < n <= |keys| && Sinking(keys, n, i0, i)
    requires (2 * i + 1 < n ==> keys[i] <= keys[2 * i + 1]) && (2 * i + 2 < n ==> keys[i] <= keys[2 * i + 2])
    ensures HeapButLow(keys, n, i0)
  {
    hide Parent;
    Children(i);
    forall k | 0 <= k < n && k != i0
      ensures Ordered(keys, k)
    {
      assert Parent(k) != i ==> Ordered(keys, k);
    }
    assert i != i0 ==> Ordered(keys, i0);
  }

  /** Appending a key leaves only the new slot possibly below its parent. */
  lemma Appended(keys: seq<int>, key: int)
    requires Heap(keys, |keys|)
    ensures HeapButLow(keys + [key], |keys| + 1, |keys|)
  {
    forall k | 0 <= k < |keys|
      ensures Ordered(keys + [key], k)
    {
      assert Ordered(keys, k);
    }
  }

  /** Exchanging slot i with the last one leaves, before the last, only slot i out of order. */
  lemma SwappedOut(keys: seq<int>, i: nat)
    requires i < |keys| - 1 && Heap(keys, |keys|)
    ensures Sinking(Exchange(keys, i, |keys| - 1), |keys| - 1, i, i)
  {
    hide Parent;
    var last := |keys| - 1;
    var after := Exchange(keys, i, last);
    assert Ordered(keys, i);
    forall k | 0 <= k < last
      ensures k != i && Parent(k) != i ==> Ordered(after, k)
      ensures 0 < i && Parent(k) == i ==> after[Parent(i)] <= after[k]
    {
      assert Ordered(keys, k);
    }
  }

  lemma PrefixIsHeap(keys: seq<int>, n: nat, m: nat)
    requires n <= m <= |keys| && Heap(keys, m)
    ensures Heap(keys[..n], n)
  {
    forall k | 0 <= k < n
      ensures Ordered(keys[..n], k)
    {
      assert Ordered(keys, k);
    }
  }
}
