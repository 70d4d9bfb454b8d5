/** The best-first frontier: an array-list backed binary min-heap. */
module PriorityQueues {
  import opened Results
  import opened Sequences

  /** Heap order: no element has a smaller key than its parent; the parent of the
      element at `j > 0` is the one at (j - 1) / 2. */
  ghost predicate IsHeap<T>(h: seq<T>, key: T -> int) {
    forall i, j :: 0 <= i < |h| && 0 < j < |h| && i == (j - 1) / 2 ==> key(h[i]) <= key(h[j])
  }

  /** Heap order while the element at `k` is moving up: it may be smaller than its parent,
      and its parent is then no larger than its children. */
  ghost predicate HeapExceptUp<T>(h: seq<T>, key: T -> int, k: nat) {
    && (forall i, j :: 0 <= i < |h| && 0 < j < |h| && i == (j - 1) / 2 && j != k ==> key(h[i]) <= key(h[j]))
    && (0 < k < |h| ==> forall j :: 0 < j < |h| && (j - 1) / 2 == k ==> key(h[(k - 1) / 2]) <= key(h[j]))
  }

  /** Heap order while the element at `k` is moving down: it may be larger than its children,
      and its parent is then no larger than those children. */
  ghost predicate HeapExceptDown<T>(h: seq<T>, key: T -> int, k: nat) {
    && (forall i, j :: 0 <= i < |h| && 0 < j < |h| && i == (j - 1) / 2 && i != k ==> key(h[i]) <= key(h[j]))
    && (0 < k < |h| ==> forall j :: 0 < j < |h| && (j - 1) / 2 == k ==> key(h[(k - 1) / 2]) <= key(h[j]))
  }

  /** The children of the element at `k` are those at 2k + 1 and 2k + 2. */
  lemma ChildIndex(j: nat, k: nat)
    requires 0 < j
    ensures (j - 1) / 2 == k <==> j == 2 * k + 1 || j == 2 * k + 2
  {
  }

  /** One step of sift-up: swapping a too-small element with its parent moves the
      disorder one level up. */
  lemma SiftUpStep<T>(h: seq<T>, key: T -> int, k: nat)
    requires 0 < k < |h| && HeapExceptUp(h, key, k) && key(h[k]) < key(h[(k - 1) / 2])
    ensures HeapExceptUp(Swapped(h, k, (k - 1) / 2), key, (k - 1) / 2)
  {
    var p := (k - 1) / 2;
    var h' := Swapped(h, k, p);
    forall i, j | 0 <= i < |h'| && 0 < j < |h'| && i == (j - 1) / 2 && j != p
      ensures key(h'[i]) <= key(h'[j])
    {
      if j == k {
      } else if i == k {
        ChildIndex(j, k);
      } else if i == p {
        assert key(h[p]) <= key(h[j]);
      }
    }
    if 0 < p {
      forall j | 0 < j < |h'| && (j - 1) / 2 == p
        ensures key(h'[(p - 1) / 2]) <= key(h'[j])
      {
        assert key(h[(p - 1) / 2]) <= key(h[p]);
      }
    }
  }

  /** One step of sift-down: swapping a too-large element with its smaller child moves
      the disorder one level down. */
  lemma SiftDownStep<T>(h: seq<T>, key: T -> int, k: nat, s: nat)
    requires k < s < |h| && (s - 1) / 2 == k && HeapExceptDown(h, key, k)
    requires key(h[s]) < key(h[k])
    requires forall j :: 0 < j < |h| && (j - 1) / 2 == k ==> key(h[s]) <= key(h[j])
    ensures HeapExceptDown(Swapped(h, k, s), key, s)
  {
    var h' := Swapped(h, k, s);
    forall i, j | 0 <= i < |h'| && 0 < j < |h'| && i == (j - 1) / 2 && i != s
      ensures key(h'[i]) <= key(h'[j])
    {
      if i == k {
      } else if j == k {
        assert key(h[i]) <= key(h[s]);
      }
    }
    forall j | 0 < j < |h'| && (j - 1) / 2 == s
      ensures key(h'[(s - 1) / 2]) <= key(h'[j])
    {
      assert key(h[s]) <= key(h[j]);
    }
  }

  /** Sift-down stops once the element at `k` is no larger than its children. */
  lemma SiftDownDone<T>(h: seq<T>, key: T -> int, k: nat)
    requires k < |h| && HeapExceptDown(h, key, k)
    requires forall j :: 0 < j < |h| && (j - 1) / 2 == k ==> key(h[k]) <= key(h[j])
    ensures IsHeap(h, key)
  {
  }

  /** The choice `siftDown` makes at `k`: the smaller of the element and its children.
      Either the element stays and the heap is in order, or it swaps with that child and
      the disorder moves there. */
  lemma SiftDownChoice<T>(h: seq<T>, key: T -> int, k: nat, s: nat)
    requires k < |h| && HeapExceptDown(h, key, k)
    requires var s1 := if 2 * k + 1 < |h| && key(h[2 * k + 1]) < key(h[k]) then 2 * k + 1 else k;
             s == if 2 * k + 2 < |h| && key(h[2 * k + 2]) < key(h[s1]) then 2 * k + 2 else s1
    ensures s == k ==> IsHeap(h, key)
    ensures s != k ==> k < s < |h| && HeapExceptDown(Swapped(h, k, s), key, s)
  {
    if s == k {
      forall j | 0 < j < |h| && (j - 1) / 2 == k ensures key(h[k]) <= key(h[j]) {
        ChildIndex(j, k);
      }
      SiftDownDone(h, key, k);
    } else {
      forall j | 0 < j < |h| && (j - 1) / 2 == k ensures key(h[s]) <= key(h[j]) {
        ChildIndex(j, k);
      }
      ChildIndex(s, k);
      SiftDownStep(h, key, k, s);
    }
  }

  /** A new element at the tail of a heap is out of order at most with its parent. */
  lemma AppendExceptUp<T>(h: seq<T>, key: T -> int, x: T)
    requires IsHeap(h, key)
    ensures HeapExceptUp(h + [x], key, |h|)
  {
  }

  /** Dropping the tail of a heap and putting the old tail at the root leaves the new root
      as the only element out of order. */
  lemma ReplaceRootExceptDown<T>(h: seq<T>, key: T -> int)
    requires IsHeap(h, key) && |h| >= 2
    ensures HeapExceptDown(h[..|h| - 1][0 := h[|h| - 1]], key, 0)
  {
  }

  /** In a heap the root has the smallest key. */
  lemma {:induction false} RootIsMinimum<T>(h: seq<T>, key: T -> int, i: nat)
    requires IsHeap(h, key) && i < |h|
    ensures key(h[0]) <= key(h[i])
    decreases i
  {
    if i > 0 {
      RootIsMinimum(h, key, (i - 1) / 2);
    }
  }

  /** Moving the last item to the root drops the old root and nothing else. */
  lemma ReplaceRootItems<T>(h: seq<T>)
    requires |h| >= 2
    ensures multiset(h[..|h| - 1][0 := h[|h| - 1]]) + multiset{h[0]} == multiset(h)
  {
    var last := h[|h| - 1];
    var middle := h[1..|h| - 1];
    assert h[..|h| - 1][0 := last] == [last] + middle;
    assert h == [h[0]] + middle + [last];
  }

  /** Adding the same item to two multisets keeps them apart or together. */
  lemma Cancel<T>(a: multiset<T>, b: multiset<T>, x: T)
    requires a + multiset{x} == b + multiset{x}
    ensures a == b
  {
    assert forall y :: a[y] == (a + multiset{x})[y] - multiset{x}[y];
  }

  /** The items of `s` with one occurrence of `x` removed. */
  lemma RemoveOccurrence<T>(s: seq<T>, x: T) returns (r: seq<T>)
    requires x in multiset(s)
    ensures multiset(s) == multiset(r) + multiset{x}
  {
    var i :| 0 <= i < |s| && s[i] == x;
    r := s[..i] + s[i + 1..];
    assert s == s[..i] + [x] + s[i + 1..];
  }

  /** Every item of a heap has a key no smaller than the root's. */
  lemma MinimumAtRoot<T>(h: seq<T>, key: T -> int)
    requires IsHeap(h, key) && |h| > 0
    ensures forall x :: x in h ==> key(h[0]) <= key(x)
  {
    forall x | x in h ensures key(h[0]) <= key(x) {
      var i :| 0 <= i < |h| && h[i] == x;
      RootIsMinimum(h, key, i);
    }
  }

  /** A min-priority queue; `heap` is the backing `ArrayList`, and `key` is the int the
      comparator compares (`Comparator.comparingInt`). The ghost `contents` lists the items
      in the order they were enqueued; the heap holds the same items in heap order. */
  class PriorityQueue<T> {
    var heap: seq<T>
    ghost var contents: seq<T>
    const key: T -> int

    ghost predicate Valid()
      reads this
    {
      IsHeap(heap, key) && multiset(heap) == multiset(contents)
    }

    constructor (key: T -> int)
      ensures Valid() && heap == [] && contents == [] && this.key == key
    {
      this.key := key;
      heap := [];
      contents := [];
    }

    /** Adds the item at the tail and sifts it up. */
    method Enqueue(item: T)
      requires Valid()
      modifies this
      ensures Valid()
      ensures |heap| == old(|heap|) + 1
      ensures contents == old(contents) + [item]
    {
      AppendExceptUp(heap, key, item);
      heap := heap + [item];
      contents := contents + [item];
      SiftUp(|heap| - 1);
    }

    /** Removes and returns an element of least key: the root is replaced by the last
        element, which then sifts down. An empty queue throws and stays empty. */
    method Dequeue() returns (r: Result<T>)
      requires Valid()
      modifies this
      ensures Valid()
      ensures old(heap) == [] ==> r == Failure(IllegalState("PriorityQueue is empty")) && heap == []
      ensures old(heap) != [] ==> && r.Success? && r.value in old(heap)
                                  && (forall x :: x in old(heap) ==> key(r.value) <= key(x))
                                  && |heap| == old(|heap|) - 1
                                  && old(multiset(contents)) == multiset(contents) + multiset{r.value}
    {
      var empty := IsEmpty();
      if empty {
        return Failure(IllegalState("PriorityQueue is empty"));
      }
      ghost var before := heap;
      var root := heap[0];
      assert root in multiset(heap);
      contents := RemoveOccurrence(contents, root);
      RemoveRoot();
      Cancel(multiset(heap), multiset(contents), root);
      MinimumAtRoot(before, key);
      r := Success(root);
    }

    /** The heap part of `dequeue`: the last element replaces the root and sifts down. */
    method RemoveRoot()
      requires IsHeap(heap, key) && |heap| > 0
      modifies this
      ensures IsHeap(heap, key) && |heap| == old(|heap|) - 1
      ensures multiset(heap) + multiset{old(heap[0])} == old(multiset(heap))
      ensures contents == old(contents)
    {
      ghost var before := heap;
      var lastItem := heap[|heap| - 1];
      heap := heap[..|heap| - 1];
      if |heap| > 0 {
        ReplaceRootExceptDown(before, key);
        ReplaceRootItems(before);
        heap := heap[0 := lastItem];
        SiftDown(0);
      } else {
        assert before == [before[0]];
      }
    }

    method IsEmpty() returns (empty: bool)
      ensures empty <==> |heap| == 0
      ensures Valid() ==> (empty <==> contents == [])
    {
      empty := |heap| == 0;
      assert |multiset(heap)| == |heap| && |multiset(contents)| == |contents|;
    }

    /** Moves the element at `index` up while it has a smaller key than its parent. */
    method SiftUp(index: nat)
      requires index < |heap| && HeapExceptUp(heap, key, index)
      modifies this
      ensures IsHeap(heap, key)
      ensures |heap| == old(|heap|) && multiset(heap) == old(multiset(heap))
      ensures contents == old(contents)
    {
      var i: nat := index;
      // Java's `(index - 1) / 2` truncates, giving 0 at the root
      var parent := if i > 0 then (i - 1) / 2 else 0;
      while i > 0 && key(heap[i]) < key(heap[parent])
        invariant i < |heap| == old(|heap|)
        invariant parent == if i > 0 then (i - 1) / 2 else 0
        invariant HeapExceptUp(heap, key, i)
        invariant multiset(heap) == old(multiset(heap))
        invariant contents == old(contents)
        decreases i
      {
        SiftUpStep(heap, key, i);
        Swap(i, parent);
        i := parent;
        parent := if i > 0 then (i - 1) / 2 else 0;
      }
    }

    /** Moves the element at `index` down, swapping it with its smaller child, while that
        child has a smaller key. */
    method SiftDown(index: nat)
      requires index < |heap| && HeapExceptDown(heap, key, index)
      modifies this
      ensures IsHeap(heap, key)
      ensures |heap| == old(|heap|) && multiset(heap) == old(multiset(heap))
      ensures contents == old(contents)
      decreases |heap| - index
    {
      var leftChild := 2 * index + 1;
      var rightChild := 2 * index + 2;
      var smallest := index;
      if leftChild < |heap| && key(heap[leftChild]) < key(heap[smallest]) {
        smallest := leftChild;
      }
      if rightChild < |heap| && key(heap[rightChild]) < key(heap[smallest]) {
        smallest := rightChild;
      }
      SiftDownChoice(heap, key, index, smallest);
      if smallest != index {
        Swap(index, smallest);
        SiftDown(smallest);
      }
    }

    /** Exchanges the elements at `i` and `j`. */
    method Swap(i: nat, j: nat)
      requires i < |heap| && j < |heap|
      modifies this
      ensures heap == Swapped(old(heap), i, j) && contents == old(contents)
    {
      var temp := heap[i];
      heap := heap[i := heap[j]];
      heap := heap[j := temp];
    }
  }
}
