/** The array-backed binary min-heap of src/minheap.ts, ordered by a
    caller-supplied comparator. */
module MinHeap {
  import opened Outcomes

  /** `compare(a, b) < 0` means that `a` sorts strictly before `b`. */
  ghost function Cmp<T>(compare: (T, T) -> int, a: T, b: T): int
  {
    compare(a, b)
  }

  /** The heap is only meaningful for a comparator that is a total preorder:
      swapping the arguments flips the sign, and "does not sort after" is
      transitive. (The quantifiers are stated over `Cmp`, so that only the
      lemmas below, which mention `Cmp`, instantiate them.) */
  ghost predicate IsTotalPreorder<T(!new)>(compare: (T, T) -> int)
  {
    && (forall a, b :: Cmp(compare, a, b) < 0 <==> Cmp(compare, b, a) > 0)
    && (forall a, b, c :: Cmp(compare, a, b) <= 0 && Cmp(compare, b, c) <= 0 ==> Cmp(compare, a, c) <= 0)
  }

  /** Index of the parent of slot `i` in the implicit binary tree. */
  function Parent(i: nat): (p: nat)
    requires i > 0
    ensures p < i && (2 * p + 1 == i || 2 * p + 2 == i)
  {
    (i - 1) / 2
  }

  /** Heap order as the source maintains it: no element compares strictly
      below its parent. */
  ghost predicate HeapOrdered<T>(compare: (T, T) -> int, h: seq<T>)
  {
    forall i {:trigger h[Parent(i)]} :: 0 < i < |h| ==> compare(h[i], h[Parent(i)]) >= 0
  }

  /** In a heap-ordered sequence nothing compares strictly below the root. */
  lemma {:induction false} RootIsMinimal<T(!new)>(compare: (T, T) -> int, h: seq<T>, i: nat)
    requires IsTotalPreorder(compare) && HeapOrdered(compare, h)
    requires i < |h|
    ensures compare(h[i], h[0]) >= 0
  {
    if i > 0 {
      var p := Parent(i);
      RootIsMinimal(compare, h, p);
      assert Cmp(compare, h[i], h[p]) >= 0 && Cmp(compare, h[p], h[0]) >= 0;
      assert Cmp(compare, h[p], h[i]) <= 0 && Cmp(compare, h[0], h[p]) <= 0;
      assert Cmp(compare, h[0], h[i]) <= 0;
    } else {
      assert Cmp(compare, h[0], h[0]) == 0;
    }
  }

  /** Every element of a heap-ordered sequence is at least its root. */
  lemma RootBelowAll<T(!new)>(compare: (T, T) -> int, h: seq<T>)
    requires IsTotalPreorder(compare) && HeapOrdered(compare, h) && |h| > 0
    ensures forall x :: x in h ==> compare(x, h[0]) >= 0
  {
    forall x | x in h
      ensures compare(x, h[0]) >= 0
    {
      var i :| 0 <= i < |h| && h[i] == x;
      RootIsMinimal(compare, h, i);
    }
  }

  /** A prefix of a heap-ordered sequence is heap-ordered: dropping the last
      slot removes a leaf. */
  lemma PrefixHeapOrdered<T>(compare: (T, T) -> int, h: seq<T>, n: nat)
    requires HeapOrdered(compare, h) && n <= |h|
    ensures HeapOrdered(compare, h[..n])
  {
  }

  /** `s` with the entries at `i` and `j` exchanged. */
  function Swap<T>(s: seq<T>, i: nat, j: nat): (r: seq<T>)
    requires i < |s| && j < |s|
    ensures |r| == |s| && r[i] == s[j] && r[j] == s[i]
    ensures forall k :: 0 <= k < |s| && k != i && k != j ==> r[k] == s[k]
    ensures multiset(r) == multiset(s)
  {
    SwapKeepsMultiset(s, i, j);
    s[i := s[j]][j := s[i]]
  }

  lemma SwapKeepsMultiset<T>(s: seq<T>, i: nat, j: nat)
    requires i < |s| && j < |s|
    ensures multiset(s[i := s[j]][j := s[i]]) == multiset(s)
  {
    if i != j {
      var t := s[i := s[j]];
      assert multiset(t) == multiset(s) - multiset{s[i]} + multiset{s[j]};
      assert t[j] == s[j];
      assert multiset(t[j := s[i]]) == multiset(t) - multiset{s[j]} + multiset{s[i]};
      assert s[i] in multiset(s);
    }
  }

  /** Swapping the arguments of the comparator flips its sign. */
  lemma Flip<T(!new)>(compare: (T, T) -> int, a: T, b: T)
    requires IsTotalPreorder(compare)
    ensures compare(a, b) < 0 <==> compare(b, a) > 0
    ensures compare(a, b) >= 0 <==> compare(b, a) <= 0
  {
    assert Cmp(compare, a, b) < 0 <==> Cmp(compare, b, a) > 0;
    assert Cmp(compare, b, a) < 0 <==> Cmp(compare, a, b) > 0;
  }

  /** "Does not compare strictly below" is transitive. */
  lemma NotBelowTrans<T(!new)>(compare: (T, T) -> int, a: T, b: T, c: T)
    requires IsTotalPreorder(compare)
    requires compare(a, b) >= 0 && compare(b, c) >= 0
    ensures compare(a, c) >= 0
  {
    Flip(compare, a, b);
    Flip(compare, b, c);
    Flip(compare, a, c);
    assert Cmp(compare, c, b) <= 0 && Cmp(compare, b, a) <= 0;
  }

  /** If `b` compares strictly below `c` and `a` does not, then `a` does not
      compare strictly below `b`. */
  lemma NotBelowBelow<T(!new)>(compare: (T, T) -> int, a: T, b: T, c: T)
    requires IsTotalPreorder(compare)
    requires compare(a, c) >= 0 && compare(b, c) < 0
    ensures compare(a, b) >= 0
  {
    assert Cmp(compare, c, b) > 0;
    assert Cmp(compare, c, a) <= 0;
    assert Cmp(compare, a, b) == compare(a, b);
  }

  /** Strictly-below is transitive. */
  lemma BelowBelow<T(!new)>(compare: (T, T) -> int, a: T, b: T, c: T)
    requires IsTotalPreorder(compare)
    requires compare(a, b) < 0 && compare(b, c) < 0
    ensures compare(a, c) < 0
  {
    assert Cmp(compare, c, b) > 0;
    assert Cmp(compare, a, c) <= 0;
    assert Cmp(compare, a, c) < 0 <==> Cmp(compare, c, a) > 0;
  }

  /** The state of a sift-up at slot `k`: heap order holds everywhere except
      possibly between `k` and its parent, and `k`'s children are already at
      least `k`'s parent. */
  ghost predicate OrderedExceptUp<T>(compare: (T, T) -> int, h: seq<T>, k: nat)
  {
    && (forall i {:trigger h[Parent(i)]} :: 0 < i < |h| && i != k ==> compare(h[i], h[Parent(i)]) >= 0)
    && (k > 0 ==> forall i :: 0 < i < |h| && Parent(i) == k ==> compare(h[i], h[Parent(k)]) >= 0)
  }

  /** Swapping a slot that compares strictly below its parent moves the
      exception one level up. */
  lemma SiftUpStep<T(!new)>(compare: (T, T) -> int, h: seq<T>, k: nat)
    requires IsTotalPreorder(compare)
    requires 0 < k < |h| && OrderedExceptUp(compare, h, k)
    requires compare(h[k], h[Parent(k)]) < 0
    ensures OrderedExceptUp(compare, Swap(h, k, Parent(k)), Parent(k))
  {
    var p := Parent(k);
    var h' := Swap(h, k, p);
    forall i | 0 < i < |h'| && i != p
      ensures compare(h'[i], h'[Parent(i)]) >= 0
    {
      if i == k {
        Flip(compare, h[k], h[p]);
      } else if Parent(i) == k {
        assert compare(h[i], h[p]) >= 0;
      } else if Parent(i) == p {
        Flip(compare, h[k], h[p]);
        NotBelowTrans(compare, h[i], h[p], h[k]);
      }
    }
    if p > 0 {
      forall i | 0 < i < |h'| && Parent(i) == p
        ensures compare(h'[i], h'[Parent(p)]) >= 0
      {
        assert compare(h[p], h[Parent(p)]) >= 0;
        if i != k {
          NotBelowTrans(compare, h[i], h[p], h[Parent(p)]);
        }
      }
    }
  }

  /** A sift-up that stops at the root or below a parent it does not compare
      strictly below leaves the sequence heap-ordered. */
  lemma SiftUpDone<T>(compare: (T, T) -> int, h: seq<T>, k: nat)
    requires k < |h| && OrderedExceptUp(compare, h, k)
    requires k > 0 ==> compare(h[k], h[Parent(k)]) >= 0
    ensures HeapOrdered(compare, h)
  {
  }

  /** The state of a sift-down at slot `k`: heap order holds everywhere except
      possibly between `k` and its children, and those children are at least
      `k`'s parent. */
  ghost predicate OrderedExceptDown<T>(compare: (T, T) -> int, h: seq<T>, k: nat)
  {
    && (forall i {:trigger h[Parent(i)]} :: 0 < i < |h| && Parent(i) != k ==> compare(h[i], h[Parent(i)]) >= 0)
    && (k > 0 ==> forall i :: 0 < i < |h| && Parent(i) == k ==> compare(h[i], h[Parent(k)]) >= 0)
  }

  /** Swapping slot `k` with a child `c` that compares strictly below it and
      not above its sibling moves the exception down to `c`. */
  lemma SiftDownStep<T(!new)>(compare: (T, T) -> int, h: seq<T>, k: nat, c: nat)
    requires IsTotalPreorder(compare)
    requires k < |h| && OrderedExceptDown(compare, h, k)
    requires c < |h| && (c == 2 * k + 1 || c == 2 * k + 2)
    requires compare(h[c], h[k]) < 0
    requires c == 2 * k + 1 && c + 1 < |h| ==> compare(h[c + 1], h[c]) >= 0
    requires c == 2 * k + 2 ==> compare(h[c - 1], h[c]) >= 0
    ensures OrderedExceptDown(compare, Swap(h, k, c), c)
  {
    var h' := Swap(h, k, c);
    assert Parent(c) == k;
    forall i | 0 < i < |h'| && Parent(i) != c
      ensures compare(h'[i], h'[Parent(i)]) >= 0
    {
      if i == k {
      } else if i == c {
        Flip(compare, h[c], h[k]);
      } else if Parent(i) == k {
        assert i == 2 * k + 1 || i == 2 * k + 2;
      }
    }
    forall i | 0 < i < |h'| && Parent(i) == c
      ensures compare(h'[i], h'[Parent(c)]) >= 0
    {
      assert compare(h[i], h[c]) >= 0;
    }
  }

  /** What the loop body of the sift-down decides, in the code's own terms:
      no swap when neither child compares strictly below slot `k`; otherwise
      the left child if it compares strictly below `k` and the right child
      does not compare strictly below it, else the right child. Either way the
      sift-down makes progress towards heap order. */
  lemma SiftDownChoice<T(!new)>(compare: (T, T) -> int, h: seq<T>, k: nat, swapIdx: Option<nat>)
    requires IsTotalPreorder(compare)
    requires k < |h| && OrderedExceptDown(compare, h, k)
    requires var l, r := 2 * k + 1, 2 * k + 2;
      && (swapIdx.None? ==>
            (l < |h| ==> compare(h[l], h[k]) >= 0) && (r < |h| ==> compare(h[r], h[k]) >= 0))
      && (swapIdx == Some(l) ==>
            l < |h| && compare(h[l], h[k]) < 0 && (r < |h| ==> compare(h[r], h[l]) >= 0))
      && (swapIdx == Some(r) ==>
            r < |h| &&
            ((compare(h[l], h[k]) < 0 && compare(h[r], h[l]) < 0) ||
             (compare(h[l], h[k]) >= 0 && compare(h[r], h[k]) < 0)))
      && (swapIdx.Some? ==> swapIdx.value == l || swapIdx.value == r)
    ensures swapIdx.None? ==> HeapOrdered(compare, h)
    ensures swapIdx.Some? ==>
      k < swapIdx.value < |h| && OrderedExceptDown(compare, Swap(h, k, swapIdx.value), swapIdx.value)
  {
    var l, r := 2 * k + 1, 2 * k + 2;
    if swapIdx.None? {
      SiftDownDone(compare, h, k);
    } else if swapIdx.value == l {
      SiftDownStep(compare, h, k, l);
    } else {
      if compare(h[l], h[k]) < 0 {
        BelowBelow(compare, h[r], h[l], h[k]);
        Flip(compare, h[r], h[l]);
      } else {
        NotBelowBelow(compare, h[l], h[r], h[k]);
      }
      SiftDownStep(compare, h, k, r);
    }
  }

  /** A sift-down that stops where no child compares strictly below slot `k`
      leaves the sequence heap-ordered. */
  lemma SiftDownDone<T>(compare: (T, T) -> int, h: seq<T>, k: nat)
    requires k < |h| && OrderedExceptDown(compare, h, k)
    requires 2 * k + 1 < |h| ==> compare(h[2 * k + 1], h[k]) >= 0
    requires 2 * k + 2 < |h| ==> compare(h[2 * k + 2], h[k]) >= 0
    ensures HeapOrdered(compare, h)
  {
  }

  /** The loop of `pop` that sifts the element at the root down: while a
      child compares strictly below it, swap it with the smaller child (the
      left one on a tie). */
  method SiftDown<T(!new)>(compare: (T, T) -> int, h0: seq<T>) returns (h: seq<T>)
    requires IsTotalPreorder(compare)
    requires |h0| > 0 && OrderedExceptDown(compare, h0, 0)
    ensures HeapOrdered(compare, h)
    ensures multiset(h) == multiset(h0)
  {
    h := h0;
    var idx := 0;
    var length := |h|;
    var element := h[0];
    while true
      invariant 0 <= idx < length == |h|
      invariant h[idx] == element
      invariant multiset(h) == multiset(h0)
      invariant OrderedExceptDown(compare, h, idx)
      decreases length - idx
    {
      var leftChildIdx := 2 * idx + 1;
      var rightChildIdx := 2 * idx + 2;
      var leftChild: Option<T> := None;
      var swapIdx: Option<nat> := None;
      if leftChildIdx < length {
        leftChild := Some(h[leftChildIdx]);
        if compare(leftChild.value, element) < 0 {
          swapIdx := Some(leftChildIdx);
        }
      }
      if rightChildIdx < length {
        var rightChild := h[rightChildIdx];
        if (swapIdx.None? && compare(rightChild, element) < 0)
          || (leftChild.Some? && swapIdx.Some? && compare(rightChild, leftChild.value) < 0)
        {
          swapIdx := Some(rightChildIdx);
        }
      }
      SiftDownChoice(compare, h, idx, swapIdx);
      if swapIdx.None? {
        break;
      }
      h := Swap(h, idx, swapIdx.value);
      idx := swapIdx.value;
    }
  }

  /** The heap. JavaScript truthiness of element values, which `pop` consults,
      is given to the constructor as the predicate `truthy`. */
  class MinHeap<T(!new)> {
    var heap: seq<T>
    const compare: (T, T) -> int
    const truthy: T -> bool

    ghost predicate Valid()
      reads this
    {
      IsTotalPreorder(compare) && HeapOrdered(compare, heap)
    }

    constructor (compare: (T, T) -> int, truthy: T -> bool)
      requires IsTotalPreorder(compare)
      ensures Valid() && heap == []
      ensures this.compare == compare && this.truthy == truthy
    {
      this.heap := [];
      this.compare := compare;
      this.truthy := truthy;
    }

    method Size() returns (n: nat)
      ensures n == |heap|
    {
      n := |heap|;
    }

    /** The root, which nothing in the heap compares strictly below, or
        `None` (undefined) when the heap is empty. */
    method Peek() returns (r: Option<T>)
      requires Valid()
      ensures r.None? <==> heap == []
      ensures r.Some? ==> r.value == heap[0] && forall x :: x in heap ==> compare(x, r.value) >= 0
    {
      if |heap| > 0 {
        RootBelowAll(compare, heap);
        r := Some(heap[0]);
      } else {
        r := None;
      }
    }

    /** Appends `val` and sifts it up by swapping with its parent while it
        compares strictly below it. */
    method Push(val: T)
      requires Valid()
      modifies this
      ensures Valid()
      ensures |heap| == old(|heap|) + 1
      ensures multiset(heap) == old(multiset(heap)) + multiset{val}
    {
      heap := heap + [val];
      var idx := |heap| - 1;
      while idx > 0
        invariant 0 <= idx < |heap| == old(|heap|) + 1
        invariant multiset(heap) == old(multiset(heap)) + multiset{val}
        invariant OrderedExceptUp(compare, heap, idx)
      {
        var parentIdx := (idx - 1) / 2;
        if compare(heap[idx], heap[parentIdx]) < 0 {
          SiftUpStep(compare, heap, idx);
          heap := Swap(heap, idx, parentIdx);
          idx := parentIdx;
        } else {
          break;
        }
      }
      SiftUpDone(compare, heap, idx);
    }

    /** Removes and returns the root. The last element `end` is moved to the
        root and sifted down only when it is truthy; when it is falsy the
        last slot is simply dropped, so the old root stays in the heap and
        `end` is lost. */
    method Pop() returns (r: Option<T>)
      requires Valid()
      modifies this
      ensures Valid()
      ensures old(heap) == [] ==> r == None && heap == []
      ensures old(heap) != [] ==> r == Some(old(heap)[0]) && |heap| == old(|heap|) - 1
      ensures r.Some? ==> NoneBelow(compare, old(heap), r.value) && NoneBelow(compare, heap, r.value)
      ensures |old(heap)| > 1 && truthy(old(heap)[|old(heap)| - 1]) ==>
                multiset(heap) == old(multiset(heap)) - multiset{old(heap)[0]}
      ensures |old(heap)| > 1 && !truthy(old(heap)[|old(heap)| - 1]) ==>
                heap == old(heap)[..|old(heap)| - 1]
    {
      if |heap| == 0 {
        return None;
      }
      ghost var before := heap;
      RootBelowAll(compare, before);
      var result := heap[0];
      var end := heap[|heap| - 1];
      heap := heap[..|heap| - 1];
      PrefixHeapOrdered(compare, before, |heap|);
      if |heap| > 0 && truthy(end) {
        Reroot(compare, before);
        var h := heap[0 := end];
        assert multiset(h) == multiset(before) - multiset{result};
        h := SiftDown(compare, h);
        heap := h;
        SubMultisetAbove(compare, before, heap, result);
      } else {
        assert before == heap + [end];
        SubMultisetAbove(compare, before, heap, result);
      }
      r := Some(result);
    }
  }

  /** Moving the last element of a heap of at least two elements to the root
      removes exactly one occurrence of the old root and leaves heap order
      broken at most below the root. */
  lemma Reroot<T>(compare: (T, T) -> int, before: seq<T>)
    requires HeapOrdered(compare, before) && |before| > 1
    ensures var h := before[..|before| - 1][0 := before[|before| - 1]];
      && multiset(h) == multiset(before) - multiset{before[0]}
      && OrderedExceptDown(compare, h, 0)
  {
    var n := |before|;
    var h := before[..n - 1][0 := before[n - 1]];
    assert before == [before[0]] + before[1..n - 1] + [before[n - 1]];
    assert h == [before[n - 1]] + before[1..n - 1];
  }

  /** Whatever survives from a sequence all of whose elements are at least
      `x` is at least `x`. */
  lemma SubMultisetAbove<T>(compare: (T, T) -> int, before: seq<T>, after: seq<T>, x: T)
    requires forall y :: y in before ==> compare(y, x) >= 0
    requires multiset(after) <= multiset(before)
    ensures forall y :: y in after ==> compare(y, x) >= 0
  {
    forall y | y in after
      ensures compare(y, x) >= 0
    {
      assert y in multiset(after);
    }
  }

  /** No element of `s` compares strictly below `v`. */
  ghost predicate NoneBelow<T>(compare: (T, T) -> int, s: seq<T>, v: T)
  {
    forall x :: x in s ==> compare(x, v) >= 0
  }

  ghost predicate AllTruthy<T>(truthy: T -> bool, s: seq<T>)
  {
    forall x :: x in s ==> truthy(x)
  }

  /** Non-decreasing under `compare`. */
  ghost predicate SortedBy<T>(compare: (T, T) -> int, s: seq<T>)
  {
    forall i :: 0 < i < |s| ==> compare(s[i - 1], s[i]) <= 0
  }

  /** Appending a value no earlier value exceeds keeps a sequence sorted. */
  lemma SortedAppend<T(!new)>(compare: (T, T) -> int, s: seq<T>, v: T)
    requires IsTotalPreorder(compare) && SortedBy(compare, s)
    requires |s| > 0 ==> compare(v, s[|s| - 1]) >= 0
    ensures SortedBy(compare, s + [v])
  {
    if |s| > 0 {
      Flip(compare, v, s[|s| - 1]);
    }
  }

  /** When every element is truthy, a pop removes exactly the root. */
  lemma PopOfTruthy<T>(truthy: T -> bool, was: seq<T>, now: seq<T>, v: T)
    requires |was| > 0 && v == was[0] && AllTruthy(truthy, was)
    requires |was| > 1 && truthy(was[|was| - 1]) ==> multiset(now) == multiset(was) - multiset{v}
    requires |was| == 1 ==> now == []
    ensures multiset(now) == multiset(was) - multiset{v}
    ensures AllTruthy(truthy, now)
  {
    if |was| == 1 {
      assert was == [v];
    } else {
      assert was[|was| - 1] in was;
    }
    forall x | x in now
      ensures truthy(x)
    {
      assert x in multiset(now);
    }
  }

  /** Pops every element, as the tests do after a series of pushes: the
      popped values come out in non-decreasing `compare` order, and when
      every stored value is truthy they are exactly the stored values. */
  method DrainInOrder<T(!new)>(h: MinHeap<T>) returns (out: seq<T>)
    requires h.Valid()
    modifies h
    ensures h.Valid() && h.heap == []
    ensures SortedBy(h.compare, out)
    ensures AllTruthy(h.truthy, old(h.heap)) ==> multiset(out) == old(multiset(h.heap))
  {
    out := [];
    ghost var allTruthy := AllTruthy(h.truthy, h.heap);
    while true
      invariant h.Valid()
      invariant SortedBy(h.compare, out)
      invariant |out| > 0 ==> NoneBelow(h.compare, h.heap, out[|out| - 1])
      invariant allTruthy ==> AllTruthy(h.truthy, h.heap)
      invariant allTruthy ==> multiset(out) + multiset(h.heap) == old(multiset(h.heap))
      decreases |h.heap|
    {
      ghost var was := h.heap;
      var r := h.Pop();
      if r.None? {
        break;
      }
      assert r.value in was;
      assert |out| > 0 ==> h.compare(r.value, out[|out| - 1]) >= 0;
      SortedAppend(h.compare, out, r.value);
      if allTruthy {
        PopOfTruthy(h.truthy, was, h.heap, r.value);
        assert multiset(out + [r.value]) == multiset(out) + multiset{r.value};
      }
      out := out + [r.value];
    }
  }
}
