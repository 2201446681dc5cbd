/** Array-based binary min-heap of node handles. The heap stores handles only;
    every comparison looks the weight up in the node arena it was built over. */
module Heap {
  import opened Arena

  /** Slot of the parent of heap slot k. */
  function Parent(k: int): int
    requires k > 0
  {
    (k - 1) / 2
  }

  /** The heap's order on handles: lighter first, and on equal weight the
      smaller handle first. */
  predicate Precedes(w: seq<int>, a: int, b: int)
    requires 0 <= a < |w| && 0 <= b < |w|
  {
    w[a] < w[b] || (w[a] == w[b] && a < b)
  }

  /** Precedes is a strict total order on handles. */
  lemma PrecedesIsStrictTotalOrder(w: seq<int>, a: int, b: int, c: int)
    requires 0 <= a < |w| && 0 <= b < |w| && 0 <= c < |w|
    ensures !Precedes(w, a, a)
    ensures Precedes(w, a, b) ==> !Precedes(w, b, a)
    ensures Precedes(w, a, b) && Precedes(w, b, c) ==> Precedes(w, a, c)
    ensures a != b ==> Precedes(w, a, b) || Precedes(w, b, a)
  {
  }

  /** Two handles that are both minimal in a collection are the same handle:
      which handle a pop returns is fixed by the collection alone. */
  lemma MinimumIsUnique(w: seq<int>, m: multiset<int>, x: int, y: int)
    requires forall z :: z in m ==> 0 <= z < |w|
    requires x in m && y in m
    requires forall z :: z in m ==> !Precedes(w, z, x)
    requires forall z :: z in m ==> !Precedes(w, z, y)
    ensures x == y
  {
    PrecedesIsStrictTotalOrder(w, x, y, x);
  }

  ghost predicate InRange(w: seq<int>, s: seq<int>)
  {
    forall k :: 0 <= k < |s| ==> 0 <= s[k] < |w|
  }

  /** No slot precedes its parent. */
  ghost predicate IsHeap(w: seq<int>, s: seq<int>)
  {
    && InRange(w, s)
    && forall k :: 0 < k < |s| ==> !Precedes(w, s[k], s[Parent(k)])
  }

  /** The state inside sift-up: only slot i may precede its parent, and the
      parent of i does not come after any child of i. */
  ghost predicate UpBrokenAt(w: seq<int>, s: seq<int>, i: int)
  {
    && InRange(w, s)
    && 0 <= i < |s|
    && (forall k :: 0 < k < |s| && k != i ==> !Precedes(w, s[k], s[Parent(k)]))
    && (0 < i ==> forall c :: 0 < c < |s| && Parent(c) == i ==> !Precedes(w, s[c], s[Parent(i)]))
  }

  /** The state inside sift-down: only the children of slot i may precede
      their parent, and the parent of i does not come after any child of i. */
  ghost predicate DownBrokenAt(w: seq<int>, s: seq<int>, i: int)
  {
    && InRange(w, s)
    && 0 <= i < |s|
    && (forall k :: 0 < k < |s| && Parent(k) != i ==> !Precedes(w, s[k], s[Parent(k)]))
    && (0 < i ==> forall c :: 0 < c < |s| && Parent(c) == i ==> !Precedes(w, s[c], s[Parent(i)]))
  }

  function Swap(s: seq<int>, i: int, j: int): (r: seq<int>)
    requires 0 <= i < |s| && 0 <= j < |s|
    ensures |r| == |s| && r[i] == s[j] && r[j] == s[i]
    ensures forall k :: 0 <= k < |s| && k != i && k != j ==> r[k] == s[k]
    ensures multiset(r) == multiset(s)
  {
    s[i := s[j]][j := s[i]]
  }

  /** The root of a heap comes no later than any element. */
  lemma {:induction false} RootFirst(w: seq<int>, s: seq<int>, k: int)
    requires IsHeap(w, s) && 0 <= k < |s|
    ensures !Precedes(w, s[k], s[0])
    decreases k
  {
    if k > 0 {
      RootFirst(w, s, Parent(k));
      PrecedesIsStrictTotalOrder(w, s[0], s[Parent(k)], s[k]);
    }
  }

  /** The root of a non-empty heap comes no later than any handle it holds. */
  lemma RootIsMinimum(w: seq<int>, s: seq<int>)
    requires IsHeap(w, s) && |s| > 0
    ensures forall x :: x in multiset(s) ==> !Precedes(w, x, s[0])
  {
    forall x | x in multiset(s)
      ensures !Precedes(w, x, s[0])
    {
      var k :| 0 <= k < |s| && s[k] == x;
      RootFirst(w, s, k);
    }
  }

  /** The slots after pop has moved the last handle into the root slot. */
  function RootReplacedByLast(s: seq<int>): (r: seq<int>)
    requires |s| > 1
    ensures |r| == |s| - 1 && r[0] == s[|s| - 1]
    ensures forall k :: 0 < k < |r| ==> r[k] == s[k]
    ensures multiset(r) == multiset(s) - multiset{s[0]}
  {
    var r := s[0 := s[|s| - 1]][..|s| - 1];
    assert s == [s[0]] + s[1..|s| - 1] + [s[|s| - 1]];
    assert r == [s[|s| - 1]] + s[1..|s| - 1];
    r
  }

  /** Moving the last handle of a heap into the root slot breaks the order
      at most between the root and its children. */
  lemma RootReplacedByLastShape(w: seq<int>, s: seq<int>)
    requires IsHeap(w, s) && |s| > 1
    ensures DownBrokenAt(w, RootReplacedByLast(s), 0)
  {
    var t := RootReplacedByLast(s);
    forall k | 0 < k < |t| && Parent(k) != 0
      ensures !Precedes(w, t[k], t[Parent(k)])
    {
      assert t[k] == s[k] && t[Parent(k)] == s[Parent(k)];
    }
  }

  /** The heap order depends only on the weights of the handles it holds. */
  lemma IsHeapKeptByWeights(w: seq<int>, w': seq<int>, s: seq<int>)
    requires IsHeap(w, s) && |w'| == |w|
    requires forall k :: 0 <= k < |s| ==> w'[s[k]] == w[s[k]]
    ensures IsHeap(w', s)
  {
    forall k | 0 < k < |s|
      ensures !Precedes(w', s[k], s[Parent(k)])
    {
      assert w'[s[k]] == w[s[k]] && w'[s[Parent(k)]] == w[s[Parent(k)]];
    }
  }

  /** Sift-up ends when slot i reaches the root or no longer precedes its parent. */
  lemma UpDone(w: seq<int>, s: seq<int>, i: int)
    requires UpBrokenAt(w, s, i)
    requires i == 0 || !Precedes(w, s[i], s[Parent(i)])
    ensures IsHeap(w, s)
  {
  }

  /** One sift-up step: swapping slot i with its parent moves the only
      violation to the parent's slot. */
  lemma UpStep(w: seq<int>, s: seq<int>, i: int)
    requires UpBrokenAt(w, s, i) && i > 0
    requires Precedes(w, s[i], s[Parent(i)])
    ensures UpBrokenAt(w, Swap(s, i, Parent(i)), Parent(i))
  {
    var p := Parent(i);
    var t := Swap(s, i, p);
    forall k | 0 < k < |t| && k != p
      ensures !Precedes(w, t[k], t[Parent(k)])
    {
      if k == i {
      } else if Parent(k) == i {
        assert !Precedes(w, s[k], s[p]);
      } else if Parent(k) == p {
        assert !Precedes(w, s[k], s[p]);
        PrecedesIsStrictTotalOrder(w, s[i], s[p], s[k]);
      } else {
        assert t[k] == s[k] && t[Parent(k)] == s[Parent(k)];
      }
    }
    if 0 < p {
      forall c | 0 < c < |t| && Parent(c) == p
        ensures !Precedes(w, t[c], t[Parent(p)])
      {
        assert t[Parent(p)] == s[Parent(p)];
        assert !Precedes(w, s[p], s[Parent(p)]);
        if c == i {
        } else {
          assert !Precedes(w, s[c], s[p]);
          PrecedesIsStrictTotalOrder(w, s[Parent(p)], s[p], s[c]);
        }
      }
    }
  }

  /** The children of slot i are slots 2i+1 and 2i+2. */
  lemma ChildrenAre(i: int)
    requires i >= 0
    ensures forall c :: 0 < c && Parent(c) == i ==> c == 2 * i + 1 || c == 2 * i + 2
    ensures Parent(2 * i + 1) == i && Parent(2 * i + 2) == i
  {
  }

  /** One sift-down step at slot i, where m is the slot that comes first among
      i and its children: if m is i the order is restored, otherwise swapping
      i with m moves the only violation to m's children. */
  lemma SiftDownChoice(w: seq<int>, s: seq<int>, i: int, m: int)
    requires DownBrokenAt(w, s, i)
    requires m == i || (m == 2 * i + 1 && m < |s|) || (m == 2 * i + 2 && m < |s|)
    requires 2 * i + 1 < |s| ==> !Precedes(w, s[2 * i + 1], s[m])
    requires 2 * i + 2 < |s| ==> !Precedes(w, s[2 * i + 2], s[m])
    requires m != i ==> Precedes(w, s[m], s[i])
    ensures m == i ==> IsHeap(w, s)
    ensures m != i ==> DownBrokenAt(w, Swap(s, i, m), m)
  {
    ChildrenAre(i);
    if m != i {
      DownStep(w, s, i, m);
    }
  }

  lemma DownStep(w: seq<int>, s: seq<int>, i: int, m: int)
    requires DownBrokenAt(w, s, i)
    requires 0 < m < |s| && Parent(m) == i
    requires Precedes(w, s[m], s[i])
    requires forall c :: 0 < c < |s| && Parent(c) == i ==> !Precedes(w, s[c], s[m])
    ensures DownBrokenAt(w, Swap(s, i, m), m)
  {
    var t := Swap(s, i, m);
    forall k | 0 < k < |t| && Parent(k) != m
      ensures !Precedes(w, t[k], t[Parent(k)])
    {
      if k == m {
        PrecedesIsStrictTotalOrder(w, s[m], s[i], s[m]);
      } else if Parent(k) == i {
        assert !Precedes(w, s[k], s[m]);
      } else if k == i {
        assert !Precedes(w, s[m], s[Parent(i)]);
      } else {
        assert t[k] == s[k] && t[Parent(k)] == s[Parent(k)];
      }
    }
    forall c | 0 < c < |t| && Parent(c) == m
      ensures !Precedes(w, t[c], t[Parent(m)])
    {
      assert t[c] == s[c];
    }
  }

  class MinHeap {
    /** The arena whose weights order the heap. */
    const store: NodeStore
    const data: array<int>
    var size: int

    /** Everything but the order itself. */
    ghost predicate Shaped()
      reads this, data, store
    {
      && store.Valid()
      && data.Length == MAX_NODES
      && data != store.weight
      && 0 <= size <= MAX_NODES
    }

    ghost predicate Valid()
      reads this, data, store, store.weight
    {
      Shaped() && IsHeap(store.weight[..], data[..size])
    }

    /** The handles held, as a multiset. */
    ghost function Contents(): multiset<int>
      reads this, data
      requires 0 <= size <= data.Length
    {
      multiset(data[..size])
    }

    constructor (store: NodeStore)
      requires store.Valid()
      ensures Valid() && this.store == store && fresh(data)
      ensures size == 0 && Contents() == multiset{}
    {
      this.store := store;
      data := new int[MAX_NODES](_ => 0);
      size := 0;
    }

    /** empty(): the heap holds no handle. */
    method IsEmpty() returns (b: bool)
      requires Shaped()
      ensures b <==> Contents() == multiset{}
    {
      b := size == 0;
    }

    /** getSize(): the number of handles held, duplicates counted. */
    method GetSize() returns (n: int)
      requires Shaped()
      ensures n == |Contents()|
    {
      n := size;
    }

    method SwapIdx(i: int, j: int)
      requires Shaped() && 0 <= i < size && 0 <= j < size
      modifies data
      ensures Shaped()
      ensures data[..size] == Swap(old(data[..size]), i, j)
    {
      var t := data[i];
      data[i] := data[j];
      data[j] := t;
    }

    /** lessAt(i, j): the handle at slot i precedes the handle at slot j. */
    function LessAt(i: int, j: int): bool
      reads this, data, store, store.weight
      requires Shaped() && InRange(store.weight[..], data[..size])
      requires 0 <= i < size && 0 <= j < size
    {
      Precedes(store.weight[..], data[i], data[j])
    }

    method Upheap(i: int)
      requires Shaped() && UpBrokenAt(store.weight[..], data[..size], i)
      modifies data
      ensures Valid()
      ensures Contents() == old(Contents())
    {
      ghost var w := store.weight[..];
      var j := i;
      while j > 0
        invariant Shaped() && store.weight[..] == w
        invariant UpBrokenAt(w, data[..size], j)
        invariant Contents() == old(Contents())
      {
        var p := (j - 1) / 2;
        if !LessAt(j, p) {
          break;
        }
        UpStep(w, data[..size], j);
        SwapIdx(j, p);
        j := p;
      }
      UpDone(w, data[..size], j);
    }

    method Downheap(i: int)
      requires Shaped() && DownBrokenAt(store.weight[..], data[..size], i)
      modifies data
      ensures Valid()
      ensures Contents() == old(Contents())
    {
      ghost var w := store.weight[..];
      var j := i;
      while true
        invariant Shaped() && store.weight[..] == w
        invariant DownBrokenAt(w, data[..size], j)
        invariant Contents() == old(Contents())
        decreases size - j
      {
        var l := 2 * j + 1;
        var r := 2 * j + 2;
        var smallest := j;
        if l < size && LessAt(l, smallest) {
          smallest := l;
        }
        if r < size && LessAt(r, smallest) {
          smallest := r;
        }
        SiftDownChoice(w, data[..size], j, smallest);
        if smallest == j {
          break;
        }
        SwapIdx(j, smallest);
        j := smallest;
      }
    }

    method Push(nodeIdx: int)
      requires Valid() && size < MAX_NODES && 0 <= nodeIdx < MAX_NODES
      modifies this, data
      ensures Valid()
      ensures size == old(size) + 1
      ensures Contents() == old(Contents()) + multiset{nodeIdx}
    {
      data[size] := nodeIdx;
      size := size + 1;
      assert data[..size] == old(data[..size]) + [nodeIdx];
      Upheap(size - 1);
    }

    method Pop() returns (r: int)
      requires Valid() && size > 0
      modifies this, data
      ensures Valid()
      ensures size == old(size) - 1
      ensures r in old(Contents())
      ensures Contents() == old(Contents()) - multiset{r}
      ensures forall x :: x in old(Contents()) ==> !Precedes(store.weight[..], x, r)
    {
      RootIsMinimum(store.weight[..], data[..size]);
      r := data[0];
      RemoveRoot();
    }

    /** Moves the last handle into the root slot, shrinks, and sifts down. */
    method RemoveRoot()
      requires Valid() && size > 0
      modifies this, data
      ensures Valid()
      ensures size == old(size) - 1
      ensures Contents() == old(Contents()) - multiset{old(data[0])}
    {
      ghost var s := data[..size];
      ghost var w := store.weight[..];
      data[0] := data[size - 1];
      size := size - 1;
      assert store.weight[..] == w;
      if size > 0 {
        forall k | 0 <= k < size
          ensures data[k] == RootReplacedByLast(s)[k]
        {
        }
        assert data[..size] == RootReplacedByLast(s);
        RootReplacedByLastShape(w, s);
        Downheap(0);
      } else {
        assert s == [s[0]];
      }
    }

    /** top(): the handle in the root slot; when the heap is not empty it
        comes no later than any handle held. */
    method Top() returns (r: int)
      requires Valid()
      ensures r == data[0]
      ensures size > 0 ==> r in Contents()
      ensures size > 0 ==> forall x :: x in Contents() ==> !Precedes(store.weight[..], x, r)
    {
      r := data[0];
      if size > 0 {
        RootIsMinimum(store.weight[..], data[..size]);
      }
    }
  }
}
