/** Leaf creation and the greedy tree builder: the two lightest nodes are
    merged under a new parent at the next free handle until one root is left. */
module TreeBuilder {
  import opened Arena
  import opened Heap
  import opened Letters

  /** The letters with a positive count, as alphabet positions in ascending
      order. */
  function PresentLetters(freq: seq<int>): (r: seq<int>)
    ensures |r| <= |freq|
    ensures forall k :: 0 <= k < |r| ==> 0 <= r[k] < |freq| && freq[r[k]] > 0
  {
    if freq == [] then []
    else
      var last := |freq| - 1;
      PresentLetters(freq[..last]) + (if freq[last] > 0 then [last] else [])
  }

  lemma PresentLettersSnoc(freq: seq<int>, i: int)
    requires 0 <= i < |freq|
    ensures PresentLetters(freq[..i + 1])
         == PresentLetters(freq[..i]) + (if freq[i] > 0 then [i] else [])
  {
    assert freq[..i + 1][..i] == freq[..i];
  }

  /** Every letter with a positive count is present. */
  lemma {:induction false} PresentLettersComplete(freq: seq<int>, i: int)
    requires 0 <= i < |freq| && freq[i] > 0
    ensures i in PresentLetters(freq)
  {
    var last := |freq| - 1;
    if i < last {
      PresentLettersComplete(freq[..last], i);
    }
  }

  /** Present letters are listed in strictly ascending order. */
  lemma {:induction false} PresentLettersAscending(freq: seq<int>)
    ensures forall k, m :: 0 <= k < m < |PresentLetters(freq)| ==>
      PresentLetters(freq)[k] < PresentLetters(freq)[m]
  {
    if freq != [] {
      PresentLettersAscending(freq[..|freq| - 1]);
    }
  }

  function Sum(s: seq<int>): int
  {
    if s == [] then 0 else Sum(s[..|s| - 1]) + s[|s| - 1]
  }

  /** The leaf weights: the positive counts in alphabet order. */
  function LeafWeights(freq: seq<int>): (r: seq<int>)
    ensures |r| == |PresentLetters(freq)|
    ensures forall k :: 0 <= k < |r| ==> r[k] == freq[PresentLetters(freq)[k]]
  {
    var p := PresentLetters(freq);
    seq(|p|, k requires 0 <= k < |p| => freq[p[k]])
  }

  /** With no negative count, the leaf weights add up to the total count. */
  lemma {:induction false} LeafWeightsTotal(freq: seq<int>)
    requires forall i :: 0 <= i < |freq| ==> freq[i] >= 0
    ensures Sum(LeafWeights(freq)) == Sum(freq)
  {
    if freq != [] {
      var init := freq[..|freq| - 1];
      var x := freq[|freq| - 1];
      LeafWeightsTotal(init);
      if x > 0 {
        assert LeafWeights(freq) == LeafWeights(init) + [x];
      } else {
        assert LeafWeights(freq) == LeafWeights(init);
      }
    }
  }

  /** Sum of the weights of the handles below |w| that are not dead. */
  ghost function LiveSum(w: seq<int>, dead: set<int>): int
  {
    if w == [] then 0
    else LiveSum(w[..|w| - 1], dead) + (if |w| - 1 in dead then 0 else w[|w| - 1])
  }

  lemma {:induction false} LiveSumNoneDead(w: seq<int>, dead: set<int>)
    requires forall j :: j in dead ==> j >= |w|
    ensures LiveSum(w, dead) == Sum(w)
  {
    if w != [] {
      LiveSumNoneDead(w[..|w| - 1], dead);
    }
  }

  lemma {:induction false} LiveSumKill(w: seq<int>, dead: set<int>, j: int)
    requires 0 <= j < |w| && j !in dead
    ensures LiveSum(w, dead + {j}) == LiveSum(w, dead) - w[j]
  {
    if j < |w| - 1 {
      LiveSumKill(w[..|w| - 1], dead, j);
    } else {
      LiveSumSame(w[..|w| - 1], dead, dead + {j});
    }
  }

  lemma {:induction false} LiveSumSame(w: seq<int>, dead: set<int>, dead': set<int>)
    requires forall j :: 0 <= j < |w| ==> (j in dead <==> j in dead')
    ensures LiveSum(w, dead) == LiveSum(w, dead')
  {
    if w != [] {
      LiveSumSame(w[..|w| - 1], dead, dead');
    }
  }

  /** When every handle but r is dead, the live sum is the weight of r. */
  lemma {:induction false} LiveSumOnlyOne(w: seq<int>, dead: set<int>, r: int)
    requires 0 <= r < |w| && r !in dead
    requires forall j :: 0 <= j < |w| && j != r ==> j in dead
    ensures LiveSum(w, dead) == w[r]
  {
    if r < |w| - 1 {
      LiveSumOnlyOne(w[..|w| - 1], dead, r);
    } else {
      LiveSumAllDead(w[..|w| - 1], dead);
    }
  }

  lemma {:induction false} LiveSumAllDead(w: seq<int>, dead: set<int>)
    requires forall j :: 0 <= j < |w| ==> j in dead
    ensures LiveSum(w, dead) == 0
  {
    if w != [] {
      LiveSumAllDead(w[..|w| - 1], dead);
    }
  }

  /** Merging two live handles under a new parent keeps the live sum. */
  lemma LiveSumMerge(w: seq<int>, dead: set<int>, a: int, b: int)
    requires 0 <= a < |w| && 0 <= b < |w| && a != b
    requires a !in dead && b !in dead && |w| !in dead
    ensures LiveSum(w + [w[a] + w[b]], dead + {a, b}) == LiveSum(w, dead)
  {
    LiveSumKill(w, dead, a);
    LiveSumKill(w, dead + {a}, b);
    assert dead + {a} + {b} == dead + {a, b};
    assert (w + [w[a] + w[b]])[..|w|] == w;
  }

  /** Slot k holds a parent made by the builder. */
  ghost predicate Merged(a: Nodes, k: int)
    requires FullSize(a)
    requires 0 <= k < MAX_NODES
  {
    && a.ch[k] == '#'
    && 0 <= a.left[k] < k && 0 <= a.right[k] < k && a.left[k] != a.right[k]
    && a.weight[k] == a.weight[a.left[k]] + a.weight[a.right[k]]
    && Precedes(a.weight, a.left[k], a.right[k])
  }

  /** Slots 0..|present|-1 hold, in order, one leaf per listed letter. */
  ghost predicate LeavesFor(a: Nodes, present: seq<int>, freq: seq<int>)
    requires FullSize(a)
    requires |freq| == ALPHABET
  {
    && |present| <= MAX_NODES
    && forall k :: 0 <= k < |present| ==>
      && 0 <= present[k] < ALPHABET
      && a.ch[k] == Letter(present[k]) && a.weight[k] == freq[present[k]]
      && a.left[k] == NO_CHILD && a.right[k] == NO_CHILD
  }

  /** Writing the leaf of letter i into the first empty slot extends the
      leaves by that letter. */
  lemma AddLeaf(a: Nodes, present: seq<int>, freq: seq<int>, i: int)
    requires FullSize(a)
    requires |freq| == ALPHABET && 0 <= i < ALPHABET
    requires LeavesFor(a, present, freq) && EmptyFrom(a, |present|)
    requires |present| < MAX_NODES
    ensures var b := WithNode(a, |present|, freq[i], NO_CHILD, NO_CHILD, Letter(i));
      LeavesFor(b, present + [i], freq) && EmptyFrom(b, |present| + 1)
  {
  }

  /** One round of the leaf loop: when the i-th letter has a positive count,
      its leaf is written into the first empty slot. */
  method LeafForLetter(store: NodeStore, freq: seq<int>, i: int, nextFree: int,
                       ghost present: seq<int>) returns (next: int, ghost present': seq<int>)
    requires store.Valid() && |freq| == ALPHABET && 0 <= i < ALPHABET
    requires present == PresentLetters(freq[..i]) && nextFree == |present| <= i
    requires LeavesFor(store.Snapshot(), present, freq) && EmptyFrom(store.Snapshot(), nextFree)
    modifies store.weight, store.left, store.right, store.ch
    ensures present' == PresentLetters(freq[..i + 1]) && next == |present'| <= i + 1
    ensures LeavesFor(store.Snapshot(), present', freq) && EmptyFrom(store.Snapshot(), next)
  {
    PresentLettersSnoc(freq, i);
    if freq[i] > 0 {
      AddLeaf(store.Snapshot(), present, freq, i);
      store.SetNode(nextFree, freq[i], NO_CHILD, NO_CHILD, Letter(i));
      next, present' := nextFree + 1, present + [i];
    } else {
      next, present' := nextFree, present;
    }
  }

  /** createLeafNodes: clears the whole arena, then writes one leaf per letter
      with a positive count, in alphabet order, into slots 0, 1, 2, ...;
      every other slot is left empty. */
  method CreateLeafNodes(store: NodeStore, freq: seq<int>) returns (nextFree: int)
    requires store.Valid() && |freq| == ALPHABET
    modifies store.weight, store.left, store.right, store.ch
    ensures nextFree == |PresentLetters(freq)| <= ALPHABET
    ensures LeavesFor(store.Snapshot(), PresentLetters(freq), freq)
    ensures EmptyFrom(store.Snapshot(), nextFree)
  {
    store.Clear();
    nextFree := 0;
    ghost var present: seq<int> := [];
    for i := 0 to ALPHABET
      invariant present == PresentLetters(freq[..i])
      invariant nextFree == |present| <= i
      invariant LeavesFor(store.Snapshot(), present, freq)
      invariant EmptyFrom(store.Snapshot(), nextFree)
    {
      nextFree, present := LeafForLetter(store, freq, i, nextFree, present);
    }
    assert freq[..ALPHABET] == freq;
  }

  /** Slot k holds the same node in both arenas. */
  ghost predicate SameSlot(a: Nodes, b: Nodes, k: int)
    requires FullSize(a)
    requires FullSize(b)
    requires 0 <= k < MAX_NODES
  {
    a.weight[k] == b.weight[k] && a.left[k] == b.left[k]
    && a.right[k] == b.right[k] && a.ch[k] == b.ch[k]
  }

  /** Slot j is a child of some parent created in slots lo..hi, later than j. */
  ghost predicate HasParent(a: Nodes, j: int, lo: int, hi: int)
    requires FullSize(a)
  {
    exists p :: lo <= p <= hi && 0 <= j < p < MAX_NODES && (a.left[p] == j || a.right[p] == j)
  }

  /** Slots below n and from curr on are as in a0; slots n..curr-1 hold parents. */
  ghost predicate SlotsBuilt(a: Nodes, a0: Nodes, n: int, curr: int)
    requires FullSize(a)
    requires FullSize(a0)
  {
    && 0 <= n <= curr <= MAX_NODES
    && (forall k :: 0 <= k < MAX_NODES && (k < n || curr <= k) ==> SameSlot(a, a0, k))
    && (forall k :: n <= k < curr ==> Merged(a, k))
  }

  /** Every popped handle j is a child of its recorded parent par[j], and
      both children of every parent record it. */
  ghost predicate ParentsRecorded(a: Nodes, n: int, curr: int, par: map<int, int>)
    requires FullSize(a)
    requires curr <= MAX_NODES
  {
    && (forall j :: j in par ==>
      0 <= j < par[j] && n <= par[j] < curr
      && (a.left[par[j]] == j || a.right[par[j]] == j))
    && (forall k :: 0 <= n <= k < curr ==>
      && a.left[k] in par && par[a.left[k]] == k
      && a.right[k] in par && par[a.right[k]] == k)
  }

  /** Handle j is live when the round that writes slot k begins: it lies below
      k and no parent in slots n..k-1 has it as a child. */
  ghost predicate LiveAt(a: Nodes, n: int, k: int, j: int)
    requires FullSize(a) && k <= MAX_NODES
  {
    && 0 <= j < k
    && forall p :: 0 <= n <= p < k ==> a.left[p] != j && a.right[p] != j
  }

  /** The parent in slot k joins the first live handle of its round under the
      heap order, on the left, with the first of the others, on the right. */
  ghost predicate Greedy(a: Nodes, n: int, k: int)
    requires FullSize(a) && 0 <= k < MAX_NODES
  {
    var x, y := a.left[k], a.right[k];
    && LiveAt(a, n, k, x) && LiveAt(a, n, k, y) && x != y
    && (forall z :: LiveAt(a, n, k, z) ==> !Precedes(a.weight, z, x))
    && (forall z :: LiveAt(a, n, k, z) && z != x ==> !Precedes(a.weight, z, y))
  }

  /** Every parent in slots n..curr-1 was made by a greedy round. */
  ghost predicate MergesGreedy(a: Nodes, n: int, curr: int)
    requires FullSize(a) && curr <= MAX_NODES
  {
    forall k :: 0 <= n <= k < curr ==> Greedy(a, n, k)
  }

  /** The heap holds, once each, exactly the handles below curr that have not
      been popped, and the newest parent is among them. */
  ghost predicate LiveHandles(n: int, curr: int, par: map<int, int>, live: multiset<int>)
  {
    && (forall x :: x in live ==> 0 <= x < curr)
    && (forall j :: 0 <= j < curr ==> live[j] == if j in par then 0 else 1)
    && (curr > n ==> curr - 1 in live)
  }

  /** The state of the builder after its merges so far, starting from arena a0
      with n leaves; the live weights add up to the leaf total. */
  ghost predicate Building(a: Nodes, a0: Nodes, n: int, curr: int, par: map<int, int>,
                           live: multiset<int>)
    requires FullSize(a)
    requires FullSize(a0)
  {
    && SlotsBuilt(a, a0, n, curr)
    && ParentsRecorded(a, n, curr, par)
    && MergesGreedy(a, n, curr)
    && LiveHandles(n, curr, par, live)
    && LiveSum(a.weight[..curr], par.Keys) == Sum(a0.weight[..n])
  }

  /** Before any merge, the leaves are all live. */
  lemma BuildingStart(a0: Nodes, n: int, live: multiset<int>)
    requires FullSize(a0)
    requires 0 <= n <= MAX_NODES
    requires forall j :: live[j] == if 0 <= j < n then 1 else 0
    ensures Building(a0, a0, n, n, map[], live)
  {
    LiveSumNoneDead(a0.weight[..n], {});
    var none: map<int, int> := map[];
    assert none.Keys == {};
  }

  /** Two distinct live handles, the second not preceding the first. */
  lemma PoppedPair(a: Nodes, a0: Nodes, n: int, curr: int, par: map<int, int>,
                   live: multiset<int>, x: int, y: int)
    requires FullSize(a)
    requires FullSize(a0)
    requires Building(a, a0, n, curr, par, live)
    requires x in live && y in live - multiset{x}
    requires !Precedes(a.weight, y, x)
    ensures x != y && x !in par && y !in par && 0 <= x < curr && 0 <= y < curr
    ensures Precedes(a.weight, x, y)
  {
    assert 0 <= x < curr && live[x] == 1;
    PrecedesIsStrictTotalOrder(a.weight, x, y, x);
  }

  lemma MergeKeepsSlots(a: Nodes, a0: Nodes, n: int, curr: int, x: int, y: int)
    requires FullSize(a)
    requires FullSize(a0)
    requires SlotsBuilt(a, a0, n, curr) && curr < MAX_NODES
    requires 0 <= x < curr && 0 <= y < curr && x != y && Precedes(a.weight, x, y)
    ensures var b := WithNode(a, curr, a.weight[x] + a.weight[y], x, y, '#');
      SlotsBuilt(b, a0, n, curr + 1)
  {
    var b := WithNode(a, curr, a.weight[x] + a.weight[y], x, y, '#');
    forall k | n <= k < curr + 1
      ensures Merged(b, k)
    {
      if k < curr {
        assert Merged(a, k);
        var l, r := a.left[k], a.right[k];
        assert b.weight[l] == a.weight[l] && b.weight[r] == a.weight[r];
      } else {
        assert b.weight[x] == a.weight[x] && b.weight[y] == a.weight[y];
      }
    }
    forall k | 0 <= k < MAX_NODES && (k < n || curr + 1 <= k)
      ensures SameSlot(b, a0, k)
    {
      assert SameSlot(a, a0, k);
    }
  }

  lemma MergeKeepsParents(a: Nodes, n: int, curr: int, par: map<int, int>, x: int, y: int)
    requires FullSize(a)
    requires curr < MAX_NODES && n <= curr
    requires ParentsRecorded(a, n, curr, par)
    requires 0 <= x < curr && 0 <= y < curr && x != y && x !in par && y !in par
    ensures var b := WithNode(a, curr, a.weight[x] + a.weight[y], x, y, '#');
      ParentsRecorded(b, n, curr + 1, par[x := curr][y := curr])
  {
  }

  /** While building, the live handles of the next round are exactly those
      the heap holds. */
  lemma LiveIsHeld(a: Nodes, a0: Nodes, n: int, curr: int, par: map<int, int>,
                   live: multiset<int>, z: int)
    requires FullSize(a) && FullSize(a0)
    requires Building(a, a0, n, curr, par, live)
    ensures LiveAt(a, n, curr, z) <==> z in live
  {
    if z in par {
      var p := par[z];
      assert n <= p < curr && (a.left[p] == z || a.right[p] == z);
    } else if 0 <= z < curr {
      assert live[z] == 1;
    }
  }

  /** Which handles are live before round k depends only on the children of
      the slots below k. */
  lemma LiveAtSame(a: Nodes, b: Nodes, n: int, k: int)
    requires FullSize(a) && FullSize(b) && 0 <= k <= MAX_NODES
    requires forall p :: 0 <= p < k ==> a.left[p] == b.left[p] && a.right[p] == b.right[p]
    ensures forall z :: LiveAt(a, n, k, z) <==> LiveAt(b, n, k, z)
  {
  }

  /** The round writing slot curr is greedy when x is the first live handle
      and y the first of the others. */
  lemma GreedyNewParent(a: Nodes, a0: Nodes, n: int, curr: int, par: map<int, int>,
                        live: multiset<int>, x: int, y: int)
    requires FullSize(a) && FullSize(a0)
    requires Building(a, a0, n, curr, par, live) && curr < MAX_NODES
    requires x in live && y in live - multiset{x}
    requires forall z :: z in live ==> !Precedes(a.weight, z, x)
    requires forall z :: z in live - multiset{x} ==> !Precedes(a.weight, z, y)
    ensures Greedy(WithNode(a, curr, a.weight[x] + a.weight[y], x, y, '#'), n, curr)
  {
    var b := WithNode(a, curr, a.weight[x] + a.weight[y], x, y, '#');
    assert live[x] == 1;
    LiveAtSame(a, b, n, curr);
    forall z
      ensures LiveAt(b, n, curr, z) <==> z in live
    {
      LiveIsHeld(a, a0, n, curr, par, live, z);
    }
    forall z | LiveAt(b, n, curr, z) && z != x
      ensures z in live - multiset{x}
    {
    }
  }

  lemma MergeKeepsLive(n: int, curr: int, par: map<int, int>, live: multiset<int>, x: int, y: int)
    requires LiveHandles(n, curr, par, live) && n <= curr
    requires forall j :: j in par ==> j < curr
    requires x in live && y in live - multiset{x} && x != y && x !in par && y !in par
    ensures LiveHandles(n, curr + 1, par[x := curr][y := curr],
                        live - multiset{x} - multiset{y} + multiset{curr})
  {
    var par' := par[x := curr][y := curr];
    var live' := live - multiset{x} - multiset{y} + multiset{curr};
    assert live[x] == 1 && live[y] == 1;
    forall j | 0 <= j < curr + 1
      ensures live'[j] == if j in par' then 0 else 1
    {
      assert live'[j] == live[j] - (if j == x then 1 else 0) - (if j == y then 1 else 0)
                         + (if j == curr then 1 else 0);
      if j == curr {
        assert j !in live;
      } else {
        assert live[j] == if j in par then 0 else 1;
      }
    }
    forall z | z in live'
      ensures 0 <= z < curr + 1
    {
      assert live'[z] == live[z] - (if z == x then 1 else 0) - (if z == y then 1 else 0)
                         + (if z == curr then 1 else 0);
      if z != curr {
        assert live[z] > 0;
        assert z in live;
      }
    }
  }

  lemma MergeKeepsSum(a: Nodes, a0: Nodes, n: int, curr: int, par: map<int, int>, x: int, y: int)
    requires FullSize(a)
    requires FullSize(a0)
    requires 0 <= n <= curr < MAX_NODES
    requires forall j :: j in par ==> 0 <= j < curr
    requires LiveSum(a.weight[..curr], par.Keys) == Sum(a0.weight[..n])
    requires 0 <= x < curr && 0 <= y < curr && x != y && x !in par && y !in par
    ensures var b := WithNode(a, curr, a.weight[x] + a.weight[y], x, y, '#');
      LiveSum(b.weight[..curr + 1], par[x := curr][y := curr].Keys) == Sum(a0.weight[..n])
  {
    var b := WithNode(a, curr, a.weight[x] + a.weight[y], x, y, '#');
    assert b.weight[..curr + 1] == a.weight[..curr] + [a.weight[x] + a.weight[y]];
    LiveSumMerge(a.weight[..curr], par.Keys, x, y);
    assert par[x := curr][y := curr].Keys == par.Keys + {x, y};
  }

  /** Writing the parent of the first two live handles into slot curr keeps
      every round greedy, the earlier ones and the new one. */
  lemma MergeKeepsGreedy(a: Nodes, a0: Nodes, n: int, curr: int, par: map<int, int>,
                         live: multiset<int>, x: int, y: int)
    requires FullSize(a) && FullSize(a0)
    requires Building(a, a0, n, curr, par, live) && curr < MAX_NODES
    requires x in live && y in live - multiset{x}
    requires forall z :: z in live ==> !Precedes(a.weight, z, x)
    requires forall z :: z in live - multiset{x} ==> !Precedes(a.weight, z, y)
    ensures MergesGreedy(WithNode(a, curr, a.weight[x] + a.weight[y], x, y, '#'), n, curr + 1)
  {
    var b := WithNode(a, curr, a.weight[x] + a.weight[y], x, y, '#');
    forall k | 0 <= n <= k < curr + 1
      ensures Greedy(b, n, k)
    {
      if k < curr {
        assert Greedy(a, n, k);
        LiveAtSame(a, b, n, k);
      } else {
        GreedyNewParent(a, a0, n, curr, par, live, x, y);
      }
    }
  }

  /** One merge: the two popped handles x and y become the children of a new
      parent in slot curr, which joins the live handles. */
  lemma MergeStep(a: Nodes, a0: Nodes, n: int, curr: int, par: map<int, int>,
                  live: multiset<int>, x: int, y: int) returns (par': map<int, int>)
    requires FullSize(a)
    requires FullSize(a0)
    requires Building(a, a0, n, curr, par, live) && curr < MAX_NODES
    requires x in live && y in live - multiset{x}
    requires forall z :: z in live ==> !Precedes(a.weight, z, x)
    requires forall z :: z in live - multiset{x} ==> !Precedes(a.weight, z, y)
    ensures par' == par[x := curr][y := curr]
    ensures Building(WithParent(a, curr, x, y), a0, n, curr + 1,
                     par', live - multiset{x} - multiset{y} + multiset{curr})
  {
    PoppedPair(a, a0, n, curr, par, live, x, y);
    var b := WithParent(a, curr, x, y);
    var live' := live - multiset{x} - multiset{y} + multiset{curr};
    par' := par[x := curr][y := curr];
    assert b == WithNode(a, curr, a.weight[x] + a.weight[y], x, y, '#');
    MergeKeepsSlots(a, a0, n, curr, x, y);
    assert SlotsBuilt(b, a0, n, curr + 1);
    MergeKeepsParents(a, n, curr, par, x, y);
    assert ParentsRecorded(b, n, curr + 1, par');
    MergeKeepsGreedy(a, a0, n, curr, par, live, x, y);
    assert MergesGreedy(b, n, curr + 1);
    MergeKeepsLive(n, curr, par, live, x, y);
    assert LiveHandles(n, curr + 1, par', live');
    MergeKeepsSum(a, a0, n, curr, par, x, y);
    assert LiveSum(b.weight[..curr + 1], par'.Keys) == Sum(a0.weight[..n]);
  }

  /** The arena after the builder has merged n >= 1 leaves into one tree with
      the given root: n-1 parents in slots n..root = 2n-2, each joining the
      first two live handles of its round, every other slot as in a0, every
      handle below the root a child of a later parent, and the root weight
      the total leaf weight. */
  ghost predicate TreeBuilt(a: Nodes, a0: Nodes, n: int, root: int)
    requires FullSize(a)
    requires FullSize(a0)
  {
    && 1 <= n && root == 2 * n - 2 && root < MAX_NODES
    && SlotsBuilt(a, a0, n, root + 1)
    && MergesGreedy(a, n, root + 1)
    && (forall j :: 0 <= j < root ==> HasParent(a, j, n, root))
    && a.weight[root] == Sum(a0.weight[..n])
  }

  /** Two arenas the builder can leave from the same leaves agree in every
      slot below k. */
  lemma {:induction false} BuiltAgreeBelow(a: Nodes, b: Nodes, a0: Nodes, n: int, root: int, k: int)
    requires FullSize(a) && FullSize(b) && FullSize(a0)
    requires TreeBuilt(a, a0, n, root) && TreeBuilt(b, a0, n, root)
    requires 0 <= k <= MAX_NODES
    ensures forall j :: 0 <= j < k ==> SameSlot(a, b, j)
    decreases k
  {
    if k > 0 {
      BuiltAgreeBelow(a, b, a0, n, root, k - 1);
      var j := k - 1;
      if j < n || root < j {
        assert SameSlot(a, a0, j) && SameSlot(b, a0, j);
      } else {
        assert Greedy(a, n, j) && Greedy(b, n, j);
        assert Merged(a, j) && Merged(b, j);
        forall p | 0 <= p < j
          ensures a.left[p] == b.left[p] && a.right[p] == b.right[p]
        {
          assert SameSlot(a, b, p);
        }
        LiveAtSame(a, b, n, j);
        var x, x' := a.left[j], b.left[j];
        assert SameSlot(a, b, x) && SameSlot(a, b, x');
        assert !Precedes(a.weight, x', x) && !Precedes(b.weight, x, x');
        PrecedesIsStrictTotalOrder(a.weight, x, x', x);
        var y, y' := a.right[j], b.right[j];
        assert SameSlot(a, b, y) && SameSlot(a, b, y');
        assert !Precedes(a.weight, y', y) && !Precedes(b.weight, y, y');
        PrecedesIsStrictTotalOrder(a.weight, y, y', y);
      }
    }
  }

  /** The builder's choices are forced: from the same leaves it always leaves
      the same arena. */
  lemma TreeBuiltUnique(a: Nodes, b: Nodes, a0: Nodes, n: int, root: int)
    requires FullSize(a) && FullSize(b) && FullSize(a0)
    requires TreeBuilt(a, a0, n, root) && TreeBuilt(b, a0, n, root)
    ensures a == b
  {
    BuiltAgreeBelow(a, b, a0, n, root, MAX_NODES);
    forall j | 0 <= j < MAX_NODES
      ensures a.weight[j] == b.weight[j] && a.left[j] == b.left[j]
      ensures a.right[j] == b.right[j] && a.ch[j] == b.ch[j]
    {
      assert SameSlot(a, b, j);
    }
    assert a.weight == b.weight && a.left == b.left && a.right == b.right && a.ch == b.ch;
  }

  /** When a single handle is left, it is the newest one, every other handle
      has a parent and the tree is complete. */
  lemma BuildingDone(a: Nodes, a0: Nodes, n: int, curr: int, par: map<int, int>,
                     live: multiset<int>)
    requires FullSize(a)
    requires FullSize(a0)
    requires Building(a, a0, n, curr, par, live)
    requires n >= 1 && |live| == 1 && |live| + curr == 2 * n
    ensures live == multiset{curr - 1}
    ensures TreeBuilt(a, a0, n, curr - 1)
  {
    var r := curr - 1;
    if curr == n {
      assert r !in par;
    }
    assert r in live;
    assert live - multiset{r} == multiset{} by {
      assert |live - multiset{r}| == 0;
    }
    assert live == multiset{r} by {
      assert live == (live - multiset{r}) + multiset{r};
    }
    forall j | 0 <= j < r
      ensures HasParent(a, j, n, r)
    {
      assert live[j] == 0;
      assert j in par;
      var p := par[j];
      assert n <= p <= r && j < p < MAX_NODES && (a.left[p] == j || a.right[p] == j);
    }
    forall j | 0 <= j < curr && j != r
      ensures j in par.Keys
    {
      assert live[j] == 0;
    }
    LiveSumOnlyOne(a.weight[..curr], par.Keys, r);
  }

  /** The arena with a parent of x and y written into slot k. */
  function WithParent(a: Nodes, k: int, x: int, y: int): (b: Nodes)
    requires FullSize(a)
    requires 0 <= k < MAX_NODES && 0 <= x < MAX_NODES && 0 <= y < MAX_NODES
    ensures FullSize(b)
  {
    WithNode(a, k, a.weight[x] + a.weight[y], x, y, '#')
  }

  /** Writes the parent of x and y into slot k: left x, right y, weight the sum
      of theirs, character '#'. */
  method WriteParent(store: NodeStore, k: int, x: int, y: int)
    requires store.Valid() && 0 <= k < MAX_NODES && 0 <= x < MAX_NODES && 0 <= y < MAX_NODES
    modifies store.weight, store.left, store.right, store.ch
    ensures store.Snapshot() == WithParent(old(store.Snapshot()), k, x, y)
  {
    store.SetNode(k, store.weight[x] + store.weight[y], x, y, '#');
  }

  /** The two pops of one builder round: x and then y, the lightest two
      handles, distinct, with x preceding y. */
  method PopTwo(heap: MinHeap) returns (x: int, y: int)
    requires heap.Valid() && heap.size > 1
    modifies heap, heap.data
    ensures heap.Valid() && heap.size == old(heap.size) - 2
    ensures x in old(heap.Contents()) && y in old(heap.Contents()) - multiset{x}
    ensures !Precedes(heap.store.weight[..], y, x)
    ensures forall z :: z in old(heap.Contents()) ==> !Precedes(heap.store.weight[..], z, x)
    ensures forall z :: z in old(heap.Contents()) - multiset{x} ==>
      !Precedes(heap.store.weight[..], z, y)
    ensures heap.Contents() == old(heap.Contents()) - multiset{x} - multiset{y}
  {
    x := heap.Pop();
    y := heap.Pop();
  }

  /** One round of the builder loop: pops the two lightest handles x and y,
      writes their parent into slot curr and pushes the parent. */
  method MergeLightestTwo(store: NodeStore, heap: MinHeap, curr: int) returns (x: int, y: int)
    requires heap.Valid() && heap.store == store && heap.size > 1 && 0 <= curr < MAX_NODES
    requires heap.data != store.left && heap.data != store.right
    requires forall z :: z in heap.Contents() ==> z < curr
    modifies heap, heap.data, store.weight, store.left, store.right, store.ch
    ensures heap.Valid() && heap.size == old(heap.size) - 1
    ensures x in old(heap.Contents()) && y in old(heap.Contents()) - multiset{x}
    ensures !Precedes(old(store.weight[..]), y, x)
    ensures forall z :: z in old(heap.Contents()) ==> !Precedes(old(store.weight[..]), z, x)
    ensures forall z :: z in old(heap.Contents()) - multiset{x} ==>
      !Precedes(old(store.weight[..]), z, y)
    ensures heap.Contents() == old(heap.Contents()) - multiset{x} - multiset{y} + multiset{curr}
    ensures store.Snapshot() == WithParent(old(store.Snapshot()), curr, x, y)
  {
    x, y := PopTwo(heap);
    PushParent(store, heap, curr, x, y);
  }

  /** The second half of a builder round: writes the parent of x and y into
      slot curr and pushes it; the handles held keep their weights. */
  method PushParent(store: NodeStore, heap: MinHeap, curr: int, x: int, y: int)
    requires heap.Valid() && heap.store == store && heap.size < MAX_NODES
    requires 0 <= curr < MAX_NODES && 0 <= x < MAX_NODES && 0 <= y < MAX_NODES
    requires heap.data != store.left && heap.data != store.right
    requires forall z :: z in heap.Contents() ==> z < curr
    modifies heap, heap.data, store.weight, store.left, store.right, store.ch
    ensures heap.Valid() && heap.size == old(heap.size) + 1
    ensures heap.Contents() == old(heap.Contents()) + multiset{curr}
    ensures store.Snapshot() == WithParent(old(store.Snapshot()), curr, x, y)
  {
    ghost var a := store.Snapshot();
    ghost var s := heap.data[..heap.size];
    assert multiset(s) == heap.Contents();
    WriteParent(store, curr, x, y);
    assert heap.data[..heap.size] == s;
    ghost var b := store.Snapshot();
    forall k | 0 <= k < |s|
      ensures b.weight[s[k]] == a.weight[s[k]]
    {
      assert s[k] in multiset(s);
    }
    IsHeapKeptByWeights(a.weight, b.weight, s);
    heap.Push(curr);
  }

  /** The first loop of the builder: a new heap over the arena holding the
      leaf handles 0..n-1, once each. */
  method PushLeaves(store: NodeStore, n: int) returns (heap: MinHeap)
    requires store.Valid() && 0 <= n <= MAX_NODES
    ensures fresh(heap) && fresh(heap.data)
    ensures heap.Valid() && heap.store == store && heap.size == n
    ensures forall j :: heap.Contents()[j] == if 0 <= j < n then 1 else 0
  {
    heap := new MinHeap(store);
    for i := 0 to n
      invariant fresh(heap) && fresh(heap.data)
      invariant heap.Valid() && heap.store == store && heap.size == i
      invariant forall j :: heap.Contents()[j] == if 0 <= j < i then 1 else 0
    {
      heap.Push(i);
    }
  }

  /** The final pop of the builder, on a heap holding a single handle. */
  method PopOnly(heap: MinHeap) returns (r: int)
    requires heap.Valid() && heap.size == 1
    modifies heap, heap.data
    ensures old(heap.Contents()) == multiset{r}
    ensures heap.Valid() && heap.size == 0 && heap.Contents() == multiset{}
  {
    ghost var s := heap.data[..1];
    r := heap.Pop();
    assert s == [s[0]];
  }

  /** The final pop of the builder: the one handle left is the root of the
      finished tree. */
  method FinishTree(store: NodeStore, heap: MinHeap, n: int, curr: int,
                    ghost par: map<int, int>, ghost a0: Nodes) returns (root: int)
    requires heap.Valid() && heap.store == store && heap.size == 1
    requires heap.data != store.weight && heap.data != store.left && heap.data != store.right
    requires FullSize(a0)
    requires n >= 1 && 1 + curr == 2 * n
    requires Building(store.Snapshot(), a0, n, curr, par, heap.Contents())
    modifies heap, heap.data
    ensures root == curr - 1 && TreeBuilt(store.Snapshot(), a0, n, root)
    ensures heap.Valid() && heap.size == 0 && heap.Contents() == multiset{}
  {
    BuildingDone(store.Snapshot(), a0, n, curr, par, heap.Contents());
    root := PopOnly(heap);
  }

  /** The merging loop of the builder, from n >= 2 live leaves down to one
      live handle, the last parent written. */
  method MergeUntilOne(store: NodeStore, heap: MinHeap, n: int, ghost a0: Nodes)
    returns (curr: int, ghost par: map<int, int>)
    requires heap.Valid() && heap.store == store
    requires heap.data != store.left && heap.data != store.right
    requires 2 <= n <= MAX_NODES / 2 && heap.size == n
    requires FullSize(a0)
    requires Building(store.Snapshot(), a0, n, n, map[], heap.Contents())
    modifies heap, heap.data, store.weight, store.left, store.right, store.ch
    ensures heap.Valid() && heap.size == 1 && curr == 2 * n - 1
    ensures Building(store.Snapshot(), a0, n, curr, par, heap.Contents())
  {
    curr := n;
    par := map[];
    while heap.size > 1 && curr < MAX_NODES
      invariant heap.Valid() && heap.store == store
      invariant Building(store.Snapshot(), a0, n, curr, par, heap.Contents())
      invariant heap.size + curr == 2 * n && heap.size >= 1
      decreases heap.size
    {
      ghost var a := store.Snapshot();
      ghost var live := heap.Contents();
      var x, y := MergeLightestTwo(store, heap, curr);
      par := MergeStep(a, a0, n, curr, par, live, x, y);
      curr := curr + 1;
    }
  }

  /** buildEncodingTree: pushes the n leaf handles into a min-heap, answers -1
      for no leaf and the leaf itself for one, and otherwise pops the two
      lightest handles, writes their parent into the next free slot, pushes it
      back, and answers the last handle left. */
  method BuildEncodingTree(store: NodeStore, nextFree: int) returns (root: int)
    requires store.Valid() && 0 <= nextFree <= MAX_NODES / 2
    modifies store.weight, store.left, store.right, store.ch
    ensures nextFree == 0 ==> root == -1
    ensures nextFree <= 1 ==> store.Snapshot() == old(store.Snapshot())
    ensures nextFree >= 1 ==> TreeBuilt(store.Snapshot(), old(store.Snapshot()), nextFree, root)
  {
    ghost var a0 := store.Snapshot();
    var heap := PushLeaves(store, nextFree);
    var size := heap.GetSize();
    if size == 0 {
      return -1;
    }
    BuildingStart(a0, nextFree, heap.Contents());
    if size == 1 {
      root := FinishTree(store, heap, nextFree, nextFree, map[], a0);
      return;
    }
    var curr;
    ghost var par;
    curr, par := MergeUntilOne(store, heap, nextFree, a0);
    root := FinishTree(store, heap, nextFree, curr, par, a0);
  }
}
