/** The whole program: count the letters of the text, lay out one leaf per
    present letter, build the tree, walk it for the code table and emit the
    bits of the text. The facts proved here connect the arena the builder
    leaves behind to the code table read from it. */
module Pipeline {
  import opened Arena
  import opened Letters
  import opened TreeBuilder
  import opened Codes

  /** Node j lies in the subtree of node k. */
  ghost predicate Reaches(a: Nodes, k: int, j: int)
    requires ChildrenBefore(a) && 0 <= k < MAX_NODES
    decreases k
  {
    || k == j
    || (a.left[k] != NO_CHILD && Reaches(a, a.left[k], j))
    || (a.right[k] != NO_CHILD && Reaches(a, a.right[k], j))
  }

  /** A child of a node in the subtree of k is in the subtree of k. */
  lemma {:induction false} ReachesChild(a: Nodes, k: int, p: int, j: int)
    requires ChildrenBefore(a) && 0 <= k < MAX_NODES && 0 <= p < MAX_NODES
    requires Reaches(a, k, p) && 0 <= j && (a.left[p] == j || a.right[p] == j)
    ensures Reaches(a, k, j)
    decreases k
  {
    if k != p {
      if a.left[k] != NO_CHILD && Reaches(a, a.left[k], p) {
        ReachesChild(a, a.left[k], p, j);
      } else {
        ReachesChild(a, a.right[k], p, j);
      }
    }
  }

  /** A leaf in the subtree of k is met by the walk from k; m is where. */
  lemma {:induction false} ReachedLeafMet(a: Nodes, k: int, p: string, j: int) returns (m: int)
    requires ChildrenBefore(a) && 0 <= k < MAX_NODES && 0 <= j < MAX_NODES
    requires Reaches(a, k, j) && IsLeaf(a, j)
    ensures 0 <= m < |Visits(a, k, p)| && Visits(a, k, p)[m].node == j
    decreases k
  {
    if k == j {
      m := 0;
    } else {
      VisitsSplit(a, k, p);
      var vl := LeftVisits(a, k, p);
      if a.left[k] != NO_CHILD && Reaches(a, a.left[k], j) {
        m := ReachedLeafMet(a, a.left[k], p + "0", j);
      } else {
        var m' := ReachedLeafMet(a, a.right[k], p + "1", j);
        m := |vl| + m';
        assert Visits(a, k, p)[m] == RightVisits(a, k, p)[m'];
      }
    }
  }

  /** The arena left by the builder on top of the leaves of the present
      letters: children come before their parents, slots below n are the
      leaves, slots n..root are inner nodes and the root is a leaf only when
      it is the one leaf. */
  lemma BuiltShape(a: Nodes, a0: Nodes, present: seq<int>, freq: seq<int>, root: int)
    requires FullSize(a0)
    requires FullSize(a)
    requires |freq| == ALPHABET && LeavesFor(a0, present, freq)
    requires EmptyFrom(a0, |present|) && TreeBuilt(a, a0, |present|, root)
    ensures ChildrenBefore(a)
    ensures forall k :: 0 <= k < |present| ==>
      IsLeaf(a, k) && 0 <= present[k] < ALPHABET && a.ch[k] == Letter(present[k])
    ensures forall k :: |present| <= k <= root ==> !IsLeaf(a, k)
    ensures IsLeaf(a, root) <==> |present| == 1
  {
    var n := |present|;
    forall k | 0 <= k < MAX_NODES
      ensures a.left[k] == NO_CHILD || 0 <= a.left[k] < k
      ensures a.right[k] == NO_CHILD || 0 <= a.right[k] < k
    {
      if k < n || root < k {
        assert SameSlot(a, a0, k);
      } else {
        assert Merged(a, k);
      }
    }
    forall k | 0 <= k < n
      ensures IsLeaf(a, k) && 0 <= present[k] < ALPHABET && a.ch[k] == Letter(present[k])
    {
      assert SameSlot(a, a0, k);
    }
    forall k | n <= k <= root
      ensures !IsLeaf(a, k)
    {
      assert Merged(a, k);
    }
  }

  /** Every node of the built tree is in the subtree of the root. */
  lemma {:induction false} AllReached(a: Nodes, a0: Nodes, n: int, root: int, j: int)
    requires FullSize(a0)
    requires ChildrenBefore(a) && TreeBuilt(a, a0, n, root) && 0 <= j <= root
    ensures Reaches(a, root, j)
    decreases root - j
  {
    if j < root {
      assert HasParent(a, j, n, root);
      var p :| n <= p <= root && 0 <= j < p < MAX_NODES && (a.left[p] == j || a.right[p] == j);
      AllReached(a, a0, n, root, p);
      ReachesChild(a, root, p, j);
    }
  }

  /** In the built tree, the i-th letter gets a code exactly when it has a
      positive count. */
  lemma BuiltCodesLetters(a: Nodes, a0: Nodes, freq: seq<int>, root: int, i: int)
    requires FullSize(a0)
    requires FullSize(a)
    requires |freq| == ALPHABET && 0 <= i < ALPHABET
    requires LeavesFor(a0, PresentLetters(freq), freq)
    requires EmptyFrom(a0, |PresentLetters(freq)|)
    requires TreeBuilt(a, a0, |PresentLetters(freq)|, root)
    ensures ChildrenBefore(a)
    ensures CodeTable(a, root)[i] != [] <==> freq[i] > 0
  {
    var present := PresentLetters(freq);
    BuiltShape(a, a0, present, freq, root);
    var vs := Visits(a, root, []);
    CodeTableLetters(a, root, i);
    if CodeTable(a, root)[i] != [] {
      var m :| 0 <= m < |vs| && HasLetter(a, vs[m], i);
      VisitIsLeaf(a, root, [], m);
      var k := vs[m].node;
      assert k < |present|;
      assert Letter(present[k]) == Letter(i);
      LetterIndexOfLetter(i);
      LetterIndexOfLetter(present[k]);
    }
    if freq[i] > 0 {
      PresentLettersComplete(freq, i);
      var k :| 0 <= k < |present| && present[k] == i;
      AllReached(a, a0, |present|, root, k);
      var m := ReachedLeafMet(a, root, [], k);
      assert HasLetter(a, vs[m], i);
    }
  }

  /** The root of the built tree weighs as much as all counts together. */
  lemma BuiltRootWeight(a: Nodes, a0: Nodes, freq: seq<int>, root: int)
    requires FullSize(a0)
    requires FullSize(a)
    requires |freq| == ALPHABET && forall i :: 0 <= i < ALPHABET ==> freq[i] >= 0
    requires LeavesFor(a0, PresentLetters(freq), freq)
    requires TreeBuilt(a, a0, |PresentLetters(freq)|, root)
    ensures a.weight[root] == Sum(freq)
  {
    var n := |PresentLetters(freq)|;
    assert a0.weight[..n] == LeafWeights(freq);
    LeafWeightsTotal(freq);
  }

  /** With a single letter present, that letter's code is "0". */
  lemma SingleLetterCode(a: Nodes, a0: Nodes, freq: seq<int>, root: int, i: int)
    requires FullSize(a0)
    requires FullSize(a)
    requires |freq| == ALPHABET && 0 <= i < ALPHABET
    requires LeavesFor(a0, PresentLetters(freq), freq)
    requires EmptyFrom(a0, |PresentLetters(freq)|)
    requires TreeBuilt(a, a0, |PresentLetters(freq)|, root)
    requires freq[i] > 0 && forall i' :: 0 <= i' < ALPHABET && i' != i ==> freq[i'] <= 0
    ensures ChildrenBefore(a) && CodeTable(a, root)[i] == "0"
  {
    var present := PresentLetters(freq);
    PresentLettersComplete(freq, i);
    PresentLettersAscending(freq);
    BuiltShape(a, a0, present, freq, root);
    assert present[0] == i && present[|present| - 1] == i;
    assert present == [i];
    CodeTableAt(a, root, i);
    LetterIndexOfLetter(i);
  }

  /** The program from its text to its code table and encoded bits. A text
      with no letter gives an empty table and no bits. */
  method HuffmanCodes(text: seq<char>) returns (codes: seq<string>, bits: string)
    ensures |codes| == ALPHABET
    ensures forall i :: 0 <= i < ALPHABET ==> (codes[i] != [] <==> Occurrences(text, i) > 0)
    ensures forall i :: 0 <= i < ALPHABET ==> IsBinary(codes[i])
    ensures forall i, i' ::
      (0 <= i < ALPHABET && 0 <= i' < ALPHABET && i != i' && codes[i] != [] && codes[i'] != [])
      ==> !IsPrefix(codes[i], codes[i'])
    ensures forall i ::
      (0 <= i < ALPHABET && Occurrences(text, i) > 0
       && forall i' :: 0 <= i' < ALPHABET && i' != i ==> Occurrences(text, i') == 0)
      ==> codes[i] == "0"
    ensures bits == Encoded(codes, text)
    ensures |bits| == WeightedLength(text, codes, ALPHABET)
  {
    var freq := BuildFrequency(text);
    var store := new NodeStore();
    var nextFree := CreateLeafNodes(store, freq);
    if nextFree == 0 {
      codes := Cleared();
      bits := [];
      forall i | 0 <= i < ALPHABET
        ensures Occurrences(text, i) == 0
      {
        if freq[i] > 0 {
          PresentLettersComplete(freq, i);
        }
      }
      EncodedNothing(codes, text);
      EncodedLength(codes, text);
      return;
    }
    ghost var a0 := store.Snapshot();
    var root := BuildEncodingTree(store, nextFree);
    ghost var a := store.Snapshot();
    BuiltShape(a, a0, PresentLetters(freq), freq, root);
    var table := new string[ALPHABET];
    GenerateCodes(store, root, table);
    codes := table[..];
    forall i | 0 <= i < ALPHABET
      ensures (codes[i] != [] <==> Occurrences(text, i) > 0) && IsBinary(codes[i])
    {
      BuiltCodesLetters(a, a0, freq, root, i);
      CodeTableBinary(a, root, i);
    }
    forall i, i' | 0 <= i < ALPHABET && 0 <= i' < ALPHABET && i != i'
      && codes[i] != [] && codes[i'] != []
      ensures !IsPrefix(codes[i], codes[i'])
    {
      CodeTablePrefixFree(a, root, i, i');
    }
    forall i | 0 <= i < ALPHABET && Occurrences(text, i) > 0
      && (forall i' :: 0 <= i' < ALPHABET && i' != i ==> Occurrences(text, i') == 0)
      ensures codes[i] == "0"
    {
      SingleLetterCode(a, a0, freq, root, i);
    }
    bits := EncodeMessage(codes, text);
    EncodedLength(codes, text);
  }

  /** With every code empty, the encoded message is empty. */
  lemma {:induction false} EncodedNothing(codes: seq<string>, text: seq<char>)
    requires |codes| == ALPHABET && forall i :: 0 <= i < ALPHABET ==> codes[i] == []
    ensures Encoded(codes, text) == []
  {
    if text != [] {
      EncodedNothing(codes, text[..|text| - 1]);
    }
  }
}
