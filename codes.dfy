/** The code generator: a depth-first walk of the tree with an explicit stack
    of (node, path) frames; left appends '0', right appends '1', and each
    leaf holding a letter records its path as that letter's code. */
module Codes {
  import opened Arena
  import opened Letters

  /** A stack frame: a node handle and the path that led to it. */
  datatype Frame = Frame(node: int, path: string)

  /** p is a prefix of q. */
  predicate IsPrefix(p: string, q: string)
  {
    |p| <= |q| && q[..|p|] == p
  }

  predicate IsBinary(s: string)
  {
    forall k :: 0 <= k < |s| ==> s[k] == '0' || s[k] == '1'
  }

  /** The code a leaf gets for its path: the path itself, or "0" for the
      empty path of a root that is a leaf. */
  function CodeFor(path: string): (r: string)
    ensures r != [] && (path != [] ==> r == path)
    ensures IsBinary(path) ==> IsBinary(r)
  {
    if path == [] then "0" else path
  }

  /** Number of nodes the walk meets from k, counting a shared node once per
      path to it. */
  function Size(a: Nodes, k: int): (r: nat)
    requires ChildrenBefore(a) && 0 <= k < MAX_NODES
    ensures r >= 1
    decreases k
  {
    1 + (if a.left[k] != NO_CHILD then Size(a, a.left[k]) else 0)
      + (if a.right[k] != NO_CHILD then Size(a, a.right[k]) else 0)
  }

  /** The leaves met by the walk from node k reached by path p, in the order
      the generator meets them: the left subtree before the right one. */
  function Visits(a: Nodes, k: int, p: string): seq<Frame>
    requires ChildrenBefore(a) && 0 <= k < MAX_NODES
    decreases k
  {
    if IsLeaf(a, k) then [Frame(k, p)]
    else
      (if a.left[k] != NO_CHILD then Visits(a, a.left[k], p + "0") else [])
      + (if a.right[k] != NO_CHILD then Visits(a, a.right[k], p + "1") else [])
  }

  /** Every leaf met from k is a leaf node at or below k. */
  lemma {:induction false} VisitIsLeaf(a: Nodes, k: int, p: string, m: int)
    requires ChildrenBefore(a) && 0 <= k < MAX_NODES && 0 <= m < |Visits(a, k, p)|
    ensures 0 <= Visits(a, k, p)[m].node <= k && IsLeaf(a, Visits(a, k, p)[m].node)
    decreases k
  {
    if !IsLeaf(a, k) {
      VisitsSplit(a, k, p);
      var vl := LeftVisits(a, k, p);
      if m < |vl| {
        VisitIsLeaf(a, a.left[k], p + "0", m);
      } else {
        assert Visits(a, k, p)[m] == RightVisits(a, k, p)[m - |vl|];
        VisitIsLeaf(a, a.right[k], p + "1", m - |vl|);
      }
    }
  }

  predicate FramesInRange(st: seq<Frame>)
  {
    forall m :: 0 <= m < |st| ==> 0 <= st[m].node < MAX_NODES
  }

  /** The leaves still to be met for a stack whose top is its last frame. */
  function Pending(a: Nodes, st: seq<Frame>): seq<Frame>
    requires ChildrenBefore(a) && FramesInRange(st)
  {
    if st == [] then []
    else
      var top := st[|st| - 1];
      Visits(a, top.node, top.path) + Pending(a, st[..|st| - 1])
  }

  /** Total walk size of the frames on the stack. */
  function StackSize(a: Nodes, st: seq<Frame>): nat
    requires ChildrenBefore(a) && FramesInRange(st)
  {
    if st == [] then 0 else Size(a, st[|st| - 1].node) + StackSize(a, st[..|st| - 1])
  }

  /** The empty code table. */
  function Cleared(): (c: seq<string>)
    ensures |c| == ALPHABET && forall i :: 0 <= i < ALPHABET ==> c[i] == []
  {
    seq(ALPHABET, _ => [])
  }

  /** Frame f is a leaf holding the i-th letter. */
  predicate HasLetter(a: Nodes, f: Frame, i: int)
    requires |a.ch| == MAX_NODES && 0 <= i < ALPHABET
  {
    0 <= f.node < MAX_NODES && a.ch[f.node] == Letter(i)
  }

  /** Meeting leaf f: a lower-case letter records the code of the path. */
  function Record(c: seq<string>, a: Nodes, f: Frame): seq<string>
    requires |c| == ALPHABET && |a.ch| == MAX_NODES
  {
    if 0 <= f.node < MAX_NODES && IsLower(a.ch[f.node]) then
      c[LetterIndex(a.ch[f.node]) := CodeFor(f.path)]
    else c
  }

  /** Meeting leaf f sets the entry of the letter it holds to the code of its
      path and leaves every other entry alone. */
  lemma RecordAt(c: seq<string>, a: Nodes, f: Frame, i: int)
    requires |c| == ALPHABET && |a.ch| == MAX_NODES && 0 <= i < ALPHABET
    ensures |Record(c, a, f)| == ALPHABET
    ensures Record(c, a, f)[i] == if HasLetter(a, f, i) then CodeFor(f.path) else c[i]
  {
    if 0 <= f.node < MAX_NODES && IsLower(a.ch[f.node]) {
      LetterIndexOfLetter(i);
    }
  }

  /** Meeting the leaves vs in order, starting from table c. */
  function RecordAll(c: seq<string>, a: Nodes, vs: seq<Frame>): (r: seq<string>)
    requires |c| == ALPHABET && |a.ch| == MAX_NODES
    ensures |r| == ALPHABET
    decreases |vs|
  {
    if vs == [] then c else RecordAll(Record(c, a, vs[0]), a, vs[1..])
  }

  /** The table the generator produces for the tree at root. */
  function CodeTable(a: Nodes, root: int): (c: seq<string>)
    requires ChildrenBefore(a) && root < MAX_NODES
    ensures |c| == ALPHABET
  {
    if root < 0 then Cleared() else RecordAll(Cleared(), a, Visits(a, root, []))
  }

  /** Position of the last leaf in vs holding the i-th letter, or -1. */
  function LastVisitOf(a: Nodes, vs: seq<Frame>, i: int): (j: int)
    requires |a.ch| == MAX_NODES && 0 <= i < ALPHABET
    ensures -1 <= j < |vs|
    ensures j >= 0 ==> HasLetter(a, vs[j], i)
    ensures forall m :: j < m < |vs| ==> !HasLetter(a, vs[m], i)
  {
    if vs == [] then -1
    else
      var j := LastVisitOf(a, vs[1..], i);
      if j >= 0 then j + 1 else if HasLetter(a, vs[0], i) then 0 else -1
  }

  /** After meeting the leaves vs, the entry of letter i is the code of the
      last leaf holding it, or what it was before if no leaf holds it. */
  lemma {:induction false} RecordAllAt(c: seq<string>, a: Nodes, vs: seq<Frame>, i: int)
    requires |c| == ALPHABET && |a.ch| == MAX_NODES
    requires 0 <= i < ALPHABET
    ensures var j := LastVisitOf(a, vs, i);
      RecordAll(c, a, vs)[i] == if j < 0 then c[i] else CodeFor(vs[j].path)
    decreases |vs|
  {
    if vs != [] {
      var c' := Record(c, a, vs[0]);
      RecordAllAt(c', a, vs[1..], i);
      if HasLetter(a, vs[0], i) {
        LetterIndexOfLetter(i);
      } else if 0 <= vs[0].node < MAX_NODES && IsLower(a.ch[vs[0].node]) {
        assert LetterIndex(a.ch[vs[0].node]) != i;
      }
    }
  }

  /** The leaves met from k, split into those of the left and of the right
      subtree of an inner node. */
  lemma VisitsSplit(a: Nodes, k: int, p: string)
    requires ChildrenBefore(a) && 0 <= k < MAX_NODES && !IsLeaf(a, k)
    ensures Visits(a, k, p) == LeftVisits(a, k, p) + RightVisits(a, k, p)
    ensures LeftVisits(a, k, p) != [] ==>
      a.left[k] != NO_CHILD && LeftVisits(a, k, p) == Visits(a, a.left[k], p + "0")
    ensures RightVisits(a, k, p) != [] ==>
      a.right[k] != NO_CHILD && RightVisits(a, k, p) == Visits(a, a.right[k], p + "1")
  {
  }

  function LeftVisits(a: Nodes, k: int, p: string): seq<Frame>
    requires ChildrenBefore(a) && 0 <= k < MAX_NODES
  {
    if a.left[k] != NO_CHILD then Visits(a, a.left[k], p + "0") else []
  }

  function RightVisits(a: Nodes, k: int, p: string): seq<Frame>
    requires ChildrenBefore(a) && 0 <= k < MAX_NODES
  {
    if a.right[k] != NO_CHILD then Visits(a, a.right[k], p + "1") else []
  }

  /** The path of the m-th leaf met from k extends p, and it extends p by the
      bit of the side it lies on when k is an inner node. */
  lemma {:induction false} VisitExtends(a: Nodes, k: int, p: string, m: int)
    requires ChildrenBefore(a) && 0 <= k < MAX_NODES && 0 <= m < |Visits(a, k, p)|
    ensures IsPrefix(p, Visits(a, k, p)[m].path)
    ensures !IsLeaf(a, k) && m < |LeftVisits(a, k, p)| ==>
      IsPrefix(p + "0", Visits(a, k, p)[m].path)
    ensures !IsLeaf(a, k) && m >= |LeftVisits(a, k, p)| ==>
      IsPrefix(p + "1", Visits(a, k, p)[m].path)
    decreases k
  {
    if !IsLeaf(a, k) {
      VisitsSplit(a, k, p);
      var vl := LeftVisits(a, k, p);
      var f := Visits(a, k, p)[m];
      var q := if m < |vl| then p + "0" else p + "1";
      if m < |vl| {
        VisitExtends(a, a.left[k], p + "0", m);
      } else {
        VisitExtends(a, a.right[k], p + "1", m - |vl|);
      }
      assert f.path[..|p|] == q[..|p|];
    }
  }

  /** Two paths that part at their first bit after p are not prefixes of each
      other. */
  lemma Diverge(p: string, x: string, y: string)
    requires IsPrefix(p + "0", x) && IsPrefix(p + "1", y)
    ensures !IsPrefix(x, y) && !IsPrefix(y, x)
  {
    assert x[|p|] == '0' && y[|p|] == '1';
  }

  /** The paths of two different leaf meetings from k are not prefixes of
      each other. */
  lemma {:induction false} VisitsPrefixFree(a: Nodes, k: int, p: string, m: int, m': int)
    requires ChildrenBefore(a) && 0 <= k < MAX_NODES
    requires 0 <= m < |Visits(a, k, p)| && 0 <= m' < |Visits(a, k, p)| && m != m'
    ensures !IsPrefix(Visits(a, k, p)[m].path, Visits(a, k, p)[m'].path)
    decreases k, 1
  {
    if !IsLeaf(a, k) {
      VisitsSplit(a, k, p);
      var n := |LeftVisits(a, k, p)|;
      if m < n && m' < n {
        LeftPrefixFree(a, k, p, m, m');
      } else if n <= m && n <= m' {
        RightPrefixFree(a, k, p, m, m');
      } else {
        VisitExtends(a, k, p, m);
        VisitExtends(a, k, p, m');
        var vs := Visits(a, k, p);
        if m < n {
          Diverge(p, vs[m].path, vs[m'].path);
        } else {
          Diverge(p, vs[m'].path, vs[m].path);
        }
      }
    }
  }

  /** Two different leaves of the left subtree of k. */
  lemma {:induction false} LeftPrefixFree(a: Nodes, k: int, p: string, m: int, m': int)
    requires ChildrenBefore(a) && 0 <= k < MAX_NODES && !IsLeaf(a, k)
    requires 0 <= m < |LeftVisits(a, k, p)| && 0 <= m' < |LeftVisits(a, k, p)| && m != m'
    ensures !IsPrefix(Visits(a, k, p)[m].path, Visits(a, k, p)[m'].path)
    decreases k, 0
  {
    VisitsSplit(a, k, p);
    var vs := Visits(a, k, p);
    var vl := LeftVisits(a, k, p);
    assert vs[m] == vl[m] && vs[m'] == vl[m'];
    VisitsPrefixFree(a, a.left[k], p + "0", m, m');
  }

  /** Two different leaves of the right subtree of k. */
  lemma {:induction false} RightPrefixFree(a: Nodes, k: int, p: string, m: int, m': int)
    requires ChildrenBefore(a) && 0 <= k < MAX_NODES && !IsLeaf(a, k)
    requires var n := |LeftVisits(a, k, p)|;
      n <= m < n + |RightVisits(a, k, p)| && n <= m' < n + |RightVisits(a, k, p)| && m != m'
    ensures !IsPrefix(Visits(a, k, p)[m].path, Visits(a, k, p)[m'].path)
    decreases k, 0
  {
    VisitsSplit(a, k, p);
    var vl, vr := LeftVisits(a, k, p), RightVisits(a, k, p);
    var i, i' := m - |vl|, m' - |vl|;
    assert Visits(a, k, p)[m] == vr[i] && Visits(a, k, p)[m'] == vr[i'];
    assert vr == Visits(a, a.right[k], p + "1");
    VisitsPrefixFree(a, a.right[k], p + "1", i, i');
  }

  /** The paths met from a binary path are binary. */
  lemma {:induction false} VisitsBinary(a: Nodes, k: int, p: string)
    requires ChildrenBefore(a) && 0 <= k < MAX_NODES && IsBinary(p)
    ensures forall m :: 0 <= m < |Visits(a, k, p)| ==> IsBinary(Visits(a, k, p)[m].path)
    decreases k
  {
    if !IsLeaf(a, k) {
      if a.left[k] != NO_CHILD {
        VisitsBinary(a, a.left[k], p + "0");
      }
      if a.right[k] != NO_CHILD {
        VisitsBinary(a, a.right[k], p + "1");
      }
    }
  }

  /** The node reached from k by following bits[i..] ('0' left, '1' right),
      or -1 when a child is missing on the way. */
  function Follow(a: Nodes, k: int, bits: string, i: nat): (r: int)
    requires ChildrenBefore(a) && 0 <= k < MAX_NODES
    ensures -1 <= r <= k
    decreases |bits| - i
  {
    if i >= |bits| then k
    else
      var c := if bits[i] == '0' then a.left[k] else a.right[k];
      if c == NO_CHILD then -1 else Follow(a, c, bits, i + 1)
  }

  /** The m-th leaf met from k by path p is the node reached from k by the
      part of its path after p. */
  lemma {:induction false} VisitFollow(a: Nodes, k: int, p: string, m: int)
    requires ChildrenBefore(a) && 0 <= k < MAX_NODES && 0 <= m < |Visits(a, k, p)|
    ensures |p| <= |Visits(a, k, p)[m].path|
    ensures Follow(a, k, Visits(a, k, p)[m].path, |p|) == Visits(a, k, p)[m].node
    decreases k
  {
    VisitExtends(a, k, p, m);
    if !IsLeaf(a, k) {
      VisitsSplit(a, k, p);
      var vl := LeftVisits(a, k, p);
      var f := Visits(a, k, p)[m];
      if m < |vl| {
        VisitFollow(a, a.left[k], p + "0", m);
        assert f.path[|p|] == (p + "0")[|p|];
      } else {
        VisitFollow(a, a.right[k], p + "1", m - |vl|);
        assert f.path[|p|] == (p + "1")[|p|];
      }
    }
  }

  /** Pushing frame f puts its leaves in front of the ones still pending. */
  lemma PushFrame(a: Nodes, st: seq<Frame>, f: Frame)
    requires ChildrenBefore(a) && FramesInRange(st) && 0 <= f.node < MAX_NODES
    ensures FramesInRange(st + [f])
    ensures Pending(a, st + [f]) == Visits(a, f.node, f.path) + Pending(a, st)
    ensures StackSize(a, st + [f]) == Size(a, f.node) + StackSize(a, st)
  {
    assert (st + [f])[..|st|] == st;
  }

  /** Meeting a leaf on top of the stack records it and leaves the rest. */
  lemma LeafStep(a: Nodes, c: seq<string>, rest: seq<Frame>, top: Frame)
    requires ChildrenBefore(a) && FramesInRange(rest) && |c| == ALPHABET
    requires 0 <= top.node < MAX_NODES && IsLeaf(a, top.node)
    ensures FramesInRange(rest + [top])
    ensures RecordAll(Record(c, a, top), a, Pending(a, rest))
         == RecordAll(c, a, Pending(a, rest + [top]))
    ensures StackSize(a, rest) < StackSize(a, rest + [top])
  {
    PushFrame(a, rest, top);
    var vs := Pending(a, rest + [top]);
    assert vs == [top] + Pending(a, rest);
    assert vs[1..] == Pending(a, rest);
  }

  /** The stack with the frame of top's right child pushed, if it has one. */
  function PushRight(a: Nodes, rest: seq<Frame>, top: Frame): seq<Frame>
    requires ChildrenBefore(a) && 0 <= top.node < MAX_NODES
  {
    if a.right[top.node] != NO_CHILD
    then rest + [Frame(a.right[top.node], top.path + "1")] else rest
  }

  /** The stack with the frame of top's left child pushed, if it has one. */
  function PushLeft(a: Nodes, rest: seq<Frame>, top: Frame): seq<Frame>
    requires ChildrenBefore(a) && 0 <= top.node < MAX_NODES
  {
    if a.left[top.node] != NO_CHILD
    then rest + [Frame(a.left[top.node], top.path + "0")] else rest
  }

  /** What the walk pushes for an inner node: the right child, then the left. */
  function PushChildren(a: Nodes, rest: seq<Frame>, top: Frame): seq<Frame>
    requires ChildrenBefore(a) && 0 <= top.node < MAX_NODES
  {
    PushLeft(a, PushRight(a, rest, top), top)
  }

  lemma PushRightPending(a: Nodes, rest: seq<Frame>, top: Frame)
    requires ChildrenBefore(a) && FramesInRange(rest) && 0 <= top.node < MAX_NODES
    ensures FramesInRange(PushRight(a, rest, top))
    ensures Pending(a, PushRight(a, rest, top)) == RightVisits(a, top.node, top.path) + Pending(a, rest)
    ensures StackSize(a, PushRight(a, rest, top))
         == (if a.right[top.node] != NO_CHILD then Size(a, a.right[top.node]) else 0) + StackSize(a, rest)
  {
    if a.right[top.node] != NO_CHILD {
      PushFrame(a, rest, Frame(a.right[top.node], top.path + "1"));
    } else {
      assert [] + Pending(a, rest) == Pending(a, rest);
    }
  }

  lemma PushLeftPending(a: Nodes, rest: seq<Frame>, top: Frame)
    requires ChildrenBefore(a) && FramesInRange(rest) && 0 <= top.node < MAX_NODES
    ensures FramesInRange(PushLeft(a, rest, top))
    ensures Pending(a, PushLeft(a, rest, top)) == LeftVisits(a, top.node, top.path) + Pending(a, rest)
    ensures StackSize(a, PushLeft(a, rest, top))
         == (if a.left[top.node] != NO_CHILD then Size(a, a.left[top.node]) else 0) + StackSize(a, rest)
  {
    if a.left[top.node] != NO_CHILD {
      PushFrame(a, rest, Frame(a.left[top.node], top.path + "0"));
    } else {
      assert [] + Pending(a, rest) == Pending(a, rest);
    }
  }

  /** Replacing an inner node by its children keeps the leaves still to be
      met, in the same order, and shrinks the work left. */
  lemma InnerStep(a: Nodes, rest: seq<Frame>, top: Frame)
    requires ChildrenBefore(a) && FramesInRange(rest)
    requires 0 <= top.node < MAX_NODES && !IsLeaf(a, top.node)
    ensures FramesInRange(rest + [top]) && FramesInRange(PushChildren(a, rest, top))
    ensures Pending(a, PushChildren(a, rest, top)) == Pending(a, rest + [top])
    ensures StackSize(a, PushChildren(a, rest, top)) < StackSize(a, rest + [top])
  {
    PushFrame(a, rest, top);
    VisitsSplit(a, top.node, top.path);
    PushRightPending(a, rest, top);
    PushLeftPending(a, PushRight(a, rest, top), top);
    var lv, rv, pr := LeftVisits(a, top.node, top.path), RightVisits(a, top.node, top.path), Pending(a, rest);
    assert lv + (rv + pr) == (lv + rv) + pr;
  }

  /** The code generator: every entry is cleared, then a depth-first walk from
      the root records, for each leaf holding a lower-case letter, the path to
      it ("0" for a root that is itself a leaf). Right children are pushed
      before left ones, so left subtrees are met first. */
  method GenerateCodes(store: NodeStore, root: int, codes: array<string>)
    requires store.Valid() && ChildrenBefore(store.Snapshot()) && root < MAX_NODES
    requires codes.Length == ALPHABET
    modifies codes
    ensures codes[..] == CodeTable(store.Snapshot(), root)
  {
    ClearCodes(codes);
    if root < 0 {
      return;
    }
    Walk(store, root, codes);
  }

  /** Empties every entry of the table. */
  method ClearCodes(codes: array<string>)
    requires codes.Length == ALPHABET
    modifies codes
    ensures codes[..] == Cleared()
  {
    for i := 0 to ALPHABET
      invariant forall j :: 0 <= j < i ==> codes[j] == []
    {
      codes[i] := [];
    }
  }

  /** The stack walk of the code generator from a cleared table. */
  method Walk(store: NodeStore, root: int, codes: array<string>)
    requires store.Valid() && ChildrenBefore(store.Snapshot()) && 0 <= root < MAX_NODES
    requires codes.Length == ALPHABET && codes[..] == Cleared()
    modifies codes
    ensures codes[..] == CodeTable(store.Snapshot(), root)
  {
    ghost var a := store.Snapshot();
    var st := [Frame(root, [])];
    PushFrame(a, [], Frame(root, []));
    assert [] + [Frame(root, [])] == st;
    assert Pending(a, st) == Visits(a, root, []);
    while st != []
      invariant FramesInRange(st)
      invariant RecordAll(codes[..], a, Pending(a, st)) == CodeTable(a, root)
      decreases StackSize(a, st)
    {
      st := Round(store, codes, st);
    }
  }

  /** One round of the walk: pop the top frame, then record it if it is a
      leaf, or push its right and then its left child otherwise. The leaves
      still to be met keep their outcome, and the work left shrinks. */
  method Round(store: NodeStore, codes: array<string>, st: seq<Frame>) returns (st': seq<Frame>)
    requires store.Valid() && ChildrenBefore(store.Snapshot()) && codes.Length == ALPHABET
    requires FramesInRange(st) && st != []
    modifies codes
    ensures FramesInRange(st')
    ensures RecordAll(codes[..], store.Snapshot(), Pending(store.Snapshot(), st'))
         == RecordAll(old(codes[..]), store.Snapshot(), Pending(store.Snapshot(), st))
    ensures StackSize(store.Snapshot(), st') < StackSize(store.Snapshot(), st)
  {
    ghost var a := store.Snapshot();
    var cur := st[|st| - 1];
    assert st == st[..|st| - 1] + [cur];
    st' := st[..|st| - 1];
    var n := cur.node;
    var l := store.left[n];
    var r := store.right[n];
    if l == NO_CHILD && r == NO_CHILD {
      LeafStep(a, codes[..], st', cur);
      RecordLeaf(store, codes, cur);
    } else {
      InnerStep(a, st', cur);
      ghost var rest := st';
      if r != NO_CHILD {
        st' := st' + [Frame(r, cur.path + "1")];
      }
      if l != NO_CHILD {
        st' := st' + [Frame(l, cur.path + "0")];
      }
      assert st' == PushChildren(a, rest, cur);
    }
  }

  /** Meeting a leaf: a lower-case letter gets the path as its code, or "0"
      when the path is empty. */
  method RecordLeaf(store: NodeStore, codes: array<string>, cur: Frame)
    requires store.Valid() && codes.Length == ALPHABET && 0 <= cur.node < MAX_NODES
    modifies codes
    ensures codes[..] == Record(old(codes[..]), store.Snapshot(), cur)
  {
    var ch := store.ch[cur.node];
    if 'a' <= ch <= 'z' {
      if cur.path == [] {
        codes[ch as int - 'a' as int] := "0";
      } else {
        codes[ch as int - 'a' as int] := cur.path;
      }
    }
  }

  /** Entry i of the table is the code of the last leaf met holding the i-th
      letter, and empty when no leaf met holds it. */
  lemma CodeTableAt(a: Nodes, root: int, i: int)
    requires ChildrenBefore(a) && 0 <= root < MAX_NODES && 0 <= i < ALPHABET
    ensures var vs := Visits(a, root, []); var j := LastVisitOf(a, vs, i);
      CodeTable(a, root)[i] == if j < 0 then [] else CodeFor(vs[j].path)
  {
    RecordAllAt(Cleared(), a, Visits(a, root, []), i);
  }

  /** A letter gets a code exactly when some leaf of the tree holds it. */
  lemma CodeTableLetters(a: Nodes, root: int, i: int)
    requires ChildrenBefore(a) && 0 <= root < MAX_NODES && 0 <= i < ALPHABET
    ensures var vs := Visits(a, root, []);
      CodeTable(a, root)[i] != [] <==> exists m :: 0 <= m < |vs| && HasLetter(a, vs[m], i)
  {
    CodeTableAt(a, root, i);
  }

  /** Every code is a string of '0' and '1' characters. */
  lemma CodeTableBinary(a: Nodes, root: int, i: int)
    requires ChildrenBefore(a) && 0 <= root < MAX_NODES && 0 <= i < ALPHABET
    ensures IsBinary(CodeTable(a, root)[i])
  {
    CodeTableAt(a, root, i);
    VisitsBinary(a, root, []);
  }

  /** No code is a prefix of the code of another letter. */
  lemma CodeTablePrefixFree(a: Nodes, root: int, i: int, i': int)
    requires ChildrenBefore(a) && 0 <= root < MAX_NODES
    requires 0 <= i < ALPHABET && 0 <= i' < ALPHABET && i != i'
    requires CodeTable(a, root)[i] != [] && CodeTable(a, root)[i'] != []
    ensures !IsPrefix(CodeTable(a, root)[i], CodeTable(a, root)[i'])
  {
    var vs := Visits(a, root, []);
    CodeTableAt(a, root, i);
    CodeTableAt(a, root, i');
    var j, j' := LastVisitOf(a, vs, i), LastVisitOf(a, vs, i');
    assert j != j' by {
      LetterIndexOfLetter(i);
      LetterIndexOfLetter(i');
    }
    if !IsLeaf(a, root) {
      VisitsPrefixFree(a, root, [], j, j');
      VisitExtends(a, root, [], j);
      VisitExtends(a, root, [], j');
    }
  }

  /** Following the code of a letter from an inner root, '0' to the left and
      '1' to the right, ends at a leaf holding that letter. */
  lemma CodeTableDecodes(a: Nodes, root: int, i: int)
    requires ChildrenBefore(a) && 0 <= root < MAX_NODES && !IsLeaf(a, root)
    requires 0 <= i < ALPHABET && CodeTable(a, root)[i] != []
    ensures var n := Follow(a, root, CodeTable(a, root)[i], 0);
      0 <= n && IsLeaf(a, n) && a.ch[n] == Letter(i)
  {
    var vs := Visits(a, root, []);
    CodeTableAt(a, root, i);
    var j := LastVisitOf(a, vs, i);
    VisitExtends(a, root, [], j);
    VisitFollow(a, root, [], j);
    VisitIsLeaf(a, root, [], j);
  }
}
