/** The node arena: a fixed-capacity store of tree nodes addressed by integer
    handles. The four parallel global arrays of the program become the four
    arrays owned by one NodeStore object. */
module Arena {

  /** Capacity of the arena and of the heap (enough for 2*26-1 nodes). */
  const MAX_NODES: int := 128

  /** Child value that marks "no child". */
  const NO_CHILD: int := -1

  /** A value snapshot of the arena, used by the specifications. */
  datatype Nodes = Nodes(weight: seq<int>, left: seq<int>, right: seq<int>, ch: seq<char>)

  /** The snapshot has one entry per arena slot in each of its four fields. */
  predicate FullSize(a: Nodes)
  {
    |a.weight| == |a.left| == |a.right| == |a.ch| == MAX_NODES
  }

  /** A node whose two child slots are both empty is a leaf. */
  predicate IsLeaf(a: Nodes, k: int)
    requires 0 <= k < |a.left| == |a.right|
  {
    a.left[k] == NO_CHILD && a.right[k] == NO_CHILD
  }

  /** Every child handle is either empty or names an earlier slot; this is what
      makes every walk down the arena finite. */
  ghost predicate ChildrenBefore(a: Nodes)
  {
    && FullSize(a)
    && (forall k :: 0 <= k < MAX_NODES ==> a.left[k] == NO_CHILD || 0 <= a.left[k] < k)
    && (forall k :: 0 <= k < MAX_NODES ==> a.right[k] == NO_CHILD || 0 <= a.right[k] < k)
  }

  /** The arena with every field of slot k replaced. */
  function WithNode(a: Nodes, k: int, w: int, l: int, r: int, c: char): (b: Nodes)
    requires 0 <= k < |a.weight| == |a.left| == |a.right| == |a.ch|
    ensures |b.weight| == |b.left| == |b.right| == |b.ch| == |a.weight|
    ensures b.weight[k] == w && b.left[k] == l && b.right[k] == r && b.ch[k] == c
    ensures forall j :: 0 <= j < |a.weight| && j != k ==>
      b.weight[j] == a.weight[j] && b.left[j] == a.left[j]
      && b.right[j] == a.right[j] && b.ch[j] == a.ch[j]
  {
    Nodes(a.weight[k := w], a.left[k := l], a.right[k := r], a.ch[k := c])
  }

  /** Slots n and above are empty nodes: weight 0, no children, character '\0'. */
  ghost predicate EmptyFrom(a: Nodes, n: int)
    requires |a.weight| == |a.left| == |a.right| == |a.ch|
  {
    forall k :: 0 <= n <= k < |a.weight| ==>
      && a.weight[k] == 0 && a.ch[k] == '\0'
      && a.left[k] == NO_CHILD && a.right[k] == NO_CHILD
  }

  class NodeStore {
    const weight: array<int>
    const left: array<int>
    const right: array<int>
    const ch: array<char>

    ghost predicate Valid()
      reads this
    {
      && weight.Length == MAX_NODES && left.Length == MAX_NODES
      && right.Length == MAX_NODES && ch.Length == MAX_NODES
      && weight != left && weight != right && left != right
    }

    /** The arena as a value. */
    ghost function Snapshot(): (a: Nodes)
      reads this, weight, left, right, ch
      requires Valid()
      ensures FullSize(a) && |a.weight| == |a.left| == |a.right| == |a.ch| == MAX_NODES
    {
      Nodes(weight[..], left[..], right[..], ch[..])
    }

    /** Statically allocated arrays start out zero-filled. */
    constructor ()
      ensures Valid()
      ensures fresh(weight) && fresh(left) && fresh(right) && fresh(ch)
      ensures forall k :: 0 <= k < MAX_NODES ==>
        weight[k] == 0 && left[k] == 0 && right[k] == 0 && ch[k] == '\0'
    {
      weight := new int[MAX_NODES](_ => 0);
      left := new int[MAX_NODES](_ => 0);
      right := new int[MAX_NODES](_ => 0);
      ch := new char[MAX_NODES](_ => '\0');
    }

    /** Resets every slot to an empty node: weight 0, no children, character
        '\0'. */
    method Clear()
      requires Valid()
      modifies weight, left, right, ch
      ensures EmptyFrom(Snapshot(), 0)
    {
      for i := 0 to MAX_NODES
        invariant forall k :: 0 <= k < i ==>
          && weight[k] == 0 && ch[k] == '\0'
          && left[k] == NO_CHILD && right[k] == NO_CHILD
      {
        SetNode(i, 0, NO_CHILD, NO_CHILD, '\0');
      }
    }

    /** Writes all four fields of slot k. */
    method SetNode(k: int, w: int, l: int, r: int, c: char)
      requires Valid() && 0 <= k < MAX_NODES
      modifies weight, left, right, ch
      ensures Snapshot() == WithNode(old(Snapshot()), k, w, l, r, c)
    {
      weight[k] := w;
      left[k] := l;
      right[k] := r;
      ch[k] := c;
    }
  }
}
