/** Model of the binary search tree set (AVLSet): nodes with a value, a cached
    height and two children; insertion without rebalancing (the rebalancing
    code of the source is disabled); membership; the three traversals; copy;
    and the four rotations the source keeps disabled. */
module AVLTree {

  /** A subtree. `Nil` is the null child pointer; a `Node` owns its children. */
  datatype Tree = Nil | Node(left: Tree, value: int, height: int, right: Tree)

  /** The values stored in a subtree. */
  function Elements(t: Tree): set<int>
  {
    match t
    case Nil => {}
    case Node(l, v, _, r) => Elements(l) + {v} + Elements(r)
  }

  /** Binary-search-tree ordering: everything on the left is smaller, everything
      on the right is larger (so no value is stored twice). */
  ghost predicate IsBST(t: Tree)
  {
    match t
    case Nil => true
    case Node(l, v, _, r) =>
      IsBST(l) && IsBST(r) &&
      (forall y :: y in Elements(l) ==> y < v) &&
      (forall y :: y in Elements(r) ==> v < y)
  }

  /** The height of a subtree by definition: -1 for no nodes, 0 for a leaf. */
  function Depth(t: Tree): int
  {
    match t
    case Nil => -1
    case Node(l, _, _, r) => 1 + Max(Depth(l), Depth(r))
  }

  function Max(a: int, b: int): int
  {
    if a < b then b else a
  }

  /** The cached height read through a possibly null pointer: -1 for `Nil`,
      as `height()` reports for an empty tree. */
  function HeightOf(t: Tree): int
  {
    if t == Nil then -1 else t.height
  }

  /** `nodeHeight`: the height a node should cache, computed from the cached
      heights of its children exactly as the source branches on them. */
  function NodeHeight(node: Tree): int
    requires node.Node?
  {
    if node.right == Nil && node.left == Nil then 0
    else if node.right != Nil && node.left == Nil then node.right.height + 1
    else if node.right == Nil && node.left != Nil then node.left.height + 1
    else if node.right.height > node.left.height then node.right.height + 1
    else node.left.height + 1
  }

  /** Every node caches the height `nodeHeight` gives it. */
  ghost predicate HeightsCorrect(t: Tree)
  {
    match t
    case Nil => true
    case Node(l, _, h, r) => HeightsCorrect(l) && HeightsCorrect(r) && h == NodeHeight(t)
  }

  /** A tree the set can be in: ordered, with correct cached heights. */
  ghost predicate ValidTree(t: Tree)
  {
    IsBST(t) && HeightsCorrect(t)
  }

  /** `createNode`: a fresh leaf. */
  function CreateNode(x: int): (r: Tree)
    ensures Elements(r) == {x} && Depth(r) == 0
    ensures ValidTree(r) && HeightOf(r) == 0
  {
    Node(Nil, x, 0, Nil)
  }

  lemma {:induction false} HeightIsDepth(t: Tree)
    requires HeightsCorrect(t)
    ensures HeightOf(t) == Depth(t)
  {
    match t
    case Nil =>
    case Node(l, _, _, r) =>
      HeightIsDepth(l);
      HeightIsDepth(r);
      DepthAtLeastMinusOne(l);
      DepthAtLeastMinusOne(r);
  }

  /** The rule behind `nodeHeight`: 0 for a leaf, otherwise one more than the
      larger of the children's heights (an absent child counting -1). */
  lemma NodeHeightRule(t: Tree)
    requires t.Node? && HeightsCorrect(t.left) && HeightsCorrect(t.right)
    ensures NodeHeight(t) == 1 + Max(HeightOf(t.left), HeightOf(t.right))
    ensures t.left == Nil && t.right == Nil ==> NodeHeight(t) == 0
  {
    HeightIsDepth(t.left);
    HeightIsDepth(t.right);
    DepthAtLeastMinusOne(t.left);
    DepthAtLeastMinusOne(t.right);
  }

  lemma {:induction false} DepthAtLeastMinusOne(t: Tree)
    ensures Depth(t) >= -1
    ensures t.Node? ==> Depth(t) >= 0
  {
    match t
    case Nil =>
    case Node(l, _, _, r) =>
      DepthAtLeastMinusOne(l);
      DepthAtLeastMinusOne(r);
  }

  // ---------------------------------------------------------------------------
  // Insertion

  /** `addNode` with every ancestor's height recomputed by `nodeHeight`,
      including the parent of the new leaf. This is the insertion the rest of
      the model uses. */
  function AddNode(curr: Tree, x: int): (r: Tree)
    requires curr.Node?
    ensures r.Node?
    ensures Elements(r) == Elements(curr) + {x}
  {
    if curr.value < x then
      var right := if curr.right == Nil then CreateNode(x) else AddNode(curr.right, x);
      var n := curr.(right := right);
      n.(height := NodeHeight(n))
    else if curr.value > x then
      var left := if curr.left == Nil then CreateNode(x) else AddNode(curr.left, x);
      var n := curr.(left := left);
      n.(height := NodeHeight(n))
    else
      curr
  }

  /** `add`: an empty tree gets a fresh root; otherwise descend from the root. */
  function AddTo(t: Tree, x: int): (r: Tree)
    ensures Elements(r) == Elements(t) + {x}
  {
    if t == Nil then CreateNode(x) else AddNode(t, x)
  }

  lemma {:induction false} AddNodePreservesBST(curr: Tree, x: int)
    requires curr.Node? && IsBST(curr)
    ensures IsBST(AddNode(curr, x))
  {
    if curr.value < x && curr.right != Nil {
      AddNodePreservesBST(curr.right, x);
    } else if curr.value > x && curr.left != Nil {
      AddNodePreservesBST(curr.left, x);
    }
  }

  lemma {:induction false} AddNodePreservesHeights(curr: Tree, x: int)
    requires curr.Node? && HeightsCorrect(curr)
    ensures HeightsCorrect(AddNode(curr, x))
  {
    if curr.value < x && curr.right != Nil {
      AddNodePreservesHeights(curr.right, x);
    } else if curr.value > x && curr.left != Nil {
      AddNodePreservesHeights(curr.left, x);
    }
  }

  /** Insertion keeps the ordering and the cached heights, and stores exactly
      one more value unless the value was already there. */
  lemma AddPreservesValid(t: Tree, x: int)
    requires ValidTree(t)
    ensures ValidTree(AddTo(t, x))
    ensures Elements(AddTo(t, x)) == Elements(t) + {x}
  {
    if t != Nil {
      AddNodePreservesBST(t, x);
      AddNodePreservesHeights(t, x);
    }
  }

  /** Adding a value that is already stored changes nothing. */
  lemma {:induction false} AddNodeIdempotent(curr: Tree, x: int)
    requires curr.Node? && ValidTree(curr) && x in Elements(curr)
    ensures AddNode(curr, x) == curr
  {
    if curr.value < x {
      assert x in Elements(curr.right);
      AddNodeIdempotent(curr.right, x);
    } else if curr.value > x {
      assert x in Elements(curr.left);
      AddNodeIdempotent(curr.left, x);
    }
  }

  lemma AddIdempotent(t: Tree, x: int)
    requires ValidTree(t) && x in Elements(t)
    ensures AddTo(t, x) == t
  {
    AddNodeIdempotent(t, x);
  }

  // ---------------------------------------------------------------------------
  // Membership

  /** `containsR`: binary search guided by the comparisons. */
  function ContainsR(x: int, curr: Tree): bool
    requires curr.Node?
  {
    if curr.value < x then
      if curr.right == Nil then false else ContainsR(x, curr.right)
    else if curr.value > x then
      if curr.left == Nil then false else ContainsR(x, curr.left)
    else
      true
  }

  /** `contains`: false on an empty tree. */
  function ContainsIn(t: Tree, x: int): bool
  {
    if t == Nil then false else ContainsR(x, t)
  }

  /** On an ordered tree the binary search finds a value iff it is stored. */
  lemma {:induction false} ContainsCorrect(t: Tree, x: int)
    requires IsBST(t)
    ensures ContainsIn(t, x) <==> x in Elements(t)
  {
    match t
    case Nil =>
    case Node(l, v, _, r) =>
      if v < x {
        ContainsCorrect(r, x);
      } else if v > x {
        ContainsCorrect(l, x);
      }
  }

  /** After `add(x)`, `x` is found and every other answer is unchanged. */
  lemma AddThenContains(t: Tree, x: int, y: int)
    requires IsBST(t)
    ensures ContainsIn(AddTo(t, x), x)
    ensures y != x ==> ContainsIn(AddTo(t, x), y) == ContainsIn(t, y)
  {
    AddPreservesBST(t, x);
    ContainsCorrect(AddTo(t, x), x);
    ContainsCorrect(AddTo(t, x), y);
    ContainsCorrect(t, y);
  }

  lemma AddPreservesBST(t: Tree, x: int)
    requires IsBST(t)
    ensures IsBST(AddTo(t, x))
  {
    if t != Nil {
      AddNodePreservesBST(t, x);
    }
  }

  // ---------------------------------------------------------------------------
  // Size

  /** The number of nodes: what `size()` is documented to return. */
  function Count(t: Tree): nat
  {
    match t
    case Nil => 0
    case Node(l, _, _, r) => Count(l) + 1 + Count(r)
  }

  /** On an ordered tree every node holds a different value, so counting nodes
      counts distinct elements. */
  lemma {:induction false} CountIsCardinality(t: Tree)
    requires IsBST(t)
    ensures Count(t) == |Elements(t)|
  {
    match t
    case Nil =>
    case Node(l, v, _, r) =>
      CountIsCardinality(l);
      CountIsCardinality(r);
      assert forall y :: y in Elements(l) ==> y < v;
      assert forall y :: y in Elements(r) ==> v < y;
      forall y | y in Elements(l) ensures y !in Elements(r) { }
      assert Elements(l) !! Elements(r);
      assert v !in Elements(l) + Elements(r);
      assert |Elements(l) + Elements(r)| == |Elements(l)| + |Elements(r)|;
      assert Elements(t) == (Elements(l) + Elements(r)) + {v};
  }

  /** The size grows by exactly one on the insertion of a new value and stays
      the same otherwise. */
  lemma SizeAfterAdd(t: Tree, x: int)
    requires IsBST(t)
    ensures Count(AddTo(t, x)) == if x in Elements(t) then Count(t) else Count(t) + 1
  {
    AddPreservesBST(t, x);
    CountIsCardinality(t);
    CountIsCardinality(AddTo(t, x));
  }

  // ---------------------------------------------------------------------------
  // Traversals: the visitor is modelled by the sequence of visited values.

  /** `preorderR`: node, then left subtree, then right subtree. */
  function Preorder(t: Tree): seq<int>
  {
    match t
    case Nil => []
    case Node(l, v, _, r) => [v] + Preorder(l) + Preorder(r)
  }

  /** `inorderR`: left subtree, node, right subtree. */
  function Inorder(t: Tree): seq<int>
  {
    match t
    case Nil => []
    case Node(l, v, _, r) => Inorder(l) + [v] + Inorder(r)
  }

  /** `postorderR`: left subtree, right subtree, then node. */
  function Postorder(t: Tree): seq<int>
  {
    match t
    case Nil => []
    case Node(l, v, _, r) => Postorder(l) + Postorder(r) + [v]
  }

  ghost predicate StrictlyIncreasing(s: seq<int>)
  {
    forall i, j :: 0 <= i < j < |s| ==> s[i] < s[j]
  }

  lemma {:induction false} InorderMembers(t: Tree)
    ensures forall y :: y in Inorder(t) <==> y in Elements(t)
    ensures |Inorder(t)| == Count(t)
  {
    match t
    case Nil =>
    case Node(l, _, _, r) =>
      InorderMembers(l);
      InorderMembers(r);
  }

  /** Joining two increasing sequences around a pivot that separates them
      gives an increasing sequence. */
  lemma JoinIncreasing(a: seq<int>, v: int, b: seq<int>)
    requires StrictlyIncreasing(a) && StrictlyIncreasing(b)
    requires forall y :: y in a ==> y < v
    requires forall y :: y in b ==> v < y
    ensures StrictlyIncreasing(a + [v] + b)
  {
    var s := a + [v] + b;
    forall i, j | 0 <= i < j < |s| ensures s[i] < s[j] {
      if j < |a| {
        assert s[i] == a[i] && s[j] == a[j];
      } else if i < |a| {
        assert s[i] == a[i] && a[i] in a;
        if j > |a| {
          assert s[j] == b[j - |a| - 1] && b[j - |a| - 1] in b;
        }
      } else if i == |a| {
        assert s[j] == b[j - |a| - 1] && b[j - |a| - 1] in b;
      } else {
        assert s[i] == b[i - |a| - 1] && s[j] == b[j - |a| - 1];
      }
    }
  }

  /** `inorder` visits every stored value exactly once, in ascending order. */
  lemma {:induction false} InorderSorted(t: Tree)
    requires IsBST(t)
    ensures StrictlyIncreasing(Inorder(t))
    ensures forall y :: y in Inorder(t) <==> y in Elements(t)
    ensures |Inorder(t)| == |Elements(t)|
  {
    InorderMembers(t);
    CountIsCardinality(t);
    match t
    case Nil =>
    case Node(l, v, _, r) =>
      InorderSorted(l);
      InorderSorted(r);
      JoinIncreasing(Inorder(l), v, Inorder(r));
  }

  /** The converse: a tree whose inorder sequence is strictly increasing is
      ordered. Together with InorderSorted, ordering and sortedness of the
      inorder sequence are the same thing. */
  lemma {:induction false} SortedInorderIsBST(t: Tree)
    requires StrictlyIncreasing(Inorder(t))
    ensures IsBST(t)
  {
    match t
    case Nil =>
    case Node(l, v, _, r) =>
      SplitIncreasing(Inorder(l), v, Inorder(r));
      SortedInorderIsBST(l);
      SortedInorderIsBST(r);
      InorderMembers(l);
      InorderMembers(r);
  }

  /** The parts of an increasing sequence split at a pivot are increasing,
      and the pivot separates them. */
  lemma SplitIncreasing(a: seq<int>, v: int, b: seq<int>)
    requires StrictlyIncreasing(a + [v] + b)
    ensures StrictlyIncreasing(a) && StrictlyIncreasing(b)
    ensures forall y :: y in a ==> y < v
    ensures forall y :: y in b ==> v < y
  {
    var s := a + [v] + b;
    assert s[|a|] == v;
    forall i, j | 0 <= i < j < |a| ensures a[i] < a[j] {
      assert a[i] == s[i] && a[j] == s[j];
    }
    forall i, j | 0 <= i < j < |b| ensures b[i] < b[j] {
      assert b[i] == s[|a| + 1 + i] && b[j] == s[|a| + 1 + j];
    }
    forall y | y in a ensures y < v {
      var i :| 0 <= i < |a| && a[i] == y;
      assert s[i] == y;
    }
    forall y | y in b ensures v < y {
      var i :| 0 <= i < |b| && b[i] == y;
      assert s[|a| + 1 + i] == y;
    }
  }

  /** `preorder` visits the same values as `inorder`, each as often, and
      starts at the root. */
  lemma {:induction false} PreorderIsPermutation(t: Tree)
    ensures multiset(Preorder(t)) == multiset(Inorder(t))
    ensures t.Node? ==> Preorder(t)[0] == t.value
  {
    match t
    case Nil =>
    case Node(l, v, _, r) =>
      PreorderIsPermutation(l);
      PreorderIsPermutation(r);
      calc {
        multiset(Preorder(t));
        multiset([v]) + multiset(Preorder(l)) + multiset(Preorder(r));
        multiset(Inorder(l)) + multiset([v]) + multiset(Inorder(r));
        multiset(Inorder(t));
      }
  }

  /** `postorder` visits the same values as `inorder`, each as often, and
      ends at the root. */
  lemma {:induction false} PostorderIsPermutation(t: Tree)
    ensures multiset(Postorder(t)) == multiset(Inorder(t))
    ensures t.Node? ==> Postorder(t)[|Postorder(t)| - 1] == t.value
  {
    match t
    case Nil =>
    case Node(l, v, _, r) =>
      PostorderIsPermutation(l);
      PostorderIsPermutation(r);
      var p := Postorder(l) + Postorder(r);
      assert Postorder(t) == p + [v];
      assert multiset(Postorder(t)) == multiset(Postorder(l)) + multiset(Postorder(r)) + multiset{v};
      assert Inorder(t) == Inorder(l) + [v] + Inorder(r);
      assert multiset(Inorder(t)) == multiset(Inorder(l)) + multiset{v} + multiset(Inorder(r));
  }

  // ---------------------------------------------------------------------------
  // Copy

  /** `copy`, written as a function that returns the newly built subtree for
      the caller to store: same values, same shape, same cached heights. */
  function CopyTree(origin: Tree): (r: Tree)
    ensures r == origin
  {
    match origin
    case Nil => Nil
    case Node(l, v, h, rt) => Node(CopyTree(l), v, h, CopyTree(rt))
  }

  // ---------------------------------------------------------------------------
  // The disabled rotations. As in the source they rewire children only; the
  // cached heights are left as they were.

  /** `llRotation`: the left child becomes the root of the subtree. */
  function LLRotation(parent: Tree): (r: Tree)
    requires parent.Node? && parent.left.Node?
    ensures Inorder(r) == Inorder(parent)
    ensures Elements(r) == Elements(parent)
  {
    var temp := parent.left;
    temp.(right := parent.(left := temp.right))
  }

  /** `rrRotation`: the right child becomes the root of the subtree. */
  function RRRotation(parent: Tree): (r: Tree)
    requires parent.Node? && parent.right.Node?
    ensures Inorder(r) == Inorder(parent)
    ensures Elements(r) == Elements(parent)
  {
    var temp := parent.right;
    temp.(left := parent.(right := temp.left))
  }

  /** `lrRotation`: rotate the left child, then the node. */
  function LRRotation(parent: Tree): (r: Tree)
    requires parent.Node? && parent.left.Node? && parent.left.right.Node?
    ensures Inorder(r) == Inorder(parent)
  {
    LLRotation(parent.(left := RRRotation(parent.left)))
  }

  /** `rlRotation`: rotate the right child, then the node. */
  function RLRotation(parent: Tree): (r: Tree)
    requires parent.Node? && parent.right.Node? && parent.right.left.Node?
    ensures Inorder(r) == Inorder(parent)
  {
    RRRotation(parent.(right := LLRotation(parent.right)))
  }

  /** A rotation of an ordered tree is ordered. */
  lemma RotationsPreserveBST(t: Tree)
    requires IsBST(t) && t.Node?
    ensures t.left.Node? ==> IsBST(LLRotation(t))
    ensures t.right.Node? ==> IsBST(RRRotation(t))
    ensures t.left.Node? && t.left.right.Node? ==> IsBST(LRRotation(t))
    ensures t.right.Node? && t.right.left.Node? ==> IsBST(RLRotation(t))
  {
    InorderSorted(t);
    if t.left.Node? {
      SortedInorderIsBST(LLRotation(t));
      if t.left.right.Node? { SortedInorderIsBST(LRRotation(t)); }
    }
    if t.right.Node? {
      SortedInorderIsBST(RRRotation(t));
      if t.right.left.Node? { SortedInorderIsBST(RLRotation(t)); }
    }
  }

  // ---------------------------------------------------------------------------
  // The insertion and the size as the source writes them

  /** `addNode` as written: when the new leaf is hung below `curr`, the
      height of `curr` is set to 1 instead of being recomputed. */
  function AddNodeAsWritten(curr: Tree, x: int): (r: Tree)
    requires curr.Node?
    ensures r.Node?
    ensures Elements(r) == Elements(curr) + {x}
  {
    if curr.value < x then
      if curr.right == Nil then curr.(right := CreateNode(x), height := 1)
      else
        var n := curr.(right := AddNodeAsWritten(curr.right, x));
        n.(height := NodeHeight(n))
    else if curr.value > x then
      if curr.left == Nil then curr.(left := CreateNode(x), height := 1)
      else
        var n := curr.(left := AddNodeAsWritten(curr.left, x));
        n.(height := NodeHeight(n))
    else
      curr
  }

  /** Two trees with the same nodes and values, whatever their cached heights. */
  ghost predicate SameShape(a: Tree, b: Tree)
  {
    match a
    case Nil => b == Nil
    case Node(l, v, _, r) => b.Node? && b.value == v && SameShape(l, b.left) && SameShape(r, b.right)
  }

  /** The written insertion routes exactly like the corrected one: only cached
      heights can differ, so ordering, membership and traversals agree. */
  lemma {:induction false} AddNodeAsWrittenSameShape(curr: Tree, x: int)
    requires curr.Node?
    ensures SameShape(AddNodeAsWritten(curr, x), AddNode(curr, x))
  {
    if curr.value < x {
      if curr.right == Nil {
        SameShapeReflexive(curr.left);
      } else {
        SameShapeReflexive(curr.left);
        AddNodeAsWrittenSameShape(curr.right, x);
      }
    } else if curr.value > x {
      if curr.left == Nil {
        SameShapeReflexive(curr.right);
      } else {
        SameShapeReflexive(curr.right);
        AddNodeAsWrittenSameShape(curr.left, x);
      }
    } else {
      SameShapeReflexive(curr);
    }
  }

  lemma {:induction false} SameShapeReflexive(t: Tree)
    ensures SameShape(t, t)
  {
    match t
    case Nil =>
    case Node(l, _, _, r) =>
      SameShapeReflexive(l);
      SameShapeReflexive(r);
  }

  /** The hard-coded height 1 is right exactly when the other child of the
      node receiving the leaf is absent or a leaf. */
  lemma HardCodedHeightRightIff(l: Tree, v: int, x: int)
    requires HeightsCorrect(l) && v < x
    ensures var curr := Node(l, v, NodeHeight(Node(l, v, 0, Nil)), Nil);
      (AddNodeAsWritten(curr, x) == AddNode(curr, x)) <==> HeightOf(l) <= 0
  {
    HeightIsDepth(l);
    DepthAtLeastMinusOne(l);
  }

  /** The same on the left side: when the leaf goes on the empty left side,
      height 1 is right exactly when the right child is absent or a leaf. */
  lemma HardCodedHeightLeftIff(r: Tree, v: int, x: int)
    requires HeightsCorrect(r) && x < v
    ensures var curr := Node(Nil, v, NodeHeight(Node(Nil, v, 0, r)), r);
      (AddNodeAsWritten(curr, x) == AddNode(curr, x)) <==> HeightOf(r) <= 0
  {
    HeightIsDepth(r);
    DepthAtLeastMinusOne(r);
  }

  /** A counterexample: after inserting 2, 1, 0 and then 3, the written code
      caches height 1 at the root, whose left subtree already has height 1.
      The first three insertions give the same tree as written and corrected. */
  lemma AddNodeAsWrittenBreaksHeights()
    ensures AddNodeAsWritten(AddNodeAsWritten(CreateNode(2), 1), 0) == AddTo(AddTo(AddTo(Nil, 2), 1), 0)
    ensures var t := AddTo(AddTo(AddTo(Nil, 2), 1), 0);
      ValidTree(t) && t.height == 2 &&
      AddNodeAsWritten(t, 3).height == 1 &&
      !HeightsCorrect(AddNodeAsWritten(t, 3)) &&
      AddNode(t, 3).height == 2
  {
  }

  /** `size()` as written: always 0. */
  function SizeAsWritten(t: Tree): (n: nat)
    ensures n == 0
  {
    0
  }

  /** A counterexample: a tree holding one value reports size 0. */
  lemma SizeAsWrittenIsWrong(x: int)
    ensures SizeAsWritten(AddTo(Nil, x)) != |Elements(AddTo(Nil, x))|
  {
  }

  /** A sequence of `add` calls, in order. */
  function AddAll(t: Tree, xs: seq<int>): (r: Tree)
    ensures Elements(r) == Elements(t) + set x | x in xs
  {
    if xs == [] then t else AddTo(AddAll(t, xs[..|xs| - 1]), xs[|xs| - 1])
  }

  /** The tree of `n` nodes holding `lo`, `lo + 1`, ... hung as right children
      one below the other. */
  function RightChain(lo: int, n: nat): Tree
    decreases n
  {
    if n == 0 then Nil else Node(Nil, lo, n - 1, RightChain(lo + 1, n - 1))
  }

  lemma {:induction false} RightChainGrows(lo: int, n: nat)
    ensures AddTo(RightChain(lo, n), lo + n) == RightChain(lo, n + 1)
    decreases n
  {
    if n == 1 {
      assert RightChain(lo, 2) == Node(Nil, lo, 1, Node(Nil, lo + 1, 0, Nil));
    } else if n > 1 {
      var rest := RightChain(lo + 1, n - 1);
      assert rest.Node? && RightChain(lo, n) == Node(Nil, lo, n - 1, rest);
      RightChainGrows(lo + 1, n - 1);
      assert RightChain(lo + 1, n).height == n - 1;
      assert AddNode(rest, lo + n) == RightChain(lo + 1, n);
    }
  }

  lemma {:induction false} RightChainShape(lo: int, n: nat)
    ensures Inorder(RightChain(lo, n)) == seq(n, i => lo + i)
    ensures HeightOf(RightChain(lo, n)) == n - 1
    decreases n
  {
    if n > 0 {
      RightChainShape(lo + 1, n - 1);
      assert [lo] + seq(n - 1, i => lo + 1 + i) == seq(n, i => lo + i);
    }
  }

  /** Adding 1, 2, ..., n in order to an empty tree gives the right chain. */
  lemma {:induction false} AscendingAddAll(xs: seq<int>)
    requires forall i :: 0 <= i < |xs| ==> xs[i] == i + 1
    ensures AddAll(Nil, xs) == RightChain(1, |xs|)
    decreases |xs|
  {
    if xs != [] {
      var n := |xs|;
      AscendingAddAll(xs[..n - 1]);
      RightChainGrows(1, n - 1);
    }
  }


  /** Since nothing rebalances, adding 1, 2, ..., n in ascending order builds a
      chain of height n - 1 whose inorder sequence is 1..n. */
  lemma AscendingInsertionsMakeAChain(n: nat)
    ensures var t := AddAll(Nil, seq(n, i => i + 1));
      t == RightChain(1, n) && HeightOf(t) == n - 1 && Inorder(t) == seq(n, i => i + 1)
  {
    AscendingAddAll(seq(n, i => i + 1));
    RightChainShape(1, n);
  }


  // ---------------------------------------------------------------------------
  // The container

  /** `AVLSet`: the container holding the root pointer. */
  class AVLSet {
    var root: Tree

    ghost predicate Valid()
      reads this
    {
      ValidTree(root)
    }

    /** An empty set. */
    constructor ()
      ensures Valid() && root == Nil && Elements(root) == {}
    {
      root := Nil;
    }

    /** The copy constructor: an independent tree equal to the original. */
    constructor Copy(s: AVLSet)
      requires s.Valid()
      ensures Valid() && root == s.root
    {
      root := CopyTree(s.root);
    }

    method Add(element: int)
      requires Valid()
      modifies this
      ensures Valid()
      ensures root == AddTo(old(root), element)
      ensures Elements(root) == old(Elements(root)) + {element}
      ensures element in old(Elements(root)) ==> root == old(root)
    {
      AddPreservesValid(root, element);
      if element in Elements(root) {
        AddIdempotent(root, element);
      }
      root := AddTo(root, element);
    }

    method Contains(element: int) returns (b: bool)
      requires Valid()
      ensures b <==> element in Elements(root)
    {
      ContainsCorrect(root, element);
      b := ContainsIn(root, element);
    }

    /** `size()` as documented: the number of stored elements. */
    method Size() returns (n: nat)
      requires Valid()
      ensures n == |Elements(root)|
    {
      CountIsCardinality(root);
      n := Count(root);
    }

    /** `height()`: -1 when empty, else the root's cached height, which is the
        true height of the tree. */
    method Height() returns (h: int)
      requires Valid()
      ensures h == Depth(root)
      ensures h == -1 <==> root == Nil
    {
      HeightIsDepth(root);
      DepthAtLeastMinusOne(root);
      h := HeightOf(root);
    }
  }
}
