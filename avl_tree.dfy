/*
 * AVLTree (ds/AVLTree.hpp): a self-balancing binary search tree whose nodes
 * carry their own height.
 *
 * A node is a datatype value: a null Node* is Nil, and the recursive Insert
 * and Remove, which rewire the Left/Right/Height fields of the nodes on the
 * search path, return the rewired tree. A value of T is an Item: the
 * comparison operators of T look at its key, the rest is payload that the
 * Replace policy can exchange. A step that would dereference a null child
 * yields NullDeref instead of a tree.
 */
module AVL {

  import opened Wrappers
  import TUMaths

  datatype Item = Item(key: int, data: int)

  /** InsertMethod: what Insert does with an item equal to one already stored. */
  datatype InsertMethod = Ignore | Replace | Greater | Lesser

  datatype Tree = Nil | Node(left: Tree, right: Tree, height: int, value: Item)

  datatype Outcome = Done(tree: Tree) | NullDeref

  /** The height AVLTree::Insert gives a freshly allocated node. */
  const AllocatedHeight: int := 0

  /** The height of a one-node tree when a null subtree counts 0, as Height does. */
  const LeafHeight: int := 1

  /** Height: a null subtree has height 0, a node its stored height. */
  function Height(t: Tree): (r: int)
    ensures t.Nil? ==> r == 0
    ensures t.Node? ==> r == t.height
  {
    if t.Nil? then 0 else t.height
  }

  /** ComputeBalance: left height minus right height, 0 for a null subtree. */
  function ComputeBalance(t: Tree): (r: int)
    ensures t.Nil? ==> r == 0
    ensures t.Node? ==> r == Height(t.left) - Height(t.right)
  {
    if t.Nil? then 0 else Height(t.left) - Height(t.right)
  }

  /** The items of a tree in the order of an in-order walk. */
  function InOrder(t: Tree): seq<Item> {
    match t
    case Nil => []
    case Node(l, r, _, x) => InOrder(l) + [x] + InOrder(r)
  }

  function Keys(s: seq<Item>): set<int> {
    set y | y in s :: y.key
  }

  /** Strictly increasing keys: the order of a tree that stores each key once. */
  predicate Ascending(s: seq<Item>) {
    forall i, j :: 0 <= i < j < |s| ==> s[i].key < s[j].key
  }

  /** Non-decreasing keys: the order of a tree that may store equal keys. */
  predicate NonDescending(s: seq<Item>) {
    forall i, j :: 0 <= i < j < |s| ==> s[i].key <= s[j].key
  }

  /** The real height of a tree, whatever its nodes store. */
  function Depth(t: Tree): (r: nat)
    ensures t.Node? ==> r > 0
  {
    if t.Nil? then 0 else TUMaths.MaxT(Depth(t.left), Depth(t.right)) + 1
  }

  /** Every node stores its real height. */
  predicate Exact(t: Tree) {
    t.Nil? || (Exact(t.left) && Exact(t.right) && t.height == Depth(t))
  }

  /** The AVL property: at every node the real heights of the subtrees differ by at most one. */
  predicate Balanced(t: Tree) {
    t.Nil? || (Balanced(t.left) && Balanced(t.right) && -1 <= Depth(t.left) - Depth(t.right) <= 1)
  }

  /** No node stores a negative height. */
  predicate Grounded(t: Tree) {
    t.Nil? || (Grounded(t.left) && Grounded(t.right) && t.height >= 0)
  }

  /** A node whose stored height was just recomputed from its children. */
  predicate Measured(t: Tree) {
    t.Node? && t.height == TUMaths.MaxT(Height(t.left), Height(t.right)) + 1
  }

  /** tree->Height = maxT(Height(tree->Left), Height(tree->Right)) + 1 */
  function Recompute(t: Tree): (r: Tree)
    requires t.Node?
    ensures Measured(r) && InOrder(r) == InOrder(t)
    ensures r.left == t.left && r.right == t.right && r.value == t.value
  {
    t.(height := TUMaths.MaxT(Height(t.left), Height(t.right)) + 1)
  }

  /** RotateRight: the left child becomes the root, and its right subtree moves under the old root. */
  function RotateRight(pivot: Tree): (r: Outcome)
    ensures r.Done? <==> pivot.Node? && pivot.left.Node?
    ensures r.Done? ==> InOrder(r.tree) == InOrder(pivot)
    ensures r.Done? ==> Measured(r.tree) && Measured(r.tree.right)
    ensures r.Done? ==> r.tree.left == pivot.left.left && r.tree.right.left == pivot.left.right &&
                        r.tree.right.right == pivot.right
  {
    if pivot.Nil? || pivot.left.Nil? then NullDeref
    else
      var newRoot := pivot.left;
      var lowered := Recompute(pivot.(left := newRoot.right));
      Done(Recompute(newRoot.(right := lowered)))
  }

  /** RotateLeft: the mirror image of RotateRight. */
  function RotateLeft(pivot: Tree): (r: Outcome)
    ensures r.Done? <==> pivot.Node? && pivot.right.Node?
    ensures r.Done? ==> InOrder(r.tree) == InOrder(pivot)
    ensures r.Done? ==> Measured(r.tree) && Measured(r.tree.left)
    ensures r.Done? ==> r.tree.right == pivot.right.right && r.tree.left.right == pivot.right.left &&
                        r.tree.left.left == pivot.left
  {
    if pivot.Nil? || pivot.right.Nil? then NullDeref
    else
      var newRoot := pivot.right;
      var lowered := Recompute(pivot.(right := newRoot.left));
      Done(Recompute(newRoot.(left := lowered)))
  }

  /**
   * The tail of the recursive Insert: recompute the height, then rotate when
   * the balance is beyond one, choosing the rotation by comparing the new
   * item with the child on the heavy side.
   */
  function InsertBalance(t: Tree, item: Item): (r: Outcome)
    requires t.Node?
    ensures r.Done? ==> InOrder(r.tree) == InOrder(t)
  {
    var n := Recompute(t);
    var balance := ComputeBalance(n);
    if balance > 1 then
      if n.left.Nil? then NullDeref
      else if item.key < n.left.value.key then RotateRight(n)
      else if item.key > n.left.value.key then
        match RotateLeft(n.left)
        case NullDeref => NullDeref
        case Done(l) => RotateRight(n.(left := l))
      else Done(n)
    else if balance < -1 then
      if n.right.Nil? then NullDeref
      else if item.key > n.right.value.key then RotateLeft(n)
      else if item.key < n.right.value.key then
        match RotateRight(n.right)
        case NullDeref => NullDeref
        case Done(r) => RotateLeft(n.(right := r))
      else Done(n)
    else Done(n)
  }

  /** Where the recursive Insert sends an item: true for the left subtree. */
  predicate GoesLeft(item: Item, x: Item, how: InsertMethod) {
    item.key < x.key || (item.key == x.key && how == Lesser)
  }

  /**
   * The recursive Insert, placing a new node of height `born`: the source
   * allocates it with AllocatedHeight; the tree class uses LeafHeight.
   */
  function InsertAt(tree: Tree, item: Item, how: InsertMethod, born: int): (r: Outcome)
    ensures r.Done? ==> InOrder(r.tree) == Placed(tree, item, how)
  {
    match tree
    case Nil => Done(Node(Nil, Nil, born, item))
    case Node(l, rt, h, x) =>
      if item.key == x.key && how == Ignore then Done(tree)
      else if item.key == x.key && how == Replace then Done(Node(l, rt, h, item))
      else if GoesLeft(item, x, how) then
        match InsertAt(l, item, how, born)
        case NullDeref => NullDeref
        case Done(nl) => InsertBalance(Node(nl, rt, h, x), item)
      else
        match InsertAt(rt, item, how, born)
        case NullDeref => NullDeref
        case Done(nr) => InsertBalance(Node(l, nr, h, x), item)
  }

  /** The in-order items after a plain binary-search-tree insertion, with no rebalancing. */
  function Placed(tree: Tree, item: Item, how: InsertMethod): seq<Item> {
    match tree
    case Nil => [item]
    case Node(l, rt, _, x) =>
      if item.key == x.key && how == Ignore then InOrder(tree)
      else if item.key == x.key && how == Replace then InOrder(l) + [item] + InOrder(rt)
      else if GoesLeft(item, x, how) then Placed(l, item, how) + [x] + InOrder(rt)
      else InOrder(l) + [x] + Placed(rt, item, how)
  }

  /**
   * The tail of the recursive Remove: recompute the height, then rotate when
   * the balance is beyond one, choosing the rotation by the heavy child's balance.
   */
  function RemoveBalance(t: Tree): (r: Outcome)
    requires t.Node?
    ensures r.Done? ==> InOrder(r.tree) == InOrder(t)
  {
    var n := Recompute(t);
    var balance := ComputeBalance(n);
    if balance > 1 && ComputeBalance(n.left) >= 0 then RotateRight(n)
    else if balance > 1 then
      match RotateLeft(n.left)
      case NullDeref => NullDeref
      case Done(l) => RotateRight(n.(left := l))
    else if balance < -1 && ComputeBalance(n.right) <= 0 then RotateLeft(n)
    else if balance < -1 then
      match RotateRight(n.right)
      case NullDeref => NullDeref
      case Done(r) => RotateLeft(n.(right := r))
    else Done(n)
  }

  /**
   * MinValueNode and the unlinking after it: the leftmost item of a tree and
   * the tree with that node replaced by its right subtree. No stored height
   * on the way down is recomputed.
   */
  function TakeMin(t: Tree): (r: (Item, Tree))
    requires t.Node?
    ensures [r.0] + InOrder(r.1) == InOrder(t)
  {
    if t.left.Nil? then (t.value, t.right)
    else
      var (m, rest) := TakeMin(t.left);
      (m, t.(left := rest))
  }

  /** The recursive Remove by search key. */
  function RemoveAt(tree: Tree, key: int): (r: Outcome)
    ensures r.Done? ==> InOrder(r.tree) == Removed(tree, key)
  {
    match tree
    case Nil => Done(Nil)
    case Node(l, rt, h, x) =>
      if key < x.key then
        match RemoveAt(l, key)
        case NullDeref => NullDeref
        case Done(nl) => RemoveBalance(Node(nl, rt, h, x))
      else if key > x.key then
        match RemoveAt(rt, key)
        case NullDeref => NullDeref
        case Done(nr) => RemoveBalance(Node(l, nr, h, x))
      else if l.Nil? || rt.Nil? then
        var child := if l.Node? then l else rt;
        if child.Nil? then Done(Nil) else RemoveBalance(child)
      else
        // the minimum's own stored height is overwritten by RemoveBalance
        var (m, rest) := TakeMin(rt);
        RemoveBalance(Node(l, rest, h, m))
  }

  /** The in-order items after deleting the first node on the search path that matches. */
  function Removed(tree: Tree, key: int): seq<Item> {
    match tree
    case Nil => []
    case Node(l, rt, _, x) =>
      if key < x.key then Removed(l, key) + [x] + InOrder(rt)
      else if key > x.key then InOrder(l) + [x] + Removed(rt, key)
      else InOrder(l) + InOrder(rt)
  }

  /** The items of s whose key is not `key`, in order. */
  function Without(s: seq<Item>, key: int): (r: seq<Item>)
    ensures |r| <= |s|
  {
    if |s| == 0 then []
    else (if s[0].key == key then [] else [s[0]]) + Without(s[1..], key)
  }

  /** The static Find: follow the search path until a node's value equals the key. */
  function Search(t: Tree, key: int): (r: Option<Item>)
    ensures r.Some? ==> r.value.key == key && r.value in InOrder(t)
  {
    match t
    case Nil => None
    case Node(l, rt, _, x) =>
      if key == x.key then Some(x)
      else if key > x.key then Search(rt, key)
      else Search(l, key)
  }

  /** Below(s, k): every key in s is below k; Above likewise. */
  predicate Below(s: seq<Item>, k: int, strict: bool) {
    forall y :: y in s ==> (if strict then y.key < k else y.key <= k)
  }

  predicate Above(s: seq<Item>, k: int, strict: bool) {
    forall y :: y in s ==> (if strict then k < y.key else k <= y.key)
  }

  /** Joining two ordered sides that x separates gives an ordered sequence. */
  lemma {:induction false} OrderedJoin(a: seq<Item>, x: Item, b: seq<Item>, strict: bool)
    requires if strict then Ascending(a) && Ascending(b) else NonDescending(a) && NonDescending(b)
    requires Below(a, x.key, strict) && Above(b, x.key, strict)
    ensures if strict then Ascending(a + [x] + b) else NonDescending(a + [x] + b)
  {
    var s := a + [x] + b;
    forall i, j | 0 <= i < j < |s| ensures if strict then s[i].key < s[j].key else s[i].key <= s[j].key {
      if j < |a| {
        assert s[i] == a[i] && s[j] == a[j];
      } else if i < |a| {
        assert s[i] == a[i] && a[i] in a;
        if j > |a| {
          assert s[j] == b[j - |a| - 1] && b[j - |a| - 1] in b;
        }
      } else if i > |a| {
        assert s[i] == b[i - |a| - 1] && s[j] == b[j - |a| - 1];
      } else {
        assert s[j] == b[j - |a| - 1] && b[j - |a| - 1] in b;
      }
    }
  }

  /** An ordered a + [x] + b has ordered sides that x separates. */
  lemma {:induction false} OrderedSplit(a: seq<Item>, x: Item, b: seq<Item>, strict: bool)
    requires if strict then Ascending(a + [x] + b) else NonDescending(a + [x] + b)
    ensures if strict then Ascending(a) && Ascending(b) else NonDescending(a) && NonDescending(b)
    ensures Below(a, x.key, strict) && Above(b, x.key, strict)
  {
    var s := a + [x] + b;
    assert s[|a|] == x;
    forall i, j | 0 <= i < j < |a| ensures if strict then a[i].key < a[j].key else a[i].key <= a[j].key {
      assert s[i] == a[i] && s[j] == a[j];
    }
    forall i, j | 0 <= i < j < |b| ensures if strict then b[i].key < b[j].key else b[i].key <= b[j].key {
      assert s[|a| + 1 + i] == b[i] && s[|a| + 1 + j] == b[j];
    }
    forall y | y in a ensures if strict then y.key < x.key else y.key <= x.key {
      var i :| 0 <= i < |a| && a[i] == y;
      assert s[i] == y;
    }
    forall y | y in b ensures if strict then x.key < y.key else x.key <= y.key {
      var i :| 0 <= i < |b| && b[i] == y;
      assert s[|a| + 1 + i] == y;
    }
  }

  /** Every item after a plain insertion was stored before or is the new one. */
  lemma {:induction false} PlacedFrom(t: Tree, v: Item, how: InsertMethod)
    ensures forall y :: y in Placed(t, v, how) ==> y in InOrder(t) || y == v
  {
    match t
    case Nil =>
    case Node(l, rt, _, x) =>
      if v.key == x.key && (how == Ignore || how == Replace) {
      } else if GoesLeft(v, x, how) {
        PlacedFrom(l, v, how);
      } else {
        PlacedFrom(rt, v, how);
      }
  }

  /**
   * A plain insertion keeps a tree's non-decreasing key order, and under
   * Ignore or Replace its strictly increasing key order.
   */
  lemma {:induction false} PlacedOrdered(t: Tree, v: Item, how: InsertMethod, strict: bool)
    requires strict ==> how == Ignore || how == Replace
    requires if strict then Ascending(InOrder(t)) else NonDescending(InOrder(t))
    ensures if strict then Ascending(Placed(t, v, how)) else NonDescending(Placed(t, v, how))
  {
    match t
    case Nil =>
    case Node(l, rt, _, x) =>
      OrderedSplit(InOrder(l), x, InOrder(rt), strict);
      if v.key == x.key && how == Ignore {
      } else if v.key == x.key && how == Replace {
        OrderedJoin(InOrder(l), v, InOrder(rt), strict);
      } else if GoesLeft(v, x, how) {
        PlacedOrdered(l, v, how, strict);
        PlacedFrom(l, v, how);
        OrderedJoin(Placed(l, v, how), x, InOrder(rt), strict);
      } else {
        PlacedOrdered(rt, v, how, strict);
        PlacedFrom(rt, v, how);
        OrderedJoin(InOrder(l), x, Placed(rt, v, how), strict);
      }
  }

  /** A plain insertion that meets no equal key, or whose policy keeps duplicates, adds exactly the item. */
  lemma {:induction false} PlacedAdds(t: Tree, v: Item, how: InsertMethod)
    requires v.key !in Keys(InOrder(t)) || how == Greater || how == Lesser
    ensures multiset(Placed(t, v, how)) == multiset(InOrder(t)) + multiset{v}
  {
    match t
    case Nil =>
    case Node(l, rt, _, x) =>
      assert !(v.key == x.key && (how == Ignore || how == Replace)) by {
        assert x in InOrder(t);
      }
      if GoesLeft(v, x, how) {
        assert v.key !in Keys(InOrder(l)) || how == Greater || how == Lesser by {
          KeysWithin(InOrder(l), [x] + InOrder(rt));
          assert InOrder(t) == InOrder(l) + ([x] + InOrder(rt));
        }
        PlacedAdds(l, v, how);
        AddedInside(Placed(l, v, how), InOrder(l), x, InOrder(rt), v, true);
      } else {
        assert v.key !in Keys(InOrder(rt)) || how == Greater || how == Lesser by {
          KeysWithin(InOrder(rt), InOrder(l) + [x]);
        }
        PlacedAdds(rt, v, how);
        AddedInside(Placed(rt, v, how), InOrder(rt), x, InOrder(l), v, false);
      }
  }

  /** One side of a + [x] + b gaining an item makes the whole gain it. */
  lemma AddedInside(grown: seq<Item>, side: seq<Item>, x: Item, other: seq<Item>, v: Item, onLeft: bool)
    requires multiset(grown) == multiset(side) + multiset{v}
    ensures onLeft ==> multiset(grown + [x] + other) == multiset(side + [x] + other) + multiset{v}
    ensures !onLeft ==> multiset(other + [x] + grown) == multiset(other + [x] + side) + multiset{v}
  {
  }

  /** The keys of a part are keys of the whole. */
  lemma KeysWithin(a: seq<Item>, b: seq<Item>)
    ensures Keys(a) <= Keys(a + b) && Keys(a) <= Keys(b + a)
  {
    assert forall y :: y in a ==> y in a + b && y in b + a;
  }

  /** s with every item whose key is v's replaced by v. */
  function Substituted(s: seq<Item>, v: Item): (r: seq<Item>)
    ensures |r| == |s|
  {
    if |s| == 0 then []
    else [if s[0].key == v.key then v else s[0]] + Substituted(s[1..], v)
  }

  lemma {:induction false} SubstitutedJoin(a: seq<Item>, b: seq<Item>, v: Item)
    ensures Substituted(a + b, v) == Substituted(a, v) + Substituted(b, v)
  {
    if |a| == 0 {
      assert a + b == b;
    } else {
      assert (a + b)[1..] == a[1..] + b;
      SubstitutedJoin(a[1..], b, v);
    }
  }

  lemma {:induction false} SubstitutedAbsent(s: seq<Item>, v: Item)
    requires v.key !in Keys(s)
    ensures Substituted(s, v) == s
  {
    if |s| > 0 {
      assert s[0] in s;
      assert Keys(s[1..]) <= Keys(s);
      SubstitutedAbsent(s[1..], v);
    }
  }

  lemma {:induction false} WithoutJoin(a: seq<Item>, b: seq<Item>, key: int)
    ensures Without(a + b, key) == Without(a, key) + Without(b, key)
  {
    if |a| == 0 {
      assert a + b == b;
    } else {
      assert (a + b)[1..] == a[1..] + b;
      WithoutJoin(a[1..], b, key);
    }
  }

  /** Deleting a key that is absent deletes nothing. */
  lemma {:induction false} WithoutAbsent(s: seq<Item>, key: int)
    requires key !in Keys(s)
    ensures Without(s, key) == s
  {
    if |s| > 0 {
      assert s[0] in s;
      assert Keys(s[1..]) <= Keys(s);
      WithoutAbsent(s[1..], key);
    }
  }

  /** Keys strictly below k (or above k) do not include k. */
  lemma SeparatedKeys(s: seq<Item>, k: int, below: bool)
    requires if below then Below(s, k, true) else Above(s, k, true)
    ensures k !in Keys(s)
  {
  }

  /**
   * In a tree with strictly increasing keys, inserting an item whose key is
   * stored changes nothing under Ignore and swaps in the new item under Replace.
   */
  lemma {:induction false} PlacedExisting(t: Tree, v: Item, how: InsertMethod)
    requires Ascending(InOrder(t)) && v.key in Keys(InOrder(t)) && (how == Ignore || how == Replace)
    ensures Placed(t, v, how) == if how == Ignore then InOrder(t) else Substituted(InOrder(t), v)
  {
    match t
    case Node(l, rt, _, x) =>
      OrderedSplit(InOrder(l), x, InOrder(rt), true);
      SubstitutedJoin(InOrder(l) + [x], InOrder(rt), v);
      SubstitutedJoin(InOrder(l), [x], v);
      assert Substituted([x], v) == [if x.key == v.key then v else x];
      if v.key == x.key {
        SeparatedKeys(InOrder(l), x.key, true);
        SeparatedKeys(InOrder(rt), x.key, false);
        SubstitutedAbsent(InOrder(l), v);
        SubstitutedAbsent(InOrder(rt), v);
      } else if v.key < x.key {
        assert v.key !in Keys(InOrder(rt));
        assert v.key in Keys(InOrder(l));
        PlacedExisting(l, v, how);
        SubstitutedAbsent(InOrder(rt), v);
      } else {
        assert v.key !in Keys(InOrder(l));
        assert v.key in Keys(InOrder(rt));
        PlacedExisting(rt, v, how);
        SubstitutedAbsent(InOrder(l), v);
      }
  }

  /** Deleting a key below the separator x of a + [x] + b only touches a. */
  lemma WithoutLeft(a: seq<Item>, x: Item, b: seq<Item>, key: int)
    requires Above(b, x.key, true) && key < x.key
    ensures Without(a + [x] + b, key) == Without(a, key) + [x] + b
  {
    WithoutJoin(a + [x], b, key);
    WithoutJoin(a, [x], key);
    assert Without([x], key) == [x];
    assert key !in Keys(b);
    WithoutAbsent(b, key);
  }

  /** Deleting a key above the separator x of a + [x] + b only touches b. */
  lemma WithoutRight(a: seq<Item>, x: Item, b: seq<Item>, key: int)
    requires Below(a, x.key, true) && key > x.key
    ensures Without(a + [x] + b, key) == a + [x] + Without(b, key)
  {
    WithoutJoin(a + [x], b, key);
    WithoutJoin(a, [x], key);
    assert Without([x], key) == [x];
    assert key !in Keys(a);
    WithoutAbsent(a, key);
  }

  /** Deleting the separator's key from a + [x] + b, strictly ordered around x, leaves a + b. */
  lemma WithoutSeparator(a: seq<Item>, x: Item, b: seq<Item>)
    requires Below(a, x.key, true) && Above(b, x.key, true)
    ensures Without(a + [x] + b, x.key) == a + b
  {
    assert Without([x], x.key) == [];
    SeparatedKeys(a, x.key, true);
    SeparatedKeys(b, x.key, false);
    WithoutAbsent(a, x.key);
    WithoutAbsent(b, x.key);
    WithoutJoin(a, [x], x.key);
    assert Without(a + [x], x.key) == a + [] == a;
    WithoutJoin(a + [x], b, x.key);
  }

  /** In a tree with strictly increasing keys, Remove deletes exactly the items with the key. */
  lemma {:induction false} RemovedAscending(t: Tree, key: int)
    requires Ascending(InOrder(t))
    ensures Removed(t, key) == Without(InOrder(t), key)
  {
    match t
    case Nil =>
    case Node(l, rt, _, x) =>
      OrderedSplit(InOrder(l), x, InOrder(rt), true);
      if key < x.key {
        WithoutLeft(InOrder(l), x, InOrder(rt), key);
        RemovedAscending(l, key);
      } else if key > x.key {
        WithoutRight(InOrder(l), x, InOrder(rt), key);
        RemovedAscending(rt, key);
      } else {
        WithoutSeparator(InOrder(l), x, InOrder(rt));
      }
  }

  /** Every item left by Remove was stored before. */
  lemma {:induction false} RemovedFrom(t: Tree, key: int)
    ensures forall y :: y in Removed(t, key) ==> y in InOrder(t)
  {
    match t
    case Nil =>
    case Node(l, rt, _, x) =>
      if key < x.key {
        RemovedFrom(l, key);
      } else if key > x.key {
        RemovedFrom(rt, key);
      }
  }

  /** Remove keeps a tree's key order, strict or not. */
  lemma {:induction false} RemovedOrdered(t: Tree, key: int, strict: bool)
    requires if strict then Ascending(InOrder(t)) else NonDescending(InOrder(t))
    ensures if strict then Ascending(Removed(t, key)) else NonDescending(Removed(t, key))
  {
    match t
    case Nil =>
    case Node(l, rt, _, x) =>
      OrderedSplit(InOrder(l), x, InOrder(rt), strict);
      if key < x.key {
        RemovedOrdered(l, key, strict);
        RemovedFrom(l, key);
        OrderedJoin(Removed(l, key), x, InOrder(rt), strict);
      } else if key > x.key {
        RemovedOrdered(rt, key, strict);
        RemovedFrom(rt, key);
        OrderedJoin(InOrder(l), x, Removed(rt, key), strict);
      } else {
        OrderedDrop(InOrder(l), x, InOrder(rt), strict);
      }
  }

  /** Dropping the separator of an ordered a + [x] + b leaves it ordered. */
  lemma {:induction false} OrderedDrop(a: seq<Item>, x: Item, b: seq<Item>, strict: bool)
    requires if strict then Ascending(a) && Ascending(b) else NonDescending(a) && NonDescending(b)
    requires Below(a, x.key, strict) && Above(b, x.key, strict)
    ensures if strict then Ascending(a + b) else NonDescending(a + b)
  {
    var s := a + b;
    forall i, j | 0 <= i < j < |s| ensures if strict then s[i].key < s[j].key else s[i].key <= s[j].key {
      if j < |a| {
        assert s[i] == a[i] && s[j] == a[j];
      } else if i < |a| {
        assert s[i] == a[i] && a[i] in a;
        assert s[j] == b[j - |a|] && b[j - |a|] in b;
      } else {
        assert s[i] == b[i - |a|] && s[j] == b[j - |a|];
      }
    }
  }

  /** In a tree with non-decreasing keys, Find reaches a stored key. */
  lemma {:induction false} SearchFinds(t: Tree, key: int)
    requires NonDescending(InOrder(t)) && key in Keys(InOrder(t))
    ensures Search(t, key).Some?
  {
    match t
    case Node(l, rt, _, x) =>
      OrderedSplit(InOrder(l), x, InOrder(rt), false);
      var y :| y in InOrder(t) && y.key == key;
      if key > x.key {
        assert y !in InOrder(l);
        assert y in InOrder(rt);
        SearchFinds(rt, key);
      } else if key < x.key {
        assert y !in InOrder(rt);
        assert y in InOrder(l);
        SearchFinds(l, key);
      }
  }

  /** A node whose height was recomputed over grounded subtrees is grounded, at height one or more. */
  lemma MeasuredGrounded(t: Tree)
    requires Measured(t) && Grounded(t.left) && Grounded(t.right)
    ensures Grounded(t) && t.height >= 1
  {
  }

  lemma {:induction false} RotateRightGrounded(p: Tree)
    requires p.Node? && p.left.Node? && Grounded(p.right) && Grounded(p.left.left) && Grounded(p.left.right)
    ensures RotateRight(p).Done? && Grounded(RotateRight(p).tree)
  {
    var r := RotateRight(p).tree;
    MeasuredGrounded(r.right);
    MeasuredGrounded(r);
  }

  lemma {:induction false} RotateLeftGrounded(p: Tree)
    requires p.Node? && p.right.Node? && Grounded(p.left) && Grounded(p.right.left) && Grounded(p.right.right)
    ensures RotateLeft(p).Done? && Grounded(RotateLeft(p).tree)
  {
    var r := RotateLeft(p).tree;
    MeasuredGrounded(r.left);
    MeasuredGrounded(r);
  }

  /**
   * Remove's rebalancing never meets a null child when no stored height is
   * negative: a balance beyond one means the heavy child is a node, and a
   * heavy child leaning the other way has a node on that side.
   */
  lemma {:induction false} RemoveBalanceGrounded(t: Tree)
    requires t.Node? && Grounded(t.left) && Grounded(t.right)
    ensures RemoveBalance(t).Done? && Grounded(RemoveBalance(t).tree)
  {
    var n := Recompute(t);
    MeasuredGrounded(n);
    var balance := ComputeBalance(n);
    if balance > 1 {
      assert n.left.Node?;
      if ComputeBalance(n.left) >= 0 {
        RotateRightGrounded(n);
      } else {
        assert n.left.right.Node?;
        RotateLeftGrounded(n.left);
        RotateRightGrounded(n.(left := RotateLeft(n.left).tree));
      }
    } else if balance < -1 {
      assert n.right.Node?;
      if ComputeBalance(n.right) <= 0 {
        RotateLeftGrounded(n);
      } else {
        assert n.right.left.Node?;
        RotateRightGrounded(n.right);
        RotateLeftGrounded(n.(right := RotateRight(n.right).tree));
      }
    }
  }

  lemma {:induction false} TakeMinGrounded(t: Tree)
    requires t.Node? && Grounded(t)
    ensures Grounded(TakeMin(t).1)
  {
    if t.left.Node? {
      TakeMinGrounded(t.left);
    }
  }

  /** Remove never dereferences a null child of a tree with no negative stored height, and keeps it so. */
  lemma {:induction false} RemoveGrounded(t: Tree, key: int)
    requires Grounded(t)
    ensures RemoveAt(t, key).Done? && Grounded(RemoveAt(t, key).tree)
  {
    match t
    case Nil =>
    case Node(l, rt, h, x) =>
      if key < x.key {
        RemoveGrounded(l, key);
        RemoveBalanceGrounded(Node(RemoveAt(l, key).tree, rt, h, x));
      } else if key > x.key {
        RemoveGrounded(rt, key);
        RemoveBalanceGrounded(Node(l, RemoveAt(rt, key).tree, h, x));
      } else if l.Nil? || rt.Nil? {
        var child := if l.Node? then l else rt;
        if child.Node? {
          RemoveBalanceGrounded(child);
        }
      } else {
        TakeMinGrounded(rt);
        RemoveBalanceGrounded(Node(l, TakeMin(rt).1, h, TakeMin(rt).0));
      }
  }

  /** Insert's rebalancing, when it succeeds, leaves no negative stored height. */
  lemma {:induction false} InsertBalanceGrounded(t: Tree, item: Item)
    requires t.Node? && Grounded(t.left) && Grounded(t.right) && InsertBalance(t, item).Done?
    ensures Grounded(InsertBalance(t, item).tree)
  {
    var n := Recompute(t);
    MeasuredGrounded(n);
    var balance := ComputeBalance(n);
    if balance > 1 {
      if item.key < n.left.value.key {
        RotateRightGrounded(n);
      } else if item.key > n.left.value.key {
        RotateLeftGrounded(n.left);
        RotateRightGrounded(n.(left := RotateLeft(n.left).tree));
      }
    } else if balance < -1 {
      if item.key > n.right.value.key {
        RotateLeftGrounded(n);
      } else if item.key < n.right.value.key {
        RotateRightGrounded(n.right);
        RotateLeftGrounded(n.(right := RotateRight(n.right).tree));
      }
    }
  }

  /** A successful Insert of a node born with a non-negative height leaves no negative stored height. */
  lemma {:induction false} InsertGrounded(t: Tree, item: Item, how: InsertMethod, born: int)
    requires Grounded(t) && born >= 0 && InsertAt(t, item, how, born).Done?
    ensures Grounded(InsertAt(t, item, how, born).tree)
  {
    match t
    case Nil =>
    case Node(l, rt, h, x) =>
      if item.key == x.key && (how == Ignore || how == Replace) {
      } else if GoesLeft(item, x, how) {
        InsertGrounded(l, item, how, born);
        InsertBalanceGrounded(Node(InsertAt(l, item, how, born).tree, rt, h, x), item);
      } else {
        InsertGrounded(rt, item, how, born);
        InsertBalanceGrounded(Node(l, InsertAt(rt, item, how, born).tree, h, x), item);
      }
  }

  /** A node whose height was recomputed over exact subtrees is exact. */
  lemma MeasuredExact(t: Tree)
    requires Measured(t) && Exact(t.left) && Exact(t.right)
    ensures Exact(t)
  {
  }

  lemma {:induction false} RotateRightExact(p: Tree)
    requires p.Node? && p.left.Node? && Exact(p.left.left) && Exact(p.left.right) && Exact(p.right)
    ensures RotateRight(p).Done? && Exact(RotateRight(p).tree) && Exact(RotateRight(p).tree.right)
  {
    var r := RotateRight(p).tree;
    MeasuredExact(r.right);
    MeasuredExact(r);
  }

  lemma {:induction false} RotateLeftExact(p: Tree)
    requires p.Node? && p.right.Node? && Exact(p.right.left) && Exact(p.right.right) && Exact(p.left)
    ensures RotateLeft(p).Done? && Exact(RotateLeft(p).tree) && Exact(RotateLeft(p).tree.left)
  {
    var r := RotateLeft(p).tree;
    MeasuredExact(r.left);
    MeasuredExact(r);
  }

  /** The left-left case: a single right rotation rebalances a left side two deeper than the right. */
  lemma {:induction false} SingleRightAVL(n: Tree, d: nat)
    requires n.Node? && n.left.Node? && Exact(n.left) && Balanced(n.left) && Exact(n.right) && Balanced(n.right)
    requires Depth(n.left) == d + 2 && Depth(n.right) == d && ComputeBalance(n.left) == 1
    ensures RotateRight(n).Done?
    ensures Exact(RotateRight(n).tree) && Balanced(RotateRight(n).tree) && Depth(RotateRight(n).tree) == d + 2
  {
    RotateRightExact(n);
    var r := RotateRight(n).tree;
    assert Depth(n.left.left) == d + 1 && Depth(n.left.right) == d;
    assert Depth(r.right) == d + 1;
  }

  /** The left-right case: rotating the left child left, then the node right, rebalances it. */
  lemma {:induction false} DoubleRightAVL(n: Tree, d: nat)
    requires n.Node? && n.left.Node? && Exact(n.left) && Balanced(n.left) && Exact(n.right) && Balanced(n.right)
    requires Depth(n.left) == d + 2 && Depth(n.right) == d && ComputeBalance(n.left) == -1
    ensures RotateLeft(n.left).Done? && RotateRight(n.(left := RotateLeft(n.left).tree)).Done?
    ensures var r := RotateRight(n.(left := RotateLeft(n.left).tree)).tree;
      Exact(r) && Balanced(r) && Depth(r) == d + 2
  {
    var top := n.left;
    assert Depth(top.left) == d && Depth(top.right) == d + 1;
    var middle := top.right;
    assert Depth(middle.left) <= d && Depth(middle.right) <= d;
    assert Depth(middle.left) == d || Depth(middle.right) == d;
    assert Balanced(middle.left) && Balanced(middle.right);
    RotateLeftExact(top);
    var turned := RotateLeft(top).tree;
    assert Depth(turned.left) == d + 1 && Balanced(turned.left);
    RotateRightExact(n.(left := turned));
    var r := RotateRight(n.(left := turned)).tree;
    assert r.left == turned.left && r.right.left == middle.right;
    assert Depth(r.right) == d + 1 && Balanced(r.right);
  }

  /** The right-right case, the mirror image of SingleRightAVL. */
  lemma {:induction false} SingleLeftAVL(n: Tree, d: nat)
    requires n.Node? && n.right.Node? && Exact(n.right) && Balanced(n.right) && Exact(n.left) && Balanced(n.left)
    requires Depth(n.right) == d + 2 && Depth(n.left) == d && ComputeBalance(n.right) == -1
    ensures RotateLeft(n).Done?
    ensures Exact(RotateLeft(n).tree) && Balanced(RotateLeft(n).tree) && Depth(RotateLeft(n).tree) == d + 2
  {
    RotateLeftExact(n);
    var r := RotateLeft(n).tree;
    assert Depth(n.right.right) == d + 1 && Depth(n.right.left) == d;
    assert Depth(r.left) == d + 1;
  }

  /** The right-left case, the mirror image of DoubleRightAVL. */
  lemma {:induction false} DoubleLeftAVL(n: Tree, d: nat)
    requires n.Node? && n.right.Node? && Exact(n.right) && Balanced(n.right) && Exact(n.left) && Balanced(n.left)
    requires Depth(n.right) == d + 2 && Depth(n.left) == d && ComputeBalance(n.right) == 1
    ensures RotateRight(n.right).Done? && RotateLeft(n.(right := RotateRight(n.right).tree)).Done?
    ensures var r := RotateLeft(n.(right := RotateRight(n.right).tree)).tree;
      Exact(r) && Balanced(r) && Depth(r) == d + 2
  {
    var top := n.right;
    assert Depth(top.right) == d && Depth(top.left) == d + 1;
    var middle := top.left;
    assert Depth(middle.left) <= d && Depth(middle.right) <= d;
    assert Depth(middle.left) == d || Depth(middle.right) == d;
    assert Balanced(middle.left) && Balanced(middle.right);
    RotateRightExact(top);
    var turned := RotateRight(top).tree;
    assert Depth(turned.right) == d + 1 && Balanced(turned.right);
    RotateLeftExact(n.(right := turned));
    var r := RotateLeft(n.(right := turned)).tree;
    assert r.right == turned.right && r.left.right == middle.left;
    assert Depth(r.left) == d + 1 && Balanced(r.left);
  }

  /** A subtree that an insertion made deeper leans towards the side the item went. */
  predicate Leans(n: Tree, v: Item) {
    n.Node? && v.key != n.value.key &&
    (v.key < n.value.key ==> ComputeBalance(n) == 1) && (v.key > n.value.key ==> ComputeBalance(n) == -1)
  }

  /**
   * Insert's rebalancing after the left subtree of an AVL node took the item:
   * the node is AVL again, at most one deeper, and leaning left when deeper.
   */
  lemma {:induction false} InsertBalanceLeftAVL(grown: Tree, rt: Tree, h: int, x: Item, v: Item, dl: nat)
    requires v.key < x.key
    requires Exact(grown) && Balanced(grown) && Exact(rt) && Balanced(rt)
    requires Depth(grown) == dl || Depth(grown) == dl + 1
    requires -1 <= dl - Depth(rt) <= 1
    requires Depth(grown) == dl + 1 && dl > 0 ==> Leans(grown, v)
    ensures var r := InsertBalance(Node(grown, rt, h, x), v);
      r.Done? && Exact(r.tree) && Balanced(r.tree) &&
      var d := TUMaths.MaxT(dl, Depth(rt)) + 1;
      Depth(r.tree) == d || (Depth(r.tree) == d + 1 && r.tree.value == x && Leans(r.tree, v))
  {
    var n := Recompute(Node(grown, rt, h, x));
    MeasuredExact(n);
    var dr := Depth(rt);
    if Depth(grown) == dl + 1 && dl == dr + 1 {
      assert ComputeBalance(n) == 2;
      if v.key < grown.value.key {
        SingleRightAVL(n, dr);
      } else {
        DoubleRightAVL(n, dr);
      }
    }
  }

  /** The mirror image of InsertBalanceLeftAVL. */
  lemma {:induction false} InsertBalanceRightAVL(l: Tree, grown: Tree, h: int, x: Item, v: Item, dr: nat)
    requires v.key > x.key
    requires Exact(grown) && Balanced(grown) && Exact(l) && Balanced(l)
    requires Depth(grown) == dr || Depth(grown) == dr + 1
    requires -1 <= Depth(l) - dr <= 1
    requires Depth(grown) == dr + 1 && dr > 0 ==> Leans(grown, v)
    ensures var r := InsertBalance(Node(l, grown, h, x), v);
      r.Done? && Exact(r.tree) && Balanced(r.tree) &&
      var d := TUMaths.MaxT(Depth(l), dr) + 1;
      Depth(r.tree) == d || (Depth(r.tree) == d + 1 && r.tree.value == x && Leans(r.tree, v))
  {
    var n := Recompute(Node(l, grown, h, x));
    MeasuredExact(n);
    var dl := Depth(l);
    if Depth(grown) == dr + 1 && dr == dl + 1 {
      assert ComputeBalance(n) == -2;
      if v.key > grown.value.key {
        SingleLeftAVL(n, dl);
      } else {
        DoubleLeftAVL(n, dl);
      }
    }
  }

  /**
   * Insert with new nodes born at LeafHeight keeps an AVL tree with exact
   * heights an AVL tree with exact heights, never meeting a null child, for
   * the Ignore and Replace policies.
   */
  lemma {:induction false} InsertAVL(t: Tree, v: Item, how: InsertMethod)
    requires how == Ignore || how == Replace
    requires Exact(t) && Balanced(t)
    ensures var r := InsertAt(t, v, how, LeafHeight);
      r.Done? && Exact(r.tree) && Balanced(r.tree) &&
      (Depth(r.tree) == Depth(t) ||
       (Depth(r.tree) == Depth(t) + 1 && (t.Node? ==> r.tree.value == t.value && Leans(r.tree, v))))
  {
    match t
    case Nil =>
    case Node(l, rt, h, x) =>
      if v.key < x.key {
        InsertAVL(l, v, how);
        InsertBalanceLeftAVL(InsertAt(l, v, how, LeafHeight).tree, rt, h, x, v, Depth(l));
      } else if v.key > x.key {
        InsertAVL(rt, v, how);
        InsertBalanceRightAVL(l, InsertAt(rt, v, how, LeafHeight).tree, h, x, v, Depth(rt));
      }
  }

  /**
   * Inserting keys 3, 2, 1 with the source's AllocatedHeight: a new node
   * stores the height Height gives a null subtree, so the root sees a balance
   * of one and the three nodes stay a chain, which is not AVL.
   */
  lemma AllocatedHeightLeavesChain()
    ensures var one := Node(Nil, Nil, AllocatedHeight, Item(3, 0));
      var two := Node(Node(Nil, Nil, AllocatedHeight, Item(2, 0)), Nil, 1, Item(3, 0));
      var three := Node(Node(Node(Nil, Nil, AllocatedHeight, Item(1, 0)), Nil, 1, Item(2, 0)), Nil, 2, Item(3, 0));
      InsertAt(Nil, Item(3, 0), Ignore, AllocatedHeight) == Done(one) &&
      InsertAt(one, Item(2, 0), Ignore, AllocatedHeight) == Done(two) &&
      InsertAt(two, Item(1, 0), Ignore, AllocatedHeight) == Done(three) &&
      ComputeBalance(three) == 1 && !Balanced(three)
  {
  }

  // With LeafHeight, inserting 3, 2, 1 rotates at the root (compare AllocatedHeightLeavesChain).

  lemma LeafHeightFirstInsert()
    ensures InsertAt(Nil, Item(3, 0), Ignore, LeafHeight) == Done(Node(Nil, Nil, LeafHeight, Item(3, 0)))
  {
  }

  lemma LeafHeightSecondInsert()
    ensures InsertAt(Node(Nil, Nil, LeafHeight, Item(3, 0)), Item(2, 0), Ignore, LeafHeight)
      == Done(Node(Node(Nil, Nil, LeafHeight, Item(2, 0)), Nil, 2, Item(3, 0)))
  {
  }

  lemma LeafHeightThirdInsert()
    ensures InsertAt(Node(Node(Nil, Nil, LeafHeight, Item(2, 0)), Nil, 2, Item(3, 0)), Item(1, 0), Ignore, LeafHeight)
      == Done(Node(Node(Nil, Nil, LeafHeight, Item(1, 0)), Node(Nil, Nil, LeafHeight, Item(3, 0)), 2, Item(2, 0)))
  {
  }

  /** The tree the same three inserts with LeafHeight end in is AVL with exact heights. */
  lemma LeafHeightRotates()
    ensures var three := Node(Node(Nil, Nil, LeafHeight, Item(1, 0)), Node(Nil, Nil, LeafHeight, Item(3, 0)), 2, Item(2, 0));
      Balanced(three) && Exact(three)
  {
  }

  /** Strictly increasing order is in particular non-decreasing. */
  lemma AscendingIsNonDescending(s: seq<Item>)
    requires Ascending(s)
    ensures NonDescending(s)
  {
  }

  /**
   * AVLTree: the root pointer and the InsertMethod policy. Insert places new
   * nodes with LeafHeight (see AllocatedHeight for the source's value).
   */
  class AVLTree {
    var root: Tree
    const how: InsertMethod

    /** Keys in the order the policy keeps, and no negative stored height. */
    ghost predicate Valid()
      reads this
    {
      Grounded(root) &&
      if how == Ignore || how == Replace then Ascending(InOrder(root)) else NonDescending(InOrder(root))
    }

    constructor(how: InsertMethod)
      ensures root == Nil && this.how == how && Valid()
    {
      root := Nil;
      this.how := how;
    }

    /** Find: walk from the root towards the key until a node's value equals it. */
    method Find(key: int) returns (found: Option<Item>)
      ensures found == Search(root, key)
      ensures Valid() ==> (found.Some? <==> key in Keys(InOrder(root)))
    {
      var node := root;
      while node.Node?
        invariant Search(node, key) == Search(root, key)
        decreases node
      {
        if key == node.value.key {
          return Some(node.value);
        }
        if key > node.value.key {
          node := node.right;
        } else {
          node := node.left;
        }
      }
      found := None;
      if Valid() && key in Keys(InOrder(root)) {
        if how == Ignore || how == Replace {
          AscendingIsNonDescending(InOrder(root));
        }
        SearchFinds(root, key);
      }
    }

    /**
     * Insert: the item goes where a plain search-tree insertion puts it, and
     * the tree stays valid; ok is false where the source would follow a null
     * child, and then the tree is left as it was.
     */
    method Insert(item: Item) returns (ok: bool)
      modifies this
      ensures ok == InsertAt(old(root), item, how, LeafHeight).Done?
      ensures ok ==> root == InsertAt(old(root), item, how, LeafHeight).tree
      ensures ok ==> InOrder(root) == Placed(old(root), item, how)
      ensures !ok ==> root == old(root)
      ensures old(Valid()) && ok ==> Valid()
    {
      ghost var wasValid := Valid();
      ghost var before := root;
      if root == Nil {
        root := Node(Nil, Nil, LeafHeight, item);
        ok := true;
      } else {
        var outcome := InsertAt(root, item, how, LeafHeight);
        ok := outcome.Done?;
        if ok {
          root := outcome.tree;
        }
      }
      if wasValid && ok {
        InsertGrounded(before, item, how, LeafHeight);
        PlacedOrdered(before, item, how, how == Ignore || how == Replace);
      }
    }

    /**
     * Remove by key: the first node on the search path with the key goes; in a
     * valid tree this never meets a null child, and with one node per key it
     * deletes exactly the items with that key.
     */
    method Remove(key: int) returns (ok: bool)
      modifies this
      ensures ok == RemoveAt(old(root), key).Done?
      ensures ok ==> root == RemoveAt(old(root), key).tree && InOrder(root) == Removed(old(root), key)
      ensures !ok ==> root == old(root)
      ensures old(Valid()) ==> ok && Valid()
      ensures old(Valid()) && (how == Ignore || how == Replace) ==> InOrder(root) == Without(old(InOrder(root)), key)
    {
      ghost var before := root;
      if Grounded(root) {
        RemoveGrounded(root, key);
      }
      if Valid() {
        RemovedOrdered(root, key, how == Ignore || how == Replace);
        if how == Ignore || how == Replace {
          RemovedAscending(root, key);
        }
      }
      var outcome := RemoveAt(root, key);
      ok := outcome.Done?;
      if ok {
        root := outcome.tree;
      }
    }
  }
}
