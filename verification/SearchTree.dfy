/** The binary search tree of src/data_structures/trees/binary_search_tree.c, keyed by strings. */
module SearchTree {
  import opened Optional

  // ----- strcmp, reduced to its sign -----

  function StrCmp(a: string, b: string): (c: int)
    ensures c in {-1, 0, 1}
  {
    if a == [] then (if b == [] then 0 else -1)
    else if b == [] then 1
    else if a[0] < b[0] then -1
    else if a[0] > b[0] then 1
    else StrCmp(a[1..], b[1..])
  }

  lemma {:induction false} StrCmpZero(a: string, b: string)
    ensures StrCmp(a, b) == 0 <==> a == b
  {
    if a != [] && b != [] && a[0] == b[0] {
      StrCmpZero(a[1..], b[1..]);
      assert a == [a[0]] + a[1..] && b == [b[0]] + b[1..];
    }
  }

  lemma {:induction false} StrCmpFlips(a: string, b: string)
    ensures StrCmp(a, b) == -StrCmp(b, a)
  {
    if a != [] && b != [] && a[0] == b[0] {
      StrCmpFlips(a[1..], b[1..]);
    }
  }

  lemma {:induction false} StrCmpTransitive(a: string, b: string, c: string)
    requires StrCmp(a, b) == -1 && StrCmp(b, c) == -1
    ensures StrCmp(a, c) == -1
  {
    if a != [] && b != [] && c != [] && a[0] == b[0] == c[0] {
      StrCmpTransitive(a[1..], b[1..], c[1..]);
    }
  }

  /** a stops, or has the smaller character, at the first place where the two differ. */
  predicate FirstDifference(a: string, b: string, k: nat) {
    k <= |a| && k < |b| && a[..k] == b[..k] && (k == |a| || a[k] < b[k])
  }

  lemma DifferenceMoves(a: string, b: string, k: nat)
    requires a != [] && b != [] && a[0] == b[0]
    ensures FirstDifference(a[1..], b[1..], k) <==> FirstDifference(a, b, k + 1)
  {
    if k + 1 <= |a| && k + 1 < |b| {
      assert a[..k + 1] == [a[0]] + a[1..][..k] && b[..k + 1] == [b[0]] + b[1..][..k];
      assert a[1..][..k] == a[..k + 1][1..] && b[1..][..k] == b[..k + 1][1..];
    }
  }

  lemma CommonHead(a: string, b: string, k: nat)
    ensures FirstDifference(a, b, k) && k > 0 ==> a[0] == b[0]
  {
    if FirstDifference(a, b, k) && k > 0 {
      assert a[0] == a[..k][0] == b[..k][0] == b[0];
    }
  }

  /** The comparator's order is the lexicographic one. */
  lemma {:induction false} StrCmpIsLexicographic(a: string, b: string)
    ensures StrCmp(a, b) == -1 <==> exists k: nat :: FirstDifference(a, b, k)
  {
    if a == [] {
      if b != [] {
        assert FirstDifference(a, b, 0);
      }
    } else if b != [] && a[0] == b[0] {
      StrCmpIsLexicographic(a[1..], b[1..]);
      if k: nat :| FirstDifference(a[1..], b[1..], k) {
        DifferenceMoves(a, b, k);
      }
      if k: nat :| FirstDifference(a, b, k) {
        assert k > 0;
        DifferenceMoves(a, b, k - 1);
      }
    } else if b != [] {
      if a[0] < b[0] {
        assert FirstDifference(a, b, 0);
      }
      forall k: nat
        ensures FirstDifference(a, b, k) ==> k == 0
      {
        CommonHead(a, b, k);
      }
    }
  }

  // ----- Nodes, and the tree they form -----

  /** The entry never changes once the node exists; next leads to smaller keys, prev to larger. */
  class Node<V> {
    const key: string
    const value: V
    var next: Node?<V>
    var prev: Node?<V>

    constructor (key: string, value: V)
      ensures this.key == key && this.value == value && next == null && prev == null
    {
      this.key, this.value, next, prev := key, value, null, null;
    }
  }

  datatype Tree<V> = Leaf | Branch(node: Node<V>, smaller: Tree<V>, larger: Tree<V>)

  function Root<V>(t: Tree<V>): Node?<V> {
    if t.Leaf? then null else t.node
  }

  ghost function Nodes<V>(t: Tree<V>): set<Node<V>> {
    if t.Leaf? then {} else {t.node} + Nodes(t.smaller) + Nodes(t.larger)
  }

  /** The heap nodes are linked the way the tree says, and no node occurs twice. */
  ghost predicate Linked<V>(t: Tree<V>)
    reads Nodes(t)
  {
    t.Branch? ==>
      && t.node.next == Root(t.smaller) && t.node.prev == Root(t.larger)
      && t.node !in Nodes(t.smaller) && t.node !in Nodes(t.larger)
      && Nodes(t.smaller) !! Nodes(t.larger)
      && Linked(t.smaller) && Linked(t.larger)
  }

  ghost predicate Ordered<V>(t: Tree<V>) {
    t.Branch? ==>
      && (forall n | n in Nodes(t.smaller) :: StrCmp(n.key, t.node.key) == -1)
      && (forall n | n in Nodes(t.larger) :: StrCmp(t.node.key, n.key) == -1)
      && Ordered(t.smaller) && Ordered(t.larger)
  }

  ghost function Bindings<V>(t: Tree<V>): map<string, V> {
    if t.Leaf? then map[] else (Bindings(t.smaller) + Bindings(t.larger))[t.node.key := t.node.value]
  }

  /** The walk of iterate_bst: the node it stops at and the direction it reports. */
  function Locate<V>(t: Tree<V>, key: string): (Node?<V>, int) {
    if t.Leaf? then (null, 1)
    else if StrCmp(t.node.key, key) == 1 then
      (if t.smaller.Branch? then Locate(t.smaller, key) else (t.node, 1))
    else if StrCmp(t.node.key, key) == -1 then
      (if t.larger.Branch? then Locate(t.larger, key) else (t.node, -1))
    else (t.node, 0)
  }

  /** The tree after hanging a new node where the walk for its key ends. */
  function Graft<V>(t: Tree<V>, n: Node<V>): Tree<V> {
    if t.Leaf? then Branch(n, Leaf, Leaf)
    else if StrCmp(t.node.key, n.key) == 1 then t.(smaller := Graft(t.smaller, n))
    else if StrCmp(t.node.key, n.key) == -1 then t.(larger := Graft(t.larger, n))
    else t
  }

  // ----- Ordered trees are first-insert-wins maps -----

  lemma {:induction false} BoundKeysAreNodes<V>(t: Tree<V>, key: string)
    ensures key in Bindings(t) <==> exists n :: n in Nodes(t) && n.key == key
  {
    if t.Branch? {
      BoundKeysAreNodes(t.smaller, key);
      BoundKeysAreNodes(t.larger, key);
    }
  }

  lemma SidesOfRoot<V>(t: Tree<V>, key: string)
    requires t.Branch? && Ordered(t)
    ensures key in Bindings(t.smaller) ==> StrCmp(t.node.key, key) == 1
    ensures key in Bindings(t.larger) ==> StrCmp(t.node.key, key) == -1
  {
    BoundKeysAreNodes(t.smaller, key);
    BoundKeysAreNodes(t.larger, key);
    StrCmpFlips(t.node.key, key);
  }

  /** The walk reports direction 0 exactly for bound keys, and then stands on their entry. */
  lemma {:induction false} LocateDecides<V>(t: Tree<V>, key: string)
    requires Ordered(t)
    ensures var (n, direction) := Locate(t, key);
            && (direction == 0 <==> key in Bindings(t))
            && (direction == 0 ==> n != null && n.key == key && Bindings(t)[key] == n.value)
            && (n == null <==> t.Leaf?)
            && (n != null ==> n in Nodes(t))
  {
    if t.Branch? {
      SidesOfRoot(t, key);
      StrCmpZero(t.node.key, key);
      LocateDecides(t.smaller, key);
      LocateDecides(t.larger, key);
    }
  }

  /** A key that is already bound leaves the tree as it is. */
  lemma {:induction false} GraftOfBound<V>(t: Tree<V>, n: Node<V>)
    requires Ordered(t) && n.key in Bindings(t)
    ensures Graft(t, n) == t
  {
    SidesOfRoot(t, n.key);
    StrCmpZero(t.node.key, n.key);
    if StrCmp(t.node.key, n.key) == 1 {
      GraftOfBound(t.smaller, n);
    } else if StrCmp(t.node.key, n.key) == -1 {
      GraftOfBound(t.larger, n);
    }
  }

  lemma {:induction false} GraftAddsNode<V>(t: Tree<V>, n: Node<V>)
    requires Ordered(t) && n.key !in Bindings(t)
    ensures Nodes(Graft(t, n)) == Nodes(t) + {n}
  {
    if t.Branch? {
      StrCmpZero(t.node.key, n.key);
      GraftAddsNode(t.smaller, n);
      GraftAddsNode(t.larger, n);
    }
  }

  lemma {:induction false} GraftKeepsOrder<V>(t: Tree<V>, n: Node<V>)
    requires Ordered(t) && n.key !in Bindings(t)
    ensures Ordered(Graft(t, n))
  {
    if t.Branch? {
      StrCmpZero(t.node.key, n.key);
      StrCmpFlips(t.node.key, n.key);
      GraftAddsNode(t.smaller, n);
      GraftAddsNode(t.larger, n);
      GraftKeepsOrder(t.smaller, n);
      GraftKeepsOrder(t.larger, n);
    }
  }

  lemma BindInSmaller<V>(small: map<string, V>, large: map<string, V>, key: string, value: V, newKey: string, newValue: V)
    requires newKey != key && newKey !in large
    ensures (small[newKey := newValue] + large)[key := value] == (small + large)[key := value][newKey := newValue]
  {
  }

  lemma BindInLarger<V>(small: map<string, V>, large: map<string, V>, key: string, value: V, newKey: string, newValue: V)
    requires newKey != key
    ensures (small + large[newKey := newValue])[key := value] == (small + large)[key := value][newKey := newValue]
  {
  }

  /** A new key adds one binding. */
  lemma {:induction false} GraftBinds<V>(t: Tree<V>, n: Node<V>)
    requires Ordered(t) && n.key !in Bindings(t)
    ensures Bindings(Graft(t, n)) == Bindings(t)[n.key := n.value]
  {
    if t.Branch? {
      var small, large := Bindings(t.smaller), Bindings(t.larger);
      StrCmpZero(t.node.key, n.key);
      if StrCmp(t.node.key, n.key) == 1 {
        GraftBinds(t.smaller, n);
        BindInSmaller(small, large, t.node.key, t.node.value, n.key, n.value);
      } else {
        GraftBinds(t.larger, n);
        BindInLarger(small, large, t.node.key, t.node.value, n.key, n.value);
      }
    }
  }

  // ----- The heap side -----

  /** The subtree at whose root the walk ends. */
  function End<V>(t: Tree<V>, key: string): (e: Tree<V>)
    requires t.Branch?
    ensures e.Branch? && e.node == Locate(t, key).0
  {
    if StrCmp(t.node.key, key) == 1 && t.smaller.Branch? then End(t.smaller, key)
    else if StrCmp(t.node.key, key) == -1 && t.larger.Branch? then End(t.larger, key)
    else t
  }

  /** Linked, with nothing said about (or read from) node c. */
  ghost predicate LinkedBut<V>(t: Tree<V>, c: Node<V>)
    reads Nodes(t) - {c}
  {
    t.Branch? ==>
      && (t.node != c ==> t.node.next == Root(t.smaller) && t.node.prev == Root(t.larger))
      && t.node !in Nodes(t.smaller) && t.node !in Nodes(t.larger)
      && Nodes(t.smaller) !! Nodes(t.larger)
      && LinkedBut(t.smaller, c) && LinkedBut(t.larger, c)
  }

  lemma {:induction false} ForgetNode<V>(t: Tree<V>, c: Node<V>)
    requires Linked(t)
    ensures LinkedBut(t, c)
  {
    if t.Branch? {
      ForgetNode(t.smaller, c);
      ForgetNode(t.larger, c);
    }
  }

  lemma {:induction false} NothingForgotten<V>(t: Tree<V>, c: Node<V>)
    requires LinkedBut(t, c) && c !in Nodes(t)
    ensures Linked(t)
  {
    if t.Branch? {
      NothingForgotten(t.smaller, c);
      NothingForgotten(t.larger, c);
    }
  }

  lemma {:induction false} EndIsLinked<V>(t: Tree<V>, key: string)
    requires t.Branch? && Linked(t)
    ensures var e := End(t, key);
            && e.node in Nodes(t) && e.node.next == Root(e.smaller) && e.node.prev == Root(e.larger)
            && (Locate(t, key).1 == 1 ==> e.smaller.Leaf?)
            && (Locate(t, key).1 == -1 ==> e.larger.Leaf?)
  {
    if StrCmp(t.node.key, key) == 1 && t.smaller.Branch? {
      EndIsLinked(t.smaller, key);
    } else if StrCmp(t.node.key, key) == -1 && t.larger.Branch? {
      EndIsLinked(t.larger, key);
    }
  }

  /** The node the walk ended at, once its free pointer has been set to the new node. */
  ghost predicate Hooked<V>(t: Tree<V>, n: Node<V>)
    requires t.Branch?
    reads Nodes(t)
  {
    var e, direction := End(t, n.key), Locate(t, n.key).1;
    && e.node in Nodes(t)
    && (direction == 1 ==> e.smaller.Leaf? && e.node.next == n && e.node.prev == Root(e.larger))
    && (direction == -1 ==> e.larger.Leaf? && e.node.prev == n && e.node.next == Root(e.smaller))
  }

  /** Setting that pointer turns the linked tree into the linked graft. */
  lemma {:induction false} GraftLinks<V>(t: Tree<V>, n: Node<V>)
    requires Ordered(t) && n.key !in Bindings(t)
    requires t.Branch? && LinkedBut(t, End(t, n.key).node) && Hooked(t, n)
    requires n !in Nodes(t) && n.next == null && n.prev == null
    ensures Linked(Graft(t, n))
  {
    var c := End(t, n.key).node;
    StrCmpZero(t.node.key, n.key);
    GraftAddsNode(t.smaller, n);
    GraftAddsNode(t.larger, n);
    if StrCmp(t.node.key, n.key) == 1 {
      if t.smaller.Branch? {
        EndInside(t.smaller, n.key);
        GraftLinks(t.smaller, n);
      }
      NothingForgotten(t.larger, c);
    } else {
      if t.larger.Branch? {
        EndInside(t.larger, n.key);
        GraftLinks(t.larger, n);
      }
      NothingForgotten(t.smaller, c);
    }
  }

  lemma {:induction false} EndInside<V>(t: Tree<V>, key: string)
    requires t.Branch?
    ensures End(t, key).node in Nodes(t)
  {
    if StrCmp(t.node.key, key) == 1 && t.smaller.Branch? {
      EndInside(t.smaller, key);
    } else if StrCmp(t.node.key, key) == -1 && t.larger.Branch? {
      EndInside(t.larger, key);
    }
  }

  class SearchTree<V> {
    var head: Node?<V>
    ghost var tree: Tree<V>
    ghost var nodes: set<Node<V>>

    ghost predicate Valid()
      reads this, nodes
    {
      nodes == Nodes(tree) && head == Root(tree) && Linked(tree) && Ordered(tree)
    }

    constructor ()
      ensures Valid() && tree == Leaf && nodes == {}
    {
      head, tree, nodes := null, Leaf, {};
    }

    /** iterate_bst, recursion and all. */
    static method Iterate(cursor: Node?<V>, key: string, ghost t: Tree<V>) returns (n: Node?<V>, direction: int)
      requires Linked(t) && cursor == Root(t)
      ensures (n, direction) == Locate(t, key)
      decreases t
    {
      if cursor == null {
        return null, 1;
      }
      if StrCmp(cursor.key, key) == 1 {
        if cursor.next != null {
          n, direction := Iterate(cursor.next, key, t.smaller);
        } else {
          n, direction := cursor, 1;
        }
      } else if StrCmp(cursor.key, key) == -1 {
        if cursor.prev != null {
          n, direction := Iterate(cursor.prev, key, t.larger);
        } else {
          n, direction := cursor, -1;
        }
      } else {
        n, direction := cursor, 0;
      }
    }

    /** search_bst. */
    method Search(key: string) returns (value: Option<V>)
      requires Valid()
      ensures value == if key in Bindings(tree) then Some(Bindings(tree)[key]) else None
    {
      LocateDecides(tree, key);
      var n, direction := Iterate(head, key, tree);
      value := if direction == 0 then Some(n.value) else None;
    }

    /** Hang a new node where the walk ended. */
    static method Hook(cursor: Node<V>, direction: int, n: Node<V>, ghost t: Tree<V>, ghost nodes: set<Node<V>>)
      requires t.Branch? && Linked(t) && Ordered(t) && nodes == Nodes(t)
      requires (cursor, direction) == Locate(t, n.key) && direction != 0
      requires n !in nodes && n.next == null && n.prev == null && n.key !in Bindings(t)
      modifies nodes
      ensures Linked(Graft(t, n))
    {
      EndIsLinked(t, n.key);
      ForgetNode(t, End(t, n.key).node);
      if direction == 1 {
        cursor.next := n;
      } else {
        cursor.prev := n;
      }
      GraftLinks(t, n);
    }

    /** insert_bst: an existing key keeps its entry. */
    method Insert(key: string, value: V)
      requires Valid()
      modifies this, nodes
      ensures Valid()
      ensures Bindings(tree) == if key in old(Bindings(tree)) then old(Bindings(tree)) else old(Bindings(tree))[key := value]
      ensures fresh(nodes - old(nodes))
    {
      if head == null {
        head := new Node(key, value);
        tree, nodes := Branch(head, Leaf, Leaf), {head};
        return;
      }
      LocateDecides(tree, key);
      var cursor, direction := Iterate(head, key, tree);
      if direction == 0 {
        return;
      }
      var n := new Node(key, value);
      Hook(cursor, direction, n, tree, nodes);
      GraftAddsNode(tree, n);
      GraftKeepsOrder(tree, n);
      GraftBinds(tree, n);
      tree, nodes := Graft(tree, n), nodes + {n};
    }
  }
}
