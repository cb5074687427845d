/** The singly linked list of src/data_structures/lists/linked_list.c. */
module LinkedList {
  import opened Optional

  class Node<T> {
    var data: T
    var next: Node?<T>

    constructor (data: T)
      ensures this.data == data && next == null
    {
      this.data, next := data, null;
    }
  }

  // ----- What the operations do to the contents -----

  /** insert_ll: an index outside 0..length leaves the list alone. */
  function Inserted<T>(s: seq<T>, index: int, x: T): seq<T> {
    if 0 <= index <= |s| then s[..index] + [x] + s[index..] else s
  }

  /** remove_node_ll: an index outside the list leaves it alone. */
  function Removed<T>(s: seq<T>, index: int): seq<T> {
    if 0 <= index < |s| then s[..index] + s[index + 1..] else s
  }

  /** retrieve_ll: NULL outside the list. */
  function Retrieved<T>(s: seq<T>, index: int): Option<T> {
    if 0 <= index < |s| then Some(s[index]) else None
  }

  lemma InsertedAt<T>(s: seq<T>, index: nat, x: T, i: nat)
    requires index <= |s| && i <= |s|
    ensures |Inserted(s, index, x)| == |s| + 1
    ensures Inserted(s, index, x)[i] == if i < index then s[i] else if i == index then x else s[i - 1]
  {
  }

  lemma RemovedAt<T>(s: seq<T>, index: nat, i: nat)
    requires index < |s| && i < |s| - 1
    ensures |Removed(s, index)| == |s| - 1
    ensures Removed(s, index)[i] == if i < index then s[i] else s[i + 1]
  {
  }

  /** Outside the list, or its end for an insert, nothing happens and nothing is found. */
  lemma OutsideIsIgnored<T>(s: seq<T>, index: int, x: T)
    ensures index < 0 || index > |s| ==> Inserted(s, index, x) == s
    ensures index < 0 || index >= |s| ==> Removed(s, index) == s && Retrieved(s, index) == None
    ensures 0 <= index < |s| ==> Retrieved(s, index) == Some(s[index])
  {
  }

  /** Removing right after inserting at the same place undoes it. */
  lemma RemoveUndoesInsert<T>(s: seq<T>, index: int, x: T)
    requires 0 <= index <= |s|
    ensures Retrieved(Inserted(s, index, x), index) == Some(x)
    ensures Removed(Inserted(s, index, x), index) == s
  {
    assert Inserted(s, index, x)[..index] == s[..index];
    assert Inserted(s, index, x)[index + 1..] == s[index..];
  }

  // ----- Comparators -----

  /** A comparator in the style the list expects: -1, 0 or 1, and a total preorder. */
  ghost predicate Comparator<T(!new)>(cmp: (T, T) -> int) {
    && (forall a, b :: cmp(a, b) in {-1, 0, 1})
    && (forall a, b :: cmp(a, b) == -cmp(b, a))
    && (forall a, b, c {:trigger cmp(a, b), cmp(b, c), cmp(a, c)} :: cmp(a, b) <= 0 && cmp(b, c) <= 0 ==> cmp(a, c) <= 0)
  }

  ghost predicate Sorted<T>(s: seq<T>, cmp: (T, T) -> int) {
    forall i, j {:trigger cmp(s[i], s[j])} | 0 <= i <= j < |s| :: cmp(s[i], s[j]) <= 0
  }

  function After<T>(spine: seq<Node<T>>, i: nat): Node?<T> {
    if i + 1 < |spine| then spine[i + 1] else null
  }

  predicate Distinct<T>(spine: seq<Node<T>>) {
    forall i, j | 0 <= i < j < |spine| :: spine[i] != spine[j]
  }

  lemma DistinctInserted<T>(spine: seq<Node<T>>, index: nat, node: Node<T>)
    requires Distinct(spine) && node !in spine && index <= |spine|
    ensures Distinct(Inserted(spine, index, node))
  {
  }

  lemma AfterInserted<T>(spine: seq<Node<T>>, index: nat, node: Node<T>, i: nat)
    requires 0 < index <= |spine| && i <= |spine|
    ensures After(Inserted(spine, index, node), i)
            == if i + 1 == index then node
               else if i == index then After(spine, index - 1)
               else if i < index then After(spine, i)
               else After(spine, i - 1)
  {
  }

  lemma AfterRemoved<T>(spine: seq<Node<T>>, index: nat, i: nat)
    requires index < |spine| && i < |spine| - 1
    ensures After(Removed(spine, index), i)
            == if i < index - 1 then After(spine, i)
               else if i == index - 1 then After(spine, index)
               else After(spine, i + 1)
  {
  }

  class List<T> {
    var head: Node?<T>
    var length: int
    ghost var spine: seq<Node<T>>

    /** The spine lists the nodes in order; links and length agree with it. */
    ghost predicate Valid()
      reads this, spine
    {
      && length == |spine|
      && (head == if spine == [] then null else spine[0])
      && (forall i {:trigger After(spine, i)} | 0 <= i < |spine| :: spine[i].next == After(spine, i))
      && Distinct(spine)
    }

    ghost function Contents(): (s: seq<T>)
      reads this, spine
      ensures |s| == |spine|
      ensures forall i | 0 <= i < |s| :: s[i] == spine[i].data
    {
      seq(|spine|, i requires 0 <= i < |spine| reads this, spine => spine[i].data)
    }

    constructor ()
      ensures Valid() && spine == [] && Contents() == []
    {
      head, length, spine := null, 0, [];
    }

    /** iterate_ll. */
    method Iterate(index: int) returns (cursor: Node?<T>)
      requires Valid()
      ensures cursor == if 0 <= index < |spine| then spine[index] else null
    {
      if index < 0 || index >= length {
        return null;
      }
      cursor := head;
      var i := 0;
      while i < index
        invariant 0 <= i <= index && cursor == spine[i]
      {
        assert cursor.next == After(spine, i);
        cursor := cursor.next;
        i := i + 1;
      }
    }

    /** Hook a new node in at the head. */
    method LinkHead(node: Node<T>)
      requires Valid() && node !in spine
      modifies this, node
      ensures Valid() && spine == [node] + old(spine) && node.data == old(node.data)
    {
      node.next := head;
      head := node;
      length := length + 1;
      ghost var was := spine;
      spine := [node] + was;
      forall i | 0 < i < |spine|
        ensures spine[i].next == After(spine, i)
      {
        assert After(was, i - 1) == After(spine, i);
      }
    }

    /** Hook a new node in behind the cursor. */
    method LinkBehind(node: Node<T>, cursor: Node<T>, ghost index: nat)
      requires Valid() && 0 < index <= |spine| && node !in spine && cursor == spine[index - 1]
      modifies this, cursor, node
      ensures Valid() && spine == Inserted(old(spine), index, node)
      ensures node.data == old(node.data) && cursor.data == old(cursor.data)
    {
      assert cursor.next == After(spine, index - 1);
      node.next := cursor.next;
      cursor.next := node;
      length := length + 1;
      ghost var was := spine;
      spine := Inserted(was, index, node);
      DistinctInserted(was, index, node);
      forall i | 0 <= i < |spine|
        ensures spine[i].next == After(spine, i)
      {
        InsertedAt(was, index, node, i);
        AfterInserted(was, index, node, i);
      }
    }

    method InsertBehind(data: T, cursor: Node?<T>, ghost index: nat)
      requires Valid() && index <= |spine|
      requires cursor == if index == 0 then null else spine[index - 1]
      modifies this, spine
      ensures Valid() && Contents() == Inserted(old(Contents()), index, data)
      ensures forall n | n in spine :: n in old(spine) || fresh(n)
    {
      var node := new Node(data);
      ghost var was, values := spine, Contents();
      if cursor == null {
        LinkHead(node);
      } else {
        LinkBehind(node, cursor, index);
      }
      assert spine == Inserted(was, index, node);
      InsertedAt(was, index, node, 0);
      InsertedAt(values, index, data, 0);
      forall i | 0 <= i < |spine|
        ensures spine[i].data == Inserted(values, index, data)[i]
      {
        InsertedAt(was, index, node, i);
        InsertedAt(values, index, data, i);
      }
    }

    /** insert_ll. */
    method Insert(index: int, data: T)
      requires Valid()
      modifies this, spine
      ensures Valid() && Contents() == Inserted(old(Contents()), index, data)
      ensures forall n | n in spine :: n in old(spine) || fresh(n)
    {
      if index == 0 {
        InsertBehind(data, null, 0);
      } else {
        var cursor := Iterate(index - 1);
        if cursor == null {
          return;
        }
        InsertBehind(data, cursor, index);
      }
    }

    /** Take the node behind the cursor out, or the head when there is no cursor. */
    method Unlink(cursor: Node?<T>, ghost index: nat)
      requires Valid() && index < |spine|
      requires cursor == if index == 0 then null else spine[index - 1]
      modifies this, spine
      ensures Valid() && spine == old(spine)[..index] + old(spine)[index + 1..]
      ensures forall n | n in old(spine) :: n.data == old(n.data)
    {
      ghost var was := spine;
      assert was[index].next == After(was, index);
      if cursor == null {
        head := head.next;
      } else {
        assert cursor.next == After(was, index - 1) == was[index];
        cursor.next := cursor.next.next;
      }
      length := length - 1;
      spine := was[..index] + was[index + 1..];
      forall i | 0 <= i < |spine|
        ensures spine[i].next == After(spine, i)
      {
        AfterRemoved(was, index, i);
      }
    }

    /**
     * remove_node_ll. The caller must not pass the length of a non-empty list: the node before
     * that position exists but the one to remove does not.
     */
    method Remove(index: int)
      requires Valid() && (index == |spine| ==> index == 0)
      modifies this, spine
      ensures Valid() && Contents() == Removed(old(Contents()), index)
      ensures forall n | n in spine :: n in old(spine)
    {
      var cursor: Node?<T> := null;
      if index == 0 {
        if head == null {
          return;
        }
      } else {
        cursor := Iterate(index - 1);
        if cursor == null {
          return;
        }
      }
      ghost var was, values := spine, Contents();
      Unlink(cursor, index);
      assert spine == Removed(was, index) && |Removed(values, index)| == |spine|;
      forall i | 0 <= i < |spine|
        ensures spine[i].data == Removed(values, index)[i]
      {
        RemovedAt(was, index, i);
        RemovedAt(values, index, i);
      }
    }

    /** retrieve_ll. */
    method Retrieve(index: int) returns (data: Option<T>)
      requires Valid()
      ensures data == Retrieved(Contents(), index)
    {
      var cursor := Iterate(index);
      data := if cursor == null then None else Some(cursor.data);
    }
  }
}
