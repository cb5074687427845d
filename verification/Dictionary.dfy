/** The dictionary of src/data_structures/dictionary/dictionary.c: a search tree and a key list. */
module Dictionary {
  import opened Optional
  import opened LinkedList
  import opened SearchTree

  // ----- What a history of inserts means -----

  type History<V> = seq<(string, V)>

  /** The map in which the first insert of a key wins. */
  function FirstWins<V>(h: History<V>): map<string, V> {
    if h == [] then map[]
    else
      var (key, value) := h[|h| - 1];
      var m := FirstWins(h[..|h| - 1]);
      if key in m then m else m[key := value]
  }

  function Keys<V>(h: History<V>): (k: seq<string>)
    ensures |k| == |h|
  {
    seq(|h|, i requires 0 <= i < |h| => h[i].0)
  }

  lemma OneMoreKey<V>(h: History<V>, key: string, value: V)
    ensures Keys(h + [(key, value)]) == Inserted(Keys(h), |h|, key)
  {
    assert Keys(h)[..|h|] == Keys(h);
  }

  lemma OneMoreBinding<V>(h: History<V>, key: string, value: V)
    ensures FirstWins(h + [(key, value)]) == if key in FirstWins(h) then FirstWins(h) else FirstWins(h)[key := value]
  {
    var g := h + [(key, value)];
    assert g[..|g| - 1] == h;
  }

  function Lookup<V>(h: History<V>, key: string): Option<V> {
    if key in FirstWins(h) then Some(FirstWins(h)[key]) else None
  }

  /** The map binds every key ever inserted to the value of its earliest insert, and no other key. */
  lemma {:induction false} EarliestInsertWins<V>(h: History<V>, i: nat)
    requires i < |h| && forall j | 0 <= j < i :: h[j].0 != h[i].0
    ensures Lookup(h, h[i].0) == Some(h[i].1)
  {
    var front := h[..|h| - 1];
    if i == |h| - 1 {
      forall j | 0 <= j < |front|
        ensures front[j].0 != h[i].0
      {
      }
      UnboundIffAbsent(front, h[i].0);
    } else {
      EarliestInsertWins(front, i);
    }
  }

  lemma {:induction false} UnboundIffAbsent<V>(h: History<V>, key: string)
    ensures key !in FirstWins(h) <==> forall j | 0 <= j < |h| :: h[j].0 != key
  {
    if h != [] {
      var front := h[..|h| - 1];
      UnboundIffAbsent(front, key);
      assert forall j | 0 <= j < |front| :: front[j] == h[j];
      if key !in FirstWins(h) {
        assert forall j | 0 <= j < |h| :: j < |front| || h[j] == h[|h| - 1];
      }
    }
  }

  /** The calls iterate_dict makes: one per insert, in order, each with the winning value. */
  function Calls<V>(h: History<V>): (c: seq<(string, Option<V>)>)
    ensures |c| == |h|
  {
    seq(|h|, i requires 0 <= i < |h| => (h[i].0, Lookup(h, h[i].0)))
  }

  /** No call ever passes NULL, and every call for a key passes the value first bound to it. */
  lemma CallsPassFirstValues<V>(h: History<V>, i: nat) returns (first: nat)
    requires i < |h|
    ensures first <= i && h[first].0 == h[i].0
    ensures forall j | 0 <= j < first :: h[j].0 != h[i].0
    ensures Calls(h)[i] == (h[i].0, Some(h[first].1))
  {
    first := i;
    if j :| 0 <= j < i && h[j].0 == h[i].0 {
      first := 0;
      while h[first].0 != h[i].0
        invariant first <= j && forall k | 0 <= k < first :: h[k].0 != h[i].0
        decreases j - first
      {
        first := first + 1;
      }
    }
    EarliestInsertWins(h, first);
  }

  // ----- The data structure -----

  ghost function TreeNodes<V>(t: SearchTree<V>): set<object>
    reads t
  {
    set n: object | n in t.nodes
  }

  ghost function ListNodes<T>(l: List<T>): set<object>
    reads l
  {
    set n: object | n in l.spine
  }

  class Dictionary<V> {
    const tree: SearchTree<V>
    const keys: List<string>
    ghost var history: History<V>
    ghost var Repr: set<object>

    ghost predicate Valid()
      reads this, Repr
      ensures Valid() ==> this in Repr
    {
      && {this, tree, keys} <= Repr
      && TreeNodes(tree) <= Repr && ListNodes(keys) <= Repr
      && tree.Valid() && keys.Valid()
      && Bindings(tree.tree) == FirstWins(history)
      && keys.Contents() == Keys(history)
    }

    constructor ()
      ensures Valid() && history == [] && fresh(Repr)
    {
      tree := new SearchTree<V>();
      keys := new List<string>();
      history := [];
      new;
      Repr := {this, tree, keys};
    }

    /** search_dict. */
    method Search(key: string) returns (value: Option<V>)
      requires Valid()
      ensures value == Lookup(history, key)
    {
      value := tree.Search(key);
    }

    method Bind(key: string, value: V)
      requires tree.Valid() && keys.Valid()
      modifies tree, tree.nodes
      ensures tree.Valid() && fresh(TreeNodes(tree) - old(TreeNodes(tree)))
      ensures Bindings(tree.tree)
              == if key in old(Bindings(tree.tree)) then old(Bindings(tree.tree)) else old(Bindings(tree.tree))[key := value]
      ensures keys.Valid() && keys.spine == old(keys.spine) && keys.Contents() == old(keys.Contents())
    {
      tree.Insert(key, value);
    }

    method AppendKey(key: string)
      requires tree.Valid() && keys.Valid()
      modifies keys, keys.spine
      ensures keys.Valid() && keys.Contents() == Inserted(old(keys.Contents()), |old(keys.Contents())|, key)
      ensures fresh(ListNodes(keys) - old(ListNodes(keys)))
      ensures tree.Valid() && tree.tree == old(tree.tree) && TreeNodes(tree) == old(TreeNodes(tree))
    {
      keys.Insert(keys.length, key);
    }

    /** insert_dict: the tree keeps an existing binding, the key list grows regardless. */
    method Insert(key: string, value: V)
      requires Valid()
      modifies Repr
      ensures Valid() && history == old(history) + [(key, value)]
      ensures fresh(Repr - old(Repr))
    {
      ghost var h := history + [(key, value)];
      OneMoreKey(history, key, value);
      OneMoreBinding(history, key, value);
      Bind(key, value);
      AppendKey(key);
      history := h;
      Repr := Repr + TreeNodes(tree) + ListNodes(keys);
    }

    /** iterate_dict, returning the arguments of the callbacks in order. */
    method Iterate() returns (calls: seq<(string, Option<V>)>)
      requires Valid()
      ensures calls == Calls(history)
    {
      calls := [];
      var i := 0;
      while i < keys.length
        invariant 0 <= i <= |history| && calls == Calls(history)[..i]
      {
        var key := keys.Retrieve(i);
        var value := Search(key.value);
        calls := calls + [(key.value, value)];
        i := i + 1;
      }
    }
  }
}
