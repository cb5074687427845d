/** The queue of src/data_structures/lists/queue.c: a list inserted at the end, removed at the front. */
module Queue {
  import opened Optional
  import opened LinkedList

  function Pushed<T>(q: seq<T>, x: T): seq<T> {
    q + [x]
  }

  function Peeked<T>(q: seq<T>): Option<T> {
    if q == [] then None else Some(q[0])
  }

  /** Popping an empty queue does nothing. */
  function Popped<T>(q: seq<T>): seq<T> {
    if q == [] then [] else q[1..]
  }

  /** First in, first out: behind any elements pushed after it, the first is peeked and popped. */
  lemma FirstIsFirst<T>(q: seq<T>, x: T)
    ensures Peeked(Pushed(q, x)) == if q == [] then Some(x) else Peeked(q)
    ensures Popped(Pushed(q, x)) == if q == [] then [] else Pushed(Popped(q), x)
    ensures Peeked<T>([]) == None && Popped<T>([]) == []
  {
  }

  class Queue<T> {
    const list: List<T>
    ghost var contents: seq<T>
    ghost var Repr: set<object>

    ghost predicate Valid()
      reads this, Repr
      ensures Valid() ==> this in Repr
    {
      && this in Repr && list in Repr && (forall n | n in list.spine :: n in Repr)
      && list.Valid() && list.Contents() == contents
    }

    constructor ()
      ensures Valid() && contents == [] && fresh(Repr)
    {
      list := new List<T>();
      contents := [];
      new;
      Repr := {this, list};
    }

    method Push(x: T)
      requires Valid()
      modifies Repr
      ensures Valid() && fresh(Repr - old(Repr))
      ensures contents == Pushed(old(contents), x)
    {
      list.Insert(list.length, x);
      contents := contents + [x];
      Repr := Repr + set n: object | n in list.spine;
    }

    method Peek() returns (x: Option<T>)
      requires Valid()
      ensures x == Peeked(contents)
    {
      x := list.Retrieve(0);
    }

    method Pop()
      requires Valid()
      modifies Repr
      ensures Valid() && fresh(Repr - old(Repr))
      ensures contents == Popped(old(contents))
    {
      list.Remove(0);
      contents := Popped(contents);
    }
  }
}
