/** Sorting and searching a linked list: bubble_sort_ll and binary_search_ll. */
module ListSearch {
  import opened LinkedList

  ghost predicate Occurs<T>(s: seq<T>, query: T, cmp: (T, T) -> int) {
    exists i | 0 <= i < |s| :: cmp(s[i], query) == 0
  }

  /** Everything before lo is smaller than the query, everything from hi on is larger. */
  ghost predicate Bracketed<T>(s: seq<T>, query: T, cmp: (T, T) -> int, lo: int, hi: int) {
    && (forall i | 0 <= i < lo && i < |s| :: cmp(s[i], query) == -1)
    && (forall i | hi <= i < |s| && 0 <= i :: cmp(s[i], query) == 1)
  }

  lemma SmallerUpTo<T(!new)>(s: seq<T>, query: T, cmp: (T, T) -> int, p: nat)
    requires Comparator(cmp) && Sorted(s, cmp) && p < |s| && cmp(s[p], query) == -1
    ensures forall i | 0 <= i <= p :: cmp(s[i], query) == -1
  {
    forall i | 0 <= i <= p
      ensures cmp(s[i], query) == -1
    {
      assert cmp(s[i], s[p]) <= 0 && cmp(query, s[p]) == 1;
      assert cmp(query, s[i]) == -cmp(s[i], query);
    }
  }

  lemma LargerFrom<T(!new)>(s: seq<T>, query: T, cmp: (T, T) -> int, p: nat)
    requires Comparator(cmp) && Sorted(s, cmp) && p < |s| && cmp(s[p], query) == 1
    ensures forall i | p <= i < |s| :: cmp(s[i], query) == 1
  {
    forall i | p <= i < |s|
      ensures cmp(s[i], query) == 1
    {
      assert cmp(s[p], s[i]) <= 0;
    }
  }

  lemma Narrow<T(!new)>(s: seq<T>, query: T, cmp: (T, T) -> int, lo: nat, hi: nat, p: nat)
    requires Comparator(cmp) && Sorted(s, cmp) && p < |s| && Bracketed(s, query, cmp, lo, hi)
    ensures cmp(s[p], query) in {-1, 0, 1}
    ensures cmp(s[p], query) == 1 ==> Bracketed(s, query, cmp, lo, p)
    ensures cmp(s[p], query) == -1 ==> Bracketed(s, query, cmp, p + 1, hi)
    ensures cmp(s[p], query) == 0 ==> Occurs(s, query, cmp)
  {
    if cmp(s[p], query) == 1 {
      LargerFrom(s, query, cmp, p);
    }
    if cmp(s[p], query) == -1 {
      SmallerUpTo(s, query, cmp, p);
    }
  }

  lemma NothingLeft<T>(s: seq<T>, query: T, cmp: (T, T) -> int, lo: nat, hi: nat)
    requires Bracketed(s, query, cmp, lo, hi) && lo >= hi
    ensures !Occurs(s, query, cmp)
  {
    forall i | 0 <= i < |s|
      ensures cmp(s[i], query) != 0
    {
      assert i < lo || hi <= i;
    }
  }

  /** What one probe says, with the source's two comparisons in their order. */
  method Probe<T(!new)>(list: List<T>, position: nat, query: T, cmp: (T, T) -> int, ghost lo: nat, ghost hi: nat)
    returns (order: int)
    requires list.Valid() && Comparator(cmp) && Sorted(list.Contents(), cmp) && position < |list.spine|
    requires Bracketed(list.Contents(), query, cmp, lo, hi)
    ensures order in {-1, 0, 1}
    ensures order == 1 ==> Bracketed(list.Contents(), query, cmp, lo, position)
    ensures order == -1 ==> Bracketed(list.Contents(), query, cmp, position + 1, hi)
    ensures order == 0 ==> Occurs(list.Contents(), query, cmp)
  {
    Narrow(list.Contents(), query, cmp, lo, hi, position);
    var data := list.Retrieve(position);
    if cmp(data.value, query) == 1 {
      order := 1;
    } else if cmp(data.value, query) == -1 {
      order := -1;
    } else {
      order := 0;
    }
  }

  /**
   * binary_search_ll. The bounds move to the probed position itself, not past it, so the loop ends
   * by its break statements; it still answers whether an equal element exists.
   */
  method BinarySearch<T(!new)>(list: List<T>, query: T, cmp: (T, T) -> int) returns (found: bool)
    requires list.Valid() && Comparator(cmp) && Sorted(list.Contents(), cmp)
    ensures found <==> Occurs(list.Contents(), query, cmp)
  {
    var position: nat, min: nat, max: nat := list.length / 2, 0, list.length;
    ghost var lo: nat := 0;
    while max > min
      invariant min <= max <= |list.spine| && (max > min ==> min <= position < max)
      invariant min <= lo <= min + 1 && Bracketed(list.Contents(), query, cmp, lo, max)
      decreases 2 * (max - min) + (if position == min then 1 else 0)
    {
      var order := Probe(list, position, query, cmp, lo, max);
      if order == 1 {
        max := position;
        if position != (min + position) / 2 {
          position := (min + position) / 2;
        } else {
          break;
        }
      } else if order == -1 {
        min, lo := position, position + 1;
        if position != (max + position) / 2 {
          position := (max + position) / 2;
        } else {
          break;
        }
      } else {
        return true;
      }
    }
    NothingLeft(list.Contents(), query, cmp, lo, max);
    found := false;
  }

  // ----- Sorting -----

  ghost predicate SameElements<T>(s: seq<T>, t: seq<T>) {
    multiset(s) == multiset(t)
  }

  /** The elements before a are in their final places. */
  ghost predicate Settled<T>(s: seq<T>, cmp: (T, T) -> int, a: nat) {
    forall i, j {:trigger cmp(s[i], s[j])} | 0 <= i < a && i <= j < |s| :: cmp(s[i], s[j]) <= 0
  }

  /** Element a is no larger than those strictly between a and b. */
  ghost predicate LeastUpTo<T>(s: seq<T>, cmp: (T, T) -> int, a: nat, b: nat)
    requires a < |s|
  {
    forall j | a <= j < b && j < |s| :: cmp(s[a], s[j]) <= 0
  }

  function Swapped<T>(s: seq<T>, a: nat, b: nat): seq<T>
    requires a < b < |s|
  {
    s[a := s[b]][b := s[a]]
  }

  lemma SwapKeeps<T(!new)>(s: seq<T>, cmp: (T, T) -> int, a: nat, b: nat)
    requires Comparator(cmp) && a < b < |s| && Settled(s, cmp, a) && LeastUpTo(s, cmp, a, b)
    requires cmp(s[a], s[b]) > 0
    ensures Settled(Swapped(s, a, b), cmp, a) && LeastUpTo(Swapped(s, a, b), cmp, a, b + 1)
    ensures SameElements(Swapped(s, a, b), s)
  {
    var t := Swapped(s, a, b);
    assert cmp(s[b], s[a]) <= 0;
    forall j | a <= j < b + 1
      ensures cmp(t[a], t[j]) <= 0
    {
      if a < j < b {
        assert cmp(s[a], s[j]) <= 0;
      }
      assert cmp(s[b], s[b]) == -cmp(s[b], s[b]);
    }
  }

  method SwapData<T>(list: List<T>, i: Node<T>, j: Node<T>, ghost a: nat, ghost b: nat)
    requires list.Valid() && a < b < |list.spine| && i == list.spine[a] && j == list.spine[b]
    modifies i, j
    ensures list.Valid() && list.spine == old(list.spine)
    ensures list.Contents() == Swapped(old(list.Contents()), a, b)
  {
    var temp := i.data;
    i.data := j.data;
    j.data := temp;
    assert forall k | 0 <= k < |list.spine| :: list.spine[k].next == old(list.spine[k].next);
  }

  lemma NoSwapKeeps<T(!new)>(s: seq<T>, cmp: (T, T) -> int, a: nat, b: nat)
    requires a < b < |s| && LeastUpTo(s, cmp, a, b) && cmp(s[a], s[b]) <= 0
    ensures LeastUpTo(s, cmp, a, b + 1)
  {
  }

  /** The inner loop has compared element a with those before b. */
  ghost predicate InPass<T>(list: List<T>, cmp: (T, T) -> int, a: nat, b: nat)
    reads list, list.spine
  {
    && list.Valid() && a < b <= |list.spine|
    && Settled(list.Contents(), cmp, a) && LeastUpTo(list.Contents(), cmp, a, b)
  }

  method CompareExchange<T(!new)>(list: List<T>, i: Node<T>, j: Node<T>, cmp: (T, T) -> int, ghost a: nat, ghost b: nat)
    returns (next: Node?<T>)
    requires Comparator(cmp) && InPass(list, cmp, a, b) && b < |list.spine|
    requires i == list.spine[a] && j == list.spine[b]
    modifies i, j
    ensures InPass(list, cmp, a, b + 1) && list.spine == old(list.spine) && next == After(list.spine, b)
    ensures SameElements(list.Contents(), old(list.Contents()))
  {
    if cmp(i.data, j.data) > 0 {
      SwapKeeps(list.Contents(), cmp, a, b);
      SwapData(list, i, j, a, b);
    } else {
      NoSwapKeeps(list.Contents(), cmp, a, b);
    }
    assert j == list.spine[b] && j.next == After(list.spine, b);
    next := j.next;
  }

  lemma LeastIsSettled<T(!new)>(s: seq<T>, cmp: (T, T) -> int, a: nat)
    requires a < |s| && Settled(s, cmp, a) && LeastUpTo(s, cmp, a, |s|)
    ensures Settled(s, cmp, a + 1)
  {
  }

  lemma LeastOfOne<T(!new)>(s: seq<T>, cmp: (T, T) -> int, a: nat)
    requires Comparator(cmp) && a < |s|
    ensures LeastUpTo(s, cmp, a, a + 1)
  {
    assert cmp(s[a], s[a]) == -cmp(s[a], s[a]);
  }

  lemma PassStarts<T(!new)>(list: List<T>, cmp: (T, T) -> int, a: nat)
    requires list.Valid() && Comparator(cmp) && a < |list.spine| && Settled(list.Contents(), cmp, a)
    ensures InPass(list, cmp, a, a + 1)
  {
    LeastOfOne(list.Contents(), cmp, a);
  }

  lemma PassEnds<T(!new)>(list: List<T>, cmp: (T, T) -> int, a: nat)
    requires InPass(list, cmp, a, |list.spine|)
    ensures Settled(list.Contents(), cmp, a + 1)
  {
    LeastIsSettled(list.Contents(), cmp, a);
  }

  /** One pass of the inner loop, over the node at index a and all later ones. */
  method SelectLeast<T(!new)>(list: List<T>, i: Node<T>, cmp: (T, T) -> int, ghost a: nat)
    requires list.Valid() && Comparator(cmp) && a < |list.spine| && i == list.spine[a]
    requires Settled(list.Contents(), cmp, a)
    modifies list.spine
    ensures list.Valid() && list.spine == old(list.spine)
    ensures Settled(list.Contents(), cmp, a + 1)
    ensures SameElements(list.Contents(), old(list.Contents()))
  {
    ghost var b, values := a + 1, list.Contents();
    assert i.next == After(list.spine, a);
    var j := i.next;
    PassStarts(list, cmp, a);
    while j != null
      invariant InPass(list, cmp, a, b) && list.spine == old(list.spine) && j == After(list.spine, b - 1)
      invariant SameElements(list.Contents(), values)
      decreases |list.spine| - b
    {
      j := CompareExchange(list, i, j, cmp, a, b);
      b := b + 1;
    }
    PassEnds(list, cmp, a);
  }

  /** bubble_sort_ll, with its outer loop starting at the head node. */
  method BubbleSort<T(!new)>(list: List<T>, cmp: (T, T) -> int)
    requires list.Valid() && Comparator(cmp)
    modifies list.spine
    ensures list.Valid() && list.spine == old(list.spine)
    ensures Sorted(list.Contents(), cmp)
    ensures SameElements(list.Contents(), old(list.Contents()))
  {
    var i := list.head;
    ghost var a := 0;
    while i != null
      invariant list.Valid() && list.spine == old(list.spine)
      invariant 0 <= a <= |list.spine|
      invariant i == if a < |list.spine| then list.spine[a] else null
      invariant Settled(list.Contents(), cmp, a)
      invariant SameElements(list.Contents(), old(list.Contents()))
      decreases |list.spine| - a
    {
      SelectLeast(list, i, cmp, a);
      assert i.next == After(list.spine, a);
      i := i.next;
      a := a + 1;
    }
  }

  lemma OccursThere<T(!new)>(s: seq<T>, t: seq<T>, query: T, cmp: (T, T) -> int)
    requires SameElements(s, t) && Occurs(s, query, cmp)
    ensures Occurs(t, query, cmp)
  {
    var i :| 0 <= i < |s| && cmp(s[i], query) == 0;
    assert s[i] in multiset(t);
    assert s[i] in t;
  }

  lemma OccurrenceIsInvariant<T(!new)>(s: seq<T>, t: seq<T>, query: T, cmp: (T, T) -> int)
    requires SameElements(s, t)
    ensures Occurs(s, query, cmp) <==> Occurs(t, query, cmp)
  {
    if Occurs(s, query, cmp) {
      OccursThere(s, t, query, cmp);
    }
    if Occurs(t, query, cmp) {
      OccursThere(t, s, query, cmp);
    }
  }

  /** Sorting and then searching decides membership in the list as it was. */
  method SortThenSearch<T(!new)>(list: List<T>, query: T, cmp: (T, T) -> int) returns (found: bool)
    requires list.Valid() && Comparator(cmp)
    modifies list.spine
    ensures list.Valid() && SameElements(list.Contents(), old(list.Contents()))
    ensures found <==> Occurs(old(list.Contents()), query, cmp)
  {
    ghost var was := list.Contents();
    BubbleSort(list, cmp);
    ghost var now := list.Contents();
    found := BinarySearch(list, query, cmp);
    OccurrenceIsInvariant(was, now, query, cmp);
  }
}
