/** ntg_queue.c: the insertion sort and the middle search on a circular doubly linked list. */
module QueueSort {

  // ----- what the sort does to the order of the elements

  /** Behind the last element of pre that does not compare greater than q. */
  function Slot<T>(cmp: (T, T) -> int, pre: seq<T>, q: T): (k: nat)
    ensures k <= |pre|
  {
    if pre == [] then 0
    else if cmp(pre[|pre| - 1], q) <= 0 then |pre|
    else Slot(cmp, pre[..|pre| - 1], q)
  }

  function Inserted<T>(cmp: (T, T) -> int, pre: seq<T>, q: T): (r: seq<T>)
    ensures |r| == |pre| + 1
  {
    var k := Slot(cmp, pre, q);
    pre[..k] + [q] + pre[k..]
  }

  /** The first n elements of s, sorted by insertion. */
  function SortedTo<T>(cmp: (T, T) -> int, s: seq<T>, n: nat): (r: seq<T>)
    requires n <= |s|
    ensures |r| == n
  {
    if n == 0 then [] else Inserted(cmp, SortedTo(cmp, s, n - 1), s[n - 1])
  }

  /** cmp is a total preorder on the elements of s. */
  ghost predicate Preorder<T>(cmp: (T, T) -> int, s: seq<T>) {
    && (forall x, y {:trigger cmp(x, y)} | x in s && y in s :: cmp(x, y) <= 0 || cmp(y, x) <= 0)
    && (forall x, y, z {:trigger cmp(x, y), cmp(y, z)} | x in s && y in s && z in s ::
          cmp(x, y) <= 0 && cmp(y, z) <= 0 ==> cmp(x, z) <= 0)
  }

  /** x stands before y among the first n elements of s. */
  ghost predicate Precedes<T>(s: seq<T>, n: int, x: T, y: T) {
    exists a, b :: 0 <= a < b < n <= |s| && s[a] == x && s[b] == y
  }

  /** r is in order, and elements that compare equal stand as they stood in s. */
  ghost predicate StablySorted<T>(cmp: (T, T) -> int, s: seq<T>, n: int, r: seq<T>) {
    forall i, j {:trigger r[i], r[j]} :: 0 <= i < j < |r| ==>
      cmp(r[i], r[j]) <= 0 && (cmp(r[j], r[i]) <= 0 ==> Precedes(s, n, r[i], r[j]))
  }

  lemma {:induction false} SlotLaw<T>(cmp: (T, T) -> int, pre: seq<T>, q: T)
    ensures var k := Slot(cmp, pre, q);
            && (k > 0 ==> cmp(pre[k - 1], q) <= 0) && (forall i :: k <= i < |pre| ==> cmp(pre[i], q) > 0)
    decreases |pre|
  {
    if pre != [] && cmp(pre[|pre| - 1], q) > 0 { SlotLaw(cmp, pre[..|pre| - 1], q); }
  }

  /** Where an element of the longer sequence came from: -1 for the inserted one. */
  function From(k: int, i: int): int { if i < k then i else if i == k then -1 else i - 1 }

  lemma InsertionAt<T>(cmp: (T, T) -> int, pre: seq<T>, q: T, i: int)
    requires 0 <= i <= |pre|
    ensures var k := Slot(cmp, pre, q); Inserted(cmp, pre, q)[i] == if i == k then q else pre[From(k, i)]
  {
  }

  lemma InsertionOrders<T>(cmp: (T, T) -> int, s: seq<T>, n: nat, pre: seq<T>, i: int, j: int)
    requires n < |s| && Preorder(cmp, s) && StablySorted(cmp, s, n, pre) && multiset(pre) == multiset(s[..n])
    requires 0 <= i < j <= |pre|
    ensures var r := Inserted(cmp, pre, s[n]);
            cmp(r[i], r[j]) <= 0 && (cmp(r[j], r[i]) <= 0 ==> Precedes(s, n + 1, r[i], r[j]))
  {
    hide Inserted, Slot, Precedes;
    var k, q := Slot(cmp, pre, s[n]), s[n];
    SlotLaw(cmp, pre, q);
    InsertionAt(cmp, pre, q, i);
    InsertionAt(cmp, pre, q, j);
    var x, y := if i == k then q else pre[From(k, i)], if j == k then q else pre[From(k, j)];
    if j == k {
      ComesFrom(s, n, pre, i);
      assert x in s && q in s;
      if i < k - 1 {
        ComesFrom(s, n, pre, k - 1);
        assert cmp(pre[i], pre[k - 1]) <= 0;
      }
    } else if i == k {
      ComesFrom(s, n, pre, j - 1);
      assert y in s && q in s;
    } else {
      assert cmp(x, y) <= 0 && (cmp(y, x) <= 0 ==> Precedes(s, n, x, y));
      PrecedesStill(s, n, x, y);
    }
  }

  lemma PrecedesStill<T>(s: seq<T>, n: int, x: T, y: T)
    requires n < |s|
    ensures Precedes(s, n, x, y) ==> Precedes(s, n + 1, x, y)
  {
  }

  lemma ComesFrom<T>(s: seq<T>, n: nat, pre: seq<T>, i: int)
    requires n < |s| && multiset(pre) == multiset(s[..n]) && 0 <= i < |pre|
    ensures pre[i] in s && Precedes(s, n + 1, pre[i], s[n])
  {
    assert pre[i] in multiset(pre);
    assert pre[i] in s[..n];
    var a :| 0 <= a < n && s[..n][a] == pre[i];
    assert s[a] == pre[i];
  }

  lemma InsertionSorted<T>(cmp: (T, T) -> int, s: seq<T>, n: nat, pre: seq<T>)
    requires n < |s| && Preorder(cmp, s) && StablySorted(cmp, s, n, pre) && multiset(pre) == multiset(s[..n])
    ensures StablySorted(cmp, s, n + 1, Inserted(cmp, pre, s[n]))
  {
    hide Preorder, Precedes, Slot;
    var r := Inserted(cmp, pre, s[n]);
    forall i, j | 0 <= i < j < |r|
      ensures cmp(r[i], r[j]) <= 0 && (cmp(r[j], r[i]) <= 0 ==> Precedes(s, n + 1, r[i], r[j]))
    {
      InsertionOrders(cmp, s, n, pre, i, j);
    }
  }

  lemma InsertionKeeps<T>(cmp: (T, T) -> int, pre: seq<T>, q: T)
    ensures multiset(Inserted(cmp, pre, q)) == multiset(pre) + multiset{q}
  {
    hide Slot;
    var k := Slot(cmp, pre, q);
    assert pre == pre[..k] + pre[k..];
  }

  /** Whatever cmp is, no element is lost or made up. */
  lemma {:induction false} SortKeeps<T>(cmp: (T, T) -> int, s: seq<T>, n: nat)
    requires n <= |s|
    ensures multiset(SortedTo(cmp, s, n)) == multiset(s[..n])
    decreases n
  {
    hide Inserted;
    if n > 0 {
      SortKeeps(cmp, s, n - 1);
      InsertionKeeps(cmp, SortedTo(cmp, s, n - 1), s[n - 1]);
      assert s[..n] == s[..n - 1] + [s[n - 1]];
    }
  }

  /** The insertion sort is a stable sort. */
  lemma {:induction false} SortLaw<T>(cmp: (T, T) -> int, s: seq<T>, n: nat)
    requires n <= |s| && Preorder(cmp, s)
    ensures StablySorted(cmp, s, n, SortedTo(cmp, s, n))
    decreases n
  {
    hide Preorder, Inserted;
    if n > 0 {
      SortLaw(cmp, s, n - 1);
      SortKeeps(cmp, s, n - 1);
      InsertionSorted(cmp, s, n - 1, SortedTo(cmp, s, n - 1));
    }
  }
}
