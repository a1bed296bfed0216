/** The circular doubly linked list of ntg_queue.h and the two algorithms of ntg_queue.c on it. */
module Queue {
  import opened QueueSort
  import opened Sequences

  /** ntg_queue_t: an element, or the sentinel of a queue. */
  class Link {
    var prev: Link?
    var next: Link?
    constructor ()
      ensures prev == null && next == null
    {
      prev, next := null, null;
    }
  }

  type Pointers = map<Link, Link?>

  /** The i-th element; the sentinel h stands at both ends. */
  ghost function At(h: Link, s: seq<Link>, i: int): Link { if 0 <= i < |s| then s[i] else h }

  /** The i-th link and the next one point at each other. */
  ghost predicate Hop(nx: Pointers, pv: Pointers, h: Link, s: seq<Link>, i: int)
  {
    var a, b := At(h, s, i), At(h, s, i + 1);
    a in nx && b in pv && nx[a] == b && pv[b] == a
  }

  ghost predicate Distinct(h: Link, s: seq<Link>) {
    h !in s && forall i, j {:trigger s[i], s[j]} :: 0 <= i < j < |s| ==> s[i] != s[j]
  }

  /** The links form one circle: the sentinel, then the elements of s in order. */
  ghost predicate Ring(nx: Pointers, pv: Pointers, h: Link, s: seq<Link>) {
    Distinct(h, s) && forall i {:trigger Hop(nx, pv, h, s, i)} :: -1 <= i < |s| ==> Hop(nx, pv, h, s, i)
  }

  lemma AtDistinct(h: Link, s: seq<Link>, i: int, j: int)
    requires Distinct(h, s) && -1 <= i < |s| && -1 <= j < |s|
    ensures At(h, s, i) == At(h, s, j) <==> i == j
  {
  }

  /** Taking an element out by joining its neighbours. */
  lemma RemoveKeeps(nx: Pointers, pv: Pointers, h: Link, s: seq<Link>, k: int)
    requires Ring(nx, pv, h, s) && 0 <= k < |s|
    ensures var a, b := At(h, s, k - 1), At(h, s, k + 1); Ring(nx[a := b], pv[b := a], h, Without(s, k))
  {
    var a, b, t := At(h, s, k - 1), At(h, s, k + 1), Without(s, k);
    var nx', pv' := nx[a := b], pv[b := a];
    forall i | -1 <= i < |t| ensures Hop(nx', pv', h, t, i) {
      var j := if i < k then i else i + 1;
      assert Hop(nx, pv, h, s, j);
      assert At(h, t, i) == At(h, s, j) && (i != k - 1 ==> At(h, t, i + 1) == At(h, s, j + 1));
      AtDistinct(h, s, j, k - 1);
      if j + 1 < |s| { AtDistinct(h, s, j + 1, if k + 1 < |s| then k + 1 else -1); }
      else { AtDistinct(h, s, -1, if k + 1 < |s| then k + 1 else -1); }
    }
  }

  /** Putting x behind the link at position k - 1. */
  lemma InsertKeeps(nx: Pointers, pv: Pointers, h: Link, s: seq<Link>, k: int, x: Link)
    requires Ring(nx, pv, h, s) && 0 <= k <= |s| && x !in s && x != h
    ensures var a, b := At(h, s, k - 1), At(h, s, k);
            Ring(nx[x := b][a := x], pv[b := x][x := a], h, With(s, k, x))
  {
    var a, b, t := At(h, s, k - 1), At(h, s, k), With(s, k, x);
    var nx', pv' := nx[x := b][a := x], pv[b := x][x := a];
    forall i | -1 <= i < |t| ensures Hop(nx', pv', h, t, i) {
      var j := if i < k then i else i - 1;
      assert Hop(nx, pv, h, s, j);
      assert i != k ==> At(h, t, i) == At(h, s, j);
      assert i != k - 1 ==> At(h, t, i + 1) == At(h, s, j + 1);
      AtDistinct(h, s, j, k - 1);
      if j + 1 < |s| { AtDistinct(h, s, j + 1, if k < |s| then k else -1); }
      else { AtDistinct(h, s, -1, if k < |s| then k else -1); }
    }
  }

  ghost function Nexts(links: set<Link>): Pointers
    reads links`next
  {
    map x | x in links :: x.next
  }

  ghost function Prevs(links: set<Link>): Pointers
    reads links`prev
  {
    map x | x in links :: x.prev
  }

  /** ntg_queue_remove; the pointers of x itself stay as they were. */
  method Remove(x: Link, ghost links: set<Link>)
    requires x.prev != null && x.prev in links && x.next != null && x.next in links && x.next != x && x.prev != x
    modifies links`prev, links`next
    ensures Nexts(links) == old(Nexts(links))[old(x.prev) := old(x.next)]
    ensures Prevs(links) == old(Prevs(links))[old(x.next) := old(x.prev)]
  {
    x.next.prev := x.prev;
    x.prev.next := x.next;
  }

  /** ntg_queue_insert_after */
  method InsertAfter(h: Link, x: Link, ghost links: set<Link>)
    requires h in links && x in links && h != x && h.next != null && h.next in links && h.next != x
    modifies links`prev, links`next
    ensures Nexts(links) == old(Nexts(links))[x := old(h.next)][h := x]
    ensures Prevs(links) == old(Prevs(links))[old(h.next) := x][x := h]
  {
    x.next := h.next;
    x.next.prev := x;
    x.prev := h;
    h.next := x;
  }

  /** cmp looks at what the elements are embedded in, never at the pointers of the list, and answers as
      key does. */
  ghost predicate Answers(cmp: (Link, Link) ~> int, key: (Link, Link) -> int, links: set<Link>)
    reads *
  {
    forall x, y | x in links && y in links ::
      cmp.requires(x, y) && (forall o | o in cmp.reads(x, y) :: o !in links) && cmp(x, y) == key(x, y)
  }

  /** Relinking does not change the answers. */
  method RemoveAside(x: Link, ghost cmp: (Link, Link) ~> int, ghost key: (Link, Link) -> int, ghost links: set<Link>)
    requires Answers(cmp, key, links)
    requires x.prev != null && x.prev in links && x.next != null && x.next in links && x.next != x && x.prev != x
    modifies links`prev, links`next
    ensures Answers(cmp, key, links)
    ensures Nexts(links) == old(Nexts(links))[old(x.prev) := old(x.next)]
    ensures Prevs(links) == old(Prevs(links))[old(x.next) := old(x.prev)]
  {
    hide Nexts, Prevs;
    Remove(x, links);
  }

  method InsertAside(h: Link, x: Link, ghost cmp: (Link, Link) ~> int, ghost key: (Link, Link) -> int, ghost links: set<Link>)
    requires Answers(cmp, key, links)
    requires h in links && x in links && h != x && h.next != null && h.next in links && h.next != x
    modifies links`prev, links`next
    ensures Answers(cmp, key, links)
    ensures Nexts(links) == old(Nexts(links))[x := old(h.next)][h := x]
    ensures Prevs(links) == old(Prevs(links))[old(h.next) := x][x := h]
  {
    hide Nexts, Prevs;
    InsertAfter(h, x, links);
  }

  class Queue {
    const sentinel: Link
    ghost var order: seq<Link>

    /** ntg_queue_init */
    constructor (h: Link)
      modifies h
      ensures sentinel == h && order == [] && Valid()
    {
      sentinel := h;
      order := [];
      new;
      h.prev := h;
      h.next := h;
      assert Hop(Nexts(Links()), Prevs(Links()), h, [], -1);
    }

    ghost function Links(): set<Link>
      reads this`order
    {
      {sentinel} + Elements(order)
    }

    ghost predicate Valid()
      reads this`order, Links()
    {
      Ring(Nexts(Links()), Prevs(Links()), sentinel, order)
    }

    /** Where the pointers of the i-th link lead. */
    lemma Neighbours(links: set<Link>, s: seq<Link>, i: int)
      requires Ring(Nexts(links), Prevs(links), sentinel, s) && -1 <= i < |s|
      ensures At(sentinel, s, i) in links && At(sentinel, s, i).next == At(sentinel, s, i + 1)
      ensures At(sentinel, s, i + 1) in links && At(sentinel, s, i + 1).prev == At(sentinel, s, i)
    {
      assert Hop(Nexts(links), Prevs(links), sentinel, s, i);
    }

    /** ntg_queue_middle: of n elements, the one that floor(n / 2) others stand before. */
    method Middle() returns (middle: Link?)
      requires Valid()
      ensures middle == if order == [] then sentinel else order[|order| / 2]
    {
      ghost var n := |order|;
      Neighbours(Links(), order, -1);
      Neighbours(Links(), order, n - 1);
      middle := sentinel.next;
      if middle == sentinel.prev {
        if n > 0 { AtDistinct(sentinel, order, 0, n - 1); }
        return;
      }
      var next := sentinel.next;
      ghost var k := 0;
      while true
        invariant 0 <= k && 2 * k < n - 1 && middle == order[k] && next == order[2 * k]
        decreases n - k
      {
        Neighbours(Links(), order, k);
        Neighbours(Links(), order, 2 * k);
        middle := middle.next;
        next := next.next;
        k := k + 1;
        AtDistinct(sentinel, order, 2 * k - 1, n - 1);
        if next == sentinel.prev {
          return;
        }
        Neighbours(Links(), order, 2 * k - 1);
        next := next.next;
        AtDistinct(sentinel, order, 2 * k, n - 1);
        if next == sentinel.prev {
          return;
        }
      }
    }

    /** Walks back from the last of the sorted elements to the one that q belongs behind. */
    method FindPlace(cmp: (Link, Link) ~> int, last: Link, q: Link, ghost key: (Link, Link) -> int,
                     ghost s: seq<Link>, ghost k: nat, ghost links: set<Link>)
      returns (prev: Link)
      requires Ring(Nexts(links), Prevs(links), sentinel, s) && 0 < k <= |s| && last == s[k - 1]
      requires q in links && Answers(cmp, key, links)
      ensures prev == At(sentinel, s, Slot(key, s[..k], q) - 1)
    {
      prev := last;
      ghost var j: nat := k;
      while true
        invariant 0 < j <= k && prev == s[j - 1] && Slot(key, s[..k], q) == Slot(key, s[..j], q)
        decreases j
      {
        assert s[..j][..j - 1] == s[..j - 1];
        Neighbours(links, s, j - 1);
        if cmp(prev, q) <= 0 {
          return;
        }
        Neighbours(links, s, j - 2);
        prev := prev.prev;
        j := j - 1;
        if prev == sentinel {
          return;
        }
      }
    }

    lemma Apart(links: set<Link>, s: seq<Link>, k: int)
      requires Ring(Nexts(links), Prevs(links), sentinel, s) && 0 <= k < |s|
      ensures At(sentinel, s, k - 1) != s[k] && At(sentinel, s, k + 1) != s[k] && s[k] != sentinel
      ensures s[k] !in Without(s, k)
      ensures forall i {:trigger At(sentinel, Without(s, k), i)} :: At(sentinel, Without(s, k), i) != s[k]
    {
    }

    /** One turn of the outer loop: the element behind k sorted ones moves to its place among them. */
    method SortOne(cmp: (Link, Link) ~> int, q: Link, ghost key: (Link, Link) -> int,
                   ghost s: seq<Link>, ghost k: nat, ghost links: set<Link>)
      returns (next: Link)
      requires Ring(Nexts(links), Prevs(links), sentinel, s) && 0 < k < |s| && q == s[k] && Answers(cmp, key, links)
      modifies links`prev, links`next
      ensures Answers(cmp, key, links) && Ring(Nexts(links), Prevs(links), sentinel, Inserted(key, s[..k], s[k]) + s[k + 1..])
      ensures next == At(sentinel, s, k + 1)
    {
      hide Ring, Hop, Answers;
      Neighbours(links, s, k - 1);
      Neighbours(links, s, k);
      Apart(links, s, k);
      var prev := q.prev;
      next := q.next;
      ghost var t := Without(s, k);
      RemoveKeeps(Nexts(links), Prevs(links), sentinel, s, k);
      RemoveAside(q, cmp, key, links);
      prev := FindPlace(cmp, prev, q, key, t, k, links);
      assert t[..k] == s[..k];
      ghost var j: int := Slot(key, s[..k], q);
      InsertKeeps(Nexts(links), Prevs(links), sentinel, t, j, q);
      Neighbours(links, t, j - 1);
      InsertAside(prev, q, cmp, key, links);
      assert With(t, j, q) == Inserted(key, s[..k], s[k]) + s[k + 1..];
    }

    /** The first and the last element, read off the sentinel. */
    lemma Ends(links: set<Link>, s: seq<Link>)
      requires Ring(Nexts(links), Prevs(links), sentinel, s)
      ensures sentinel in links && sentinel.next == At(sentinel, s, 0) && sentinel.prev == At(sentinel, s, |s| - 1)
      ensures (sentinel.next == sentinel.prev <==> |s| <= 1) && sentinel !in s
      ensures |s| > 0 ==> s[0] in links && s[0].next == At(sentinel, s, 1)
    {
      Neighbours(links, s, -1);
      Neighbours(links, s, |s| - 1);
      if |s| > 0 {
        Neighbours(links, s, 0);
        AtDistinct(sentinel, s, 0, |s| - 1);
      }
    }

    /** The list once k elements are sorted, and what one more turn makes of it. */
    lemma Turn(cmp: (Link, Link) -> int, s: seq<Link>, k: int)
      requires 0 < k < |s|
      ensures var t := SortedTo(cmp, s, k) + s[k..];
              && |t| == |s| && t[k] == s[k] && At(sentinel, t, k + 1) == At(sentinel, s, k + 1)
              && Inserted(cmp, t[..k], t[k]) + t[k + 1..] == SortedTo(cmp, s, k + 1) + s[k + 1..]
    {
      hide Inserted;
      var t := SortedTo(cmp, s, k) + s[k..];
      assert t[..k] == SortedTo(cmp, s, k) && t[k + 1..] == s[k + 1..];
    }

    lemma First(cmp: (Link, Link) -> int, s: seq<Link>)
      requires |s| > 0
      ensures SortedTo(cmp, s, 1) + s[1..] == s
    {
      assert SortedTo(cmp, s, 0) == [];
      assert Inserted(cmp, [], s[0]) == [s[0]];
    }

    lemma End(cmp: (Link, Link) -> int, s: seq<Link>)
      ensures SortedTo(cmp, s, |s|) + s[|s|..] == SortedTo(cmp, s, |s|)
      ensures Elements(s) == Elements(SortedTo(cmp, s, |s|))
    {
      hide Elements, SortedTo;
      assert s[..|s|] == s;
      SortKeeps(cmp, s, |s|);
      SameElements(s, SortedTo(cmp, s, |s|));
    }

    /** ntg_queue_sort */
    method Sort(cmp: (Link, Link) ~> int, ghost key: (Link, Link) -> int)
      requires Valid() && Answers(cmp, key, Links())
      modifies this`order, Links()
      ensures Valid() && order == SortedTo(key, old(order), |old(order)|)
    {
      hide Ring, Answers, Inserted, SortedTo, Elements;
      ghost var s, n, links := order, |order|, Links();
      Ends(links, s);
      End(key, s);
      if n > 0 { First(key, s); }
      var q := sentinel.next;
      if q == sentinel.prev {
        order := SortedTo(key, s, n);
        return;
      }
      q := q.next;
      ghost var k, t := 1, s;
      while q != sentinel
        invariant 1 <= k <= n && t == SortedTo(key, s, k) + s[k..] && q == At(sentinel, s, k)
        invariant Answers(cmp, key, links) && Ring(Nexts(links), Prevs(links), sentinel, t)
        modifies links
        decreases n - k
      {
        Turn(key, s, k);
        q := SortOne(cmp, q, key, t, k, links);
        t := SortedTo(key, s, k + 1) + s[k + 1..];
        k := k + 1;
      }
      order := SortedTo(key, s, n);
    }
  }
}
