/** The child list of an object as cJSON.c keeps it: items linked both ways, which cJSON_Utils.c sorts
    by relinking. */
module JsonList {
  import opened JsonText
  import opened Sequences
  import P = JsonPatch

  /** A cJSON item in a child list; its value is not looked into here. */
  class Item {
    const name: string
    const value: Json
    var next: Item?
    var prev: Item?

    constructor (name: string, value: Json)
      ensures this.name == name && this.value == value && next == null && prev == null
    {
      this.name, this.value, next, prev := name, value, null, null;
    }
  }

  // ----- what is done to the order of the items

  /** The list as a value. */
  function Listed(s: seq<Item>): Members {
    if s == [] then NoMember else Member(s[0].name, s[0].value, Listed(s[1..]))
  }

  predicate Less(a: Item, b: Item) { P.CaseCmp(a.name, b.name) < 0 }

  predicate Rising(s: seq<Item>) { forall i :: 0 <= i < |s| - 1 ==> Less(s[i], s[i + 1]) }

  function Merged(a: seq<Item>, b: seq<Item>): seq<Item>
    decreases |a| + |b|
  {
    if a == [] then b
    else if b == [] then a
    else if Less(a[0], b[0]) then [a[0]] + Merged(a[1..], b)
    else [b[0]] + Merged(a, b[1..])
  }

  function Sorted(s: seq<Item>): seq<Item>
    decreases |s|
  {
    if |s| < 2 || Rising(s) then s
    else
      var half := (|s| + 1) / 2;
      Merged(Sorted(s[..half]), Sorted(s[half..]))
  }

  lemma {:induction false} ListedLength(s: seq<Item>)
    ensures P.Length(Listed(s)) == |s|
    decreases |s|
  {
    if s != [] { ListedLength(s[1..]); }
  }

  lemma {:induction false} ListedHalves(s: seq<Item>, n: nat)
    requires n <= |s|
    ensures P.Take(Listed(s), n) == Listed(s[..n]) && P.Drop(Listed(s), n) == Listed(s[n..])
    decreases n
  {
    if n > 0 {
      ListedHalves(s[1..], n - 1);
      assert s[..n][1..] == s[1..][..n - 1] && s[n..] == s[1..][n - 1..];
    } else {
      assert s[0..] == s && s[..0] == [];
    }
  }

  lemma {:induction false} ListedRising(s: seq<Item>)
    ensures P.IsSorted(Listed(s)) <==> Rising(s)
    decreases |s|
  {
    if |s| > 1 {
      ListedRising(s[1..]);
      assert s[1..][0] == s[1] && Listed(s).next == Listed(s[1..]);
      if Rising(s[1..]) && Less(s[0], s[1]) {
        forall i | 0 <= i < |s| - 1 ensures Less(s[i], s[i + 1]) { assert i > 0 ==> Less(s[1..][i - 1], s[1..][i]); }
      }
      if Rising(s) {
        assert Less(s[0], s[0 + 1]);
        forall i | 0 <= i < |s| - 2 ensures Less(s[1..][i], s[1..][i + 1]) { assert Less(s[i + 1], s[i + 2]); }
      }
    } else if |s| == 1 {
      assert Listed(s[1..]) == NoMember;
    }
  }

  lemma {:induction false} ListedMerged(a: seq<Item>, b: seq<Item>)
    ensures Listed(Merged(a, b)) == P.Merged(Listed(a), Listed(b))
    decreases |a| + |b|
  {
    if a != [] && b != [] {
      if Less(a[0], b[0]) {
        ListedMerged(a[1..], b);
        assert Merged(a, b)[1..] == Merged(a[1..], b);
      } else {
        ListedMerged(a, b[1..]);
        assert Merged(a, b)[1..] == Merged(a, b[1..]);
      }
    }
  }

  /** On values this is the sort of which SortedLaw in JsonPatch speaks. */
  lemma {:induction false} ListedSorted(s: seq<Item>)
    ensures Listed(Sorted(s)) == P.Sorted(Listed(s))
    decreases |s|
  {
    hide Rising;
    ListedLength(s);
    ListedRising(s);
    if |s| >= 2 && !Rising(s) {
      var half := (|s| + 1) / 2;
      ListedHalves(s, half);
      ListedSorted(s[..half]);
      ListedSorted(s[half..]);
      ListedMerged(Sorted(s[..half]), Sorted(s[half..]));
    }
  }

  lemma Counts(s: seq<Item>)
    requires s != []
    ensures multiset(s) == multiset{s[0]} + multiset(s[1..])
  {
    assert s == [s[0]] + s[1..];
  }

  lemma {:induction false} MergedKeeps(a: seq<Item>, b: seq<Item>)
    ensures multiset(Merged(a, b)) == multiset(a) + multiset(b)
    decreases |a| + |b|
  {
    hide Less;
    if a != [] && b != [] {
      Counts(Merged(a, b));
      if Less(a[0], b[0]) {
        Counts(a);
        MergedKeeps(a[1..], b);
      } else {
        Counts(b);
        MergedKeeps(a, b[1..]);
      }
    }
  }

  lemma {:induction false} SortedKeeps(s: seq<Item>)
    ensures multiset(Sorted(s)) == multiset(s) && |Sorted(s)| == |s|
    decreases |s|
  {
    hide Merged, Rising;
    if |s| >= 2 && !Rising(s) {
      var half := (|s| + 1) / 2;
      SortedKeeps(s[..half]);
      SortedKeeps(s[half..]);
      MergedKeeps(Sorted(s[..half]), Sorted(s[half..]));
      assert s == s[..half] + s[half..];
    }
    assert |multiset(Sorted(s))| == |Sorted(s)|;
  }

  // ----- the pointers

  type Pointers = map<Item, Item?>

  /** The i-th item of s, or what comes behind the last. */
  ghost function Nth(s: seq<Item>, i: int, e: Item?): Item? { if 0 <= i < |s| then s[i] else e }

  /** The i-th item points at the next one and, except for the first, at the one before. */
  ghost predicate Hop(nx: Pointers, pv: Pointers, s: seq<Item>, e: Item?, i: int)
    requires 0 <= i < |s|
  {
    s[i] in nx && s[i] in pv && nx[s[i]] == Nth(s, i + 1, e) && (i > 0 ==> pv[s[i]] == s[i - 1])
  }

  ghost predicate Unique(s: seq<Item>) { forall i, j :: 0 <= i < j < |s| ==> s[i] != s[j] }

  /** The items of s in order, the last of which points at e; the first may point back anywhere. */
  ghost predicate Chain(nx: Pointers, pv: Pointers, s: seq<Item>, e: Item?) {
    Unique(s) && forall i {:trigger Hop(nx, pv, s, e, i)} :: 0 <= i < |s| ==> Hop(nx, pv, s, e, i)
  }

  /** The pointers of s, without the first one's back, are all that counts. */
  lemma ChainFrame(nx: Pointers, pv: Pointers, nx': Pointers, pv': Pointers, s: seq<Item>, e: Item?)
    requires Chain(nx, pv, s, e)
    requires forall i {:trigger s[i]} :: 0 <= i < |s| ==>
               && s[i] in nx && s[i] in nx' && nx'[s[i]] == nx[s[i]]
               && s[i] in pv && s[i] in pv' && (i > 0 ==> pv'[s[i]] == pv[s[i]])
    ensures Chain(nx', pv', s, e)
  {
    forall i | 0 <= i < |s| ensures Hop(nx', pv', s, e, i) { assert Hop(nx, pv, s, e, i); }
  }

  /** Cutting before the k-th item. */
  lemma SplitChain(nx: Pointers, pv: Pointers, s: seq<Item>, k: int)
    requires Chain(nx, pv, s, null) && 0 < k < |s|
    ensures s[k] in pv && pv[s[k]] == s[k - 1]
    ensures var nx' := nx[s[k - 1] := null]; Chain(nx', pv, s[..k], null) && Chain(nx', pv, s[k..], null)
  {
    var nx' := nx[s[k - 1] := null];
    assert Hop(nx, pv, s, null, k);
    forall i | 0 <= i < k ensures Hop(nx', pv, s[..k], null, i) { assert Hop(nx, pv, s, null, i); }
    forall i | 0 <= i < |s| - k ensures Hop(nx', pv, s[k..], null, i) { assert Hop(nx, pv, s, null, k + i); }
  }

  /** What follows the items that were appended so far. */
  ghost function Loose(nx: Pointers, done: seq<Item>): Item?
    requires done != [] ==> done[|done| - 1] in nx
  {
    if done == [] then null else nx[done[|done| - 1]]
  }

  /** The merged items, and those left over in the two lists. */
  ghost predicate Merging(nx: Pointers, pv: Pointers, done: seq<Item>, x: seq<Item>, y: seq<Item>) {
    && Unique(done + x + y) && (done != [] ==> done[|done| - 1] in nx)
    && Chain(nx, pv, done, Loose(nx, done)) && Chain(nx, pv, x, null) && Chain(nx, pv, y, null)
  }

  lemma MergingSwaps(nx: Pointers, pv: Pointers, done: seq<Item>, x: seq<Item>, y: seq<Item>)
    requires Merging(nx, pv, done, x, y)
    ensures Merging(nx, pv, done, y, x)
  {
    var s, t, d := done + x + y, done + y + x, |done|;
    forall i, j | 0 <= i < j < |t| ensures t[i] != t[j] {
      var a := if i < d then i else if i < d + |y| then i + |x| else i - |y|;
      var b := if j < d then j else if j < d + |y| then j + |x| else j - |y|;
      assert t[i] == s[a] && t[j] == s[b] && a != b;
    }
  }

  /** The pointers after x[0] was put behind the last of done. */
  ghost function Linked(nx: Pointers, done: seq<Item>, x: seq<Item>): Pointers
    requires x != []
  {
    if done == [] then nx else nx[done[|done| - 1] := x[0]]
  }

  ghost function Backed(pv: Pointers, done: seq<Item>, x: seq<Item>): Pointers
    requires x != []
  {
    if done == [] then pv else pv[x[0] := done[|done| - 1]]
  }

  lemma UniqueApart(s: seq<Item>, i: int, j: int)
    requires Unique(s) && 0 <= i < |s| && 0 <= j < |s|
    ensures s[i] == s[j] <==> i == j
  {
  }

  ghost predicate Same(pv: Pointers, pv': Pointers, x: Item) { x in pv && x in pv' && pv[x] == pv'[x] }

  /** The first of x goes behind the last of done. */
  lemma TurnKeeps(nx: Pointers, pv: Pointers, done: seq<Item>, x: seq<Item>, y: seq<Item>)
    requires Merging(nx, pv, done, x, y) && x != []
    ensures Merging(Linked(nx, done, x), Backed(pv, done, x), done + [x[0]], x[1..], y)
    ensures x[0] in nx && Linked(nx, done, x)[x[0]] == nx[x[0]] == Nth(x[1..], 0, null)
    ensures x[0] in pv && (done != [] ==> Same(Backed(pv, done, x), pv, done[0]))
  {
    var nx', pv', d, s := Linked(nx, done, x), Backed(pv, done, x), |done|, done + x + y;
    var t := done + [x[0]];
    assert t + x[1..] + y == s && t == s[..d + 1];
    assert Hop(nx, pv, x, null, 0);
    if d > 0 {
      assert Hop(nx, pv, done, Loose(nx, done), 0);
      UniqueApart(s, 0, d);
      UniqueApart(s, d - 1, d);
    }
    forall i | 0 <= i <= d ensures Hop(nx', pv', t, Loose(nx', t), i) {
      if i < d {
        assert Hop(nx, pv, done, Loose(nx, done), i);
        UniqueApart(s, i, d);
        UniqueApart(s, i, d - 1);
      } else if d > 0 {
        UniqueApart(s, d, d - 1);
      }
    }
    forall i | 0 <= i < |x| - 1 ensures Hop(nx', pv', x[1..], null, i) {
      assert Hop(nx, pv, x, null, i + 1);
      assert s[d + i + 1] == x[i + 1];
      UniqueApart(s, d + i + 1, d);
      if d > 0 { UniqueApart(s, d + i + 1, d - 1); }
    }
    forall i | 0 <= i < |y| ensures Hop(nx', pv', y, null, i) {
      assert Hop(nx, pv, y, null, i);
      assert s[d + |x| + i] == y[i];
      UniqueApart(s, d + |x| + i, d);
      if d > 0 { UniqueApart(s, d + |x| + i, d - 1); }
    }
  }

  /** The tail that is left over goes behind the last of done. */
  lemma TailKeeps(nx: Pointers, pv: Pointers, done: seq<Item>, x: seq<Item>)
    requires Merging(nx, pv, done, x, []) && x != [] && done != []
    ensures Chain(Linked(nx, done, x), Backed(pv, done, x), done + x, null)
    ensures Same(Backed(pv, done, x), pv, done[0])
  {
    assert Hop(nx, pv, done, Loose(nx, done), 0);
    var nx', pv', d, s := Linked(nx, done, x), Backed(pv, done, x), |done|, done + x;
    assert done + x + [] == s;
    UniqueApart(s, 0, d);
    forall i | 0 <= i < |s| ensures Hop(nx', pv', s, null, i) {
      UniqueApart(s, i, d);
      UniqueApart(s, i, d - 1);
      if i < d { assert Hop(nx, pv, done, Loose(nx, done), i); } else { assert Hop(nx, pv, x, null, i - d); }
    }
  }

  // ----- methods

  ghost function Nexts(links: set<Item>): Pointers
    reads links`next
  {
    map x | x in links :: x.next
  }

  ghost function Prevs(links: set<Item>): Pointers
    reads links`prev
  {
    map x | x in links :: x.prev
  }

  ghost function Last(s: seq<Item>): Item? { if s == [] then null else s[|s| - 1] }

  /** Hangs x, the first of xs, behind ptr, the last of the items merged so far. */
  method Append(list: Item?, ptr: Item?, x: Item, ghost done: seq<Item>, ghost xs: seq<Item>, ghost links: set<Item>)
    returns (head: Item, last: Item)
    requires list == Nth(done, 0, null) && ptr == Last(done) && xs != [] && x == xs[0]
    requires x in links && Elements(done) <= links
    modifies links`next, links`prev
    ensures Nexts(links) == Linked(old(Nexts(links)), done, xs) && Prevs(links) == Backed(old(Prevs(links)), done, xs)
    ensures head == (done + [x])[0] && last == x
  {
    if list == null {
      head, last := x, x;
    } else {
      ptr.next := x;
      x.prev := ptr;
      head, last := list, x;
    }
  }

  lemma Pointer(x: Item, links: set<Item>)
    requires x in links
    ensures Nexts(links)[x] == x.next && Prevs(links)[x] == x.prev
  {
  }

  lemma AllPrevs(links: set<Item>)
    ensures forall x | x in links :: x in Prevs(links) && Prevs(links)[x] == x.prev
  {
  }

  lemma MergedEnd(x: seq<Item>, y: seq<Item>)
    ensures (x == [] ==> Merged(x, y) == y) && (y == [] ==> Merged(x, y) == x)
  {
  }

  lemma MergedStep(done: seq<Item>, x: seq<Item>, y: seq<Item>)
    requires x != [] && y != []
    ensures if Less(x[0], y[0]) then (done + [x[0]]) + Merged(x[1..], y) == done + Merged(x, y)
            else (done + [y[0]]) + Merged(x, y[1..]) == done + Merged(x, y)
  {
  }

  /** The merging loop; the head of the result still points back to where it did. */
  method MergeLists(a0: Item, b0: Item, ghost a: seq<Item>, ghost b: seq<Item>, ghost links: set<Item>)
    returns (list: Item)
    requires a != [] && b != [] && a0 == a[0] && b0 == b[0] && links == Elements(a + b)
    requires Merging(Nexts(links), Prevs(links), [], a, b)
    modifies links`next, links`prev
    ensures Chain(Nexts(links), Prevs(links), Merged(a, b), null)
    ensures list == Merged(a, b)[0] && list.prev == old(list.prev)
  {
    hide Merging, Chain, Merged, Nexts, Prevs;
    var first: Item?, second: Item? := a0, b0;
    var head: Item?, ptr: Item? := null, null;
    ghost var done, x, y := [], a, b;
    ghost var pv := Prevs(links);
    assert forall z :: z in links ==> z in pv && pv[z] == z.prev by { AllPrevs(links); }
    assert done + Merged(x, y) == Merged(a, b);
    while first != null && second != null
      invariant Merging(Nexts(links), Prevs(links), done, x, y) && done + Merged(x, y) == Merged(a, b)
      invariant first == Nth(x, 0, null) && second == Nth(y, 0, null) && head == Nth(done, 0, null) && ptr == Last(done)
      invariant Elements(done) <= links && Elements(x) <= links && Elements(y) <= links && (x != [] || y != [])
      invariant if done == [] then x == a && y == b && Prevs(links) == pv else Same(Prevs(links), pv, done[0])
      decreases |x| + |y|
    {
      MergedStep(done, x, y);
      if P.CaseCmp(first.name, second.name) < 0 {
        TurnKeeps(Nexts(links), Prevs(links), done, x, y);
        assert x[0] in links;
        head, ptr := Append(head, ptr, first, done, x, links);
        done, x := done + [x[0]], x[1..];
        Pointer(first, links);
        first := first.next;
      } else {
        MergingSwaps(Nexts(links), Prevs(links), done, x, y);
        TurnKeeps(Nexts(links), Prevs(links), done, y, x);
        assert y[0] in links;
        head, ptr := Append(head, ptr, second, done, y, links);
        done, y := done + [y[0]], y[1..];
        MergingSwaps(Nexts(links), Prevs(links), done, y, x);
        Pointer(second, links);
        second := second.next;
      }
    }
    list := head;
    MergedEnd(x, y);
    if first != null {
      TailKeeps(Nexts(links), Prevs(links), done, x);
      head, ptr := Append(head, ptr, first, done, x, links);
    } else {
      MergingSwaps(Nexts(links), Prevs(links), done, x, y);
      TailKeeps(Nexts(links), Prevs(links), done, y);
      head, ptr := Append(head, ptr, second, done, y, links);
    }
    Pointer(list, links);
  }

  /** Of n items, the one that (n + 1) / 2 others stand before: one pointer walks twice as fast. */
  method Middle(list: Item, ghost s: seq<Item>) returns (second: Item?)
    requires |s| >= 2 && list == s[0] && Chain(Nexts(Elements(s)), Prevs(Elements(s)), s, null)
    ensures second == s[(|s| + 1) / 2]
  {
    var ptr: Item? := list;
    second := list;
    ghost var i := 0;
    while ptr != null
      invariant 0 <= i <= (|s| + 1) / 2 && second == Nth(s, i, null) && ptr == Nth(s, 2 * i, null)
      decreases |s| + 1 - i
    {
      assert Hop(Nexts(Elements(s)), Prevs(Elements(s)), s, null, i);
      assert Hop(Nexts(Elements(s)), Prevs(Elements(s)), s, null, 2 * i);
      second := second.next;
      ptr := ptr.next;
      if ptr != null {
        assert Hop(Nexts(Elements(s)), Prevs(Elements(s)), s, null, 2 * i + 1);
        ptr := ptr.next;
      }
      i := i + 1;
    }
  }

  /** Whether the names already ascend. */
  method InOrder(list: Item, ghost s: seq<Item>) returns (yes: bool)
    requires s != [] && list == s[0] && Chain(Nexts(Elements(s)), Prevs(Elements(s)), s, null)
    ensures yes <==> Rising(s)
  {
    var ptr := list;
    ghost var i := 0;
    assert Hop(Nexts(Elements(s)), Prevs(Elements(s)), s, null, 0);
    while ptr.next != null && P.CaseCmp(ptr.name, ptr.next.name) < 0
      invariant 0 <= i < |s| && ptr == s[i] && ptr.next == Nth(s, i + 1, null)
      invariant forall j :: 0 <= j < i ==> Less(s[j], s[j + 1])
      decreases |s| - i
    {
      ptr := ptr.next;
      i := i + 1;
      assert Hop(Nexts(Elements(s)), Prevs(Elements(s)), s, null, i);
    }
    yes := ptr.next == null;
  }

  /** The chain of a part, among all the items or among the part alone. */
  lemma ChainOfPart(links: set<Item>, part: seq<Item>)
    requires Elements(part) <= links
    ensures Chain(Nexts(links), Prevs(links), part, null) <==> Chain(Nexts(Elements(part)), Prevs(Elements(part)), part, null)
  {
    if Chain(Nexts(links), Prevs(links), part, null) {
      assert forall i :: 0 <= i < |part| ==> Hop(Nexts(links), Prevs(links), part, null, i);
      ChainFrame(Nexts(links), Prevs(links), Nexts(Elements(part)), Prevs(Elements(part)), part, null);
    }
    if Chain(Nexts(Elements(part)), Prevs(Elements(part)), part, null) {
      assert forall i :: 0 <= i < |part| ==> Hop(Nexts(Elements(part)), Prevs(Elements(part)), part, null, i);
      ChainFrame(Nexts(Elements(part)), Prevs(Elements(part)), Nexts(links), Prevs(links), part, null);
    }
  }

  /** cJSONUtils_SortList: the head of the sorted list still points back to where it did. */
  method SortList(list: Item?, ghost s: seq<Item>) returns (r: Item?)
    requires list == Nth(s, 0, null) && Chain(Nexts(Elements(s)), Prevs(Elements(s)), s, null)
    modifies Elements(s)`next, Elements(s)`prev
    ensures r == Nth(Sorted(s), 0, null) && Elements(Sorted(s)) == Elements(s)
    ensures Chain(Nexts(Elements(s)), Prevs(Elements(s)), Sorted(s), null)
    ensures r != null ==> r in s && r.prev == old(r.prev)
    decreases |s|, 1
  {
    SortedKeeps(s);
    SameElements(Sorted(s), s);
    if list == null {
      return list;
    }
    assert Hop(Nexts(Elements(s)), Prevs(Elements(s)), s, null, 0);
    if list.next == null {
      return list;
    }
    var sorted := InOrder(list, s);
    if sorted {
      return list;
    }
    r := SortHalves(list, s);
  }

  /** Splits the list, sorts the halves and merges them. */
  method SortHalves(list: Item, ghost s: seq<Item>) returns (r: Item)
    requires |s| >= 2 && !Rising(s) && list == s[0] && Chain(Nexts(Elements(s)), Prevs(Elements(s)), s, null)
    modifies Elements(s)`next, Elements(s)`prev
    ensures r == Nth(Sorted(s), 0, null) && Elements(Sorted(s)) == Elements(s)
    ensures Chain(Nexts(Elements(s)), Prevs(Elements(s)), Sorted(s), null)
    ensures r in s && r.prev == old(r.prev)
    decreases |s|, 0
  {
    hide Chain, Merging, Sorted, Merged, Nexts, Prevs, Rising;
    ghost var half := (|s| + 1) / 2;
    ghost var a, b := s[..half], s[half..];
    Halved(Nexts(Elements(s)), Prevs(Elements(s)), s);
    var second := Middle(list, s);
    Cut(second, s, half);
    var first := SortList(list, a);
    second := SortList(second, b);
    Rejoined(a, b, Sorted(a), Sorted(b));
    r := MergeLists(first, second, Sorted(a), Sorted(b), Elements(s));
  }

  lemma Halved(nx: Pointers, pv: Pointers, s: seq<Item>)
    requires |s| >= 2 && !Rising(s) && Chain(nx, pv, s, null)
    ensures var k := (|s| + 1) / 2;
            && Elements(s[..k]) !! Elements(s[k..]) && Elements(s[..k]) + Elements(s[k..]) == Elements(s)
            && Sorted(s) == Merged(Sorted(s[..k]), Sorted(s[k..])) && Elements(Sorted(s)) == Elements(s) && Sorted(s) != []
            && Elements(Sorted(s[..k])) == Elements(s[..k]) && Elements(Sorted(s[k..])) == Elements(s[k..])
            && Sorted(s[..k]) != [] && Sorted(s[k..]) != [] && Sorted(s)[0] in s
            && Sorted(s)[0] in {Sorted(s[..k])[0], Sorted(s[k..])[0]}
  {
    hide Hop, Less, Rising;
    var k := (|s| + 1) / 2;
    assert s == s[..k] + s[k..];
    SortedKeeps(s);
    SameElements(Sorted(s), s);
    SortedKeeps(s[..k]);
    SortedKeeps(s[k..]);
    SameElements(Sorted(s[..k]), s[..k]);
    SameElements(Sorted(s[k..]), s[k..]);
    assert Sorted(s)[0] in Elements(Sorted(s));
  }

  /** Two sorted halves, ready to be merged. */
  lemma Rejoined(a: seq<Item>, b: seq<Item>, x: seq<Item>, y: seq<Item>)
    requires Elements(x) == Elements(a) && Elements(y) == Elements(b) && Elements(a) !! Elements(b)
    requires Chain(Nexts(Elements(a)), Prevs(Elements(a)), x, null) && Chain(Nexts(Elements(b)), Prevs(Elements(b)), y, null)
    ensures Merging(Nexts(Elements(x + y)), Prevs(Elements(x + y)), [], x, y) && Elements(x + y) == Elements(a) + Elements(b)
  {
    var links := Elements(x + y);
    assert links == Elements(a) + Elements(b);
    ChainOfPart(links, x);
    ChainOfPart(links, y);
    assert [] + x + y == x + y;
    forall i, j | 0 <= i < j < |x + y| ensures (x + y)[i] != (x + y)[j] {
      if i < |x| <= j { assert x[i] in Elements(x) && y[j - |x|] in Elements(y); }
    }
  }

  /** Cuts the list before its k-th item. */
  method Cut(second: Item?, ghost s: seq<Item>, ghost k: int)
    requires 0 < k < |s| && second == s[k] && Chain(Nexts(Elements(s)), Prevs(Elements(s)), s, null)
    modifies Elements(s)`next
    ensures Chain(Nexts(Elements(s[..k])), Prevs(Elements(s[..k])), s[..k], null)
    ensures Chain(Nexts(Elements(s[k..])), Prevs(Elements(s[k..])), s[k..], null)
  {
    hide Chain;
    ghost var links := Elements(s);
    SplitChain(Nexts(links), Prevs(links), s, k);
    Pointer(s[k], links);
    if second != null && second.prev != null {
      second.prev.next := null;
    }
    assert Nexts(links) == old(Nexts(links))[s[k - 1] := null];
    ChainOfPart(links, s[..k]);
    ChainOfPart(links, s[k..]);
  }

  // ----- taking an item out

  /** The neighbours that c points at now point at each other. */
  method JoinNeighbours(c: Item, ghost links: set<Item>)
    requires c in links && (c.prev != null ==> c.prev in links && c.prev != c) && (c.next != null ==> c.next in links && c.next != c)
    modifies links`next, links`prev
    ensures Nexts(links) == Bridged(old(Nexts(links)), old(c.prev), old(c.next))
    ensures Prevs(links) == Bridged(old(Prevs(links)), old(c.next), old(c.prev))
    ensures c.next == old(c.next) && c.prev == old(c.prev)
  {
    if c.prev != null {
      c.prev.next := c.next;
    }
    if c.next != null {
      c.next.prev := c.prev;
    }
  }

  /** The pointers once the neighbours that c points at have been joined and c itself cleared. */
  ghost function NextUnlinked(nx: Pointers, pv: Pointers, c: Item): Pointers
    requires c in nx && c in pv
  {
    Bridged(nx, pv[c], nx[c])[c := null]
  }

  ghost function PrevUnlinked(nx: Pointers, pv: Pointers, c: Item): Pointers
    requires c in nx && c in pv
  {
    Bridged(pv, nx[c], pv[c])[c := null]
  }

  method Clear(c: Item, ghost links: set<Item>)
    requires c in links
    modifies c`next, c`prev
    ensures Nexts(links) == old(Nexts(links))[c := null] && Prevs(links) == old(Prevs(links))[c := null]
    ensures c.next == null && c.prev == null
  {
    c.prev, c.next := null, null;
  }

  ghost function Bridged(p: Pointers, from: Item?, to: Item?): Pointers { if from != null then p[from := to] else p }

  lemma InChain(nx: Pointers, pv: Pointers, s: seq<Item>, k: int)
    requires Chain(nx, pv, s, null) && 0 <= k < |s|
    ensures s[k] in nx && s[k] in pv && nx[s[k]] == Nth(s, k + 1, null) && (k > 0 ==> pv[s[k]] == s[k - 1])
  {
    assert Hop(nx, pv, s, null, k);
  }

  /** Where the item points back to the one before it, or nowhere for the first, it goes cleanly. */
  lemma UnlinkKeeps(nx: Pointers, pv: Pointers, s: seq<Item>, k: int)
    requires Chain(nx, pv, s, null) && 0 <= k < |s| && s[k] in nx && s[k] in pv && (k == 0 ==> pv[s[0]] == null)
    ensures Chain(NextUnlinked(nx, pv, s[k]), PrevUnlinked(nx, pv, s[k]), Without(s, k), null)
  {
    InChain(nx, pv, s, k);
    var t, nx', pv' := Without(s, k), NextUnlinked(nx, pv, s[k]), PrevUnlinked(nx, pv, s[k]);
    forall i | 0 <= i < |t| ensures Hop(nx', pv', t, null, i) {
      var j := if i < k then i else i + 1;
      InChain(nx, pv, s, j);
      UniqueApart(s, j, k);
      if k > 0 { UniqueApart(s, j, k - 1); }
      if k + 1 < |s| { UniqueApart(s, j, k + 1); }
    }
  }

  /** The items of ring follow each other, and the first follows the last. */
  ghost predicate Circle(nx: Pointers, ring: seq<Item>) {
    ring != [] && forall i {:trigger ring[i]} :: 0 <= i < |ring| ==> ring[i] in nx && nx[ring[i]] == Nth(ring, i + 1, ring[0])
  }

  /** A first item that points back at the j-th is cut out of a circle. */
  lemma UnlinkLoops(nx: Pointers, pv: Pointers, s: seq<Item>, j: int)
    requires Chain(nx, pv, s, null) && 0 < j < |s| && s[0] in nx && s[0] in pv && pv[s[0]] == s[j]
    ensures Circle(NextUnlinked(nx, pv, s[0]), s[1..j + 1])
  {
    InChain(nx, pv, s, 0);
    var r, nx' := s[1..j + 1], NextUnlinked(nx, pv, s[0]);
    forall i | 0 <= i < |r| ensures r[i] in nx' && nx'[r[i]] == Nth(r, i + 1, r[0]) {
      InChain(nx, pv, s, i + 1);
      UniqueApart(s, i + 1, 0);
      UniqueApart(s, i + 1, j);
    }
  }

  /** Whoever follows a circle meets no end: no chain begins in it. */
  lemma {:induction false} CircleHasNoEnd(nx: Pointers, pv: Pointers, ring: seq<Item>, k: int, s: seq<Item>)
    requires Circle(nx, ring) && 0 <= k < |ring| && s != [] && s[0] == ring[k]
    ensures !Chain(nx, pv, s, null)
    decreases |s|
  {
    if Chain(nx, pv, s, null) {
      InChain(nx, pv, s, 0);
      if |s| > 1 {
        forall i | 0 <= i < |s| - 1 ensures Hop(nx, pv, s[1..], null, i) { assert Hop(nx, pv, s, null, i + 1); }
        CircleHasNoEnd(nx, pv, ring, if k + 1 < |ring| then k + 1 else 0, s[1..]);
      }
    }
  }

  /** The position of the first item whose name matches. */
  function Index(s: seq<Item>, name: string): (k: nat)
    ensures k <= |s|
    ensures k < |s| ==> P.CaseCmp(s[k].name, name) == 0
    ensures forall i :: 0 <= i < k ==> P.CaseCmp(s[i].name, name) != 0
  {
    if s == [] || P.CaseCmp(s[0].name, name) == 0 then 0 else 1 + Index(s[1..], name)
  }

  lemma {:induction false} ListedWithout(s: seq<Item>, name: string)
    ensures var k := Index(s, name);
            Listed(if k < |s| then Without(s, k) else s) == P.Detach(Listed(s), name)
    decreases |s|
  {
    if s != [] && P.CaseCmp(s[0].name, name) != 0 {
      ListedWithout(s[1..], name);
      var k := Index(s[1..], name);
      if k < |s| - 1 { assert Without(s, k + 1)[1..] == Without(s[1..], k); }
    } else if s != [] {
      assert Without(s, 0) == s[1..];
    }
  }

  lemma {:induction false} ListedAdd(s: seq<Item>, item: Item)
    ensures Listed(s + [item]) == P.Add(Listed(s), item.name, item.value)
    decreases |s|
  {
    if s == [] {
      assert (s + [item])[1..] == [];
    } else {
      assert (s + [item])[1..] == s[1..] + [item];
      ListedAdd(s[1..], item);
    }
  }

  /** Sorting leaves the first item where it is. */
  ghost predicate FirstStays(s: seq<Item>) { s != [] ==> Sorted(s) != [] && Sorted(s)[0] == s[0] }

  lemma SwappedPair(b: Item, a: Item)
    requires b.name == "b" && a.name == "a"
    ensures !FirstStays([b, a]) && Listed(Sorted([b, a])) == P.Sorted(Listed([b, a]))
  {
    ListedSorted([b, a]);
    assert !Less(b, a) && !Rising([b, a]);
    assert [b, a][..1] == [b] && [b, a][1..] == [a];
    assert Sorted([b]) == [b] && Sorted([a]) == [a];
    assert Sorted([b, a]) == Merged([b], [a]) == [a, b];
  }

  /** suffix_object */
  method Suffix(prev: Item, item: Item, ghost s: seq<Item>, ghost links: set<Item>)
    requires s != [] && prev == s[|s| - 1] && prev in links && item in links
    modifies prev`next, item`prev
    ensures Nexts(links) == Linked(old(Nexts(links)), s, [item]) && Prevs(links) == Backed(old(Prevs(links)), s, [item])
  {
    prev.next := item;
    item.prev := prev;
  }

  /** An object with its child list. */
  class Owner {
    var child: Item?
    ghost var order: seq<Item>

    constructor ()
      ensures order == [] && Valid() && Grounded()
    {
      child, order := null, [];
    }

    ghost predicate Valid()
      reads this, Elements(order)
    {
      child == Nth(order, 0, null) && Chain(Nexts(Elements(order)), Prevs(Elements(order)), order, null)
    }

    /** The first item points back nowhere. */
    ghost predicate Grounded()
      reads this, Elements(order)
    {
      order != [] ==> order[0].prev == null
    }

    /** The walk to the last item. */
    method Final() returns (c: Item)
      requires Valid() && order != []
      ensures c == order[|order| - 1]
    {
      c := child;
      ghost var i := 0;
      InChain(Nexts(Elements(order)), Prevs(Elements(order)), order, 0);
      while c.next != null
        invariant 0 <= i < |order| && c == order[i] && c.next == Nth(order, i + 1, null)
        decreases |order| - i
      {
        c := c.next;
        i := i + 1;
        InChain(Nexts(Elements(order)), Prevs(Elements(order)), order, i);
      }
    }

    /** cJSON_AddItemToArray, for an item that is in no list. */
    method Add(item: Item)
      requires Valid() && item !in order && item.next == null
      modifies this, Elements(order), item
      ensures Valid() && order == old(order) + [item]
      ensures order[0].prev == if old(order) == [] then old(item.prev) else old(order[0].prev)
    {
      hide Chain, Merging, Hop, Nexts;
      ghost var s, links := order, Elements(order + [item]);
      AddReady(s, item);
      if child == null {
        child := item;
        assert s + [item] == [item];
      } else {
        var c := Final();
        Pointer(s[0], links);
        TailKeeps(Nexts(links), Prevs(links), s, [item]);
        Suffix(c, item, s, links);
        Pointer(s[0], links);
      }
      order := s + [item];
    }

    /** cJSONUtils_SortObject: where another item comes first, it keeps pointing back into the list. */
    method Sort()
      requires Valid()
      modifies this, Elements(order)
      ensures Valid() && order == Sorted(old(order)) && Elements(order) == old(Elements(order))
      ensures old(Grounded()) ==> (Grounded() <==> FirstStays(old(order)))
      ensures old(Grounded()) && !Grounded() ==> order[0].prev in order[1..]
    {
      hide Chain, Sorted, Elements, Nexts, Prevs;
      ghost var s, t := order, Sorted(order);
      SortedKeeps(s);
      if s != [] && s[0].prev == null { BackOf(s, t); }
      child := SortList(child, s);
      order := t;
    }

    /** cJSON_DetachItemFromArray */
    method DetachAt(which: nat) returns (c: Item?)
      requires Valid() && (Grounded() || order[0].prev in order[1..])
      modifies this, Elements(order)
      ensures which >= |old(order)| ==> c == null && Valid() && order == old(order)
      ensures which < |old(order)| ==> c == old(order)[which] && c.next == null && c.prev == null
      ensures which < |old(order)| && (which > 0 || old(Grounded())) ==> Valid() && order == Without(old(order), which)
      ensures which == 0 && !old(Grounded()) ==> order != [] && child == order[0] && Circle(Nexts(Elements(order)), order)
    {
      hide Chain, Circle;
      c := ItemAt(which);
      if c == null {
        return;
      }
      if which == 0 && c.prev != null {
        DetachLoose(c);
      } else {
        DetachClean(c, which);
      }
    }

    /** The item is the first, and points back into the list. */
    method DetachLoose(c: Item)
      requires Valid() && order != [] && c == order[0] && c.prev in order[1..]
      modifies this, Elements(order)
      ensures order != [] && child == order[0] && Circle(Nexts(Elements(order)), order) && c.next == null && c.prev == null
    {
      hide Chain, Circle, Elements, NextUnlinked, PrevUnlinked;
      ghost var s, links := order, Elements(order);
      ghost var j :| 0 <= j < |s[1..]| && s[1..][j] == c.prev;
      InChain(Nexts(links), Prevs(links), s, 0);
      InChain(Nexts(links), Prevs(links), s, 1);
      InChain(Nexts(links), Prevs(links), s, j + 1);
      UniqueChain(Nexts(links), Prevs(links), s);
      UnlinkLoops(Nexts(links), Prevs(links), s, j + 1);
      PartOfElements(s, 1, j + 2);
      order := s[1..j + 2];
      Unlink(c, links);
      CircleOfPart(links, order);
    }

    /** The item points back to the one before it, or nowhere. */
    method DetachClean(c: Item, ghost k: int)
      requires Valid() && 0 <= k < |order| && c == order[k] && (k == 0 ==> c.prev == null)
      modifies this, Elements(order)
      ensures Valid() && order == Without(old(order), k) && c.next == null && c.prev == null
    {
      hide Chain, Elements, Nth, NextUnlinked, PrevUnlinked;
      ghost var s, links := order, Elements(order);
      HeadWithout(s, k);
      InChain(Nexts(links), Prevs(links), s, k);
      if k > 0 { InChain(Nexts(links), Prevs(links), s, k - 1); }
      if k + 1 < |s| { InChain(Nexts(links), Prevs(links), s, k + 1); }
      UniqueChain(Nexts(links), Prevs(links), s);
      OtherElements(s, k);
      UnlinkKeeps(Nexts(links), Prevs(links), s, k);
      order := Without(s, k);
      Unlink(c, links);
      ChainOfPart(links, order);
    }

    /** cJSON_DetachItemFromObject */
    method Detach(name: string) returns (c: Item?)
      requires Valid() && (Grounded() || order[0].prev in order[1..])
      modifies this, Elements(order)
      ensures var s := old(order); var k := Index(s, name);
              && (k == |s| ==> c == null) && (k < |s| ==> c == s[k] && c.next == null && c.prev == null)
              && if k == 0 < |s| && !old(Grounded()) then order != [] && child == order[0] && Circle(Nexts(Elements(order)), order)
                 else Valid() && Listed(order) == P.Detach(Listed(s), name)
    {
      hide Chain, Circle, Listed;
      ListedWithout(order, name);
      var i := Position(name);
      if i < 0 {
        return null;
      }
      c := DetachAt(i);
    }

    /** The position of the first item whose name matches, or -1. */
    method Position(name: string) returns (i: int)
      requires Valid()
      ensures i == if Index(order, name) < |order| then Index(order, name) else -1
    {
      var c := child;
      i := 0;
      while c != null && P.CaseCmp(c.name, name) != 0
        invariant 0 <= i <= |order| && c == Nth(order, i, null)
        invariant forall j :: 0 <= j < i ==> P.CaseCmp(order[j].name, name) != 0
        decreases |order| - i
      {
        InChain(Nexts(Elements(order)), Prevs(Elements(order)), order, i);
        c := c.next;
        i := i + 1;
      }
      if c == null {
        i := -1;
      }
    }

    /** What generating a patch from this object and then applying one to it do to its list: the member
        called name is taken out of the sorted list, and the list stays one exactly when that member is not
        the first or was the first before. */
    method SortAndDetach(name: string) returns (c: Item?)
      requires Valid() && Grounded()
      modifies this, Elements(order)
      ensures var s := Sorted(old(order)); var k := Index(s, name);
              && c == (if k < |s| then s[k] else null)
              && (Valid() <==> (k == 0 < |s| ==> FirstStays(old(order))))
              && (Valid() ==> Listed(order) == P.Detach(P.Sorted(Listed(old(order))), name))
              && (!Valid() ==> order != [] && child == order[0] && Circle(Nexts(Elements(order)), order))
    {
      hide Chain, Circle, Listed, Sorted, Elements, Nexts, Prevs;
      ListedSorted(order);
      SortedKeeps(order);
      Sort();
      c := Detach(name);
      if order != [] && Circle(Nexts(Elements(order)), order) { CircleHasNoEnd(Nexts(Elements(order)), Prevs(Elements(order)), order, 0, order); }
    }

    /** The walk to the item at a position. */
    method ItemAt(which: nat) returns (c: Item?)
      requires Valid()
      ensures c == Nth(order, which, null)
    {
      c := child;
      var i := 0;
      while c != null && i < which
        invariant i <= which && c == Nth(order, i, null) && i <= |order|
        decreases which - i
      {
        InChain(Nexts(Elements(order)), Prevs(Elements(order)), order, i);
        c := c.next;
        i := i + 1;
      }
    }

    /** The neighbours that c points at are joined, and c is cleared. */
    method Unlink(c: Item, ghost links: set<Item>)
      requires c in links && (c.prev != null ==> c.prev in links && c.prev != c) && (c.next != null ==> c.next in links && c.next != c)
      modifies this`child, links`next, links`prev
      ensures Nexts(links) == NextUnlinked(old(Nexts(links)), old(Prevs(links)), c)
      ensures Prevs(links) == PrevUnlinked(old(Nexts(links)), old(Prevs(links)), c)
      ensures child == (if c == old(child) then old(c.next) else old(child)) && c.next == null && c.prev == null
    {
      hide Bridged, Nexts, Prevs;
      Pointer(c, links);
      JoinNeighbours(c, links);
      if c == child {
        child := c.next;
      }
      Clear(c, links);
    }
  }

  lemma UniqueChain(nx: Pointers, pv: Pointers, s: seq<Item>)
    requires Chain(nx, pv, s, null)
    ensures Unique(s)
  {
  }

  lemma HeadWithout(s: seq<Item>, k: nat)
    requires k < |s|
    ensures Nth(Without(s, k), 0, null) == if k == 0 then Nth(s, 1, null) else s[0]
    ensures Nth(s, 0, null) == s[0] && Nth(s, k + 1, null) == if k + 1 < |s| then s[k + 1] else null
  {
  }

  lemma OtherElements(s: seq<Item>, k: nat)
    requires k < |s|
    ensures Elements(Without(s, k)) <= Elements(s)
  {
  }

  lemma PartOfElements(s: seq<Item>, from: nat, to: nat)
    requires from <= to <= |s|
    ensures Elements(s[from..to]) <= Elements(s)
  {
  }

  lemma CircleOfPart(links: set<Item>, part: seq<Item>)
    requires Elements(part) <= links
    ensures Circle(Nexts(links), part) <==> Circle(Nexts(Elements(part)), part)
  {
  }

  /** A list and an item apart from it, before the item is hung behind the last one. */
  lemma AddReady(s: seq<Item>, item: Item)
    requires Chain(Nexts(Elements(s)), Prevs(Elements(s)), s, null) && item !in s && item.next == null
    ensures var links := Elements(s + [item]); Merging(Nexts(links), Prevs(links), s, [item], [])
  {
    var links := Elements(s + [item]);
    ChainOfPart(links, s);
    assert Hop(Nexts(links), Prevs(links), [item], null, 0);
    if s != [] { assert Hop(Nexts(links), Prevs(links), s, null, |s| - 1); }
    assert s + [item] + [] == s + [item];
  }

  /** Where the head of the sorted list points, in a list whose own head points nowhere. */
  lemma BackOf(s: seq<Item>, t: seq<Item>)
    requires Chain(Nexts(Elements(s)), Prevs(Elements(s)), s, null) && s != [] && s[0].prev == null
    requires multiset(t) == multiset(s) && t != []
    ensures if t[0] == s[0] then t[0].prev == null else t[0].prev != null && t[0].prev in t[1..]
  {
    assert t[0] in multiset(s);
    var k :| 0 <= k < |s| && s[k] == t[0];
    InChain(Nexts(Elements(s)), Prevs(Elements(s)), s, k);
    if k > 0 {
      UniqueApart(s, k, k - 1);
      assert s[k - 1] in multiset(t);
      var j :| 0 <= j < |t| && t[j] == s[k - 1];
      assert t[1..][j - 1] == s[k - 1];
    }
  }
}
