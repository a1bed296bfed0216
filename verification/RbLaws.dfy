/** What the picture's invariants mean for someone who follows the pointers themselves. */
module RbLaws {
  import opened RbView
  import opened RbBalance

  /** In-order traversal along the left and right pointers, cut off after fuel levels. */
  ghost function Walk(v: View, n: Node?, fuel: nat): seq<Node>
  {
    if fuel == 0 || n == null || n !in v.mem || n == v.z then []
    else Walk(v, v.mem[n].left, fuel - 1) + [n] + Walk(v, v.mem[n].right, fuel - 1)
  }

  lemma SidesAreSlices(v: View, n: Node)
    requires Shape(v) && n in v.span
    ensures n in v.mem && n != v.z && v.mem[n].left != null && v.mem[n].right != null
    ensures var s, c := v.span[n], v.mem[n];
      && 0 <= s.lo <= s.pos < s.hi <= |v.order| && v.order[s.pos] == n
      && (if c.left == v.z then s.lo == s.pos
          else c.left in v.span && v.span[c.left].lo == s.lo && v.span[c.left].hi == s.pos)
      && (if c.right == v.z then s.pos + 1 == s.hi
          else c.right in v.span && v.span[c.right].lo == s.pos + 1 && v.span[c.right].hi == s.hi)
  {
    assert Linked(v, n);
  }

  lemma {:induction false} WalkIsSlice(v: View, n: Node, fuel: nat)
    requires Shape(v) && n in v.span && v.span[n].hi - v.span[n].lo <= fuel
    ensures 0 <= v.span[n].lo <= v.span[n].hi <= |v.order|
    ensures Walk(v, n, fuel) == v.order[v.span[n].lo..v.span[n].hi]
    decreases fuel
  {
    hide Shape, Linked;
    SidesAreSlices(v, n);
    var s, c := v.span[n], v.mem[n];
    if c.left != v.z { WalkIsSlice(v, c.left, fuel - 1); }
    if c.right != v.z { WalkIsSlice(v, c.right, fuel - 1); }
    assert Walk(v, c.left, fuel - 1) == v.order[s.lo..s.pos];
    assert Walk(v, c.right, fuel - 1) == v.order[s.pos + 1..s.hi];
    assert v.order[s.lo..s.hi] == v.order[s.lo..s.pos] + [n] + v.order[s.pos + 1..s.hi];
  }

  /** Following the pointers from the root visits the whole sequence, in order, each node once. */
  lemma WalkIsOrder(v: View)
    requires Shape(v)
    ensures Walk(v, v.root, |v.order|) == v.order
    ensures forall i, j :: 0 <= i < j < |v.order| ==> v.order[i] != v.order[j]
    ensures forall n :: n in v.span <==> n in v.order
  {
    HasRoot(v);
    if v.order != [] { WalkIsSlice(v, v.root, |v.order|); }
    forall i, j | 0 <= i < j < |v.order| ensures v.order[i] != v.order[j] {
      assert Placed(v, i) && Placed(v, j);
    }
    forall n | n in v.span ensures n in v.order { assert Linked(v, n); }
  }

  /** The steps lead from n down to the sentinel, false for left and true for right. */
  ghost predicate Descends(v: View, n: Node?, steps: seq<bool>)
  {
    && n != null && n in v.mem
    && if steps == [] then n == v.z else n != v.z && Descends(v, v.mem[n].Kid(steps[0]), steps[1..])
  }

  /** Black nodes met on the way, the sentinel not counted. */
  ghost function Blacks(v: View, n: Node?, steps: seq<bool>): nat
  {
    if steps == [] || n == null || n !in v.mem then 0
    else (if v.mem[n].red then 0 else 1) + Blacks(v, v.mem[n].Kid(steps[0]), steps[1..])
  }

  lemma {:induction false} BlacksAreHeight(v: View, bh: Heights, n: Node, steps: seq<bool>)
    requires RedBlack(v, bh) && Descends(v, n, steps)
    ensures n in bh && Blacks(v, n, steps) == bh[n]
    ensures |steps| <= 2 * bh[n] + (if v.mem[n].red then 1 else 0)
    decreases |steps|
  {
    if steps != [] {
      assert n in v.span;
      assert Even(v, bh, n) && Cool(v, n, null) && Linked(v, n);
      BlacksAreHeight(v, bh, v.mem[n].Kid(steps[0]), steps[1..]);
    }
  }

  /** Every way down from the root meets the same number of black nodes. */
  lemma BlackHeightsAgree(v: View, bh: Heights, a: seq<bool>, b: seq<bool>)
    requires RedBlack(v, bh) && Descends(v, v.root, a) && Descends(v, v.root, b)
    ensures Blacks(v, v.root, a) == Blacks(v, v.root, b)
  {
    BlacksAreHeight(v, bh, v.root, a);
    BlacksAreHeight(v, bh, v.root, b);
  }

  function Pow2(k: nat): nat { if k == 0 then 1 else 2 * Pow2(k - 1) }

  lemma {:induction false} Pow2Grows(a: nat, b: nat)
    requires a <= b
    ensures Pow2(a) <= Pow2(b)
    decreases b
  {
    if a < b { Pow2Grows(a, b - 1); }
  }

  lemma {:induction false} HeightNeedsNodes(v: View, bh: Heights, n: Node)
    requires RedBlack(v, bh) && n in v.span
    ensures n in bh && Pow2(bh[n]) <= v.span[n].hi - v.span[n].lo + 1
    decreases v.span[n].hi - v.span[n].lo
  {
    assert Linked(v, n) && Even(v, bh, n);
    var c := v.mem[n];
    if c.left != v.z { assert Linked(v, c.left); HeightNeedsNodes(v, bh, c.left); }
    if c.right != v.z { assert Linked(v, c.right); HeightNeedsNodes(v, bh, c.right); }
    assert Pow2(0) == 1;
  }

  /** The tree is balanced: a way down of length k needs at least 2^(k/2) - 1 nodes, k/2 rounded up,
      so no search takes more than 2 * log2(nodes + 1) steps. */
  lemma TreeIsShallow(v: View, bh: Heights, steps: seq<bool>)
    requires RedBlack(v, bh) && Descends(v, v.root, steps)
    ensures Pow2((|steps| + 1) / 2) <= |v.order| + 1
  {
    BlacksAreHeight(v, bh, v.root, steps);
    HasRoot(v);
    if v.order != [] {
      HeightNeedsNodes(v, bh, v.root);
      Pow2Grows((|steps| + 1) / 2, bh[v.root]);
    }
  }
}
