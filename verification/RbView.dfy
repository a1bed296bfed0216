/** A value picture of the red-black tree's memory, and what each pointer rewrite does to it.
    Every node owns a slice of the in-order sequence; a rotation moves slices, never the sequence. */
module RbView {
  import opened Sequences

  const WORD: int := 0x1_0000_0000_0000_0000

  type Key = k: int | 0 <= k < WORD

  /** A node as its owner embeds it. */
  class Node {
    var key: Key
    var left: Node?
    var right: Node?
    var parent: Node?
    var red: bool
  }

  /** The link and colour fields of one node. Sides: false is left, true is right. */
  datatype Cell = Cell(left: Node?, right: Node?, parent: Node?, red: bool) {
    ghost function Kid(side: bool): Node? { if side then right else left }
    ghost function WithKid(side: bool, k: Node?): Cell {
      if side then this.(right := k) else this.(left := k)
    }
  }

  /** The subtree of a node is order[lo..hi], with the node itself at pos. */
  datatype Span = Span(lo: int, pos: int, hi: int) {
    ghost function From(side: bool): int { if side then pos + 1 else lo }
    ghost function To(side: bool): int { if side then hi else pos }
  }

  datatype View = View(z: Node, root: Node, mem: map<Node, Cell>, order: seq<Node>, span: map<Node, Span>)

  // ----- shape

  ghost predicate KidOk(v: View, n: Node, side: bool)
    requires n in v.mem && n in v.span
  {
    var s, k := v.span[n], v.mem[n].Kid(side);
    if s.From(side) == s.To(side) then k == v.z
    else
      && k != null && k in v.mem && k in v.span && v.mem[k].parent == n
      && v.span[k].lo == s.From(side) && v.span[k].hi == s.To(side)
  }

  ghost predicate UpOk(v: View, n: Node)
    requires n in v.mem
  {
    n != v.root ==>
      && v.mem[n].parent != null && v.mem[n].parent in v.mem && v.mem[n].parent in v.span
      && (v.mem[v.mem[n].parent].left == n || v.mem[v.mem[n].parent].right == n)
  }

  ghost predicate Linked(v: View, n: Node)
  {
    && n in v.mem && n in v.span
    && 0 <= v.span[n].lo <= v.span[n].pos < v.span[n].hi <= |v.order| && v.order[v.span[n].pos] == n
    && KidOk(v, n, false) && KidOk(v, n, true) && UpOk(v, n)
  }

  ghost predicate Placed(v: View, i: int)
    requires 0 <= i < |v.order|
  {
    v.order[i] in v.span && v.span[v.order[i]].pos == i
  }

  ghost predicate Frame(v: View)
  {
    && v.z !in v.span && v.mem.Keys == v.span.Keys + {v.z}
    && (if v.order == [] then v.root == v.z
        else v.root in v.span && v.span[v.root].lo == 0 && v.span[v.root].hi == |v.order|)
  }

  /** The links form one binary tree whose in-order traversal is v.order. */
  ghost predicate Shape(v: View)
  {
    && Frame(v)
    && (forall i {:trigger Placed(v, i)} :: 0 <= i < |v.order| ==> Placed(v, i))
    && (forall n {:trigger Linked(v, n)} :: n in v.span ==> Linked(v, n))
  }

  lemma LinkedAt(v: View, n: Node)
    requires Shape(v) && n in v.span
    ensures Linked(v, n) && Frame(v)
  {
    assert Linked(v, n);
  }

  lemma HasParent(v: View, x: Node)
    requires Shape(v) && x in v.span
    ensures x in v.mem && v.root in v.span
    ensures x != v.root ==> v.mem[x].parent != null && v.mem[x].parent in v.span && v.mem[x].parent in v.mem
  {
    assert Linked(v, x);
  }

  lemma HasKids(v: View, x: Node)
    requires Shape(v) && x in v.span
    ensures x in v.mem && v.mem[x].left != null && v.mem[x].right != null
  {
    hide Shape;
    LinkedAt(v, x);
  }

  lemma HasRoot(v: View)
    requires Shape(v)
    ensures v.root == v.z <==> v.order == []
    ensures v.root != v.z ==> v.root in v.span && v.span[v.root].lo == 0 && v.span[v.root].hi == |v.order|
    ensures forall i :: 0 <= i < |v.order| ==> v.order[i] in v.span
    ensures v.order == [] ==> v.span.Keys == {}
  {
    if n: Node :| n in v.span { assert Linked(v, n); }
    forall i | 0 <= i < |v.order| ensures v.order[i] in v.span { assert Placed(v, i); }
  }

  // ----- rotation: x's kid on side !d rises over x

  ghost predicate CanRotate(v: View, x: Node, d: bool)
  {
    Shape(v) && x in v.span && v.mem[x].Kid(!d) != v.z
  }

  lemma Neighbours(v: View, x: Node, d: bool)
    requires CanRotate(v, x, d)
    ensures Linked(v, x)
    ensures var y := v.mem[x].Kid(!d);
        && y != null && y != x && y in v.span && y in v.mem && Linked(v, y)
            && v.mem[y].parent == x
            && v.mem[y].Kid(d) != null && v.mem[y].Kid(d) in v.mem
            && v.mem[y].Kid(d) != x && v.mem[y].Kid(d) != y
            && (v.mem[y].Kid(d) != v.z ==> v.mem[y].Kid(d) in v.span && v.mem[v.mem[y].Kid(d)].parent == y)
            && y != v.root
            && (x != v.root ==> && v.mem[x].parent != null && v.mem[x].parent in v.span && Linked(v, v.mem[x].parent)
                                && v.mem[x].parent != x && v.mem[x].parent != y
                                && v.mem[x].parent != v.mem[y].Kid(d)
                                && (v.mem[v.mem[x].parent].left == x || v.mem[v.mem[x].parent].right == x)
                                && v.mem[v.mem[x].parent].left != v.mem[v.mem[x].parent].right)
  {
    assert Linked(v, x);
    var y := v.mem[x].Kid(!d);
    assert Linked(v, y);
    if x != v.root { assert Linked(v, v.mem[x].parent); }
    if v.mem[y].Kid(d) != v.z { assert Linked(v, v.mem[y].Kid(d)); }
    assert Linked(v, v.root);
  }

  ghost function RotatedMem(v: View, x: Node, d: bool): map<Node, Cell>
    requires CanRotate(v, x, d)
  {
    Neighbours(v, x, d);
    var y := v.mem[x].Kid(!d);
    var b, p := v.mem[y].Kid(d), v.mem[x].parent;
    var m := v.mem[x := v.mem[x].WithKid(!d, b).(parent := y)][y := v.mem[y].WithKid(d, x).(parent := p)];
    var m := if b == v.z then m else m[b := m[b].(parent := x)];
    if x == v.root then m else m[p := m[p].WithKid(m[p].left != x, y)]
  }

  ghost function RotatedRoot(v: View, x: Node, d: bool): Node
    requires CanRotate(v, x, d)
  {
    Neighbours(v, x, d);
    if x == v.root then v.mem[x].Kid(!d) else v.root
  }

  ghost function Rotated(v: View, x: Node, d: bool): View
    requires CanRotate(v, x, d)
  {
    Neighbours(v, x, d);
    var y := v.mem[x].Kid(!d);
    var sx, sy := v.span[x], v.span[y];
    v.(root := RotatedRoot(v, x, d), mem := RotatedMem(v, x, d),
       span := v.span[x := if d then Span(sy.pos + 1, sx.pos, sx.hi) else Span(sx.lo, sx.pos, sy.pos)]
                     [y := Span(sx.lo, sy.pos, sx.hi)])
  }

  lemma RotatedCells(v: View, x: Node, d: bool)
    requires CanRotate(v, x, d)
    ensures Rotated(v, x, d).mem.Keys == v.mem.Keys && Rotated(v, x, d).span.Keys == v.span.Keys
    ensures Frame(Rotated(v, x, d)) && v.z !in v.span && v.mem.Keys == v.span.Keys + {v.z}
    ensures Rotated(v, x, d).z == v.z && Rotated(v, x, d).order == v.order
    ensures Rotated(v, x, d).root == if x == v.root then v.mem[x].Kid(!d) else v.root
  {
    Neighbours(v, x, d);
  }

  /** The rotated links, field by field. */
  lemma RotatedAt(v: View, x: Node, d: bool, y: Node, b: Node, n: Node)
    requires CanRotate(v, x, d) && n in v.mem
    requires y == v.mem[x].Kid(!d) && y in v.mem && b == v.mem[y].Kid(d)
    ensures n in Rotated(v, x, d).mem
    ensures x != v.root && n == v.mem[x].parent ==> (v.mem[n].left == x) != (v.mem[n].right == x)
    ensures Rotated(v, x, d).mem[n].red == v.mem[n].red
    ensures Rotated(v, x, d).mem[n].Kid(d) ==
      if n == y then x
      else if x != v.root && n == v.mem[x].parent && (v.mem[n].left != x) == d then y
      else v.mem[n].Kid(d)
    ensures Rotated(v, x, d).mem[n].Kid(!d) ==
      if n == x then b
      else if x != v.root && n == v.mem[x].parent && (v.mem[n].left != x) == !d then y
      else v.mem[n].Kid(!d)
    ensures Rotated(v, x, d).mem[n].parent ==
      if n == x then y else if n == y then v.mem[x].parent else if n == b && b != v.z then x else v.mem[n].parent
  {
    Neighbours(v, x, d);
    RotatedCells(v, x, d);
    hide Shape, Linked;
  }

  lemma RotatedLowKid(v: View, x: Node, d: bool, side: bool)
    requires CanRotate(v, x, d)
    ensures x in Rotated(v, x, d).mem && x in Rotated(v, x, d).span && KidOk(Rotated(v, x, d), x, side)
  {
    hide Shape, UpOk;
    Neighbours(v, x, d);
    RotatedCells(v, x, d);
  }

  lemma RotatedLow(v: View, x: Node, d: bool)
    requires CanRotate(v, x, d)
    ensures Linked(Rotated(v, x, d), x)
  {
    hide Shape, KidOk;
    Neighbours(v, x, d);
    RotatedCells(v, x, d);
    RotatedLowKid(v, x, d, false);
    RotatedLowKid(v, x, d, true);
    NeighbourSpans(v, x, d);
  }

  lemma NeighbourSpans(v: View, x: Node, d: bool)
    requires CanRotate(v, x, d)
    ensures var y := v.mem[x].Kid(!d);
            && x in v.span && y in v.span && v.span[x].From(!d) == v.span[y].lo && v.span[x].To(!d) == v.span[y].hi
            && 0 <= v.span[x].lo <= v.span[x].pos < v.span[x].hi <= |v.order|
            && v.span[y].lo <= v.span[y].pos < v.span[y].hi
            && v.order[v.span[x].pos] == x && v.order[v.span[y].pos] == y
  {
    hide Shape;
    Neighbours(v, x, d);
  }

  lemma RotatedHighKid(v: View, x: Node, d: bool, y: Node, side: bool)
    requires CanRotate(v, x, d) && y == v.mem[x].Kid(!d)
    ensures y in Rotated(v, x, d).mem && y in Rotated(v, x, d).span && KidOk(Rotated(v, x, d), y, side)
  {
    hide Shape, UpOk;
    Neighbours(v, x, d);
    RotatedCells(v, x, d);
  }

  lemma RotatedHigh(v: View, x: Node, d: bool, y: Node)
    requires CanRotate(v, x, d) && y == v.mem[x].Kid(!d)
    ensures Linked(Rotated(v, x, d), y)
  {
    hide Shape, KidOk;
    Neighbours(v, x, d);
    RotatedCells(v, x, d);
    RotatedHighKid(v, x, d, y, false);
    RotatedHighKid(v, x, d, y, true);
    NeighbourSpans(v, x, d);
  }

  lemma RotatedParentKid(v: View, x: Node, d: bool, p: Node, side: bool)
    requires CanRotate(v, x, d) && x != v.root && p == v.mem[x].parent
    ensures p in Rotated(v, x, d).mem && p in Rotated(v, x, d).span && KidOk(Rotated(v, x, d), p, side)
  {
    hide Shape, UpOk;
    Neighbours(v, x, d);
    RotatedCells(v, x, d);
  }

  lemma RotatedParent(v: View, x: Node, d: bool, p: Node)
    requires CanRotate(v, x, d) && x != v.root && p == v.mem[x].parent
    ensures Linked(Rotated(v, x, d), p)
  {
    hide Shape, KidOk;
    Neighbours(v, x, d);
    RotatedCells(v, x, d);
    RotatedParentKid(v, x, d, p, false);
    RotatedParentKid(v, x, d, p, true);
  }

  lemma RotatedInner(v: View, x: Node, d: bool, y: Node, b: Node)
    requires CanRotate(v, x, d) && y == v.mem[x].Kid(!d) && y in v.mem && b == v.mem[y].Kid(d) && b != v.z
    ensures Linked(Rotated(v, x, d), b)
  {
    Neighbours(v, x, d);
    RotatedCells(v, x, d);
    assert Linked(v, b);
  }

  lemma RotatedOther(v: View, x: Node, d: bool, n: Node)
    requires CanRotate(v, x, d) && n in v.span
    requires n != x && n != v.mem[x].Kid(!d) && v.mem[x].Kid(!d) in v.mem && n != v.mem[v.mem[x].Kid(!d)].Kid(d)
    requires x != v.root ==> n != v.mem[x].parent
    ensures Linked(Rotated(v, x, d), n)
  {
    hide KidOk, Placed;
    Neighbours(v, x, d);
    RotatedCells(v, x, d);
    assert Linked(v, n);
    var w := Rotated(v, x, d);
    assert w.mem[n] == v.mem[n] && w.span[n] == v.span[n];
    RotatedKid(v, x, d, n, false);
    RotatedKid(v, x, d, n, true);
  }

  lemma RotatedKid(v: View, x: Node, d: bool, n: Node, side: bool)
    requires CanRotate(v, x, d) && Linked(v, n) && n in v.span && n != x
    requires v.mem[x].Kid(!d) in v.mem && n != v.mem[x].Kid(!d) && n != v.mem[v.mem[x].Kid(!d)].Kid(d)
    requires n in Rotated(v, x, d).mem && n in Rotated(v, x, d).span
    requires Rotated(v, x, d).mem[n] == v.mem[n] && Rotated(v, x, d).span[n] == v.span[n]
    requires x != v.root ==> n != v.mem[x].parent
    ensures KidOk(Rotated(v, x, d), n, side)
  {
    hide Placed, UpOk;
    Neighbours(v, x, d);
    RotatedCells(v, x, d);
  }

  lemma RotateKeepsShape(v: View, x: Node, d: bool)
    requires CanRotate(v, x, d)
    ensures Shape(Rotated(v, x, d))
  {
    var w := Rotated(v, x, d);
    RotatedCells(v, x, d);
    forall i | 0 <= i < |w.order| ensures Placed(w, i) { assert Placed(v, i); }
    forall n | n in w.span ensures Linked(w, n) {
      if n == x { RotatedLow(v, x, d); }
      else if n == v.mem[x].Kid(!d) { RotatedHigh(v, x, d, n); }
      else if x != v.root && n == v.mem[x].parent { RotatedParent(v, x, d, n); }
      else if n == v.mem[v.mem[x].Kid(!d)].Kid(d) { RotatedInner(v, x, d, v.mem[x].Kid(!d), n); }
      else { RotatedOther(v, x, d, n); }
    }
  }

  /** What a rotation at x does to the links, as far as colours and heights can see it: y, x's kid
      on side !d, stands where x stood; x is y's kid on side d and has taken over y's old kid there. */
  ghost predicate Turn(v: View, w: View, x: Node, y: Node, d: bool)
  {
    && w.z == v.z && w.mem.Keys == v.mem.Keys && w.span.Keys == v.span.Keys
    && v.z in v.mem && x in v.mem && y in v.mem && x != y && v.mem[x].Kid(!d) == y
    && w.root == (if v.root == x then y else v.root)
    && w.mem[x].red == v.mem[x].red && w.mem[y].red == v.mem[y].red && w.mem[v.z] == v.mem[v.z]
    && w.mem[x].parent == y && w.mem[y].parent == v.mem[x].parent
    && w.mem[y].Kid(d) == x && w.mem[y].Kid(!d) == v.mem[y].Kid(!d)
    && w.mem[x].Kid(d) == v.mem[x].Kid(d) && w.mem[x].Kid(!d) == v.mem[y].Kid(d)
    && forall n {:trigger w.mem[n]} | n in v.span && n in v.mem && n != x && n != y ::
         && w.mem[n].red == v.mem[n].red
         && w.mem[n].left == (if v.mem[n].left == x then y else v.mem[n].left)
         && w.mem[n].right == (if v.mem[n].right == x then y else v.mem[n].right)
         && (v.mem[y].Kid(d) != n ==> w.mem[n].parent == v.mem[n].parent)
  }

  lemma RotateTurns(v: View, x: Node, d: bool) returns (y: Node)
    requires CanRotate(v, x, d)
    ensures y == v.mem[x].Kid(!d) && y in v.span && Turn(v, Rotated(v, x, d), x, y, d)
    ensures Shape(Rotated(v, x, d))
  {
    Neighbours(v, x, d);
    RotateKeepsShape(v, x, d);
    y := v.mem[x].Kid(!d);
    var w := Rotated(v, x, d);
    RotatedCells(v, x, d);
    forall n | n in v.span && n in v.mem && n != x && n != y
      ensures w.mem[n].red == v.mem[n].red
      ensures w.mem[n].left == (if v.mem[n].left == x then y else v.mem[n].left)
      ensures w.mem[n].right == (if v.mem[n].right == x then y else v.mem[n].right)
      ensures v.mem[y].Kid(d) != n ==> w.mem[n].parent == v.mem[n].parent
    {
      RotateTurnsOther(v, x, d, y, n);
    }
  }

  lemma RotateTurnsOther(v: View, x: Node, d: bool, y: Node, n: Node)
    requires CanRotate(v, x, d) && y == v.mem[x].Kid(!d) && n in v.span && n in v.mem && n != x && n != y
    ensures y in v.mem && n in Rotated(v, x, d).mem
    ensures var w := Rotated(v, x, d);
            && w.mem[n].red == v.mem[n].red
            && w.mem[n].left == (if v.mem[n].left == x then y else v.mem[n].left)
            && w.mem[n].right == (if v.mem[n].right == x then y else v.mem[n].right)
            && (v.mem[y].Kid(d) != n ==> w.mem[n].parent == v.mem[n].parent)
  {
    Neighbours(v, x, d);
    assert Linked(v, n);
  }

  // ----- hanging a new leaf on an empty side

  ghost predicate CanAttach(v: View, t: Node, n: Node, d: bool)
  {
    Shape(v) && t in v.span && v.mem[t].Kid(d) == v.z && n !in v.mem
  }

  /** Slice bounds after a node enters at position k. */
  ghost function Grow(s: Span, k: int, d: bool): Span {
    Span(s.lo + (if k < s.lo || (d && k == s.lo) then 1 else 0),
         s.pos + (if k <= s.pos then 1 else 0),
         s.hi + (if k < s.hi || (d && k == s.hi) then 1 else 0))
  }

  ghost function AttachAt(v: View, t: Node, d: bool): int
    requires t in v.span
  {
    v.span[t].To(d)
  }

  ghost function AttachedMem(v: View, t: Node, n: Node, d: bool): map<Node, Cell>
    requires t in v.mem
  {
    v.mem[t := v.mem[t].WithKid(d, n)][n := Cell(v.z, v.z, t, true)]
  }

  ghost function Attached(v: View, t: Node, n: Node, d: bool): View
    requires CanAttach(v, t, n, d)
  {
    assert Linked(v, t);
    var k := AttachAt(v, t, d);
    v.(mem := AttachedMem(v, t, n, d),
       order := v.order[..k] + [n] + v.order[k..],
       span := (map c | c in v.span :: Grow(v.span[c], k, d))[n := Span(k, k, k + 1)])
  }

  /** The empty side of t is a place in the sequence, behind its beginning on the right, before its end on the left. */
  lemma AttachPlace(v: View, t: Node, d: bool)
    requires Linked(v, t) && v.mem[t].Kid(d) == v.z && v.z !in v.span
    ensures v.span[t].From(d) == v.span[t].To(d) == AttachAt(v, t, d)
    ensures if d then 0 < AttachAt(v, t, d) <= |v.order| else 0 <= AttachAt(v, t, d) < |v.order|
  {
    hide UpOk;
  }

  lemma AttachedFrame(v: View, t: Node, n: Node, d: bool)
    requires CanAttach(v, t, n, d)
    ensures v.span[t].From(d) == v.span[t].To(d) && v.order != []
    ensures Frame(Attached(v, t, n, d))
    ensures Attached(v, t, n, d).span.Keys == v.span.Keys + {n}
    ensures var k := AttachAt(v, t, d);
            0 <= k <= |v.order| && Attached(v, t, n, d).order == v.order[..k] + [n] + v.order[k..]
  {
    hide Shape, Linked, AttachAt;
    LinkedAt(v, t);
    AttachPlace(v, t, d);
  }

  /** What Attached changes, cell by cell. */
  lemma AttachedCells(v: View, t: Node, n: Node, d: bool)
    requires CanAttach(v, t, n, d)
    ensures t != n && t != v.z && n != v.z && t in v.span && t in v.mem && n !in v.mem && v.mem.Keys == v.span.Keys + {v.z}
    ensures var w := Attached(v, t, n, d);
            && w.z == v.z && w.root == v.root && w.mem.Keys == v.mem.Keys + {n} && w.span.Keys == v.span.Keys + {n}
            && (forall c {:trigger w.mem[c]} :: c in v.mem && c != t ==> w.mem[c] == v.mem[c])
            && w.mem[t] == v.mem[t].WithKid(d, n) && w.mem[n] == Cell(v.z, v.z, t, true)
  {
    AttachedFrame(v, t, n, d);
  }

  lemma AttachedLeaf(v: View, t: Node, n: Node, d: bool)
    requires CanAttach(v, t, n, d)
    ensures Linked(Attached(v, t, n, d), n)
  {
    hide Shape;
    AttachedFrame(v, t, n, d);
    LinkedAt(v, t);
  }

  lemma AttachedOwnKid(v: View, t: Node, n: Node, d: bool, side: bool)
    requires CanAttach(v, t, n, d)
    ensures t in Attached(v, t, n, d).mem && t in Attached(v, t, n, d).span && KidOk(Attached(v, t, n, d), t, side)
  {
    hide Shape, UpOk;
    AttachedFrame(v, t, n, d);
    LinkedAt(v, t);
  }

  lemma AttachedNew(v: View, t: Node, n: Node, d: bool)
    requires CanAttach(v, t, n, d)
    ensures Linked(Attached(v, t, n, d), n) && Linked(Attached(v, t, n, d), t)
  {
    hide Shape, KidOk;
    AttachedFrame(v, t, n, d);
    LinkedAt(v, t);
    AttachedLeaf(v, t, n, d);
    AttachedOwnKid(v, t, n, d, false);
    AttachedOwnKid(v, t, n, d, true);
  }

  /** The slice of another node, and its place in the sequence. */
  lemma AttachedPlace(v: View, t: Node, n: Node, d: bool, c: Node)
    requires CanAttach(v, t, n, d) && c in v.span && c != t && Linked(v, t) && Linked(v, c)
    ensures var w := Attached(v, t, n, d);
            && c in w.span && 0 <= w.span[c].lo <= w.span[c].pos < w.span[c].hi <= |w.order| && w.order[w.span[c].pos] == c
  {
    hide Shape, KidOk, UpOk, AttachedMem;
    assert v.span[c].pos != v.span[t].pos;
  }

  lemma AttachedUp(v: View, t: Node, n: Node, d: bool, c: Node)
    requires CanAttach(v, t, n, d) && c in v.span && c != t && Linked(v, t) && Linked(v, c)
    ensures c in Attached(v, t, n, d).mem && UpOk(Attached(v, t, n, d), c)
  {
    hide Shape, KidOk;
    LinkedAt(v, t);
    AttachedCells(v, t, n, d);
    if c != v.root { LinkedAt(v, v.mem[c].parent); }
  }

  lemma AttachedOther(v: View, t: Node, n: Node, d: bool, c: Node)
    requires CanAttach(v, t, n, d) && c in v.span && c != t
    ensures Linked(Attached(v, t, n, d), c)
  {
    hide KidOk, UpOk, Shape, Attached;
    LinkedAt(v, t);
    LinkedAt(v, c);
    AttachedFrame(v, t, n, d);
    AttachedPlace(v, t, n, d, c);
    AttachedUp(v, t, n, d, c);
    AttachedKid(v, t, n, d, c, false);
    AttachedKid(v, t, n, d, c, true);
  }

  lemma AttachedKid(v: View, t: Node, n: Node, d: bool, c: Node, side: bool)
    requires CanAttach(v, t, n, d) && c in v.span && c != t && Linked(v, c) && Linked(v, t)
    requires v.span[t].From(d) == v.span[t].To(d)
    ensures c in Attached(v, t, n, d).mem && KidOk(Attached(v, t, n, d), c, side)
  {
    var w, k := Attached(v, t, n, d), v.mem[c].Kid(side);
    assert v.span[c].pos != v.span[t].pos;
    if v.span[c].From(side) != v.span[c].To(side) {
      assert k != n;
    }
  }

  lemma AttachKeepsShape(v: View, t: Node, n: Node, d: bool)
    requires CanAttach(v, t, n, d)
    ensures Shape(Attached(v, t, n, d))
  {
    hide Linked, AttachedMem;
    var w := Attached(v, t, n, d);
    AttachedFrame(v, t, n, d);
    assert Linked(v, t);
    forall i | 0 <= i < |w.order| ensures Placed(w, i) {
      if i < AttachAt(v, t, d) { assert Placed(v, i); }
      if i > AttachAt(v, t, d) { assert Placed(v, i - 1); }
    }
    forall c | c in w.span ensures Linked(w, c) {
      if c == n || c == t { AttachedNew(v, t, n, d); }
      else { AttachedOther(v, t, n, d, c); }
    }
  }

  // ----- taking a node out

  /** A slice bound after position k is gone. */
  ghost function Down(b: int, k: int): int { if k < b then b - 1 else b }

  ghost function Shrink(s: Span, k: int): Span { Span(Down(s.lo, k), Down(s.pos, k), Down(s.hi, k)) }

  /** w's sequence is v's without n. */
  ghost predicate Taken(v: View, n: Node, w: View)
  {
    && n in v.span && 0 <= v.span[n].pos < |v.order| && v.order[v.span[n].pos] == n
    && w.order == Without(v.order, v.span[n].pos) && w.span.Keys == v.span.Keys - {n}
  }

  /** n has an empty side; t is what hangs on the other one. */
  ghost predicate CanSplice(v: View, n: Node, t: Node)
  {
    && Shape(v) && n in v.span
    && (if v.mem[n].left == v.z then t == v.mem[n].right else v.mem[n].right == v.z && t == v.mem[n].left)
  }

  lemma SpliceFacts(v: View, n: Node, t: Node)
    requires CanSplice(v, n, t)
    ensures Linked(v, n) && t in v.mem && t != n && v.order != []
    ensures t != v.z ==> t in v.span && Linked(v, t) && t != v.root && v.mem[t].parent == n
    ensures t == v.z ==> v.span[n].lo + 1 == v.span[n].hi
    ensures t != v.z ==> Shrink(v.span[t], v.span[n].pos).lo == v.span[n].lo
                         && Shrink(v.span[t], v.span[n].pos).hi == v.span[n].hi - 1
    ensures n != v.root ==> && v.mem[n].parent != null && v.mem[n].parent in v.span && Linked(v, v.mem[n].parent)
                            && v.mem[n].parent != n && v.mem[n].parent != t
                            && (v.mem[v.mem[n].parent].left == n || v.mem[v.mem[n].parent].right == n)
                            && v.mem[v.mem[n].parent].left != v.mem[v.mem[n].parent].right
  {
    assert Linked(v, n) && Linked(v, v.root);
    if t != v.z { assert Linked(v, t); }
    if n != v.root { assert Linked(v, v.mem[n].parent); }
  }

  /** The links once t has taken n's place under n's parent; n itself is left as it was. */
  ghost function SplicedMem(v: View, n: Node, t: Node): map<Node, Cell>
    requires CanSplice(v, n, t)
  {
    SpliceFacts(v, n, t);
    if n == v.root then v.mem
    else
      var p := v.mem[n].parent;
      v.mem[p := v.mem[p].WithKid(v.mem[p].left != n, t)][t := v.mem[t].(parent := p)]
  }

  ghost function Spliced(v: View, n: Node, t: Node): View
    requires CanSplice(v, n, t)
  {
    SpliceFacts(v, n, t);
    var k := v.span[n].pos;
    View(v.z, if n == v.root then t else v.root, SplicedMem(v, n, t) - {n}, Without(v.order, k),
         map c | c in v.span && c != n :: Shrink(v.span[c], k))
  }

  lemma SplicedPlaced(v: View, n: Node, t: Node, i: int)
    requires CanSplice(v, n, t) && 0 <= i < |Spliced(v, n, t).order|
    ensures Placed(Spliced(v, n, t), i)
  {
    hide Frame, SplicedMem, KidOk, UpOk;
    assert Linked(v, n);
    var k := v.span[n].pos;
    assert Placed(v, if i < k then i else i + 1);
  }

  lemma SplicedKeys(v: View, n: Node, t: Node)
    requires CanSplice(v, n, t)
    ensures Frame(Spliced(v, n, t)) && Spliced(v, n, t).span.Keys == v.span.Keys - {n}
  {
    hide UpOk;
    SpliceFacts(v, n, t);
    var w := Spliced(v, n, t);
    assert Linked(v, v.root);
    assert w.span.Keys == v.span.Keys - {n};
    assert w.mem.Keys == w.span.Keys + {v.z};
    assert Placed(v, 0) && Placed(v, |v.order| - 1);
  }

  lemma SplicedFrame(v: View, n: Node, t: Node)
    requires CanSplice(v, n, t)
    ensures Frame(Spliced(v, n, t)) && Spliced(v, n, t).span.Keys == v.span.Keys - {n}
    ensures forall i {:trigger Placed(Spliced(v, n, t), i)} ::
              0 <= i < |Spliced(v, n, t).order| ==> Placed(Spliced(v, n, t), i)
  {
    hide CanSplice, Spliced, Placed, Frame;
    SplicedKeys(v, n, t);
    forall i | 0 <= i < |Spliced(v, n, t).order| ensures Placed(Spliced(v, n, t), i) { SplicedPlaced(v, n, t, i); }
  }

  lemma SpliceTakes(v: View, n: Node, t: Node)
    requires CanSplice(v, n, t)
    ensures Taken(v, n, Spliced(v, n, t)) && t in v.mem && n != v.z && t != n
    ensures n != v.root ==> t != Spliced(v, n, t).root || t == v.z
  {
    SpliceFacts(v, n, t);
    SplicedFrame(v, n, t);
    assert Linked(v, n);
  }

  /** Node c once t has taken n's place under n's parent. */
  ghost function SplicedCell(m: map<Node, Cell>, n: Node, t: Node, c: Node): Cell
    requires n in m && c in m
  {
    var p := m[n].parent;
    Cell(if c == p && m[c].left == n then t else m[c].left, if c == p && m[c].left != n then t else m[c].right,
         if c == t then p else m[c].parent, m[c].red)
  }

  lemma SplicedCells(v: View, n: Node, t: Node)
    requires CanSplice(v, n, t) && n != v.root
    ensures n in v.span && n in v.mem && v.mem.Keys == v.span.Keys + {v.z} && v.z !in v.span
    ensures var w := Spliced(v, n, t);
            && w.z == v.z && w.root == v.root && w.mem.Keys == v.mem.Keys - {n} && w.span.Keys == v.span.Keys - {n}
            && forall c {:trigger w.mem[c]} :: c in w.mem ==> w.mem[c] == SplicedCell(v.mem, n, t, c)
  {
    hide KidOk, UpOk, Placed;
    SpliceFacts(v, n, t);
    SplicedKeys(v, n, t);
  }

  /** Slices that lie on one side of the node that goes keep their bounds next to each other. */
  lemma ShrinkKeeps(s: Span, k: Span, at: int, side: bool)
    requires s.lo <= s.pos < s.hi && k.lo <= k.pos < k.hi && s.pos != at && k.pos != at
    requires k.lo == s.From(side) && k.hi == s.To(side)
    ensures Shrink(k, at).lo == Shrink(s, at).From(side) && Shrink(k, at).hi == Shrink(s, at).To(side)
    ensures Shrink(s, at).From(side) != Shrink(s, at).To(side)
  {
  }

  /** The node's own place goes to t. */
  lemma SplicedKidOver(v: View, n: Node, t: Node, c: Node, side: bool)
    requires CanSplice(v, n, t) && c in v.span && c != n && Linked(v, c) && v.mem[c].Kid(side) == n
    ensures c in Spliced(v, n, t).mem && c in Spliced(v, n, t).span
    ensures KidOk(Spliced(v, n, t), c, side)
  {
    hide Placed, UpOk;
    SpliceFacts(v, n, t);
    var w := Spliced(v, n, t);
    assert w.span[c] == Shrink(v.span[c], v.span[n].pos);
    assert c == v.mem[n].parent;
    assert w.mem[c].Kid(side) == t;
  }

  /** Other kids stay. */
  lemma SplicedKidStays(v: View, n: Node, t: Node, c: Node, side: bool)
    requires CanSplice(v, n, t) && c in v.span && c != n && Linked(v, c) && v.mem[c].Kid(side) != n
    ensures c in Spliced(v, n, t).mem && c in Spliced(v, n, t).span
    ensures KidOk(Spliced(v, n, t), c, side)
  {
    hide Shape, UpOk, Spliced, Shrink;
    LinkedAt(v, n);
    SplicedKidCell(v, n, t, c, side);
    var k := v.mem[c].Kid(side);
    if k != v.z {
      LinkedAt(v, k);
      ShrinkKeeps(v.span[c], v.span[k], v.span[n].pos, side);
    } else {
      ShrinkEmpty(v.span[c], v.span[n].pos, side);
    }
  }

  lemma ShrinkEmpty(s: Span, at: int, side: bool)
    requires s.lo <= s.pos < s.hi && s.pos != at && s.From(side) == s.To(side)
    ensures Shrink(s, at).From(side) == Shrink(s, at).To(side)
  {
  }

  lemma SplicedSpan(v: View, n: Node, t: Node, c: Node)
    requires CanSplice(v, n, t) && c in v.span && c != n
    ensures var w := Spliced(v, n, t); w.z == v.z && c in w.span && w.span[c] == Shrink(v.span[c], v.span[n].pos)
    ensures n == v.root ==> v.mem.Keys == v.span.Keys + {v.z} && v.z !in v.span && Spliced(v, n, t).mem == v.mem - {n}
  {
    hide Shrink, UpOk, KidOk, Placed;
  }

  /** The links between c and its kid on one side, and their slices. */
  lemma SplicedKidCell(v: View, n: Node, t: Node, c: Node, side: bool)
    requires CanSplice(v, n, t) && c in v.span && c != n && Linked(v, c) && v.mem[c].Kid(side) != n && Linked(v, n)
    ensures var w, k, at := Spliced(v, n, t), v.mem[c].Kid(side), v.span[n].pos;
            && c in w.mem && c in w.span && w.z == v.z && w.mem[c].Kid(side) == k && w.span[c] == Shrink(v.span[c], at)
            && (k != v.z ==> k in v.span && k in w.mem && k in w.span && w.mem[k].parent == c && w.span[k] == Shrink(v.span[k], at))
  {
    hide Shape, UpOk, Spliced, Shrink;
    SpliceFacts(v, n, t);
    SplicedSpan(v, n, t, c);
    if n != v.root { SplicedCells(v, n, t); }
    var k := v.mem[c].Kid(side);
    if k != v.z {
      LinkedAt(v, k);
      SplicedSpan(v, n, t, k);
      assert k != t;
    }
  }

  lemma SplicedKid(v: View, n: Node, t: Node, c: Node, side: bool)
    requires CanSplice(v, n, t) && c in v.span && c != n
    ensures c in Spliced(v, n, t).mem && c in Spliced(v, n, t).span
    ensures KidOk(Spliced(v, n, t), c, side)
  {
    hide Spliced, KidOk;
    assert Linked(v, c);
    if v.mem[c].Kid(side) == n { SplicedKidOver(v, n, t, c, side); } else { SplicedKidStays(v, n, t, c, side); }
  }

  lemma SplicedUp(v: View, n: Node, t: Node, c: Node)
    requires CanSplice(v, n, t) && c in v.span && c != n
    ensures c in Spliced(v, n, t).mem && UpOk(Spliced(v, n, t), c)
  {
    hide Placed, KidOk, Without;
    SpliceFacts(v, n, t);
    assert Linked(v, c);
    var w := Spliced(v, n, t);
    if c != t && c != v.root {
      var q := v.mem[c].parent;
      assert Linked(v, q);
      assert q != n;
      assert w.mem[c].parent == q;
    }
  }

  lemma SplicedLinked(v: View, n: Node, t: Node, c: Node)
    requires CanSplice(v, n, t) && c in v.span && c != n
    ensures Linked(Spliced(v, n, t), c)
  {
    SplicedKid(v, n, t, c, false);
    SplicedKid(v, n, t, c, true);
    SplicedUp(v, n, t, c);
    assert Linked(v, c) && Linked(v, n);
  }

  lemma SpliceKeepsShape(v: View, n: Node, t: Node)
    requires CanSplice(v, n, t)
    ensures Shape(Spliced(v, n, t))
  {
    SplicedFrame(v, n, t);
    forall c | c in Spliced(v, n, t).span ensures Linked(Spliced(v, n, t), c) {
      SplicedLinked(v, n, t, c);
    }
  }

  // ----- putting one node in another's place

  ghost predicate CanRename(v: View, n: Node, s: Node)
  {
    Shape(v) && n in v.span && s !in v.mem
  }

  ghost function Renamed(v: View, n: Node, s: Node): View
    requires CanRename(v, n, s)
  {
    assert Linked(v, n);
    var m := map c | c in v.mem && c != n ::
               var e := v.mem[c];
               if c == v.z then e
               else Cell(if e.left == n then s else e.left, if e.right == n then s else e.right,
                         if c != v.root && e.parent == n then s else e.parent, e.red);
    View(v.z, if v.root == n then s else v.root, m[s := v.mem[n]], v.order[v.span[n].pos := s],
         (v.span - {n})[s := v.span[n]])
  }

  lemma RenamedFrame(v: View, n: Node, s: Node)
    requires CanRename(v, n, s)
    ensures Frame(Renamed(v, n, s)) && Renamed(v, n, s).span.Keys == v.span.Keys - {n} + {s}
    ensures forall i {:trigger Placed(Renamed(v, n, s), i)} ::
              0 <= i < |v.order| ==> Placed(Renamed(v, n, s), i)
  {
    assert Linked(v, n);
    var w := Renamed(v, n, s);
    forall i | 0 <= i < |w.order| ensures Placed(w, i) { assert Placed(v, i); }
  }

  /** What Renamed changes, cell by cell. */
  lemma RenamedCells(v: View, n: Node, s: Node)
    requires CanRename(v, n, s)
    ensures n in v.mem && n != v.z && s != v.z && v.z in v.mem
    ensures var w := Renamed(v, n, s);
            && w.z == v.z && w.root == (if v.root == n then s else v.root)
            && w.mem.Keys == v.mem.Keys - {n} + {s} && w.span.Keys == v.span.Keys - {n} + {s}
            && w.mem[s] == v.mem[n] && w.mem[v.z] == v.mem[v.z]
            && forall c {:trigger w.mem[c]} :: c in v.mem && c != n && c != v.z ==>
                 var e := v.mem[c];
                 w.mem[c] == Cell(if e.left == n then s else e.left, if e.right == n then s else e.right,
                                  if c != v.root && e.parent == n then s else e.parent, e.red)
  {
    LinkedAt(v, n);
  }

  lemma RenamedSpans(v: View, n: Node, s: Node)
    requires CanRename(v, n, s)
    ensures var w := Renamed(v, n, s);
            && v.span.Keys == v.mem.Keys - {v.z} && w.span.Keys == v.span.Keys - {n} + {s} && w.span[s] == v.span[n]
            && (forall c {:trigger w.span[c]} :: c in v.span && c != n ==> w.span[c] == v.span[c])
            && 0 <= v.span[n].pos < |v.order| && w.order == v.order[v.span[n].pos := s]
  {
    LinkedAt(v, n);
  }

  lemma RenamedKid(v: View, n: Node, s: Node, c: Node, side: bool)
    requires CanRename(v, n, s) && c in v.span && c != n
    ensures c in Renamed(v, n, s).mem && c in Renamed(v, n, s).span && KidOk(Renamed(v, n, s), c, side)
  {
    assert Linked(v, n) && Linked(v, c) && Linked(v, v.root);
    var k := v.mem[c].Kid(side);
    if k != v.z && k != n { assert Linked(v, k); }
  }

  lemma RenamedOwnKid(v: View, n: Node, s: Node, side: bool)
    requires CanRename(v, n, s)
    ensures s in Renamed(v, n, s).mem && s in Renamed(v, n, s).span && KidOk(Renamed(v, n, s), s, side)
  {
    hide Shape, Renamed;
    RenamedCells(v, n, s);
    RenamedSpans(v, n, s);
    LinkedAt(v, n);
    var k := v.mem[n].Kid(side);
    if k != v.z { LinkedAt(v, k); }
  }

  lemma RenamedSelf(v: View, n: Node, s: Node)
    requires CanRename(v, n, s)
    ensures Linked(Renamed(v, n, s), s)
  {
    hide Shape, Renamed;
    RenamedCells(v, n, s);
    RenamedSpans(v, n, s);
    RenamedOwnKid(v, n, s, false);
    RenamedOwnKid(v, n, s, true);
    LinkedAt(v, n);
    if n != v.root { LinkedAt(v, v.mem[n].parent); }
    HasRoot(v);
  }

  lemma RenamedLinked(v: View, n: Node, s: Node, c: Node)
    requires CanRename(v, n, s) && c in v.span && c != n
    ensures Linked(Renamed(v, n, s), c)
  {
    hide Shape, KidOk;
    LinkedAt(v, n);
    LinkedAt(v, c);
    RenamedFrame(v, n, s);
    RenamedKid(v, n, s, c, false);
    RenamedKid(v, n, s, c, true);
    if c != v.root && v.mem[c].parent != n { LinkedAt(v, v.mem[c].parent); }
  }

  lemma RenameKeepsShape(v: View, n: Node, s: Node)
    requires CanRename(v, n, s)
    ensures Shape(Renamed(v, n, s))
  {
    var w := Renamed(v, n, s);
    RenamedFrame(v, n, s);
    assert |w.order| == |v.order|;
    forall c | c in w.span ensures Linked(w, c) {
      if c == s { RenamedSelf(v, n, s); } else { RenamedLinked(v, n, s, c); }
    }
  }

  // ----- colours, and the sentinel's scratch fields, do not matter to the shape

  ghost predicate SameLinks(v: View, w: View)
  {
    && w.z == v.z && w.root == v.root && w.order == v.order && w.span == v.span && w.mem.Keys == v.mem.Keys
    && forall n {:trigger w.mem[n]} | n in v.span && n in v.mem && n in w.mem ::
         w.mem[n].left == v.mem[n].left && w.mem[n].right == v.mem[n].right && w.mem[n].parent == v.mem[n].parent
  }

  lemma SameLinksSameShape(v: View, w: View)
    requires Shape(v) && SameLinks(v, w)
    ensures Shape(w)
  {
    forall i | 0 <= i < |w.order| ensures Placed(w, i) { assert Placed(v, i); }
    forall n | n in w.span ensures Linked(w, n) {
      assert Linked(v, n);
      if n != v.root { assert Linked(v, v.mem[n].parent); }
    }
  }

  // ----- taking out a node with two kids: its successor s leaves its own place for n's

  ghost predicate HasSuccessor(v: View, n: Node, s: Node, t: Node)
  {
    && Shape(v) && n in v.span && s in v.span && v.mem[n].left != v.z && v.mem[n].right != v.z
    && v.span[s].pos == v.span[n].pos + 1 && v.mem[s].left == v.z && v.mem[s].right == t
  }

  lemma SuccessorFacts(v: View, n: Node, s: Node, t: Node)
    requires HasSuccessor(v, n, s, t)
    ensures CanSplice(v, s, t) && s != v.root && s != n && t != n && t != s && t in v.mem
    ensures v.mem[s].parent != null && v.mem[s].parent in v.span && v.mem[s].parent != s && v.mem[s].parent != t
    ensures v.mem[n].left != null && v.mem[n].left in v.span && v.mem[n].right != null && v.mem[n].right in v.span
    ensures v.mem[n].left != s && v.mem[n].left != t && v.mem[n].left != n && v.mem[n].right != n && v.mem[n].left != v.mem[n].right
    ensures v.mem[n].right == s <==> v.mem[s].parent == n
    ensures v.mem[s].parent != n ==> v.mem[v.mem[s].parent].left == s && v.mem[v.mem[s].parent].right != s && v.mem[n].right != t
    ensures n != v.root ==> && v.mem[n].parent != null && v.mem[n].parent in v.span
                            && v.mem[n].parent != n && v.mem[n].parent != s && v.mem[n].parent != t
                            && v.mem[n].parent != v.mem[s].parent
                            && v.mem[n].parent != v.mem[n].left && v.mem[n].parent != v.mem[n].right
                            && (v.mem[v.mem[n].parent].left == n || v.mem[v.mem[n].parent].right == n)
                            && v.mem[v.mem[n].parent].left != v.mem[v.mem[n].parent].right
  {
    hide Placed;
    assert Linked(v, n) && Linked(v, s) && Linked(v, v.root);
    if t != v.z { assert Linked(v, t); }
    assert Linked(v, v.mem[s].parent) && Linked(v, v.mem[n].left) && Linked(v, v.mem[n].right);
    if n != v.root { assert Linked(v, v.mem[n].parent); }
  }

  /** The successor spliced out and renamed into n's place. */
  ghost function Succeeded(v: View, n: Node, s: Node, t: Node): View
    requires HasSuccessor(v, n, s, t)
  {
    SuccessorFacts(v, n, s, t);
    SpliceKeepsShape(v, s, t);
    SplicedFrame(v, s, t);
    Renamed(Spliced(v, s, t), n, s)
  }

  lemma SucceededOrder(v: View, n: Node, s: Node, t: Node)
    requires HasSuccessor(v, n, s, t)
    ensures n in v.span && 0 <= v.span[n].pos < |v.order|
    ensures Succeeded(v, n, s, t).order == Without(v.order, v.span[n].pos)
  {
    hide KidOk, SplicedMem;
    SuccessorFacts(v, n, s, t);
    SpliceKeepsShape(v, s, t);
    SplicedFrame(v, s, t);
    assert Linked(v, n) && Linked(v, s);
    hide Shape, CanSplice, HasSuccessor, SplicedMem;
    var u, i := Spliced(v, s, t), v.span[n].pos;
    assert u.span[n].pos == i && u.order == Without(v.order, i + 1) && v.order[i + 1] == s;
    assert u.order[i := s] == Without(v.order, i);
  }

  lemma SucceededFrame(v: View, n: Node, s: Node, t: Node)
    requires HasSuccessor(v, n, s, t)
    ensures var w := Succeeded(v, n, s, t);
            && w.z == v.z && w.z !in w.span && w.span.Keys == v.span.Keys - {n} && w.mem.Keys == w.span.Keys + {w.z}
            && w.root == (if v.root == n then s else v.root) && w.z in v.mem
            && w.mem[w.z].left == v.mem[w.z].left && w.mem[w.z].right == v.mem[w.z].right && w.mem[w.z].red == v.mem[w.z].red
  {
    hide Shape, Spliced, Renamed, KidOk, UpOk;
    SuccessorFacts(v, n, s, t);
    SpliceKeepsShape(v, s, t);
    SplicedCells(v, s, t);
    RenamedCells(Spliced(v, s, t), n, s);
  }

  lemma SuccessorTakes(v: View, n: Node, s: Node, t: Node)
    requires HasSuccessor(v, n, s, t)
    ensures Taken(v, n, Succeeded(v, n, s, t)) && n != v.z
  {
    SucceededFrame(v, n, s, t);
    SucceededOrder(v, n, s, t);
    assert Linked(v, n);
  }

  /** Node c once s has left its own place to t and taken over n's links and colour. */
  ghost function SuccessorCell(m: map<Node, Cell>, root: Node, n: Node, s: Node, t: Node, c: Node): Cell
    requires n in m && s in m && c in m
  {
    var q := m[s].parent;
    Cell(
      if c == s then m[n].left
      else if q != n && c == q then t
      else if n != root && c == m[n].parent && m[c].left == n then s
      else m[c].left,
      if c == s then (if q == n then t else m[n].right)
      else if n != root && c == m[n].parent && m[c].left != n then s
      else m[c].right,
      if c == s then m[n].parent
      else if c == t then (if q == n then s else q)
      else if c == m[n].left || c == m[n].right then s
      else m[c].parent,
      if c == s then m[n].red else m[c].red)
  }

  /** Who has n as a kid, and who has n as a parent. */
  lemma Relatives(v: View, n: Node, c: Node)
    requires Shape(v) && n in v.span && c in v.span && c != n
    ensures n in v.mem && c in v.mem
    ensures v.mem[c].left == n || v.mem[c].right == n <==> n != v.root && c == v.mem[n].parent
    ensures n != v.root && c == v.mem[n].parent ==> v.mem[c].left != v.mem[c].right
    ensures c == v.mem[n].left || c == v.mem[n].right <==> c != v.root && v.mem[c].parent == n
  {
    hide Placed;
    assert Linked(v, n) && Linked(v, c) && Linked(v, v.root);
  }

  lemma SucceededOther(v: View, n: Node, s: Node, t: Node, c: Node)
    requires HasSuccessor(v, n, s, t) && c in v.span && c != n && c != s
    ensures n in v.mem && s in v.mem && c in v.mem && c in Succeeded(v, n, s, t).mem
    ensures Succeeded(v, n, s, t).mem[c] == SuccessorCell(v.mem, v.root, n, s, t, c)
  {
    hide SplicedMem, Linked, Placed;
    SuccessorFacts(v, n, s, t);
    SpliceKeepsShape(v, s, t);
    SplicedFrame(v, s, t);
    SpliceFacts(v, s, t);
    SplicedAt(v, s, t, c);
    Relatives(v, n, c);
  }

  lemma SucceededSelf(v: View, n: Node, s: Node, t: Node)
    requires HasSuccessor(v, n, s, t)
    ensures n in v.mem && s in v.mem && s in Succeeded(v, n, s, t).mem
    ensures Succeeded(v, n, s, t).mem[s] == SuccessorCell(v.mem, v.root, n, s, t, s)
  {
    hide SplicedMem, Linked, Placed;
    SuccessorFacts(v, n, s, t);
    SpliceKeepsShape(v, s, t);
    SplicedFrame(v, s, t);
    SplicedAt(v, s, t, n);
    Relatives(v, n, s);
  }

  /** Splicing and renaming, cell by cell. */
  lemma SucceededAt(v: View, n: Node, s: Node, t: Node, c: Node)
    requires HasSuccessor(v, n, s, t) && c in v.span && c != n
    ensures n in v.mem && s in v.mem && c in v.mem && c in Succeeded(v, n, s, t).mem
    ensures Succeeded(v, n, s, t).mem[c] == SuccessorCell(v.mem, v.root, n, s, t, c)
  {
    hide Succeeded, SuccessorCell;
    if c == s { SucceededSelf(v, n, s, t); } else { SucceededOther(v, n, s, t, c); }
  }

  lemma SucceededCells(v: View, n: Node, s: Node, t: Node)
    requires HasSuccessor(v, n, s, t)
    ensures n in v.mem && s in v.mem && v.mem.Keys == v.span.Keys + {v.z} && v.z !in v.span && n in v.span
    ensures var w := Succeeded(v, n, s, t);
            && w.z == v.z && w.span.Keys == v.span.Keys - {n} && w.mem.Keys == w.span.Keys + {w.z}
            && w.root == (if v.root == n then s else v.root)
            && w.mem[w.z].left == v.mem[w.z].left && w.mem[w.z].right == v.mem[w.z].right && w.mem[w.z].red == v.mem[w.z].red
            && forall c {:trigger w.mem[c]} :: c in w.span ==> w.mem[c] == SuccessorCell(v.mem, v.root, n, s, t, c)
  {
    hide Succeeded, SuccessorCell, Shape;
    SuccessorFrame(v, n, s, t);
    SucceededFrame(v, n, s, t);
    forall c | c in v.span && c != n
      ensures c in Succeeded(v, n, s, t).mem && Succeeded(v, n, s, t).mem[c] == SuccessorCell(v.mem, v.root, n, s, t, c)
    {
      SucceededAt(v, n, s, t, c);
    }
  }

  lemma SuccessorFrame(v: View, n: Node, s: Node, t: Node)
    requires HasSuccessor(v, n, s, t)
    ensures n in v.mem && s in v.mem && v.mem.Keys == v.span.Keys + {v.z} && v.z !in v.span && n in v.span
  {
    SuccessorFacts(v, n, s, t);
  }

  lemma SplicedAt(v: View, s: Node, t: Node, c: Node)
    requires CanSplice(v, s, t) && c in v.span && c != s && s != v.root
    ensures v.mem[s].parent != null && v.mem[s].parent in v.mem && c in v.mem && c in Spliced(v, s, t).mem
    ensures var p := v.mem[s].parent;
            Spliced(v, s, t).mem[c] ==
              if c == p then v.mem[c].WithKid(v.mem[p].left != s, t)
              else if c == t then v.mem[c].(parent := p)
              else v.mem[c]
  {
    SpliceFacts(v, s, t);
  }
}
