/** Colours and black heights on the picture of RbView: one step of each rebalancing loop. */
module RbBalance {
  import opened RbView
  import opened Sequences

  type Heights = map<Node, nat>

  ghost predicate IsBlack(v: View, k: Node?) { k != null && k in v.mem && !v.mem[k].red }

  /** Both sides of n carry the same number of black nodes. */
  ghost predicate Even(v: View, bh: Heights, n: Node)
  {
    && n in v.mem && n in bh
    && var c := v.mem[n];
       && c.left != null && c.right != null && c.left in bh && c.right in bh
       && bh[c.left] == bh[c.right] && bh[n] == bh[c.left] + (if c.red then 0 else 1)
  }

  /** A red n has no red kid, except possibly x. */
  ghost predicate Cool(v: View, n: Node, x: Node?)
  {
    && n in v.mem
    && var c := v.mem[n];
       c.red ==> (c.left == x || IsBlack(v, c.left)) && (c.right == x || IsBlack(v, c.right))
  }

  ghost predicate Counted(v: View, bh: Heights)
  {
    bh.Keys == v.mem.Keys && v.z in v.mem && bh[v.z] == 0 && !v.mem[v.z].red
  }

  ghost predicate AllEven(v: View, bh: Heights) { forall n {:trigger Even(v, bh, n)} :: n in v.span ==> Even(v, bh, n) }

  ghost predicate AllCool(v: View, x: Node?) { forall n {:trigger Cool(v, n, x)} :: n in v.span ==> Cool(v, n, x) }

  /** The red-black invariants, with bh as the black heights. */
  ghost predicate RedBlack(v: View, bh: Heights)
  {
    Shape(v) && Counted(v, bh) && AllEven(v, bh) && AllCool(v, null) && IsBlack(v, v.root)
  }

  ghost function Painted(v: View, n: Node, red: bool): View
    requires n in v.mem
  {
    v.(mem := v.mem[n := v.mem[n].(red := red)])
  }

  lemma PaintKeepsShape(v: View, n: Node, red: bool)
    requires Shape(v) && n in v.mem
    ensures Shape(Painted(v, n, red))
  {
    hide Shape;
    SameLinksSameShape(v, Painted(v, n, red));
  }

  // ----- insertion: x is red, and only the edge above x may be red-red

  ghost predicate Inserting(v: View, bh: Heights, x: Node)
  {
    && Shape(v) && Counted(v, bh) && AllEven(v, bh) && AllCool(v, x)
    && x in v.span && v.mem[x].red && (x == v.root || IsBlack(v, v.root))
  }

  ghost predicate RedRed(v: View, bh: Heights, x: Node)
  {
    Inserting(v, bh, x) && x != v.root && !IsBlack(v, v.mem[x].parent)
  }

  /** p is the red parent of x, g its parent, d the side of p under g, and u the uncle of x. */
  ghost predicate Kin(v: View, bh: Heights, x: Node, p: Node, g: Node, d: bool, u: Node)
  {
    && RedRed(v, bh, x)
    && v.mem[x].parent == p && p in v.span && p != v.root && p in v.mem && v.mem[p].parent == g && g in v.span && g in v.mem
    && d == (v.mem[g].left != p) && v.mem[g].Kid(d) == p && v.mem[g].Kid(!d) == u && u in v.mem
    && v.mem[p].red && !v.mem[g].red && x != p && x != g && p != g && u != p && u != g && u != x
    && (v.mem[p].left == x || v.mem[p].right == x) && v.mem[p].left != v.mem[p].right
    && x in bh && p in bh && g in bh && u in bh && bh[x] == bh[p] && bh[u] == bh[p] && bh[g] == bh[p] + 1
  }

  lemma Family(v: View, bh: Heights, x: Node) returns (p: Node, g: Node, d: bool, u: Node)
    requires RedRed(v, bh, x)
    ensures Kin(v, bh, x, p, g, d, u)
  {
    assert Linked(v, x);
    p := v.mem[x].parent;
    assert p in v.span by { assert v.mem[v.z].red == false; }
    assert Linked(v, p);
    g := v.mem[p].parent;
    assert g in v.span && Linked(v, g) && Cool(v, g, x) && Even(v, bh, g) && Even(v, bh, p) && Even(v, bh, x);
    d := v.mem[g].left != p;
    u := v.mem[g].Kid(!d);
    if u != v.z { assert Linked(v, u); }
  }

  /** Only g has its kid p. */
  lemma KidsOfOthers(v: View, p: Node, g: Node, n: Node)
    requires Shape(v) && n in v.span && p in v.span && p != v.root && v.mem[p].parent == g && n != g
    ensures n in v.mem && v.mem[n].left != p && v.mem[n].right != p
  {
    assert Linked(v, n) && Linked(v, p);
  }

  /** The kids of c, whose parent is b, whose parent is a, are none of the three. */
  lemma KidsBelow(v: View, a: Node, b: Node, c: Node)
    requires Shape(v) && a in v.span && b in v.span && c in v.span && b != v.root && c != v.root
    requires v.mem[b].parent == a && v.mem[c].parent == b
    ensures c in v.mem && v.mem[c].left !in {a, b, c} && v.mem[c].right !in {a, b, c}
  {
    hide Shape;
    LinkedAt(v, a);
    LinkedAt(v, b);
    LinkedAt(v, c);
  }

  ghost function Recoloured(v: View, p: Node, u: Node, g: Node): View
    requires p in v.mem && u in v.mem && g in v.mem
  {
    Painted(Painted(Painted(v, p, false), u, false), g, true)
  }

  lemma RecolourKeepsShape(v: View, p: Node, u: Node, g: Node)
    requires Shape(v) && p in v.mem && u in v.mem && g in v.mem
    ensures Shape(Recoloured(v, p, u, g))
  {
    hide Shape;
    SameLinksSameShape(v, Recoloured(v, p, u, g));
  }

  lemma RecolouredEven(v: View, bh: Heights, x: Node, p: Node, g: Node, d: bool, u: Node, n: Node)
    requires Kin(v, bh, x, p, g, d, u) && v.mem[u].red && n in v.span
    ensures Even(Recoloured(v, p, u, g), bh[p := bh[p] + 1][u := bh[u] + 1], n)
  {
    hide Shape, Cool;
    assert Even(v, bh, n);
    LinkedAt(v, g);
    LinkedAt(v, u);
    if n != g {
      KidsOfOthers(v, p, g, n);
      KidsOfOthers(v, u, g, n);
    }
  }

  lemma RecolouredCool(v: View, bh: Heights, x: Node, p: Node, g: Node, d: bool, u: Node, n: Node)
    requires Kin(v, bh, x, p, g, d, u) && v.mem[u].red && n in v.span
    ensures Cool(Recoloured(v, p, u, g), n, g)
  {
    hide Shape, Even;
    assert Cool(v, n, x);
    LinkedAt(v, g);
    if n != p { KidsOfOthers(v, x, p, n); }
  }

  lemma Climbs(v: View, bh: Heights, x: Node, p: Node, g: Node, d: bool, u: Node)
    requires Kin(v, bh, x, p, g, d, u)
    ensures x in v.span && v.span[x].hi - v.span[x].lo < v.span[g].hi - v.span[g].lo <= |v.order|
  {
    assert Linked(v, x) && Linked(v, p) && Linked(v, g);
  }

  /** Red uncle: push the black of g down to p and u, and continue at g. */
  lemma RecolourStep(v: View, bh: Heights, x: Node, p: Node, g: Node, d: bool, u: Node)
    requires Kin(v, bh, x, p, g, d, u) && v.mem[u].red
    ensures Inserting(Recoloured(v, p, u, g), bh[p := bh[p] + 1][u := bh[u] + 1], g)
  {
    hide Frame, KidOk, UpOk, Even;
    var w, bh' := Recoloured(v, p, u, g), bh[p := bh[p] + 1][u := bh[u] + 1];
    RecolourKeepsShape(v, p, u, g);
    hide Shape, Even, Cool;
    forall n | n in w.span ensures Even(w, bh', n) { RecolouredEven(v, bh, x, p, g, d, u, n); }
    forall n | n in w.span ensures Cool(w, n, g) { RecolouredCool(v, bh, x, p, g, d, u, n); }
  }

  // Black uncle, x on the inner side of p: turn p and x into an outer pair.

  ghost predicate Inner(v: View, bh: Heights, x: Node, p: Node, g: Node, d: bool, u: Node)
  {
    Kin(v, bh, x, p, g, d, u) && !v.mem[u].red && v.mem[p].Kid(!d) == x
  }

  lemma InnerEven(v: View, bh: Heights, x: Node, p: Node, g: Node, d: bool, u: Node, w: View, n: Node)
    requires Inner(v, bh, x, p, g, d, u) && Turn(v, w, p, x, d) && n in v.span
    ensures Even(w, bh, n)
  {
    assert Even(v, bh, n) && Linked(v, n) && Even(v, bh, x) && Even(v, bh, p);
  }

  lemma InnerCool(v: View, bh: Heights, x: Node, p: Node, g: Node, d: bool, u: Node, w: View, n: Node)
    requires Inner(v, bh, x, p, g, d, u) && Turn(v, w, p, x, d) && n in v.span
    ensures Cool(w, n, p)
  {
    assert Cool(v, n, x) && Linked(v, n) && Cool(v, x, x) && Cool(v, p, x) && Linked(v, x) && Linked(v, p);
    if n != p && n != x { KidsOfOthers(v, x, p, n); }
  }

  lemma InnerStep(v: View, bh: Heights, x: Node, p: Node, g: Node, d: bool, u: Node, w: View)
    requires Inner(v, bh, x, p, g, d, u) && Turn(v, w, p, x, d) && Shape(w)
    ensures Kin(w, bh, p, x, g, d, u) && w.mem[x].Kid(d) == p && !w.mem[u].red
  {
    assert Linked(v, p) && Linked(v, g) && Linked(v, x);
    if u != v.z { assert Linked(v, u); }
    forall n | n in w.span ensures Even(w, bh, n) { InnerEven(v, bh, x, p, g, d, u, w, n); }
    forall n | n in w.span ensures Cool(w, n, p) { InnerCool(v, bh, x, p, g, d, u, w, n); }
  }

  lemma InnerMove(v: View, bh: Heights, x: Node, p: Node, g: Node, d: bool, u: Node)
    requires Inner(v, bh, x, p, g, d, u)
    ensures CanRotate(v, p, d)
    ensures var w := Rotated(v, p, d); Outer(w, bh, p, x, g, d, u) && w.order == v.order && w.span.Keys == v.span.Keys
  {
    var y := RotateTurns(v, p, d);
    InnerStep(v, bh, x, p, g, d, u, Rotated(v, p, d));
  }

  // Black uncle, x on the outer side of p: p rises over g and takes its colour.

  ghost predicate Outer(v: View, bh: Heights, x: Node, p: Node, g: Node, d: bool, u: Node)
  {
    Kin(v, bh, x, p, g, d, u) && !v.mem[u].red && v.mem[p].Kid(d) == x
  }

  ghost function Swapped(v: View, p: Node, g: Node): View
    requires p in v.mem && g in v.mem
  {
    Painted(Painted(v, p, false), g, true)
  }

  lemma OuterEven(v: View, bh: Heights, x: Node, p: Node, g: Node, d: bool, u: Node, w: View, n: Node)
    requires Outer(v, bh, x, p, g, d, u) && Turn(Swapped(v, p, g), w, g, p, !d) && n in v.span
    ensures Even(w, bh[p := bh[g]][g := bh[p]], n)
  {
    assert Even(v, bh, n) && Linked(v, n) && Even(v, bh, g) && Even(v, bh, p) && Linked(v, p);
    if n != g { KidsOfOthers(v, p, g, n); }
  }

  lemma OuterCool(v: View, bh: Heights, x: Node, p: Node, g: Node, d: bool, u: Node, w: View, n: Node)
    requires Outer(v, bh, x, p, g, d, u) && Turn(Swapped(v, p, g), w, g, p, !d) && n in v.span
    ensures Cool(w, n, x)
  {
    assert Cool(v, n, x) && Linked(v, n) && Cool(v, p, x) && Cool(v, g, x) && Linked(v, p);
  }

  ghost function Exchanged(bh: Heights, p: Node, g: Node): Heights
    requires p in bh && g in bh
  {
    bh[p := bh[g]][g := bh[p]]
  }

  lemma OuterTop(v: View, bh: Heights, x: Node, p: Node, g: Node, d: bool, u: Node, w: View)
    requires p in bh && g in bh
    requires Outer(v, bh, x, p, g, d, u) && Turn(Swapped(v, p, g), w, g, p, !d)
    ensures w.span.Keys == v.span.Keys && Counted(w, bh[p := bh[g]][g := bh[p]])
    ensures x in w.span && x in w.mem && w.mem[x].red && IsBlack(w, w.mem[x].parent)
    ensures x == w.root || IsBlack(w, w.root)
  {
    hide Even, Cool, KidOk, UpOk, Placed;
    assert Linked(v, x);
  }

  lemma OuterStep(v: View, bh: Heights, x: Node, p: Node, g: Node, d: bool, u: Node, w: View)
    requires p in bh && g in bh
    requires Outer(v, bh, x, p, g, d, u) && Turn(Swapped(v, p, g), w, g, p, !d) && Shape(w)
    ensures Inserting(w, Exchanged(bh, p, g), x) && !RedRed(w, Exchanged(bh, p, g), x)
  {
    hide Shape, Turn, Outer, Even, Cool, Counted;
    var bh' := bh[p := bh[g]][g := bh[p]];
    OuterTop(v, bh, x, p, g, d, u, w);
    forall n | n in w.span ensures Even(w, bh', n) { OuterEven(v, bh, x, p, g, d, u, w, n); }
    forall n | n in w.span ensures Cool(w, n, x) { OuterCool(v, bh, x, p, g, d, u, w, n); }
  }

  lemma OuterMove(v: View, bh: Heights, x: Node, p: Node, g: Node, d: bool, u: Node)
    requires Outer(v, bh, x, p, g, d, u)
    ensures CanRotate(Swapped(v, p, g), g, !d)
    ensures var w, bh' := Rotated(Swapped(v, p, g), g, !d), bh[p := bh[g]][g := bh[p]];
            Inserting(w, bh', x) && !RedRed(w, bh', x) && w.order == v.order && w.span.Keys == v.span.Keys
  {
    SameLinksSameShape(v, Swapped(v, p, g));
    var w := Rotated(Swapped(v, p, g), g, !d);
    var y := RotateTurns(Swapped(v, p, g), g, !d);
    OuterStep(v, bh, x, p, g, d, u, w);
  }

  lemma FamilyOf(v: View, bh: Heights, x: Node)
    requires RedRed(v, bh, x)
    ensures v.mem[x].parent != null && v.mem[x].parent in v.mem
    ensures var p := v.mem[x].parent;
            && v.mem[p].parent != null && v.mem[p].parent in v.mem
            && var g := v.mem[p].parent;
               var d := v.mem[g].left != p;
               v.mem[g].Kid(!d) != null && Kin(v, bh, x, p, g, d, v.mem[g].Kid(!d))
  {
    var p, g, d, u := Family(v, bh, x);
  }

  ghost function Raised(v: View, bh: Heights, x: Node, p: Node, g: Node, d: bool, u: Node): (View, Heights, Node)
    requires Outer(v, bh, x, p, g, d, u)
  {
    OuterMove(v, bh, x, p, g, d, u);
    (Rotated(Swapped(v, p, g), g, !d), bh[p := bh[g]][g := bh[p]], x)
  }

  ghost function Straightened(v: View, bh: Heights, x: Node, p: Node, g: Node, d: bool, u: Node): View
    requires Inner(v, bh, x, p, g, d, u)
  {
    InnerMove(v, bh, x, p, g, d, u);
    Rotated(v, p, d)
  }

  /** One turn of the rebalancing loop after an insertion: the new picture, heights and node. */
  ghost function InsertTurn(v: View, bh: Heights, x: Node): (View, Heights, Node)
    requires RedRed(v, bh, x)
  {
    FamilyOf(v, bh, x);
    var p := v.mem[x].parent;
    var g := v.mem[p].parent;
    var d := v.mem[g].left != p;
    var u := v.mem[g].Kid(!d);
    if v.mem[u].red then (Recoloured(v, p, u, g), bh[p := bh[p] + 1][u := bh[u] + 1], g)
    else if v.mem[p].Kid(!d) == x then
      InnerMove(v, bh, x, p, g, d, u);
      Raised(Straightened(v, bh, x, p, g, d, u), bh, p, x, g, d, u)
    else Raised(v, bh, x, p, g, d, u)
  }

  /** How many turns may be left. */
  ghost function InsertRank(v: View, bh: Heights, x: Node): int
  {
    if RedRed(v, bh, x) then |v.order| + 1 - (v.span[x].hi - v.span[x].lo) else 0
  }

  lemma InsertTurnKeeps(v: View, bh: Heights, x: Node)
    requires RedRed(v, bh, x)
    ensures var (w, bh', y) := InsertTurn(v, bh, x);
            && Inserting(w, bh', y) && w.order == v.order && w.span.Keys == v.span.Keys
            && 0 <= InsertRank(w, bh', y) < InsertRank(v, bh, x)
  {
    hide Placed, Frame, Shape, Rotated;
    FamilyOf(v, bh, x);
    var p := v.mem[x].parent;
    var g := v.mem[p].parent;
    var d := v.mem[g].left != p;
    var u := v.mem[g].Kid(!d);
    Climbs(v, bh, x, p, g, d, u);
    if v.mem[u].red {
      RecolourStep(v, bh, x, p, g, d, u);
    } else if v.mem[p].Kid(!d) == x {
      InnerMove(v, bh, x, p, g, d, u);
      OuterMove(Rotated(v, p, d), bh, p, x, g, d, u);
    } else {
      OuterMove(v, bh, x, p, g, d, u);
    }
  }

  /** After the loop, painting the root black completes the invariants. */
  lemma InsertDone(v: View, bh: Heights, x: Node)
    requires Inserting(v, bh, x) && !RedRed(v, bh, x)
    ensures v.root in bh && v.root in v.mem && v.root in v.span
    ensures RedBlack(Painted(v, v.root, false), bh[v.root := if v.mem[v.root].red then bh[v.root] + 1 else bh[v.root]])
  {
    hide Placed, Even, Cool, KidOk, UpOk;
    assert Linked(v, x) && Linked(v, v.root);
    var w := Painted(v, v.root, false);
    SameLinksSameShape(v, w);
    forall n | n in w.span
      ensures Even(w, bh[v.root := if v.mem[v.root].red then bh[v.root] + 1 else bh[v.root]], n) && Cool(w, n, null)
    {
      InsertDoneAt(v, bh, x, n);
    }
  }

  lemma InsertDoneAt(v: View, bh: Heights, x: Node, n: Node)
    requires Inserting(v, bh, x) && !RedRed(v, bh, x) && n in v.span && v.root in v.mem && v.root in bh
    ensures var w := Painted(v, v.root, false);
            Even(w, bh[v.root := if v.mem[v.root].red then bh[v.root] + 1 else bh[v.root]], n) && Cool(w, n, null)
  {
    hide Placed, UpOk;
    assert Linked(v, x) && Linked(v, v.root) && Linked(v, n);
    assert Even(v, bh, n) && Cool(v, n, x);
    RootIsNoKid(v, n);
  }

  // ----- the two starts of an insertion

  lemma AttachStep(v: View, bh: Heights, t: Node, n: Node, d: bool)
    requires RedBlack(v, bh) && CanAttach(v, t, n, d)
    ensures Inserting(Attached(v, t, n, d), bh[n := 0], n)
  {
    var w := Attached(v, t, n, d);
    AttachKeepsShape(v, t, n, d);
    AttachedFrame(v, t, n, d);
    assert Linked(v, v.root);
    forall c | c in w.span ensures Even(w, bh[n := 0], c) { AttachEven(v, bh, t, n, d, c); }
    forall c | c in w.span ensures Cool(w, c, n) { AttachCool(v, bh, t, n, d, c); }
  }

  lemma AttachEven(v: View, bh: Heights, t: Node, n: Node, d: bool, c: Node)
    requires RedBlack(v, bh) && CanAttach(v, t, n, d) && (c == n || c in v.span)
    ensures Even(Attached(v, t, n, d), bh[n := 0], c)
  {
    hide Shape, Linked, Attached, Cool;
    AttachedCells(v, t, n, d);
    if c != n { assert Even(v, bh, c); }
  }

  lemma AttachCool(v: View, bh: Heights, t: Node, n: Node, d: bool, c: Node)
    requires RedBlack(v, bh) && CanAttach(v, t, n, d) && (c == n || c in v.span)
    ensures Cool(Attached(v, t, n, d), c, n)
  {
    hide Shape, Linked, Attached, Even;
    AttachedCells(v, t, n, d);
    if c != n {
      HasKids(v, c);
      assert Cool(v, c, null);
    }
  }

  ghost function Alone(v: View, n: Node): View
    requires v.z in v.mem
  {
    View(v.z, n, map[v.z := v.mem[v.z], n := Cell(v.z, v.z, null, false)], [n], map[n := Span(0, 0, 1)])
  }

  lemma AloneIsRedBlack(v: View, n: Node)
    requires v.z in v.mem && !v.mem[v.z].red && n != v.z
    ensures RedBlack(Alone(v, n), map[v.z := 0, n := 1])
  {
    var w := Alone(v, n);
    assert Placed(w, 0);
    assert Linked(w, n);
    forall c | c in w.span ensures Even(w, map[v.z := 0, n := 1], c) { }
    forall c | c in w.span ensures Cool(w, c, null) { }
  }

  // ----- deletion: the subtree at t is one black node short

  ghost predicate Short(v: View, bh: Heights, t: Node, p: Node, d: bool)
  {
    && p in v.mem && p in v.span && p in bh && t in bh && v.mem[p].Kid(d) == t
    && var s := v.mem[p].Kid(!d);
       s != null && s in bh && bh[s] == bh[t] + 1 && bh[p] == bh[s] + (if v.mem[p].red then 0 else 1)
  }

  ghost predicate EvenBut(v: View, bh: Heights, p: Node) {
    forall n {:trigger Even(v, bh, n)} :: n in v.span && n != p ==> Even(v, bh, n)
  }

  ghost predicate CoolBut(v: View, t: Node) {
    forall n {:trigger Cool(v, n, t)} :: n in v.span && n != t ==> Cool(v, n, t)
  }

  ghost predicate Deleting(v: View, bh: Heights, t: Node)
  {
    && Shape(v) && Counted(v, bh) && CoolBut(v, t) && t in v.mem && v.order != []
    && (if t == v.root then AllEven(v, bh)
        else
          && IsBlack(v, v.root) && v.mem[t].parent != null
          && EvenBut(v, bh, v.mem[t].parent)
          && (Short(v, bh, t, v.mem[t].parent, false) || Short(v, bh, t, v.mem[t].parent, true)))
  }

  /** t hangs on side d of p, one black node short, under a black root. */
  ghost predicate Hangs(v: View, bh: Heights, t: Node, p: Node, d: bool)
  {
    && Counted(v, bh) && v.order != [] && t in v.mem && !v.mem[t].red && t != v.root && v.mem[t].parent == p
    && IsBlack(v, v.root) && Short(v, bh, t, p, d)
  }

  ghost predicate Doubled(v: View, bh: Heights, t: Node)
  {
    Deleting(v, bh, t) && t != v.root && !v.mem[t].red
  }

  /** t is short under p on side d; s is its sibling. */
  ghost predicate Lack(v: View, bh: Heights, t: Node, p: Node, d: bool, s: Node)
  {
    && Doubled(v, bh, t)
    && v.mem[t].parent == p && p in v.span && p in v.mem && d == (v.mem[p].left != t)
    && v.mem[p].Kid(d) == t && v.mem[p].Kid(!d) == s && s in v.span && s in v.mem && v.mem[s].parent == p && s != v.root
    && s != t && s != p && t != p && p != v.z && s != v.z
    && t in bh && p in bh && s in bh && bh[s] == bh[t] + 1 && bh[p] == bh[s] + (if v.mem[p].red then 0 else 1)
    && Even(v, bh, s) && v.mem[s].Kid(d) in v.mem && v.mem[s].Kid(!d) in v.mem
    && (t != v.z ==> v.mem[s].Kid(d) != t && v.mem[s].Kid(!d) != t)
    && v.mem[s].Kid(d) != p && v.mem[s].Kid(!d) != p
    && v.mem[s].Kid(d) != s && v.mem[s].Kid(!d) != s
  }

  lemma Sibling(v: View, bh: Heights, t: Node) returns (p: Node, d: bool, s: Node)
    requires Doubled(v, bh, t)
    ensures Lack(v, bh, t, p, d, s)
  {
    hide Shape, Cool, CoolBut;
    p := v.mem[t].parent;
    LinkedAt(v, p);
    d := v.mem[p].left != t;
    assert Short(v, bh, t, p, d);
    s := v.mem[p].Kid(!d);
    LinkedAt(v, s);
    assert Even(v, bh, s);
    if t != v.z { LinkedAt(v, t); }
    if v.mem[s].left != v.z { LinkedAt(v, v.mem[s].left); }
    if v.mem[s].right != v.z { LinkedAt(v, v.mem[s].right); }
  }

  /** The two nephews, near and far from t; a node is the kid of one parent only. */
  lemma Nephews(v: View, bh: Heights, t: Node, p: Node, d: bool, s: Node) returns (near: Node, far: Node)
    requires Lack(v, bh, t, p, d, s)
    ensures v.mem[s].Kid(d) == near && v.mem[s].Kid(!d) == far && near in bh && far in bh && bh[near] == bh[far]
    ensures near != v.z ==> near in v.span && v.mem[near].parent == s && near != v.root && near != far && Linked(v, near)
    ensures far != v.z ==> far in v.span && v.mem[far].parent == s && far != v.root && near != far && Linked(v, far)
    ensures bh[s] == bh[near] + (if v.mem[s].red then 0 else 1)
  {
    assert Linked(v, s);
    near, far := v.mem[s].Kid(d), v.mem[s].Kid(!d);
    if near != v.z { assert Linked(v, near); }
    if far != v.z { assert Linked(v, far); }
  }

  // Red sibling: it rises over p, and a black nephew becomes the sibling.

  ghost function Lifted(v: View, p: Node, s: Node): View
    requires p in v.mem && s in v.mem
  {
    Painted(Painted(v, s, false), p, true)
  }

  lemma LiftEven(v: View, bh: Heights, t: Node, p: Node, d: bool, s: Node, w: View, n: Node)
    requires Lack(v, bh, t, p, d, s) && v.mem[s].red && Turn(Lifted(v, p, s), w, p, s, d)
    requires n in v.span && n != p
    ensures Even(w, bh[p := bh[s]][s := bh[p]], n)
  {
    assert Even(v, bh, n) && Linked(v, n) && Linked(v, s) && Cool(v, s, t);
    if n != p { KidsOfOthers(v, s, p, n); }
    var near, far := Nephews(v, bh, t, p, d, s);
    if n != s && near != v.z { KidsOfOthers(v, near, s, n); }
    if n != s && far != v.z { KidsOfOthers(v, far, s, n); }
    assert v.mem[p].red ==> Cool(v, p, t);
  }

  lemma LiftCool(v: View, bh: Heights, t: Node, p: Node, d: bool, s: Node, w: View, n: Node)
    requires Lack(v, bh, t, p, d, s) && v.mem[s].red && Turn(Lifted(v, p, s), w, p, s, d)
    requires n in v.span && n != t
    ensures Cool(w, n, t)
  {
    hide Shape, Linked, Even, Turn, Lifted;
    LinkedAt(v, n);
    assert Cool(v, n, t) && Cool(v, s, t);
    LiftedCool(v, t, p, d, s, w, n);
  }

  lemma LiftedCool(v: View, t: Node, p: Node, d: bool, s: Node, w: View, n: Node)
    requires Frame(v) && n in v.span && p in v.span && s in v.span && p != s && v.mem[s].red
    requires v.mem[p].Kid(d) == t && v.mem[s].Kid(d) != p && Turn(Lifted(v, p, s), w, p, s, d)
    requires Cool(v, n, t) && Cool(v, s, t)
    ensures Cool(w, n, t)
  {
  }

  /** t is short under a red p, across from a black sibling. */
  ghost predicate Cleared(v: View, bh: Heights, t: Node, p: Node, d: bool)
  {
    && p in v.mem && v.mem[p].red && v.mem[p].Kid(!d) != null && v.mem[p].Kid(!d) in v.mem
    && !v.mem[v.mem[p].Kid(!d)].red && Lack(v, bh, t, p, d, v.mem[p].Kid(!d))
  }

  /** A red sibling has a black parent and black kids. */
  lemma LiftNear(v: View, bh: Heights, t: Node, p: Node, d: bool, s: Node) returns (near: Node)
    requires Lack(v, bh, t, p, d, s) && v.mem[s].red
    ensures !v.mem[p].red && v.mem[s].Kid(d) == near && near in bh && bh[near] == bh[s] && near != t
    ensures near in v.span && near in v.mem && !v.mem[near].red
  {
    hide UpOk, Even, Placed, KidOk;
    var far;
    near, far := Nephews(v, bh, t, p, d, s);
    assert Cool(v, s, t) && Cool(v, p, t);
  }

  lemma LiftShort(v: View, bh: Heights, t: Node, p: Node, d: bool, s: Node, w: View) returns (near: Node)
    requires Lack(v, bh, t, p, d, s) && v.mem[s].red && Turn(Lifted(v, p, s), w, p, s, d) && Shape(w) && w.order == v.order
    ensures near in w.mem && p in w.mem && w.mem[p].Kid(!d) == near && near != t && !w.mem[near].red && w.mem[p].red
    ensures w.span.Keys == v.span.Keys && Hangs(w, bh[p := bh[s]][s := bh[p]], t, p, d)
  {
    hide Shape, Linked;
    LinkedAt(v, p);
    near := LiftNear(v, bh, t, p, d, s);
  }

  lemma LiftStep(v: View, bh: Heights, t: Node, p: Node, d: bool, s: Node, w: View)
    requires Lack(v, bh, t, p, d, s) && v.mem[s].red && Turn(Lifted(v, p, s), w, p, s, d) && Shape(w) && w.order == v.order
    ensures Cleared(w, bh[p := bh[s]][s := bh[p]], t, p, d)
  {
    hide Even, Cool, Turn, Lifted, Counted, Shape, Short, Linked;
    var near := LiftShort(v, bh, t, p, d, s, w);
    var bh' := bh[p := bh[s]][s := bh[p]];
    forall n | n in w.span && n != p ensures Even(w, bh', n) { LiftEven(v, bh, t, p, d, s, w, n); }
    forall n | n in w.span && n != t ensures Cool(w, n, t) { LiftCool(v, bh, t, p, d, s, w, n); }
    var p', d', s' := Sibling(w, bh', t);
  }

  // Black sibling with two black kids: paint it red and hand the shortage to p.

  lemma SinkTop(v: View, bh: Heights, t: Node, p: Node, d: bool, s: Node)
    requires Lack(v, bh, t, p, d, s) && !v.mem[s].red
    ensures bh[s] >= 1 && bh[p] >= 1
    ensures var w, bh' := Painted(v, s, true), bh[s := (bh[s] - 1) as nat][p := (bh[p] - 1) as nat];
            Even(w, bh', s) && Even(w, bh', p)
  {
    var near, far := Nephews(v, bh, t, p, d, s);
    assert Linked(v, p);
  }

  lemma SinkEven(v: View, bh: Heights, t: Node, p: Node, d: bool, s: Node, n: Node)
    requires Lack(v, bh, t, p, d, s) && !v.mem[s].red && n in v.span && n != p && n != s
    requires p == v.root || n != v.mem[p].parent
    requires bh[s] >= 1 && bh[p] >= 1
    ensures Even(Painted(v, s, true), bh[s := (bh[s] - 1) as nat][p := (bh[p] - 1) as nat], n)
  {
    assert Linked(v, n) && Linked(v, p) && Even(v, bh, n);
    KidsOfOthers(v, s, p, n);
    if p != v.root { KidsOfOthers(v, p, v.mem[p].parent, n); }
    else { RootIsNoKid(v, n); }
  }

  lemma RootIsNoKid(v: View, n: Node)
    requires Shape(v) && n in v.span
    ensures n in v.mem && v.mem[n].left != v.root && v.mem[n].right != v.root
  {
    assert Linked(v, n) && Linked(v, v.root);
  }

  lemma SinkShort(v: View, bh: Heights, t: Node, p: Node, d: bool, s: Node, q: Node)
    requires Lack(v, bh, t, p, d, s) && !v.mem[s].red && p != v.root && q == v.mem[p].parent
    requires bh[s] >= 1 && bh[p] >= 1
    ensures var w, bh' := Painted(v, s, true), bh[s := (bh[s] - 1) as nat][p := (bh[p] - 1) as nat];
            Short(w, bh', p, q, false) || Short(w, bh', p, q, true)
  {
    assert Linked(v, p) && Linked(v, q) && Even(v, bh, q);
  }

  lemma SinkCool(v: View, bh: Heights, t: Node, p: Node, d: bool, s: Node, near: Node, far: Node, n: Node)
    requires Lack(v, bh, t, p, d, s) && !v.mem[s].red && n in v.span && n != p
    requires near == v.mem[s].Kid(d) && far == v.mem[s].Kid(!d) && IsBlack(v, near) && IsBlack(v, far)
    ensures Cool(Painted(v, s, true), n, p)
  {
    assert Linked(v, n);
    KidsOfOthers(v, s, p, n);
    if n != t { assert Cool(v, n, t); }
  }

  lemma SinkClimbs(v: View, bh: Heights, t: Node, p: Node, d: bool, s: Node)
    requires Lack(v, bh, t, p, d, s)
    ensures t != v.z ==> t in v.span && v.span[t].hi - v.span[t].lo < v.span[p].hi - v.span[p].lo
    ensures 0 < v.span[p].hi - v.span[p].lo <= |v.order|
  {
    assert Linked(v, p);
    if t != v.z { assert Linked(v, t); }
  }

  lemma SinkFrame(v: View, bh: Heights, t: Node, p: Node, d: bool, s: Node)
    requires Lack(v, bh, t, p, d, s) && bh[s] >= 1 && bh[p] >= 1
    ensures Counted(Painted(v, s, true), bh[s := (bh[s] - 1) as nat][p := (bh[p] - 1) as nat])
    ensures p != v.root ==> v.mem[p].parent != null && v.mem[p].parent != s && IsBlack(Painted(v, s, true), v.root)
    ensures v.order != []
  {
    hide Shape, Even, Cool, Short;
    LinkedAt(v, p);
    LinkedAt(v, s);
    if p != v.root { LinkedAt(v, v.mem[p].parent); }
  }

  lemma SinkStep(v: View, bh: Heights, t: Node, p: Node, d: bool, s: Node, near: Node, far: Node)
    requires Lack(v, bh, t, p, d, s) && !v.mem[s].red
    requires near == v.mem[s].Kid(d) && far == v.mem[s].Kid(!d) && IsBlack(v, near) && IsBlack(v, far)
    ensures bh[s] >= 1 && bh[p] >= 1
    ensures Deleting(Painted(v, s, true), bh[s := (bh[s] - 1) as nat][p := (bh[p] - 1) as nat], p)
  {
    hide Shape, Even, Cool, Short, Counted;
    PaintKeepsShape(v, s, true);
    SinkTop(v, bh, t, p, d, s);
    SinkFrame(v, bh, t, p, d, s);
    var w, bh' := Painted(v, s, true), bh[s := (bh[s] - 1) as nat][p := (bh[p] - 1) as nat];
    if p != v.root { SinkShort(v, bh, t, p, d, s, v.mem[p].parent); }
    forall n | n in w.span && (p == v.root || n != v.mem[p].parent) ensures Even(w, bh', n) {
      if n != p && n != s { SinkEven(v, bh, t, p, d, s, n); }
    }
    forall n | n in w.span && n != p ensures Cool(w, n, p) { SinkCool(v, bh, t, p, d, s, near, far, n); }
  }

  // Black sibling, far nephew black: the near one rises over the sibling and takes its place, far side red.

  ghost function Leaned(v: View, s: Node, near: Node): View
    requires s in v.mem && near in v.mem
  {
    Painted(Painted(v, near, false), s, true)
  }

  ghost predicate NearRed(v: View, bh: Heights, t: Node, p: Node, d: bool, s: Node, near: Node, far: Node)
  {
    && Lack(v, bh, t, p, d, s) && !v.mem[s].red
    && near == v.mem[s].Kid(d) && far == v.mem[s].Kid(!d) && near in v.mem && v.mem[near].red && IsBlack(v, far)
  }

  lemma LeanEven(v: View, bh: Heights, t: Node, p: Node, d: bool, s: Node, near: Node, far: Node, w: View, n: Node)
    requires NearRed(v, bh, t, p, d, s, near, far) && Turn(Leaned(v, s, near), w, s, near, !d) && n in v.span && n != p
    ensures near in bh && Even(w, bh[s := bh[near]][near := bh[s]], n)
  {
    hide Shape, Linked, Cool;
    var near', far' := Nephews(v, bh, t, p, d, s);
    assert Even(v, bh, n) && Even(v, bh, near);
    KidsOfOthers(v, s, p, n);
    KidsBelow(v, p, s, near);
    if n != s { KidsOfOthers(v, near, s, n); }
  }

  lemma LeanCool(v: View, bh: Heights, t: Node, p: Node, d: bool, s: Node, near: Node, far: Node, w: View, n: Node)
    requires NearRed(v, bh, t, p, d, s, near, far) && Turn(Leaned(v, s, near), w, s, near, !d) && n in v.span && n != t
    ensures Cool(w, n, t)
  {
    hide Frame, UpOk, Short, Even;
    var near', far' := Nephews(v, bh, t, p, d, s);
    assert Cool(v, n, t) && Linked(v, n) && Linked(v, near) && Linked(v, s);
    if t != near { assert Cool(v, near, t); }
  }

  lemma LeanShort(v: View, bh: Heights, t: Node, p: Node, d: bool, s: Node, near: Node, far: Node, w: View)
    requires NearRed(v, bh, t, p, d, s, near, far) && Turn(Leaned(v, s, near), w, s, near, !d)
    requires Shape(w) && w.order == v.order
    ensures near in bh && Hangs(w, bh[s := bh[near]][near := bh[s]], t, p, d) && w.mem[p].Kid(!d) == near
    ensures near in w.mem && w.mem[near].Kid(!d) == s && !w.mem[near].red && s in w.mem && w.mem[s].red
    ensures w.span.Keys == v.span.Keys
  {
    hide Shape, Cool, Even;
    var near', far' := Nephews(v, bh, t, p, d, s);
    LinkedAt(v, p);
  }

  lemma LeanStep(v: View, bh: Heights, t: Node, p: Node, d: bool, s: Node, near: Node, far: Node, w: View)
    requires NearRed(v, bh, t, p, d, s, near, far) && Turn(Leaned(v, s, near), w, s, near, !d)
    requires Shape(w) && w.order == v.order
    ensures near in bh && Lack(w, bh[s := bh[near]][near := bh[s]], t, p, d, near)
    ensures w.mem[near].Kid(!d) == s && !w.mem[near].red && w.mem[s].red
  {
    hide Even, Cool, Turn, Leaned, Counted, Shape, Short, Linked;
    LeanShort(v, bh, t, p, d, s, near, far, w);
    var bh' := bh[s := bh[near]][near := bh[s]];
    forall n | n in w.span && n != p ensures Even(w, bh', n) { LeanEven(v, bh, t, p, d, s, near, far, w, n); }
    forall n | n in w.span && n != t ensures Cool(w, n, t) { LeanCool(v, bh, t, p, d, s, near, far, w, n); }
    var p', d', s' := Sibling(w, bh', t);
  }

  // Black sibling, far nephew red: the sibling rises over p and the shortage is gone.

  ghost predicate FarRed(v: View, bh: Heights, t: Node, p: Node, d: bool, s: Node, far: Node)
  {
    && Lack(v, bh, t, p, d, s) && !v.mem[s].red && far == v.mem[s].Kid(!d) && far in v.mem && v.mem[far].red
  }

  ghost function Handed(v: View, p: Node, s: Node, far: Node): View
    requires p in v.mem && s in v.mem && far in v.mem
  {
    Painted(Painted(Painted(v, s, v.mem[p].red), p, false), far, false)
  }

  lemma HandTop(v: View, bh: Heights, t: Node, p: Node, d: bool, s: Node, far: Node, w: View)
    requires FarRed(v, bh, t, p, d, s, far) && Turn(Handed(v, p, s, far), w, p, s, d)
    ensures far in bh
    ensures var bh' := bh[p := bh[s]][s := bh[p]][far := bh[far] + 1];
            Even(w, bh', p) && Even(w, bh', s) && Even(w, bh', far)
  {
    hide Shape, Linked, Cool;
    var near, far' := Nephews(v, bh, t, p, d, s);
    assert Even(v, bh, far);
    KidsBelow(v, p, s, far);
  }

  lemma HandEven(v: View, bh: Heights, t: Node, p: Node, d: bool, s: Node, far: Node, w: View, n: Node)
    requires FarRed(v, bh, t, p, d, s, far) && Turn(Handed(v, p, s, far), w, p, s, d)
    requires n in v.span && n != p && n != s && n != far
    ensures far in bh && Even(w, bh[p := bh[s]][s := bh[p]][far := bh[far] + 1], n)
  {
    hide Shape, Linked, Cool;
    var near, far' := Nephews(v, bh, t, p, d, s);
    assert Even(v, bh, n);
    KidsOfOthers(v, s, p, n);
    KidsOfOthers(v, far, s, n);
  }

  lemma HandCool(v: View, bh: Heights, t: Node, p: Node, d: bool, s: Node, far: Node, w: View, n: Node)
    requires FarRed(v, bh, t, p, d, s, far) && Turn(Handed(v, p, s, far), w, p, s, d) && n in v.span
    ensures Cool(w, n, null)
  {
    hide Shape, Linked, Even, Short, Turn, Handed;
    LinkedAt(v, n);
    if n != t { assert Cool(v, n, t); }
    if n != p && n != s { KidsOfOthers(v, s, p, n); }
    HandedCool(v, t, p, d, s, far, w, n);
  }

  lemma HandedBlack(v: View, p: Node, d: bool, s: Node, far: Node, w: View, k: Node?)
    requires Frame(v) && p in v.span && s in v.span && p != s && far in v.mem && far != p && far != s
    requires Turn(Handed(v, p, s, far), w, p, s, d) && k != s && (IsBlack(v, k) || k == p)
    ensures IsBlack(w, k)
  {
  }

  lemma HandedCool(v: View, t: Node, p: Node, d: bool, s: Node, far: Node, w: View, n: Node)
    requires Frame(v) && n in v.span && p in v.span && s in v.span && p != s && far in v.mem && IsBlack(v, t) && t != s && t != p
    requires v.mem[s].Kid(!d) == far && far != p && far != s && v.mem[far].red && Turn(Handed(v, p, s, far), w, p, s, d)
    requires n != p && n != s ==> v.mem[n].left != s && v.mem[n].right != s
    requires n == t || Cool(v, n, t)
    ensures Cool(w, n, null)
  {
    if n != p && n != s && v.mem[n].red && n != t {
      var l, r := v.mem[n].left, v.mem[n].right;
      HandedBlack(v, p, d, s, far, w, l);
      HandedBlack(v, p, d, s, far, w, r);
    }
  }

  lemma HandFrame(v: View, bh: Heights, t: Node, p: Node, d: bool, s: Node, far: Node, w: View)
    requires FarRed(v, bh, t, p, d, s, far) && Turn(Handed(v, p, s, far), w, p, s, d)
    ensures far in bh && Counted(w, bh[p := bh[s]][s := bh[p]][far := bh[far] + 1]) && IsBlack(w, w.root)
    ensures w.span.Keys == v.span.Keys
  {
    hide Shape, Linked, Even, Cool, Short;
    LinkedAt(v, p);
  }

  lemma HandStep(v: View, bh: Heights, t: Node, p: Node, d: bool, s: Node, far: Node, w: View)
    requires FarRed(v, bh, t, p, d, s, far) && Turn(Handed(v, p, s, far), w, p, s, d) && Shape(w) && w.order == v.order
    ensures far in bh && RedBlack(w, bh[p := bh[s]][s := bh[p]][far := bh[far] + 1])
  {
    hide Shape, Even, Cool, Turn, Handed, Counted;
    HandFrame(v, bh, t, p, d, s, far, w);
    var bh' := bh[p := bh[s]][s := bh[p]][far := bh[far] + 1];
    HandTop(v, bh, t, p, d, s, far, w);
    forall n | n in w.span ensures Even(w, bh', n) {
      if n != p && n != s && n != far { HandEven(v, bh, t, p, d, s, far, w, n); }
    }
    forall n | n in w.span ensures Cool(w, n, null) { HandCool(v, bh, t, p, d, s, far, w, n); }
  }

  /** Painting the doubled node black, red or root, ends the deletion. */
  ghost function Blackened(v: View, bh: Heights, t: Node): Heights
    requires t in v.mem && t in bh
  {
    bh[t := if v.mem[t].red then bh[t] + 1 else bh[t]]
  }

  lemma DeleteDone(v: View, bh: Heights, t: Node)
    requires Deleting(v, bh, t) && (t == v.root || v.mem[t].red)
    ensures RedBlack(Painted(v, t, false), Blackened(v, bh, t))
  {
    hide Shape, Even, Short, Cool;
    var w, bh' := Painted(v, t, false), Blackened(v, bh, t);
    PaintKeepsShape(v, t, false);
    HasRoot(v);
    LinkedAt(v, v.root);
    if t != v.root { DoneInside(v, bh, t); }
    forall n | n in w.span ensures Even(w, bh', n) { DoneEven(v, bh, t, n); }
    forall n | n in w.span ensures Cool(w, n, null) { DoneCool(v, bh, t, n); }
  }

  lemma DoneInside(v: View, bh: Heights, t: Node)
    requires Deleting(v, bh, t) && v.mem[t].red
    ensures t in v.span
  {
    hide Even, Cool, Linked, Placed, Short;
  }

  lemma DoneCool(v: View, bh: Heights, t: Node, n: Node)
    requires Deleting(v, bh, t) && (t == v.root || v.mem[t].red) && n in v.span
    ensures Cool(Painted(v, t, false), n, null)
  {
    hide Shape, Even, Short;
    LinkedAt(v, n);
    if n != t { assert Cool(v, n, t); }
  }

  lemma DoneEven(v: View, bh: Heights, t: Node, n: Node)
    requires Deleting(v, bh, t) && (t == v.root || v.mem[t].red) && t in v.span && n in v.span
    ensures Even(Painted(v, t, false), Blackened(v, bh, t), n)
  {
    assert Linked(v, n) && Linked(v, t);
    if t == v.root {
      assert Even(v, bh, n);
      RootIsNoKid(v, n);
    } else if n == v.mem[t].parent {
      assert Even(v, bh, t);
    } else {
      assert Even(v, bh, n);
      KidsOfOthers(v, t, v.mem[t].parent, n);
    }
  }

  // ----- the two ends of a deletion: a node leaves, or changes places

  lemma SpliceEven(v: View, bh: Heights, n: Node, t: Node, c: Node)
    requires RedBlack(v, bh) && CanSplice(v, n, t) && n != v.root && c in v.span && c != n
    requires c != v.mem[n].parent || v.mem[n].red
    ensures Even(Spliced(v, n, t), bh - {n}, c)
  {
    SpliceFacts(v, n, t);
    assert Even(v, bh, c) && Linked(v, c) && Even(v, bh, n);
    if c != v.mem[n].parent { KidsOfOthers(v, n, v.mem[n].parent, c); }
  }

  lemma SplicedLinks(v: View, n: Node, t: Node, c: Node)
    requires CanSplice(v, n, t) && n != v.root && c in v.span && c != n
    ensures c in v.mem && c in Spliced(v, n, t).mem
    ensures var w := Spliced(v, n, t);
            && w.mem[c].red == v.mem[c].red && Linked(v, c)
            && w.mem[c].left == (if v.mem[c].left == n then t else v.mem[c].left)
            && w.mem[c].right == (if v.mem[c].right == n then t else v.mem[c].right)
  {
    SpliceFacts(v, n, t);
    assert Linked(v, c);
    if c != v.mem[n].parent { KidsOfOthers(v, n, v.mem[n].parent, c); }
  }

  lemma SplicedBlack(v: View, n: Node, t: Node, k: Node?)
    requires CanSplice(v, n, t) && k != n && IsBlack(v, k)
    ensures IsBlack(Spliced(v, n, t), k)
  {
    SpliceFacts(v, n, t);
  }

  lemma SpliceCool(v: View, bh: Heights, n: Node, t: Node, c: Node)
    requires RedBlack(v, bh) && CanSplice(v, n, t) && n != v.root && c in v.span && c != n
    ensures Cool(Spliced(v, n, t), c, if v.mem[n].red then null else t)
  {
    SplicedLinks(v, n, t, c);
    assert Cool(v, c, null) && Cool(v, n, null);
    if v.mem[c].red {
      if v.mem[c].left != n { SplicedBlack(v, n, t, v.mem[c].left); }
      if v.mem[c].right != n { SplicedBlack(v, n, t, v.mem[c].right); }
      if v.mem[n].red { assert Linked(v, n); SplicedBlack(v, n, t, t); }
    }
  }

  lemma SpliceShort(v: View, bh: Heights, n: Node, t: Node)
    requires RedBlack(v, bh) && CanSplice(v, n, t) && n != v.root && !v.mem[n].red
    ensures var w := Spliced(v, n, t);
            && t in w.mem && t != w.root && w.mem[t].parent == v.mem[n].parent && w.mem[t].parent != null
            && w.order != [] && IsBlack(w, w.root)
            && (Short(w, bh - {n}, t, w.mem[t].parent, false) || Short(w, bh - {n}, t, w.mem[t].parent, true))
  {
    hide UpOk, KidOk, Cool, Counted;
    SpliceFacts(v, n, t);
    var p := v.mem[n].parent;
    assert Even(v, bh, p) && Even(v, bh, n) && Linked(v, p) && Linked(v, v.root);
  }

  /** Unhooking a red node keeps the invariants; unhooking a black one leaves t short. */
  lemma SpliceStep(v: View, bh: Heights, n: Node, t: Node)
    requires RedBlack(v, bh) && CanSplice(v, n, t) && n != v.root
    ensures v.mem[n].red ==> RedBlack(Spliced(v, n, t), bh - {n})
    ensures !v.mem[n].red ==> Deleting(Spliced(v, n, t), bh - {n}, t) && t != Spliced(v, n, t).root
  {
    hide KidOk, Even, Cool, Short;
    var w, bh' := Spliced(v, n, t), bh - {n};
    SpliceKeepsShape(v, n, t);
    SplicedFrame(v, n, t);
    SpliceFacts(v, n, t);
    assert Linked(v, v.root);
    if !v.mem[n].red { SpliceShort(v, bh, n, t); }
    hide Shape, Even, Cool, Short;
    forall c | c in w.span && (c != v.mem[n].parent || v.mem[n].red) ensures Even(w, bh', c) {
      SpliceEven(v, bh, n, t, c);
    }
    forall c | c in w.span ensures Cool(w, c, if v.mem[n].red then null else t) { SpliceCool(v, bh, n, t, c); }
  }

  /** The last node, or the root with one kid, leaves: the kid becomes a black root. */
  lemma SpliceRoot(v: View, bh: Heights, n: Node, t: Node)
    requires RedBlack(v, bh) && CanSplice(v, n, t) && n == v.root
    ensures Shape(Spliced(v, n, t)) && t in Spliced(v, n, t).mem && t in bh && t != n && t == Spliced(v, n, t).root
    ensures RedBlack(Painted(Spliced(v, n, t), t, false), (bh - {n})[t := if v.mem[t].red then bh[t] + 1 else bh[t]])
  {
    hide Placed, Even, Shape;
    SpliceFacts(v, n, t);
    SpliceKeepsShape(v, n, t);
    SplicedFrame(v, n, t);
    var w := Painted(Spliced(v, n, t), t, false);
    var bh' := (bh - {n})[t := if v.mem[t].red then bh[t] + 1 else bh[t]];
    PaintKeepsShape(Spliced(v, n, t), t, false);
    hide Shape;
    forall c | c in w.span ensures Even(w, bh', c) { SpliceRootOne(v, bh, n, t, c); }
    forall c | c in w.span ensures Cool(w, c, null) { SpliceRootOne(v, bh, n, t, c); }
  }

  lemma SpliceRootOne(v: View, bh: Heights, n: Node, t: Node, c: Node)
    requires RedBlack(v, bh) && CanSplice(v, n, t) && n == v.root && c in v.span && c != n
    requires t in Spliced(v, n, t).mem && t in bh
    ensures var w := Painted(Spliced(v, n, t), t, false);
            Even(w, (bh - {n})[t := if v.mem[t].red then bh[t] + 1 else bh[t]], c) && Cool(w, c, null)
  {
    SpliceFacts(v, n, t);
    assert Even(v, bh, c) && Cool(v, c, null) && Linked(v, c);
    RootIsNoKid(v, c);
    if t != v.z && c != n { KidsOfOthers(v, t, n, c); }
  }

  ghost function RenamedHeights(bh: Heights, n: Node, s: Node): Heights
    requires n in bh
  {
    (bh - {n})[s := bh[n]]
  }

  lemma RenameEven(v: View, bh: Heights, n: Node, s: Node, c: Node)
    requires CanRename(v, n, s) && Counted(v, bh) && c in v.span && Even(v, bh, c)
    ensures Even(Renamed(v, n, s), RenamedHeights(bh, n, s), if c == n then s else c)
  {
    assert Linked(v, n) && Linked(v, c);
  }

  lemma RenameCool(v: View, bh: Heights, n: Node, s: Node, c: Node, x: Node?)
    requires CanRename(v, n, s) && Counted(v, bh) && c in v.span && Cool(v, c, x) && x != n
    ensures Cool(Renamed(v, n, s), if c == n then s else c, x)
  {
    assert Linked(v, n) && Linked(v, c);
  }

  lemma RenameRedBlack(v: View, bh: Heights, n: Node, s: Node)
    requires CanRename(v, n, s) && RedBlack(v, bh)
    ensures RedBlack(Renamed(v, n, s), RenamedHeights(bh, n, s))
  {
    var w, bh' := Renamed(v, n, s), RenamedHeights(bh, n, s);
    RenameKeepsShape(v, n, s);
    RenamedFrame(v, n, s);
    forall c | c in w.span ensures Even(w, bh', c) {
      assert Even(v, bh, if c == s then n else c);
      RenameEven(v, bh, n, s, if c == s then n else c);
    }
    forall c | c in w.span ensures Cool(w, c, null) {
      assert Cool(v, if c == s then n else c, null);
      RenameCool(v, bh, n, s, if c == s then n else c, null);
    }
  }

  ghost function Scratched(v: View, q: Node?): View
    requires v.z in v.mem
  {
    v.(mem := v.mem[v.z := v.mem[v.z].(parent := q)])
  }

  lemma ScratchRedBlack(v: View, bh: Heights, q: Node?)
    requires RedBlack(v, bh)
    ensures RedBlack(Scratched(v, q), bh)
  {
    var w := Scratched(v, q);
    SameLinksSameShape(v, w);
    forall c | c in w.span ensures Even(w, bh, c) { assert Even(v, bh, c); }
    forall c | c in w.span ensures Cool(w, c, null) { assert Cool(v, c, null); }
  }

  lemma RenameParent(v: View, n: Node, s: Node, t: Node, q: Node?)
    requires CanRename(v, n, s) && t != v.root && t != n && t in v.mem && IsBlack(v, v.root)
    requires t == v.z ==> q == if v.mem[t].parent == n then s else v.mem[t].parent
    ensures v.z in Renamed(v, n, s).mem
    ensures var w := Scratched(Renamed(v, n, s), q);
            && t in w.mem && t != w.root && IsBlack(w, w.root)
            && w.mem[t].parent == (if v.mem[t].parent == n then s else v.mem[t].parent)
  {
    hide Shape, Renamed;
    RenamedCells(v, n, s);
  }

  lemma RenameShort(v: View, bh: Heights, n: Node, s: Node, t: Node, q: Node?, p: Node, d: bool)
    requires CanRename(v, n, s) && Counted(v, bh) && t != n && Short(v, bh, t, p, d)
    ensures v.z in Renamed(v, n, s).mem
    ensures Short(Scratched(Renamed(v, n, s), q), RenamedHeights(bh, n, s), t, if p == n then s else p, d)
  {
    hide Shape, Renamed;
    RenamedCells(v, n, s);
    LinkedAt(v, n);
    LinkedAt(v, p);
  }

  lemma RenameCounted(v: View, bh: Heights, n: Node, s: Node, q: Node?)
    requires CanRename(v, n, s) && Counted(v, bh)
    ensures v.z in Renamed(v, n, s).mem && Shape(Scratched(Renamed(v, n, s), q))
    ensures var w := Scratched(Renamed(v, n, s), q);
            && w.order != [] && w.span.Keys == v.span.Keys - {n} + {s} && Counted(w, RenamedHeights(bh, n, s))
            && SameLinks(Renamed(v, n, s), w)
  {
    RenameKeepsShape(v, n, s);
    RenamedFrame(v, n, s);
    SameLinksSameShape(Renamed(v, n, s), Scratched(Renamed(v, n, s), q));
    assert Linked(v, n);
  }

  lemma ScratchSees(v: View, bh: Heights, q: Node?, c: Node, x: Node?)
    requires v.z in v.mem && c != v.z
    ensures Even(v, bh, c) ==> Even(Scratched(v, q), bh, c)
    ensures Cool(v, c, x) ==> Cool(Scratched(v, q), c, x)
  {
  }

  /** The shortage survives the renaming; a short sentinel must follow its parent's new name. */
  lemma RenameDeleting(v: View, bh: Heights, n: Node, s: Node, t: Node, q: Node?)
    requires CanRename(v, n, s) && Deleting(v, bh, t) && t != v.root && t != n
    requires t == v.z ==> q == if v.mem[t].parent == n then s else v.mem[t].parent
    ensures v.z in Renamed(v, n, s).mem
    ensures Deleting(Scratched(Renamed(v, n, s), q), RenamedHeights(bh, n, s), t)
    ensures t != Renamed(v, n, s).root
  {
    hide Even, Cool, AllEven, Short;
    var w, bh' := Scratched(Renamed(v, n, s), q), RenamedHeights(bh, n, s);
    RenameCounted(v, bh, n, s, q);
    var p := v.mem[t].parent;
    RenameParent(v, n, s, t, q);
    RenameShort(v, bh, n, s, t, q, p, !Short(v, bh, t, p, false));
    assert v.z !in w.span;
    hide Shape, Short, Linked, Renamed, Even, Cool, Counted, RenamedHeights;
    forall c | c in w.span && c != w.mem[t].parent ensures Even(w, bh', c) {
      assert Even(v, bh, if c == s then n else c);
      RenameEven(v, bh, n, s, if c == s then n else c);
      ScratchSees(Renamed(v, n, s), bh', q, c, null);
    }
    forall c | c in w.span && c != t ensures Cool(w, c, t) {
      assert Cool(v, if c == s then n else c, t);
      RenameCool(v, bh, n, s, if c == s then n else c, t);
      ScratchSees(Renamed(v, n, s), bh', q, c, t);
    }
  }

  /** Which of the deletion's cases applies to n. */
  lemma DeleteFacts(v: View, n: Node)
    requires Shape(v) && n in v.span
    ensures n in v.mem && 0 <= v.span[n].pos < |v.order| && v.order[v.span[n].pos] == n
    ensures n !in Without(v.order, v.span[n].pos)
    ensures v.mem[n].left != null && v.mem[n].right != null && v.mem[n].left in v.mem && v.mem[n].right in v.mem
    ensures v.mem[n].left == v.z ==> CanSplice(v, n, v.mem[n].right)
    ensures v.mem[n].left != v.z && v.mem[n].right == v.z ==> CanSplice(v, n, v.mem[n].left)
    ensures v.mem[n].left != v.z && v.mem[n].right != v.z ==> v.mem[n].right in v.span
  {
    assert Linked(v, n);
    var w := Without(v.order, v.span[n].pos);
    forall i | 0 <= i < |w| ensures w[i] != n { assert Placed(v, if i < v.span[n].pos then i else i + 1); }
  }

  lemma LeftmostIsSuccessor(v: View, n: Node, s: Node)
    requires Shape(v) && n in v.span && n in v.mem && v.mem[n].left != v.z && v.mem[n].right != v.z && v.mem[n].right in v.span
    requires s in v.span && s in v.mem && v.mem[s].left == v.z && v.span[s].pos == v.span[v.mem[n].right].lo
    ensures v.mem[s].right != null && v.mem[s].right in v.mem && HasSuccessor(v, n, s, v.mem[s].right)
  {
    assert Linked(v, n) && Linked(v, s);
  }

  /** Taking out a node with two kids, seen from the colours. */
  lemma SuccessorStep(v: View, bh: Heights, n: Node, s: Node, t: Node, q: Node?)
    requires RedBlack(v, bh) && HasSuccessor(v, n, s, t)
    requires t == v.z ==> q == if v.mem[s].parent == n then s else v.mem[s].parent
    ensures v.z in Succeeded(v, n, s, t).mem && s in bh && n in bh && n != s
    ensures var w, h := Scratched(Succeeded(v, n, s, t), q), RenamedHeights(bh - {s}, n, s);
            && (v.mem[s].red ==> RedBlack(w, h))
            && (!v.mem[s].red ==> Deleting(w, h, t) && t != w.root)
  {
    SuccessorFacts(v, n, s, t);
    SpliceStep(v, bh, s, t);
    SplicedFrame(v, s, t);
    SplicedAt(v, s, t, n);
    SpliceKeepsShape(v, s, t);
    var u := Spliced(v, s, t);
    assert u.root == v.root;
    if v.mem[s].red {
      RenameRedBlack(u, bh - {s}, n, s);
      ScratchRedBlack(Renamed(u, n, s), RenamedHeights(bh - {s}, n, s), q);
    } else {
      SpliceShort(v, bh, s, t);
      RenameDeleting(u, bh - {s}, n, s, t, q);
    }
  }

  // ----- one turn of the loop that repairs a deletion

  lemma LiftMove(v: View, bh: Heights, t: Node, p: Node, d: bool, s: Node)
    requires Lack(v, bh, t, p, d, s) && v.mem[s].red
    ensures CanRotate(Lifted(v, p, s), p, d)
    ensures var w := Rotated(Lifted(v, p, s), p, d);
            w.order == v.order && w.span.Keys == v.span.Keys && Cleared(w, bh[p := bh[s]][s := bh[p]], t, p, d)
  {
    SameLinksSameShape(v, Lifted(v, p, s));
    var y := RotateTurns(Lifted(v, p, s), p, d);
    LiftStep(v, bh, t, p, d, s, Rotated(Lifted(v, p, s), p, d));
  }

  lemma LeanMove(v: View, bh: Heights, t: Node, p: Node, d: bool, s: Node, near: Node, far: Node)
    requires NearRed(v, bh, t, p, d, s, near, far)
    ensures near in bh && CanRotate(Leaned(v, s, near), s, !d)
    ensures var w := Rotated(Leaned(v, s, near), s, !d);
            && w.order == v.order && w.span.Keys == v.span.Keys && s in w.mem
            && FarRed(w, bh[s := bh[near]][near := bh[s]], t, p, d, near, s)
  {
    SameLinksSameShape(v, Leaned(v, s, near));
    var near', far' := Nephews(v, bh, t, p, d, s);
    var y := RotateTurns(Leaned(v, s, near), s, !d);
    LeanStep(v, bh, t, p, d, s, near, far, Rotated(Leaned(v, s, near), s, !d));
  }

  lemma HandMove(v: View, bh: Heights, t: Node, p: Node, d: bool, s: Node, far: Node)
    requires FarRed(v, bh, t, p, d, s, far)
    ensures far in bh && CanRotate(Handed(v, p, s, far), p, d)
    ensures var w, h := Rotated(Handed(v, p, s, far), p, d), bh[p := bh[s]][s := bh[p]][far := bh[far] + 1];
            w.order == v.order && w.span.Keys == v.span.Keys && RedBlack(w, h)
  {
    hide Frame, KidOk, Even, Cool, Short, Counted;
    SameLinksSameShape(v, Handed(v, p, s, far));
    var y := RotateTurns(Handed(v, p, s, far), p, d);
    HandStep(v, bh, t, p, d, s, far, Rotated(Handed(v, p, s, far), p, d));
  }

  lemma RedBlackIsDone(v: View, bh: Heights)
    requires RedBlack(v, bh) && v.order != []
    ensures Deleting(v, bh, v.root) && !Doubled(v, bh, v.root)
  {
    assert Linked(v, v.root);
    forall n | n in v.span && n != v.root ensures Cool(v, n, v.root) {
      assert Cool(v, n, null) && Linked(v, n);
    }
  }

  lemma SiblingOf(v: View, bh: Heights, t: Node)
    requires Doubled(v, bh, t)
    ensures v.mem[t].parent != null && v.mem[t].parent in v.mem
    ensures var p := v.mem[t].parent;
            var d := v.mem[p].left != t;
            v.mem[p].Kid(!d) != null && Lack(v, bh, t, p, d, v.mem[p].Kid(!d))
  {
    var p, d, s := Sibling(v, bh, t);
  }

  ghost function HandTurn(v: View, bh: Heights, t: Node, p: Node, d: bool, s: Node, far: Node): (View, Heights, Node)
    requires FarRed(v, bh, t, p, d, s, far)
  {
    HandMove(v, bh, t, p, d, s, far);
    var w := Rotated(Handed(v, p, s, far), p, d);
    (w, bh[p := bh[s]][s := bh[p]][far := bh[far] + 1], w.root)
  }

  ghost function LeanTurn(v: View, bh: Heights, t: Node, p: Node, d: bool, s: Node, near: Node, far: Node): (View, Heights, Node)
    requires NearRed(v, bh, t, p, d, s, near, far)
  {
    LeanMove(v, bh, t, p, d, s, near, far);
    HandTurn(Rotated(Leaned(v, s, near), s, !d), bh[s := bh[near]][near := bh[s]], t, p, d, near, s)
  }

  /** The part of a turn that runs with a black sibling. */
  ghost function BlackTurn(v: View, bh: Heights, t: Node, p: Node, d: bool, s: Node): (View, Heights, Node)
    requires Lack(v, bh, t, p, d, s) && !v.mem[s].red
  {
    var near, far := v.mem[s].Kid(d), v.mem[s].Kid(!d);
    if !v.mem[near].red && !v.mem[far].red then
      SinkStep(v, bh, t, p, d, s, near, far);
      (Painted(v, s, true), bh[s := (bh[s] - 1) as nat][p := (bh[p] - 1) as nat], p)
    else if !v.mem[far].red then
      LeanTurn(v, bh, t, p, d, s, near, far)
    else
      HandTurn(v, bh, t, p, d, s, far)
  }

  ghost function DeleteTurn(v: View, bh: Heights, t: Node): (View, Heights, Node)
    requires Doubled(v, bh, t)
  {
    hide Shape, Linked, Even, Cool;
    SiblingOf(v, bh, t);
    var p := v.mem[t].parent;
    var d := v.mem[p].left != t;
    var s := v.mem[p].Kid(!d);
    if v.mem[s].red then
      LiftMove(v, bh, t, p, d, s);
      var w := Rotated(Lifted(v, p, s), p, d);
      BlackTurn(w, bh[p := bh[s]][s := bh[p]], t, p, d, w.mem[p].Kid(!d))
    else BlackTurn(v, bh, t, p, d, s)
  }

  ghost function DeleteRank(v: View, bh: Heights, t: Node): int
  {
    if !Doubled(v, bh, t) then 0
    else |v.order| + 1 - (if t in v.span then v.span[t].hi - v.span[t].lo else 0)
  }

  lemma HandTurnKeeps(v: View, bh: Heights, t: Node, p: Node, d: bool, s: Node, far: Node)
    requires FarRed(v, bh, t, p, d, s, far)
    ensures var (w, h, y) := HandTurn(v, bh, t, p, d, s, far);
            Deleting(w, h, y) && w.order == v.order && w.span.Keys == v.span.Keys && !Doubled(w, h, y)
  {
    hide Shape;
    HandMove(v, bh, t, p, d, s, far);
    var (w, h, y) := HandTurn(v, bh, t, p, d, s, far);
    RedBlackIsDone(w, h);
  }

  lemma BlackTurnKeeps(v: View, bh: Heights, t: Node, p: Node, d: bool, s: Node)
    requires Lack(v, bh, t, p, d, s) && !v.mem[s].red
    ensures var (w, h, y) := BlackTurn(v, bh, t, p, d, s);
            && Deleting(w, h, y) && w.order == v.order && w.span.Keys == v.span.Keys
            && (Doubled(w, h, y) ==> y == p && !v.mem[p].red && w.span == v.span)
  {
    hide Linked, KidOk, UpOk, Placed, AllEven, EvenBut, CoolBut, Counted, HandTurn, Rotated, Leaned;
    var near, far := v.mem[s].Kid(d), v.mem[s].Kid(!d);
    if !v.mem[near].red && !v.mem[far].red {
      SinkStep(v, bh, t, p, d, s, near, far);
    } else if !v.mem[far].red {
      LeanMove(v, bh, t, p, d, s, near, far);
      HandTurnKeeps(Rotated(Leaned(v, s, near), s, !d), bh[s := bh[near]][near := bh[s]], t, p, d, near, s);
    } else {
      HandTurnKeeps(v, bh, t, p, d, s, far);
    }
  }

  lemma DeleteTurnKeeps(v: View, bh: Heights, t: Node)
    requires Doubled(v, bh, t)
    ensures var (w, h, y) := DeleteTurn(v, bh, t);
            && Deleting(w, h, y) && w.order == v.order && w.span.Keys == v.span.Keys
            && 0 <= DeleteRank(w, h, y) < DeleteRank(v, bh, t)
  {
    hide Linked, KidOk, UpOk, Placed, AllEven, EvenBut, CoolBut, Counted, BlackTurn, Rotated, Lifted;
    SiblingOf(v, bh, t);
    var p := v.mem[t].parent;
    var d := v.mem[p].left != t;
    var s := v.mem[p].Kid(!d);
    SinkClimbs(v, bh, t, p, d, s);
    if v.mem[s].red {
      LiftMove(v, bh, t, p, d, s);
      var w := Rotated(Lifted(v, p, s), p, d);
      BlackTurnKeeps(w, bh[p := bh[s]][s := bh[p]], t, p, d, w.mem[p].Kid(!d));
    } else {
      BlackTurnKeeps(v, bh, t, p, d, s);
    }
  }
}
