/** ntg_rbtree.c on real nodes: every method is tied to the picture of RbView, whose lemmas carry
    the invariants from one statement to the next. */
module RbTree {
  import opened RbView
  import opened Sequences
  import opened RbBalance
  import opened RbOrder

  class Tree {
    var root: Node
    const sentinel: Node
    const timer: bool

    ghost var order: seq<Node>
    ghost var span: map<Node, Span>
    ghost var bh: Heights

    constructor (s: Node, t: bool)
      modifies s`red
      ensures sentinel == s && timer == t && order == []
      ensures RedBlack(Now(), bh)
    {
      s.red := false;
      root, sentinel, timer := s, s, t;
      order, span, bh := [], map[], map[s := 0];
    }

    ghost function Now(): View
      reads this`root, this`order, this`span, sentinel, span.Keys
    {
      View(sentinel, root, map n: Node | n in span.Keys + {sentinel} :: Cell(n.left, n.right, n.parent, n.red), order, span)
    }

    lemma SeesAll()
      ensures Now().z == sentinel && Now().root == root && Now().order == order && Now().span == span
      ensures Now().mem.Keys == span.Keys + {sentinel}
      ensures forall n {:trigger Now().mem[n]} :: n in Now().mem ==> Now().mem[n] == Cell(n.left, n.right, n.parent, n.red)
    {
    }

    lemma MemIs(m: map<Node, Cell>)
      requires m.Keys == span.Keys + {sentinel}
      requires forall n {:trigger m[n]} :: n in m ==> m[n] == Cell(n.left, n.right, n.parent, n.red)
      ensures Now() == View(sentinel, root, m, order, span)
    {
      assert Now().mem == m;
    }

    /** The links are those of w already: sequence and slices follow. */
    ghost method Become(w: View)
      requires w.z == sentinel && w.root == root && w.mem.Keys == w.span.Keys + {sentinel}
      requires forall n {:trigger w.mem[n]} :: n in w.mem ==> w.mem[n] == Cell(n.left, n.right, n.parent, n.red)
      modifies this`order, this`span
      ensures Now() == w
    {
      hide Now;
      order, span := w.order, w.span;
      MemIs(w.mem);
    }

    /** The same where the sequence stays. */
    ghost method Turned(w: View)
      requires w.z == sentinel && w.root == root && w.order == order && w.mem.Keys == w.span.Keys + {sentinel}
      requires forall n {:trigger w.mem[n]} :: n in w.mem ==> w.mem[n] == Cell(n.left, n.right, n.parent, n.red)
      modifies this`span
      ensures Now() == w
    {
      hide Now;
      span := w.span;
      MemIs(w.mem);
    }

    method Paint(n: Node, red: bool)
      requires n in span || n == sentinel
      modifies n`red
      ensures Now() == Painted(old(Now()), n, red)
    {
      n.red := red;
    }

    /** The nodes a rotation at x touches are pairwise distinct; d false is a left rotation. */
    predicate Turnable(x: Node, d: bool, S: set<Node>)
      reads this, S
    {
      && x in S && sentinel !in S
      && var y := if d then x.left else x.right;
      && y != null && y in S && y != x
      && var b := if d then y.right else y.left;
      && b != null && b != x && b != y && (b != sentinel ==> b in S)
      && (x != root ==> x.parent != null && x.parent in S && x.parent != x && x.parent != y && x.parent != b)
    }

    lemma CanTurn(x: Node, d: bool)
      requires CanRotate(Now(), x, d)
      ensures Turnable(x, d, span.Keys)
    {
      Neighbours(Now(), x, d);
    }

    /** The pointer assignments of a left rotation, field by field. */
    method RelinkLeft(node: Node, ghost S: set<Node>)
      requires Turnable(node, false, S)
      modifies this`root, S`left, S`right, S`parent
      ensures root == if old(root) == node then old(node.right) else old(root)
      ensures forall n {:trigger n.left} :: n in S ==>
        (n.left == if n == old(node.right) then node
                   else if node != old(root) && n == old(node.parent) && old(n.left) == node then old(node.right)
                   else old(n.left))
      ensures forall n {:trigger n.right} :: n in S ==>
        (n.right == if n == node then old(var y: Node := node.right; y.left)
                    else if node != old(root) && n == old(node.parent) && old(n.left) != node then old(node.right)
                    else old(n.right))
      ensures forall n {:trigger n.parent} :: n in S ==>
        (n.parent == if n == node then old(node.right)
                     else if n == old(node.right) then old(node.parent)
                     else if n == old(var y: Node := node.right; y.left) then node
                     else old(n.parent))
    {
      var temp := node.right;
      node.right := temp.left;
      if temp.left != sentinel {
        temp.left.parent := node;
      }
      temp.parent := node.parent;
      if node == root {
        root := temp;
      } else if node == node.parent.left {
        node.parent.left := temp;
      } else {
        node.parent.right := temp;
      }
      temp.left := node;
      node.parent := temp;
    }

    method LeftRotate(node: Node)
      requires CanRotate(Now(), node, false)
      modifies this`root, this`span, span.Keys`left, span.Keys`right, span.Keys`parent
      ensures Now() == Rotated(old(Now()), node, false)
    {
      hide CanRotate, Rotated, RotatedMem, Shape, Frame, Linked, Now;
      ghost var v, w := Now(), Rotated(Now(), node, false);
      RotatedCells(v, node, false);
      CanTurn(node, false);
      SeesAll();
      ghost var y, b := node.right, node.right.left;
      RelinkLeft(node, span.Keys);
      forall n | n in w.mem ensures w.mem[n] == Cell(n.left, n.right, n.parent, n.red) {
        RotatedAt(v, node, false, y, b, n);
      }
      Turned(w);
    }

    /** The pointer assignments of a right rotation, field by field. */
    method RelinkRight(node: Node, ghost S: set<Node>)
      requires Turnable(node, true, S)
      modifies this`root, S`right, S`left, S`parent
      ensures root == if old(root) == node then old(node.left) else old(root)
      ensures forall n {:trigger n.right} :: n in S ==>
        (n.right == if n == old(node.left) then node
                   else if node != old(root) && n == old(node.parent) && old(n.right) == node then old(node.left)
                   else old(n.right))
      ensures forall n {:trigger n.left} :: n in S ==>
        (n.left == if n == node then old(var y: Node := node.left; y.right)
                    else if node != old(root) && n == old(node.parent) && old(n.right) != node then old(node.left)
                    else old(n.left))
      ensures forall n {:trigger n.parent} :: n in S ==>
        (n.parent == if n == node then old(node.left)
                     else if n == old(node.left) then old(node.parent)
                     else if n == old(var y: Node := node.left; y.right) then node
                     else old(n.parent))
    {
      var temp := node.left;
      node.left := temp.right;
      if temp.right != sentinel {
        temp.right.parent := node;
      }
      temp.parent := node.parent;
      if node == root {
        root := temp;
      } else if node == node.parent.right {
        node.parent.right := temp;
      } else {
        node.parent.left := temp;
      }
      temp.right := node;
      node.parent := temp;
    }

    method RightRotate(node: Node)
      requires CanRotate(Now(), node, true)
      modifies this`root, this`span, span.Keys`right, span.Keys`left, span.Keys`parent
      ensures Now() == Rotated(old(Now()), node, true)
    {
      hide CanRotate, Rotated, RotatedMem, Shape, Frame, Linked, Now;
      ghost var v, w := Now(), Rotated(Now(), node, true);
      RotatedCells(v, node, true);
      CanTurn(node, true);
      SeesAll();
      ghost var y, b := node.left, node.left.right;
      RelinkRight(node, span.Keys);
      forall n | n in w.mem ensures w.mem[n] == Cell(n.left, n.right, n.parent, n.red) {
        RotatedAt(v, node, true, y, b, n);
      }
      Turned(w);
    }

    // ----- insertion

    /** Red uncle temp: its black and the parent's come from the grandparent. */
    method Recolour(node: Node, temp: Node, ghost h: Heights, ghost p: Node, ghost g: Node, ghost d: bool)
      requires Kin(Now(), h, node, p, g, d, temp) && temp in span
      modifies span.Keys`red
      ensures Now() == Recoloured(old(Now()), p, temp, g)
    {
      Paint(node.parent, false);
      Paint(temp, false);
      Paint(node.parent.parent, true);
    }

    /** Black uncle, node on the outer side of its parent, a left kid. */
    method RaiseLeftParent(node: Node, ghost h: Heights, ghost p: Node, ghost g: Node, ghost u: Node)
      requires Outer(Now(), h, node, p, g, false, u)
      modifies this`root, this`span, span.Keys`left, span.Keys`right, span.Keys`parent, span.Keys`red
      ensures Now() == Raised(old(Now()), h, node, p, g, false, u).0
    {
      OuterMove(Now(), h, node, p, g, false, u);
      Paint(node.parent, false);
      Paint(node.parent.parent, true);
      RightRotate(node.parent.parent);
    }

    /** The loop body when the parent is a left kid. */
    method RebalanceLeft(node: Node, ghost h: Heights) returns (next: Node)
      requires RedRed(Now(), h, node) && node.parent != null && node.parent.parent != null
      requires node.parent == node.parent.parent.left
      modifies this`root, this`span, span.Keys`left, span.Keys`right, span.Keys`parent, span.Keys`red
      ensures Now() == InsertTurn(old(Now()), h, node).0 && next == InsertTurn(old(Now()), h, node).2
    {
      hide Linked, KidOk, UpOk, Placed, AllEven, AllCool;
      ghost var v := Now();
      FamilyOf(v, h, node);
      ghost var p, g, u := node.parent, node.parent.parent, node.parent.parent.right;
      assert p == v.mem[node].parent && g == v.mem[p].parent && u == v.mem[g].right && Kin(v, h, node, p, g, false, u);
      var temp := node.parent.parent.right;
      if temp.red {
        next := node.parent.parent;
        Recolour(node, temp, h, p, g, false);
      } else if node == node.parent.right {
        next := node.parent;
        InnerMove(v, h, node, p, g, false, u);
        LeftRotate(next);
        RaiseLeftParent(next, h, node, g, u);
      } else {
        next := node;
        RaiseLeftParent(next, h, p, g, u);
      }
    }

    /** Black uncle, node on the outer side of its parent, a right kid. */
    method RaiseRightParent(node: Node, ghost h: Heights, ghost p: Node, ghost g: Node, ghost u: Node)
      requires Outer(Now(), h, node, p, g, true, u)
      modifies this`root, this`span, span.Keys`right, span.Keys`left, span.Keys`parent, span.Keys`red
      ensures Now() == Raised(old(Now()), h, node, p, g, true, u).0
    {
      OuterMove(Now(), h, node, p, g, true, u);
      Paint(node.parent, false);
      Paint(node.parent.parent, true);
      LeftRotate(node.parent.parent);
    }

    /** The loop body when the parent is a right kid. */
    method RebalanceRight(node: Node, ghost h: Heights) returns (next: Node)
      requires RedRed(Now(), h, node) && node.parent != null && node.parent.parent != null
      requires node.parent == node.parent.parent.right
      modifies this`root, this`span, span.Keys`right, span.Keys`left, span.Keys`parent, span.Keys`red
      ensures Now() == InsertTurn(old(Now()), h, node).0 && next == InsertTurn(old(Now()), h, node).2
    {
      hide Linked, KidOk, UpOk, Placed, AllEven, AllCool;
      ghost var v := Now();
      FamilyOf(v, h, node);
      ghost var p, g, u := node.parent, node.parent.parent, node.parent.parent.left;
      assert p == v.mem[node].parent && g == v.mem[p].parent && u == v.mem[g].left && Kin(v, h, node, p, g, true, u);
      var temp := node.parent.parent.left;
      if temp.red {
        next := node.parent.parent;
        Recolour(node, temp, h, p, g, true);
      } else if node == node.parent.left {
        next := node.parent;
        InnerMove(v, h, node, p, g, true, u);
        RightRotate(next);
        RaiseRightParent(next, h, node, g, u);
      } else {
        next := node;
        RaiseRightParent(next, h, p, g, u);
      }
    }

    // ----- the two descents

    lemma Attachable(at: Node, node: Node, side: bool)
      requires Shape(Now()) && at in span && (if side then at.right else at.left) == sentinel && node !in span && node != sentinel
      ensures CanAttach(Now(), at, node, side)
    {
      hide Shape;
      SeesAll();
    }

    ghost function Keys(): set<Key>
      reads this`span, span.Keys`key
    {
      set n | n in span.Keys :: n.key
    }

    /** The keys outside the slice of temp already stand on the right side of key. */
    ghost predicate Narrowed(key: Key, temp: Node)
      reads this`order, this`span, order`key
      requires temp in span
    {
      && (forall i :: 0 <= i < span[temp].lo && i < |order| ==> !Before(timer, key, order[i].key))
      && (forall i :: 0 <= i && span[temp].hi <= i < |order| ==> Before(timer, key, order[i].key))
    }

    /** The keys are in order, and key can be compared with all of them. */
    ghost predicate Placeable(key: Key)
      reads this`order, this`span, span.Keys`key, order`key
    {
      Ascending(timer, order) && Comparable(timer, Keys() + {key})
    }

    /** Either side of a node is empty or leads to a smaller subtree, whatever the keys are. */
    lemma Descend(temp: Node, side: bool)
      requires Shape(Now()) && temp in span
      ensures var next := if side then temp.right else temp.left;
              next != sentinel ==> next != null && next in span
                                   && 0 <= span[next].hi - span[next].lo < span[temp].hi - span[temp].lo
    {
      assert Linked(Now(), temp);
      ghost var next := Now().mem[temp].Kid(side);
      if next != sentinel { assert Linked(Now(), next); }
    }

    /** Going to the side the comparison picks keeps the slice around the key's place. */
    lemma Narrow(key: Key, temp: Node, side: bool)
      requires Shape(Now()) && temp in span && Placeable(key) && Narrowed(key, temp) && side == !Before(timer, key, temp.key)
      ensures var next := if side then temp.right else temp.left;
              if next == sentinel then FitsAt(timer, order, key, AttachAt(Now(), temp, side))
              else next != null && next in span && Narrowed(key, next)
    {
      ghost var v := Now();
      assert Linked(v, temp);
      ghost var next := v.mem[temp].Kid(side);
      if next != sentinel { assert Linked(v, next); }
      forall i | 0 <= i < |order|
        ensures side && i <= span[temp].pos ==> !Before(timer, key, order[i].key)
        ensures !side && span[temp].pos <= i ==> Before(timer, key, order[i].key)
      {
        assert Placed(v, i);
        BeforeIsOrder(timer, Keys() + {key}, key, temp.key, order[i].key);
      }
    }

    /** What both descents end with: node becomes a red leaf on the empty side of temp. */
    method HangLinks(temp: Node, node: Node, side: bool)
      requires temp != node
      modifies temp`left, temp`right, node`left, node`right, node`parent, node`red
      ensures temp.left == if side then old(temp.left) else node
      ensures temp.right == if side then node else old(temp.right)
      ensures node.left == sentinel && node.right == sentinel && node.parent == temp && node.red
    {
      if side {
        temp.right := node;
      } else {
        temp.left := node;
      }
      node.parent := temp;
      node.left := sentinel;
      node.right := sentinel;
      node.red := true;
    }

    method Hang(temp: Node, node: Node, side: bool)
      requires CanAttach(Now(), temp, node, side)
      modifies this`order, this`span, temp`left, temp`right, node`left, node`right, node`parent, node`red
      ensures Now() == Attached(old(Now()), temp, node, side)
    {
      hide Shape, CanAttach, Attached, Now;
      ghost var v, w := Now(), Attached(Now(), temp, node, side);
      AttachedCells(v, temp, node, side);
      SeesAll();
      HangLinks(temp, node, side);
      forall c | c in w.mem ensures w.mem[c] == Cell(c.left, c.right, c.parent, c.red) {
        if c != temp && c != node { assert w.mem[c] == v.mem[c]; }
      }
      Become(w);
    }

    /** The descent by keys: it ends at an empty side; where the keys are in order, at the place of the new one. */
    method SeekValue(start: Node, node: Node) returns (at: Node, right: bool)
      requires !timer && Shape(Now()) && start in span
      ensures at in span && (if right then at.right else at.left) == sentinel
      ensures Placeable(node.key) && Narrowed(node.key, start) ==> FitsAt(timer, order, node.key, AttachAt(Now(), at, right))
    {
      hide Narrowed, Placeable, FitsAt, AttachAt, Shape, Now;
      ghost var placeable := Placeable(node.key) && Narrowed(node.key, start);
      at := start;
      while true
        invariant at in span && (placeable ==> Narrowed(node.key, at))
        decreases span[at].hi - span[at].lo
      {
        right := !(node.key < at.key);
        Descend(at, right);
        if placeable { Narrow(node.key, at, right); }
        var next := if right then at.right else at.left;
        if next == sentinel {
          break;
        }
        at := next;
      }
    }

    /** ntg_rbtree_insert_value: a leaf is hung whatever the keys; where they are in order, at the key's place. */
    method InsertValue(start: Node, node: Node) returns (ghost temp: Node, ghost side: bool)
      requires !timer && Shape(Now()) && node !in span && node != sentinel && start in span
      modifies this`order, this`span, span.Keys`left, span.Keys`right, node`left, node`right, node`parent, node`red
      ensures CanAttach(old(Now()), temp, node, side) && Now() == Attached(old(Now()), temp, node, side)
      ensures old(Placeable(node.key) && Narrowed(node.key, start)) ==> old(FitsAt(timer, order, node.key, AttachAt(Now(), temp, side)))
    {
      hide Narrowed, Placeable, FitsAt, Attached, Shape, Frame;
      var at, right := SeekValue(start, node);
      Attachable(at, node, right);
      temp, side := at, right;
      Hang(at, node, right);
    }

    /** The descent by wrapped differences. */
    method SeekTimer(start: Node, node: Node) returns (at: Node, right: bool)
      requires timer && Shape(Now()) && start in span
      ensures at in span && (if right then at.right else at.left) == sentinel
      ensures Placeable(node.key) && Narrowed(node.key, start) ==> FitsAt(timer, order, node.key, AttachAt(Now(), at, right))
    {
      hide Narrowed, Placeable, FitsAt, AttachAt, Shape, Now;
      ghost var placeable := Placeable(node.key) && Narrowed(node.key, start);
      at := start;
      while true
        invariant at in span && (placeable ==> Narrowed(node.key, at))
        decreases span[at].hi - span[at].lo
      {
        right := !((node.key - at.key) % WORD >= HALF);
        Descend(at, right);
        if placeable { Narrow(node.key, at, right); }
        var next := if right then at.right else at.left;
        if next == sentinel {
          break;
        }
        at := next;
      }
    }

    /** ntg_rbtree_insert_timer_value, likewise for keys that the wrapped difference can order. */
    method InsertTimerValue(start: Node, node: Node) returns (ghost temp: Node, ghost side: bool)
      requires timer && Shape(Now()) && node !in span && node != sentinel && start in span
      modifies this`order, this`span, span.Keys`left, span.Keys`right, node`left, node`right, node`parent, node`red
      ensures CanAttach(old(Now()), temp, node, side) && Now() == Attached(old(Now()), temp, node, side)
      ensures old(Placeable(node.key) && Narrowed(node.key, start)) ==> old(FitsAt(timer, order, node.key, AttachAt(Now(), temp, side)))
    {
      hide Narrowed, Placeable, FitsAt, Attached, Shape, Frame;
      var at, right := SeekTimer(start, node);
      Attachable(at, node, right);
      temp, side := at, right;
      Hang(at, node, right);
    }

    // ----- insertion

    /** The invariant of the structure; it does not depend on the keys. */
    ghost predicate Valid()
      reads this`root, this`order, this`span, this`bh, sentinel, span.Keys
    {
      RedBlack(Now(), bh)
    }

    /** The keys stand in order; insertion keeps this when the new key is comparable, deletion always. */
    ghost predicate Sorted()
      reads this`order, order`key
    {
      Ascending(timer, order)
    }

    /** The rebalancing loop and the final blackening of the root. */
    method Rebalance(start: Node, ghost h: Heights) returns (ghost h': Heights)
      requires Inserting(Now(), h, start)
      modifies this`root, this`span, span.Keys`left, span.Keys`right, span.Keys`parent, span.Keys`red
      ensures RedBlack(Now(), h') && span.Keys == old(span.Keys)
    {
      hide Shape, AllEven, AllCool, Counted, InsertTurn, InsertRank;
      var node := start;
      h' := h;
      HasParent(Now(), node);
      while node != root && node.parent.red
        invariant Inserting(Now(), h', node) && span.Keys == old(span.Keys)
        invariant node != root ==> node.parent != null && node.parent in span
        decreases InsertRank(Now(), h', node)
      {
        ghost var v := Now();
        InsertTurnKeeps(v, h', node);
        FamilyOf(v, h', node);
        ghost var turn := InsertTurn(v, h', node);
        if node.parent == node.parent.parent.left {
          node := RebalanceLeft(node, h');
        } else {
          node := RebalanceRight(node, h');
        }
        h' := turn.1;
        HasParent(Now(), node);
      }
      InsertDone(Now(), h', node);
      ghost var v := Now();
      Paint(root, false);
      h' := h'[v.root := if v.mem[v.root].red then h'[v.root] + 1 else h'[v.root]];
    }

    /** The writes into an empty tree. */
    method Plant(node: Node)
      requires span == map[] && node != sentinel
      modifies this`root, this`order, this`span, node`left, node`right, node`parent, node`red
      ensures sentinel in old(Now()).mem && Now() == Alone(old(Now()), node)
    {
      hide Now;
      SeesAll();
      node.parent := null;
      node.left := sentinel;
      node.right := sentinel;
      node.red := false;
      root := node;
      order, span := [node], map[node := Span(0, 0, 1)];
      MemIs(map[sentinel := Cell(sentinel.left, sentinel.right, sentinel.parent, sentinel.red),
                node := Cell(sentinel, sentinel, null, false)]);
    }

    /** Into an empty tree: the node becomes a black root. */
    method InsertFirst(node: Node)
      requires RedBlack(Now(), bh) && root == sentinel && node != sentinel
      modifies this`root, this`order, this`span, this`bh, node`left, node`right, node`parent, node`red
      ensures RedBlack(Now(), bh) && order == [node] && span.Keys == {node}
    {
      hide Linked, KidOk, UpOk, Placed, AllEven, AllCool;
      HasRoot(Now());
      AloneIsRedBlack(Now(), node);
      Plant(node);
      bh := map[sentinel := 0, node := 1];
    }

    /** The tree's insert callback: a red leaf that the invariants allow for. */
    method InsertLeaf(start: Node, node: Node) returns (ghost k: nat)
      requires RedBlack(Now(), bh) && node !in span && node != sentinel && start == root && root in span
      modifies this`order, this`span, span.Keys`left, span.Keys`right, node`left, node`right, node`parent, node`red
      ensures Inserting(Now(), bh[node := 0], node) && span.Keys == old(span.Keys) + {node}
      ensures k <= |old(order)| && order == old(order)[..k] + [node] + old(order)[k..]
      ensures old(Placeable(node.key)) ==> FitsAt(timer, old(order), node.key, k)
    {
      hide Linked, KidOk, UpOk, Placed, AllEven, AllCool, Counted, Inserting, FitsAt, Attached, AttachAt, Placeable, Shape, Frame;
      ghost var v, o, placeable := Now(), order, Placeable(node.key);
      HasRoot(v);
      ghost var temp, side;
      if timer {
        temp, side := InsertTimerValue(start, node);
      } else {
        temp, side := InsertValue(start, node);
      }
      ghost var at := AttachAt(v, temp, side);
      assert placeable ==> FitsAt(timer, o, node.key, at);
      AttachStep(v, bh, temp, node, side);
      AttachedFrame(v, temp, node, side);
      k := at;
      assert order == o[..k] + [node] + o[k..] && span.Keys == v.span.Keys + {node};
    }

    /** The callback, and the recolouring that follows it. */
    method InsertBelow(start: Node, node: Node) returns (ghost k: nat, ghost h: Heights)
      requires RedBlack(Now(), bh) && node !in span && node != sentinel && start == root && root in span
      modifies this`root, this`order, this`span, span.Keys`left, span.Keys`right, span.Keys`parent, span.Keys`red
      modifies node`left, node`right, node`parent, node`red
      ensures RedBlack(Now(), h) && span.Keys == old(span.Keys) + {node}
      ensures k <= |old(order)| && order == old(order)[..k] + [node] + old(order)[k..]
      ensures old(Placeable(node.key)) ==> FitsAt(timer, old(order), node.key, k)
    {
      hide RedBlack, Inserting, FitsAt, Placeable;
      k := InsertLeaf(start, node);
      h := Rebalance(node, bh[node := 0]);
    }

    /** The structure stays red-black and gains exactly the new node, whatever the keys are; where the
        keys are in order and the new one can be compared with them, it enters where it belongs. */
    method Insert(node: Node) returns (ghost k: nat)
      requires Valid() && node !in span && node != sentinel
      modifies this, span.Keys`left, span.Keys`right, span.Keys`parent, span.Keys`red
      modifies node`left, node`right, node`parent, node`red
      ensures Valid() && span.Keys == old(span.Keys) + {node}
      ensures k <= |old(order)| && order == old(order)[..k] + [node] + old(order)[k..]
      ensures old(Placeable(node.key)) ==> Sorted() && FitsAt(timer, old(order), node.key, k)
      ensures !timer && old(Rising(order)) ==> Rising(order) && PlaceOf(old(order), node.key, k)
      ensures timer ==> forall w: Key | InWindow(w, old(Keys()) + {node.key}) && old(RisingFrom(w, order)) ::
                RisingFrom(w, order) && PlaceFrom(w, old(order), node.key, k)
    {
      hide RedBlack, FitsAt, Ascending, Comparable, Keys, Now, InWindow, Rising, RisingFrom, PlaceOf, PlaceFrom;
      ghost var o, keys, placeable := order, Keys(), Placeable(node.key);
      Standing();
      InOrder(node.key);
      if root == sentinel {
        InsertFirst(node);
        k := 0;
        AloneFits(node);
      } else {
        k, bh := InsertBelow(root, node);
        if placeable { FittingKeepsAscending(timer, o, node, k, keys); }
      }
      Entered(o, node, k, keys);
    }

    /** What the order of the keys and the fitting place are, without the comparison. */
    lemma InOrder(key: Key)
      requires forall n | n in order :: n.key in Keys()
      ensures !timer ==> (Placeable(key) <==> Rising(order))
      ensures timer ==> forall w: Key | InWindow(w, Keys() + {key}) :: Placeable(key) <==> RisingFrom(w, order)
    {
      ValueOrder(order, key, 0);
      forall w: Key | timer && InWindow(w, Keys() + {key}) ensures Placeable(key) <==> RisingFrom(w, order) {
        assert key in Keys() + {key};
        TimerOrder(w, order, key, 0);
      }
    }

    lemma Entered(o: seq<Node>, node: Node, k: int, keys: set<Key>)
      requires 0 <= k <= |o| && order == o[..k] + [node] + o[k..] && forall n | n in o :: n.key in keys
      ensures !timer ==> (Sorted() <==> Rising(order)) && (FitsAt(timer, o, node.key, k) <==> PlaceOf(o, node.key, k))
      ensures timer ==> forall w: Key | InWindow(w, keys + {node.key}) ::
                (Sorted() <==> RisingFrom(w, order)) && (FitsAt(timer, o, node.key, k) <==> PlaceFrom(w, o, node.key, k))
    {
      hide Ascending, FitsAt, Rising, RisingFrom, PlaceOf, PlaceFrom;
      ValueOrder(order, node.key, k);
      ValueOrder(o, node.key, k);
      forall w: Key | timer && InWindow(w, keys + {node.key})
        ensures (Sorted() <==> RisingFrom(w, order)) && (FitsAt(timer, o, node.key, k) <==> PlaceFrom(w, o, node.key, k))
      {
        assert node.key in keys + {node.key};
        TimerOrder(w, order, node.key, k);
        TimerOrder(w, o, node.key, k);
      }
    }

    /** What a red-black tree says of its root and of its sequence. */
    lemma Standing()
      requires RedBlack(Now(), bh)
      ensures root == sentinel <==> order == []
      ensures root != sentinel ==> root in span
      ensures span.Keys == set n | n in order
      ensures forall n | n in order :: n.key in Keys()
    {
      HasRoot(Now());
      forall n | n in span ensures n in order { assert Linked(Now(), n); }
    }

    lemma AloneFits(node: Node)
      ensures Ascending(timer, [node]) && FitsAt(timer, [], node.key, 0)
    {
    }

    // ----- deletion

    /** ntg_rbtree_min: the leftmost node of the subtree at start. */
    method Min(start: Node) returns (node: Node)
      requires Shape(Now()) && start in span
      ensures node in span && node.left == sentinel && span[node].pos == span[start].lo
      ensures start == root && Rising(order) ==> forall n | n in span :: node.key <= n.key
      ensures forall w: Key | start == root && RisingFrom(w, order) :: forall n | n in span :: Off(w, node.key) <= Off(w, n.key)
    {
      hide Rising, RisingFrom;
      node := start;
      assert Linked(Now(), node);
      while node.left != sentinel
        invariant node in span && span[node].lo == span[start].lo && 0 <= span[node].lo < span[node].hi && Linked(Now(), node)
        decreases span[node].hi
      {
        node := node.left;
        assert Linked(Now(), node);
      }
      if start == root { FirstIsLeast(node); }
    }

    lemma FirstIsLeast(node: Node)
      requires Shape(Now()) && node in span && span[node].pos == 0
      ensures Rising(order) ==> forall n | n in span :: node.key <= n.key
      ensures forall w: Key | RisingFrom(w, order) :: forall n | n in span :: Off(w, node.key) <= Off(w, n.key)
    {
      hide Off;
      assert Linked(Now(), node);
      forall n | n in span ensures 0 <= span[n].pos < |order| && order[span[n].pos] == n && order[0] == node {
        assert Linked(Now(), n);
      }
    }

    /** Red sibling w: it rises over the parent of temp, a left kid. */
    method LiftRightSibling(temp: Node, w: Node, ghost h: Heights, ghost p: Node)
      requires Lack(Now(), h, temp, p, false, w) && w.red
      modifies this`root, this`span, span.Keys`left, span.Keys`right, span.Keys`parent, span.Keys`red
      ensures CanRotate(Lifted(old(Now()), p, w), p, false)
      ensures Now() == Rotated(Lifted(old(Now()), p, w), p, false)
    {
      LiftMove(Now(), h, temp, p, false, w);
      Paint(w, false);
      Paint(temp.parent, true);
      LeftRotate(temp.parent);
    }

    /** Black sibling w with a black far kid: the near one, red, takes its place. */
    method LeanRightSibling(temp: Node, w: Node, ghost h: Heights, ghost p: Node, ghost near: Node, ghost far: Node)
      requires NearRed(Now(), h, temp, p, false, w, near, far)
      modifies this`root, this`span, span.Keys`left, span.Keys`right, span.Keys`parent, span.Keys`red
      ensures near in h && CanRotate(Leaned(old(Now()), w, near), w, true)
      ensures Now() == Rotated(Leaned(old(Now()), w, near), w, true)
    {
      LeanMove(Now(), h, temp, p, false, w, near, far);
      Paint(w.left, false);
      Paint(w, true);
      RightRotate(w);
    }

    /** Black sibling w with a red far kid: the shortage ends here. */
    method HandRightSibling(temp: Node, w: Node, ghost h: Heights, ghost p: Node, ghost far: Node) returns (next: Node)
      requires FarRed(Now(), h, temp, p, false, w, far)
      modifies this`root, this`span, span.Keys`left, span.Keys`right, span.Keys`parent, span.Keys`red
      ensures Now() == HandTurn(old(Now()), h, temp, p, false, w, far).0
      ensures next == HandTurn(old(Now()), h, temp, p, false, w, far).2
    {
      HandMove(Now(), h, temp, p, false, w, far);
      Paint(w, temp.parent.red);
      Paint(temp.parent, false);
      Paint(w.right, false);
      LeftRotate(temp.parent);
      next := root;
    }

    /** The loop body once the sibling w of temp, a left kid, is black. */
    method RepairBlackLeft(temp: Node, w: Node, ghost h: Heights, ghost p: Node) returns (next: Node)
      requires Lack(Now(), h, temp, p, false, w) && !w.red && temp.parent == p
      modifies this`root, this`span, span.Keys`left, span.Keys`right, span.Keys`parent, span.Keys`red
      ensures Now() == BlackTurn(old(Now()), h, temp, p, false, w).0
      ensures next == BlackTurn(old(Now()), h, temp, p, false, w).2
    {
      hide Leaned, Rotated, HandTurn, Linked, Frame, Deleting;
      ghost var v, near, far := Now(), w.left, w.right;
      assert near == v.mem[w].left && far == v.mem[w].right && near in v.mem && far in v.mem;
      if !w.left.red && !w.right.red {
        SinkStep(v, h, temp, p, false, w, near, far);
        Paint(w, true);
        next := temp.parent;
      } else if !w.right.red {
        LeanMove(v, h, temp, p, false, w, near, far);
        LeanRightSibling(temp, w, h, p, near, far);
        next := HandRightSibling(temp, temp.parent.right, h[w := h[near]][near := h[w]], p, w);
      } else {
        next := HandRightSibling(temp, w, h, p, far);
      }
    }

    /** The loop body when temp is a left kid. */
    method RepairLeft(temp: Node, ghost h: Heights) returns (next: Node)
      requires Doubled(Now(), h, temp) && temp.parent != null && temp == temp.parent.left
      modifies this`root, this`span, span.Keys`left, span.Keys`right, span.Keys`parent, span.Keys`red
      ensures Now() == DeleteTurn(old(Now()), h, temp).0 && next == DeleteTurn(old(Now()), h, temp).2
    {
      hide Shape, EvenBut, AllEven, CoolBut, Rotated, Lifted, BlackTurn, Counted;
      ghost var v, p := Now(), temp.parent;
      SiblingOf(v, h, temp);
      var w := temp.parent.right;
      assert p == v.mem[temp].parent && v.mem[p].left == temp && w == v.mem[p].right;
      if w.red {
        LiftMove(v, h, temp, p, false, w);
        LiftRightSibling(temp, w, h, p);
        next := RepairBlackLeft(temp, temp.parent.right, h[p := h[w]][w := h[p]], p);
      } else {
        next := RepairBlackLeft(temp, w, h, p);
      }
    }

    /** Red sibling w: it rises over the parent of temp, a right kid. */
    method LiftLeftSibling(temp: Node, w: Node, ghost h: Heights, ghost p: Node)
      requires Lack(Now(), h, temp, p, true, w) && w.red
      modifies this`root, this`span, span.Keys`right, span.Keys`left, span.Keys`parent, span.Keys`red
      ensures CanRotate(Lifted(old(Now()), p, w), p, true)
      ensures Now() == Rotated(Lifted(old(Now()), p, w), p, true)
    {
      LiftMove(Now(), h, temp, p, true, w);
      Paint(w, false);
      Paint(temp.parent, true);
      RightRotate(temp.parent);
    }

    /** Black sibling w with a black far kid: the near one, red, takes its place. */
    method LeanLeftSibling(temp: Node, w: Node, ghost h: Heights, ghost p: Node, ghost near: Node, ghost far: Node)
      requires NearRed(Now(), h, temp, p, true, w, near, far)
      modifies this`root, this`span, span.Keys`right, span.Keys`left, span.Keys`parent, span.Keys`red
      ensures near in h && CanRotate(Leaned(old(Now()), w, near), w, false)
      ensures Now() == Rotated(Leaned(old(Now()), w, near), w, false)
    {
      LeanMove(Now(), h, temp, p, true, w, near, far);
      Paint(w.right, false);
      Paint(w, true);
      LeftRotate(w);
    }

    /** Black sibling w with a red far kid: the shortage ends here. */
    method HandLeftSibling(temp: Node, w: Node, ghost h: Heights, ghost p: Node, ghost far: Node) returns (next: Node)
      requires FarRed(Now(), h, temp, p, true, w, far)
      modifies this`root, this`span, span.Keys`right, span.Keys`left, span.Keys`parent, span.Keys`red
      ensures Now() == HandTurn(old(Now()), h, temp, p, true, w, far).0
      ensures next == HandTurn(old(Now()), h, temp, p, true, w, far).2
    {
      HandMove(Now(), h, temp, p, true, w, far);
      Paint(w, temp.parent.red);
      Paint(temp.parent, false);
      Paint(w.left, false);
      RightRotate(temp.parent);
      next := root;
    }

    /** The loop body once the sibling w of temp, a right kid, is black. */
    method RepairBlackRight(temp: Node, w: Node, ghost h: Heights, ghost p: Node) returns (next: Node)
      requires Lack(Now(), h, temp, p, true, w) && !w.red && temp.parent == p
      modifies this`root, this`span, span.Keys`right, span.Keys`left, span.Keys`parent, span.Keys`red
      ensures Now() == BlackTurn(old(Now()), h, temp, p, true, w).0
      ensures next == BlackTurn(old(Now()), h, temp, p, true, w).2
    {
      hide Leaned, Rotated, HandTurn, Linked, Frame, Deleting;
      ghost var v, near, far := Now(), w.right, w.left;
      assert near == v.mem[w].right && far == v.mem[w].left && near in v.mem && far in v.mem;
      if !w.left.red && !w.right.red {
        SinkStep(v, h, temp, p, true, w, near, far);
        Paint(w, true);
        next := temp.parent;
      } else if !w.left.red {
        LeanMove(v, h, temp, p, true, w, near, far);
        LeanLeftSibling(temp, w, h, p, near, far);
        next := HandLeftSibling(temp, temp.parent.left, h[w := h[near]][near := h[w]], p, w);
      } else {
        next := HandLeftSibling(temp, w, h, p, far);
      }
    }

    /** The loop body when temp is a right kid. */
    method RepairRight(temp: Node, ghost h: Heights) returns (next: Node)
      requires Doubled(Now(), h, temp) && temp.parent != null && temp == temp.parent.right
      modifies this`root, this`span, span.Keys`right, span.Keys`left, span.Keys`parent, span.Keys`red
      ensures Now() == DeleteTurn(old(Now()), h, temp).0 && next == DeleteTurn(old(Now()), h, temp).2
    {
      hide Shape, EvenBut, AllEven, CoolBut, Rotated, Lifted, BlackTurn, Counted;
      ghost var v, p := Now(), temp.parent;
      SiblingOf(v, h, temp);
      var w := temp.parent.left;
      assert p == v.mem[temp].parent && v.mem[p].right == temp && w == v.mem[p].left;
      if w.red {
        LiftMove(v, h, temp, p, true, w);
        LiftLeftSibling(temp, w, h, p);
        next := RepairBlackRight(temp, temp.parent.left, h[p := h[w]][w := h[p]], p);
      } else {
        next := RepairBlackRight(temp, w, h, p);
      }
    }

    /** One turn of the loop that moves or removes the shortage at temp. */
    method RepairTurn(temp: Node, ghost h: Heights) returns (next: Node, ghost h': Heights)
      requires Doubled(Now(), h, temp)
      modifies this`root, this`span, span.Keys`left, span.Keys`right, span.Keys`parent, span.Keys`red
      ensures Deleting(Now(), h', next) && span.Keys == old(span.Keys)
      ensures 0 <= DeleteRank(Now(), h', next) < old(DeleteRank(Now(), h, temp))
    {
      hide Deleting, Doubled, DeleteTurn, DeleteRank;
      ghost var v := Now();
      DeleteTurnKeeps(v, h, temp);
      SiblingOf(v, h, temp);
      if temp == temp.parent.left {
        next := RepairLeft(temp, h);
      } else {
        next := RepairRight(temp, h);
      }
      h' := DeleteTurn(v, h, temp).1;
    }

    /** Where the shortage is, and whether the loop is over. */
    lemma ShortageAt(temp: Node, h: Heights)
      requires Deleting(Now(), h, temp)
      ensures (temp in span || temp == sentinel) && temp in Now().mem && temp in h
      ensures temp != root && !temp.red ==> Doubled(Now(), h, temp)
      ensures temp == root || temp.red ==> temp == Now().root || Now().mem[temp].red
    {
    }

    /** The loop, and the final blackening. */
    method Repair(start: Node, ghost h: Heights) returns (ghost h': Heights)
      requires Deleting(Now(), h, start)
      modifies this`root, this`span, span.Keys`left, span.Keys`right, span.Keys`parent, span.Keys`red, sentinel`red
      ensures RedBlack(Now(), h') && span.Keys == old(span.Keys)
    {
      hide Deleting, Doubled, DeleteRank, RedBlack, Blackened;
      var temp := start;
      h' := h;
      while temp != root && !temp.red
        invariant Deleting(Now(), h', temp) && span.Keys == old(span.Keys)
        decreases DeleteRank(Now(), h', temp)
      {
        ShortageAt(temp, h');
        temp, h' := RepairTurn(temp, h');
      }
      ghost var v := Now();
      ShortageAt(temp, h');
      DeleteDone(v, h', temp);
      Paint(temp, false);
      h' := Blackened(v, h', temp);
    }

    /** temp takes node's place under the parent. */
    method RelinkSingle(node: Node, temp: Node, ghost m: map<Node, Cell>)
      requires node in m && temp in m && temp != node && node.parent != null && node.parent in m
      requires node.parent != temp && node.parent != node
      requires forall c {:trigger m[c]} :: c in m ==> m[c] == Cell(c.left, c.right, c.parent, c.red)
      modifies node.parent`left, node.parent`right, temp`parent
      ensures forall c {:trigger SplicedCell(m, node, temp, c)} :: c in m && c != node ==>
                Cell(c.left, c.right, c.parent, c.red) == SplicedCell(m, node, temp, c)
    {
      assert m[node].parent == node.parent;
      if node == node.parent.left {
        node.parent.left := temp;
      } else {
        node.parent.right := temp;
      }
      temp.parent := node.parent;
    }

    /** node has an empty side and is not the root: temp takes its place under the parent. */
    method DetachSingle(node: Node, temp: Node)
      requires CanSplice(Now(), node, temp) && node != root
      modifies this`order, this`span, span.Keys`left, span.Keys`right, span.Keys`parent, sentinel`parent
      ensures Now() == Spliced(old(Now()), node, temp)
    {
      hide CanSplice, Spliced, SplicedCell, Linked, Now, Shape;
      ghost var v := Now();
      ghost var w := Spliced(v, node, temp);
      SeesAll();
      SpliceFacts(v, node, temp);
      SplicedCells(v, node, temp);
      RelinkSingle(node, temp, v.mem);
      Become(w);
    }

    /** The nodes a deletion with a successor touches, and which of them may coincide. */
    ghost predicate Successive(node: Node, subst: Node, temp: Node, S: set<Node>)
      reads this`root, S
    {
      && node in S && subst in S && sentinel !in S && (temp in S || temp == sentinel)
      && subst != node && temp != node && temp != subst
      && subst.parent != null && subst.parent in S && subst.parent != subst && subst.parent != temp
      && node.left != null && node.left in S && node.right != null && node.right in S
      && node.left != subst && node.left != temp && node.left != node && node.right != node && node.left != node.right
      && (node.right == subst <==> subst.parent == node)
      && (subst.parent != node ==> subst.parent.left == subst && subst.parent.right != subst && node.right != temp)
      && (node != root ==> && node.parent != null && node.parent in S
                           && node.parent != node && node.parent != subst && node.parent != temp
                           && node.parent != subst.parent && node.parent != node.left && node.parent != node.right)
    }

    lemma SuccessorsAre(node: Node, subst: Node, temp: Node)
      requires HasSuccessor(Now(), node, subst, temp)
      ensures Successive(node, subst, temp, span.Keys) && node in span && subst in span && sentinel !in span
    {
      SuccessorFacts(Now(), node, subst, temp);
    }

    /** The successor subst of node leaves its place to temp. */
    method LiftOut(node: Node, subst: Node, temp: Node, ghost S: set<Node>)
      requires Successive(node, subst, temp, S)
      modifies S`left, S`right, S`parent, sentinel`parent
      ensures forall c {:trigger c.left} :: c in S ==>
        (c.left == if c == old(subst.parent) && old(c.left) == subst then temp else old(c.left))
      ensures forall c {:trigger c.right} :: c in S ==>
        (c.right == if c == old(subst.parent) && old(c.left) != subst then temp else old(c.right))
      ensures forall c {:trigger c.parent} :: c in S + {sentinel} ==>
        (c.parent == if c != temp then old(c.parent) else if old(subst.parent) == node then subst else old(subst.parent))
    {
      if subst == subst.parent.left {
        subst.parent.left := temp;
      } else {
        subst.parent.right := temp;
      }
      if subst.parent == node {
        temp.parent := subst;
      } else {
        temp.parent := subst.parent;
      }
    }

    /** subst takes over node's links and colour. */
    method TakeOver(node: Node, subst: Node, ghost S: set<Node>)
      requires node in S && subst in S && node != subst && sentinel !in S
      requires node.left != null && node.left in S && node.left != subst && node.left != node
      requires node.right != null && (node.right in S || node.right == sentinel) && node.right != subst && node.right != node
      requires node != root ==> && node.parent != null && node.parent in S && node.parent != node && node.parent != subst
                                && node.parent != node.left && node.parent != node.right
      modifies this`root, S`left, S`right, S`parent, subst`red
      ensures root == if old(root) == node then subst else old(root)
      ensures forall c {:trigger c.left} :: c in S ==>
        (c.left == if c == subst then old(node.left)
                   else if node != old(root) && c == old(node.parent) && old(c.left) == node then subst else old(c.left))
      ensures forall c {:trigger c.right} :: c in S ==>
        (c.right == if c == subst then old(node.right)
                    else if node != old(root) && c == old(node.parent) && old(c.left) != node then subst else old(c.right))
      ensures forall c {:trigger c.parent} :: c in S ==>
        (c.parent == if c == subst then old(node.parent)
                     else if c == old(node.left) || c == old(node.right) then subst
                     else old(c.parent))
      ensures subst.red == old(node.red)
    {
      subst.left := node.left;
      subst.right := node.right;
      subst.parent := node.parent;
      subst.red := node.red;
      if node == root {
        root := subst;
      } else if node == node.parent.left {
        node.parent.left := subst;
      } else {
        node.parent.right := subst;
      }
      if subst.left != sentinel {
        subst.left.parent := subst;
      }
      if subst.right != sentinel {
        subst.right.parent := subst;
      }
    }

    /** Both steps: the successor subst of node leaves its place to temp and takes over node's links and colour. */
    method RelinkSuccessor(node: Node, subst: Node, temp: Node, ghost S: set<Node>)
      requires Successive(node, subst, temp, S)
      modifies this`root, S`left, S`right, S`parent, subst`red, sentinel`parent
      ensures root == if old(root) == node then subst else old(root)
      ensures forall c {:trigger c.left} :: c in S && c != node ==>
        (c.left == if c == subst then old(node.left)
                   else if old(subst.parent) != node && c == old(subst.parent) then temp
                   else if node != old(root) && c == old(node.parent) && old(c.left) == node then subst
                   else old(c.left))
      ensures forall c {:trigger c.right} :: c in S && c != node ==>
        (c.right == if c == subst then (if old(subst.parent) == node then temp else old(node.right))
                    else if node != old(root) && c == old(node.parent) && old(c.left) != node then subst
                    else old(c.right))
      ensures forall c {:trigger c.parent} :: c in S && c != node ==>
        (c.parent == if c == subst then old(node.parent)
                     else if c == temp then (if old(subst.parent) == node then subst else old(subst.parent))
                     else if c == old(node.left) || c == old(node.right) then subst
                     else old(c.parent))
      ensures subst.red == old(node.red)
      ensures sentinel.parent ==
        if temp != sentinel then old(sentinel.parent)
        else if old(subst.parent) == node then subst else old(subst.parent)
    {
      LiftOut(node, subst, temp, S);
      TakeOver(node, subst, S);
    }

    /** The same, cell by cell. */
    method RelinkCells(node: Node, subst: Node, temp: Node, ghost S: set<Node>, ghost m: map<Node, Cell>)
      requires Successive(node, subst, temp, S) && node in m && subst in m && S <= m.Keys
      requires forall c {:trigger m[c]} :: c in S ==> m[c] == Cell(c.left, c.right, c.parent, c.red)
      modifies this`root, S`left, S`right, S`parent, subst`red, sentinel`parent
      ensures root == if old(root) == node then subst else old(root)
      ensures forall c {:trigger SuccessorCell(m, old(root), node, subst, temp, c)} :: c in S && c != node ==>
                Cell(c.left, c.right, c.parent, c.red) == SuccessorCell(m, old(root), node, subst, temp, c)
      ensures sentinel.parent ==
        if temp != sentinel then old(sentinel.parent)
        else if old(subst.parent) == node then subst else old(subst.parent)
    {
      ghost var r := root;
      assert node in S && subst in S && m[node].parent == node.parent && m[subst].parent == subst.parent;
      hide Successive;
      RelinkSuccessor(node, subst, temp, S);
      forall c | c in S && c != node
        ensures Cell(c.left, c.right, c.parent, c.red) == SuccessorCell(m, r, node, subst, temp, c)
      {
        assert m[c] == old(Cell(c.left, c.right, c.parent, c.red));
      }
    }

    /** After the relinking, the fields are those of the picture with the sentinel's parent as it happens to be. */
    lemma SeesSuccessor(v: View, node: Node, subst: Node, temp: Node, S: set<Node>)
      requires HasSuccessor(v, node, subst, temp) && v.z == sentinel && S == v.span.Keys && node in v.mem && subst in v.mem && S <= v.mem.Keys
      requires forall c {:trigger SuccessorCell(v.mem, v.root, node, subst, temp, c)} :: c in S && c != node ==>
                 Cell(c.left, c.right, c.parent, c.red) == SuccessorCell(v.mem, v.root, node, subst, temp, c)
      requires sentinel in v.mem && sentinel.left == v.mem[sentinel].left && sentinel.right == v.mem[sentinel].right
      requires sentinel.red == v.mem[sentinel].red && root == if v.root == node then subst else v.root
      ensures Succeeded(v, node, subst, temp).z == sentinel && sentinel in Succeeded(v, node, subst, temp).mem
      ensures var x := Scratched(Succeeded(v, node, subst, temp), sentinel.parent);
              && x.z == sentinel && x.root == root && x.mem.Keys == x.span.Keys + {sentinel}
              && forall n {:trigger x.mem[n]} :: n in x.mem ==> x.mem[n] == Cell(n.left, n.right, n.parent, n.red)
    {
      hide HasSuccessor, Succeeded, SuccessorCell;
      SucceededCells(v, node, subst, temp);
    }

    /** node has two kids: its successor subst takes its place. */
    method DetachSuccessor(node: Node, subst: Node, temp: Node)
      requires HasSuccessor(Now(), node, subst, temp)
      modifies this`root, this`order, this`span
      modifies span.Keys`left, span.Keys`right, span.Keys`parent, span.Keys`red, sentinel`parent
      ensures sentinel in Succeeded(old(Now()), node, subst, temp).mem
      ensures Now() == Scratched(Succeeded(old(Now()), node, subst, temp), sentinel.parent)
      ensures temp == sentinel ==> sentinel.parent == if old(subst.parent) == node then subst else old(subst.parent)
    {
      hide HasSuccessor, Succeeded, Successive, Now, SuccessorCell, Scratched;
      ghost var v, S := Now(), span.Keys;
      ghost var w := Succeeded(v, node, subst, temp);
      SuccessorFrame(v, node, subst, temp);
      SuccessorsAre(node, subst, temp);
      SeesAll();
      RelinkCells(node, subst, temp, S, v.mem);
      SeesSuccessor(v, node, subst, temp, S);
      Become(Scratched(w, sentinel.parent));
    }

    /** node is the root and has an empty side: temp becomes the root. */
    method DetachRoot(node: Node, temp: Node)
      requires CanSplice(Now(), node, temp) && node == root
      modifies this`root, this`order, this`span
      ensures Now() == Spliced(old(Now()), node, temp)
    {
      hide CanSplice, Shape, Now;
      ghost var v := Now();
      ghost var w := Spliced(v, node, temp);
      SpliceFacts(v, node, temp);
      SplicedFrame(v, node, temp);
      SeesAll();
      root := temp;
      Become(w);
    }

    /** The fields of a deleted node are reset. */
    method Clear(node: Node)
      modifies node`left, node`right, node`parent, node`key
      ensures node.left == null && node.right == null && node.parent == null && node.key == 0
    {
      node.left := null;
      node.right := null;
      node.parent := null;
      node.key := 0;
    }

    method DeleteRoot(node: Node, temp: Node) returns (ghost h: Heights)
      requires RedBlack(Now(), bh) && CanSplice(Now(), node, temp) && node == root
      modifies this`root, this`order, this`span, span.Keys`left, span.Keys`right, span.Keys`parent, span.Keys`red
      modifies node`key, sentinel`red
      ensures RedBlack(Now(), h) && Taken(old(Now()), node, Now())
      ensures node.left == null && node.right == null && node.parent == null && node.key == 0
    {
      hide Linked, KidOk, UpOk, Placed, AllEven, AllCool, Counted, Spliced, RedBlack, CanSplice, Shape, Frame, Painted;
      ghost var v := Now();
      SpliceTakes(v, node, temp);
      SpliceRoot(v, bh, node, temp);
      h := (bh - {node})[temp := if v.mem[temp].red then bh[temp] + 1 else bh[temp]];
      DetachRoot(node, temp);
      Paint(temp, false);
      Clear(node);
    }

    /** A node with an empty side, not the root. */
    method DeleteSingle(node: Node, temp: Node) returns (ghost h: Heights)
      requires RedBlack(Now(), bh) && CanSplice(Now(), node, temp) && node != root
      modifies this`root, this`order, this`span, span.Keys`left, span.Keys`right, span.Keys`parent, span.Keys`red
      modifies node`key, sentinel`parent, sentinel`red
      ensures RedBlack(Now(), h) && Taken(old(Now()), node, Now())
      ensures node.left == null && node.right == null && node.parent == null && node.key == 0
    {
      hide Linked, KidOk, UpOk, Placed, AllEven, AllCool, Counted, Deleting, Spliced;
      ghost var v := Now();
      SpliceTakes(v, node, temp);
      SpliceStep(v, bh, node, temp);
      h := bh - {node};
      var red := node.red;
      DetachSingle(node, temp);
      Clear(node);
      if !red {
        h := Repair(temp, h);
      }
    }

    /** A node with two kids. */
    method DeleteInner(node: Node, subst: Node, temp: Node) returns (ghost h: Heights)
      requires RedBlack(Now(), bh) && HasSuccessor(Now(), node, subst, temp)
      modifies this`root, this`order, this`span, span.Keys`left, span.Keys`right, span.Keys`parent, span.Keys`red
      modifies node`key, sentinel`parent, sentinel`red
      ensures RedBlack(Now(), h) && Taken(old(Now()), node, Now())
      ensures node.left == null && node.right == null && node.parent == null && node.key == 0
    {
      hide Linked, KidOk, UpOk, Placed, AllEven, AllCool, Counted, Deleting, HasSuccessor, Succeeded;
      ghost var v := Now();
      SuccessorTakes(v, node, subst, temp);
      var red := subst.red;
      ghost var h0 := bh;
      DetachSuccessor(node, subst, temp);
      SuccessorStep(v, h0, node, subst, temp, sentinel.parent);
      h := RenamedHeights(h0 - {subst}, node, subst);
      Clear(node);
      if !red {
        h := Repair(temp, h);
      }
    }

    lemma WithoutKeepsAscending(s: seq<Node>, k: int)
      requires 0 <= k < |s| && Ascending(timer, s)
      ensures Ascending(timer, Without(s, k))
    {
    }

    /** A node with two kids: its successor is found and takes its place. */
    method DeleteBetween(node: Node) returns (ghost h: Heights)
      requires RedBlack(Now(), bh) && node in span && node.left != null && node.right != null
      requires node.left != sentinel && node.right != sentinel && node.right in span
      modifies this`root, this`order, this`span, span.Keys`left, span.Keys`right, span.Keys`parent, span.Keys`red
      modifies node`key, sentinel`parent, sentinel`red
      ensures RedBlack(Now(), h) && Taken(old(Now()), node, Now())
      ensures node.left == null && node.right == null && node.parent == null && node.key == 0
    {
      hide Linked, KidOk, UpOk, Placed, AllEven, AllCool, Counted, HasSuccessor, Taken;
      var subst := Min(node.right);
      LeftmostIsSuccessor(Now(), node, subst);
      // the minimum has no left kid, so the other branch of the choice of temp is never taken
      var temp := subst.right;
      h := DeleteInner(node, subst, temp);
    }

    /** A node with an empty side. */
    method DeleteEdge(node: Node, temp: Node) returns (ghost h: Heights)
      requires RedBlack(Now(), bh) && CanSplice(Now(), node, temp)
      modifies this`root, this`order, this`span, span.Keys`left, span.Keys`right, span.Keys`parent, span.Keys`red
      modifies node`key, sentinel`parent, sentinel`red
      ensures RedBlack(Now(), h) && Taken(old(Now()), node, Now())
      ensures node.left == null && node.right == null && node.parent == null && node.key == 0
    {
      hide Linked, KidOk, UpOk, Placed, AllEven, AllCool, Counted, Taken;
      assert node in span;
      if node == root {
        h := DeleteRoot(node, temp);
      } else {
        h := DeleteSingle(node, temp);
      }
    }

    method DeleteNode(node: Node) returns (ghost h: Heights)
      requires RedBlack(Now(), bh) && node in span
      modifies this`root, this`order, this`span, span.Keys`left, span.Keys`right, span.Keys`parent, span.Keys`red
      modifies node`key, sentinel`parent, sentinel`red
      ensures RedBlack(Now(), h) && Taken(old(Now()), node, Now())
      ensures node.left == null && node.right == null && node.parent == null && node.key == 0
    {
      hide Linked, KidOk, UpOk, Placed, AllEven, AllCool, Counted, Taken;
      DeleteFacts(Now(), node);
      if node.left == sentinel {
        h := DeleteEdge(node, node.right);
      } else if node.right == sentinel {
        h := DeleteEdge(node, node.left);
      } else {
        h := DeleteBetween(node);
      }
    }

    /** Exactly the given node leaves, whatever the keys are; the others keep their order and the node's
        fields are reset. */
    method Delete(node: Node)
      requires Valid() && node in span
      modifies this, span.Keys`left, span.Keys`right, span.Keys`parent, span.Keys`red
      modifies node`key, sentinel`parent, sentinel`red
      ensures Valid() && span.Keys == old(span.Keys) - {node}
      ensures old(0 <= span[node].pos < |order| && order[span[node].pos] == node)
      ensures order == Without(old(order), old(span[node].pos)) && node !in order
      ensures node.left == null && node.right == null && node.parent == null && node.key == 0
      ensures old(Sorted()) ==> Sorted()
    {
      hide RedBlack, Ascending;
      Deletable(node);
      ghost var rest, sorted := Without(order, span[node].pos), Sorted();
      if sorted { WithoutKeepsAscending(order, span[node].pos); }
      bh := DeleteNode(node);
      assert order == rest;
    }

    lemma Deletable(node: Node)
      requires Valid() && node in span
      ensures 0 <= span[node].pos < |order| && order[span[node].pos] == node && node !in Without(order, span[node].pos)
    {
      DeleteFacts(Now(), node);
    }
  }
}
