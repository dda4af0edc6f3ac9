/** The red-black tree operations of lib/rbtree.c, on a heap of nodes. */
module RbTree {
  import opened RbShape
  import opened RbMemory

  function SetChild(mem: Mem, x: Addr, d: Side, v: Addr): Mem
    requires x in mem
  {
    mem[x := WithChild(mem[x], d, v)]
  }

  function SetParent(mem: Mem, x: Addr, p: Addr): Mem
    requires x in mem
  {
    mem[x := mem[x].(parent := p)]
  }

  function SetColor(mem: Mem, x: Addr, c: Color): Mem
    requires x in mem
  {
    mem[x := mem[x].(color := c)]
  }

  class Tree {
    var mem: Mem
    var root: Addr

    /** An empty tree over the given nodes. */
    constructor (nodes: Mem)
      ensures mem == nodes && root == NULL
    {
      mem, root := nodes, NULL;
    }

    /** Rotation towards side `d`: `__rb_rotate_left` for Left, `__rb_rotate_right` for Right.
        The contract is the exact change to the heap. */
    method Relink(node: Addr, d: Side)
      requires node in mem && node != NULL
      requires var y, par := Child(mem[node], Opp(d)), mem[node].parent;
               && y in mem && y != node && y != NULL
               && var b := Child(mem[y], d);
               && (b != NULL ==> b in mem && b !in {node, y, par})
               && (par != NULL ==> par in mem && par !in {node, y})
               && (par != NULL ==> Child(mem[par], Left) == node || Child(mem[par], Right) == node)
      modifies this
      ensures mem.Keys == old(mem.Keys)
      ensures var y, par := Child(old(mem)[node], Opp(d)), old(mem)[node].parent;
              var b := Child(old(mem)[y], d);
              && mem[node] == WithChild(old(mem)[node], Opp(d), b).(parent := y)
              && mem[y] == WithChild(old(mem)[y], d, node).(parent := par)
              && (b != NULL ==> mem[b] == old(mem)[b].(parent := node))
              && (par != NULL ==> mem[par] == WithChild(old(mem)[par], if Child(old(mem)[par], d) == node then d
                                                        else Opp(d), y))
              && Same(old(mem), mem, old(mem).Keys - {node, y, b, par})
              && root == if par == NULL then y else old(root)
    {
      var right := Child(mem[node], Opp(d));
      var parent := mem[node].parent;
      var inner := Child(mem[right], d);
      mem := SetChild(mem, node, Opp(d), inner);
      if inner != NULL {
        mem := SetParent(mem, inner, node);
      }
      mem := SetChild(mem, right, d, node);
      mem := SetParent(mem, right, parent);
      if parent != NULL {
        if node == Child(mem[parent], d) {
          mem := SetChild(mem, parent, d, right);
        } else {
          mem := SetChild(mem, parent, Opp(d), right);
        }
      } else {
        root := right;
      }
      mem := SetParent(mem, node, right);
    }

    /** The same rotation, as a change of the tree the heap stands for. */
    method Rotate(node: Addr, d: Side, ghost par: Addr, ghost path: Path, ghost a: RbShape.Tree, ghost cx: Color,
                  ghost b: RbShape.Tree, ghost y: Addr, ghost cy: Color, ghost e: RbShape.Tree)
      requires At(mem, root, node, par, path, Mk(d, a, node, cx, Mk(d, b, y, cy, e)))
      modifies this
      ensures mem.Keys == old(mem.Keys)
      ensures At(mem, root, y, par, path, Mk(d, Mk(d, a, node, cx, b), y, cy, e))
    {
      RotateSetup(mem, root, node, par, path, d, a, cx, b, y, cy, e);
      Relink(node, d);
      RotateFrame(old(mem), mem, old(root), root, node, par, path, d, a, cx, b, y, cy, e);
    }

    /** `rb_set_black`, `rb_set_red` and `rb_set_color`. */
    method Paint(node: Addr, c: Color, ghost par: Addr, ghost path: Path, ghost t: RbShape.Tree)
      requires At(mem, root, node, par, path, t) && t.T?
      modifies this`mem
      ensures mem.Keys == old(mem.Keys)
      ensures At(mem, root, node, par, path, t.(c := c))
    {
      PaintAt(mem, root, node, par, path, t, c);
      mem := SetColor(mem, node, c);
    }

    /** Paint `kid`, the child of `node` on side `d`. */
    method PaintChild(kid: Addr, ghost node: Addr, ghost d: Side, col: Color, ghost par: Addr, ghost path: Path,
                      ghost a: RbShape.Tree, ghost c: Color, ghost b: RbShape.Tree)
      requires At(mem, root, node, par, path, Mk(d, a, node, c, b)) && a.T? && a.x == kid
      modifies this`mem
      ensures mem.Keys == old(mem.Keys)
      ensures At(mem, root, node, par, path, Mk(d, a.(c := col), node, c, b))
    {
      Down(mem, root, node, par, path, d, a, node, c, b);
      Paint(kid, col, node, Step(d, node, c, b, path), a);
      Up(mem, root, a.x, node, Step(d, node, c, b, path), a.(c := col));
    }

    /** Red uncle: parent and uncle turn black, the grandparent red. */
    method PassUncle(node: Addr, parent: Addr, gparent: Addr, uncle: Addr, ghost p: Path, ghost t: RbShape.Tree)
      requires p.Step? && p.up.Step? && p.up.sib.T?
      requires parent == p.x && gparent == p.up.x && uncle == p.up.sib.x
      requires At(mem, root, node, parent, p, t)
      modifies this`mem
      ensures mem.Keys == old(mem.Keys) && gparent in mem
      ensures var g := p.up;
              At(mem, root, gparent, mem[gparent].parent, g.up,
                 Mk(g.d, Mk(p.d, t, p.x, Black, p.sib), g.x, Red, g.sib.(c := Black)))
    {
      ghost var g := p.up;
      ghost var family := Mk(p.d, t, p.x, p.c, p.sib);
      Up(mem, root, node, parent, p, t);
      Up(mem, root, parent, gparent, g, family);
      ghost var ggp := mem[gparent].parent;
      PaintChild(uncle, gparent, Opp(g.d), Black, ggp, g.up, g.sib, g.c, family);
      PaintChild(parent, gparent, g.d, Black, ggp, g.up, family, g.c, g.sib.(c := Black));
      Paint(gparent, Red, ggp, g.up, Mk(g.d, family.(c := Black), g.x, g.c, g.sib.(c := Black)));
    }

    /** Inner grandchild: rotate the parent out of the way. */
    method TurnInner(node: Addr, parent: Addr, e: Side, ghost p: Path, ghost tl: RbShape.Tree, ghost tr: RbShape.Tree)
      requires p.Step? && p.d == Opp(e) && p.c.Red? && parent == p.x
      requires At(mem, root, node, parent, p, Mk(e, tl, node, Red, tr))
      modifies this
      ensures mem.Keys == old(mem.Keys)
      ensures At(mem, root, parent, node, Step(e, node, Red, tr, p.up), Mk(e, p.sib, parent, Red, tl))
    {
      Up(mem, root, node, parent, p, Mk(e, tl, node, Red, tr));
      ghost var par := mem[parent].parent;
      Rotate(parent, e, par, p.up, p.sib, Red, tl, node, Red, tr);
      Down(mem, root, node, par, p.up, e, Mk(e, p.sib, parent, Red, tl), node, Red, tr);
      RepNodes(mem, Child(mem[node], e), node, Mk(e, p.sib, parent, Red, tl));
    }

    /** Outer grandchild: recolour and rotate the grandparent. */
    method TurnOuter(node: Addr, parent: Addr, gparent: Addr, e: Side, ghost p: Path, ghost t: RbShape.Tree)
      requires p.Step? && p.up.Step? && p.d == e && p.up.d == e
      requires parent == p.x && gparent == p.up.x && t.T? && t.x == node
      requires At(mem, root, node, parent, p, t)
      modifies this
      ensures mem.Keys == old(mem.Keys)
      ensures At(mem, root, node, parent, Step(e, parent, Black, Mk(e, p.sib, gparent, Red, p.up.sib), p.up.up), t)
    {
      ghost var g := p.up;
      ghost var family := Mk(e, t, p.x, p.c, p.sib);
      Up(mem, root, node, parent, p, t);
      Up(mem, root, parent, gparent, g, family);
      ghost var ggp := mem[gparent].parent;
      PaintChild(parent, gparent, e, Black, ggp, g.up, family, g.c, g.sib);
      Paint(gparent, Red, ggp, g.up, Mk(e, family.(c := Black), gparent, g.c, g.sib));
      Rotate(gparent, Opp(e), ggp, g.up, g.sib, Red, p.sib, parent, Black, t);
      Down(mem, root, parent, ggp, g.up, e, t, parent, Black, Mk(e, p.sib, gparent, Red, g.sib));
    }

    /** One round of the climb in `rb_insert_color`. */
    method InsertStep(node0: Addr, ghost p: Path, ghost t: RbShape.Tree)
      returns (node: Addr, ghost p': Path, ghost t': RbShape.Tree)
      requires node0 in mem && At(mem, root, node0, mem[node0].parent, p, t) && Rising(p, t)
      requires p.Step? && p.c.Red?
      modifies this
      ensures mem.Keys == old(mem.Keys) && node in mem
      ensures At(mem, root, node, mem[node].parent, p', t') && Rising(p', t')
      ensures Inorder(Plug(p', t')) == Inorder(Plug(p, t)) && Len(p') < Len(p)
    {
      node, p', t' := node0, p, t;
      var parent := mem[node].parent;
      var gparent := mem[parent].parent;
      GrandView(mem, root, node, p, t);
      var e := if parent == mem[gparent].left then Left else Right;
      var uncle := Child(mem[gparent], Opp(e));
      if uncle != NULL && mem[uncle].color.Red? {
        RisePastUncle(p, t);
        PassUncle(node, parent, gparent, uncle, p, t);
        node, p', t' := gparent, p.up.up,
          Mk(p.up.d, Mk(p.d, t, p.x, Black, p.sib), p.up.x, Red, p.up.sib.(c := Black));
        return;
      }
      if Child(mem[parent], Opp(e)) == node {
        RiseInner(p, e, Kid(t, e), node, Kid(t, Opp(e)));
        TurnInner(node, parent, e, p, Kid(t, e), Kid(t, Opp(e)));
        p', t' := Step(e, node, Red, Kid(t, Opp(e)), p.up), Mk(e, p.sib, parent, Red, Kid(t, e));
        node, parent := parent, node;
      }
      RiseOuter(p', t');
      TurnOuter(node, parent, gparent, e, p', t');
      p' := Step(e, parent, Black, Mk(e, p'.sib, gparent, Red, p'.up.sib), p'.up.up);
    }

    /** `rb_insert_color`: `node` is red and linked in; the tree becomes red-black
        again with the same in-order sequence. */
    method InsertColor(node0: Addr, ghost path0: Path, ghost t0: RbShape.Tree) returns (ghost t': RbShape.Tree)
      requires node0 in mem && At(mem, root, node0, mem[node0].parent, path0, t0) && Rising(path0, t0)
      modifies this
      ensures mem.Keys == old(mem.Keys)
      ensures Rep(mem, root, NULL, t') && Distinct(t') && RedBlack(t')
      ensures Inorder(t') == Inorder(Plug(path0, t0))
    {
      var node := node0;
      ghost var path, t := path0, t0;
      ParentView(mem, root, node, path, t);
      while mem[node].parent != NULL && mem[mem[node].parent].color.Red?
        invariant mem.Keys == old(mem.Keys) && node in mem
        invariant At(mem, root, node, mem[node].parent, path, t) && Rising(path, t)
        invariant mem[node].parent != NULL ==> mem[node].parent in mem
        invariant Inorder(Plug(path, t)) == Inorder(Plug(path0, t0))
        decreases Len(path)
      {
        ParentView(mem, root, node, path, t);
        node, path, t := InsertStep(node, path, t);
        ParentView(mem, root, node, path, t);
      }
      ParentView(mem, root, node, path, t);
      Risen(path, t);
      t' := BlackenRoot(path, t);
    }

    /** The closing `rb_set_black(root->rb_node)`. */
    method BlackenRoot(ghost p: Path, ghost t: RbShape.Tree) returns (ghost t': RbShape.Tree)
      requires t.T? && t.x in mem && At(mem, root, t.x, mem[t.x].parent, p, t)
      requires PNoRedRed(p)
      modifies this`mem
      ensures mem.Keys == old(mem.Keys)
      ensures t' == Plug(p, if p.Top? then t.(c := Black) else t)
      ensures Rep(mem, root, NULL, t') && Distinct(t')
    {
      if p.Top? {
        PaintAt(mem, root, root, NULL, p, t, Black);
        t' := t.(c := Black);
      } else {
        PlugRep(mem, root, NULL, t.x, mem[t.x].parent, p, t);
        RootIsBlack(mem, root, NULL, t.x, mem[t.x].parent, p);
        assert SetColor(mem, root, Black) == mem;
        PlugDistinct(p, t);
        t' := Plug(p, t);
      }
      mem := SetColor(mem, root, Black);
    }

    /** Red sibling: `parent` is rotated below it. */
    method RotateRedSibling(parent: Addr, other: Addr, d: Side, ghost node: Addr, ghost p: Path, ghost t: RbShape.Tree)
      requires p.Step? && p.d == d && p.sib.T? && p.sib.x == other && p.x == parent
      requires At(mem, root, node, parent, p, t)
      modifies this
      ensures mem.Keys == old(mem.Keys)
      ensures var s := p.sib;
              At(mem, root, node, parent,
                 Step(d, parent, Red, Kid(s, d), Step(d, other, Black, Kid(s, Opp(d)), p.up)), t)
    {
      ghost var s := p.sib;
      Up(mem, root, node, parent, p, t);
      ghost var gp := mem[parent].parent;
      PaintChild(other, parent, Opp(d), Black, gp, p.up, s, p.c, t);
      Paint(parent, Red, gp, p.up, Mk(d, t, parent, p.c, s.(c := Black)));
      KidColors(s.(c := Black), d);
      Rotate(parent, d, gp, p.up, t, Red, Kid(s, d), other, Black, Kid(s, Opp(d)));
      ghost var low := Mk(d, t, parent, Red, Kid(s, d));
      Down(mem, root, other, gp, p.up, d, low, other, Black, Kid(s, Opp(d)));
      Down(mem, root, parent, other, Step(d, other, Black, Kid(s, Opp(d)), p.up), d, t, parent, Red, Kid(s, d));
      RepNodes(mem, node, parent, t);
    }

    /** Black sibling with a red near child: the sibling is rotated below that child. */
    method RotateNear(parent: Addr, other: Addr, near: Addr, d: Side, ghost node: Addr, ghost p: Path,
                      ghost t: RbShape.Tree)
      requires p.Step? && p.d == d && p.sib.T? && p.sib.x == other && p.x == parent
      requires Kid(p.sib, d).T? && Kid(p.sib, d).x == near
      requires At(mem, root, node, parent, p, t)
      modifies this
      ensures mem.Keys == old(mem.Keys)
      ensures var s, n := p.sib, Kid(p.sib, d);
              At(mem, root, node, parent,
                 p.(sib := Mk(d, Kid(n, d), near, Black, Mk(d, Kid(n, Opp(d)), other, Red, Kid(s, Opp(d))))), t)
    {
      ghost var s, n, e := p.sib, Kid(p.sib, d), Opp(d);
      Up(mem, root, node, parent, p, t);
      ghost var gp := mem[parent].parent;
      Down(mem, root, parent, gp, p.up, e, s, parent, p.c, t);
      ghost var q := Step(e, parent, p.c, t, p.up);
      KidColors(s, d);
      PaintChild(near, other, d, Black, parent, q, n, s.c, Kid(s, e));
      Paint(other, Red, parent, q, Mk(d, n.(c := Black), other, s.c, Kid(s, e)));
      KidColors(n.(c := Black), d);
      Rotate(other, Opp(d), parent, q, Kid(s, e), Red, Kid(n, e), near, Black, Kid(n, d));
      ghost var s' := Mk(e, Mk(e, Kid(s, e), other, Red, Kid(n, e)), near, Black, Kid(n, d));
      Up(mem, root, near, parent, q, s');
      Down(mem, root, parent, mem[parent].parent, p.up, d, t, parent, p.c, s');
      RepNodes(mem, node, parent, t);
    }

    /** Black sibling with a red far child: `parent` is rotated below the sibling. */
    method RotateFar(parent: Addr, other: Addr, far: Addr, d: Side, ghost node: Addr, ghost p: Path,
                     ghost t: RbShape.Tree)
      returns (ghost gp: Addr)
      requires p.Step? && p.d == d && p.sib.T? && p.sib.x == other && p.x == parent
      requires Kid(p.sib, Opp(d)).T? && Kid(p.sib, Opp(d)).x == far
      requires At(mem, root, node, parent, p, t)
      modifies this
      ensures mem.Keys == old(mem.Keys)
      ensures var s := p.sib;
              At(mem, root, other, gp, p.up,
                 Mk(d, Mk(d, t, parent, Black, Kid(s, d)), other, p.c, Kid(s, Opp(d)).(c := Black)))
    {
      ghost var s, f, e := p.sib, Kid(p.sib, Opp(d)), Opp(d);
      Up(mem, root, node, parent, p, t);
      gp := mem[parent].parent;
      PaintChild(other, parent, e, mem[parent].color, gp, p.up, s, p.c, t);
      ghost var s1 := s.(c := p.c);
      Paint(parent, Black, gp, p.up, Mk(d, t, parent, p.c, s1));
      Down(mem, root, parent, gp, p.up, e, s1, parent, Black, t);
      KidColors(s1, e);
      PaintChild(far, other, e, Black, parent, Step(e, parent, Black, t, p.up), f, p.c, Kid(s, d));
      ghost var s2 := Mk(e, f.(c := Black), other, p.c, Kid(s, d));
      Up(mem, root, other, parent, Step(e, parent, Black, t, p.up), s2);
      Rotate(parent, d, mem[parent].parent, p.up, t, Black, Kid(s, d), other, p.c, f.(c := Black));
    }

    /** One round of the repair loop in `__rb_erase_color`; `done` is its `break`. */
    method EraseStep(node0: Addr, parent0: Addr, ghost p: Path, ghost t: RbShape.Tree)
      returns (done: bool, node: Addr, parent: Addr, ghost p': Path, ghost t': RbShape.Tree)
      requires At(mem, root, node0, parent0, p, t) && Sinking(p, t) && p.Step? && !IsRed(t)
      modifies this
      ensures mem.Keys == old(mem.Keys)
      ensures Inorder(Plug(p', t')) == Inorder(Plug(p, t))
      ensures !done ==> At(mem, root, node, parent, p', t') && Sinking(p', t')
      ensures !done ==> IsRed(t') || Len(p') < Len(p)
      ensures done ==>
                Rep(mem, root, NULL, Plug(p', t')) && Distinct(Plug(p', t')) && RedBlack(Plug(p', t')) && node == root
    {
      done, node, parent, p', t' := false, node0, parent0, p, t;
      SiblingView(mem, root, node, parent, p, t);
      var d := if mem[parent].left == node then Left else Right;
      var other := Child(mem[parent], Opp(d));
      if mem[other].color.Red? {
        SinkRedSibling(p, t);
        RotateRedSibling(parent, other, d, node, p, t);
        p' := Step(d, parent, Red, Kid(p.sib, d), Step(d, other, Black, Kid(p.sib, Opp(d)), p.up));
        SiblingView(mem, root, node, parent, p', t);
        other := Child(mem[parent], Opp(d));
      }
      var near, far := Child(mem[other], d), Child(mem[other], Opp(d));
      if (near == NULL || mem[near].color.Black?) && (far == NULL || mem[far].color.Black?) {
        SinkRecolor(p', t);
        PaintSibling(other, node, parent, p', t);
        t', p' := Mk(d, t, parent, p'.c, p'.sib.(c := Red)), p'.up;
        node := parent;
        parent := mem[node].parent;
      } else {
        p', t' := EraseLast(node, parent, other, d, p', t);
        done, node := true, root;
      }
    }

    /** The last round: a red nephew pays the debt, in one rotation or two. */
    method EraseLast(ghost node: Addr, parent: Addr, other0: Addr, d: Side, ghost p: Path, ghost t: RbShape.Tree)
      returns (ghost p': Path, ghost t': RbShape.Tree)
      requires At(mem, root, node, parent, p, t) && Sinking(p, t) && p.Step? && !IsRed(t) && p.d == d
      requires p.sib.T? && p.sib.x == other0 && !IsRed(p.sib) && (IsRed(p.sib.left) || IsRed(p.sib.right))
      modifies this
      ensures mem.Keys == old(mem.Keys) && Inorder(Plug(p', t')) == Inorder(Plug(p, t))
      ensures Rep(mem, root, NULL, Plug(p', t')) && Distinct(Plug(p', t')) && RedBlack(Plug(p', t'))
    {
      p' := p;
      var other := other0;
      SiblingView(mem, root, node, parent, p, t);
      var near, far := Child(mem[other], d), Child(mem[other], Opp(d));
      if far == NULL || mem[far].color.Black? {
        SinkNear(p, t);
        RotateNear(parent, other, near, d, node, p, t);
        p' := p.(sib := Mk(d, Kid(Kid(p.sib, d), d), near, Black,
                           Mk(d, Kid(Kid(p.sib, d), Opp(d)), other, Red, Kid(p.sib, Opp(d)))));
        SiblingView(mem, root, node, parent, p', t);
        other := Child(mem[parent], Opp(d));
      }
      SinkFar(p', t);
      ghost var gp := RotateFar(parent, other, Child(mem[other], Opp(d)), d, node, p', t);
      t' := Mk(d, Mk(d, t, parent, Black, Kid(p'.sib, d)), other, p'.c, Kid(p'.sib, Opp(d)).(c := Black));
      p' := p'.up;
      WholeView(mem, root, other, gp, p', t');
    }

    /** Paint the sibling red and look at the parent. */
    method PaintSibling(other: Addr, ghost node: Addr, ghost parent: Addr, ghost p: Path, ghost t: RbShape.Tree)
      requires At(mem, root, node, parent, p, t) && p.Step? && p.sib.T? && p.sib.x == other
      modifies this`mem
      ensures mem.Keys == old(mem.Keys)
      ensures parent in mem
              && At(mem, root, parent, mem[parent].parent, p.up, Mk(p.d, t, parent, p.c, p.sib.(c := Red)))
    {
      Up(mem, root, node, parent, p, t);
      PaintChild(other, parent, Opp(p.d), Red, mem[parent].parent, p.up, p.sib, p.c, t);
    }

    /** `__rb_erase_color`: a black node was taken out above `node`. */
    method EraseColor(node0: Addr, parent0: Addr, ghost p0: Path, ghost t0: RbShape.Tree)
      returns (ghost t': RbShape.Tree)
      requires At(mem, root, node0, parent0, p0, t0) && Sinking(p0, t0)
      modifies this
      ensures mem.Keys == old(mem.Keys)
      ensures Rep(mem, root, NULL, t') && Distinct(t') && RedBlack(t')
      ensures Inorder(t') == Inorder(Plug(p0, t0))
    {
      var node, parent, done := node0, parent0, false;
      ghost var p, t := p0, t0;
      NodeView(mem, root, node, parent, p, t);
      while (node == NULL || mem[node].color.Black?) && node != root
        invariant mem.Keys == old(mem.Keys)
        invariant At(mem, root, node, parent, p, t) && Sinking(p, t)
        invariant node != NULL ==> node in mem
        invariant Inorder(Plug(p, t)) == Inorder(Plug(p0, t0))
        decreases if IsRed(t) then 0 else 1 + Len(p)
      {
        NodeView(mem, root, node, parent, p, t);
        done, node, parent, p, t := EraseStep(node, parent, p, t);
        if done {
          break;
        }
        NodeView(mem, root, node, parent, p, t);
      }
      if !done {
        NodeView(mem, root, node, parent, p, t);
      }
      t' := EraseEnd(done, node, parent, p, t);
    }

    /** The closing `if (node) rb_set_black(node)`. */
    method EraseEnd(ghost done: bool, node: Addr, ghost parent: Addr, ghost p: Path, ghost t: RbShape.Tree)
      returns (ghost t': RbShape.Tree)
      requires !done ==> At(mem, root, node, parent, p, t) && Sinking(p, t) && (IsRed(t) || p.Top?)
      requires done ==> Rep(mem, root, NULL, Plug(p, t)) && Distinct(Plug(p, t)) && RedBlack(Plug(p, t)) && node == root
      modifies this`mem
      ensures mem.Keys == old(mem.Keys)
      ensures Rep(mem, root, NULL, t') && Distinct(t') && RedBlack(t') && Inorder(t') == Inorder(Plug(p, t))
    {
      if done {
        t' := Plug(p, t);
        RepNodes(mem, root, NULL, t');
        assert node != NULL ==> SetColor(mem, node, Black) == mem;
      } else {
        NodeView(mem, root, node, parent, p, t);
        Sunk(p, t);
        t' := Plug(p, if t.T? then t.(c := Black) else t);
        if t.T? {
          PaintAt(mem, root, node, parent, p, t, Black);
          WholeView(SetColor(mem, node, Black), root, node, parent, p, t.(c := Black));
        } else {
          WholeView(mem, root, node, parent, p, t);
        }
      }
      if node != NULL {
        mem := SetColor(mem, node, Black);
      }
    }

    /** Where `rb_erase` points the parent of `old_`, or the root, at `new_`. */
    method ReplaceChild(parent: Addr, old_: Addr, new_: Addr)
      requires parent != NULL ==> parent in mem
      modifies this
      ensures parent == NULL ==> mem == old(mem) && root == new_
      ensures parent != NULL ==> root == old(root)
      ensures parent != NULL ==>
                mem == old(mem)[parent := WithChild(old(mem)[parent], if old(mem)[parent].left == old_ then Left
                                                    else Right, new_)]
    {
      if parent != NULL {
        if mem[parent].left == old_ {
          mem := SetChild(mem, parent, Left, new_);
        } else {
          mem := SetChild(mem, parent, Right, new_);
        }
      } else {
        root := new_;
      }
    }

    /** `rb_erase` for a node with at most one child: `child` takes its place. */
    method Splice(node: Addr, child: Addr, ghost p: Path, ghost t: RbShape.Tree, ghost s: RbShape.Tree)
      returns (parent: Addr, color: Color)
      requires node in mem && At(mem, root, node, mem[node].parent, p, t) && Splices(t, s) && child == Ptr(s)
      modifies this
      ensures mem.Keys == old(mem.Keys) && color == t.c
      ensures At(mem, root, child, parent, p, s)
    {
      SpliceSetup(mem, root, node, p, t, s);
      parent, color := mem[node].parent, mem[node].color;
      if child != NULL {
        mem := SetParent(mem, child, parent);
      }
      ReplaceChild(parent, node, child);
      SpliceFrame(old(mem), mem, old(root), root, node, p, t, s);
    }

    /** The leftmost node below `old`'s right child, with the way down to it. */
    method Successor(old_: Addr, ghost par: Addr, ghost p: Path, ghost t: RbShape.Tree)
      returns (node: Addr, ghost q: Path, ghost s: RbShape.Tree, ghost c: Color)
      requires At(mem, root, old_, par, p, t) && t.T? && t.right.T?
      ensures node in mem && AllLeft(q) && Plug(q, T(Leaf, node, c, s)) == t.right
      ensures At(mem, root, node, mem[node].parent, Concat(q, Step(Right, old_, t.c, t.left, p)), T(Leaf, node, c, s))
    {
      ghost var up := Step(Right, old_, t.c, t.left, p);
      Down(mem, root, old_, par, p, Right, t.right, old_, t.c, t.left);
      node := mem[old_].right;
      ghost var u := t.right;
      q := Top;
      while mem[node].left != NULL
        invariant node in mem && AllLeft(q) && u.T? && u.x == node && Plug(q, u) == t.right
        invariant At(mem, root, node, mem[node].parent, Concat(q, up), u)
        decreases u
      {
        RepNodes(mem, mem[node].left, node, u.left);
        Down(mem, root, node, mem[node].parent, Concat(q, up), Left, u.left, node, u.c, u.right);
        q := Step(Left, node, u.c, u.right, q);
        node, u := mem[node].left, u.left;
      }
      RepNodes(mem, mem[node].left, node, u.left);
      s, c := u.right, u.c;
    }

    /** The successor leaves its place to `child` and takes over `old`'s right subtree. */
    method Detach(old_: Addr, node: Addr, child: Addr, parent: Addr)
      requires old_ in mem && node in mem && parent in mem && mem[old_].right in mem
      requires node !in {old_, parent, child, mem[old_].right} && parent !in {old_, child}
      requires mem[old_].right !in {old_, child}
      requires child != NULL ==> child in mem && child != old_
      modifies this`mem
      ensures mem.Keys == old(mem.Keys)
      ensures var m, r := old(mem), old(mem[old_].right);
              && (child != NULL ==> mem[child] == m[child].(parent := parent))
              && mem[parent] == Moved(m[parent], true, Left, child, parent == r, node)
              && mem[r] == Moved(m[r], parent == r, Left, child, true, node)
              && mem[node] == m[node].(right := r)
              && Same(m, mem, m.Keys - {child, parent, r, node})
    {
      if child != NULL {
        mem := SetParent(mem, child, parent);
      }
      mem := SetChild(mem, parent, Left, child);
      mem := SetChild(mem, node, Right, mem[old_].right);
      mem := SetParent(mem, mem[old_].right, node);
    }

    /** `rb_erase` for a node with two children: its successor `node` takes its
        place.  The contract is the exact change to the heap. */
    method Transplant(old_: Addr, node: Addr) returns (child: Addr, parent: Addr, color: Color)
      requires old_ in mem && node in mem && old_ != node && node != NULL && old_ != NULL
      requires var o, n := mem[old_], mem[node];
               && o.left in mem && o.left != NULL && o.right in mem && o.right != NULL && o.left != o.right
               && o.left !in {node, old_, o.parent, n.parent, n.right} && o.right !in {old_, o.parent, n.right}
               && (o.right == node <==> n.parent == old_)
               && (o.parent != NULL ==> o.parent in mem && o.parent !in {node, old_, n.parent, n.right})
               && n.parent in mem && n.parent != node && n.parent != NULL
               && (n.right != NULL ==>
                     n.right in mem && n.right !in {node, old_, n.parent} && mem[n.right].parent == node)
      modifies this
      ensures mem.Keys == old(mem.Keys)
      ensures var m := old(mem); var o, n := m[old_], m[node]; var near := n.parent == old_;
              && child == n.right && color == n.color && parent == (if near then node else n.parent)
              && root == (if o.parent == NULL then node else old(root))
              && mem[node] == Node(o.parent, o.color, o.left, if near then n.right else o.right)
              && mem[o.left] == m[o.left].(parent := node)
              && (o.parent != NULL ==>
                  mem[o.parent] == WithChild(m[o.parent], if m[o.parent].left == old_ then Left else Right, node))
              && (child != NULL ==> mem[child] == m[child].(parent := parent))
              && (!near ==> mem[n.parent] == Moved(m[n.parent], true, Left, child, n.parent == o.right, node))
              && (!near ==> mem[o.right] == Moved(m[o.right], n.parent == o.right, Left, child, true, node))
              && Same(m, mem, m.Keys - {node, o.left, o.parent, child, n.parent, o.right})
    {
      ReplaceChild(mem[old_].parent, old_, node);
      child, parent, color := mem[node].right, mem[node].parent, mem[node].color;
      if parent == old_ {
        parent := node;
      } else {
        Detach(old_, node, child, parent);
      }
      assert mem[old_] == old(mem[old_]);
      mem := mem[node := mem[node].(parent := mem[old_].parent, color := mem[old_].color)];
      mem := SetChild(mem, node, Left, mem[old_].left);
      mem := SetParent(mem, mem[old_].left, node);
    }

    /** `rb_erase`: takes exactly `node` out of the tree. */
    method Erase(node: Addr, ghost t: RbShape.Tree) returns (ghost t': RbShape.Tree)
      requires Rep(mem, root, NULL, t) && Distinct(t) && RedBlack(t) && node in Nodes(t)
      modifies this
      ensures mem.Keys == old(mem.Keys)
      ensures Rep(mem, root, NULL, t') && Distinct(t') && RedBlack(t')
      ensures Inorder(t') == Remove(Inorder(t), node)
    {
      ghost var p, u := Locate(mem, root, root, NULL, Top, t, node);
      ghost var s;
      var child, parent, color;
      RepNodes(mem, mem[node].left, node, u.left);
      RepNodes(mem, mem[node].right, node, u.right);
      if mem[node].left == NULL || mem[node].right == NULL {
        child := if mem[node].left == NULL then mem[node].right else mem[node].left;
        s := if u.left.Leaf? then u.right else u.left;
        SpliceColors(p, u, s);
        SpliceInorder(p, u, s);
        parent, color := Splice(node, child, p, u, s);
      } else {
        var next;
        ghost var q, c;
        next, q, s, c := Successor(node, mem[node].parent, p, u);
        ghost var up := Step(Right, node, u.c, u.left, p);
        ConcatPlug(q, up, T(Leaf, next, c, s));
        SuccessorColors(q, up, next, c, s);
        SuccessorInorder(q, up, next, c, s);
        TransplantSetup(mem, root, next, q, up, c, s);
        child, parent, color := Transplant(node, next);
        TransplantFrame(old(mem), mem, old(root), root, next, q, up, c, s, child, parent);
        p := Concat(q, up.(x := next));
      }
      if color == Black {
        t' := EraseColor(child, parent, p, s);
      } else {
        t' := Plug(p, s);
        WholeView(mem, root, child, parent, p, s);
      }
    }

    /** `rb_first` (Left) and `rb_last` (Right). */
    method Extreme(d: Side, ghost t: RbShape.Tree) returns (n: Addr)
      requires Rep(mem, root, NULL, t)
      ensures n == EndOf(Inorder(t), d)
    {
      n := root;
      if n == NULL {
        return;
      }
      n := Outermost(n, d, NULL, t);
    }

    /** The descent along side `d` shared by `rb_first`, `rb_next` and their mirror images. */
    method Outermost(n0: Addr, d: Side, ghost par: Addr, ghost t: RbShape.Tree) returns (n: Addr)
      requires Rep(mem, n0, par, t) && t.T?
      ensures n == EndOf(Inorder(t), d)
    {
      n := n0;
      ghost var u, q := t, par;
      while Child(mem[n], d) != NULL
        invariant Rep(mem, n, q, u) && u.T?
        invariant EndOf(Inorder(u), d) == EndOf(Inorder(t), d)
        decreases u
      {
        assert Rep(mem, Child(mem[n], d), n, Kid(u, d));
        q := n;
        n, u := Child(mem[n], d), Kid(u, d);
      }
      assert Rep(mem, Child(mem[n], d), n, Kid(u, d));
    }

    /** `rb_next` (Right) and `rb_prev` (Left). */
    method Next(node0: Addr, d: Side, ghost t: RbShape.Tree) returns (n: Addr)
      requires Rep(mem, root, NULL, t) && Distinct(t) && node0 in Inorder(t)
      ensures n == Neighbor(Inorder(t), node0, d)
    {
      InorderNodes(t);
      ghost var p, u := Locate(mem, root, root, NULL, Top, t, node0);
      NeighborOf(p, u, d);
      var node := node0;
      SelfParent(mem, root, node, p, u);
      if mem[node].parent == node {
        return NULL;
      }
      if Child(mem[node], d) != NULL {
        assert Rep(mem, Child(mem[node], d), node, Kid(u, d));
        n := Outermost(Child(mem[node], d), Opp(d), node, Kid(u, d));
        return;
      }
      assert Rep(mem, Child(mem[node], d), node, Kid(u, d));
      ghost var beyond := Beyond(p, d);
      while mem[node].parent != NULL && node == Child(mem[mem[node].parent], d)
        invariant node in mem && u.T? && At(mem, root, node, mem[node].parent, p, u)
        invariant mem[node].parent != NULL ==> mem[node].parent in mem
        invariant Beyond(p, d) == beyond
        decreases p
      {
        ParentView(mem, root, node, p, u);
        Up(mem, root, node, mem[node].parent, p, u);
        u, p := Mk(p.d, u, p.x, p.c, p.sib), p.up;
        node := mem[node].parent;
        ParentView(mem, root, node, p, u);
      }
      ParentView(mem, root, node, p, u);
      if p.Step? {
        Up(mem, root, node, mem[node].parent, p, u);
      }
      n := mem[node].parent;
    }

    /** `rb_first` and then `rb_next` until it is NULL: every node once, in order. */
    method Traverse(ghost t: RbShape.Tree) returns (visited: seq<Addr>)
      requires Rep(mem, root, NULL, t) && Distinct(t)
      ensures visited == Inorder(t)
    {
      ghost var s := Inorder(t);
      InorderNoRepeats(t);
      InorderNodes(t);
      RepNodes(mem, root, NULL, t);
      visited := [];
      var n := Extreme(Left, t);
      while n != NULL
        invariant |visited| <= |s| && n == Visit(s, |visited|) && visited == s[..|visited|]
        decreases |s| - |visited|
      {
        VisitOn(s, |visited|);
        visited := visited + [n];
        n := Next(n, Right, t);
      }
      VisitOn(s, |visited|);
    }

    /** `rb_prev` after `rb_next`, or the other way round, comes back. */
    method ThereAndBack(node: Addr, d: Side, ghost t: RbShape.Tree) returns (n: Addr, back: Addr)
      requires Rep(mem, root, NULL, t) && Distinct(t) && node in Inorder(t)
      ensures n == Neighbor(Inorder(t), node, d) && (n != NULL ==> back == node)
    {
      InorderNoRepeats(t);
      n := Next(node, d, t);
      back := NULL;
      if n != NULL {
        NeighborBack(Inorder(t), node, d);
        back := Next(n, Opp(d), t);
      }
    }

    /** `rb_link_node`: a fresh red node at an empty position. */
    method Link(node: Addr, parent: Addr, d: Side, ghost p: Path)
      requires At(mem, root, NULL, parent, p, Leaf) && (p.Step? ==> p.d == d)
      requires node != NULL && node in mem && node !in PNodes(p)
      modifies this
      ensures mem.Keys == old(mem.Keys)
      ensures At(mem, root, node, parent, p, T(Leaf, node, Red, Leaf)) && mem[node].parent == parent
    {
      RepPathNodes(mem, root, NULL, NULL, parent, p);
      mem := mem[node := Node(parent, Red, NULL, NULL)];
      if parent == NULL {
        root := node;
      } else {
        mem := SetChild(mem, parent, d, node);
      }
      FramePath(old(mem), mem, old(root), NULL, NULL, node, parent, p);
    }
  }

  /** Painting the node in view changes its colour and nothing else. */
  lemma {:induction false} PaintAt(mem: Mem, root: Addr, node: Addr, par: Addr, path: Path, t: RbShape.Tree, c: Color)
    requires At(mem, root, node, par, path, t) && t.T?
    ensures At(SetColor(mem, node, c), root, node, par, path, t.(c := c))
  {
    var mem' := SetColor(mem, node, c);
    RepNodes(mem, mem[node].left, node, t.left);
    RepNodes(mem, mem[node].right, node, t.right);
    KeepRep(mem, mem', mem[node].left, node, t.left);
    KeepRep(mem, mem', mem[node].right, node, t.right);
    KeepPath(mem, mem', root, NULL, node, par, path);
  }

  lemma {:induction false} ParentView(mem: Mem, root: Addr, node: Addr, p: Path, t: RbShape.Tree)
    requires node in mem && At(mem, root, node, mem[node].parent, p, t)
    ensures mem[node].parent != NULL <==> p.Step?
    ensures p.Step? ==> mem[node].parent == p.x && p.x in mem && mem[p.x].color == p.c
  {
  }

  /** What the climb reads off the heap when the parent is red. */
  lemma {:induction false} GrandView(mem: Mem, root: Addr, node: Addr, p: Path, t: RbShape.Tree)
    requires node in mem && At(mem, root, node, mem[node].parent, p, t)
    requires p.Step? && p.c.Red? && PNoRedRed(p) && t.T?
    ensures p.up.Step? && p.up.c.Black?
    ensures p.x in mem && p.up.x in mem && p.x != node && p.x != p.up.x
    ensures mem[node].parent == p.x && mem[p.x].parent == p.up.x && p.up.x != NULL
    ensures mem[p.up.x].left == p.x <==> p.up.d == Left
    ensures Child(mem[p.up.x], Opp(p.up.d)) == Ptr(p.up.sib)
    ensures p.up.sib.T? ==> p.up.sib.x in mem && p.up.sib.x != NULL && mem[p.up.sib.x].color == p.up.sib.c
    ensures Child(mem[p.x], p.d) == node && Child(mem[p.x], Opp(p.d)) != node
  {
    Up(mem, root, node, p.x, p, t);
    Up(mem, root, p.x, mem[p.x].parent, p.up, Mk(p.d, t, p.x, p.c, p.sib));
  }

  lemma {:induction false} WholeView(mem: Mem, root: Addr, node: Addr, par: Addr, p: Path, t: RbShape.Tree)
    requires At(mem, root, node, par, p, t)
    ensures Rep(mem, root, NULL, Plug(p, t)) && Distinct(Plug(p, t))
  {
    PlugRep(mem, root, NULL, node, par, p, t);
    PlugDistinct(p, t);
  }

  lemma {:induction false} NodeView(mem: Mem, root: Addr, node: Addr, par: Addr, p: Path, t: RbShape.Tree)
    requires At(mem, root, node, par, p, t)
    ensures node == Ptr(t)
    ensures t.T? ==> node != NULL && node in mem && mem[node].color == t.c
    ensures node == root <==> p.Top?
  {
    RepNodes(mem, node, par, t);
    RepPathNodes(mem, root, NULL, node, par, p);
  }

  /** What the repair reads off the heap around `parent` and the sibling. */
  lemma {:induction false} SiblingView(mem: Mem, root: Addr, node: Addr, parent: Addr, p: Path, t: RbShape.Tree)
    requires At(mem, root, node, parent, p, t) && Sinking(p, t) && p.Step?
    ensures parent == p.x && parent in mem && p.sib.T? && p.sib.x in mem
    ensures mem[parent].left == node <==> p.d == Left
    ensures Child(mem[parent], Opp(p.d)) == p.sib.x && mem[p.sib.x].color == p.sib.c
    ensures var near, far := Kid(p.sib, p.d), Kid(p.sib, Opp(p.d));
            && Child(mem[p.sib.x], p.d) == Ptr(near) && Child(mem[p.sib.x], Opp(p.d)) == Ptr(far)
            && (near.T? ==> near.x in mem && near.x != NULL && mem[near.x].color == near.c)
            && (far.T? ==> far.x in mem && far.x != NULL && mem[far.x].color == far.c)
  {
    Up(mem, root, node, parent, p, t);
    assert p.sib.T?;
    Down(mem, root, parent, mem[parent].parent, p.up, Opp(p.d), p.sib, parent, p.c, t);
    KidColors(p.sib, p.d);
    MkRep(mem, p.sib.x, parent, p.d, Kid(p.sib, p.d), p.sib.x, p.sib.c, Kid(p.sib, Opp(p.d)));
  }

  lemma {:induction false} SpliceSetup(mem: Mem, root: Addr, node: Addr, p: Path, t: RbShape.Tree, s: RbShape.Tree)
    requires node in mem && At(mem, root, node, mem[node].parent, p, t) && Splices(t, s)
    ensures mem[node].color == t.c && Rep(mem, Ptr(s), node, s) && Distinct(s) && Nodes(s) !! PNodes(p)
    ensures var par := mem[node].parent;
            && (p.Step? ==>
                  par == p.x && par in mem && par != NULL && par != Ptr(s) && (mem[par].left == node <==> p.d == Left))
            && (p.Top? ==> par == NULL)
    ensures s.T? ==> s.x in mem && s.x != NULL
  {
    RepNodes(mem, mem[node].left, node, t.left);
    RepNodes(mem, mem[node].right, node, t.right);
    if p.Step? {
      Up(mem, root, node, mem[node].parent, p, t);
    }
  }

  lemma {:induction false} SpliceFrame(m0: Mem, m1: Mem, root0: Addr, root1: Addr, node: Addr, p: Path,
                                       t: RbShape.Tree, s: RbShape.Tree)
    requires node in m0 && At(m0, root0, node, m0[node].parent, p, t) && Splices(t, s)
    requires var par := m0[node].parent;
             && (s.T? ==> s.x in m0 && s.x in m1 && m1[s.x] == m0[s.x].(parent := par))
             && (p.Step? ==> par in m0 && par in m1 && m1[par] == WithChild(m0[par], p.d, Ptr(s)))
             && Same(m0, m1, m0.Keys - {Ptr(s), par})
             && root1 == if p.Top? then Ptr(s) else root0
    ensures At(m1, root1, Ptr(s), m0[node].parent, p, s)
  {
    var par := m0[node].parent;
    SpliceSetup(m0, root0, node, p, t, s);
    RepNodes(m0, Ptr(s), node, s);
    RepPathNodes(m0, root0, NULL, node, par, p);
    FrameRep(m0, m1, Ptr(s), node, par, s);
    FramePath(m0, m1, root0, NULL, node, Ptr(s), par, p);
  }

  /** The position of `x` in the tree. */
  lemma {:induction false} Locate(mem: Mem, root: Addr, q: Addr, par: Addr, path: Path, t: RbShape.Tree, x: Addr)
    returns (p: Path, u: RbShape.Tree)
    requires At(mem, root, q, par, path, t) && x in Nodes(t)
    ensures Plug(p, u) == Plug(path, t) && u.T? && u.x == x && x in mem
    ensures At(mem, root, x, mem[x].parent, p, u)
    decreases t
  {
    if t.x == x {
      p, u := path, t;
    } else if x in Nodes(t.left) {
      Down(mem, root, q, par, path, Left, t.left, t.x, t.c, t.right);
      p, u := Locate(mem, root, mem[t.x].left, t.x, Step(Left, t.x, t.c, t.right, path), t.left, x);
    } else {
      Down(mem, root, q, par, path, Right, t.right, t.x, t.c, t.left);
      p, u := Locate(mem, root, mem[t.x].right, t.x, Step(Right, t.x, t.c, t.left, path), t.right, x);
    }
  }

  /** What `Transplant` needs to know of the heap it starts from. */
  lemma {:induction false} TransplantSetup(mem: Mem, root: Addr, node: Addr, q: Path, up: Path, c: Color,
                                           s: RbShape.Tree)
    requires up.Step? && up.d.Right? && up.sib.T? && AllLeft(q)
    requires node in mem && At(mem, root, node, mem[node].parent, Concat(q, up), T(Leaf, node, c, s))
    ensures up.x in mem && up.x != node && node != NULL && up.x != NULL
    ensures var o, n := mem[up.x], mem[node];
            && o.color == up.c && n.color == c && o.left == up.sib.x && n.right == Ptr(s)
            && o.left in mem && o.left != NULL && o.right in mem && o.right != NULL && o.left != o.right
            && o.left !in {node, up.x, o.parent, n.parent, n.right} && o.right !in {up.x, o.parent, n.right}
            && (o.right == node <==> n.parent == up.x) && (q.Top? <==> n.parent == up.x)
            && (q.Step? ==> n.parent in PNodes(q) && o.right in PNodes(q))
            && (up.up.Step? <==> o.parent != NULL)
            && (o.parent != NULL ==> o.parent in mem && o.parent !in {node, up.x, n.parent, n.right})
            && (o.parent != NULL ==> o.parent == up.up.x && (mem[o.parent].left == up.x <==> up.up.d == Left))
            && n.parent in mem && n.parent != node && n.parent != NULL
            && (n.right != NULL ==> n.right in mem && n.right !in {node, up.x, n.parent} && mem[n.right].parent == node)
  {
    var par := mem[node].parent;
    TransplantParts(mem, root, node, q, up, c, s);
    var o := mem[up.x];
    assert RepPath(mem, root, NULL, up.x, o.parent, up.up);
    RepPathNodes(mem, root, NULL, up.x, o.parent, up.up);
    RepPathNodes(mem, o.right, up.x, node, par, q);
    RepNodes(mem, o.left, up.x, up.sib);
    RepNodes(mem, mem[node].right, node, s);
  }

  lemma {:induction false} TransplantParts(mem: Mem, root: Addr, node: Addr, q: Path, up: Path, c: Color,
                                           s: RbShape.Tree)
    requires up.Step? && up.d.Right? && node in mem
    requires At(mem, root, node, mem[node].parent, Concat(q, up), T(Leaf, node, c, s))
    ensures up.x in mem && up.x != NULL && node != NULL
    ensures RepPath(mem, mem[up.x].right, up.x, node, mem[node].parent, q)
    ensures RepPath(mem, root, NULL, mem[up.x].right, up.x, up)
    ensures Rep(mem, mem[node].right, node, s)
    ensures PDistinct(q) && PDistinct(up) && Distinct(s)
    ensures {node} !! Nodes(s) !! PNodes(q) !! PNodes(up)
  {
    ConcatNodes(q, up);
    RepPathNodes(mem, root, NULL, node, mem[node].parent, Concat(q, up));
    ConcatRep(mem, root, NULL, node, mem[node].parent, q, mem[up.x].right, up);
  }

  lemma {:induction false} TransplantFrame(m0: Mem, m1: Mem, root0: Addr, root1: Addr, node: Addr, q: Path, up: Path,
                                           c: Color, s: RbShape.Tree, child: Addr, parent: Addr)
    requires up.Step? && up.d.Right? && up.sib.T? && AllLeft(q)
    requires node in m0 && At(m0, root0, node, m0[node].parent, Concat(q, up), T(Leaf, node, c, s))
    requires up.x in m0 && m0.Keys == m1.Keys
    requires var o, n := m0[up.x], m0[node];
             && n.parent in m0 && o.left in m0 && o.right in m0
             && child == n.right && parent == (if q.Top? then node else n.parent)
             && root1 == (if up.up.Top? then node else root0)
             && m1[node] == Node(o.parent, o.color, o.left, if q.Top? then n.right else o.right)
             && m1[o.left] == m0[o.left].(parent := node)
             && (up.up.Step? ==> o.parent in m0 && m1[o.parent] == WithChild(m0[o.parent], up.up.d, node))
             && (child != NULL ==> child in m0 && m1[child] == m0[child].(parent := parent))
             && (q.Step? ==> m1[n.parent] == Moved(m0[n.parent], true, Left, child, n.parent == o.right, node))
             && (q.Step? ==> m1[o.right] == Moved(m0[o.right], n.parent == o.right, Left, child, true, node))
             && Same(m0, m1, m0.Keys - {node, o.left, o.parent, child, n.parent, o.right})
    ensures At(m1, root1, child, parent, Concat(q, up.(x := node)), s)
  {
    var up' := up.(x := node);
    TransplantLow(m0, m1, root0, node, q, up, c, s, child, parent);
    TransplantHigh(m0, m1, root0, root1, node, q, up, c, s, child);
    TransplantParts(m0, root0, node, q, up, c, s);
    ConcatRep(m1, root1, NULL, child, parent, q, if q.Top? then child else m0[up.x].right, up');
    ConcatNodes(q, up');
  }

  /** The part of `Transplant`'s result below the removed node. */
  lemma {:induction false} TransplantLow(m0: Mem, m1: Mem, root0: Addr, node: Addr, q: Path, up: Path, c: Color,
                                         s: RbShape.Tree, child: Addr, parent: Addr)
    requires up.Step? && up.d.Right? && up.sib.T? && AllLeft(q)
    requires node in m0 && At(m0, root0, node, m0[node].parent, Concat(q, up), T(Leaf, node, c, s))
    requires up.x in m0 && m0.Keys == m1.Keys
    requires var o, n := m0[up.x], m0[node];
             && n.parent in m0 && o.left in m0 && o.right in m0
             && child == n.right && parent == (if q.Top? then node else n.parent)
             && (child != NULL ==> child in m0 && m1[child] == m0[child].(parent := parent))
             && (q.Step? ==> m1[n.parent] == Moved(m0[n.parent], true, Left, child, n.parent == o.right, node))
             && (q.Step? ==> m1[o.right] == Moved(m0[o.right], n.parent == o.right, Left, child, true, node))
             && Same(m0, m1, m0.Keys - {node, o.left, o.parent, child, n.parent, o.right})
    ensures Rep(m1, child, parent, s)
    ensures RepPath(m1, if q.Top? then child else m0[up.x].right, node, child, parent, q)
  {
    var par, o := m0[node].parent, m0[up.x];
    TransplantSetup(m0, root0, node, q, up, c, s);
    TransplantParts(m0, root0, node, q, up, c, s);
    RepPathNodes(m0, root0, NULL, o.right, up.x, up);
    RepPathNodes(m0, o.right, up.x, node, par, q);
    RepNodes(m0, o.left, up.x, up.sib);
    RepNodes(m0, child, node, s);
    FrameRep(m0, m1, child, node, parent, s);
    if q.Step? {
      MovePath(m0, m1, o.right, up.x, node, node, child, par, q);
    }
  }

  /** The part of `Transplant`'s result at and above the removed node. */
  lemma {:induction false} TransplantHigh(m0: Mem, m1: Mem, root0: Addr, root1: Addr, node: Addr, q: Path, up: Path,
                                          c: Color, s: RbShape.Tree, child: Addr)
    requires up.Step? && up.d.Right? && up.sib.T? && AllLeft(q)
    requires node in m0 && At(m0, root0, node, m0[node].parent, Concat(q, up), T(Leaf, node, c, s))
    requires up.x in m0 && m0.Keys == m1.Keys
    requires var o, n := m0[up.x], m0[node];
             && n.parent in m0 && o.left in m0 && o.right in m0 && child == n.right
             && root1 == (if up.up.Top? then node else root0)
             && m1[node] == Node(o.parent, o.color, o.left, if q.Top? then n.right else o.right)
             && m1[o.left] == m0[o.left].(parent := node)
             && (up.up.Step? ==> o.parent in m0 && m1[o.parent] == WithChild(m0[o.parent], up.up.d, node))
             && Same(m0, m1, m0.Keys - {node, o.left, o.parent, child, n.parent, o.right})
    ensures RepPath(m1, root1, NULL, if q.Top? then child else m0[up.x].right, node, up.(x := node))
  {
    var par, o := m0[node].parent, m0[up.x];
    TransplantSetup(m0, root0, node, q, up, c, s);
    TransplantParts(m0, root0, node, q, up, c, s);
    RepPathNodes(m0, o.right, up.x, node, par, q);
    RepNodes(m0, child, node, s);
    assert Rep(m1, o.left, node, up.sib) by {
      RepNodes(m0, o.left, up.x, up.sib);
      FrameRep(m0, m1, o.left, up.x, node, up.sib);
    }
    assert RepPath(m1, root1, NULL, node, o.parent, up.up) by {
      RepPathNodes(m0, root0, NULL, up.x, o.parent, up.up);
      FramePath(m0, m1, root0, NULL, up.x, node, o.parent, up.up);
    }
  }

  /** What comes next on side `d` outside the subtree in view. */
  ghost function Beyond(p: Path, d: Side): Addr {
    if d.Right? then FirstOf(After(p)) else LastOf(Before(p))
  }

  lemma {:induction false} SelfParent(mem: Mem, root: Addr, node: Addr, p: Path, u: RbShape.Tree)
    requires node in mem && At(mem, root, node, mem[node].parent, p, u) && u.T?
    ensures mem[node].parent != node && (mem[node].parent != NULL ==> mem[node].parent in mem)
  {
    RepPathNodes(mem, root, NULL, node, mem[node].parent, p);
    RepNodes(mem, node, mem[node].parent, u);
  }

  lemma {:induction false} RotateParts(mem: Mem, node: Addr, par: Addr, d: Side, a: RbShape.Tree, cx: Color,
                    b: RbShape.Tree, y: Addr, cy: Color, e: RbShape.Tree)
    requires Rep(mem, node, par, Mk(d, a, node, cx, Mk(d, b, y, cy, e)))
    requires Distinct(Mk(d, a, node, cx, Mk(d, b, y, cy, e)))
    ensures node in mem && node != NULL && y in mem && y != NULL && y != node
    ensures mem[node].parent == par && mem[node].color == cx && mem[y].parent == node && mem[y].color == cy
    ensures Child(mem[node], Opp(d)) == y
    ensures Rep(mem, Child(mem[node], d), node, a) && Rep(mem, Child(mem[y], d), y, b)
            && Rep(mem, Child(mem[y], Opp(d)), y, e)
    ensures Nodes(Mk(d, a, node, cx, Mk(d, b, y, cy, e))) == Nodes(a) + {node} + (Nodes(b) + {y} + Nodes(e))
    ensures Distinct(a) && Distinct(b) && Distinct(e)
    ensures {node, y} !! Nodes(a) !! Nodes(b) !! Nodes(e)
    ensures Child(mem[y], d) == Ptr(b)
    ensures NULL !in Nodes(a) && NULL !in Nodes(b) && NULL !in Nodes(e)
  {
    var s := Mk(d, b, y, cy, e);
    MkDistinct(d, a, node, cx, s);
    MkDistinct(d, b, y, cy, e);
    MkRep(mem, node, par, d, a, node, cx, s);
    MkRep(mem, y, node, d, b, y, cy, e);
    RepNodes(mem, Child(mem[node], d), node, a);
    RepNodes(mem, Child(mem[y], d), y, b);
    RepNodes(mem, Child(mem[y], Opp(d)), y, e);
  }

  /** What a rotation needs to know of the heap it starts from. */
  lemma {:induction false} RotateSetup(mem: Mem, root: Addr, node: Addr, par: Addr, path: Path, d: Side,
                                       a: RbShape.Tree, cx: Color, b: RbShape.Tree, y: Addr, cy: Color, e: RbShape.Tree)
    requires At(mem, root, node, par, path, Mk(d, a, node, cx, Mk(d, b, y, cy, e)))
    ensures node in mem && node != NULL && mem[node].parent == par && y in mem && y != NULL && y != node
    ensures Child(mem[node], Opp(d)) == y && Child(mem[y], d) == Ptr(b)
    ensures b.T? ==> b.x in mem && b.x != NULL && b.x != node && b.x != y && mem[b.x].parent == y
    ensures path.Step? ==> par in mem && par == path.x && par != NULL && par != node && par != y && par != Ptr(b)
    ensures path.Step? ==> Child(mem[par], path.d) == node && Child(mem[par], Opp(path.d)) != node
    ensures path.Top? ==> par == NULL
  {
    RotateParts(mem, node, par, d, a, cx, b, y, cy, e);
    if path.Step? {
      Up(mem, root, node, par, path, Mk(d, a, node, cx, Mk(d, b, y, cy, e)));
    }
  }

  /** The heap after a rotation stands for the rotated tree. */
  lemma {:induction false} RotateFrame(m0: Mem, m1: Mem, root0: Addr, root1: Addr, node: Addr, par: Addr, path: Path,
                                       d: Side,
                    a: RbShape.Tree, cx: Color, b: RbShape.Tree, y: Addr, cy: Color, e: RbShape.Tree)
    requires At(m0, root0, node, par, path, Mk(d, a, node, cx, Mk(d, b, y, cy, e)))
    requires node in m1 && y in m1 && y != node
    requires node in m0 && y in m0
    requires m1[node] == WithChild(m0[node], Opp(d), Ptr(b)).(parent := y)
    requires m1[y] == WithChild(m0[y], d, node).(parent := par)
    requires b.T? ==> b.x in m1 && b.x in m0 && m1[b.x] == m0[b.x].(parent := node)
    requires path.Step? ==> par in m1 && par in m0 && m1[par] == WithChild(m0[par], path.d, y)
    requires Same(m0, m1, m0.Keys - {node, y, Ptr(b), par})
    requires root1 == if path.Top? then y else root0
    ensures At(m1, root1, y, par, path, Mk(d, Mk(d, a, node, cx, b), y, cy, e))
  {
    RotateSetup(m0, root0, node, par, path, d, a, cx, b, y, cy, e);
    RotateParts(m0, node, par, d, a, cx, b, y, cy, e);
    RotateBelow(m0, m1, root0, node, par, path, d, a, cx, b, y, cy, e);
    RepPathNodes(m0, root0, NULL, node, par, path);
    FramePath(m0, m1, root0, NULL, node, y, par, path);
    MkDistinct(d, a, node, cx, b);
    MkDistinct(d, Mk(d, a, node, cx, b), y, cy, e);
  }

  lemma {:induction false} RotateBelow(m0: Mem, m1: Mem, root0: Addr, node: Addr, par: Addr, path: Path, d: Side,
                                       a: RbShape.Tree, cx: Color, b: RbShape.Tree, y: Addr, cy: Color, e: RbShape.Tree)
    requires At(m0, root0, node, par, path, Mk(d, a, node, cx, Mk(d, b, y, cy, e)))
    requires node in m1 && y in m1 && y != node && node in m0 && y in m0
    requires m1[node] == WithChild(m0[node], Opp(d), Ptr(b)).(parent := y)
    requires m1[y] == WithChild(m0[y], d, node).(parent := par)
    requires b.T? ==> b.x in m1 && b.x in m0 && m1[b.x] == m0[b.x].(parent := node)
    requires Same(m0, m1, m0.Keys - {node, y, Ptr(b), par})
    ensures Rep(m1, y, par, Mk(d, Mk(d, a, node, cx, b), y, cy, e))
  {
    RotateSetup(m0, root0, node, par, path, d, a, cx, b, y, cy, e);
    RotateParts(m0, node, par, d, a, cx, b, y, cy, e);
    RepPathNodes(m0, root0, NULL, node, par, path);
    RepNodes(m0, Child(m0[node], d), node, a);
    RepNodes(m0, Child(m0[y], d), y, b);
    RepNodes(m0, Child(m0[y], Opp(d)), y, e);
    KeepRep(m0, m1, Child(m0[node], d), node, a);
    KeepRep(m0, m1, Child(m0[y], Opp(d)), y, e);
    FrameRep(m0, m1, Child(m0[y], d), y, node, b);
    MkRep(m1, node, y, d, a, node, cx, b);
    MkRep(m1, y, par, d, Mk(d, a, node, cx, b), y, cy, e);
  }
}
