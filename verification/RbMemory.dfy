/** How a heap of nodes stands for a tree.  A node keeps its parent, its colour
    and its two children; the heap is a map from addresses to nodes. */
module RbMemory {
  import opened RbShape

  datatype Node = Node(parent: Addr, color: Color, left: Addr, right: Addr)
  type Mem = map<Addr, Node>

  function Child(n: Node, d: Side): Addr {
    if d.Left? then n.left else n.right
  }

  function WithChild(n: Node, d: Side, v: Addr): Node {
    if d.Left? then n.(left := v) else n.(right := v)
  }

  /** The heap below `p` is `t`, and `p`'s parent link is `par`. */
  ghost predicate Rep(mem: Mem, p: Addr, par: Addr, t: Tree)
    decreases t
  {
    match t
    case Leaf => p == NULL
    case T(l, x, c, r) =>
      && p == x && x != NULL && x in mem && mem[x].parent == par && mem[x].color == c
      && Rep(mem, mem[x].left, x, l) && Rep(mem, mem[x].right, x, r)
  }

  /** The heap above the link `p` out of `par`, up to the link `top` out of
      `topPar`, is `path`. */
  ghost predicate RepPath(mem: Mem, top: Addr, topPar: Addr, p: Addr, par: Addr, path: Path)
    decreases path
  {
    match path
    case Top => p == top && par == topPar
    case Step(d, x, c, sib, up) =>
      && par == x && x != NULL && x in mem && mem[x].color == c && Child(mem[x], d) == p
      && Rep(mem, Child(mem[x], Opp(d)), x, sib)
      && RepPath(mem, top, topPar, x, mem[x].parent, up)
  }

  /** The whole heap is `Plug(path, t)`, seen from the link `p` out of `par`. */
  ghost predicate At(mem: Mem, root: Addr, p: Addr, par: Addr, path: Path, t: Tree) {
    && Rep(mem, p, par, t) && RepPath(mem, root, NULL, p, par, path)
    && Distinct(t) && PDistinct(path) && Nodes(t) !! PNodes(path)
  }

  lemma {:induction false} MkRep(mem: Mem, p: Addr, par: Addr, d: Side, a: Tree, x: Addr, c: Color, b: Tree)
    ensures Rep(mem, p, par, Mk(d, a, x, c, b)) <==>
            && p == x && x != NULL && x in mem && mem[x].parent == par && mem[x].color == c
            && Rep(mem, Child(mem[x], d), x, a) && Rep(mem, Child(mem[x], Opp(d)), x, b)
  {
  }

  lemma {:induction false} RepNodes(mem: Mem, p: Addr, par: Addr, t: Tree)
    requires Rep(mem, p, par, t)
    ensures NULL !in Nodes(t) && Nodes(t) <= mem.Keys && p == Ptr(t)
    decreases t
  {
    match t
    case Leaf =>
    case T(l, x, _, r) =>
      RepNodes(mem, mem[x].left, x, l);
      RepNodes(mem, mem[x].right, x, r);
  }

  lemma {:induction false} RepPathNodes(mem: Mem, top: Addr, topPar: Addr, p: Addr, par: Addr, path: Path)
    requires RepPath(mem, top, topPar, p, par, path)
    ensures NULL !in PNodes(path) && PNodes(path) <= mem.Keys
    ensures path.Step? ==> par in PNodes(path) && top in PNodes(path)
    decreases path
  {
    match path
    case Top =>
    case Step(d, x, _, sib, up) =>
      RepNodes(mem, Child(mem[x], Opp(d)), x, sib);
      RepPathNodes(mem, top, topPar, x, mem[x].parent, up);
  }

  /** Two heaps that agree on `s`. */
  ghost predicate Same(mem: Mem, mem': Mem, s: set<Addr>) {
    forall a :: a in s && a in mem ==> a in mem' && mem'[a] == mem[a]
  }

  /** A subtree survives changes outside it, and a change of its root's parent link. */
  lemma {:induction false} FrameRep(mem: Mem, mem': Mem, p: Addr, par: Addr, par': Addr, t: Tree)
    requires Rep(mem, p, par, t) && Distinct(t)
    requires p != NULL ==> p in mem' && mem'[p] == mem[p].(parent := par')
    requires Same(mem, mem', Nodes(t) - {p})
    ensures Rep(mem', p, par', t)
    decreases t
  {
    match t
    case Leaf =>
    case T(l, x, _, r) =>
      RepNodes(mem, mem[x].left, x, l);
      RepNodes(mem, mem[x].right, x, r);
      FrameRep(mem, mem', mem[x].left, x, x, l);
      FrameRep(mem, mem', mem[x].right, x, x, r);
  }

  lemma {:induction false} KeepRep(mem: Mem, mem': Mem, p: Addr, par: Addr, t: Tree)
    requires Rep(mem, p, par, t) && Distinct(t)
    requires Same(mem, mem', Nodes(t))
    ensures Rep(mem', p, par, t)
  {
    RepNodes(mem, p, par, t);
    FrameRep(mem, mem', p, par, par, t);
  }

  /** A context survives changes outside it, and a change of the link at its hole. */
  lemma {:induction false} FramePath(mem: Mem, mem': Mem, top: Addr, topPar: Addr, p: Addr, p': Addr, par: Addr,
                                     path: Path)
    requires RepPath(mem, top, topPar, p, par, path) && PDistinct(path)
    requires path.Step? ==> par in mem && par in mem' && mem'[par] == WithChild(mem[par], path.d, p')
    requires Same(mem, mem', PNodes(path) - {par})
    ensures RepPath(mem', if path.Top? then p' else top, topPar, p', par, path)
    decreases path
  {
    match path
    case Top =>
    case Step(d, x, _, sib, up) =>
      KeepRep(mem, mem', Child(mem[x], Opp(d)), x, sib);
      if up.Step? {
        RepPathNodes(mem, top, topPar, x, mem[x].parent, up);
      }
      FramePath(mem, mem', top, topPar, x, x, mem[x].parent, up);
  }

  lemma {:induction false} KeepPath(mem: Mem, mem': Mem, top: Addr, topPar: Addr, p: Addr, par: Addr, path: Path)
    requires RepPath(mem, top, topPar, p, par, path) && PDistinct(path)
    requires Same(mem, mem', PNodes(path))
    ensures RepPath(mem', top, topPar, p, par, path)
  {
    RepPathNodes(mem, top, topPar, p, par, path);
    FramePath(mem, mem', top, topPar, p, p, par, path);
  }

  // ---------- moving the point of view ----------

  lemma {:induction false} Down(mem: Mem, root: Addr, p: Addr, par: Addr, path: Path, d: Side, a: Tree, x: Addr,
                                c: Color, b: Tree)
    requires At(mem, root, p, par, path, Mk(d, a, x, c, b))
    ensures p == x && x != NULL && x in mem && mem[x].color == c && mem[x].parent == par
    ensures At(mem, root, Child(mem[x], d), x, Step(d, x, c, b, path), a)
    ensures Child(mem[x], d) == Ptr(a) && Child(mem[x], Opp(d)) == Ptr(b)
    ensures x !in Nodes(a) && x !in Nodes(b) && x !in PNodes(path)
  {
    RepNodes(mem, Child(mem[x], d), x, a);
    RepNodes(mem, Child(mem[x], Opp(d)), x, b);
  }

  lemma {:induction false} Up(mem: Mem, root: Addr, p: Addr, par: Addr, path: Path, t: Tree)
    requires At(mem, root, p, par, path, t) && path.Step?
    ensures par == path.x && par != NULL && par in mem && p == Ptr(t)
    ensures mem[par].color == path.c
    ensures Child(mem[par], path.d) == p && Child(mem[par], Opp(path.d)) == Ptr(path.sib)
    ensures p != NULL ==> Child(mem[par], Opp(path.d)) != p
    ensures At(mem, root, par, mem[par].parent, path.up, Mk(path.d, t, path.x, path.c, path.sib))
  {
    RepNodes(mem, p, par, t);
    RepNodes(mem, Child(mem[par], Opp(path.d)), par, path.sib);
  }

  /** The two views of the whole heap agree. */
  lemma {:induction false} PlugRep(mem: Mem, top: Addr, topPar: Addr, p: Addr, par: Addr, path: Path, t: Tree)
    requires Rep(mem, p, par, t) && RepPath(mem, top, topPar, p, par, path)
    ensures Rep(mem, top, topPar, Plug(path, t))
    decreases path
  {
    match path
    case Top =>
    case Step(d, x, c, sib, up) =>
      MkRep(mem, x, mem[x].parent, d, t, x, c, sib);
      PlugRep(mem, top, topPar, x, mem[x].parent, up, Mk(d, t, x, c, sib));
  }

  lemma {:induction false} RootIsBlack(mem: Mem, top: Addr, topPar: Addr, p: Addr, par: Addr, path: Path)
    requires RepPath(mem, top, topPar, p, par, path) && path.Step? && PNoRedRed(path)
    ensures top in mem && mem[top].color == Black
    decreases path
  {
    if path.up.Step? {
      RootIsBlack(mem, top, topPar, par, mem[par].parent, path.up);
    }
  }

  lemma {:induction false} ConcatRep(mem: Mem, top: Addr, topPar: Addr, p: Addr, par: Addr, q: Path, mid: Addr,
                                     up: Path)
    requires up.Step? && up.x in mem && Child(mem[up.x], up.d) == mid
    ensures RepPath(mem, top, topPar, p, par, Concat(q, up)) <==>
            RepPath(mem, mid, up.x, p, par, q) && RepPath(mem, top, topPar, mid, up.x, up)
    decreases q
  {
    if q.Step? && q.x in mem {
      ConcatRep(mem, top, topPar, q.x, mem[q.x].parent, q.up, mid, up);
    }
  }

  /** A stretch of path whose hole now holds `p'` and whose top now hangs off `topPar'`. */
  function Moved(n: Node, bottom: bool, d: Side, p': Addr, atTop: bool, topPar': Addr): Node {
    var n' := if bottom then WithChild(n, d, p') else n;
    if atTop then n'.(parent := topPar') else n'
  }

  lemma {:induction false} MovePath(mem: Mem, mem': Mem, top: Addr, topPar: Addr, topPar': Addr, p: Addr, p': Addr,
                                    par: Addr, q: Path)
    requires RepPath(mem, top, topPar, p, par, q) && PDistinct(q) && q.Step?
    requires forall a :: a in PNodes(q) && a in mem ==>
               a in mem' && mem'[a] == Moved(mem[a], a == par, q.d, p', a == top, topPar')
    ensures RepPath(mem', top, topPar', p', par, q)
    decreases q
  {
    var x, up := q.x, q.up;
    RepNodes(mem, Child(mem[x], Opp(q.d)), x, q.sib);
    RepPathNodes(mem, top, topPar, p, par, q);
    RepPathNodes(mem, top, topPar, x, mem[x].parent, up);
    if up.Step? {
      KeepRep(mem, mem', Child(mem[x], Opp(q.d)), x, q.sib);
      MovePath(mem, mem', top, topPar, topPar', x, x, mem[x].parent, up);
    } else {
      KeepRep(mem, mem', Child(mem[x], Opp(q.d)), x, q.sib);
    }
  }
}
