/** Shapes of red-black trees: the tree a heap of nodes stands for, the path from
    a position up to the root (a zipper), the in-order sequence, and the colour
    rules.  Everything here is about values; `RbTree` ties it to memory.

    Most definitions take a `Side`, so that one statement covers a rule and its
    mirror image. */
module RbShape {
  import opened Powers

  /** Address of a node; 0 is NULL. */
  type Addr = nat
  const NULL: Addr := 0

  datatype Color = Red | Black
  datatype Side = Left | Right

  function Opp(d: Side): Side {
    if d.Left? then Right else Left
  }

  datatype Tree = Leaf | T(left: Tree, x: Addr, c: Color, right: Tree)

  /** The tree with `a` on side `d` of `x` and `b` on the other side. */
  function Mk(d: Side, a: Tree, x: Addr, c: Color, b: Tree): Tree {
    if d.Left? then T(a, x, c, b) else T(b, x, c, a)
  }

  function Kid(t: Tree, d: Side): Tree
    requires t.T?
  {
    if d.Left? then t.left else t.right
  }

  function Ptr(t: Tree): Addr {
    if t.Leaf? then NULL else t.x
  }

  predicate IsRed(t: Tree) {
    t.T? && t.c.Red?
  }

  /** What surrounds a position: the hole is the `d` child of `x`, whose other
      child is `sib`; `up` surrounds `x`. */
  datatype Path = Top | Step(d: Side, x: Addr, c: Color, sib: Tree, up: Path)

  function Plug(p: Path, t: Tree): Tree
    decreases p
  {
    match p
    case Top => t
    case Step(d, x, c, sib, up) => Plug(up, Mk(d, t, x, c, sib))
  }

  function Len(p: Path): nat {
    match p
    case Top => 0
    case Step(_, _, _, _, up) => 1 + Len(up)
  }

  // ---------- in-order sequence ----------

  function Inorder(t: Tree): seq<Addr> {
    match t
    case Leaf => []
    case T(l, x, _, r) => Inorder(l) + [x] + Inorder(r)
  }

  function Before(p: Path): seq<Addr> {
    match p
    case Top => []
    case Step(d, x, _, sib, up) => if d.Left? then Before(up) else Before(up) + Inorder(sib) + [x]
  }

  function After(p: Path): seq<Addr> {
    match p
    case Top => []
    case Step(d, x, _, sib, up) => if d.Left? then [x] + Inorder(sib) + After(up) else After(up)
  }

  lemma {:induction false} PlugInorder(p: Path, t: Tree)
    ensures Inorder(Plug(p, t)) == Before(p) + Inorder(t) + After(p)
    decreases p
  {
    match p
    case Top =>
    case Step(d, x, c, sib, up) =>
      PlugInorder(up, Mk(d, t, x, c, sib));
  }

  /** A rotation keeps the in-order sequence. */
  lemma {:induction false} RotateInorder(d: Side, a: Tree, x: Addr, cx: Color, b: Tree, y: Addr, cy: Color, e: Tree)
    ensures Inorder(Mk(d, a, x, cx, Mk(d, b, y, cy, e))) == Inorder(Mk(d, Mk(d, a, x, cx, b), y, cy, e))
  {
    if d.Left? {
      assert Inorder(a) + [x] + (Inorder(b) + [y] + Inorder(e)) == (Inorder(a) + [x] + Inorder(b)) + [y] + Inorder(e);
    } else {
      assert (Inorder(e) + [y] + Inorder(b)) + [x] + Inorder(a) == Inorder(e) + [y] + (Inorder(b) + [x] + Inorder(a));
    }
  }

  // ---------- nodes ----------

  function Nodes(t: Tree): set<Addr> {
    match t
    case Leaf => {}
    case T(l, x, _, r) => Nodes(l) + {x} + Nodes(r)
  }

  function PNodes(p: Path): set<Addr> {
    match p
    case Top => {}
    case Step(_, x, _, sib, up) => {x} + Nodes(sib) + PNodes(up)
  }

  /** No node occurs twice. */
  predicate Distinct(t: Tree) {
    match t
    case Leaf => true
    case T(l, x, _, r) =>
      && Distinct(l) && Distinct(r)
      && x !in Nodes(l) && x !in Nodes(r) && Nodes(l) !! Nodes(r)
  }

  predicate PDistinct(p: Path) {
    match p
    case Top => true
    case Step(_, x, _, sib, up) =>
      && Distinct(sib) && PDistinct(up)
      && x !in Nodes(sib) && x !in PNodes(up) && Nodes(sib) !! PNodes(up)
  }

  lemma {:induction false} PlugNodes(p: Path, t: Tree)
    ensures Nodes(Plug(p, t)) == PNodes(p) + Nodes(t)
    decreases p
  {
    match p
    case Top =>
    case Step(d, x, c, sib, up) => PlugNodes(up, Mk(d, t, x, c, sib));
  }

  lemma {:induction false} PlugDistinct(p: Path, t: Tree)
    ensures Distinct(Plug(p, t)) <==> Distinct(t) && PDistinct(p) && Nodes(t) !! PNodes(p)
    decreases p
  {
    match p
    case Top =>
    case Step(d, x, c, sib, up) => PlugDistinct(up, Mk(d, t, x, c, sib));
  }

  /** The one-level reading of `Mk`. */
  lemma {:induction false} MkDistinct(d: Side, a: Tree, x: Addr, c: Color, b: Tree)
    ensures Nodes(Mk(d, a, x, c, b)) == Nodes(a) + {x} + Nodes(b)
    ensures Distinct(Mk(d, a, x, c, b)) <==>
            Distinct(a) && Distinct(b) && x !in Nodes(a) && x !in Nodes(b) && Nodes(a) !! Nodes(b)
  {
  }

  // ---------- colour rules ----------

  /** Black nodes on the leftmost way down; on every way down once `Balanced`. */
  function Bh(t: Tree): nat {
    match t
    case Leaf => 0
    case T(l, _, c, _) => Bh(l) + Tall(c)
  }

  function Tall(c: Color): nat {
    if c.Black? then 1 else 0
  }

  predicate Balanced(t: Tree) {
    match t
    case Leaf => true
    case T(l, _, _, r) => Balanced(l) && Balanced(r) && Bh(l) == Bh(r)
  }

  predicate NoRedRed(t: Tree) {
    match t
    case Leaf => true
    case T(l, _, c, r) => NoRedRed(l) && NoRedRed(r) && (c.Red? ==> !IsRed(l) && !IsRed(r))
  }

  /** A valid red-black tree. */
  predicate RedBlack(t: Tree) {
    Balanced(t) && NoRedRed(t) && !IsRed(t)
  }

  /** The one-level reading of `Mk`. */
  lemma {:induction false} MkColors(d: Side, a: Tree, x: Addr, c: Color, b: Tree)
    ensures Balanced(Mk(d, a, x, c, b)) <==> Balanced(a) && Balanced(b) && Bh(a) == Bh(b)
    ensures Bh(a) == Bh(b) ==> Bh(Mk(d, a, x, c, b)) == Bh(a) + Tall(c)
    ensures NoRedRed(Mk(d, a, x, c, b)) <==> NoRedRed(a) && NoRedRed(b) && (c.Red? ==> !IsRed(a) && !IsRed(b))
  {
  }

  lemma {:induction false} KidColors(t: Tree, d: Side)
    requires t.T?
    ensures t == Mk(d, Kid(t, d), t.x, t.c, Kid(t, Opp(d)))
    ensures Balanced(t) ==> Balanced(Kid(t, d)) && Balanced(Kid(t, Opp(d))) && Bh(Kid(t, d)) == Bh(Kid(t, Opp(d)))
    ensures Balanced(t) ==> Bh(t) == Bh(Kid(t, d)) + Tall(t.c)
    ensures NoRedRed(t) ==> NoRedRed(Kid(t, d)) && NoRedRed(Kid(t, Opp(d)))
    ensures NoRedRed(t) && IsRed(t) ==> !IsRed(Kid(t, d)) && !IsRed(Kid(t, Opp(d)))
  {
  }

  /** The context is balanced when its hole has black height `h`. */
  predicate PBalanced(p: Path, h: nat) {
    match p
    case Top => true
    case Step(_, _, c, sib, up) => Balanced(sib) && Bh(sib) == h && PBalanced(up, h + Tall(c))
  }

  /** The context breaks no colour rule when its hole is black; a red node of it
      has a black parent, so the root is black. */
  predicate PNoRedRed(p: Path) {
    match p
    case Top => true
    case Step(_, _, c, sib, up) =>
      && NoRedRed(sib) && PNoRedRed(up)
      && (c.Red? ==> !IsRed(sib) && up.Step? && up.c.Black?)
  }

  /** The hole may hold a red node. */
  predicate RedFits(p: Path) {
    p.Step? && p.c.Black?
  }

  lemma {:induction false} PlugRedBlack(p: Path, t: Tree)
    ensures RedBlack(Plug(p, t)) <==>
            && Balanced(t) && NoRedRed(t) && PNoRedRed(p) && PBalanced(p, Bh(t))
            && (IsRed(t) ==> RedFits(p))
    decreases p
  {
    match p
    case Top =>
    case Step(d, x, c, sib, up) => PlugRedBlack(up, Mk(d, t, x, c, sib));
  }

  // ---------- insertion ----------

  /** Where the climb of an insertion stands: everything is in order, except that
      the red node `t.x` may hang off a red parent or be the root. */
  predicate Rising(p: Path, t: Tree) {
    IsRed(t) && Balanced(t) && NoRedRed(t) && PNoRedRed(p) && PBalanced(p, Bh(t))
  }

  /** Red uncle: the redness moves up two levels. */
  lemma {:induction false} RisePastUncle(p: Path, t: Tree)
    requires Rising(p, t) && p.Step? && p.c.Red? && IsRed(p.up.sib)
    ensures var g := p.up;
            var t' := Mk(g.d, Mk(p.d, t, p.x, Black, p.sib), g.x, Red, g.sib.(c := Black));
            Rising(g.up, t') && Inorder(Plug(g.up, t')) == Inorder(Plug(p, t))
  {
    var g := p.up;
    var t' := Mk(g.d, Mk(p.d, t, p.x, Black, p.sib), g.x, Red, g.sib.(c := Black));
    assert PBalanced(g, Bh(t)) && PNoRedRed(g);
    MkColors(p.d, t, p.x, Black, p.sib);
    MkColors(g.d, Mk(p.d, t, p.x, Black, p.sib), g.x, Red, g.sib.(c := Black));
    PlugInorder(g.up, t');
    PlugInorder(g.up, Mk(g.d, Mk(p.d, t, p.x, p.c, p.sib), g.x, g.c, g.sib));
  }

  /** Black uncle, inner grandchild: rotating the parent makes it an outer one. */
  lemma {:induction false} RiseInner(p: Path, e: Side, tl: Tree, x: Addr, tr: Tree)
    requires p.Step? && p.c.Red? && p.up.Step? && p.d == Opp(e)
    requires Rising(p, Mk(e, tl, x, Red, tr))
    ensures var t', p' := Mk(e, p.sib, p.x, Red, tl), Step(e, x, Red, tr, p.up);
            Rising(p', t') && Inorder(Plug(p', t')) == Inorder(Plug(p, Mk(e, tl, x, Red, tr)))
  {
    var t := Mk(e, tl, x, Red, tr);
    var t', p' := Mk(e, p.sib, p.x, Red, tl), Step(e, x, Red, tr, p.up);
    PlugInorder(p.up, Mk(p.d, t, p.x, p.c, p.sib));
    PlugInorder(p.up, Mk(e, t', x, Red, tr));
    RotateInorder(e, p.sib, p.x, Red, tl, x, Red, tr);
  }

  /** Black uncle, outer grandchild: rotating the grandparent ends the climb. */
  lemma {:induction false} RiseOuter(p: Path, t: Tree)
    requires Rising(p, t) && p.Step? && p.c.Red? && p.d == p.up.d && !IsRed(p.up.sib)
    ensures var e, g := p.d, p.up;
            var p' := Step(e, p.x, Black, Mk(e, p.sib, g.x, Red, g.sib), g.up);
            Rising(p', t) && Inorder(Plug(p', t)) == Inorder(Plug(p, t))
  {
    var e, g := p.d, p.up;
    PlugInorder(g.up, Mk(e, Mk(e, t, p.x, p.c, p.sib), g.x, g.c, g.sib));
    PlugInorder(g.up, Mk(e, t, p.x, Black, Mk(e, p.sib, g.x, Red, g.sib)));
    RotateInorder(Opp(e), g.sib, g.x, g.c, p.sib, p.x, p.c, t);
    assert PBalanced(g, Bh(t)) && PNoRedRed(g);
    MkColors(e, p.sib, g.x, Red, g.sib);
  }

  /** The climb is over: painting the root black gives a red-black tree. */
  lemma {:induction false} Risen(p: Path, t: Tree)
    requires Rising(p, t) && (p.Step? ==> p.c.Black?)
    ensures RedBlack(Plug(p, if p.Top? then t.(c := Black) else t))
    ensures Inorder(Plug(p, if p.Top? then t.(c := Black) else t)) == Inorder(Plug(p, t))
  {
    PlugRedBlack(p, t);
  }

  // ---------- removal ----------

  /** The sequence without the first occurrence of `x`. */
  function Remove(s: seq<Addr>, x: Addr): seq<Addr> {
    if s == [] then [] else if s[0] == x then s[1..] else [s[0]] + Remove(s[1..], x)
  }

  lemma {:induction false} RemoveSplit(pre: seq<Addr>, x: Addr, post: seq<Addr>)
    requires x !in pre
    ensures Remove(pre + [x] + post, x) == pre + post
  {
    if pre == [] {
      assert ([x] + post)[1..] == post;
      assert pre + [x] + post == [x] + post;
    } else {
      RemoveSplit(pre[1..], x, post);
      assert (pre + [x] + post)[1..] == pre[1..] + [x] + post;
      assert [pre[0]] + (pre[1..] + post) == pre + post;
    }
  }

  lemma {:induction false} RemoveMiddle(b: seq<Addr>, x: Addr, s: seq<Addr>, a: seq<Addr>)
    requires x !in b && x !in s
    ensures Remove(b + ([x] + s) + a, x) == b + s + a
    ensures Remove(b + (s + [x]) + a, x) == b + s + a
  {
    assert Remove(b + ([x] + s) + a, x) == b + s + a by {
      RemoveSplit(b, x, s + a);
      Regroup(b, x, s, a);
    }
    assert Remove(b + (s + [x]) + a, x) == b + s + a by {
      RemoveSplit(b + s, x, a);
      Regroup(b, x, s, a);
    }
  }

  lemma {:induction false} Regroup(b: seq<Addr>, x: Addr, s: seq<Addr>, a: seq<Addr>)
    ensures b + ([x] + s) + a == b + [x] + (s + a)
    ensures b + (s + [x]) + a == (b + s) + [x] + a
    ensures b + (s + a) == b + s + a
  {
  }

  lemma {:induction false} InorderNodes(t: Tree)
    ensures forall a :: a in Inorder(t) <==> a in Nodes(t)
  {
    match t
    case Leaf =>
    case T(l, _, _, r) => InorderNodes(l); InorderNodes(r);
  }

  lemma {:induction false} PathInorderNodes(p: Path)
    ensures forall a :: a in Before(p) || a in After(p) <==> a in PNodes(p)
  {
    match p
    case Top =>
    case Step(_, _, _, sib, up) => InorderNodes(sib); PathInorderNodes(up);
  }

  /** `s` stands where the node `t.x`, whose only subtree it was, stood. */
  predicate Splices(t: Tree, s: Tree) {
    t.T? && ((t.left.Leaf? && s == t.right) || (t.right.Leaf? && s == t.left))
  }

  /** Where the repair of a removal stands: every way through `t` has one black
      node too few, and `t` itself may be red below a red parent. */
  predicate Sinking(p: Path, t: Tree) {
    && Balanced(t) && (t.T? ==> NoRedRed(t.left) && NoRedRed(t.right))
    && PNoRedRed(p) && PBalanced(p, Bh(t) + 1)
  }

  lemma {:induction false} SpliceColors(p: Path, t: Tree, s: Tree)
    requires RedBlack(Plug(p, t)) && Splices(t, s)
    ensures if t.c.Black? then Sinking(p, s) else RedBlack(Plug(p, s))
  {
    PlugRedBlack(p, t);
    PlugRedBlack(p, s);
  }

  lemma {:induction false} SpliceInorder(p: Path, t: Tree, s: Tree)
    requires Distinct(Plug(p, t)) && Splices(t, s)
    ensures Inorder(Plug(p, s)) == Remove(Inorder(Plug(p, t)), t.x)
  {
    PlugDistinct(p, t);
    PlugInorder(p, t);
    PlugInorder(p, s);
    assert t.x !in Before(p) by { PathInorderNodes(p); }
    assert t.x !in Inorder(s) by { InorderNodes(s); }
    assert Inorder(t) == [t.x] + Inorder(s) || Inorder(t) == Inorder(s) + [t.x];
    RemoveMiddle(Before(p), t.x, Inorder(s), After(p));
  }

  /** Red sibling: after the rotation the sibling is black. */
  lemma {:induction false} SinkRedSibling(p: Path, t: Tree)
    requires Sinking(p, t) && p.Step? && IsRed(p.sib)
    ensures var d, s := p.d, p.sib;
            var p' := Step(d, p.x, Red, Kid(s, d), Step(d, s.x, Black, Kid(s, Opp(d)), p.up));
            && Sinking(p', t) && p'.sib.T? && !IsRed(p'.sib)
            && Inorder(Plug(p', t)) == Inorder(Plug(p, t))
  {
    var d, s := p.d, p.sib;
    RotateInorder(d, t, p.x, p.c, Kid(s, d), s.x, s.c, Kid(s, Opp(d)));
    PlugInorder(p.up, Mk(d, t, p.x, p.c, s));
    PlugInorder(p.up, Mk(d, Mk(d, t, p.x, Red, Kid(s, d)), s.x, Black, Kid(s, Opp(d))));
  }

  /** Black sibling with black children: it turns red and the debt moves up. */
  lemma {:induction false} SinkRecolor(p: Path, t: Tree)
    requires Sinking(p, t) && p.Step? && !IsRed(t) && p.sib.T? && !IsRed(p.sib)
    requires !IsRed(p.sib.left) && !IsRed(p.sib.right)
    ensures var t' := Mk(p.d, t, p.x, p.c, p.sib.(c := Red));
            Sinking(p.up, t') && Inorder(Plug(p.up, t')) == Inorder(Plug(p, t))
  {
    MkColors(p.d, t, p.x, p.c, p.sib.(c := Red));
    PlugInorder(p.up, Mk(p.d, t, p.x, p.c, p.sib));
    PlugInorder(p.up, Mk(p.d, t, p.x, p.c, p.sib.(c := Red)));
  }

  /** Red near nephew, black far one: rotate the sibling so that the far one is red. */
  lemma {:induction false} SinkNear(p: Path, t: Tree)
    requires Sinking(p, t) && p.Step? && p.sib.T? && !IsRed(p.sib)
    requires IsRed(Kid(p.sib, p.d)) && !IsRed(Kid(p.sib, Opp(p.d)))
    ensures var d, s := p.d, p.sib;
            var near := Kid(s, d);
            var sib' := Mk(d, Kid(near, d), near.x, Black, Mk(d, Kid(near, Opp(d)), s.x, Red, Kid(s, Opp(d))));
            Sinking(p.(sib := sib'), t) && Inorder(Plug(p.(sib := sib'), t)) == Inorder(Plug(p, t))
  {
    var d, s := p.d, p.sib;
    var near := Kid(s, d);
    var o := Mk(d, Kid(near, Opp(d)), s.x, Red, Kid(s, Opp(d)));
    var sib' := Mk(d, Kid(near, d), near.x, Black, o);
    KidColors(s, d);
    KidColors(near, d);
    MkColors(d, Kid(near, Opp(d)), s.x, Red, Kid(s, Opp(d)));
    MkColors(d, Kid(near, d), near.x, Black, o);
    RotateInorder(Opp(d), Kid(s, Opp(d)), s.x, s.c, Kid(near, Opp(d)), near.x, near.c, Kid(near, d));
    assert Inorder(s) == Inorder(sib');
    PlugInorder(p.up, Mk(d, t, p.x, p.c, s));
    PlugInorder(p.up, Mk(d, t, p.x, p.c, sib'));
  }

  /** Red far nephew: one rotation pays the debt. */
  lemma {:induction false} SinkFar(p: Path, t: Tree)
    requires Sinking(p, t) && !IsRed(t) && p.Step? && p.sib.T? && !IsRed(p.sib) && IsRed(Kid(p.sib, Opp(p.d)))
    ensures var d, s := p.d, p.sib;
            var t' := Mk(d, Mk(d, t, p.x, Black, Kid(s, d)), s.x, p.c, Kid(s, Opp(d)).(c := Black));
            RedBlack(Plug(p.up, t')) && Inorder(Plug(p.up, t')) == Inorder(Plug(p, t))
  {
    var d, s := p.d, p.sib;
    var far := Kid(s, Opp(d)).(c := Black);
    var a := Mk(d, t, p.x, Black, Kid(s, d));
    var t' := Mk(d, a, s.x, p.c, far);
    KidColors(s, d);
    MkColors(d, t, p.x, Black, Kid(s, d));
    MkColors(d, a, s.x, p.c, far);
    PlugRedBlack(p.up, t');
    RotateInorder(d, t, p.x, Black, Kid(s, d), s.x, p.c, far);
    assert Inorder(Mk(d, Kid(s, d), s.x, p.c, far)) == Inorder(s);
    PlugInorder(p.up, Mk(d, t, p.x, p.c, s));
    PlugInorder(p.up, t');
  }

  /** A red node, or the root, absorbs the debt by being black. */
  lemma {:induction false} Sunk(p: Path, t: Tree)
    requires Sinking(p, t) && (IsRed(t) || p.Top?)
    ensures var t' := if t.T? then t.(c := Black) else t;
            RedBlack(Plug(p, t')) && Inorder(Plug(p, t')) == Inorder(Plug(p, t))
  {
    var t' := if t.T? then t.(c := Black) else t;
    PlugRedBlack(p, t');
    PlugInorder(p, t);
    PlugInorder(p, t');
  }

  // ---------- a path made of two ----------

  /** `q` hung below `p`. */
  function Concat(q: Path, p: Path): Path {
    match q
    case Top => p
    case Step(d, x, c, sib, up) => Step(d, x, c, sib, Concat(up, p))
  }

  predicate AllLeft(q: Path) {
    q.Step? ==> q.d.Left? && AllLeft(q.up)
  }

  lemma {:induction false} ConcatPlug(q: Path, p: Path, t: Tree)
    ensures Plug(Concat(q, p), t) == Plug(p, Plug(q, t))
    decreases q
  {
    if q.Step? { ConcatPlug(q.up, p, Mk(q.d, t, q.x, q.c, q.sib)); }
  }

  lemma {:induction false} ConcatNodes(q: Path, p: Path)
    ensures PNodes(Concat(q, p)) == PNodes(q) + PNodes(p)
    ensures PDistinct(Concat(q, p)) <==> PDistinct(q) && PDistinct(p) && PNodes(q) !! PNodes(p)
    decreases q
  {
    if q.Step? { ConcatNodes(q.up, p); }
  }

  lemma {:induction false} ConcatInorder(q: Path, p: Path)
    requires AllLeft(q)
    ensures Before(Concat(q, p)) == Before(p) && After(Concat(q, p)) == After(q) + After(p)
    decreases q
  {
    if q.Step? {
      ConcatInorder(q.up, p);
      assert [q.x] + Inorder(q.sib) + (After(q.up) + After(p)) == [q.x] + Inorder(q.sib) + After(q.up) + After(p);
    }
  }

  /** Colour rules do not look at names. */
  lemma {:induction false} RenameColors(q: Path, p: Path, y: Addr, h: nat)
    requires p.Step?
    ensures PNoRedRed(Concat(q, p)) <==> PNoRedRed(Concat(q, p.(x := y)))
    ensures PBalanced(Concat(q, p), h) <==> PBalanced(Concat(q, p.(x := y)), h)
    decreases q
  {
    if q.Step? { RenameColors(q.up, p, y, h + Tall(q.c)); }
  }

  /** Taking out a node with two subtrees: its successor `y`, found at the end of
      the all-left path `q`, gets its place and colour, and `y`'s right subtree
      gets `y`'s place. */
  lemma {:induction false} SuccessorColors(q: Path, p: Path, y: Addr, cy: Color, s: Tree)
    requires p.Step? && RedBlack(Plug(Concat(q, p), T(Leaf, y, cy, s)))
    ensures if cy.Black? then Sinking(Concat(q, p.(x := y)), s) else RedBlack(Plug(Concat(q, p.(x := y)), s))
  {
    var p' := p.(x := y);
    PlugRedBlack(Concat(q, p), T(Leaf, y, cy, s));
    RenameColors(q, p, y, Bh(T(Leaf, y, cy, s)));
    assert !(IsRed(T(Leaf, y, cy, s)) && !RedFits(Concat(q, p')));
    PlugRedBlack(Concat(q, p'), T(Leaf, y, cy, s));
    SpliceColors(Concat(q, p'), T(Leaf, y, cy, s), s);
  }

  lemma {:induction false} SuccessorInorder(q: Path, p: Path, y: Addr, cy: Color, s: Tree)
    requires p.Step? && p.d.Right? && AllLeft(q)
    requires Distinct(Plug(Concat(q, p), T(Leaf, y, cy, s)))
    ensures Inorder(Plug(Concat(q, p.(x := y)), s)) == Remove(Inorder(Plug(Concat(q, p), T(Leaf, y, cy, s))), p.x)
  {
    var p', t := p.(x := y), T(Leaf, y, cy, s);
    PlugInorder(Concat(q, p), t);
    PlugInorder(Concat(q, p'), s);
    ConcatInorder(q, p);
    ConcatInorder(q, p');
    var b := Before(p.up) + Inorder(p.sib);
    var a := After(q) + After(p);
    assert p.x !in b by {
      PlugDistinct(Concat(q, p), t);
      ConcatNodes(q, p);
      PathInorderNodes(p.up);
      InorderNodes(p.sib);
    }
    assert Inorder(t) == [y] + Inorder(s);
    RemoveBeforeSuccessor(b, p.x, y, Inorder(s), a);
  }

  lemma {:induction false} RemoveBeforeSuccessor(b: seq<Addr>, x: Addr, y: Addr, s: seq<Addr>, a: seq<Addr>)
    requires x !in b
    ensures Remove(b + [x] + ([y] + s) + a, x) == b + [y] + s + a
  {
    var t := [y] + s;
    RemoveSplit(b, x, t + a);
    Associate(b + [x], t, a);
    Associate(b, [y], s);
    Associate(b, t, a);
  }

  lemma {:induction false} Associate(a: seq<Addr>, b: seq<Addr>, c: seq<Addr>)
    ensures a + b + c == a + (b + c)
  {
  }

  // ---------- neighbours in the in-order sequence ----------

  predicate NoRepeats(s: seq<Addr>) {
    forall i, j :: 0 <= i < j < |s| ==> s[i] != s[j]
  }

  lemma {:induction false} InorderNoRepeats(t: Tree)
    requires Distinct(t)
    ensures NoRepeats(Inorder(t))
  {
    if t.T? {
      InorderNoRepeats(t.left);
      InorderNoRepeats(t.right);
      InorderNodes(t.left);
      InorderNodes(t.right);
      var l, r := Inorder(t.left), Inorder(t.right);
      assert forall i :: 0 <= i < |l| ==> l[i] in Nodes(t.left);
      assert forall i :: 0 <= i < |r| ==> r[i] in Nodes(t.right);
      forall i, j | 0 <= i < j < |Inorder(t)| ensures Inorder(t)[i] != Inorder(t)[j] {
        assert Inorder(t)[i] == if i < |l| then l[i] else if i == |l| then t.x else r[i - |l| - 1];
        assert Inorder(t)[j] == if j < |l| then l[j] else if j == |l| then t.x else r[j - |l| - 1];
      }
    }
  }

  function IndexOf(s: seq<Addr>, x: Addr): (i: nat)
    requires x in s
    ensures i < |s| && s[i] == x
  {
    if s[0] == x then 0 else 1 + IndexOf(s[1..], x)
  }

  function FirstOf(s: seq<Addr>): Addr {
    if s == [] then NULL else s[0]
  }

  function LastOf(s: seq<Addr>): Addr {
    if s == [] then NULL else s[|s| - 1]
  }

  function EndOf(s: seq<Addr>, d: Side): Addr {
    if d.Left? then FirstOf(s) else LastOf(s)
  }

  /** The element after (`d` is Right) or before (Left) `x`, NULL at the end. */
  function Neighbor(s: seq<Addr>, x: Addr, d: Side): Addr
    requires x in s
  {
    var i := IndexOf(s, x);
    if d.Right? then FirstOf(s[i + 1..]) else LastOf(s[..i])
  }

  lemma {:induction false} NeighborAt(s: seq<Addr>, i: nat, d: Side)
    requires NoRepeats(s) && i < |s|
    ensures Neighbor(s, s[i], d) == if d.Right? then FirstOf(s[i + 1..]) else LastOf(s[..i])
  {
    assert IndexOf(s, s[i]) == i;
  }

  /** The `n`-th node met by starting at the first and going on to the next. */
  function Visit(s: seq<Addr>, n: nat): Addr {
    if n == 0 then FirstOf(s)
    else var x := Visit(s, n - 1); if x in s then Neighbor(s, x, Right) else NULL
  }

  /** First-then-next meets every node once, in order, and then stops. */
  lemma {:induction false} VisitsAll(s: seq<Addr>, n: nat)
    requires NoRepeats(s) && n <= |s| && NULL !in s
    ensures Visit(s, n) == if n < |s| then s[n] else NULL
  {
    if n > 0 {
      VisitsAll(s, n - 1);
      NeighborAt(s, n - 1, Right);
    }
  }

  /** Previous undoes next. */
  lemma {:induction false} VisitsBack(s: seq<Addr>, n: nat)
    requires NoRepeats(s) && 0 < n < |s| && NULL !in s
    ensures Visit(s, n) in s && Neighbor(s, Visit(s, n), Left) == Visit(s, n - 1)
  {
    VisitsAll(s, n);
    VisitsAll(s, n - 1);
    NeighborAt(s, n, Left);
  }

  /** One step of the traversal, and its end. */
  lemma {:induction false} VisitOn(s: seq<Addr>, n: nat)
    requires NoRepeats(s) && n <= |s| && NULL !in s
    ensures Visit(s, n) == NULL ==> n == |s| && s[..n] == s
    ensures Visit(s, n) != NULL ==>
              && n < |s| && Visit(s, n) in s && s[..n] + [Visit(s, n)] == s[..n + 1]
              && Neighbor(s, Visit(s, n), Right) == Visit(s, n + 1)
  {
    VisitsAll(s, n);
  }

  lemma {:induction false} NeighborBack(s: seq<Addr>, x: Addr, d: Side)
    requires NoRepeats(s) && x in s && Neighbor(s, x, d) != NULL
    ensures Neighbor(s, x, d) in s && Neighbor(s, Neighbor(s, x, d), Opp(d)) == x
  {
    var i := IndexOf(s, x);
    NeighborAt(s, if d.Right? then i + 1 else i - 1, Opp(d));
  }

  /** The in-order neighbour read off a position. */
  lemma {:induction false} NeighborOf(p: Path, u: Tree, d: Side)
    requires u.T? && Distinct(Plug(p, u))
    ensures u.x in Inorder(Plug(p, u))
    ensures Neighbor(Inorder(Plug(p, u)), u.x, d) ==
            if d.Right? then FirstOf(Inorder(u.right) + After(p)) else LastOf(Before(p) + Inorder(u.left))
  {
    var s, i := Inorder(Plug(p, u)), |Before(p) + Inorder(u.left)|;
    PlugInorder(p, u);
    InorderNoRepeats(Plug(p, u));
    var b, a := Before(p) + Inorder(u.left), Inorder(u.right) + After(p);
    assert s == b + [u.x] + a;
    Around(s, b, u.x, a);
    NeighborAt(s, i, d);
  }

  lemma {:induction false} Around(s: seq<Addr>, b: seq<Addr>, x: Addr, a: seq<Addr>)
    requires s == b + [x] + a
    ensures s[|b|] == x && s[|b| + 1..] == a && s[..|b|] == b
  {
  }

  // ---------- height ----------

  function Height(t: Tree): nat {
    match t
    case Leaf => 0
    case T(l, _, _, r) => 1 + if Height(l) < Height(r) then Height(r) else Height(l)
  }

  lemma {:induction false} BlackHeightBounds(t: Tree)
    requires Balanced(t) && NoRedRed(t)
    ensures Pow2(Bh(t)) <= |Inorder(t)| + 1
    ensures Height(t) <= 2 * Bh(t) + if IsRed(t) then 1 else 0
  {
    if t.T? {
      BlackHeightBounds(t.left);
      BlackHeightBounds(t.right);
    }
  }

  /** A red-black tree of n nodes has height at most 2*log2(n+1). */
  lemma {:induction false} HeightBound(t: Tree)
    requires RedBlack(t)
    ensures Pow2(Height(t)) <= (|Inorder(t)| + 1) * (|Inorder(t)| + 1)
  {
    BlackHeightBounds(t);
    Pow2Grows(Height(t), 2 * Bh(t));
    Pow2Double(Bh(t));
    Square(Pow2(Bh(t)), |Inorder(t)| + 1);
  }

  lemma {:induction false} PathHeight(p: Path, t: Tree)
    ensures Len(p) + Height(t) <= Height(Plug(p, t))
    decreases p
  {
    if p.Step? { PathHeight(p.up, Mk(p.d, t, p.x, p.c, p.sib)); }
  }
}
