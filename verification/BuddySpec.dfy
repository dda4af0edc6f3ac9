/** Blocks of the buddy allocator in kernel/kmalloc.c, and why its free lists are
    determined by the blocks in use.

    The kernel area is 56 MB, from 8 MB to 64 MB: 14336 pages of 4 KB, or seven
    blocks of the top order 11.  A block is known by its order and its number among
    the blocks of that order. */
module BuddySpec {
  import opened Powers

  const MAX_ORDER: nat := 11
  const TOP_BLOCKS: nat := 7
  const PAGES: nat := 14336

  datatype Block = Block(order: nat, index: nat)

  function Parent(b: Block): Block {
    Block(b.order + 1, b.index / 2)
  }

  function Buddy(b: Block): Block {
    Block(b.order, if b.index % 2 == 0 then b.index + 1 else b.index - 1)
  }

  function LeftHalf(b: Block): Block
    requires b.order > 0
  {
    Block(b.order - 1, 2 * b.index)
  }

  function RightHalf(b: Block): Block
    requires b.order > 0
  {
    Block(b.order - 1, 2 * b.index + 1)
  }

  /** Page number `p`, counted from the start of the area, lies in the block. */
  predicate Covers(b: Block, p: nat) {
    Shr(p, b.order) == b.index
  }

  predicate InArea(b: Block) {
    b.order <= MAX_ORDER && b.index < TOP_BLOCKS * Pow2(MAX_ORDER - b.order)
  }

  // ---------- nesting ----------

  predicate Inside(a: Block, b: Block) {
    a.order <= b.order && Shr(a.index, b.order - a.order) == b.index
  }

  lemma {:induction false} CoversInside(a: Block, b: Block, p: nat)
    requires Covers(a, p) && a.order <= b.order
    ensures Covers(b, p) <==> Inside(a, b)
  {
    ShrShr(p, a.order, b.order - a.order);
  }

  /** The first page of a block. */
  lemma {:induction false} FirstPage(b: Block) returns (p: nat)
    ensures Covers(b, p) && p == b.index * Pow2(b.order)
  {
    p := b.index * Pow2(b.order);
    ShrExact(b.index, b.order);
  }

  lemma {:induction false} PageInArea(b: Block, p: nat)
    requires InArea(b) && Covers(b, p)
    ensures p < PAGES
  {
    var rem := Dropped(p, b.order);
    Pow2Add(MAX_ORDER - b.order, b.order);
    AreaBound(b.index, Pow2(MAX_ORDER - b.order), Pow2(b.order), rem);
  }

  lemma {:induction false} AreaBound(i: nat, u: nat, s: nat, rem: nat)
    requires i < 7 * u && rem < s && u * s == 2048
    ensures i * s + rem < 14336
  {
    MulMono(i + 1, 7 * u, s, s);
    assert (i + 1) * s == i * s + s;
    assert 7 * u * s == 7 * (u * s);
  }

  lemma {:induction false} HalvesCover(b: Block, p: nat)
    requires b.order > 0
    ensures Covers(b, p) <==> Covers(LeftHalf(b), p) || Covers(RightHalf(b), p)
    ensures !(Covers(LeftHalf(b), p) && Covers(RightHalf(b), p))
  {
    ShrShr(p, b.order - 1, 1);
    assert Shr(p, b.order) == Shr(Shr(p, b.order - 1), 1) == Shr(Shr(p, b.order - 1) / 2, 0);
  }

  lemma {:induction false} HalvesInArea(b: Block)
    requires InArea(b) && b.order > 0
    ensures InArea(LeftHalf(b)) && InArea(RightHalf(b))
  {
  }

  lemma {:induction false} ParentInArea(b: Block)
    requires InArea(b) && b.order < MAX_ORDER
    ensures InArea(Parent(b)) && InArea(Buddy(b)) && Parent(Buddy(b)) == Parent(b)
    ensures b.index % 2 == 0 ==> LeftHalf(Parent(b)) == b && RightHalf(Parent(b)) == Buddy(b)
    ensures b.index % 2 == 1 ==> RightHalf(Parent(b)) == b && LeftHalf(Parent(b)) == Buddy(b)
  {
    var u := Pow2(MAX_ORDER - b.order - 1);
    assert Pow2(MAX_ORDER - b.order) == 2 * u;
    Halve(b.index, u);
  }

  lemma {:induction false} Halve(i: nat, u: nat)
    requires i < 14 * u
    ensures i / 2 < 7 * u && (i % 2 == 0 ==> i + 1 < 14 * u)
  {
  }

  // ---------- tilings ----------

  ghost predicate Covered(s: set<Block>, p: nat) {
    exists b :: b in s && Covers(b, p)
  }

  /** Every page of the area lies in exactly one of the blocks. */
  ghost predicate Tiling(s: set<Block>) {
    && (forall b :: b in s ==> InArea(b))
    && (forall p: nat :: p < PAGES ==> Covered(s, p))
    && (forall a, b, p: nat :: a in s && b in s && Covers(a, p) && Covers(b, p) ==> a == b)
  }

  /** Splitting a block of a tiling gives a tiling, and so does joining two halves. */
  lemma {:induction false} SplitTiling(s: set<Block>, b: Block)
    requires Tiling(s) && b in s && b.order > 0
    ensures LeftHalf(b) !in s && RightHalf(b) !in s && Tiling(s - {b} + {LeftHalf(b), RightHalf(b)})
  {
    var l, r := LeftHalf(b), RightHalf(b);
    var s' := s - {b} + {l, r};
    HalvesInArea(b);
    NotBoth(s, b, l);
    NotBoth(s, b, r);
    forall p: nat | p < PAGES ensures Covered(s', p) {
      assert Covered(s, p);
      var c :| c in s && Covers(c, p);
      HalvesCover(b, p);
      if c != b { assert c in s'; } else if Covers(l, p) { assert l in s'; } else { assert r in s'; }
    }
    forall a, c, p: nat | a in s' && c in s' && Covers(a, p) && Covers(c, p) ensures a == c {
      HalvesCover(b, p);
    }
  }

  /** A block of a tiling is not part of another one. */
  lemma {:induction false} NotBoth(s: set<Block>, b: Block, c: Block)
    requires Tiling(s) && b in s && c != b && Inside(c, b)
    ensures c !in s
  {
    if c in s {
      var p := FirstPage(c);
      CoversInside(c, b, p);
    }
  }

  lemma {:induction false} JoinTiling(s: set<Block>, b: Block)
    requires Tiling(s) && b.order > 0 && InArea(b) && LeftHalf(b) in s && RightHalf(b) in s
    ensures b !in s && Tiling(s - {LeftHalf(b), RightHalf(b)} + {b})
  {
    var l, r := LeftHalf(b), RightHalf(b);
    var s' := s - {l, r} + {b};
    if b in s {
      var p := FirstPage(l);
      HalvesCover(b, p);
    }
    forall p: nat | p < PAGES ensures Covered(s', p) {
      assert Covered(s, p);
      var c :| c in s && Covers(c, p);
      HalvesCover(b, p);
      if c == l || c == r { assert b in s'; } else { assert c in s'; }
    }
    forall a, c, p: nat | a in s' && c in s' && Covers(a, p) && Covers(c, p) ensures a == c {
      HalvesCover(b, p);
    }
  }

  // ---------- the allocator's invariant ----------

  /** Bit `index` of the bitmap of `order`: one for each pair of buddies. */
  datatype Pair = Pair(order: nat, index: nat)

  function PairOf(b: Block): Pair {
    Pair(b.order, b.index / 2)
  }

  /** Each bit of orders 0 to 10 says whether exactly one of its two blocks is free. */
  ghost predicate BitsMatch(bits: set<Pair>, free: set<Block>) {
    forall b :: InArea(b) && b.order < MAX_ORDER ==> (PairOf(b) in bits <==> ((b in free) != (Buddy(b) in free)))
  }

  /** No two buddies are both free: they would have been joined. */
  ghost predicate NoFreePair(free: set<Block>) {
    forall b :: b in free && b.order < MAX_ORDER ==> Buddy(b) !in free
  }

  /** Free and live blocks together tile the area, and free buddies are joined. */
  ghost predicate Sound(free: set<Block>, live: set<Block>) {
    free !! live && Tiling(free + live) && NoFreePair(free)
  }

  // ---------- the free blocks are determined by the live ones ----------

  /** No page of `b` is in use. */
  ghost predicate WhollyFree(live: set<Block>, b: Block) {
    InArea(b) && forall a, p: nat :: a in live && Covers(a, p) ==> !Covers(b, p)
  }

  /** A wholly free block that is not half of a larger one. */
  ghost predicate Maximal(live: set<Block>, b: Block) {
    WhollyFree(live, b) && (b.order < MAX_ORDER ==> !WhollyFree(live, Parent(b)))
  }

  /** Wholly free space always lies inside one free block: nothing is fragmented
      that could be joined. */
  lemma {:induction false} FreeBlockAround(free: set<Block>, live: set<Block>, b: Block) returns (f: Block)
    requires Sound(free, live) && WhollyFree(live, b)
    ensures f in free && Inside(b, f)
    decreases b.order
  {
    if b.order == 0 {
      var p := FirstPage(b);
      PageInArea(b, p);
      assert Covered(free + live, p);
      f :| f in free + live && Covers(f, p);
      CoversInside(b, f, p);
    } else {
      var l, r := LeftHalf(b), RightHalf(b);
      HalfWhollyFree(live, b);
      f := FreeBlockAround(free, live, l);
      var g := FreeBlockAround(free, live, r);
      if f.order >= b.order {
        HalfInside(b, f);
      } else {
        if g.order >= b.order {
          HalfInside(b, g);
          f := g;
        } else {
          assert false;
        }
      }
    }
  }

  lemma {:induction false} HalfWhollyFree(live: set<Block>, b: Block)
    requires WhollyFree(live, b) && b.order > 0
    ensures WhollyFree(live, LeftHalf(b)) && WhollyFree(live, RightHalf(b))
  {
    HalvesInArea(b);
    forall a, p: nat | a in live && Covers(a, p) ensures !Covers(LeftHalf(b), p) && !Covers(RightHalf(b), p) {
      HalvesCover(b, p);
    }
  }

  lemma {:induction false} HalfInside(b: Block, f: Block)
    requires b.order > 0 && f.order >= b.order
    ensures Inside(LeftHalf(b), f) <==> Inside(b, f)
    ensures Inside(RightHalf(b), f) <==> Inside(b, f)
  {
    assert Shr(2 * b.index, f.order - b.order + 1) == Shr(b.index, f.order - b.order);
    assert Shr(2 * b.index + 1, f.order - b.order + 1) == Shr(b.index, f.order - b.order);
  }

  lemma {:induction false} InsideWhollyFree(free: set<Block>, live: set<Block>, f: Block, b: Block)
    requires Sound(free, live) && f in free && Inside(b, f) && InArea(b)
    ensures WhollyFree(live, b)
  {
    forall a, p: nat | a in live && Covers(a, p) ensures !Covers(b, p) {
      assert a in free + live && f in free + live;
      if Covers(b, p) {
        CoversInside(b, f, p);
      }
    }
  }

  /** The free blocks are exactly the maximal wholly free ones. */
  lemma {:induction false} FreeIsMaximal(free: set<Block>, live: set<Block>, b: Block)
    requires Sound(free, live)
    ensures b in free <==> Maximal(live, b)
  {
    if b in free {
      assert b in free + live;
      InsideWhollyFree(free, live, b, b);
      if b.order < MAX_ORDER && WhollyFree(live, Parent(b)) {
        var f := FreeBlockAround(free, live, Parent(b));
        InsideParent(b, f);
        NotBoth(free + live, f, b);
      }
    }
    if Maximal(live, b) {
      var f := FreeBlockAround(free, live, b);
      if f != b {
        assert f in free + live;
        InsideParent(b, f);
        ParentInArea(b);
        InsideWhollyFree(free, live, f, Parent(b));
      }
    }
  }

  lemma {:induction false} InsideParent(b: Block, f: Block)
    ensures f.order > b.order ==> (Inside(b, f) <==> Inside(Parent(b), f))
  {
    if f.order > b.order {
      ShrShr(b.index, 1, f.order - b.order - 1);
      assert Shr(b.index, 1) == b.index / 2;
    }
  }

  /** So the free lists, as sets, are a function of the blocks in use: whatever was
      allocated and freed on the way, in whatever order, does not matter. */
  lemma {:induction false} FreeIsCanonical(free: set<Block>, free': set<Block>, live: set<Block>)
    requires Sound(free, live) && Sound(free', live)
    ensures free == free'
  {
    forall b ensures b in free <==> b in free' {
      FreeIsMaximal(free, live, b);
      FreeIsMaximal(free', live, b);
    }
  }

  /** The blocks the allocator starts with. */
  ghost function TopBlocks(): set<Block> {
    set i | 0 <= i < TOP_BLOCKS :: Block(MAX_ORDER, i)
  }

  lemma {:induction false} InitiallySound()
    ensures Sound(TopBlocks(), {}) && BitsMatch({}, TopBlocks())
  {
    var s := TopBlocks() + {};
    forall p: nat | p < PAGES ensures Covered(s, p) {
      var rem := Dropped(p, 11);
      assert Pow2(11) == 2048;
      var b := Block(MAX_ORDER, Shr(p, 11));
      assert b in s && Covers(b, p);
    }
  }

  /** Once everything is freed, in any order, the seven top blocks are back. */
  lemma {:induction false} AllFreed(free: set<Block>)
    requires Sound(free, {})
    ensures free == TopBlocks()
  {
    InitiallySound();
    FreeIsCanonical(free, TopBlocks(), {});
  }

  // ---------- a block in hand ----------

  /** In the middle of an operation: `hand` is neither free nor live. */
  ghost predicate InHand(free: set<Block>, live: set<Block>, hand: Block) {
    && free !! live && hand !in free && hand !in live
    && Tiling(free + live + {hand}) && NoFreePair(free)
  }

  /** The bitmap after flipping one bit. */
  function Flip(bits: set<Pair>, p: Pair): set<Pair> {
    if p in bits then bits - {p} else bits + {p}
  }

  lemma {:induction false} SamePair(a: Block, b: Block)
    ensures PairOf(a) == PairOf(b) <==> a == b || a == Buddy(b)
    ensures Buddy(Buddy(a)) == a && PairOf(Buddy(a)) == PairOf(a) && Buddy(a) != a
  {
  }

  /** Adding or removing one free block flips exactly its bit. */
  lemma {:induction false} FlipMatches(bits: set<Pair>, free: set<Block>, free': set<Block>, b: Block)
    requires BitsMatch(bits, free) && b.order < MAX_ORDER && InArea(b)
    requires forall c: Block :: c != b ==> (c in free <==> c in free')
    requires b in free <==> b !in free'
    ensures BitsMatch(Flip(bits, PairOf(b)), free')
  {
    forall c | InArea(c) && c.order < MAX_ORDER
      ensures PairOf(c) in Flip(bits, PairOf(b)) <==> ((c in free') != (Buddy(c) in free'))
    {
      SamePair(c, b);
      SamePair(b, c);
    }
  }

  /** Changes at the top order touch no bit. */
  lemma {:induction false} TopMatches(bits: set<Pair>, free: set<Block>, free': set<Block>)
    requires BitsMatch(bits, free)
    requires forall c: Block :: c.order < MAX_ORDER ==> (c in free <==> c in free')
    ensures BitsMatch(bits, free')
  {
  }

  /** A pair that becomes free as a whole keeps its bit. */
  lemma {:induction false} PairMatches(bits: set<Pair>, free: set<Block>, b: Block)
    requires BitsMatch(bits, free) && b !in free && Buddy(b) !in free
    ensures BitsMatch(bits, free + {b, Buddy(b)})
  {
    forall c | InArea(c) && c.order < MAX_ORDER
      ensures PairOf(c) in bits <==> ((c in free + {b, Buddy(b)}) != (Buddy(c) in free + {b, Buddy(b)}))
    {
      SamePair(c, b);
      SamePair(b, c);
    }
  }

  /** Splitting the block in hand: its right half becomes free, its left half is in hand. */
  lemma {:induction false} SplitHand(free: set<Block>, live: set<Block>, hand: Block)
    requires InHand(free, live, hand) && hand.order > 0
    ensures var l, r := LeftHalf(hand), RightHalf(hand);
            l !in free && r !in free && r !in live && InArea(r) && InHand(free + {r}, live, l) && Buddy(l) == r
  {
    var l, r, s := LeftHalf(hand), RightHalf(hand), free + live + {hand};
    SplitTiling(s, hand);
    assert s - {hand} + {l, r} == (free + {r}) + live + {l};
    HalvesInArea(hand);
    forall b | b in free + {r} && b.order < MAX_ORDER ensures Buddy(b) !in free + {r} {
      SamePair(b, r);
    }
  }

  /** Joining the block in hand with its free buddy: the whole is in hand. */
  lemma {:induction false} JoinHand(free: set<Block>, live: set<Block>, hand: Block)
    requires InHand(free, live, hand) && hand.order < MAX_ORDER && Buddy(hand) in free
    ensures InHand(free - {Buddy(hand)}, live, Parent(hand)) && InArea(Parent(hand))
  {
    var s, p, b := free + live + {hand}, Parent(hand), Buddy(hand);
    ParentInArea(hand);
    JoinTiling(s, p);
    assert s - {LeftHalf(p), RightHalf(p)} + {p} == (free - {b}) + live + {p};
  }

  /** Putting the block in hand on the free list. */
  lemma {:induction false} DropHand(free: set<Block>, live: set<Block>, hand: Block)
    requires InHand(free, live, hand) && (hand.order < MAX_ORDER ==> Buddy(hand) !in free)
    ensures Sound(free + {hand}, live) && InArea(hand)
  {
    assert (free + {hand}) + live == free + live + {hand};
    forall b | b in free + {hand} && b.order < MAX_ORDER ensures Buddy(b) !in free + {hand} {
      SamePair(b, hand);
    }
  }

  /** Taking a block off its free list. */
  lemma {:induction false} TakeHand(free: set<Block>, live: set<Block>, hand: Block)
    requires Sound(free, live) && hand in free
    ensures InHand(free - {hand}, live, hand)
  {
    assert (free - {hand}) + live + {hand} == free + live;
  }

  /** Handing the block over, and taking it back. */
  lemma {:induction false} GiveHand(free: set<Block>, live: set<Block>, hand: Block)
    ensures InHand(free, live, hand) ==> Sound(free, live + {hand})
    ensures Sound(free, live) && hand in live ==> InHand(free, live - {hand}, hand)
  {
    assert free + (live + {hand}) == free + live + {hand};
    if hand in live { assert free + (live - {hand}) + {hand} == free + live; }
  }
}
