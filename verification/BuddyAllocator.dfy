/** The page allocator of kernel/kmalloc.c: `get_page` and `free_page` on free
    lists and one bit for each pair of buddies.  Addresses are byte addresses;
    dividing by a block size, a power of two, is shifting. */
module BuddyAllocator {
  import opened Powers
  import opened BuddySpec
  import FreeRing

  const NULL: nat := 0
  const START: nat := 0x80_0000
  const END: nat := 0x400_0000

  /** Bytes of a pair of order-`k` blocks. */
  function BuddySize(k: nat): nat {
    Pow2(13 + k)
  }

  function Addr(b: Block): (a: nat)
    ensures a >= START
  {
    START + b.index * Pow2(12 + b.order)
  }

  function BlockAt(k: nat, a: nat): Block
    requires a >= START
  {
    Block(k, Shr(a - START, 12 + k))
  }

  /** The two divisions of the source: the number of a block, and of its pair. */
  lemma {:induction false} AddrIndex(b: Block)
    ensures BlockAt(b.order, Addr(b)) == b
    ensures Shr(Addr(b) - START, 13 + b.order) == b.index / 2
  {
    ShrExact(b.index, 12 + b.order);
    ShrCancel(b.index, 1, 12 + b.order);
    assert Shr(b.index, 1) == b.index / 2;
  }

  /** The address arithmetic of splitting and joining. */
  lemma {:induction false} AddrHalves(b: Block)
    requires b.order > 0
    ensures Addr(LeftHalf(b)) == Addr(b) && Addr(RightHalf(b)) == Addr(b) + BuddySize(b.order) / 4
  {
    var s := Pow2(11 + b.order);
    assert Pow2(12 + b.order) == 2 * s && Pow2(13 + b.order) == 4 * s;
    HalfOffsets(b.index, s);
  }

  lemma {:induction false} HalfOffsets(i: nat, s: nat)
    ensures (2 * i) * s == i * (2 * s) && (2 * i + 1) * s == i * (2 * s) + s
  {
  }

  lemma {:induction false} AddrBuddy(b: Block)
    ensures Addr(Buddy(b)) == if b.index % 2 == 0 then Addr(b) + BuddySize(b.order) / 2
            else Addr(b) - BuddySize(b.order) / 2
  {
    var s := Pow2(12 + b.order);
    assert BuddySize(b.order) == 2 * s;
    NextOffset(b.index, s);
    if b.index > 0 { NextOffset(b.index - 1, s); }
  }

  lemma {:induction false} NextOffset(i: nat, s: nat)
    ensures (i + 1) * s == i * s + s
  {
  }

  // ---------- free lists ----------

  /** `l` holds exactly the addresses of the free blocks of order `k`, each once. */
  ghost predicate ListOk(k: nat, l: seq<nat>, free: set<Block>) {
    && (forall b :: b in free && b.order == k ==> Addr(b) in l)
    && (forall a :: a in l ==> a >= START && BlockAt(k, a) in free && Addr(BlockAt(k, a)) == a)
    && (forall i, j :: 0 <= i < j < |l| ==> l[i] != l[j])
  }

  ghost predicate Listed(lists: seq<seq<nat>>, free: set<Block>) {
    && |lists| == MAX_ORDER + 1
    && (forall b :: b in free ==> InArea(b))
    && (forall k :: 0 <= k <= MAX_ORDER ==> ListOk(k, lists[k], free))
  }

  /** Lists of other orders do not notice. */
  lemma {:induction false} ListFrame(k: nat, l: seq<nat>, free: set<Block>, free': set<Block>)
    requires ListOk(k, l, free) && forall b: Block :: b.order == k ==> (b in free <==> b in free')
    ensures ListOk(k, l, free')
  {
  }

  lemma {:induction false} ListedPush(lists: seq<seq<nat>>, free: set<Block>, b: Block)
    requires Listed(lists, free) && InArea(b) && b !in free
    ensures Listed(lists[b.order := lists[b.order] + [Addr(b)]], free + {b})
  {
    var lists' := lists[b.order := lists[b.order] + [Addr(b)]];
    forall k | 0 <= k <= MAX_ORDER ensures ListOk(k, lists'[k], free + {b}) {
      if k == b.order {
        PushOk(k, lists[k], free, b, Addr(b));
      } else {
        ListFrame(k, lists[k], free, free + {b});
      }
    }
  }

  lemma {:induction false} PushOk(k: nat, l: seq<nat>, free: set<Block>, b: Block, a: nat)
    requires ListOk(k, l, free) && b !in free && b.order == k && a == Addr(b)
    ensures ListOk(k, l + [a], free + {b})
  {
    AddrIndex(b);
    assert a !in l;
    assert (l + [a])[|l|] == a;
  }

  lemma {:induction false} ListedRemove(lists: seq<seq<nat>>, free: set<Block>, k: nat, j: nat)
    requires Listed(lists, free) && k <= MAX_ORDER && j < |lists[k]| && lists[k][j] >= START
    ensures Listed(lists[k := Without(lists[k], j)], free - {BlockAt(k, lists[k][j])})
  {
    var b := BlockAt(k, lists[k][j]);
    var lists' := lists[k := Without(lists[k], j)];
    forall m | 0 <= m <= MAX_ORDER ensures ListOk(m, lists'[m], free - {b}) {
      if m == k {
        RemoveOk(k, lists[k], free, j);
      } else {
        ListFrame(m, lists[m], free, free - {b});
      }
    }
  }

  function Without(l: seq<nat>, j: nat): seq<nat>
    requires j < |l|
  {
    l[..j] + l[j + 1..]
  }

  lemma {:induction false} WithoutIs(l: seq<nat>, j: nat)
    requires j < |l| && forall i, m :: 0 <= i < m < |l| ==> l[i] != l[m]
    ensures forall a :: a in Without(l, j) <==> a in l && a != l[j]
    ensures forall i, m :: 0 <= i < m < |Without(l, j)| ==> Without(l, j)[i] != Without(l, j)[m]
  {
    var w := Without(l, j);
    assert forall i :: 0 <= i < |w| ==> w[i] == l[if i < j then i else i + 1];
    forall a | a in l && a != l[j] ensures a in w {
      var i :| 0 <= i < |l| && l[i] == a;
      assert w[if i < j then i else i - 1] == a;
    }
  }

  lemma {:induction false} RemoveOk(k: nat, l: seq<nat>, free: set<Block>, j: nat)
    requires ListOk(k, l, free) && j < |l| && l[j] >= START
    ensures ListOk(k, Without(l, j), free - {BlockAt(k, l[j])})
  {
    var b, w := BlockAt(k, l[j]), Without(l, j);
    WithoutIs(l, j);
    assert l[j] in l;
    forall c | c in free - {b} && c.order == k ensures Addr(c) in w {
      AddrIndex(c);
    }
    forall a | a in w ensures a >= START && BlockAt(k, a) in free - {b} && Addr(BlockAt(k, a)) == a {
      assert a in l && a != l[j];
    }
  }

  /** A block of the tiling that is not free is on no list: its address is its own. */
  lemma {:induction false} NewAddress(lists: seq<seq<nat>>, free: set<Block>, b: Block, s: set<Block>)
    requires Listed(lists, free) && Tiling(s) && free <= s && b in s && b !in free
    ensures FreeRing.Unlisted(lists, Addr(b))
  {
    forall k | 0 <= k < |lists| ensures Addr(b) !in lists[k] {
      assert ListOk(k, lists[k], free);
      if Addr(b) in lists[k] {
        SameStart(BlockAt(k, Addr(b)), b, s);
      }
    }
  }

  lemma {:induction false} SameStart(c: Block, b: Block, s: set<Block>)
    requires Tiling(s) && c in s && b in s && Addr(c) == Addr(b)
    ensures c == b
  {
    var p := FirstPage(c);
    var q := FirstPage(b);
    StartPage(c, p);
    StartPage(b, q);
    assert p == q;
  }

  lemma {:induction false} StartPage(b: Block, p: nat)
    requires p == b.index * Pow2(b.order)
    ensures Addr(b) == START + p * 4096
  {
    assert Pow2(12) == 4096 by { Pow2Values(); Pow2Add(10, 2); assert Pow2(2) == 4; }
    Pow2Add(b.order, 12);
    Regroup(b.index, Pow2(b.order), 4096, Pow2(12 + b.order));
  }

  lemma {:induction false} Regroup(i: nat, x: nat, y: nat, xy: nat)
    requires xy == x * y
    ensures i * xy == i * x * y
  {
  }

  // ---------- memory in use ----------

  /** The page an address lies in, counted from the start of the area. */
  function PageOf(a: nat): nat
    requires a >= START
  {
    (a - START) / 4096
  }

  /** Bytes of a block. */
  function Bytes(b: Block): nat {
    Pow2(12 + b.order)
  }

  /** A block of the area is `4096 * 2^order` bytes between 8 MB and 64 MB, a multiple of
      its size from the start. */
  lemma {:induction false} BlockInRange(b: Block)
    requires InArea(b)
    ensures START <= Addr(b) && Addr(b) + Bytes(b) <= END && Addr(b) - START == b.index * Bytes(b)
    ensures Bytes(b) == 4096 * Pow2(b.order)
  {
    PageBytes(b.order);
    AreaBytes(b.order);
    MulMono(b.index + 1, TOP_BLOCKS * Pow2(MAX_ORDER - b.order), Bytes(b), Bytes(b));
    NextOffset(b.index, Bytes(b));
  }

  /** Its pages are the pages of those bytes: blocks that share no page share no byte. */
  lemma {:induction false} BlockPages(b: Block, a: nat)
    requires a >= START
    ensures Covers(b, PageOf(a)) <==> Addr(b) <= a < Addr(b) + Bytes(b)
  {
    PageBytes(b.order);
    var p := PageOf(a);
    var rem := Dropped(p, b.order);
    InBlock(a - START, p, Shr(p, b.order), rem, Pow2(b.order), b.index);
  }

  lemma {:induction false} PageBytes(order: nat)
    ensures Pow2(12 + order) == 4096 * Pow2(order)
  {
    assert Pow2(12) == 4096 by { Pow2Values(); Pow2Add(10, 2); assert Pow2(2) == 4; }
    Pow2Add(12, order);
  }

  lemma {:induction false} AreaBytes(order: nat)
    requires order <= MAX_ORDER
    ensures TOP_BLOCKS * Pow2(MAX_ORDER - order) * Pow2(12 + order) == END - START
  {
    Pow2Add(MAX_ORDER - order, 12 + order);
    TopAddr(1);
    assert Pow2(23) == 0x80_0000;
    Regroup(TOP_BLOCKS, Pow2(MAX_ORDER - order), Pow2(12 + order), Pow2(23));
  }

  /** Byte `x` is on page `p`, which is page `rem` of block `q` of `size` pages. */
  lemma {:induction false} InBlock(x: nat, p: nat, q: nat, rem: nat, size: nat, index: nat)
    requires p == x / 4096 && p == q * size + rem && rem < size
    ensures q == index <==> index * (4096 * size) <= x < index * (4096 * size) + 4096 * size
  {
    var y := q * (4096 * size);
    assert y == 4096 * (q * size);
    assert y <= x < y + 4096 * size;
    if q < index { MulMono(q + 1, index, 4096 * size, 4096 * size); NextOffset(q, 4096 * size); }
    if index < q { MulMono(index + 1, q, 4096 * size, 4096 * size); NextOffset(index, 4096 * size); }
  }

  /** The address lies in a block that is in use. */
  ghost predicate InUse(live: set<Block>, a: nat) {
    a >= START && exists b :: b in live && Covers(b, PageOf(a))
  }

  /** No entry of a free list lies in a block that is in use. */
  lemma {:induction false} ListsNotInUse(lists: seq<seq<nat>>, free: set<Block>, live: set<Block>, k: nat, a: nat)
    requires Listed(lists, free) && Sound(free, live) && k < |lists| && a in lists[k]
    ensures !InUse(live, a)
  {
    assert ListOk(k, lists[k], free);
    var c := BlockAt(k, a);
    var p := FirstPage(c);
    StartPage(c, p);
    assert PageOf(a) == p;
    assert c in free + live;
  }

  /** Whatever the owners of the blocks in use write into them, the free lists are as
      they were. */
  lemma {:induction false} OwnersWrite(mem: FreeRing.Mem, mem': FreeRing.Mem, lists: seq<seq<nat>>, free: set<Block>,
                                       live: set<Block>)
    requires Listed(lists, free) && FreeRing.Linked(mem, lists) && Sound(free, live)
    requires forall a {:trigger FreeRing.Get(mem', a)} ::
               !InUse(live, a) ==> FreeRing.Get(mem', a) == FreeRing.Get(mem, a)
    ensures FreeRing.Linked(mem', lists)
  {
    forall k, a | 0 <= k < |lists| && a in lists[k] ensures FreeRing.Get(mem', a) == FreeRing.Get(mem, a) {
      ListsNotInUse(lists, free, live, k, a);
    }
    FreeRing.SameNodes(mem, mem', lists);
  }

  class Allocator {
    /** Memory, as far as it holds the links of the free lists. */
    var mem: FreeRing.Mem
    /** `free_area[k].free_list`, oldest first, for orders 0 to 11. */
    ghost var lists: seq<seq<nat>>
    /** The bits that are set, of the bitmaps of orders 0 to 10. */
    var bits: set<Pair>
    ghost var free: set<Block>
    ghost var live: set<Block>

    /** The rings in memory list the free blocks. */
    ghost predicate Ready()
      reads this
    {
      Listed(lists, free) && FreeRing.Linked(mem, lists)
    }

    ghost predicate Valid()
      reads this
    {
      Ready() && BitsMatch(bits, free) && Sound(free, live)
    }

    /** `kmalloc_init`, up to the slab layer. */
    constructor (memory: FreeRing.Mem)
      ensures Valid() && live == {} && free == TopBlocks()
    {
      mem := memory;
      lists := FreeRing.NoLists();
      bits := {};
      live := {};
      free := {};
      new;
      mem := FreeRing.InitLists(mem);
      InitiallySound();
      assert TopBlocks() + {} == TopBlocks();
      var i := START;
      ghost var n := 0;
      while i < END
        invariant n <= TOP_BLOCKS && i == START + n * 0x80_0000
        invariant free == set j | 0 <= j < n :: Block(MAX_ORDER, j)
        invariant Ready() && bits == {} && live == {}
        decreases END - i
      {
        TopAddr(n);
        ghost var b := Block(MAX_ORDER, n);
        TopIsNew(free, n);
        NewAddress(lists, free, b, TopBlocks());
        StoreAddr(i);
        Push(MAX_ORDER, i, b);
        i := i + BuddySize(MAX_ORDER - 1);
        n := n + 1;
      }
    }

    /** `b->addr = (uint32_t)b`. */
    method StoreAddr(a: nat)
      requires Ready()
      modifies this`mem
      ensures Ready() && FreeRing.Get(mem, a).addr == a
    {
      FreeRing.AddrStored(mem, lists, a);
      mem := FreeRing.SetAddr(mem, a);
    }

    /** `free_list_push`. */
    method Push(k: nat, a: nat, ghost b: Block)
      requires Ready() && InArea(b) && b !in free && b.order == k && a == Addr(b)
      requires FreeRing.Get(mem, a).addr == a && FreeRing.Unlisted(lists, a)
      modifies this`mem, this`lists, this`free
      ensures Ready() && free == old(free) + {b}
    {
      ListedPush(lists, free, b);
      mem := FreeRing.PushList(mem, k, a, lists);
      lists := lists[k := lists[k] + [a]];
      free := free + {b};
    }

    /** `free_list_pop`: the oldest entry, or NULL. */
    method Pop(k: nat) returns (a: nat, ghost b: Block)
      requires Ready() && k <= MAX_ORDER
      modifies this`mem, this`lists, this`free
      ensures Ready()
      ensures a == NULL ==> free == old(free) && forall c :: c in free ==> c.order != k
      ensures a != NULL ==> b in old(free) && b.order == k && a == Addr(b) && free == old(free) - {b}
    {
      b := Block(0, 0);
      mem, a := FreeRing.PopList(mem, k, lists);
      assert ListOk(k, lists[k], free);
      if a == NULL {
        return;
      }
      assert a in lists[k];
      b := BlockAt(k, a);
      ListedRemove(lists, free, k, 0);
      assert Without(lists[k], 0) == lists[k][1..];
      lists := lists[k := lists[k][1..]];
      free := free - {b};
    }

    /** `flip_bit_map`. */
    method FlipBit(a: nat, order: nat, ghost b: Block)
      requires a == Addr(b) && order == b.order
      modifies this`bits
      ensures bits == Flip(old(bits), PairOf(b))
    {
      AddrIndex(b);
      bits := Flip(bits, Pair(order, Shr(a - START, 13 + order)));
    }

    /** `is_split`. */
    method IsSplit(a: nat, order: nat, ghost b: Block) returns (r: bool)
      requires a == Addr(b) && order == b.order
      ensures r == (PairOf(b) in bits)
    {
      AddrIndex(b);
      r := Pair(order, Shr(a - START, 13 + order)) in bits;
    }

    /** `buddy_split`: cuts the block in hand down to order `tar`, freeing the right
        halves; the bit of the block in hand still counts it as free. */
    method BuddySplit(a: nat, cur: nat, tar: nat, ghost hand: Block) returns (r: nat, ghost b: Block)
      requires Ready() && InHand(free, live, hand) && BitsMatch(bits, free + {hand})
      requires a == Addr(hand) && cur == hand.order && tar <= cur <= MAX_ORDER && tar < MAX_ORDER
      modifies this`mem, this`lists, this`free, this`bits
      ensures Ready() && InHand(free, live, b) && BitsMatch(bits, free)
      ensures r == Addr(b) && b.order == tar && Inside(b, hand)
      decreases cur
    {
      var a2 := a + BuddySize(cur) / 4;
      StoreAddr(a2);
      assert InArea(hand) by { assert hand in free + live + {hand}; }
      if cur == tar {
        FlipMatches(bits, free + {hand}, free, hand);
        FlipBit(a, cur, hand);
        return a, hand;
      }
      if cur != MAX_ORDER {
        FlipMatches(bits, free + {hand}, free, hand);
        FlipBit(a, cur, hand);
      } else {
        TopMatches(bits, free + {hand}, free);
      }
      ghost var left, right := LeftHalf(hand), RightHalf(hand);
      SplitHand(free, live, hand);
      AddrHalves(hand);
      PairMatches(bits, free, left);
      NewAddress(lists, free, right, free + {right} + live + {left});
      Push(cur - 1, a2, right);
      assert free + {left} == old(free) + {left, right};
      r, b := BuddySplit(a, cur - 1, tar, left);
      InsideParent(b, hand);
      InsideHalf(b, hand);
    }

    /** The tail of `get_page`: the popped block is cut down and handed out. */
    method Carve(a: nat, i: nat, order: nat, ghost hand: Block, ghost was: set<Block>) returns (r: nat, ghost b: Block)
      requires Ready() && BitsMatch(bits, was) && Sound(was, live) && hand in was && free == was - {hand}
      requires a == Addr(hand) && i == hand.order && order <= i <= MAX_ORDER && order < MAX_ORDER
      modifies this
      ensures Valid() && r == Addr(b) && b.order == order && WhollyFree(old(live), b) && live == old(live) + {b}
      ensures r != NULL && CanServe(old(live), order) && Inside(b, hand)
    {
      TakeHand(was, live, hand);
      assert free + {hand} == was;
      r, b := BuddySplit(a, i, order, hand);
      GiveHand(free, live, b);
      assert InArea(b) by { assert b in free + live + {b}; }
      InsideWhollyFree(was, live, hand, b);
      Served(live, order, b);
      live := live + {b};
    }

    /** `get_page`: a block of the asked order out of the smallest free block that
        has one, or NULL exactly when the order is out of range or no wholly free
        block of that order is left. */
    method GetPage(order: int) returns (r: nat, ghost b: Block)
      requires Valid()
      modifies this
      ensures Valid()
      ensures r == NULL <==> !CanServe(old(live), order)
      ensures r == NULL ==> free == old(free) && live == old(live)
      ensures r != NULL ==> r == Addr(b) && b.order == order && WhollyFree(old(live), b) && live == old(live) + {b}
      ensures r != NULL ==>
                exists f :: f in old(free) && Inside(b, f)
                            && forall c :: c in old(free) && order <= c.order ==> f.order <= c.order
    {
      r, b := NULL, Block(0, 0);
      if order >= MAX_ORDER || order < 0 {
        return;
      }
      var i := order;
      while i <= MAX_ORDER
        invariant order <= i <= MAX_ORDER + 1 && Valid() && free == old(free) && live == old(live)
        invariant forall c :: c in free && order <= c.order ==> i <= c.order
        decreases MAX_ORDER + 1 - i
      {
        var a;
        ghost var hand;
        a, hand := Pop(i);
        if a != NULL {
          assert forall c :: c in old(free) && order <= c.order ==> hand.order <= c.order;
          r, b := Carve(a, i, order, hand, old(free));
          return;
        }
        i := i + 1;
      }
      NoneToServe(free, live, order);
    }

    /** `is_left_buddy` and the address of the other half. */
    static method BuddyAddr(a: nat, order: nat, ghost hand: Block) returns (left: bool, a2: nat)
      requires a == Addr(hand) && order == hand.order
      ensures a2 == Addr(Buddy(hand)) && Addr(Parent(hand)) == if left then a else a2
    {
      AddrIndex(hand);
      AddrBuddy(hand);
      AddrParent(hand);
      left := Shr(a - START, 12 + order) % 2 == 0;
      a2 := if left then a + BuddySize(order) / 2 else a - BuddySize(order) / 2;
    }

    /** `remove_from_free`: takes the buddy of `a` off its free list, where it must
        be, and yields the left one of the two. */
    method RemoveFromFree(a: nat, order: nat, ghost hand: Block) returns (t: nat)
      requires Ready() && a == Addr(hand) && order == hand.order && order < MAX_ORDER && Buddy(hand) in free
      requires FreeRing.Get(mem, a).addr == a
      modifies this`mem, this`lists, this`free
      ensures Ready() && free == old(free) - {Buddy(hand)} && t == Addr(Parent(hand))
      ensures FreeRing.Get(mem, t).addr == t
    {
      var left, a2 := BuddyAddr(a, order, hand);
      assert ListOk(order, lists[order], free);
      AddrIndex(Buddy(hand));
      ghost var j;
      mem, t, j := FreeRing.TakeFrom(mem, order, a2, lists);
      ListedRemove(lists, free, order, j);
      lists := lists[order := Without(lists[order], j)];
      free := free - {Buddy(hand)};
      t := if left then a else t;
    }

    /** `_free_page`: the block in hand is freed, joined with its buddy as long as
        that is free. */
    method FreeBlock(a: nat, order: nat, ghost hand: Block)
      requires Ready() && InHand(free, live, hand) && BitsMatch(bits, free)
      requires a == Addr(hand) && order == hand.order && order <= MAX_ORDER && FreeRing.Get(mem, a).addr == a
      modifies this`mem, this`lists, this`free, this`bits
      ensures Valid()
      decreases MAX_ORDER - order
    {
      assert InArea(hand) by { assert hand in free + live + {hand}; }
      NewAddress(lists, free, hand, free + live + {hand});
      if order == MAX_ORDER {
        DropHand(free, live, hand);
        TopMatches(bits, free, free + {hand});
        Push(order, a, hand);
        return;
      }
      var split := IsSplit(a, order, hand);
      if !split {
        DropHand(free, live, hand);
        FlipMatches(bits, free, free + {hand}, hand);
        Push(order, a, hand);
        FlipBit(a, order, hand);
      } else {
        SamePair(hand, hand);
        ParentInArea(hand);
        FlipMatches(bits, free, free - {Buddy(hand)}, Buddy(hand));
        FlipBit(a, order, hand);
        JoinHand(free, live, hand);
        var t := RemoveFromFree(a, order, hand);
        FreeBlock(t, order + 1, Parent(hand));
      }
    }

    /** `free_page` on a block that `get_page` gave out. */
    method FreePage(a: nat, order: nat, ghost b: Block)
      requires Valid() && b in live && a == Addr(b) && order == b.order
      modifies this
      ensures Valid() && live == old(live) - {b}
    {
      GiveHand(free, live, b);
      assert InArea(b) by { assert b in free + live; }
      StoreAddr(a);
      live := live - {b};
      FreeBlock(a, order, b);
    }

    /** The owner of a block in use writes into it. */
    method OwnerWrites(a: nat, node: FreeRing.Node)
      requires Valid() && InUse(live, a)
      modifies this`mem
      ensures Valid() && mem == old(mem)[a := node]
    {
      OwnersWrite(mem, mem[a := node], lists, free, live);
      mem := mem[a := node];
    }

    /** Getting a page and freeing it again leaves the free lists, as sets, as they were. */
    method GetThenFree(order: int)
      requires Valid()
      modifies this
      ensures Valid() && live == old(live) && free == old(free)
    {
      var a;
      ghost var b;
      a, b := GetPage(order);
      if a != NULL {
        assert b !in old(live) by { WhollyFreeIsNew(old(live), b); }
        FreePage(a, order, b);
        FreeIsCanonical(free, old(free), live);
      }
    }
  }

  lemma {:induction false} WhollyFreeIsNew(live: set<Block>, b: Block)
    requires WhollyFree(live, b)
    ensures b !in live
  {
    var p := FirstPage(b);
  }

  lemma {:induction false} TopIsNew(free: set<Block>, n: nat)
    requires n < TOP_BLOCKS && free == set j | 0 <= j < n :: Block(MAX_ORDER, j)
    ensures free <= TopBlocks() && Block(MAX_ORDER, n) in TopBlocks() && Block(MAX_ORDER, n) !in free
  {
  }

  lemma {:induction false} TopAddr(n: nat)
    ensures Addr(Block(MAX_ORDER, n)) == START + n * 0x80_0000 && BuddySize(MAX_ORDER - 1) == 0x80_0000
  {
    Pow2Values();
    Pow2Add(22, 1);
    assert Pow2(23) == 0x80_0000;
  }

  lemma {:induction false} AddrParent(b: Block)
    ensures Addr(Parent(b)) == if b.index % 2 == 0 then Addr(b) else Addr(Buddy(b))
  {
    AddrHalves(Parent(b));
  }

  /** Some wholly free block of the given legal order is left. */
  ghost predicate CanServe(live: set<Block>, order: int) {
    0 <= order < MAX_ORDER && exists c: Block :: c.order == order && WhollyFree(live, c)
  }

  lemma {:induction false} Served(live: set<Block>, order: nat, b: Block)
    requires order < MAX_ORDER && b.order == order && WhollyFree(live, b)
    ensures CanServe(live, order)
  {
  }

  lemma {:induction false} NoneToServe(free: set<Block>, live: set<Block>, order: nat)
    requires Sound(free, live) && forall c :: c in free && order <= c.order ==> MAX_ORDER < c.order
    ensures !CanServe(live, order)
  {
    assert forall f :: f in free ==> f in free + live;
    forall c: Block | c.order == order ensures !WhollyFree(live, c) {
      if WhollyFree(live, c) {
        var f := FreeBlockAround(free, live, c);
      }
    }
  }

  lemma {:induction false} InsideHalf(b: Block, hand: Block)
    requires hand.order > 0 && Inside(b, LeftHalf(hand))
    ensures Inside(b, hand)
  {
    ShrShr(b.index, hand.order - 1 - b.order, 1);
    assert Shr(2 * hand.index, 1) == hand.index;
  }

  // ---------- the bitmap words ----------

  const MAX_BMSIZE: nat := 224

  /** Words given to the bitmap of order `k` by `bminit`. */
  function BmSize(k: nat): nat {
    Shr(MAX_BMSIZE, k) + if k > 4 then 1 else 0
  }

  function BmStart(k: nat): nat {
    if k == 0 then 0 else BmStart(k - 1) + BmSize(k - 1)
  }

  /** The word and the bit in it that `flip_bit_map` reaches for a block. */
  function BitPlace(b: Block): (nat, nat) {
    (BmStart(b.order) + b.index / 2 / 32, b.index / 2 % 32)
  }

  lemma {:induction false} BmSizeEnough(k: nat)
    requires k < MAX_ORDER
    ensures TOP_BLOCKS * Pow2(MAX_ORDER - 1 - k) <= 32 * BmSize(k)
  {
    if k < 5 {
      assert k == 0 || k == 1 || k == 2 || k == 3 || k == 4;
    } else {
      assert k == 5 || k == 6 || k == 7 || k == 8 || k == 9 || k == 10;
    }
  }

  lemma {:induction false} BmStartGrows(k: nat, m: nat)
    requires k <= m
    ensures BmStart(k) <= BmStart(m)
  {
    if k < m { BmStartGrows(k, m - 1); }
  }

  lemma {:induction false} BitInside(b: Block)
    requires InArea(b) && b.order < MAX_ORDER
    ensures BmStart(b.order) <= BitPlace(b).0 < BmStart(b.order + 1)
  {
    ParentInArea(b);
    BmSizeEnough(b.order);
    WordOf(b.index / 2, BmSize(b.order));
  }

  lemma {:induction false} WordOf(i: nat, n: nat)
    requires i < 32 * n
    ensures i / 32 < n
  {
  }

  /** Every pair has a bit of its own, inside the array `bit_map` and inside the
      part that `bminit` clears. */
  lemma {:induction false} BitsApart(b: Block, c: Block)
    requires InArea(b) && InArea(c) && b.order < MAX_ORDER && c.order < MAX_ORDER
    ensures BitPlace(b) == BitPlace(c) <==> PairOf(b) == PairOf(c)
    ensures BitPlace(b).0 < MAX_BMSIZE * 2 + 10
  {
    BitInside(b);
    BmStartGrows(b.order + 1, MAX_ORDER);
    BmTotal();
    if b.order != c.order { OrdersApart(b, c); }
    SameBit(b.index / 2, c.index / 2);
  }

  lemma {:induction false} OrdersApart(b: Block, c: Block)
    requires InArea(b) && InArea(c) && b.order < MAX_ORDER && c.order < MAX_ORDER && b.order != c.order
    ensures BitPlace(b).0 != BitPlace(c).0
  {
    BitInside(b);
    BitInside(c);
    if b.order < c.order { BmStartGrows(b.order + 1, c.order); } else { BmStartGrows(c.order + 1, b.order); }
  }

  lemma {:induction false} SameBit(i: nat, j: nat)
    ensures i / 32 == j / 32 && i % 32 == j % 32 ==> i == j
  {
  }

  lemma {:induction false} BmTotal()
    ensures BmStart(MAX_ORDER) == 451
  {
    assert BmStart(3) == 392;
    assert BmStart(5) == 434;
    assert BmStart(6) == 442;
    assert BmStart(7) == 446;
    assert BmStart(8) == 448;
    assert BmStart(9) == 449;
    assert BmStart(10) == 450;
  }
}
