/** include/rbtree.h keeps a node's parent address and its colour in one 32-bit
    word: the parent is the word without its two low bits, the colour is bit 0 (1
    is black).  Nodes are 4-byte aligned, and bit 1 stays clear.  Masking the two
    low bits is arithmetic modulo 4, masking bit 0 arithmetic modulo 2.

    Each macro changes one part and leaves the other alone, so the word behaves as
    the two separate fields of `RbMemory.Node`. */
module RbWord {
  import opened RbShape

  /** `rb_parent`. */
  function Parent(w: nat): nat {
    w - w % 4
  }

  /** `rb_color`. */
  function ColorOf(w: nat): Color {
    if w % 2 == 1 then Black else Red
  }

  function Bit(c: Color): nat {
    if c.Black? then 1 else 0
  }

  /** A word as the macros leave it. */
  predicate Clean(w: nat) {
    w % 4 < 2
  }

  /** The word for a parent and a colour; with `Parent` and `ColorOf` a round trip. */
  function Pack(p: nat, c: Color): (w: nat)
    requires p % 4 == 0
    ensures Clean(w) && Parent(w) == p && ColorOf(w) == c
  {
    p + Bit(c)
  }

  lemma {:induction false} PackUnpacked(w: nat)
    requires Clean(w)
    ensures Parent(w) % 4 == 0 && Pack(Parent(w), ColorOf(w)) == w
  {
    Whole(w / 4);
    LowBit(2 * (w / 4), w % 4);
  }

  lemma {:induction false} Whole(q: nat)
    ensures (4 * q) % 4 == 0
  {
  }

  lemma {:induction false} LowBit(q: nat, bit: nat)
    requires bit < 2
    ensures (2 * q + bit) % 2 == bit
  {
  }

  /** `rb_link_node` stores the bare parent address: the new node is red. */
  function LinkWord(p: nat): (w: nat)
    requires p % 4 == 0
    ensures w == Pack(p, Red)
  {
    p
  }

  /** `rb_set_parent`. */
  function SetParent(w: nat, p: nat): (r: nat)
    requires Clean(w) && p % 4 == 0
    ensures r == Pack(p, ColorOf(w))
  {
    PackUnpacked(w);
    w % 4 + p
  }

  /** `rb_set_red`. */
  function SetRed(w: nat): (r: nat)
    requires Clean(w)
    ensures Parent(w) % 4 == 0 && r == Pack(Parent(w), Red)
  {
    PackUnpacked(w);
    w - w % 2
  }

  /** `rb_set_black`. */
  function SetBlack(w: nat): (r: nat)
    requires Clean(w)
    ensures Parent(w) % 4 == 0 && r == Pack(Parent(w), Black)
  {
    PackUnpacked(w);
    if w % 2 == 0 then w + 1 else w
  }

  /** `rb_set_color`. */
  function SetColor(w: nat, c: Color): (r: nat)
    requires Clean(w)
    ensures Parent(w) % 4 == 0 && r == Pack(Parent(w), c)
  {
    PackUnpacked(w);
    w - w % 2 + Bit(c)
  }
}
