/** The circular doubly linked lists that hold the free blocks in kernel/kmalloc.c.
    A list is a sentinel and the entries it is linked with; the links lie in the free
    blocks themselves.  The operations act on a list as on a plain sequence, oldest
    entry first, and the twelve lists share one memory without getting mixed up. */
module FreeRing {

  /** The start of a free block (`buddy`). */
  datatype Node = Node(next: nat, last: nat, addr: nat)

  type Mem = map<nat, Node>

  /** What memory holds at `a`; zeros where nothing has been written. */
  function Get(mem: Mem, a: nat): Node {
    if a in mem then mem[a] else Node(0, 0, 0)
  }

  /** The sentinel, the entries in order, and the sentinel again. */
  function Cell(fl: nat, s: seq<nat>, i: nat): nat
    requires i <= |s| + 1
  {
    if 1 <= i <= |s| then s[i - 1] else fl
  }

  /** `mem` links the sentinel `fl` and the entries `s` into a ring, both ways. */
  ghost predicate Ring(mem: Mem, fl: nat, s: seq<nat>) {
    && fl !in s && (forall i, j :: 0 <= i < j < |s| ==> s[i] != s[j])
    && (forall i :: 0 <= i <= |s| ==> Get(mem, Cell(fl, s, i)).next == Cell(fl, s, i + 1))
    && (forall i :: 0 <= i <= |s| ==> Get(mem, Cell(fl, s, i + 1)).last == Cell(fl, s, i))
  }

  /** Nothing but links changed, and those only at `fl`, at the entries and at `b`. */
  ghost predicate Relinked(m: Mem, m': Mem, fl: nat, s: seq<nat>, b: nat) {
    && (forall a {:trigger Get(m', a)} :: Get(m', a).addr == Get(m, a).addr)
    && (forall a {:trigger Get(m', a)} :: a != fl && a != b && a !in s ==> Get(m', a) == Get(m, a))
  }

  function SetNext(mem: Mem, a: nat, v: nat): Mem {
    mem[a := Get(mem, a).(next := v)]
  }

  function SetLast(mem: Mem, a: nat, v: nat): Mem {
    mem[a := Get(mem, a).(last := v)]
  }

  function SetAddr(mem: Mem, a: nat): Mem {
    mem[a := Get(mem, a).(addr := a)]
  }

  // ---------- one ring ----------

  /** `free_list_init`. */
  method Init(mem: Mem, fl: nat) returns (m: Mem)
    ensures Ring(m, fl, []) && Relinked(mem, m, fl, [], fl)
  {
    m := SetLast(mem, fl, fl);
    m := SetNext(m, fl, fl);
  }

  /** `free_list_push`: `b` goes to the end. */
  method Push(mem: Mem, fl: nat, b: nat, ghost s: seq<nat>) returns (m: Mem)
    requires Ring(mem, fl, s) && b != fl && b !in s
    ensures Ring(m, fl, s + [b]) && Relinked(mem, m, fl, s, b)
  {
    assert Get(mem, Cell(fl, s, |s| + 1)).last == Cell(fl, s, |s|);
    var prev := Get(mem, fl).last;
    m := SetLast(mem, b, prev);
    m := SetNext(m, b, fl);
    m := SetNext(m, prev, b);
    m := SetLast(m, fl, b);
    Pushed(mem, m, fl, b, s);
  }

  /** `free_list_pop`: the first entry, or NULL when there is none. */
  method Pop(mem: Mem, fl: nat, ghost s: seq<nat>) returns (m: Mem, empty: bool, head: nat)
    requires Ring(mem, fl, s)
    ensures empty == (s == []) && (empty ==> m == mem)
    ensures !empty ==> head == s[0] && Ring(m, fl, s[1..])
    ensures Relinked(mem, m, fl, s, fl)
  {
    assert Get(mem, Cell(fl, s, 0)).next == Cell(fl, s, 1);
    m := mem;
    head := Get(mem, fl).next;
    empty := head == fl;
    if !empty {
      assert Get(mem, Cell(fl, s, 1)).next == Cell(fl, s, 2);
      var next := Get(mem, head).next;
      m := SetLast(m, next, fl);
      m := SetNext(m, fl, next);
      assert m == SetLast(SetNext(mem, fl, next), next, fl);
      Unlinked(mem, m, fl, s, 0);
      assert s[..0] + s[1..] == s[1..];
    }
  }

  /** The search in `remove_from_free`, by the stored address, and the unlinking. */
  method Remove(mem: Mem, fl: nat, target: nat, ghost s: seq<nat>) returns (m: Mem, found: bool, t: nat, ghost j: nat)
    requires Ring(mem, fl, s)
    ensures found <==> exists i :: 0 <= i < |s| && Get(mem, s[i]).addr == target
    ensures !found ==> m == mem
    ensures found ==> j < |s| && t == s[j] && Get(mem, t).addr == target && Ring(m, fl, s[..j] + s[j + 1..])
    ensures Relinked(mem, m, fl, s, fl)
  {
    assert Get(mem, Cell(fl, s, 0)).next == Cell(fl, s, 1);
    m := mem;
    t := Get(mem, fl).next;
    j := 0;
    while t != fl
      invariant j <= |s| && t == Cell(fl, s, j + 1) && m == mem
      invariant forall i :: 0 <= i < j ==> Get(mem, s[i]).addr != target
      decreases |s| - j
    {
      assert Get(mem, Cell(fl, s, j + 1)).next == Cell(fl, s, j + 2);
      assert Get(mem, Cell(fl, s, j + 1)).last == Cell(fl, s, j);
      if Get(mem, t).addr == target {
        var last, next := Get(mem, t).last, Get(mem, t).next;
        m := SetNext(m, last, next);
        m := SetLast(m, next, last);
        Unlinked(mem, m, fl, s, j);
        found := true;
        return;
      }
      t := Get(mem, t).next;
      j := j + 1;
    }
    found := false;
  }

  lemma {:induction false} Unlinked(m: Mem, m': Mem, fl: nat, s: seq<nat>, j: nat)
    requires Ring(m, fl, s) && j < |s|
    requires var p, n := Cell(fl, s, j), Cell(fl, s, j + 2); m' == SetLast(SetNext(m, p, n), n, p)
    ensures Ring(m', fl, s[..j] + s[j + 1..]) && Relinked(m, m', fl, s, fl)
  {
    RingWithout(m, m', fl, s, j, s[..j] + s[j + 1..]);
  }

  lemma {:induction false} RingWithout(m: Mem, m': Mem, fl: nat, s: seq<nat>, j: nat, s': seq<nat>)
    requires Ring(m, fl, s) && j < |s| && s' == s[..j] + s[j + 1..]
    requires var p, n := Cell(fl, s, j), Cell(fl, s, j + 2); m' == SetLast(SetNext(m, p, n), n, p)
    ensures Ring(m', fl, s')
  {
    Spliced(s, j, s');
    forall i | 0 <= i <= |s'|
      ensures Get(m', Cell(fl, s', i)).next == Cell(fl, s', i + 1)
      ensures Get(m', Cell(fl, s', i + 1)).last == Cell(fl, s', i)
    {
      CellsApart(fl, s, j, s', i);
    }
  }

  lemma {:induction false} Spliced(s: seq<nat>, j: nat, s': seq<nat>)
    requires j < |s| && s' == s[..j] + s[j + 1..]
    ensures |s'| == |s| - 1 && forall i :: 0 <= i < |s'| ==> s'[i] == s[if i < j then i else i + 1]
  {
  }

  /** The cells of the shorter ring, as cells of the longer one. */
  lemma {:induction false} CellsApart(fl: nat, s: seq<nat>, j: nat, s': seq<nat>, i: nat)
    requires j < |s| && |s'| == |s| - 1 && i <= |s'|
    requires forall k :: 0 <= k < |s'| ==> s'[k] == s[if k < j then k else k + 1]
    ensures Cell(fl, s', i) == Cell(fl, s, if i <= j then i else i + 1)
    ensures Cell(fl, s', i + 1) == Cell(fl, s, if i + 1 <= j then i + 1 else i + 2)
  {
  }

  lemma {:induction false} Pushed(m: Mem, m': Mem, fl: nat, b: nat, s: seq<nat>)
    requires Ring(m, fl, s) && b != fl && b !in s
    requires var p := Cell(fl, s, |s|); m' == SetLast(SetNext(SetNext(SetLast(m, b, p), b, fl), p, b), fl, b)
    ensures Ring(m', fl, s + [b]) && Relinked(m, m', fl, s, b)
  {
    var s' := s + [b];
    forall i | 0 <= i <= |s'|
      ensures Get(m', Cell(fl, s', i)).next == Cell(fl, s', i + 1)
      ensures Get(m', Cell(fl, s', i + 1)).last == Cell(fl, s', i)
    {
      if i < |s| {
        assert Cell(fl, s', i) == Cell(fl, s, i) && Cell(fl, s', i + 1) == Cell(fl, s, i + 1);
      }
    }
  }

  // ---------- all the rings ----------

  /** Where the free blocks begin; the sentinels lie below. */
  const LIMIT: nat := 0x80_0000
  const LISTS: nat := 12

  /** `&free_list[k]`, somewhere in the kernel image. */
  function Head(k: nat): nat {
    0x40_0000 + 12 * k
  }

  /** One memory holds every list as a ring: no node is in two of them, and each stores
      its own address. */
  ghost predicate Linked(mem: Mem, lists: seq<seq<nat>>) {
    && |lists| == LISTS
    && (forall k :: 0 <= k < LISTS ==> Ring(mem, Head(k), lists[k]))
    && (forall k :: 0 <= k < LISTS ==> Stored(mem, lists[k]))
    && (forall j, k :: 0 <= j < LISTS && 0 <= k < LISTS && j != k ==> Apart(lists[j], lists[k]))
  }

  ghost predicate Stored(mem: Mem, s: seq<nat>) {
    forall a :: a in s ==> a >= LIMIT && Get(mem, a).addr == a
  }

  ghost predicate SameAddr(m: Mem, m': Mem) {
    forall a {:trigger Get(m', a)} :: Get(m', a).addr == Get(m, a).addr
  }

  ghost predicate Apart(s: seq<nat>, t: seq<nat>) {
    forall a :: a in s ==> a !in t
  }

  ghost predicate Unlisted(lists: seq<seq<nat>>, a: nat) {
    forall k :: 0 <= k < |lists| ==> a !in lists[k]
  }

  /** A ring whose nodes are left alone is still there. */
  lemma {:induction false} OtherRing(m: Mem, m': Mem, fl: nat, s: seq<nat>, b: nat, fl2: nat, s2: seq<nat>)
    requires Relinked(m, m', fl, s, b) && Ring(m, fl2, s2)
    requires fl2 != fl && fl2 != b && fl2 !in s && fl !in s2 && b !in s2 && Apart(s2, s)
    ensures Ring(m', fl2, s2)
  {
    forall i | 0 <= i <= |s2| + 1 ensures Get(m', Cell(fl2, s2, i)) == Get(m, Cell(fl2, s2, i)) { }
  }

  /** Changing one list leaves the others linked. */
  lemma {:induction false} LinkedUpdate(m: Mem, m': Mem, lists: seq<seq<nat>>, k: nat, s: seq<nat>, b: nat)
    requires Linked(m, lists) && k < LISTS && Relinked(m, m', Head(k), lists[k], b)
    requires b == Head(k) || (b >= LIMIT && Unlisted(lists, b) && Get(m, b).addr == b)
    requires Ring(m', Head(k), s) && forall a :: a in s ==> a in lists[k] || (a == b && b >= LIMIT)
    ensures Linked(m', lists[k := s])
  {
    var lists' := lists[k := s];
    forall j | 0 <= j < LISTS ensures Ring(m', Head(j), lists'[j]) {
      if j != k {
        assert Apart(lists[j], lists[k]) && Stored(m, lists[j]) && Stored(m, lists[k]);
        OtherRing(m, m', Head(k), lists[k], b, Head(j), lists[j]);
      }
    }
    forall j | 0 <= j < LISTS ensures Stored(m', lists'[j]) {
      assert Stored(m, lists[j]) && Stored(m, lists[k]);
    }
    forall i, j | 0 <= i < LISTS && 0 <= j < LISTS && i != j ensures Apart(lists'[i], lists'[j]) {
      assert Apart(lists[i], lists[j]);
    }
  }

  /** Memory that agrees on the sentinels and on every node holds the same lists. */
  lemma {:induction false} SameNodes(m: Mem, m': Mem, lists: seq<seq<nat>>)
    requires Linked(m, lists)
    requires forall k :: 0 <= k < LISTS ==> Get(m', Head(k)) == Get(m, Head(k))
    requires forall k, a :: 0 <= k < LISTS && a in lists[k] ==> Get(m', a) == Get(m, a)
    ensures Linked(m', lists)
  {
    forall k | 0 <= k < LISTS ensures Ring(m', Head(k), lists[k]) && Stored(m', lists[k]) {
      var s := lists[k];
      assert Stored(m, s);
      forall i | 0 <= i <= |s| + 1 ensures Get(m', Cell(Head(k), s, i)) == Get(m, Cell(Head(k), s, i)) { }
    }
  }

  /** Storing a node's address is no change for the lists. */
  lemma {:induction false} AddrStored(mem: Mem, lists: seq<seq<nat>>, a: nat)
    requires Linked(mem, lists)
    ensures Linked(SetAddr(mem, a), lists) && Get(SetAddr(mem, a), a).addr == a
  {
    var m := SetAddr(mem, a);
    forall k | 0 <= k < LISTS ensures Ring(m, Head(k), lists[k]) && Stored(m, lists[k]) {
      assert Stored(mem, lists[k]);
      var s := lists[k];
      forall i | 0 <= i <= |s| + 1
        ensures Get(m, Cell(Head(k), s, i)).next == Get(mem, Cell(Head(k), s, i)).next
        ensures Get(m, Cell(Head(k), s, i)).last == Get(mem, Cell(Head(k), s, i)).last
      { }
    }
  }

  ghost function NoLists(): seq<seq<nat>> {
    seq(LISTS, k => [])
  }

  /** All of `free_list_init`: every list is empty. */
  method InitLists(mem: Mem) returns (m: Mem)
    ensures Linked(m, NoLists())
  {
    m := mem;
    var k := 0;
    while k < LISTS
      invariant k <= LISTS && forall j :: 0 <= j < k ==> Ring(m, Head(j), [])
    {
      ghost var was := m;
      m := Init(m, Head(k));
      forall j | 0 <= j < k ensures Ring(m, Head(j), []) {
        OtherRing(was, m, Head(k), [], Head(k), Head(j), []);
      }
      k := k + 1;
    }
    assert forall j :: 0 <= j < LISTS ==> NoLists()[j] == [];
  }

  /** `free_list_push` on one of the lists. */
  method PushList(mem: Mem, k: nat, a: nat, ghost lists: seq<seq<nat>>) returns (m: Mem)
    requires Linked(mem, lists) && k < LISTS && a >= LIMIT && Get(mem, a).addr == a && Unlisted(lists, a)
    ensures Linked(m, lists[k := lists[k] + [a]]) && SameAddr(mem, m)
  {
    m := Push(mem, Head(k), a, lists[k]);
    LinkedUpdate(mem, m, lists, k, lists[k] + [a], a);
  }

  /** `free_list_pop` on one of the lists; 0 when it is empty. */
  method PopList(mem: Mem, k: nat, ghost lists: seq<seq<nat>>) returns (m: Mem, a: nat)
    requires Linked(mem, lists) && k < LISTS
    ensures a == 0 <==> lists[k] == []
    ensures a == 0 ==> m == mem
    ensures a != 0 ==> a == lists[k][0] && Linked(m, lists[k := lists[k][1..]])
    ensures SameAddr(mem, m)
  {
    var empty;
    m, empty, a := Pop(mem, Head(k), lists[k]);
    if empty {
      a := 0;
    } else {
      assert Stored(mem, lists[k]) && lists[k][0] in lists[k];
      LinkedUpdate(mem, m, lists, k, lists[k][1..], Head(k));
    }
  }

  /** The search in `remove_from_free` finds an address if and only if it is listed. */
  method TakeFrom(mem: Mem, k: nat, target: nat, ghost lists: seq<seq<nat>>) returns (m: Mem, t: nat, ghost j: nat)
    requires Linked(mem, lists) && k < LISTS
    ensures t != 0 <==> target in lists[k]
    ensures t == 0 ==> m == mem
    ensures t != 0 ==> t == target && j < |lists[k]| && lists[k][j] == t
    ensures t != 0 ==> Linked(m, lists[k := lists[k][..j] + lists[k][j + 1..]])
    ensures SameAddr(mem, m) && (t != 0 ==> Get(m, t).addr == t)
  {
    ghost var s := lists[k];
    assert Stored(mem, s);
    var found;
    m, found, t, j := Remove(mem, Head(k), target, s);
    assert forall i :: 0 <= i < |s| ==> s[i] in s && Get(mem, s[i]).addr == s[i];
    if found {
      LinkedUpdate(mem, m, lists, k, s[..j] + s[j + 1..], Head(k));
    } else {
      t := 0;
    }
  }
}
