/** Two-level page tables of kernel/vm.c: `_walk`, `mmap` and `freemap`.

    Entries are 32-bit words in the format of section 4.3 of the Intel SDM, volume
    3A: bit 0 says present, the low 12 bits are flags, the rest is a frame address.
    A virtual address is known by its page number, its directory entry by the page
    number divided by 1024.  Page tables come from the kernel page allocator. */
module PageTable {
  import opened Powers
  import opened BuddySpec
  import BuddyAllocator

  const ENTRIES: nat := 1024
  const PAGE_SIZE: nat := 4096
  const NULL: nat := 0
  /** Addresses are below 2^32. */
  const SPACE: nat := 0x1_0000_0000

  // ---------- entries ----------

  predicate Present(w: nat) {
    w % 2 == 1
  }

  /** `ADDR_TO_PTE`: the frame address of an entry. */
  function Frame(w: nat): nat {
    w - w % PAGE_SIZE
  }

  /** `PTE_PRESENT | flags | frame`. */
  function Entry(frame: nat, flags: nat): (w: nat)
    requires frame % PAGE_SIZE == 0 && flags < PAGE_SIZE
    ensures Present(w) && Frame(w) == frame && Tells(w, frame / PAGE_SIZE, flags)
  {
    frame + if flags % 2 == 0 then flags + 1 else flags
  }

  /** A present entry for frame number `n` with these flags; bit 0 aside, the low 12
      bits are the flags. */
  predicate Tells(w: nat, n: nat, flags: nat) {
    w / PAGE_SIZE == n && w % 2 == 1 && w % PAGE_SIZE / 2 == flags / 2
  }

  /** The entry for the `i`-th page from frame `pa` on. */
  function NthEntry(pa: nat, i: nat, flags: nat): (w: nat)
    requires pa % PAGE_SIZE == 0 && flags < PAGE_SIZE
    ensures Present(w) && Tells(w, pa / PAGE_SIZE + i, flags)
  {
    FrameAfter(pa, i);
    Entry(pa + i * PAGE_SIZE, flags)
  }

  lemma {:induction false} FrameAfter(pa: nat, i: nat)
    requires pa % PAGE_SIZE == 0
    ensures (pa + i * PAGE_SIZE) / PAGE_SIZE == pa / PAGE_SIZE + i && (pa + i * PAGE_SIZE) % PAGE_SIZE == 0
  {
  }

  // ---------- how many entries of a table are present ----------

  function Count(t: seq<nat>): nat {
    if t == [] then 0 else Count(t[..|t| - 1]) + if Present(t[|t| - 1]) then 1 else 0
  }

  lemma {:induction false} CountUpdate(t: seq<nat>, i: nat, w: nat)
    requires i < |t|
    ensures Count(t[i := w]) == Count(t) - (if Present(t[i]) then 1 else 0) + if Present(w) then 1 else 0
  {
    var n := |t| - 1;
    if i < n {
      CountUpdate(t[..n], i, w);
      assert t[i := w][..n] == t[..n][i := w];
    } else {
      assert t[i := w][..n] == t[..n];
    }
  }

  lemma {:induction false} CountZeros(t: seq<nat>)
    requires forall i :: 0 <= i < |t| ==> t[i] == 0
    ensures Count(t) == 0
  {
    if t != [] { CountZeros(t[..|t| - 1]); }
  }

  lemma {:induction false} CountPositive(t: seq<nat>, i: nat)
    requires i < |t| && Present(t[i])
    ensures Count(t) > 0
  {
    if i < |t| - 1 { CountPositive(t[..|t| - 1], i); }
  }

  // ---------- addresses of table pages ----------

  lemma {:induction false} TableAddr(b: Block)
    requires b.order == 0
    ensures BuddyAllocator.Addr(b) % PAGE_SIZE == 0
  {
    assert Pow2(12) == 4096 by { Pow2Values(); Pow2Add(10, 2); assert Pow2(2) == 4; }
  }

  lemma {:induction false} TableApart(b: Block, c: Block)
    requires b.order == c.order && BuddyAllocator.Addr(b) == BuddyAllocator.Addr(c)
    ensures b == c
  {
    BuddyAllocator.AddrIndex(b);
    BuddyAllocator.AddrIndex(c);
  }

  // ---------- the tables as a value ----------

  /** The page directory, the page tables by address, and the count kept for each
      directory entry. */
  datatype Tables = Tables(dir: seq<nat>, mem: map<nat, seq<nat>>, count: seq<int>)

  /** Directory entries outside `fixed`, the ones set up at boot, point to tables
      of their own, and each count is the number of present entries. */
  ghost predicate Ok(t: Tables, fixed: set<nat>) {
    && |t.dir| == ENTRIES && |t.count| == ENTRIES
    && (forall a :: a in t.mem ==> |t.mem[a]| == ENTRIES)
    && (forall i :: 0 <= i < ENTRIES && i !in fixed && Present(t.dir[i]) ==>
          Frame(t.dir[i]) in t.mem && t.count[i] == Count(t.mem[Frame(t.dir[i])]))
    && (forall i :: 0 <= i < ENTRIES && i !in fixed && !Present(t.dir[i]) ==> t.count[i] == 0)
    && (forall i, j :: 0 <= i < j < ENTRIES && i !in fixed && j !in fixed && Present(t.dir[i]) && Present(t.dir[j]) ==>
          Frame(t.dir[i]) != Frame(t.dir[j]))
  }

  /** Page `v` belongs to a directory entry that `mmap` manages. */
  predicate Managed(v: nat, fixed: set<nat>) {
    v / ENTRIES < ENTRIES && v / ENTRIES !in fixed
  }

  /** The entry for page `v`, 0 when it has no table. */
  ghost function Look(t: Tables, fixed: set<nat>, v: nat): nat
    requires Ok(t, fixed) && Managed(v, fixed)
  {
    if Present(t.dir[v / ENTRIES]) then t.mem[Frame(t.dir[v / ENTRIES])][v % ENTRIES] else 0
  }

  /** A fresh, empty table for directory entry `i` changes no translation. */
  lemma {:induction false} AddTable(t: Tables, fixed: set<nat>, i: nat, a: nat, w: nat, zeros: seq<nat>)
    requires Ok(t, fixed) && i < ENTRIES && i !in fixed && !Present(t.dir[i]) && Present(w) && Frame(w) == a
    requires |zeros| == ENTRIES && forall k :: 0 <= k < ENTRIES ==> zeros[k] == 0
    requires forall j :: 0 <= j < ENTRIES && j !in fixed && Present(t.dir[j]) ==> Frame(t.dir[j]) != a
    ensures var t' := t.(dir := t.dir[i := w], mem := t.mem[a := zeros]);
            Ok(t', fixed) && forall v: nat :: Managed(v, fixed) ==> Look(t', fixed, v) == Look(t, fixed, v)
  {
    CountZeros(zeros);
  }

  function With(s: seq<nat>, i: nat, w: nat): seq<nat>
    requires i < |s|
  {
    s[i := w]
  }

  /** Entry `w` written for page `v`, and the count of its table moved by `d`. */
  ghost function Written(t: Tables, fixed: set<nat>, v: nat, w: nat, d: int): Tables
    requires Ok(t, fixed) && Managed(v, fixed) && Present(t.dir[v / ENTRIES])
  {
    var i, a := v / ENTRIES, Frame(t.dir[v / ENTRIES]);
    t.(mem := t.mem[a := With(t.mem[a], v % ENTRIES, w)], count := t.count[i := t.count[i] + d])
  }

  /** With its count adjusted, a write changes that translation and no other. */
  lemma {:induction false} SetEntry(t: Tables, fixed: set<nat>, v: nat, w: nat, d: int)
    requires Ok(t, fixed) && Managed(v, fixed) && Present(t.dir[v / ENTRIES])
    requires d == (if Present(w) then 1 else 0) - (if Present(Look(t, fixed, v)) then 1 else 0)
    ensures var t' := Written(t, fixed, v, w, d);
            && Ok(t', fixed)
            && forall u: nat :: Managed(u, fixed) ==> Look(t', fixed, u) == if u == v then w else Look(t, fixed, u)
  {
    var a := Frame(t.dir[v / ENTRIES]);
    CountUpdate(t.mem[a], v % ENTRIES, w);
  }

  /** Each table is a page the allocator gave out for it. */
  ghost predicate Backed(dir: seq<nat>, fixed: set<nat>, owner: map<nat, Block>, live: set<Block>)
    requires |dir| == ENTRIES
  {
    forall i :: 0 <= i < ENTRIES && i !in fixed && Present(dir[i]) ==>
      i in owner && owner[i] in live && owner[i].order == 0 && BuddyAllocator.Addr(owner[i]) == Frame(dir[i])
  }

  /** A page the allocator just gave out is nobody's table. */
  lemma {:induction false} FreshTable(dir: seq<nat>, fixed: set<nat>, owner: map<nat, Block>, live: set<Block>,
                                      b: Block)
    requires |dir| == ENTRIES && Backed(dir, fixed, owner, live) && b !in live && b.order == 0
    ensures forall j :: 0 <= j < ENTRIES && j !in fixed && Present(dir[j]) ==> Frame(dir[j]) != BuddyAllocator.Addr(b)
  {
    forall j | 0 <= j < ENTRIES && j !in fixed && Present(dir[j]) ensures Frame(dir[j]) != BuddyAllocator.Addr(b) {
      if Frame(dir[j]) == BuddyAllocator.Addr(b) { TableApart(owner[j], b); }
    }
  }

  // ---------- translations ----------

  /** `view` lists the present translations: page number to entry. */
  ghost predicate Views(t: Tables, fixed: set<nat>, view: map<nat, nat>) {
    && Ok(t, fixed)
    && (forall u: nat {:trigger Managed(u, fixed)} :: u in view ==> Managed(u, fixed))
    && (forall u: nat {:trigger Look(t, fixed, u)} :: Managed(u, fixed) ==> (u in view <==> Present(Look(t, fixed, u))))
    && (forall u: nat {:trigger Look(t, fixed, u)} :: Managed(u, fixed) && u in view ==> view[u] == Look(t, fixed, u))
  }

  /** A page is in the view when its table exists and the entry there is present. */
  lemma {:induction false} ViewAt(t: Tables, fixed: set<nat>, view: map<nat, nat>, v: nat)
    requires Views(t, fixed, view) && Managed(v, fixed)
    ensures v in view <==> Present(t.dir[v / ENTRIES]) && Present(t.mem[Frame(t.dir[v / ENTRIES])][v % ENTRIES])
    ensures v in view ==> view[v] == t.mem[Frame(t.dir[v / ENTRIES])][v % ENTRIES]
  {
    var w := Look(t, fixed, v);
  }

  /** Writing one entry changes the view at that page alone. */
  lemma {:induction false} WriteView(t: Tables, fixed: set<nat>, view: map<nat, nat>, v: nat, w: nat, d: int)
    requires Views(t, fixed, view) && Managed(v, fixed) && Present(t.dir[v / ENTRIES])
    requires d == (if Present(w) then 1 else 0) - (if v in view then 1 else 0)
    ensures Views(Written(t, fixed, v, w, d), fixed, if Present(w) then view[v := w] else view - {v})
  {
    ViewAt(t, fixed, view, v);
    SetEntry(t, fixed, v, w, d);
  }

  /** Pages `v` to `v + n`, mapped one after the other from `pa`. */
  ghost function Run(v: nat, n: nat, pa: nat, flags: nat): map<nat, nat>
    requires pa % PAGE_SIZE == 0 && flags < PAGE_SIZE
  {
    if n == 0 then map[] else Run(v, n - 1, pa, flags)[v + n - 1 := NthEntry(pa, n - 1, flags)]
  }

  ghost function Pages(v: nat, n: nat): set<nat> {
    if n == 0 then {} else Pages(v, n - 1) + {v + n - 1}
  }

  lemma {:induction false} PagesAre(v: nat, n: nat)
    ensures forall u: nat :: u in Pages(v, n) <==> v <= u < v + n
  {
    if n > 0 { PagesAre(v, n - 1); }
  }

  lemma {:induction false} RunIs(v: nat, n: nat, pa: nat, flags: nat)
    requires pa % PAGE_SIZE == 0 && flags < PAGE_SIZE
    ensures Run(v, n, pa, flags).Keys == Pages(v, n)
    ensures forall u: nat :: u in Pages(v, n) ==> u >= v && Run(v, n, pa, flags)[u] == NthEntry(pa, u - v, flags)
  {
    PagesAre(v, n);
    if n > 0 {
      RunIs(v, n - 1, pa, flags);
      PagesAre(v, n - 1);
    }
  }

  /** The first `i` pages of a run have been added to `was`, over absent ones. */
  ghost predicate MappedTo(was: map<nat, nat>, now: map<nat, nat>, v: nat, i: nat, pa: nat, flags: nat)
    requires pa % PAGE_SIZE == 0 && flags < PAGE_SIZE
  {
    now == was + Run(v, i, pa, flags) && Pages(v, i) !! was.Keys
  }

  lemma {:induction false} RunNext(was: map<nat, nat>, now: map<nat, nat>, v: nat, i: nat, pa: nat, flags: nat)
    requires pa % PAGE_SIZE == 0 && flags < PAGE_SIZE && MappedTo(was, now, v, i, pa, flags)
    ensures v + i in now <==> v + i in was
    ensures v + i !in now ==> MappedTo(was, now[v + i := NthEntry(pa, i, flags)], v, i + 1, pa, flags)
  {
    RunIs(v, i, pa, flags);
    PagesAre(v, i);
  }

  lemma {:induction false} DropNext(view: map<nat, nat>, v: nat, i: nat)
    ensures view - Pages(v, i) - {v + i} == view - Pages(v, i + 1)
    ensures v + i in view - Pages(v, i) <==> v + i in view
    ensures v + i !in view ==> view - Pages(v, i) - {v + i} == view - Pages(v, i)
  {
    PagesAre(v, i);
  }

  /** What a run adds, page by page. */
  lemma {:induction false} MappedWords(was: map<nat, nat>, now: map<nat, nat>, v: nat, n: nat, pa: nat, flags: nat)
    requires pa % PAGE_SIZE == 0 && flags < PAGE_SIZE && MappedTo(was, now, v, n, pa, flags)
    ensures forall u: nat :: v <= u < v + n ==> u !in was && u in now && Tells(now[u], pa / PAGE_SIZE + (u - v), flags)
  {
    forall u: nat | v <= u < v + n ensures u !in was && u in now && Tells(now[u], pa / PAGE_SIZE + (u - v), flags) {
      PagesAre(v, n);
      RunIs(v, n, pa, flags);
      assert u in Pages(v, n) && now[u] == NthEntry(pa, u - v, flags);
    }
  }

  /** And that it adds nothing else. */
  lemma {:induction false} MappedOnly(was: map<nat, nat>, now: map<nat, nat>, v: nat, n: nat, pa: nat, flags: nat)
    requires pa % PAGE_SIZE == 0 && flags < PAGE_SIZE && MappedTo(was, now, v, n, pa, flags)
    ensures forall u: nat :: !(v <= u < v + n) ==> (u in now <==> u in was) && (u in was ==> now[u] == was[u])
  {
    PagesAre(v, n);
    RunIs(v, n, pa, flags);
  }

  /** Unmapping what was mapped over absent pages restores the old translations. */
  lemma {:induction false} FreemapUndoesMmap(view: map<nat, nat>, v: nat, n: nat, pa: nat, flags: nat)
    requires pa % PAGE_SIZE == 0 && flags < PAGE_SIZE && Pages(v, n) !! view.Keys
    ensures Pages(v, n) <= (view + Run(v, n, pa, flags)).Keys
    ensures view + Run(v, n, pa, flags) - Pages(v, n) == view
  {
    RunIs(v, n, pa, flags);
  }

  ghost predicate AllManaged(v: nat, n: nat, fixed: set<nat>) {
    forall u: nat :: v <= u < v + n ==> Managed(u, fixed)
  }

  /** Outcome of `mmap` and `freemap`; the kernel stops on `Panic`. */
  datatype Status = Done | Failed | Panic

  class PageTables {
    var dir: seq<nat>
    var mem: map<nat, seq<nat>>
    var count: seq<int>
    const kmem: BuddyAllocator.Allocator
    ghost const fixed: set<nat>
    ghost var owner: map<nat, Block>
    ghost var view: map<nat, nat>

    ghost predicate Valid()
      reads this, kmem
    {
      Views(Tables(dir, mem, count), fixed, view) && kmem.Valid() && Backed(dir, fixed, owner, kmem.live)
    }

    /** The directory as boot leaves it: what is set up then stays out of `mmap`'s hands. */
    constructor (boot: seq<nat>, allocator: BuddyAllocator.Allocator)
      requires |boot| == ENTRIES && allocator.Valid()
      ensures Valid() && kmem == allocator && view == map[] && fixed == (set i | 0 <= i < ENTRIES && Present(boot[i]))
    {
      dir, mem, count := boot, map[], seq(ENTRIES, i => 0);
      kmem, owner, view := allocator, map[], map[];
      fixed := set i | 0 <= i < ENTRIES && Present(boot[i]);
    }

    /** `_walk`: the table for page `v`, made if asked for.  Translations stay. */
    method Walk(v: nat, flags: nat, alloc: bool) returns (ok: bool, table: nat)
      requires Valid() && Managed(v, fixed) && flags < PAGE_SIZE
      modifies this`dir, this`mem, this`owner, kmem
      ensures Valid()
      ensures ok ==> Present(dir[v / ENTRIES]) && table == Frame(dir[v / ENTRIES])
      ensures !ok ==> v !in view && (!alloc || !BuddyAllocator.CanServe(kmem.live, 0))
      ensures !ok || old(Present(dir[v / ENTRIES])) ==>
                dir == old(dir) && mem == old(mem) && kmem.live == old(kmem.live)
    {
      var i := v / ENTRIES;
      ViewAt(Tables(dir, mem, count), fixed, view, v);
      if !Present(dir[i]) {
        if !alloc {
          return false, NULL;
        }
        var a;
        ghost var b;
        a, b := kmem.GetPage(0);
        if a == NULL {
          return false, NULL;
        }
        BuddyAllocator.WhollyFreeIsNew(old(kmem.live), b);
        NewTable(i, a, flags, b);
      }
      ok, table := true, Frame(dir[i]);
    }

    /** `_walk` without allocation, and the test of the entry it finds. */
    method Lookup(v: nat) returns (present: bool)
      requires Valid() && Managed(v, fixed)
      ensures present <==> v in view
    {
      ViewAt(Tables(dir, mem, count), fixed, view, v);
      if !Present(dir[v / ENTRIES]) {
        return false;
      }
      present := Present(mem[Frame(dir[v / ENTRIES])][v % ENTRIES]);
    }

    /** The frame an access to page `v` goes to, as the processor finds it. */
    method Translate(v: nat) returns (f: nat)
      requires Valid() && Managed(v, fixed) && v in view
      ensures f == Frame(view[v])
    {
      ViewAt(Tables(dir, mem, count), fixed, view, v);
      f := Frame(mem[Frame(dir[v / ENTRIES])][v % ENTRIES]);
    }

    /** Clears a page for use as a table and enters it in the directory. */
    method NewTable(i: nat, a: nat, flags: nat, ghost b: Block)
      requires Views(Tables(dir, mem, count), fixed, view) && kmem.Valid() && b in kmem.live
      requires Backed(dir, fixed, owner, kmem.live - {b}) && b.order == 0 && a == BuddyAllocator.Addr(b)
      requires i < ENTRIES && i !in fixed && !Present(dir[i]) && flags < PAGE_SIZE
      modifies this`dir, this`mem, this`owner
      ensures Valid() && Present(dir[i])
    {
      TableAddr(b);
      FreshTable(dir, fixed, owner, kmem.live - {b}, b);
      var zeros := seq(ENTRIES, k => 0);
      AddTable(Tables(dir, mem, count), fixed, i, a, Entry(a, flags), zeros);
      mem := mem[a := zeros];
      dir := dir[i := Entry(a, flags)];
      owner := owner[i := b];
    }

    /** Writes an entry and moves the count of its table. */
    method WriteEntry(v: nat, table: nat, w: nat, d: int)
      requires Valid() && Managed(v, fixed) && Present(dir[v / ENTRIES]) && table == Frame(dir[v / ENTRIES])
      requires d == (if Present(w) then 1 else 0) - (if v in view then 1 else 0)
      modifies this`mem, this`count, this`view
      ensures Valid() && view == if Present(w) then old(view)[v := w] else old(view) - {v}
    {
      WriteView(Tables(dir, mem, count), fixed, view, v, w, d);
      mem := mem[table := With(mem[table], v % ENTRIES, w)];
      count := count[v / ENTRIES := count[v / ENTRIES] + d];
      view := if Present(w) then view[v := w] else view - {v};
    }

    /** One round of `mmap`. */
    method MapOne(v: nat, w: nat, flags: nat) returns (r: Status)
      requires Valid() && Managed(v, fixed) && flags < PAGE_SIZE && Present(w)
      modifies this, kmem
      ensures Valid() && (r.Failed? <==> v in old(view))
      ensures view == if r.Done? then old(view)[v := w] else old(view)
      ensures r.Panic? ==> !BuddyAllocator.CanServe(kmem.live, 0)
    {
      var ok, table := Walk(v, flags, true);
      if !ok {
        return Panic;
      }
      ViewAt(Tables(dir, mem, count), fixed, view, v);
      if Present(mem[table][v % ENTRIES]) {
        return Failed;
      }
      WriteEntry(v, table, w, 1);
      r := Done;
    }

    /** One round of `freemap`.  Its test for an empty table compares the count before
        it is lowered, so it never holds: a table, once made, is never given back. */
    method UnmapOne(v: nat) returns (r: Status)
      requires Valid() && Managed(v, fixed)
      modifies this`mem, this`count, this`view
      ensures Valid() && !r.Panic? && (r.Done? <==> v in old(view)) && view == old(view) - {v}
    {
      var d := v / ENTRIES;
      ViewAt(Tables(dir, mem, count), fixed, view, v);
      if !Present(dir[d]) {
        assert view == view - {v};
        return Failed;
      }
      var table := Frame(dir[d]);
      if !Present(mem[table][v % ENTRIES]) {
        assert view == view - {v};
        return Failed;
      }
      CountPositive(mem[table], v % ENTRIES);
      if count[d] == 0 {
        assert false;
      }
      WriteEntry(v, table, 0, -1);
      r := Done;
    }

    /** One round of `mmap`, as part of a run that found `was`. */
    method MapNext(ghost was: map<nat, nat>, v: nat, i: nat, pa: nat, flags: nat) returns (r: Status)
      requires Valid() && Managed(v + i, fixed) && flags < PAGE_SIZE && pa % PAGE_SIZE == 0
      requires MappedTo(was, view, v, i, pa, flags)
      modifies this, kmem
      ensures Valid() && MappedTo(was, view, v, if r.Done? then i + 1 else i, pa, flags)
      ensures r.Failed? <==> v + i in was
      ensures r.Panic? ==> !BuddyAllocator.CanServe(kmem.live, 0)
    {
      ghost var now, w := view, NthEntry(pa, i, flags);
      RunNext(was, now, v, i, pa, flags);
      r := MapOne(v + i, NthEntry(pa, i, flags), flags);
      assert view == if r.Done? then now[v + i := w] else now;
    }

    /** The loop of `mmap`, over page numbers. */
    method MapPages(v: nat, n: nat, pa: nat, flags: nat) returns (r: Status, ghost k: nat)
      requires Valid() && flags < PAGE_SIZE && pa % PAGE_SIZE == 0 && AllManaged(v, n, fixed)
      modifies this, kmem
      ensures Valid() && k <= n && MappedTo(old(view), view, v, k, pa, flags)
      ensures r.Done? ==> k == n
      ensures r.Failed? ==> k < n && v + k in old(view)
      ensures r.Panic? ==> k < n && v + k !in old(view) && !BuddyAllocator.CanServe(kmem.live, 0)
    {
      var i := 0;
      while i < n
        invariant i <= n && Valid() && MappedTo(old(view), view, v, i, pa, flags)
      {
        r := MapNext(old(view), v, i, pa, flags);
        if !r.Done? {
          return r, i;
        }
        i := i + 1;
      }
      r, k := Done, i;
    }

    /** `mmap`: maps `size / 4096` pages from `va`, stopping at the first one that is
        mapped already.  What it did before stopping stays. */
    method Mmap(va: nat, pa: nat, size: nat, flags: nat) returns (r: Status, ghost k: nat)
      requires Valid() && flags < PAGE_SIZE && AllManaged(va / PAGE_SIZE, size / PAGE_SIZE, fixed)
      modifies this, kmem
      ensures Valid() && k <= size / PAGE_SIZE
      ensures MappedTo(old(view), view, va / PAGE_SIZE, k, Frame(pa), flags)
      ensures forall u: nat :: va / PAGE_SIZE <= u < va / PAGE_SIZE + k ==>
                && u !in old(view) && u in view
                && view[u] / PAGE_SIZE == pa / PAGE_SIZE + (u - va / PAGE_SIZE)
                && view[u] % 2 == 1 && view[u] % PAGE_SIZE / 2 == flags / 2
      ensures forall u: nat :: !(va / PAGE_SIZE <= u < va / PAGE_SIZE + k) ==>
                (u in view <==> u in old(view)) && (u in view ==> view[u] == old(view)[u])
      ensures r.Done? ==> k == size / PAGE_SIZE
      ensures r.Failed? ==> k < size / PAGE_SIZE && va / PAGE_SIZE + k in old(view)
      ensures r.Panic? ==>
                k < size / PAGE_SIZE && va / PAGE_SIZE + k !in old(view) && !BuddyAllocator.CanServe(kmem.live, 0)
    {
      FrameNumber(pa);
      r, k := MapPages(va / PAGE_SIZE, size / PAGE_SIZE, Frame(pa), flags);
      MappedWords(old(view), view, va / PAGE_SIZE, k, Frame(pa), flags);
      MappedOnly(old(view), view, va / PAGE_SIZE, k, Frame(pa), flags);
    }

    /** The loop of `freemap`, over page numbers. */
    method UnmapPages(v: nat, n: nat) returns (r: Status, ghost k: nat)
      requires Valid() && AllManaged(v, n, fixed)
      modifies this`mem, this`count, this`view
      ensures Valid() && k <= n && !r.Panic? && view == old(view) - Pages(v, k) && Pages(v, k) <= old(view).Keys
      ensures r.Done? ==> k == n
      ensures r.Failed? ==> k < n && v + k !in old(view)
    {
      var i := 0;
      assert view == view - Pages(v, 0);
      while i < n
        invariant i <= n && Valid() && view == old(view) - Pages(v, i) && Pages(v, i) <= old(view).Keys
      {
        DropNext(old(view), v, i);
        r := UnmapOne(v + i);
        if !r.Done? {
          return r, i;
        }
        i := i + 1;
      }
      r, k := Done, i;
    }

    /** `freemap`: unmaps the pages from `va` on, stopping at the first one that is not
        mapped.  What it did before stopping stays.  Addresses are 32-bit words: a range
        that ends at or past 2^32 counts as empty, and one that ends inside the last page
        goes on at page 0, until it comes to a page it has unmapped. */
    method Freemap(va: nat, size: nat) returns (r: Status, ghost k: nat, ghost j: nat)
      requires Valid() && va < SPACE && size < SPACE
      requires AllManaged(va / PAGE_SIZE, PageCount(size), fixed)
      requires GoesRound(va, size) ==> AllManaged(0, va / PAGE_SIZE + 1, fixed)
      modifies this`mem, this`count, this`view
      ensures Valid() && !r.Panic?
      ensures va + size >= SPACE ==> r.Done? && view == old(view)
      ensures va + size < SPACE ==> k <= PageCount(size) && Pages(va / PAGE_SIZE, k) <= old(view).Keys
      ensures va + size < SPACE && k < PageCount(size) ==>
                r.Failed? && va / PAGE_SIZE + k !in old(view) && view == old(view) - Pages(va / PAGE_SIZE, k)
      ensures va + size < SPACE && k == PageCount(size) && !GoesRound(va, size) ==>
                r.Done? && view == old(view) - Pages(va / PAGE_SIZE, k)
      ensures GoesRound(va, size) && k == PageCount(size) ==>
                var left := old(view) - Pages(va / PAGE_SIZE, k);
                r.Failed? && j <= va / PAGE_SIZE && j !in left && Pages(0, j) <= left.Keys && view == left - Pages(0, j)
    {
      k, j := 0, 0;
      if va + size >= SPACE {
        return Done, k, j;
      }
      r, k := UnmapPages(va / PAGE_SIZE, PageCount(size));
      if r.Done? && GoesRound(va, size) {
        PagesAre(va / PAGE_SIZE, k);
        r, j := UnmapPages(0, va / PAGE_SIZE + 1);
        FoundAgain(old(view), va / PAGE_SIZE, k, j);
      }
    }
  }

  lemma {:induction false} FrameNumber(pa: nat)
    ensures Frame(pa) % PAGE_SIZE == 0 && Frame(pa) / PAGE_SIZE == pa / PAGE_SIZE
  {
  }

  /** Pages that `freemap` counts for a size in bytes: round `i` takes place if and only
      if its address is before the end. */
  function PageCount(size: nat): (n: nat)
    ensures forall i: nat :: i < n <==> i * PAGE_SIZE < size
  {
    (size + PAGE_SIZE - 1) / PAGE_SIZE
  }

  /** The view as the processor walks the tables: the entry in slot `k` of the table of
      directory slot `d` is for the page at address `d * 0x400000 + k * 4096`. */
  lemma {:induction false} ViewBySlot(t: Tables, fixed: set<nat>, view: map<nat, nat>, d: nat, k: nat)
    requires Views(t, fixed, view) && d < ENTRIES && d !in fixed && k < ENTRIES
    ensures var u := (d * 0x40_0000 + k * 0x1000) / PAGE_SIZE;
            && (u in view <==> t.dir[d] % 2 == 1 && t.mem[t.dir[d] / PAGE_SIZE * PAGE_SIZE][k] % 2 == 1)
            && (u in view ==> view[u] == t.mem[t.dir[d] / PAGE_SIZE * PAGE_SIZE][k])
  {
    var u := d * ENTRIES + k;
    assert (d * 0x40_0000 + k * 0x1000) / PAGE_SIZE == u;
    assert u / ENTRIES == d && u % ENTRIES == k;
    FrameIs(t.dir[d]);
    ViewAt(t, fixed, view, u);
  }

  lemma {:induction false} FrameIs(w: nat)
    ensures Frame(w) == w / PAGE_SIZE * PAGE_SIZE
  {
  }

  /** The address after the last page is 2^32, that is 0, although the end is not. */
  predicate GoesRound(va: nat, size: nat) {
    va + size < SPACE <= va + PageCount(size) * PAGE_SIZE
  }

  /** Pages 0 to `v` are not all mapped once `v` has been unmapped. */
  lemma {:induction false} FoundAgain(view: map<nat, nat>, v: nat, k: nat, j: nat)
    requires k > 0 && j <= v + 1 && Pages(0, j) <= (view - Pages(v, k)).Keys
    ensures j <= v
  {
    PagesAre(v, k);
    PagesAre(0, j);
    assert v in Pages(v, k);
  }

  // ---------- tables are memory in use ----------

  /** Every entry of every table lies in a page that the allocator gave out: writing it
      disturbs no free list, and no other table. */
  lemma {:induction false} TablesInUse(dir: seq<nat>, fixed: set<nat>, owner: map<nat, Block>, live: set<Block>,
                                       i: nat, k: nat)
    requires |dir| == ENTRIES && Backed(dir, fixed, owner, live)
    requires i < ENTRIES && i !in fixed && Present(dir[i]) && k < ENTRIES
    ensures BuddyAllocator.InUse(live, Frame(dir[i]) + 4 * k)
  {
    var b := owner[i];
    var p := FirstPage(b);
    BuddyAllocator.StartPage(b, p);
    assert BuddyAllocator.PageOf(Frame(dir[i]) + 4 * k) == p;
  }
}
