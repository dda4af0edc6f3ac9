/** `vmcopy` of kernel/vm.c: the memory of a forked process.

    The live mapping is the parent's.  Page by page its bytes go through one scratch
    page into a new frame, which then takes the parent's place in the live mapping.
    `get_user_page` hands out the frames of `supply` in order and 0 after the last. */
module VmCopy {
  import BuddyAllocator
  import opened PageTable
  import opened AddressSpace

  /** Page number of the scratch page, at address 0x7F00000. */
  const SCRATCH: nat := 0x7F00
  /** The last page of the address space, which no area reaches. */
  const LAST_PAGE: nat := 0xF_FFFF
  /** `PTE_US | PTE_RW`. */
  const USER_RW: nat := 6

  type Page = seq<nat>

  function At(ram: map<nat, Page>, f: nat): Page {
    if f in ram then ram[f] else []
  }

  // ---------- the copy, on values ----------

  /** The live mapping and what the frames hold. */
  datatype Machine = Machine(view: map<nat, nat>, ram: map<nat, Page>)

  /** The frame behind a page. */
  function FrameOf(view: map<nat, nat>, v: nat): nat {
    if v in view then Frame(view[v]) else 0
  }

  predicate Aligned(supply: seq<nat>) {
    forall i :: 0 <= i < |supply| ==> supply[i] != 0 && supply[i] % PAGE_SIZE == 0
  }

  /** The frames are all different, and none is mapped. */
  ghost predicate Fresh(supply: seq<nat>, view: map<nat, nat>) {
    && Aligned(supply)
    && (forall i, j :: 0 <= i < j < |supply| ==> supply[i] != supply[j])
    && (forall u: nat :: u in view ==> FrameOf(view, u) !in supply)
  }

  /** The pages of `record` have moved to frames of their own among `used`, which hold
      what the pages held; no frame outside `used` has changed. */
  ghost predicate DeepCopy(was: Machine, now: Machine, record: map<nat, nat>, used: seq<nat>) {
    && record.Keys <= was.view.Keys && now.view == was.view + record
    && (forall u :: u in record ==>
          FrameOf(record, u) in used && At(now.ram, FrameOf(record, u)) == At(was.ram, FrameOf(was.view, u)))
    && (forall u, v :: u in record && v in record && u != v ==> FrameOf(record, u) != FrameOf(record, v))
    && (forall f: nat :: f !in used ==> At(now.ram, f) == At(was.ram, f))
  }

  ghost predicate Avoids(record: map<nat, nat>, scratch: nat) {
    forall u :: u in record ==> FrameOf(record, u) != scratch
  }

  /** The frames after one page has gone through the scratch frame into `f`. */
  ghost function Through(ram: map<nat, Page>, src: nat, scratch: nat, f: nat): map<nat, Page> {
    ram[scratch := At(ram, src)][f := At(ram, src)]
  }

  lemma {:induction false} CopyNext(was: Machine, now: Machine, record: map<nat, nat>, used: seq<nat>, scratch: nat,
                                    v: nat, w: nat)
    requires DeepCopy(was, now, record, used) && Avoids(record, scratch) && scratch in used
    requires v in was.view && v !in record && FrameOf(was.view, v) !in used && Frame(w) !in used
    ensures v in now.view && FrameOf(now.view, v) == FrameOf(was.view, v)
    ensures var next := Machine(now.view[v := w], Through(now.ram, FrameOf(was.view, v), scratch, Frame(w)));
            DeepCopy(was, next, record[v := w], used + [Frame(w)]) && Avoids(record[v := w], scratch)
  {
    var next := Machine(now.view[v := w], Through(now.ram, FrameOf(was.view, v), scratch, Frame(w)));
    var more := record[v := w];
    forall u | u in more
      ensures FrameOf(more, u) in used + [Frame(w)] && FrameOf(more, u) != scratch
      ensures At(next.ram, FrameOf(more, u)) == At(was.ram, FrameOf(was.view, u))
      ensures u != v ==> FrameOf(more, u) == FrameOf(record, u) && FrameOf(more, u) in used
    {
      if u != v { assert FrameOf(more, u) == FrameOf(record, u); }
    }
  }

  /** The child's area: the same place and flags, other frames. */
  ghost predicate Alike(a: Area, c: Area, n: nat)
    requires n <= |a.words|
  {
    && c.start == a.start && |c.words| == n
    && forall j :: 0 <= j < n ==> c.words[j] == CopyWord(a.words[j], Frame(c.words[j]))
  }

  /** `PTE_PRESENT`, the flags of `w` and frame `f`. */
  function CopyWord(w: nat, f: nat): (c: nat)
    ensures f % PAGE_SIZE == 0 ==> Present(c) && Frame(c) == f && c == Entry(f, w % PAGE_SIZE)
    ensures Tells(c, Frame(f) / PAGE_SIZE, w % PAGE_SIZE)
  {
    Entry(Frame(f), w % PAGE_SIZE)
  }

  ghost predicate AllAlike(areas: seq<Area>, child: seq<Area>) {
    |child| == |areas| && forall k :: 0 <= k < |areas| ==> Alike(areas[k], child[k], |areas[k].words|)
  }

  /** The child's entries have the parent's flags, all twelve bits of them. */
  lemma {:induction false} AlikeFlags(a: Area, c: Area, n: nat, j: nat)
    requires n <= |a.words| && Alike(a, c, n) && j < n && Present(a.words[j])
    ensures c.words[j] % PAGE_SIZE == a.words[j] % PAGE_SIZE
  {
    var w, x := a.words[j] % PAGE_SIZE, c.words[j] % PAGE_SIZE;
    assert Tells(c.words[j], Frame(Frame(c.words[j])) / PAGE_SIZE, w);
    OddHalves(w, x);
  }

  lemma {:induction false} OddHalves(w: nat, x: nat)
    requires w / 2 == x / 2 && w % 2 == 1 && x % 2 == 1
    ensures w == x
  {
  }

  lemma {:induction false} AlikeKeys(areas: seq<Area>, child: seq<Area>)
    requires AllAlike(areas, child)
    ensures Record(child).Keys == Record(areas).Keys
  {
    if areas != [] {
      var n := |areas| - 1;
      AlikeKeys(areas[..n], child[..n]);
      WordsKeys(First(areas[n]), areas[n].words);
      WordsKeys(First(child[n]), child[n].words);
    }
  }

  /** How many frames it takes to copy the areas. */
  function Total(areas: seq<Area>): nat {
    if areas == [] then 0 else Total(areas[..|areas| - 1]) + |areas[|areas| - 1].words|
  }

  /** Part of the way: the pages of `record` are copied, `used` frames are handed out,
      the first of them for the scratch page, and `left` are still to come. */
  ghost predicate Going(was: Machine, now: Machine, record: map<nat, nat>, used: seq<nat>, left: seq<nat>) {
    && DeepCopy(was, now, record, used)
    && SCRATCH in was.view && SCRATCH !in record && FrameOf(was.view, SCRATCH) in used
    && Avoids(record, FrameOf(was.view, SCRATCH))
    && Aligned(left)
    && (forall i, j :: 0 <= i < j < |left| ==> left[i] != left[j])
    && (forall i :: 0 <= i < |left| ==> left[i] !in used)
    && (left != [] ==> forall u: nat :: u in was.view && u != SCRATCH ==>
          FrameOf(was.view, u) !in used && FrameOf(was.view, u) !in left)
  }

  lemma {:induction false} GoingNext(was: Machine, now: Machine, record: map<nat, nat>, used: seq<nat>,
                                     left: seq<nat>, v: nat, w: nat)
    requires Going(was, now, record, used, [Frame(w)] + left) && v in was.view && v !in record && v != SCRATCH
    ensures v in now.view && FrameOf(now.view, v) == FrameOf(was.view, v)
    ensures FrameOf(now.view, SCRATCH) == FrameOf(was.view, SCRATCH)
    ensures var ram := Through(now.ram, FrameOf(was.view, v), FrameOf(was.view, SCRATCH), Frame(w));
            Going(was, Machine(now.view[v := w], ram), record[v := w], used + [Frame(w)], left)
  {
    var all := [Frame(w)] + left;
    assert all[0] == Frame(w);
    CopyNext(was, now, record, used, FrameOf(was.view, SCRATCH), v, w);
    forall i | 0 <= i < |left| ensures left[i] == all[i + 1] && left[i] != Frame(w) { }
  }

  function More(c: Area, w: nat): Area {
    Area(c.start, c.words + [w])
  }

  /** A page added at the end of an area. */
  lemma {:induction false} MoreMap(c: Area, w: nat, record: map<nat, nat>)
    requires First(c) + |c.words| !in record
    ensures AreaMap(More(c, w)) + record == (AreaMap(c) + record)[First(c) + |c.words| := w]
  {
    assert (c.words + [w])[..|c.words|] == c.words;
  }

  // ---------- the operations ----------

  /** Physical user memory and the allocator for it. */
  class UserMemory {
    var ram: map<nat, Page>
    var supply: seq<nat>

    constructor (ram: map<nat, Page>, supply: seq<nat>)
      ensures this.ram == ram && this.supply == supply
    {
      this.ram, this.supply := ram, supply;
    }

    method GetUserPage() returns (f: nat)
      requires Aligned(supply)
      modifies this`supply
      ensures f == 0 ==> old(supply) == [] && supply == []
      ensures f != 0 ==> old(supply) == [f] + supply && f % PAGE_SIZE == 0
    {
      f := 0;
      if supply != [] {
        f, supply := supply[0], supply[1..];
      }
    }

    method FreeUserPage(f: nat)
      modifies this`supply
      ensures supply == old(supply) + [f]
    {
      supply := supply + [f];
    }

    /** `memcpy` of one page to another, through the live mapping. */
    method CopyPage(pt: PageTables, to: nat, from: nat)
      requires pt.Valid() && Managed(to, pt.fixed) && Managed(from, pt.fixed) && to in pt.view && from in pt.view
      modifies this`ram
      ensures ram == old(ram)[FrameOf(pt.view, to) := At(old(ram), FrameOf(pt.view, from))]
    {
      var dst := pt.Translate(to);
      var src := pt.Translate(from);
      ram := ram[dst := At(ram, src)];
    }
  }

  /** The bytes of page `v` go to the scratch page and from there to frame `pa`, which
      is mapped at `v` in between. */
  method MoveBytes(pt: PageTables, um: UserMemory, v: nat, pa: nat, flags: nat) returns (r: Status)
    requires pt.Valid() && Managed(v, pt.fixed) && Managed(SCRATCH, pt.fixed) && SCRATCH in pt.view && v != SCRATCH
    requires v < LAST_PAGE
    requires v in pt.view && pa % PAGE_SIZE == 0 && flags < PAGE_SIZE
    modifies pt, pt.kmem, um`ram
    ensures pt.Valid() && !r.Failed?
    ensures r.Done? ==> pt.view == old(pt.view)[v := Entry(pa, flags)]
    ensures r.Done? ==> um.ram == Through(old(um.ram), FrameOf(old(pt.view), v), FrameOf(old(pt.view), SCRATCH), pa)
    ensures r.Panic? ==> !BuddyAllocator.CanServe(pt.kmem.live, 0)
  {
    um.CopyPage(pt, SCRATCH, v);
    r := Remap(pt, v, pa, flags);
    if !r.Done? {
      return;
    }
    um.CopyPage(pt, v, SCRATCH);
  }

  /** One round of the loop over the pages of an area: page `v`, whose recorded word
      is `w`, moves to a new frame.  `c` is the word recorded for the child. */
  method MovePage(pt: PageTables, um: UserMemory, v: nat, w: nat) returns (r: Status, c: nat)
    requires pt.Valid() && Managed(v, pt.fixed) && Managed(SCRATCH, pt.fixed) && SCRATCH in pt.view && v != SCRATCH
    requires v < LAST_PAGE
    requires Aligned(um.supply)
    modifies pt, pt.kmem, um
    ensures pt.Valid() && !r.Failed?
    ensures r.Done? ==> v in old(pt.view) && old(um.supply) == [Frame(c)] + um.supply && c == CopyWord(w, Frame(c))
    ensures r.Done? ==> pt.view == old(pt.view)[v := c]
    ensures r.Done? ==> um.ram == Through(old(um.ram), FrameOf(old(pt.view), v), FrameOf(old(pt.view), SCRATCH),
                                          Frame(c))
    ensures r.Panic? ==> v !in old(pt.view) || old(um.supply) == [] || !BuddyAllocator.CanServe(pt.kmem.live, 0)
  {
    c := 0;
    var present := pt.Lookup(v);
    if !present {
      return Panic, c;
    }
    var pa := um.GetUserPage();
    if pa == 0 {
      return Panic, c;
    }
    c := CopyWord(w, pa);
    r := MoveBytes(pt, um, v, pa, w % PAGE_SIZE);
  }

  /** A page moved as part of a copy that started from `was`. */
  method NextPage(pt: PageTables, um: UserMemory, v: nat, w: nat, ghost was: Machine, ghost record: map<nat, nat>,
                  ghost used: seq<nat>)
    returns (r: Status, c: nat)
    requires pt.Valid() && Managed(v, pt.fixed) && Managed(SCRATCH, pt.fixed) && v != SCRATCH && v !in record
    requires v < LAST_PAGE
    requires Going(was, Machine(pt.view, um.ram), record, used, um.supply)
    modifies pt, pt.kmem, um
    ensures pt.Valid() && !r.Failed?
    ensures r.Done? ==> Going(was, Machine(pt.view, um.ram), record[v := c], used + [Frame(c)], um.supply)
    ensures r.Done? ==> old(um.supply) == [Frame(c)] + um.supply && c == CopyWord(w, Frame(c))
    ensures r.Panic? ==> v !in was.view || old(um.supply) == [] || !BuddyAllocator.CanServe(pt.kmem.live, 0)
  {
    ghost var now := Machine(pt.view, um.ram);
    assert SCRATCH in pt.view;
    r, c := MovePage(pt, um, v, w);
    if r.Done? {
      GoingNext(was, now, record, used, um.supply, v, c);
    }
  }

  /** The first `i` pages of an area are copied into `c`. */
  ghost predicate GoingArea(was: Machine, now: Machine, record: map<nat, nat>, used: seq<nat>, left: seq<nat>,
                            a: Area, c: Area, i: nat)
  {
    i <= |a.words| && Alike(a, c, i) && Going(was, now, AreaMap(c) + record, used, left)
  }

  /** What stands in the way of a page that is next in its area: nothing. */
  lemma {:induction false} NextFree(record: map<nat, nat>, a: Area, c: Area, i: nat)
    requires i < |a.words| && Alike(a, c, i) && Held(a) !! record.Keys
    ensures First(a) + i !in record && First(a) + i !in AreaMap(c) + record && First(a) + i in Held(a)
  {
    PagesAre(First(a), |a.words|);
    PagesAre(First(a), i);
    WordsKeys(First(c), c.words);
  }

  lemma {:induction false} AlikeMore(a: Area, c: Area, w: nat)
    requires |c.words| < |a.words| && Alike(a, c, |c.words|) && w == CopyWord(a.words[|c.words|], Frame(w))
    ensures Alike(a, More(c, w), |c.words| + 1)
  {
    var c' := More(c, w);
    assert forall j :: 0 <= j < |c.words| ==> c'.words[j] == c.words[j];
  }

  lemma {:induction false} GoingMore(was: Machine, now: Machine, record: map<nat, nat>, used: seq<nat>,
                                     left: seq<nat>, a: Area, c: Area, w: nat)
    requires |c.words| < |a.words| && Alike(a, c, |c.words|) && First(a) + |c.words| !in record
    requires w == CopyWord(a.words[|c.words|], Frame(w))
    requires Going(was, now, (AreaMap(c) + record)[First(a) + |c.words| := w], used, left)
    ensures GoingArea(was, now, record, used, left, a, More(c, w), |c.words| + 1)
  {
    AlikeMore(a, c, w);
    MoreMap(c, w, record);
  }

  method NextWord(pt: PageTables, um: UserMemory, a: Area, c: Area, ghost was: Machine, ghost record: map<nat, nat>,
                  ghost used: seq<nat>)
    returns (r: Status, c': Area)
    requires pt.Valid() && Proper(a, pt.fixed) && Managed(SCRATCH, pt.fixed) && SCRATCH !in Held(a)
             && Held(a) !! record.Keys
    requires |c.words| < |a.words| && GoingArea(was, Machine(pt.view, um.ram), record, used, um.supply, a, c, |c.words|)
    modifies pt, pt.kmem, um
    ensures pt.Valid() && !r.Failed?
    ensures r.Done? ==> |c'.words| == |c.words| + 1 && old(um.supply) == [Frame(c'.words[|c.words|])] + um.supply
    ensures r.Done? ==> GoingArea(was, Machine(pt.view, um.ram), record, used + [Frame(c'.words[|c.words|])],
                                  um.supply, a, c', |c'.words|)
    ensures r.Panic? ==>
              !(Held(a) <= was.view.Keys) || old(um.supply) == [] || !BuddyAllocator.CanServe(pt.kmem.live, 0)
  {
    NextFree(record, a, c, |c.words|);
    var w;
    r, w := NextPage(pt, um, First(a) + |c.words|, a.words[|c.words|], was, AreaMap(c) + record, used);
    c' := More(c, w);
    if r.Done? {
      GoingMore(was, Machine(pt.view, um.ram), record, used + [Frame(w)], um.supply, a, c, w);
    }
  }

  lemma {:induction false} Shift(used: seq<nat>, f: nat, left: seq<nat>)
    ensures (used + [f]) + left == used + ([f] + left)
  {
  }

  /** The loop over the pages of an area. */
  method CopyArea(pt: PageTables, um: UserMemory, a: Area, ghost was: Machine, ghost record: map<nat, nat>,
                  ghost used: seq<nat>)
    returns (r: Status, c: Area, ghost used': seq<nat>)
    requires pt.Valid() && Proper(a, pt.fixed) && Managed(SCRATCH, pt.fixed) && SCRATCH !in Held(a)
             && Held(a) !! record.Keys
    requires Going(was, Machine(pt.view, um.ram), record, used, um.supply)
    modifies pt, pt.kmem, um
    ensures pt.Valid() && !r.Failed?
    ensures r.Done? ==> used' + um.supply == used + old(um.supply) && |um.supply| == |old(um.supply)| - |a.words|
    ensures r.Done? ==> GoingArea(was, Machine(pt.view, um.ram), record, used', um.supply, a, c, |a.words|)
    ensures r.Panic? ==>
              !(Held(a) <= was.view.Keys) || |old(um.supply)| < |a.words| || !BuddyAllocator.CanServe(pt.kmem.live, 0)
  {
    r, c, used' := Done, Area(a.start, []), used;
    assert AreaMap(c) + record == record;
    while |c.words| < |a.words|
      invariant pt.Valid() && r.Done? && used' + um.supply == used + old(um.supply)
      invariant |um.supply| == |old(um.supply)| - |c.words|
      invariant GoingArea(was, Machine(pt.view, um.ram), record, used', um.supply, a, c, |c.words|)
      decreases |a.words| - |c.words|
    {
      var n := |c.words|;
      r, c := NextWord(pt, um, a, c, was, record, used');
      if r.Panic? {
        return;
      }
      Shift(used', Frame(c.words[n]), um.supply);
      used' := used' + [Frame(c.words[n])];
    }
  }

  ghost predicate NoScratch(areas: seq<Area>) {
    forall i :: 0 <= i < |areas| ==> SCRATCH !in Held(areas[i])
  }

  lemma {:induction false} HeldInRecord(areas: seq<Area>, i: nat)
    requires i < |areas|
    ensures Held(areas[i]) <= Record(areas).Keys
    ensures Total(areas[..i]) + |areas[i].words| <= Total(areas)
  {
    var n := |areas| - 1;
    if i < n {
      HeldInRecord(areas[..n], i);
      assert areas[..n][..i] == areas[..i];
    } else {
      WordsKeys(First(areas[i]), areas[i].words);
    }
  }

  /** The first areas are copied into `child`. */
  ghost predicate GoingAreas(was: Machine, now: Machine, used: seq<nat>, left: seq<nat>, areas: seq<Area>,
                             child: seq<Area>, i: nat)
  {
    i <= |areas| && AllAlike(areas[..i], child) && Going(was, now, Record(child), used, left)
  }

  lemma {:induction false} AreaFree(areas: seq<Area>, child: seq<Area>, i: nat)
    requires i < |areas| && AllAlike(areas[..i], child) && Disjoint(areas)
    ensures Held(areas[i]) !! Record(child).Keys
  {
    AlikeKeys(areas[..i], child);
    RecordApart(areas[..i], areas[i]);
  }

  lemma {:induction false} GoingOn(was: Machine, now: Machine, used: seq<nat>, left: seq<nat>, areas: seq<Area>,
                                   child: seq<Area>, i: nat, c: Area)
    requires i < |areas| && AllAlike(areas[..i], child)
    requires GoingArea(was, now, Record(child), used, left, areas[i], c, |areas[i].words|)
    ensures GoingAreas(was, now, used, left, areas, child + [c], i + 1)
    ensures Total(areas[..i + 1]) == Total(areas[..i]) + |areas[i].words|
  {
    assert (child + [c])[..i] == child;
    assert areas[..i + 1][..i] == areas[..i];
  }

  /** One round of the loop over the areas. */
  method NextArea(pt: PageTables, um: UserMemory, areas: seq<Area>, child: seq<Area>, ghost was: Machine,
                  ghost used: seq<nat>)
    returns (r: Status, c: Area, ghost used': seq<nat>)
    requires pt.Valid() && AllProper(areas, pt.fixed) && Managed(SCRATCH, pt.fixed) && NoScratch(areas)
             && Disjoint(areas)
    requires |child| < |areas| && GoingAreas(was, Machine(pt.view, um.ram), used, um.supply, areas, child, |child|)
    modifies pt, pt.kmem, um
    ensures pt.Valid() && !r.Failed?
    ensures r.Done? ==> used' + um.supply == used + old(um.supply)
    ensures r.Done? ==> |um.supply| + Total(areas[..|child| + 1]) == |old(um.supply)| + Total(areas[..|child|])
    ensures r.Done? ==> GoingAreas(was, Machine(pt.view, um.ram), used', um.supply, areas, child + [c], |child| + 1)
    ensures r.Panic? ==>
              !(Record(areas).Keys <= was.view.Keys)
              || |old(um.supply)| + Total(areas[..|child|]) < Total(areas) || !BuddyAllocator.CanServe(pt.kmem.live, 0)
  {
    ghost var i := |child|;
    AreaFree(areas, child, i);
    HeldInRecord(areas, i);
    r, c, used' := CopyArea(pt, um, areas[|child|], was, Record(child), used);
    if r.Done? {
      GoingOn(was, Machine(pt.view, um.ram), used', um.supply, areas, child, i, c);
    }
  }

  /** The loop over the areas. */
  method CopyAreas(pt: PageTables, um: UserMemory, areas: seq<Area>, ghost was: Machine, ghost used: seq<nat>)
    returns (r: Status, child: seq<Area>, ghost used': seq<nat>)
    requires pt.Valid() && AllProper(areas, pt.fixed) && Managed(SCRATCH, pt.fixed) && NoScratch(areas)
             && Disjoint(areas)
    requires Going(was, Machine(pt.view, um.ram), map[], used, um.supply)
    modifies pt, pt.kmem, um
    ensures pt.Valid() && !r.Failed?
    ensures r.Done? ==> used' + um.supply == used + old(um.supply) && |um.supply| == |old(um.supply)| - Total(areas)
    ensures r.Done? ==> AllAlike(areas, child) && Going(was, Machine(pt.view, um.ram), Record(child), used', um.supply)
    ensures r.Panic? ==>
              !(Record(areas).Keys <= was.view.Keys) || |old(um.supply)| < Total(areas)
              || !BuddyAllocator.CanServe(pt.kmem.live, 0)
  {
    r, child, used' := Done, [], used;
    while |child| < |areas|
      invariant |child| <= |areas| && pt.Valid() && r.Done? && used' + um.supply == used + old(um.supply)
      invariant |um.supply| + Total(areas[..|child|]) == |old(um.supply)|
      invariant GoingAreas(was, Machine(pt.view, um.ram), used', um.supply, areas, child, |child|)
      decreases |areas| - |child|
    {
      var c;
      r, c, used' := NextArea(pt, um, areas, child, was, used');
      if r.Panic? {
        return;
      }
      child := child + [c];
    }
    assert areas[..|child|] == areas;
  }

  lemma {:induction false} Replaced(view: map<nat, nat>, v: nat, w: nat)
    ensures map[v := w] + (view - {v}) == view[v := w]
  {
  }

  /** `freemap` and `mmap` of the same page. */
  method Remap(pt: PageTables, v: nat, pa: nat, flags: nat) returns (r: Status)
    requires pt.Valid() && Managed(v, pt.fixed) && v < LAST_PAGE && v in pt.view
    requires pa % PAGE_SIZE == 0 && flags < PAGE_SIZE
    modifies pt, pt.kmem
    ensures pt.Valid() && !r.Failed?
    ensures r.Done? ==> pt.view == old(pt.view)[v := Entry(pa, flags)]
    ensures r.Panic? ==> !BuddyAllocator.CanServe(pt.kmem.live, 0)
  {
    PageOf(0, v);
    Replaced(pt.view, v, Entry(pa, flags));
    UnmapPage(pt, v);
    r := MapFrame(pt, v * PAGE_SIZE, pa, flags);
  }

  /** `freemap` of one mapped page. */
  method UnmapPage(pt: PageTables, v: nat)
    requires pt.Valid() && Managed(v, pt.fixed) && v < LAST_PAGE && v in pt.view
    modifies pt
    ensures pt.Valid() && pt.view == old(pt.view) - {v}
  {
    PageOf(0, v);
    ghost var k, j;
    var r;
    r, k, j := pt.Freemap(v * PAGE_SIZE, PAGE_SIZE);
    assert Pages(v, 1) == {v};
  }

  /** What `get_user_page` hands out: the first result is 0 when there is nothing. */
  function Frames(supply: seq<nat>): seq<nat> {
    if supply == [] then [0] else supply
  }

  /** Before the first page: only the scratch page has been added. */
  lemma {:induction false} GoingFirst(view: map<nat, nat>, ram: map<nat, Page>, supply: seq<nat>, w: nat)
    requires Fresh(supply, view) && Frame(w) == Frames(supply)[0] && SCRATCH !in view
    ensures var was := Machine(view[SCRATCH := w], ram);
            Going(was, was, map[], [Frames(supply)[0]], Frames(supply)[1..])
  {
    assert view[SCRATCH := w] + map[] == view[SCRATCH := w];
  }

  /** After the last: the scratch page is gone again. */
  lemma {:induction false} GoingLast(view: map<nat, nat>, ram: map<nat, Page>, now: Machine, record: map<nat, nat>,
                                     used: seq<nat>, left: seq<nat>, w: nat)
    requires SCRATCH !in view && Going(Machine(view[SCRATCH := w], ram), now, record, used, left)
    ensures DeepCopy(Machine(view, ram), Machine(now.view - {SCRATCH}, now.ram), record, used)
  {
    var was := Machine(view[SCRATCH := w], ram);
    forall u | u in record ensures u in view && FrameOf(view, u) == FrameOf(was.view, u) { }
  }

  lemma {:induction false} Line(supply: seq<nat>, used: seq<nat>, left: seq<nat>, n: nat)
    requires used + left == supply && |left| + n == |supply|
    ensures n <= |supply| && used == supply[..n] && left == supply[n..]
  {
  }

  /** Up to the loops: a frame for the scratch page, mapped. */
  method OpenScratch(pt: PageTables, um: UserMemory) returns (r: Status, scratch: nat)
    requires pt.Valid() && Managed(SCRATCH, pt.fixed) && SCRATCH !in pt.view && Fresh(um.supply, pt.view)
    modifies pt, pt.kmem, um`supply
    ensures pt.Valid() && !r.Failed? && scratch % PAGE_SIZE == 0 && Frames(old(um.supply)) == [scratch] + um.supply
    ensures r.Done? ==> pt.view == old(pt.view)[SCRATCH := Entry(scratch, USER_RW)]
    ensures r.Done? ==> var m := Machine(pt.view, um.ram); Going(m, m, map[], [scratch], um.supply)
    ensures r.Panic? ==> !BuddyAllocator.CanServe(pt.kmem.live, 0)
  {
    scratch := um.GetUserPage();
    PageOf(0, SCRATCH);
    r := MapFrame(pt, SCRATCH * PAGE_SIZE, scratch, USER_RW);
    GoingFirst(old(pt.view), um.ram, old(um.supply), Entry(scratch, USER_RW));
  }

  /** After the loops: the scratch page is unmapped and its frame given back. */
  method CloseScratch(pt: PageTables, um: UserMemory, scratch: nat, ghost was: Machine, ghost record: map<nat, nat>,
                      ghost used: seq<nat>)
    requires pt.Valid() && Managed(SCRATCH, pt.fixed) && SCRATCH !in was.view && scratch % PAGE_SIZE == 0
    requires var m := was.(view := was.view[SCRATCH := Entry(scratch, USER_RW)]);
             Going(m, Machine(pt.view, um.ram), record, used, um.supply)
    modifies pt, um`supply
    ensures pt.Valid() && DeepCopy(was, Machine(pt.view, um.ram), record, used)
            && um.supply == old(um.supply) + [scratch]
  {
    GoingLast(was.view, was.ram, Machine(pt.view, um.ram), record, used, um.supply, Entry(scratch, USER_RW));
    UnmapPage(pt, SCRATCH);
    um.FreeUserPage(scratch);
  }

  /** How a copy ends: the child's records, a deep copy, and the scratch frame last in
      line.  `was` is the machine before it, `frames` what the allocator hands out. */
  ghost predicate Copied(was: Machine, now: Machine, areas: seq<Area>, child: seq<Area>, frames: seq<nat>,
                         left: seq<nat>)
  {
    && AllAlike(areas, child) && 1 + Total(areas) <= |frames|
    && DeepCopy(was, now, Record(child), frames[..1 + Total(areas)])
    && left == frames[1 + Total(areas)..] + [frames[0]]
  }

  lemma {:induction false} CopiedIs(was: Machine, now: Machine, areas: seq<Area>, child: seq<Area>, frames: seq<nat>,
                                    used: seq<nat>, left: seq<nat>)
    requires AllAlike(areas, child) && frames != [] && used + left == frames && |left| + 1 + Total(areas) == |frames|
    requires DeepCopy(was, now, Record(child), used)
    ensures Copied(was, now, areas, child, frames, left + [frames[0]])
  {
    Line(frames, used, left, 1 + Total(areas));
  }

  /** The loops and what follows them. */
  method CopyThrough(pt: PageTables, um: UserMemory, areas: seq<Area>, scratch: nat, ghost was: Machine)
    returns (r: Status, child: seq<Area>)
    requires pt.Valid() && AllProper(areas, pt.fixed) && Managed(SCRATCH, pt.fixed) && NoScratch(areas)
             && Disjoint(areas)
    requires SCRATCH !in was.view && scratch % PAGE_SIZE == 0
    requires Machine(pt.view, um.ram) == was.(view := was.view[SCRATCH := Entry(scratch, USER_RW)])
    requires Going(Machine(pt.view, um.ram), Machine(pt.view, um.ram), map[], [scratch], um.supply)
    modifies pt, pt.kmem, um
    ensures pt.Valid() && !r.Failed?
    ensures r.Done? ==> Copied(was, Machine(pt.view, um.ram), areas, child, [scratch] + old(um.supply), um.supply)
    ensures r.Panic? ==> || !(Record(areas).Keys <= old(pt.view).Keys) || |old(um.supply)| < Total(areas)
                         || !BuddyAllocator.CanServe(pt.kmem.live, 0)
  {
    ghost var used;
    r, child, used := CopyAreas(pt, um, areas, Machine(pt.view, um.ram), [scratch]);
    if r.Panic? {
      return;
    }
    ghost var left := um.supply;
    CloseScratch(pt, um, scratch, was, Record(child), used);
    CopiedIs(was, Machine(pt.view, um.ram), areas, child, [scratch] + old(um.supply), used, left);
  }

  /** `vmcopy`: a deep copy of the areas. */
  method VmCopy(pt: PageTables, um: UserMemory, areas: seq<Area>) returns (r: Status, child: seq<Area>)
    requires pt.Valid() && AllProper(areas, pt.fixed) && Managed(SCRATCH, pt.fixed) && NoScratch(areas)
             && Disjoint(areas)
    requires SCRATCH !in pt.view && Fresh(um.supply, pt.view)
    modifies pt, pt.kmem, um
    ensures pt.Valid() && !r.Failed?
    ensures r.Done? ==> Copied(old(Machine(pt.view, um.ram)), Machine(pt.view, um.ram), areas, child,
                               Frames(old(um.supply)), um.supply)
    ensures r.Panic? ==> || !(Record(areas).Keys <= old(pt.view).Keys) || |Frames(old(um.supply))| < 1 + Total(areas)
                         || !BuddyAllocator.CanServe(pt.kmem.live, 0)
  {
    child := [];
    var scratch;
    ghost var was := Machine(pt.view, um.ram);
    r, scratch := OpenScratch(pt, um);
    if r.Done? {
      assert was.view.Keys <= pt.view.Keys;
      r, child := CopyThrough(pt, um, areas, scratch, was);
    }
  }

  // ---------- what the copy is worth ----------

  /** Parent and child share no frame, and the parent's frames hold what they held. */
  lemma {:induction false} CopyIsApart(was: Machine, now: Machine, record: map<nat, nat>, used: seq<nat>, u: nat)
    requires DeepCopy(was, now, record, used) && Fresh(used, was.view) && u in was.view
    ensures At(now.ram, FrameOf(was.view, u)) == At(was.ram, FrameOf(was.view, u))
    ensures forall v :: v in record ==> FrameOf(record, v) != FrameOf(was.view, u)
  {
  }

  lemma {:induction false} AlikeDisjoint(areas: seq<Area>, child: seq<Area>)
    requires AllAlike(areas, child) && Disjoint(areas)
    ensures Disjoint(child)
  {
    forall i, j | 0 <= i < j < |child| ensures Held(child[i]) !! Held(child[j]) {
      assert Alike(areas[i], child[i], |areas[i].words|) && Alike(areas[j], child[j], |areas[j].words|);
      assert Held(areas[i]) !! Held(areas[j]);
    }
  }

  lemma {:induction false} Overlaid(base: map<nat, nat>, m: map<nat, nat>, n: map<nat, nat>)
    requires m.Keys == n.Keys
    ensures base + m + n == base + n
  {
  }

  /** When the child gives way to the parent, the mapping is the one before the copy. */
  lemma {:induction false} ParentReturns(base: map<nat, nat>, was: Machine, now: Machine, areas: seq<Area>,
                                         child: seq<Area>, used: seq<nat>)
    requires was.view == base + Record(areas) && base.Keys !! Record(areas).Keys && Disjoint(areas)
    requires AllAlike(areas, child) && DeepCopy(was, now, Record(child), used)
    ensures Switched(now.view, User(child), User(areas)) == was.view
  {
    AlikeKeys(areas, child);
    Overlaid(base, Record(areas), Record(child));
    AlikeDisjoint(areas, child);
    SwitchIsExact(base, User(child), User(areas));
  }
}
