/** Switching the user mapping between processes, as in kernel/access.c.

    A process records its memory as a list of areas; each area has a start address
    and one entry word per page.  `__umap` takes the pages of one process out of the
    live tables and puts those of another in.  Neither half looks at the results of
    `mmap` and `freemap`, so what is left behind depends on what was there. */
module AddressSpace {
  import BuddyAllocator
  import opened PageTable

  /** `vm_area_t`: `vmend` is the start plus one page per word. */
  datatype Area = Area(start: nat, words: seq<nat>)

  /** The init process has no user memory of its own. */
  datatype Thread = Init | User(areas: seq<Area>)

  // ---------- what an area records ----------

  function First(a: Area): nat {
    a.start / PAGE_SIZE
  }

  ghost function Held(a: Area): set<nat> {
    Pages(First(a), |a.words|)
  }

  /** The pages are ones `mmap` manages, the words are entries, and `vmend` is a word. */
  ghost predicate Proper(a: Area, fixed: set<nat>) {
    && a.start + |a.words| * PAGE_SIZE < SPACE
    && AllManaged(First(a), |a.words|, fixed)
    && forall i :: 0 <= i < |a.words| ==> Present(a.words[i])
  }

  ghost predicate AllProper(areas: seq<Area>, fixed: set<nat>) {
    forall i :: 0 <= i < |areas| ==> Proper(areas[i], fixed)
  }

  ghost function Words(v: nat, words: seq<nat>): map<nat, nat> {
    if words == [] then map[] else Words(v, words[..|words| - 1])[v + |words| - 1 := words[|words| - 1]]
  }

  ghost function AreaMap(a: Area): map<nat, nat> {
    Words(First(a), a.words)
  }

  lemma {:induction false} WordsKeys(v: nat, words: seq<nat>)
    ensures Words(v, words).Keys == Pages(v, |words|)
  {
    if words != [] { WordsKeys(v, words[..|words| - 1]); }
  }

  /** Page `i` of an area has word `i`. */
  lemma {:induction false} WordsAt(v: nat, words: seq<nat>, i: nat)
    requires i < |words|
    ensures v + i in Words(v, words) && Words(v, words)[v + i] == words[i]
  {
    var n := |words| - 1;
    if i < n { WordsAt(v, words[..n], i); }
  }

  /** The first `i` pages of an area have been laid under `was`. */
  ghost predicate Laid(was: map<nat, nat>, now: map<nat, nat>, a: Area, i: nat)
    requires i <= |a.words|
  {
    now == Words(First(a), a.words[..i]) + was
  }

  lemma {:induction false} LaidNext(was: map<nat, nat>, now: map<nat, nat>, a: Area, i: nat)
    requires i < |a.words| && Laid(was, now, a, i)
    ensures Laid(was, map[First(a) + i := a.words[i]] + now, a, i + 1)
  {
    assert a.words[..i + 1][..i] == a.words[..i];
    WordsKeys(First(a), a.words[..i]);
    PagesAre(First(a), i);
  }

  lemma {:induction false} LaidAll(was: map<nat, nat>, now: map<nat, nat>, a: Area)
    ensures Laid(was, now, a, 0) <==> now == was
    ensures Laid(was, now, a, |a.words|) <==> now == AreaMap(a) + was
  {
    assert a.words[..|a.words|] == a.words;
    assert map[] + was == was;
  }

  /** All that the areas record.  Where areas overlap the earlier one counts. */
  ghost function Record(areas: seq<Area>): map<nat, nat> {
    if areas == [] then map[] else AreaMap(areas[|areas| - 1]) + Record(areas[..|areas| - 1])
  }

  // ---------- removing what an area records ----------

  /** How many of the pages from `v` on are mapped before the first that is not. */
  ghost function Leading(view: map<nat, nat>, v: nat, n: nat): nat
    decreases n
  {
    if n == 0 || v !in view then 0 else 1 + Leading(view, v + 1, n - 1)
  }

  lemma {:induction false} LeadingIs(view: map<nat, nat>, v: nat, n: nat, k: nat)
    requires k <= n && Pages(v, k) <= view.Keys && (k < n ==> v + k !in view)
    ensures Leading(view, v, n) == k
    decreases n
  {
    PagesAre(v, k);
    if k > 0 {
      assert v in Pages(v, k);
      PagesAre(v + 1, k - 1);
      assert Pages(v + 1, k - 1) <= Pages(v, k);
      LeadingIs(view, v + 1, n - 1, k - 1);
    }
  }

  ghost function CutArea(view: map<nat, nat>, a: Area): map<nat, nat> {
    view - Pages(First(a), Leading(view, First(a), |a.words|))
  }

  ghost function Cut(view: map<nat, nat>, areas: seq<Area>): map<nat, nat> {
    if areas == [] then view else CutArea(Cut(view, areas[..|areas| - 1]), areas[|areas| - 1])
  }

  // ---------- the switch ----------

  ghost function Leave(view: map<nat, nat>, t: Thread): map<nat, nat> {
    if t.Init? then view else Cut(view, t.areas)
  }

  ghost function Owned(t: Thread): map<nat, nat> {
    if t.Init? then map[] else Record(t.areas)
  }

  ghost predicate Disjoint(areas: seq<Area>) {
    forall i, j :: 0 <= i < j < |areas| ==> Held(areas[i]) !! Held(areas[j])
  }

  ghost predicate Tidy(t: Thread) {
    t.User? ==> Disjoint(t.areas)
  }

  /** The effect of `__umap` on the translations. */
  ghost function Switched(view: map<nat, nat>, from: Thread, to: Thread): map<nat, nat> {
    Owned(to) + Leave(view, from)
  }

  lemma {:induction false} RecordApart(areas: seq<Area>, a: Area)
    requires forall i :: 0 <= i < |areas| ==> Held(areas[i]) !! Held(a)
    ensures Record(areas).Keys !! Held(a)
  {
    if areas != [] {
      var n := |areas| - 1;
      RecordApart(areas[..n], a);
      WordsKeys(First(areas[n]), areas[n].words);
      assert Held(areas[n]) !! Held(a);
    }
  }

  /** With no page in two areas, every page has the word recorded for it. */
  lemma {:induction false} RecordAt(areas: seq<Area>, k: nat, i: nat)
    requires Disjoint(areas) && k < |areas| && i < |areas[k].words|
    ensures var u := areas[k].start / PAGE_SIZE + i; u in Record(areas) && Record(areas)[u] == areas[k].words[i]
  {
    var n := |areas| - 1;
    var a, rest, u := areas[n], areas[..n], areas[k].start / PAGE_SIZE + i;
    WordsAt(First(areas[k]), areas[k].words, i);
    if k < n {
      RecordAt(rest, k, i);
    } else {
      RecordApart(rest, a);
      WordsKeys(First(a), a.words);
      assert u in Held(a);
    }
  }

  /** And there are no other pages. */
  lemma {:induction false} RecordOnly(areas: seq<Area>, u: nat) returns (k: nat, i: nat)
    requires u in Record(areas)
    ensures k < |areas| && i < |areas[k].words| && u == areas[k].start / PAGE_SIZE + i
  {
    var n := |areas| - 1;
    WordsKeys(First(areas[n]), areas[n].words);
    PagesAre(First(areas[n]), |areas[n].words|);
    if u in AreaMap(areas[n]) {
      k, i := n, u - First(areas[n]);
    } else {
      k, i := RecordOnly(areas[..n], u);
    }
  }

  /** With every page of the areas mapped, and no page in two of them, all go. */
  lemma {:induction false} CutsAll(view: map<nat, nat>, areas: seq<Area>)
    requires Disjoint(areas) && Record(areas).Keys <= view.Keys
    ensures Cut(view, areas) == view - Record(areas).Keys
  {
    if areas != [] {
      var n := |areas| - 1;
      var a, rest := areas[n], areas[..n];
      CutsAll(view, rest);
      RecordApart(rest, a);
      WordsKeys(First(a), a.words);
      var left := Cut(view, rest);
      assert Held(a) <= left.Keys;
      LeadingIs(left, First(a), |a.words|, |a.words|);
    }
  }

  /** If the live mapping is that of `from` beside pages that are neither's, then
      afterwards it is that of `to` beside the same pages. */
  lemma {:induction false} SwitchIsExact(base: map<nat, nat>, from: Thread, to: Thread)
    requires Tidy(from) && base.Keys !! Owned(from).Keys && base.Keys !! Owned(to).Keys
    ensures Switched(base + Owned(from), from, to) == base + Owned(to)
  {
    var view := base + Owned(from);
    if from.User? { CutsAll(view, from.areas); }
    assert Leave(view, from) == base;
  }

  /** So every page recorded for `to` has its recorded word afterwards, and a page that
      `from` had and `to` does not is gone. */
  lemma {:induction false} SwitchShows(base: map<nat, nat>, from: Thread, to: Thread, k: nat, i: nat, u: nat)
    requires Tidy(from) && Tidy(to) && base.Keys !! Owned(from).Keys && base.Keys !! Owned(to).Keys
    requires to.User? && k < |to.areas| && i < |to.areas[k].words| && u in Owned(from) && u !in Owned(to)
    ensures var now, v := Switched(base + Owned(from), from, to), to.areas[k].start / PAGE_SIZE + i;
            v in now && now[v] == to.areas[k].words[i] && u !in now
  {
    SwitchIsExact(base, from, to);
    RecordAt(to.areas, k, i);
  }

  /** Switching away and back restores the address space. */
  lemma {:induction false} SwitchBack(base: map<nat, nat>, from: Thread, to: Thread)
    requires Tidy(from) && Tidy(to) && base.Keys !! Owned(from).Keys && base.Keys !! Owned(to).Keys
    ensures var view := base + Owned(from); Switched(Switched(view, from, to), to, from) == view
  {
    SwitchIsExact(base, from, to);
    SwitchIsExact(base, to, from);
  }

  ghost function Switches(view: map<nat, nat>, run: seq<Thread>): map<nat, nat>
    requires run != []
  {
    if |run| == 1 then view else Switched(Switches(view, run[..|run| - 1]), run[|run| - 2], run[|run| - 1])
  }

  /** Over any run of switches the live mapping is that of the running process:
      no page of another one stays behind. */
  lemma {:induction false} RunningAlone(base: map<nat, nat>, run: seq<Thread>)
    requires run != [] && forall i :: 0 <= i < |run| ==> Tidy(run[i]) && base.Keys !! Owned(run[i]).Keys
    ensures Switches(base + Owned(run[0]), run) == base + Owned(run[|run| - 1])
  {
    var n := |run| - 1;
    if n > 0 {
      RunningAlone(base, run[..n]);
      SwitchIsExact(base, run[n - 1], run[n]);
    }
  }

  // ---------- the operations ----------

  lemma {:induction false} PageOf(start: nat, i: nat)
    ensures (start + i * PAGE_SIZE) / PAGE_SIZE == start / PAGE_SIZE + i
  {
  }

  /** `mmap` of one page puts its entry in the table, unless the page is taken. */
  method MapFrame(pt: PageTables, va: nat, pa: nat, flags: nat) returns (r: Status)
    requires pt.Valid() && Managed(va / PAGE_SIZE, pt.fixed) && pa % PAGE_SIZE == 0 && flags < PAGE_SIZE
    modifies pt, pt.kmem
    ensures pt.Valid()
    ensures !r.Panic? ==> pt.view == map[va / PAGE_SIZE := Entry(pa, flags)] + old(pt.view)
    ensures r.Failed? <==> va / PAGE_SIZE in old(pt.view)
    ensures r.Panic? ==> pt.view == old(pt.view) && !BuddyAllocator.CanServe(pt.kmem.live, 0)
  {
    ghost var k;
    r, k := pt.Mmap(va, pa, PAGE_SIZE, flags);
    assert NthEntry(pa, 0, flags) == Entry(pa, flags);
    assert Pages(va / PAGE_SIZE, 0) == {} && Pages(va / PAGE_SIZE, 1) == {va / PAGE_SIZE};
    assert Run(va / PAGE_SIZE, 0, pa, flags) == map[];
    assert Run(va / PAGE_SIZE, 1, pa, flags) == map[va / PAGE_SIZE := Entry(pa, flags)];
  }

  lemma {:induction false} WordIs(w: nat)
    requires Present(w)
    ensures Frame(w) % PAGE_SIZE == 0 && Entry(Frame(w), w % PAGE_SIZE) == w
  {
  }

  /** Mapping a recorded word puts that word in the table. */
  method MapWord(pt: PageTables, va: nat, w: nat) returns (r: Status)
    requires pt.Valid() && Managed(va / PAGE_SIZE, pt.fixed) && Present(w)
    modifies pt, pt.kmem
    ensures pt.Valid()
    ensures !r.Panic? ==> pt.view == map[va / PAGE_SIZE := w] + old(pt.view)
    ensures r.Panic? ==> !BuddyAllocator.CanServe(pt.kmem.live, 0)
  {
    WordIs(w);
    r := MapFrame(pt, va, Frame(w), w % PAGE_SIZE);
  }

  /** One round of `_user_mem_mmap`. */
  method LayWord(pt: PageTables, a: Area, i: nat, ghost was: map<nat, nat>) returns (r: Status)
    requires pt.Valid() && Proper(a, pt.fixed) && i < |a.words| && Laid(was, pt.view, a, i)
    modifies pt, pt.kmem
    ensures pt.Valid() && (!r.Panic? ==> Laid(was, pt.view, a, i + 1))
    ensures r.Panic? ==> !BuddyAllocator.CanServe(pt.kmem.live, 0)
  {
    LaidNext(was, pt.view, a, i);
    PageOf(a.start, i);
    r := MapWord(pt, a.start + i * PAGE_SIZE, a.words[i]);
  }

  /** `_user_mem_mmap`: the recorded pages, laid under what is mapped already. */
  method MapArea(pt: PageTables, a: Area) returns (r: Status)
    requires pt.Valid() && Proper(a, pt.fixed)
    modifies pt, pt.kmem
    ensures pt.Valid() && !r.Failed?
    ensures r.Done? ==> pt.view == AreaMap(a) + old(pt.view)
    ensures r.Panic? ==> !BuddyAllocator.CanServe(pt.kmem.live, 0)
  {
    r := Done;
    var i := 0;
    LaidAll(pt.view, pt.view, a);
    while i < |a.words|
      invariant i <= |a.words| && pt.Valid() && r.Done? && Laid(old(pt.view), pt.view, a, i)
    {
      var s := LayWord(pt, a, i, old(pt.view));
      if s.Panic? {
        return Panic;
      }
      i := i + 1;
    }
    LaidAll(old(pt.view), pt.view, a);
  }

  /** The first areas have been laid under `was`. */
  ghost predicate AreasLaid(was: map<nat, nat>, now: map<nat, nat>, areas: seq<Area>, i: nat)
    requires i <= |areas|
  {
    now == Record(areas[..i]) + was
  }

  lemma {:induction false} AreasLaidNext(was: map<nat, nat>, now: map<nat, nat>, areas: seq<Area>, i: nat)
    requires i < |areas| && AreasLaid(was, now, areas, i)
    ensures AreasLaid(was, AreaMap(areas[i]) + now, areas, i + 1)
  {
    assert areas[..i + 1][..i] == areas[..i];
  }

  lemma {:induction false} AreasLaidAll(was: map<nat, nat>, now: map<nat, nat>, areas: seq<Area>)
    ensures AreasLaid(was, now, areas, 0) <==> now == was
    ensures AreasLaid(was, now, areas, |areas|) <==> now == Record(areas) + was
  {
    assert areas[..|areas|] == areas;
    assert map[] + was == was;
  }

  /** `user_mem_map`, for a process whose memory has been set up. */
  method UserMemMap(pt: PageTables, areas: seq<Area>) returns (r: Status)
    requires pt.Valid() && AllProper(areas, pt.fixed)
    modifies pt, pt.kmem
    ensures pt.Valid() && !r.Failed?
    ensures r.Done? ==> pt.view == Record(areas) + old(pt.view)
    ensures r.Panic? ==> !BuddyAllocator.CanServe(pt.kmem.live, 0)
  {
    r := Done;
    var i := 0;
    AreasLaidAll(pt.view, pt.view, areas);
    while i < |areas|
      invariant i <= |areas| && pt.Valid() && r.Done? && AreasLaid(old(pt.view), pt.view, areas, i)
    {
      AreasLaidNext(old(pt.view), pt.view, areas, i);
      r := MapArea(pt, areas[i]);
      if r.Panic? {
        return;
      }
      i := i + 1;
    }
    AreasLaidAll(old(pt.view), pt.view, areas);
  }

  /** One round of `user_mem_unmap`. */
  method UnmapArea(pt: PageTables, a: Area)
    requires pt.Valid() && Proper(a, pt.fixed)
    modifies pt
    ensures pt.Valid() && pt.view == CutArea(old(pt.view), a)
  {
    ghost var k, j;
    var r;
    r, k, j := pt.Freemap(a.start, |a.words| * PAGE_SIZE);
    LeadingIs(old(pt.view), First(a), |a.words|, k);
  }

  /** `user_mem_unmap`. */
  method UserMemUnmap(pt: PageTables, areas: seq<Area>)
    requires pt.Valid() && AllProper(areas, pt.fixed)
    modifies pt
    ensures pt.Valid() && pt.view == Cut(old(pt.view), areas)
  {
    var i := 0;
    while i < |areas|
      invariant i <= |areas| && pt.Valid() && pt.view == Cut(old(pt.view), areas[..i])
    {
      assert areas[..i + 1][..i] == areas[..i];
      UnmapArea(pt, areas[i]);
      i := i + 1;
    }
    assert areas[..i] == areas;
  }

  /** `__umap`. */
  method Umap(pt: PageTables, from: Thread, to: Thread) returns (r: Status)
    requires pt.Valid() && (from.User? ==> AllProper(from.areas, pt.fixed))
             && (to.User? ==> AllProper(to.areas, pt.fixed))
    modifies pt, pt.kmem
    ensures pt.Valid() && !r.Failed?
    ensures r.Done? ==> pt.view == Switched(old(pt.view), from, to)
    ensures r.Panic? ==> !BuddyAllocator.CanServe(pt.kmem.live, 0)
  {
    r := Done;
    if !from.Init? {
      UserMemUnmap(pt, from.areas);
    }
    if !to.Init? {
      r := UserMemMap(pt, to.areas);
    }
  }
}
