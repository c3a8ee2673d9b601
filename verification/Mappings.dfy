/** Runs of vmm_map calls on one pagemap: what a list of mappings leaves behind, page by page, with
    which rights, and how many page tables it costs. */
module Mappings {
  import opened Bits
  import opened PageWords
  import opened AddressSpaces
  import opened Vmm

  datatype Mapping = Mapping(virt: nat, phys: nat, flags: u64)

  predicate Fit(m: Mapping) {
    PageAddress(m.phys) && EntryFlags(m.flags)
  }

  ghost predicate AllFit(ms: seq<Mapping>) {
    forall i :: 0 <= i < |ms| ==> Fit(ms[i])
  }

  function Word(m: Mapping): (w: u64)
    requires Fit(m)
    ensures AddressOf(w) == m.phys && Present(w) && RightsOf(w) == RightsOf(m.flags)
  {
    EntryWord(m.phys, m.flags)
  }

  function Init<T>(s: seq<T>): seq<T>
    requires s != []
  {
    s[..|s| - 1]
  }

  function Last<T>(s: seq<T>): T
    requires s != []
  {
    s[|s| - 1]
  }

  /** The address spaces after mapping the whole list, in order, in pagemap `root`. */
  ghost function MapAll(sp: Spaces, root: nat, ms: seq<Mapping>): (r: Spaces)
    requires root in sp.slots && AllFit(ms)
    ensures root in r.slots
  {
    if ms == [] then sp
    else MapPage(MapAll(sp, root, Init(ms)), root, PageOf(Last(ms).virt), Word(Last(ms)))
  }

  lemma MapAllNext(sp: Spaces, root: nat, ms: seq<Mapping>, m: Mapping)
    requires root in sp.slots && AllFit(ms) && Fit(m)
    ensures AllFit(ms + [m])
    ensures MapAll(sp, root, ms + [m]) == MapPage(MapAll(sp, root, ms), root, PageOf(m.virt), Word(m))
  {
    var t := ms + [m];
    assert Init(t) == ms && Last(t) == m;
  }

  // ---------- what is mapped ----------

  /** The word of the last mapping of a page, or `before` if the list does not mention it. */
  ghost function Final(ms: seq<Mapping>, page: nat, before: nat): nat
    requires AllFit(ms)
  {
    if ms == [] then before
    else if PageOf(Last(ms).virt) == page then Word(Last(ms))
    else Final(Init(ms), page, before)
  }

  lemma SlotBound(virt: nat)
    ensures SlotOf(PageOf(virt)) < 512
  {
    PageIndices(virt);
  }

  lemma {:induction false} MapAllOk(sp: Spaces, kernel: nat, root: nat, ms: seq<Mapping>)
    requires Ok(sp, kernel) && root in sp.slots && AllFit(ms)
    ensures Ok(MapAll(sp, root, ms), kernel)
    ensures MapAll(sp, root, ms).slots.Keys == sp.slots.Keys
  {
    hide Ok, PageOf, Present;
    if ms != [] {
      MapAllOk(sp, kernel, root, Init(ms));
      SlotBound(Last(ms).virt);
      MapOk(MapAll(sp, root, Init(ms)), kernel, root, PageOf(Last(ms).virt), Word(Last(ms)));
    }
  }

  /** The last mapping of a page wins, and a page not in the list keeps its word. */
  lemma {:induction false} MapAllView(sp: Spaces, kernel: nat, root: nat, ms: seq<Mapping>, page: nat)
    requires Ok(sp, kernel) && root in sp.slots && AllFit(ms)
    ensures View(MapAll(sp, root, ms), root, page) == Final(ms, page, View(sp, root, page))
  {
    hide Ok, PageOf, Present, View, MapPage;
    if ms != [] {
      MapAllView(sp, kernel, root, Init(ms), page);
      MapAllOk(sp, kernel, root, Init(ms));
      SlotBound(Last(ms).virt);
      MapChangesOnePage(MapAll(sp, root, Init(ms)), kernel, root, PageOf(Last(ms).virt), Word(Last(ms)), root, page);
    }
  }

  lemma {:induction false} FinalAt(ms: seq<Mapping>, page: nat, before: nat, k: nat)
    requires AllFit(ms) && k < |ms| && PageOf(ms[k].virt) == page
    requires forall j :: k < j < |ms| ==> PageOf(ms[j].virt) != page
    ensures Final(ms, page, before) == Word(ms[k])
  {
    hide PageOf, Fit;
    if k < |ms| - 1 {
      FinalAt(Init(ms), page, before, k);
    }
  }

  lemma {:induction false} FinalAbsent(ms: seq<Mapping>, page: nat, before: nat)
    requires AllFit(ms)
    requires forall j :: 0 <= j < |ms| ==> PageOf(ms[j].virt) != page
    ensures Final(ms, page, before) == before
  {
    hide PageOf, Fit;
    if ms != [] {
      FinalAbsent(Init(ms), page, before);
    }
  }

  lemma FinalNext(ms: seq<Mapping>, m: Mapping, page: nat, before: nat)
    requires AllFit(ms) && Fit(m)
    ensures AllFit(ms + [m])
    ensures Final(ms + [m], page, before) == if PageOf(m.virt) == page then Word(m) else Final(ms, page, before)
  {
    hide PageOf, Fit;
    assert Init(ms + [m]) == ms && Last(ms + [m]) == m;
  }

  lemma {:induction false} FinalConcat(a: seq<Mapping>, b: seq<Mapping>, page: nat, before: nat)
    requires AllFit(a) && AllFit(b)
    ensures AllFit(a + b)
    ensures Final(a + b, page, before) == Final(b, page, Final(a, page, before))
  {
    hide PageOf, Fit;
    if b == [] {
      assert a + b == a;
    } else {
      FinalConcat(a, Init(b), page, before);
      assert Init(a + b) == a + Init(b);
    }
  }

  // ---------- with which rights ----------

  /** The 512-page, 2^18-page or 2^27-page stretch a page lies in, for levels 1, 2 and 3. */
  function Zone(level: nat, page: nat): nat {
    if level <= 1 then page / 512 else Zone(level - 1, page) / 512
  }

  /** The rights asked for by the first mapping of the list in a zone. */
  ghost function FirstIn(ms: seq<Mapping>, level: nat, zone: nat): Option<Rights>
    requires AllFit(ms)
  {
    if ms == [] then None
    else if FirstIn(Init(ms), level, zone).Some? then FirstIn(Init(ms), level, zone)
    else if Zone(level, PageOf(Last(ms).virt)) == zone then Some(RightsOf(Last(ms).flags))
    else None
  }

  /** The rights of the window and the two regions around a page, where open. */
  function PathRights(sp: Spaces, root: nat, level: nat, page: nat): Option<Rights> {
    if level == 3 then
      if HasWindow(sp, root, SlotOf(page)) then Some(sp.slots[root][SlotOf(page)].rights) else None
    else
      var g := Region(level, root, Zone(level, page));
      if g in sp.dirs then Some(sp.dirs[g]) else None
  }

  /** The tables around a page carry the rights of the first mapping in their zone. */
  ghost predicate Recorded(sp: Spaces, root: nat, ms: seq<Mapping>, page: nat)
    requires AllFit(ms)
  {
    && (HasWindow(sp, root, SlotOf(page)) ==> Owner(sp, root, SlotOf(page)) == root)
    && PathRights(sp, root, 3, page) == FirstIn(ms, 3, Zone(3, page))
    && PathRights(sp, root, 2, page) == FirstIn(ms, 2, Zone(2, page))
    && PathRights(sp, root, 1, page) == FirstIn(ms, 1, Zone(1, page))
  }

  function EmptySpace(root: nat): Spaces {
    Spaces(map[root := map[]], map[], map[])
  }

  lemma Zones(page: nat)
    ensures Zone(1, page) == page / 512 && Zone(2, page) == page / 512 / 512 && Zone(3, page) == SlotOf(page)
  {
  }

  function OrElse(was: Option<Rights>, cond: bool, r: Rights): Option<Rights> {
    if was.Some? then was else if cond then Some(r) else None
  }

  function Keep<K, V>(m: map<K, V>, k: K, v: V): map<K, V> {
    if k in m then m else m[k := v]
  }

  /** The levels vmm_map adds. */
  lemma MapPageShape(sp: Spaces, root: nat, p: nat, word: u64)
    requires root in sp.slots
    ensures var sp', r := MapPage(sp, root, p, word), RightsOf(word);
            var o := if HasWindow(sp, root, SlotOf(p)) then Owner(sp, root, SlotOf(p)) else root;
            && root in sp'.slots && sp'.slots[root] == Keep(sp.slots[root], SlotOf(p), Window(root, r))
            && sp'.dirs == Keep(Keep(sp.dirs, Region(2, o, p / 512 / 512), r), Region(1, o, p / 512), r)
  {
    hide RightsOf;
  }

  /** vmm_map records rights in the levels it has to add, and only there. */
  lemma MapPageRecords(sp: Spaces, root: nat, p: nat, word: u64, level: nat, page: nat)
    requires root in sp.slots && (HasWindow(sp, root, SlotOf(page)) ==> Owner(sp, root, SlotOf(page)) == root)
    requires 1 <= level <= 3
    ensures var sp' := MapPage(sp, root, p, word);
            && (HasWindow(sp', root, SlotOf(page)) ==> Owner(sp', root, SlotOf(page)) == root)
            && PathRights(sp', root, level, page) ==
               OrElse(PathRights(sp, root, level, page), Zone(level, p) == Zone(level, page), RightsOf(word))
  {
    hide RightsOf, Zone, MapPage;
    Zones(p);
    Zones(page);
    MapPageShape(sp, root, p, word);
  }

  lemma {:induction false} MapAllRecorded(sp: Spaces, kernel: nat, root: nat, ms: seq<Mapping>, page: nat)
    requires AllFit(ms) && Ok(sp, kernel) && root in sp.slots && !HasWindow(sp, root, SlotOf(page))
    ensures Recorded(MapAll(sp, root, ms), root, ms, page)
  {
    hide PageOf, Fit, MapPage, RightsOf, Ok, PathRights;
    if ms == [] {
      UnopenedPath(sp, kernel, root, page);
    } else {
      hide Zone;
      MapAllRecorded(sp, kernel, root, Init(ms), page);
      MapPageRecords(MapAll(sp, root, Init(ms)), root, PageOf(Last(ms).virt), Word(Last(ms)), 1, page);
      MapPageRecords(MapAll(sp, root, Init(ms)), root, PageOf(Last(ms).virt), Word(Last(ms)), 2, page);
      MapPageRecords(MapAll(sp, root, Init(ms)), root, PageOf(Last(ms).virt), Word(Last(ms)), 3, page);
    }
  }

  lemma UnopenedPath(sp: Spaces, kernel: nat, root: nat, page: nat)
    requires Ok(sp, kernel) && !HasWindow(sp, root, SlotOf(page))
    ensures PathRights(sp, root, 3, page) == PathRights(sp, root, 2, page) == PathRights(sp, root, 1, page) == None
  {
    Zones(page);
    UnopenedWindow(sp, kernel, root, page);
    hide Zone, Ok;
  }

  lemma {:induction false} MappedHasFirst(ms: seq<Mapping>, level: nat, page: nat)
    requires AllFit(ms) && Final(ms, page, 0) != 0
    ensures FirstIn(ms, level, Zone(level, page)).Some?
  {
    hide PageOf, Fit, Zone;
    if PageOf(Last(ms).virt) != page {
      MappedHasFirst(Init(ms), level, page);
    }
  }

  /** What the tables of one level impose on a page. */
  ghost function ZoneRights(ms: seq<Mapping>, level: nat, page: nat): Rights
    requires AllFit(ms) && Final(ms, page, 0) != 0
  {
    MappedHasFirst(ms, level, page);
    FirstIn(ms, level, Zone(level, page)).value
  }

  /** The rights of every page after the list, over all four levels, in a part of the pagemap that was
      empty before: those of the page's own last mapping, cut down by those of the first mapping in
      each of the three zones around it. */
  lemma MapAllRights(sp: Spaces, kernel: nat, root: nat, ms: seq<Mapping>, page: nat)
    requires AllFit(ms) && Ok(sp, kernel) && root in sp.slots && !HasWindow(sp, root, SlotOf(page))
    ensures Effective(MapAll(sp, root, ms), root, page) ==
            if Final(ms, page, 0) == 0 then None
            else Some(Meet(Meet(ZoneRights(ms, 3, page), ZoneRights(ms, 2, page)),
                           Meet(ZoneRights(ms, 1, page), RightsOf(Final(ms, page, 0)))))
  {
    hide PageOf, Fit, RightsOf, Final, FirstIn, Meet, MapAll, Ok;
    Zones(page);
    hide Zone;
    var sp' := MapAll(sp, root, ms);
    MapAllRecorded(sp, kernel, root, ms, page);
    MapAllOk(sp, kernel, root, ms);
    MapAllView(sp, kernel, root, ms, page);
    LeafPresent(sp', kernel, root, page);
    assert !Present(0);
    if Final(ms, page, 0) != 0 {
      MappedHasFirst(ms, 1, page);
      MappedHasFirst(ms, 2, page);
      MappedHasFirst(ms, 3, page);
    }
  }

  lemma EmptyOk(root: nat)
    ensures Ok(EmptySpace(root), root)
  {
  }

  // ---------- at what cost ----------

  /** Zones that begin at a page. */
  function Fresh(page: nat): nat {
    if page % 512 != 0 then 0
    else if page / 512 % 512 != 0 then 1
    else if page / 512 / 512 % 512 != 0 then 2
    else 3
  }

  /** Zones of all three levels that a stretch of pages touches: the page tables it can need. */
  function ZonesTouched(page: nat, n: nat): nat {
    if n == 0 then 0 else if n == 1 then 3 else ZonesTouched(page, n - 1) + Fresh(page + n - 1)
  }

  lemma {:induction false} TouchedGrows(page: nat, m: nat, n: nat)
    requires m <= n
    ensures ZonesTouched(page, m) <= ZonesTouched(page, n)
  {
    if m < n { TouchedGrows(page, m, n - 1); }
  }

  lemma NextZone(a: nat)
    requires a > 0
    ensures a / 512 == (a - 1) / 512 + if a % 512 == 0 then 1 else 0
  {
  }

  lemma FreshIs(page: nat)
    requires page > 0
    ensures Fresh(page) == (Zone(1, page) - Zone(1, page - 1)) + (Zone(2, page) - Zone(2, page - 1))
                           + (Zone(3, page) - Zone(3, page - 1))
  {
    Zones(page);
    Zones(page - 1);
    hide Zone;
    NextZone(page);
    if page / 512 > 0 { NextZone(page / 512); }
    if page / 512 / 512 > 0 { NextZone(page / 512 / 512); }
  }

  lemma {:induction false} TouchedIs(page: nat, n: nat)
    requires n > 0
    ensures var last := page + n - 1;
            ZonesTouched(page, n) == (Zone(1, last) - Zone(1, page) + 1) + (Zone(2, last) - Zone(2, page) + 1)
                                     + (Zone(3, last) - Zone(3, page) + 1)
  {
    hide Zone, Fresh;
    if n > 1 {
      TouchedIs(page, n - 1);
      FreshIs(page + n - 1);
    }
  }

  /** A page next to one whose tables exist needs only the tables of zones that begin there. */
  lemma NeighbourIsCheap(sp: Spaces, root: nat, page: nat)
    requires page > 0 && Missing(sp, root, page - 1) == 0
    ensures Missing(sp, root, page) <= Fresh(page)
  {
    var a, b := page - 1, page;
    assert b % 512 != 0 ==> a / 512 == b / 512;
    assert b / 512 % 512 != 0 ==> a / 512 / 512 == b / 512 / 512;
    assert b / 512 / 512 % 512 != 0 ==> SlotOf(a) == SlotOf(b);
  }

  lemma MapOpens(sp: Spaces, kernel: nat, root: nat, page: nat, word: u64, other: nat)
    requires Ok(sp, kernel) && root in sp.slots
    ensures var sp' := MapPage(sp, root, page, word);
            Missing(sp', root, page) == 0 && Missing(sp', root, other) <= Missing(sp, root, other)
  {
  }

  /** The page tables a list needs. */
  ghost function CostAll(sp: Spaces, root: nat, ms: seq<Mapping>): nat
    requires root in sp.slots && AllFit(ms)
  {
    if ms == [] then 0
    else CostAll(sp, root, Init(ms)) + Missing(MapAll(sp, root, Init(ms)), root, PageOf(Last(ms).virt))
  }

  lemma CostNext(sp: Spaces, root: nat, ms: seq<Mapping>, m: Mapping)
    requires root in sp.slots && AllFit(ms) && Fit(m)
    ensures AllFit(ms + [m])
    ensures CostAll(sp, root, ms + [m]) == CostAll(sp, root, ms) + Missing(MapAll(sp, root, ms), root, PageOf(m.virt))
  {
    hide PageOf, Fit, Missing, MapAll;
    assert Init(ms + [m]) == ms && Last(ms + [m]) == m;
  }

  lemma {:induction false} CostBound(sp: Spaces, root: nat, ms: seq<Mapping>)
    requires root in sp.slots && AllFit(ms)
    ensures CostAll(sp, root, ms) <= 3 * |ms|
  {
    hide PageOf, Fit, MapAll;
    if ms != [] {
      CostBound(sp, root, Init(ms));
    }
  }

  /** Two states with the same tables for a pagemap, whatever their entries say. */
  ghost predicate SameShape(a: Spaces, b: Spaces, root: nat) {
    && root in a.slots && root in b.slots && a.slots[root].Keys == b.slots[root].Keys && a.dirs.Keys == b.dirs.Keys
    && (forall i :: i in a.slots[root] && i in b.slots[root] ==> a.slots[root][i].owner == b.slots[root][i].owner)
  }

  lemma ShapeStep(a: Spaces, b: Spaces, root: nat, page: nat, v: u64, w: u64)
    requires SameShape(a, b, root)
    ensures SameShape(MapPage(a, root, page, v), MapPage(b, root, page, w), root)
  {
    hide MapPage, RightsOf;
    MapPageShape(a, root, page, v);
    MapPageShape(b, root, page, w);
  }

  /** Which tables a list adds depends on the addresses mapped, not on the frames. */
  lemma {:induction false} ShapeIgnoresFrames(sp: Spaces, root: nat, a: seq<Mapping>, b: seq<Mapping>)
    requires root in sp.slots && AllFit(a) && AllFit(b) && |a| == |b|
    requires forall i :: 0 <= i < |a| ==> a[i].virt == b[i].virt
    ensures SameShape(MapAll(sp, root, a), MapAll(sp, root, b), root)
  {
    hide PageOf, Fit, MapPage;
    if a != [] {
      hide SameShape;
      ShapeIgnoresFrames(sp, root, Init(a), Init(b));
      ShapeStep(MapAll(sp, root, Init(a)), MapAll(sp, root, Init(b)), root, PageOf(Last(a).virt), Word(Last(a)),
          Word(Last(b)));
    }
  }

  lemma MissingIgnoresFrames(sp: Spaces, root: nat, a: seq<Mapping>, b: seq<Mapping>, page: nat)
    requires root in sp.slots && AllFit(a) && AllFit(b) && |a| == |b|
    requires forall i :: 0 <= i < |a| ==> a[i].virt == b[i].virt
    ensures Missing(MapAll(sp, root, a), root, page) == Missing(MapAll(sp, root, b), root, page)
  {
    hide MapAll, Fit, PageOf;
    ShapeIgnoresFrames(sp, root, a, b);
    var x, y := MapAll(sp, root, a), MapAll(sp, root, b);
    assert HasWindow(x, root, SlotOf(page)) <==> HasWindow(y, root, SlotOf(page));
    assert forall g :: g in x.dirs <==> g in y.dirs;
  }
}
