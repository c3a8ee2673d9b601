/** Address spaces without page tables: what a set of pagemaps means to its users.

    A pagemap is a row of 512 windows of 2^27 pages each. A window belongs to the pagemap that first
    opened it; pagemaps cloned from the kernel's hold the kernel's windows in their upper half, so
    several pagemaps may look through one window. What is mapped is a plain map from
    (owner, page) to an entry word. The rights recorded for windows and regions are those of the
    first mapping made inside them. */
module AddressSpaces {
  import opened Bits
  import opened PageWords

  datatype Option<T> = None | Some(value: T)

  /** A table's place: level 3 covers a window, level 2 covers 2^18 pages, level 1 covers 512. */
  datatype Region = Region(level: nat, owner: nat, prefix: nat)

  datatype Window = Window(owner: nat, rights: Rights)

  datatype Spaces = Spaces(
    slots: map<nat, map<nat, Window>>,
    dirs: map<Region, Rights>,
    pages: map<(nat, nat), u64>)

  function SlotOf(page: nat): nat {
    page / 512 / 512 / 512
  }

  predicate HasWindow(sp: Spaces, root: nat, slot: nat) {
    root in sp.slots && slot in sp.slots[root]
  }

  function Owner(sp: Spaces, root: nat, slot: nat): nat
    requires HasWindow(sp, root, slot)
  {
    sp.slots[root][slot].owner
  }

  /** The entry word a pagemap shows for a page; 0 when nothing is mapped. */
  function View(sp: Spaces, root: nat, page: nat): nat {
    if HasWindow(sp, root, SlotOf(page)) && (Owner(sp, root, SlotOf(page)), page) in sp.pages
    then sp.pages[(Owner(sp, root, SlotOf(page)), page)] else 0
  }

  /** The rights of a mapped page, combined over all four levels. */
  function Effective(sp: Spaces, root: nat, page: nat): Option<Rights> {
    if !HasWindow(sp, root, SlotOf(page)) then None else
    var o := Owner(sp, root, SlotOf(page));
    var big, small := Region(2, o, page / 512 / 512), Region(1, o, page / 512);
    if big in sp.dirs && small in sp.dirs && (o, page) in sp.pages then
      Some(Meet(Meet(sp.slots[root][SlotOf(page)].rights, sp.dirs[big]),
                Meet(sp.dirs[small], RightsOf(sp.pages[(o, page)]))))
    else None
  }

  /** The rights the levels above a page already impose, those of `fallback` where a level is missing. */
  function Imposed(sp: Spaces, root: nat, page: nat, fallback: Rights): Rights {
    if !HasWindow(sp, root, SlotOf(page)) then fallback else
    var o := Owner(sp, root, SlotOf(page));
    Meet(sp.slots[root][SlotOf(page)].rights,
         Meet(RegionRights(sp, Region(2, o, page / 512 / 512), fallback),
              RegionRights(sp, Region(1, o, page / 512), fallback)))
  }

  function RegionRights(sp: Spaces, r: Region, fallback: Rights): Rights {
    if r in sp.dirs then sp.dirs[r] else fallback
  }

  // ---------- operations ----------

  function OpenWindow(sp: Spaces, root: nat, slot: nat, rights: Rights): Spaces
    requires root in sp.slots
  {
    if slot in sp.slots[root] then sp
    else
      var row: map<nat, Window> := sp.slots[root][slot := Window(root, rights)];
      sp.(slots := sp.slots[root := row])
  }

  function OpenRegion(sp: Spaces, region: Region, rights: Rights): Spaces {
    if region in sp.dirs then sp else sp.(dirs := sp.dirs[region := rights])
  }

  function Write(sp: Spaces, owner: nat, page: nat, word: u64): Spaces {
    sp.(pages := sp.pages[(owner, page) := word])
  }

  /** The state in which vmm_map writes the last-level entry. */
  function Opened(sp: Spaces, root: nat, page: nat, rights: Rights): Spaces
    requires root in sp.slots
  {
    var s1 := OpenWindow(sp, root, SlotOf(page), rights);
    var o := Owner(s1, root, SlotOf(page));
    var s2 := OpenRegion(s1, Region(2, o, page / 512 / 512), rights);
    OpenRegion(s2, Region(1, o, page / 512), rights)
  }

  function MapPage(sp: Spaces, root: nat, page: nat, word: u64): Spaces
    requires root in sp.slots
  {
    var mid := Opened(sp, root, page, RightsOf(word));
    Write(mid, Owner(mid, root, SlotOf(page)), page, word)
  }

  function UnmapPage(sp: Spaces, root: nat, page: nat): Spaces {
    if HasWindow(sp, root, SlotOf(page))
    then sp.(pages := sp.pages - {(Owner(sp, root, SlotOf(page)), page)}) else sp
  }

  /** A new pagemap: no lower half, the windows the kernel has open now in the upper half. */
  function Clone(sp: Spaces, kernel: nat, root: nat): Spaces
    requires kernel in sp.slots
  {
    sp.(slots := sp.slots[root := map i | i in sp.slots[kernel] && i >= 256 :: sp.slots[kernel][i]])
  }

  // ---------- the invariant of reachable spaces ----------

  ghost predicate WindowsOk(sp: Spaces, kernel: nat) {
    && kernel in sp.slots
    && forall r, i :: HasWindow(sp, r, i) ==>
         i < 512 && (Owner(sp, r, i) == r ||
                     (i >= 256 && HasWindow(sp, kernel, i) && sp.slots[r][i] == sp.slots[kernel][i]
                      && Owner(sp, kernel, i) == kernel))
  }

  predicate ParentOpen(sp: Spaces, region: Region) {
    if region.level == 2 then
      HasWindow(sp, region.owner, region.prefix / 512) && Owner(sp, region.owner, region.prefix / 512) == region.owner
    else
      region.level == 1 && Region(2, region.owner, region.prefix / 512) in sp.dirs
  }

  ghost predicate Nested(sp: Spaces) {
    && (forall g :: g in sp.dirs ==> ParentOpen(sp, g))
    && (forall k :: k in sp.pages ==> Region(1, k.0, k.1 / 512) in sp.dirs && Present(sp.pages[k]))
  }

  ghost predicate Ok(sp: Spaces, kernel: nat) {
    WindowsOk(sp, kernel) && Nested(sp)
  }

  lemma OpenWindowOk(sp: Spaces, kernel: nat, root: nat, slot: nat, rights: Rights)
    requires Ok(sp, kernel) && root in sp.slots && slot < 512
    ensures Ok(OpenWindow(sp, root, slot, rights), kernel)
  {
    var s := OpenWindow(sp, root, slot, rights);
    assert forall g :: g in s.dirs ==> ParentOpen(sp, g);
    forall r, i | HasWindow(s, r, i) && (r, i) != (root, slot)
      ensures HasWindow(sp, r, i) && s.slots[r][i] == sp.slots[r][i]
      ensures HasWindow(sp, kernel, i) ==> HasWindow(s, kernel, i) && s.slots[kernel][i] == sp.slots[kernel][i]
    {
    }
  }

  lemma OpenRegionOk(sp: Spaces, kernel: nat, region: Region, rights: Rights)
    requires Ok(sp, kernel) && ParentOpen(sp, region)
    ensures Ok(OpenRegion(sp, region, rights), kernel)
  {
    var s := OpenRegion(sp, region, rights);
    assert forall r, i :: HasWindow(s, r, i) ==> HasWindow(sp, r, i);
    assert forall g :: g in s.dirs && g != region ==> ParentOpen(sp, g);
  }

  lemma WriteOk(sp: Spaces, kernel: nat, o: nat, page: nat, word: u64)
    requires Ok(sp, kernel) && Region(1, o, page / 512) in sp.dirs && Present(word)
    ensures Ok(Write(sp, o, page, word), kernel)
  {
    var s := Write(sp, o, page, word);
    assert forall r, i :: HasWindow(s, r, i) ==> HasWindow(sp, r, i);
    assert forall g :: g in s.dirs ==> ParentOpen(sp, g);
  }

  lemma MapOk(sp: Spaces, kernel: nat, root: nat, page: nat, word: u64)
    requires Ok(sp, kernel) && root in sp.slots && Present(word) && SlotOf(page) < 512
    ensures Ok(MapPage(sp, root, page, word), kernel)
  {
    hide Ok;
    var rights := RightsOf(word);
    OpenWindowOk(sp, kernel, root, SlotOf(page), rights);
    var s1 := OpenWindow(sp, root, SlotOf(page), rights);
    var o := Owner(s1, root, SlotOf(page));
    OwnerOwns(s1, kernel, root, SlotOf(page));
    OpenRegionOk(s1, kernel, Region(2, o, page / 512 / 512), rights);
    var s2 := OpenRegion(s1, Region(2, o, page / 512 / 512), rights);
    OpenRegionOk(s2, kernel, Region(1, o, page / 512), rights);
    WriteOk(OpenRegion(s2, Region(1, o, page / 512), rights), kernel, o, page, word);
  }

  lemma OwnerOwns(sp: Spaces, kernel: nat, root: nat, slot: nat)
    requires Ok(sp, kernel) && HasWindow(sp, root, slot)
    ensures var o := Owner(sp, root, slot); HasWindow(sp, o, slot) && Owner(sp, o, slot) == o
  {
  }

  lemma UnmapOk(sp: Spaces, kernel: nat, root: nat, page: nat)
    requires Ok(sp, kernel)
    ensures Ok(UnmapPage(sp, root, page), kernel)
  {
    var s := UnmapPage(sp, root, page);
    assert forall r, i :: HasWindow(s, r, i) ==> HasWindow(sp, r, i);
    assert forall g :: g in s.dirs ==> ParentOpen(sp, g);
  }

  lemma CloneOk(sp: Spaces, kernel: nat, root: nat)
    requires Ok(sp, kernel) && root !in sp.slots
    ensures Ok(Clone(sp, kernel, root), kernel)
  {
    var s := Clone(sp, kernel, root);
    assert forall r, i :: HasWindow(s, r, i) && r != root ==> HasWindow(sp, r, i);
    assert forall i :: HasWindow(s, root, i) ==> HasWindow(sp, kernel, i);
    assert forall g :: g in s.dirs ==> ParentOpen(sp, g);
  }

  // ---------- what each operation changes ----------

  /** Two pagemaps look through the same window. */
  predicate Shares(sp: Spaces, r: nat, s: nat, slot: nat) {
    r == s || (HasWindow(sp, r, slot) && HasWindow(sp, s, slot) && Owner(sp, r, slot) == Owner(sp, s, slot))
  }

  /** Opening a window or a region changes no page. */
  lemma OpenWindowInvisible(sp: Spaces, kernel: nat, root: nat, slot: nat, rights: Rights, s: nat, p: nat)
    requires Ok(sp, kernel) && root in sp.slots
    ensures var sp' := OpenWindow(sp, root, slot, rights);
            View(sp', s, p) == View(sp, s, p) && Effective(sp', s, p) == Effective(sp, s, p)
  {
    if (root, p) in sp.pages {
      var g := Region(1, root, p / 512);
      assert ParentOpen(sp, g) && ParentOpen(sp, Region(2, root, p / 512 / 512));
    }
  }

  lemma OpenRegionInvisible(sp: Spaces, kernel: nat, g: Region, rights: Rights, s: nat, p: nat)
    requires Ok(sp, kernel)
    ensures var sp' := OpenRegion(sp, g, rights);
            View(sp', s, p) == View(sp, s, p) && Effective(sp', s, p) == Effective(sp, s, p)
  {
    if HasWindow(sp, s, SlotOf(p)) && (Owner(sp, s, SlotOf(p)), p) in sp.pages {
      assert ParentOpen(sp, Region(1, Owner(sp, s, SlotOf(p)), p / 512));
    }
  }

  lemma OpenedInvisible(sp: Spaces, kernel: nat, root: nat, page: nat, rights: Rights, s: nat, p: nat)
    requires Ok(sp, kernel) && root in sp.slots && SlotOf(page) < 512
    ensures var sp' := Opened(sp, root, page, rights);
            View(sp', s, p) == View(sp, s, p) && Effective(sp', s, p) == Effective(sp, s, p)
  {
    hide Ok, View, Effective;
    OpenWindowInvisible(sp, kernel, root, SlotOf(page), rights, s, p);
    OpenWindowOk(sp, kernel, root, SlotOf(page), rights);
    var s1 := OpenWindow(sp, root, SlotOf(page), rights);
    var o := Owner(s1, root, SlotOf(page));
    var g := Region(2, o, page / 512 / 512);
    OwnerOwns(s1, kernel, root, SlotOf(page));
    OpenRegionInvisible(s1, kernel, g, rights, s, p);
    OpenRegionOk(s1, kernel, g, rights);
    OpenRegionInvisible(OpenRegion(s1, g, rights), kernel, Region(1, o, page / 512), rights, s, p);
  }

  /** A mapping shows exactly at its page, exactly in the pagemaps sharing that window; every other
      page of every pagemap keeps its word and its rights. */
  lemma MapChangesOnePage(sp: Spaces, kernel: nat, root: nat, page: nat, word: u64, s: nat, p: nat)
    requires Ok(sp, kernel) && root in sp.slots && s in sp.slots && Present(word) && SlotOf(page) < 512
    ensures var sp' := MapPage(sp, root, page, word);
            if p == page && Shares(sp, root, s, SlotOf(page)) then View(sp', s, p) == word
            else View(sp', s, p) == View(sp, s, p) && Effective(sp', s, p) == Effective(sp, s, p)
  {
    hide Ok;
    var mid := Opened(sp, root, page, RightsOf(word));
    OpenedInvisible(sp, kernel, root, page, RightsOf(word), s, p);
    var sp' := MapPage(sp, root, page, word);
    var o := Owner(mid, root, SlotOf(page));
    assert sp' == Write(mid, o, page, word);
    assert forall r, i :: HasWindow(sp', r, i) <==> HasWindow(mid, r, i);
    if p == page && s != root && HasWindow(sp, s, SlotOf(page)) {
      WindowsSeparate(sp, kernel, root, s, SlotOf(page));
    }
  }

  /** The mapped page's rights are those asked for, cut down by what the levels above already impose. */
  lemma MappedRights(sp: Spaces, kernel: nat, root: nat, page: nat, word: u64)
    requires Ok(sp, kernel) && root in sp.slots
    ensures Effective(MapPage(sp, root, page, word), root, page) ==
            Some(Meet(Imposed(sp, root, page, RightsOf(word)), RightsOf(word)))
  {
    var sp' := MapPage(sp, root, page, word);
    var o := Owner(sp', root, SlotOf(page));
    var big, small := Region(2, o, page / 512 / 512), Region(1, o, page / 512);
    assert big in sp'.dirs && small in sp'.dirs && sp'.pages[(o, page)] == word;
    assert small in sp.dirs ==> ParentOpen(sp, small);
    assert big in sp.dirs ==> ParentOpen(sp, big);
  }

  /** A window another pagemap opened for itself is never this pagemap's. */
  lemma WindowsSeparate(sp: Spaces, kernel: nat, r: nat, s: nat, slot: nat)
    requires Ok(sp, kernel) && HasWindow(sp, s, slot) && r != s
    ensures Owner(sp, s, slot) == r ==> HasWindow(sp, r, slot) && Owner(sp, r, slot) == r
    ensures slot < 256 ==> !Shares(sp, r, s, slot)
  {
  }

  lemma UnmapChangesOnePage(sp: Spaces, kernel: nat, root: nat, page: nat, s: nat, p: nat)
    requires Ok(sp, kernel) && root in sp.slots && s in sp.slots
    ensures var sp' := UnmapPage(sp, root, page);
            if p == page && Shares(sp, root, s, SlotOf(page)) then
              View(sp', s, p) == 0 && Effective(sp', s, p) == None
            else
              View(sp', s, p) == View(sp, s, p) && Effective(sp', s, p) == Effective(sp, s, p)
  {
    var sp' := UnmapPage(sp, root, page);
    if HasWindow(sp, s, SlotOf(p)) {
      var x := Owner(sp, s, SlotOf(p));
    }
  }

  /** A new pagemap maps nothing below and agrees with the kernel's above; nobody else notices. */
  lemma CloneView(sp: Spaces, kernel: nat, root: nat, s: nat, p: nat)
    requires Ok(sp, kernel) && root !in sp.slots
    ensures var sp' := Clone(sp, kernel, root);
            && (SlotOf(p) < 256 ==> View(sp', root, p) == 0 && Effective(sp', root, p) == None)
            && (SlotOf(p) >= 256 ==>
                  View(sp', root, p) == View(sp, kernel, p) && Effective(sp', root, p) == Effective(sp, kernel, p))
            && (s != root ==> View(sp', s, p) == View(sp, s, p) && Effective(sp', s, p) == Effective(sp, s, p))
  {
    var sp' := Clone(sp, kernel, root);
    assert HasWindow(sp', root, SlotOf(p)) <==> HasWindow(sp, kernel, SlotOf(p)) && SlotOf(p) >= 256;
    assert s != root ==> (HasWindow(sp', s, SlotOf(p)) <==> HasWindow(sp, s, SlotOf(p)));
  }

  // ---------- runs ----------

  datatype Op =
    | MapOp(root: nat, page: nat, word: u64)
    | UnmapOp(root: nat, page: nat)
    | CloneOp(root: nat)

  ghost predicate Enabled(sp: Spaces, op: Op) {
    match op
    case MapOp(r, q, w) => r in sp.slots && SlotOf(q) < 512 && Present(w)
    case UnmapOp(r, q) => r in sp.slots
    case CloneOp(r) => r !in sp.slots
  }

  ghost function Step(sp: Spaces, kernel: nat, op: Op): Spaces
    requires kernel in sp.slots && Enabled(sp, op)
  {
    match op
    case MapOp(r, q, w) => MapPage(sp, r, q, w)
    case UnmapOp(r, q) => UnmapPage(sp, r, q)
    case CloneOp(r) => Clone(sp, kernel, r)
  }

  lemma StepOk(sp: Spaces, kernel: nat, op: Op)
    requires Ok(sp, kernel) && Enabled(sp, op)
    ensures Ok(Step(sp, kernel, op), kernel)
  {
    hide Ok;
    match op
    case MapOp(r, q, w) => MapOk(sp, kernel, r, q, w);
    case UnmapOp(r, q) => UnmapOk(sp, kernel, r, q);
    case CloneOp(r) => CloneOk(sp, kernel, r);
  }

  /** `sp` leads to `end` through the operations, each legal where it happens. */
  ghost predicate Leads(sp: Spaces, kernel: nat, ops: seq<Op>, end: Spaces)
    decreases |ops|
  {
    && kernel in sp.slots
    && if ops == [] then sp == end
       else Enabled(sp, ops[0]) && Leads(Step(sp, kernel, ops[0]), kernel, ops[1..], end)
  }

  lemma {:induction false} RunOk(sp: Spaces, kernel: nat, ops: seq<Op>, end: Spaces)
    requires Ok(sp, kernel) && Leads(sp, kernel, ops, end)
    ensures Ok(end, kernel)
    decreases |ops|
  {
    hide Ok;
    if ops != [] {
      StepOk(sp, kernel, ops[0]);
      RunOk(Step(sp, kernel, ops[0]), kernel, ops[1..], end);
    }
  }

  /** A single address space is a plain map from page to entry word. */
  function PlainRun(m: map<nat, nat>, root: nat, ops: seq<Op>): map<nat, nat>
    decreases |ops|
  {
    if ops == [] then m else
    var m' := match ops[0]
              case MapOp(r, q, w) => if r == root then m[q := w] else m
              case UnmapOp(r, q) => if r == root then m - {q} else m
              case CloneOp(_) => m;
    PlainRun(m', root, ops[1..])
  }

  ghost predicate ShowsPlain(sp: Spaces, root: nat, m: map<nat, nat>, slots: set<nat>) {
    forall p :: SlotOf(p) in slots ==> View(sp, root, p) == if p in m then m[p] else 0
  }

  /** An operation that the given pagemap can only see if it performs it itself. */
  predicate Private(op: Op, root: nat) {
    op.CloneOp? || op.root == root || SlotOf(op.page) < 256
  }

  /** Over every run, however other pagemaps are changed in their own lower halves and however many
      pagemaps are cloned, a pagemap's translations are those of a plain map driven by its own
      operations. For lower-half windows the other pagemaps may do anything at all. */
  lemma {:induction false} SpaceIsPlainMap(sp: Spaces, kernel: nat, root: nat, ops: seq<Op>, end: Spaces,
                                           m: map<nat, nat>, slots: set<nat>)
    requires Ok(sp, kernel) && root in sp.slots && Leads(sp, kernel, ops, end)
    requires (forall k :: 0 <= k < |ops| ==> Private(ops[k], root)) || (forall i :: i in slots ==> i < 256)
    requires ShowsPlain(sp, root, m, slots)
    ensures ShowsPlain(end, root, PlainRun(m, root, ops), slots)
    decreases |ops|
  {
    hide Ok;
    if ops != [] {
      var sp' := Step(sp, kernel, ops[0]);
      StepOk(sp, kernel, ops[0]);
      var m' := match ops[0]
                case MapOp(r, q, w) => if r == root then m[q := w] else m
                case UnmapOp(r, q) => if r == root then m - {q} else m
                case CloneOp(_) => m;
      forall p | SlotOf(p) in slots
        ensures View(sp', root, p) == if p in m' then m'[p] else 0
      {
        PlainStep(sp, kernel, root, ops[0], p);
      }
      SpaceIsPlainMap(sp', kernel, root, ops[1..], end, m', slots);
    }
  }

  lemma PlainStep(sp: Spaces, kernel: nat, root: nat, op: Op, p: nat)
    requires Ok(sp, kernel) && root in sp.slots && Enabled(sp, op) && (Private(op, root) || SlotOf(p) < 256)
    ensures root in Step(sp, kernel, op).slots
    ensures View(Step(sp, kernel, op), root, p) ==
            match op
            case MapOp(r, q, w) => if r == root && p == q then w else View(sp, root, p)
            case UnmapOp(r, q) => if r == root && p == q then 0 else View(sp, root, p)
            case CloneOp(_) => View(sp, root, p)
    ensures op.CloneOp? || op.root != root || op.page != p ==>
              Effective(Step(sp, kernel, op), root, p) == Effective(sp, root, p)
  {
    hide Ok;
    match op
    case MapOp(r, q, w) =>
      MapChangesOnePage(sp, kernel, r, q, w, root, p);
      if r != root && q == p && HasWindow(sp, root, SlotOf(q)) { WindowsSeparate(sp, kernel, r, root, SlotOf(q)); }
    case UnmapOp(r, q) =>
      UnmapChangesOnePage(sp, kernel, r, q, root, p);
      if r != root && q == p && HasWindow(sp, root, SlotOf(q)) { WindowsSeparate(sp, kernel, r, root, SlotOf(q)); }
    case CloneOp(r) =>
      CloneView(sp, kernel, r, root, p);
  }

  /** Isolation: whatever other pagemaps do, in either half, a lower-half page keeps its word and its
      rights through any run that does not map or unmap that page in this pagemap. */
  lemma {:induction false} LowerHalfIsolated(sp: Spaces, kernel: nat, root: nat, page: nat, ops: seq<Op>, end: Spaces)
    requires Ok(sp, kernel) && root in sp.slots && SlotOf(page) < 256 && Leads(sp, kernel, ops, end)
    requires forall k :: 0 <= k < |ops| ==> ops[k].CloneOp? || ops[k].root != root || ops[k].page != page
    ensures View(end, root, page) == View(sp, root, page)
    ensures Effective(end, root, page) == Effective(sp, root, page)
    decreases |ops|
  {
    hide Ok;
    if ops != [] {
      StepOk(sp, kernel, ops[0]);
      PlainStep(sp, kernel, root, ops[0], page);
      LowerHalfIsolated(Step(sp, kernel, ops[0]), kernel, root, page, ops[1..], end);
    }
  }

  lemma WindowsStay(sp: Spaces, kernel: nat, op: Op, r: nat, slot: nat)
    requires kernel in sp.slots && Enabled(sp, op) && HasWindow(sp, r, slot)
    ensures HasWindow(Step(sp, kernel, op), r, slot)
    ensures Step(sp, kernel, op).slots[r][slot] == sp.slots[r][slot]
  {
  }

  /** Sharing is for ever: two pagemaps that look through one window show the same words and rights
      there after every run, whoever makes the changes. */
  lemma {:induction false} SharedForever(sp: Spaces, kernel: nat, r: nat, s: nat, slot: nat, ops: seq<Op>, end: Spaces)
    requires Ok(sp, kernel) && Leads(sp, kernel, ops, end)
    requires HasWindow(sp, r, slot) && HasWindow(sp, s, slot) && sp.slots[r][slot] == sp.slots[s][slot]
    ensures forall p :: SlotOf(p) == slot ==>
              View(end, r, p) == View(end, s, p) && Effective(end, r, p) == Effective(end, s, p)
    decreases |ops|
  {
    hide Ok;
    if ops != [] {
      StepOk(sp, kernel, ops[0]);
      WindowsStay(sp, kernel, ops[0], r, slot);
      WindowsStay(sp, kernel, ops[0], s, slot);
      SharedForever(Step(sp, kernel, ops[0]), kernel, r, s, slot, ops[1..], end);
    }
  }

  ghost predicate Reachable(sp: Spaces, kernel: nat, end: Spaces) {
    exists ops :: Leads(sp, kernel, ops, end)
  }

  /** A clone tracks the kernel's upper-half window through every later run if the window was open
      when the clone was made; otherwise the kernel's very next mapping in it is missed. */
  lemma CloneTracksKernel(sp: Spaces, kernel: nat, root: nat, page: nat, word: u64)
    requires Ok(sp, kernel) && root !in sp.slots && 256 <= SlotOf(page) < 512 && Present(word)
    ensures HasWindow(sp, kernel, SlotOf(page)) <==>
      (forall end :: Reachable(Clone(sp, kernel, root), kernel, end) ==>
          View(end, root, page) == View(end, kernel, page))
  {
    assert kernel in sp.slots;
    hide Ok;
    var sp' := Clone(sp, kernel, root);
    CloneOk(sp, kernel, root);
    if HasWindow(sp, kernel, SlotOf(page)) {
      forall end | Reachable(sp', kernel, end)
        ensures View(end, root, page) == View(end, kernel, page)
      {
        var ops :| Leads(sp', kernel, ops, end);
        SharedForever(sp', kernel, root, kernel, SlotOf(page), ops, end);
      }
    } else {
      var op := MapOp(kernel, page, word);
      var end := Step(sp', kernel, op);
      assert Leads(end, kernel, [], end);
      assert [op][1..] == [];
      assert Leads(sp', kernel, [op], end);
      assert Reachable(sp', kernel, end);
      MapChangesOnePage(sp', kernel, kernel, page, word, kernel, page);
      assert View(end, root, page) == 0;
    }
  }
}
