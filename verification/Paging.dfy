/** The four-level page tables of kernel/src/mm/vmm.c, stored in frames of physical memory, and the
    proof that they implement the plain address spaces of module AddressSpaces. */
module Paging {
  import opened Bits
  import opened PageWords
  import opened Pmm
  import opened AddressSpaces

  /** Which frames are page tables, and of which region. */
  type Tables = map<nat, Region>

  // ---------- the representation ----------

  /** The table a directory entry should lead to, with the rights of the entry. */
  function Child(sp: Spaces, g: Region, i: nat): Option<(Region, Rights)> {
    if g.level == 4 then
      if HasWindow(sp, g.owner, i)
      then Some((Region(3, Owner(sp, g.owner, i), i), sp.slots[g.owner][i].rights)) else None
    else if SubRegion(g, i) in sp.dirs then Some((SubRegion(g, i), sp.dirs[SubRegion(g, i)])) else None
  }

  function SubRegion(g: Region, i: nat): Region {
    if g.level == 4 then Region(3, g.owner, i)
    else Region(if g.level > 0 then g.level - 1 else 0, g.owner, g.prefix * 512 + i)
  }

  function PageWord(sp: Spaces, owner: nat, page: nat): nat {
    if (owner, page) in sp.pages then sp.pages[(owner, page)] else 0
  }

  ghost predicate LeadsTo(word: nat, child: Option<(Region, Rights)>, tables: Tables) {
    match child
    case None => !Present(word)
    case Some(c) =>
      && Present(word) && AddressOf(word) in tables
      && tables[AddressOf(word)] == c.0 && RightsOf(word) == c.1
  }

  ghost predicate WordOk(mem: Memory, tables: Tables, sp: Spaces, f: nat, i: nat)
    requires f in tables && f in mem && i < 512
  {
    if tables[f].level == 1
    then mem[f][i] == PageWord(sp, tables[f].owner, tables[f].prefix * 512 + i)
    else LeadsTo(mem[f][i], Child(sp, tables[f], i), tables)
  }

  ghost predicate Known(sp: Spaces, g: Region) {
    if g.level == 4 then g.owner in sp.slots && g.prefix == 0
    else if g.level == 3 then HasWindow(sp, g.owner, g.prefix) && Owner(sp, g.owner, g.prefix) == g.owner
    else g in sp.dirs && (g.level == 2 || g.level == 1)
  }

  ghost predicate Placed(mem: Memory, tables: Tables, sp: Spaces) {
    && (forall f :: f in tables ==> f in mem && PageAddress(f) && Known(sp, tables[f]))
    && (forall r :: r in sp.slots ==> r in tables && tables[r] == Region(4, r, 0))
  }

  /** No region has two tables: the tables form a tree, apart from shared windows. */
  ghost predicate OneTableEach(tables: Tables) {
    forall f, g :: f in tables && g in tables && tables[f] == tables[g] ==> f == g
  }

  /** The frames recorded as tables hold exactly the words the address spaces call for. */
  ghost predicate Implements(mem: Memory, tables: Tables, sp: Spaces) {
    && Placed(mem, tables, sp)
    && OneTableEach(tables)
    && (forall f, i :: f in tables && 0 <= i < 512 ==> WordOk(mem, tables, sp, f, i))
  }

  // ---------- adding an empty table ----------

  function OpenChild(sp: Spaces, g: Region, i: nat, rights: Rights): Spaces
    requires g.level == 4 ==> g.owner in sp.slots
  {
    if g.level == 4 then OpenWindow(sp, g.owner, i, rights) else OpenRegion(sp, SubRegion(g, i), rights)
  }

  lemma SubRegionInjective(g: Region, i: nat, h: Region, j: nat)
    requires g.level == h.level && g.level > 1 && i < 512 && j < 512
    requires g.level == 4 ==> g.prefix == h.prefix == 0
    requires SubRegion(g, i) == SubRegion(h, j)
    ensures g == h && i == j
  {
  }

  /** An unopened region has no table yet. */
  lemma FreshRegion(mem: Memory, tables: Tables, sp: Spaces, t: nat, i: nat)
    requires Implements(mem, tables, sp) && t in tables && tables[t].level > 1 && i < 512
    requires Child(sp, tables[t], i).None?
    ensures forall f :: f in tables ==> tables[f] != SubRegion(tables[t], i)
  {
    forall f | f in tables
      ensures tables[f] != SubRegion(tables[t], i)
    {
      assert Known(sp, tables[f]) && Known(sp, tables[t]);
    }
  }

  /** Opening a child changes what is expected of one directory entry only. */
  lemma ChildFrame(sp: Spaces, g: Region, i: nat, rights: Rights, h: Region, j: nat)
    requires g.level > 1 && i < 512 && Child(sp, g, i).None?
    requires h.level > 1 && j < 512 && (g, i) != (h, j)
    requires Known(sp, g) && Known(sp, h)
    ensures Child(OpenChild(sp, g, i, rights), h, j) == Child(sp, h, j)
  {
    if h.level == g.level && SubRegion(h, j) == SubRegion(g, i) {
      SubRegionInjective(h, j, g, i);
    }
  }

  /** Nothing is expected below a region that was not open. */
  lemma EmptyBelow(sp: Spaces, kernel: nat, g: Region, j: nat)
    requires Ok(sp, kernel) && !Known(sp, g) && 1 <= g.level <= 3 && j < 512
    ensures g.level == 1 ==> PageWord(sp, g.owner, g.prefix * 512 + j) == 0
    ensures g.level > 1 ==> SubRegion(g, j) !in sp.dirs
  {
    if g.level == 1 {
      var k := (g.owner, g.prefix * 512 + j);
      assert k.1 / 512 == g.prefix;
    } else {
      assert (g.prefix * 512 + j) / 512 == g.prefix;
      assert SubRegion(g, j) in sp.dirs ==> ParentOpen(sp, SubRegion(g, j));
    }
  }

  function WithEntry(mem: Memory, t: nat, i: nat, word: u64): Memory
    requires t in mem && i < 512
  {
    mem[t := mem[t][i := word]]
  }

  /** A zeroed, unused frame hung under an absent entry keeps the representation. */
  lemma AddTable(mem: Memory, tables: Tables, sp: Spaces, kernel: nat, t: nat, i: nat, f: nat, flags: u64)
    requires Implements(mem, tables, sp) && Ok(sp, kernel)
    requires t in tables && tables[t].level > 1 && i < 512 && Child(sp, tables[t], i).None?
    requires f !in tables && PageAddress(f) && f in mem && mem[f] == ZeroTable() && EntryFlags(flags)
    requires Or(f, flags) < WORD_SIZE && t in mem && (tables[t].level == 4 ==> tables[t].owner in sp.slots)
    ensures var sp' := OpenChild(sp, tables[t], i, RightsOf(flags));
            && Implements(WithEntry(mem, t, i, Or(f, flags)), tables[f := SubRegion(tables[t], i)], sp')
            && Ok(sp', kernel)
  {
    var g := SubRegion(tables[t], i);
    var sp' := OpenChild(sp, tables[t], i, RightsOf(flags));
    var mem' := WithEntry(mem, t, i, Or(f, flags));
    var tables' := tables[f := g];
    assert PlacedTable(mem, tables, sp, t);
    AddedOk(sp, kernel, tables[t], i, RightsOf(flags));
    AddedPlaced(mem, tables, sp, t, i, f, flags);
    hide Known, OpenChild, Child, Ok, Placed;
    forall x, j | x in tables' && 0 <= j < 512
      ensures x in mem' && WordOk(mem', tables', sp', x, j)
    {
      if x == f {
        hide WordOk;
        NewTableWord(mem, tables, sp, kernel, t, i, f, flags, j);
      } else if x == t && j == i {
        hide WordOk;
        NewEntryWord(mem, tables, sp, t, i, f, flags);
      } else {
        assert PlacedTable(mem, tables, sp, x) by { TablePlaced(mem, tables, sp, x); }
        assert WordOk(mem, tables, sp, x, j);
        OtherWord(mem, tables, sp, t, i, f, flags, x, j);
      }
    }
  }

  ghost predicate PlacedTable(mem: Memory, tables: Tables, sp: Spaces, f: nat) {
    f in tables && f in mem && PageAddress(f) && Known(sp, tables[f])
  }

  lemma TablePlaced(mem: Memory, tables: Tables, sp: Spaces, f: nat)
    requires Implements(mem, tables, sp) && f in tables
    ensures PlacedTable(mem, tables, sp, f)
  {
  }

  lemma AddedOk(sp: Spaces, kernel: nat, g: Region, i: nat, rights: Rights)
    requires Ok(sp, kernel) && Known(sp, g) && g.level > 1 && i < 512
    ensures Ok(OpenChild(sp, g, i, rights), kernel)
  {
    hide Ok;
    if g.level == 4 {
      OpenWindowOk(sp, kernel, g.owner, i, rights);
    } else {
      assert (g.prefix * 512 + i) / 512 == g.prefix;
      OpenRegionOk(sp, kernel, SubRegion(g, i), rights);
    }
  }

  lemma KnownStays(sp: Spaces, g: Region, i: nat, rights: Rights, h: Region)
    requires Known(sp, g) && g.level > 1
    ensures Known(sp, h) ==> Known(OpenChild(sp, g, i, rights), h)
    ensures Child(sp, g, i).None? ==> Known(OpenChild(sp, g, i, rights), SubRegion(g, i))
    ensures OpenChild(sp, g, i, rights).slots.Keys == sp.slots.Keys
  {
  }

  lemma AddedPlaced(mem: Memory, tables: Tables, sp: Spaces, t: nat, i: nat, f: nat, flags: u64)
    requires Implements(mem, tables, sp) && t in tables && tables[t].level > 1 && i < 512
    requires f !in tables && PageAddress(f) && f in mem && Or(f, flags) < WORD_SIZE
    requires Child(sp, tables[t], i).None? && t in mem && (tables[t].level == 4 ==> tables[t].owner in sp.slots)
    ensures var sp' := OpenChild(sp, tables[t], i, RightsOf(flags));
            var tables' := tables[f := SubRegion(tables[t], i)];
            Placed(WithEntry(mem, t, i, Or(f, flags)), tables', sp') && OneTableEach(tables')
  {
    FreshRegion(mem, tables, sp, t, i);
    assert Known(sp, tables[t]);
    hide Known, OpenChild, SubRegion, Child, WordOk;
    var sp' := OpenChild(sp, tables[t], i, RightsOf(flags));
    KnownStays(sp, tables[t], i, RightsOf(flags), tables[t]);
    forall x | x in tables
      ensures x in mem && PageAddress(x) && Known(sp', tables[x])
    {
      assert Known(sp, tables[x]);
      KnownStays(sp, tables[t], i, RightsOf(flags), tables[x]);
    }
    assert forall r :: r in sp'.slots ==> r in sp.slots;
  }

  /** Every word of the new table reads 0, and nothing is expected there. */
  lemma NewTableWord(mem: Memory, tables: Tables, sp: Spaces, kernel: nat, t: nat, i: nat, f: nat, flags: u64, j: nat)
    requires Ok(sp, kernel) && PlacedTable(mem, tables, sp, t) && tables[t].level > 1 && i < 512
    requires Child(sp, tables[t], i).None? && Or(f, flags) < WORD_SIZE
    requires f != t && f in mem && mem[f] == ZeroTable() && j < 512
    ensures WordOk(WithEntry(mem, t, i, Or(f, flags)), tables[f := SubRegion(tables[t], i)],
                   OpenChild(sp, tables[t], i, RightsOf(flags)), f, j)
  {
    assert mem[f][j] == 0;
    EmptyChild(sp, kernel, tables[t], i, RightsOf(flags), j);
    hide Ok, Known, Child, OpenChild;
    assert !Present(0);
  }

  lemma NewEntryWord(mem: Memory, tables: Tables, sp: Spaces, t: nat, i: nat, f: nat, flags: u64)
    requires PlacedTable(mem, tables, sp, t) && tables[t].level > 1 && i < 512
    requires Child(sp, tables[t], i).None? && Or(f, flags) < WORD_SIZE
    requires f != t && PageAddress(f) && EntryFlags(flags)
    ensures WordOk(WithEntry(mem, t, i, Or(f, flags)), tables[f := SubRegion(tables[t], i)],
                   OpenChild(sp, tables[t], i, RightsOf(flags)), t, i)
  {
    MakeEntry(f, flags);
    OpenedChild(sp, tables[t], i, RightsOf(flags));
    hide Known, Child, OpenChild;
  }

  lemma OtherWord(mem: Memory, tables: Tables, sp: Spaces, t: nat, i: nat, f: nat, flags: u64, x: nat, j: nat)
    requires f !in tables && Or(f, flags) < WORD_SIZE
    requires PlacedTable(mem, tables, sp, t) && tables[t].level > 1 && i < 512 && Child(sp, tables[t], i).None?
    requires PlacedTable(mem, tables, sp, x) && j < 512 && (x, j) != (t, i) && WordOk(mem, tables, sp, x, j)
    requires tables[x] == tables[t] ==> x == t
    ensures WordOk(WithEntry(mem, t, i, Or(f, flags)), tables[f := SubRegion(tables[t], i)],
                   OpenChild(sp, tables[t], i, RightsOf(flags)), x, j)
  {
    hide Child, OpenChild, SubRegion, Present, AddressOf, RightsOf;
    if tables[x].level > 1 {
      ChildFrame(sp, tables[t], i, RightsOf(flags), tables[x], j);
    }
    SamePages(sp, tables[t], i, RightsOf(flags));
  }

  lemma SamePages(sp: Spaces, g: Region, i: nat, rights: Rights)
    requires Known(sp, g)
    ensures OpenChild(sp, g, i, rights).pages == sp.pages
  {
  }

  lemma OpenedChild(sp: Spaces, g: Region, i: nat, rights: Rights)
    requires Known(sp, g) && g.level > 1 && Child(sp, g, i).None?
    ensures Child(OpenChild(sp, g, i, rights), g, i) == Some((SubRegion(g, i), rights))
  {
  }

  /** Nothing is expected of the entries of a table for a region just opened. */
  lemma EmptyChild(sp: Spaces, kernel: nat, h: Region, i: nat, rights: Rights, j: nat)
    requires Ok(sp, kernel) && Known(sp, h) && h.level > 1 && i < 512 && j < 512 && Child(sp, h, i).None?
    ensures var sp', g := OpenChild(sp, h, i, rights), SubRegion(h, i);
            if g.level == 1 then PageWord(sp', g.owner, g.prefix * 512 + j) == 0 else Child(sp', g, j).None?
  {
    var g := SubRegion(h, i);
    EmptyBelow(sp, kernel, g, j);
    hide Ok;
    assert g.level > 1 ==> SubRegion(g, j) != g;
  }

  // ---------- writing a last-level entry ----------

  lemma WriteLeaf(mem: Memory, tables: Tables, sp: Spaces, t: nat, i: nat, word: u64)
    requires Implements(mem, tables, sp) && t in tables && tables[t].level == 1 && i < 512 && t in mem
    ensures Implements(WithEntry(mem, t, i, word), tables, Write(sp, tables[t].owner, tables[t].prefix * 512 + i, word))
  {
    var q := tables[t].prefix * 512 + i;
    var sp' := Write(sp, tables[t].owner, q, word);
    var mem' := WithEntry(mem, t, i, word);
    forall f | f in tables ensures Known(sp, tables[f]) && Known(sp', tables[f]) {}
    forall f, j | f in tables && 0 <= j < 512
      ensures f in mem' && WordOk(mem', tables, sp', f, j)
    {
      LeafFrame(mem, tables, sp, t, i, f, j);
    }
  }

  /** Only one entry of one table stands for a given page of a given owner. */
  lemma LeafFrame(mem: Memory, tables: Tables, sp: Spaces, t: nat, i: nat, f: nat, j: nat)
    requires Implements(mem, tables, sp) && t in tables && tables[t].level == 1 && i < 512
    requires f in tables && j < 512 && f in mem
    ensures WordOk(mem, tables, sp, f, j)
    ensures tables[f].level == 1
            && (tables[f].owner, tables[f].prefix * 512 + j) == (tables[t].owner, tables[t].prefix * 512 + i)
            ==> f == t && j == i
  {
  }

  lemma EraseLeaf(mem: Memory, tables: Tables, sp: Spaces, t: nat, i: nat)
    requires Implements(mem, tables, sp) && t in tables && tables[t].level == 1 && i < 512 && t in mem
    ensures Implements(WithEntry(mem, t, i, 0), tables,
                       sp.(pages := sp.pages - {(tables[t].owner, tables[t].prefix * 512 + i)}))
  {
    var q := tables[t].prefix * 512 + i;
    var sp' := sp.(pages := sp.pages - {(tables[t].owner, q)});
    var mem' := WithEntry(mem, t, i, 0);
    forall f | f in tables ensures Known(sp, tables[f]) && Known(sp', tables[f]) {}
    forall f, j | f in tables && 0 <= j < 512
      ensures f in mem' && WordOk(mem', tables, sp', f, j)
    {
      LeafFrame(mem, tables, sp, t, i, f, j);
    }
  }

  /** Clearing a directory entry that is not present changes nothing. */
  lemma EraseAbsent(mem: Memory, tables: Tables, sp: Spaces, t: nat, i: nat)
    requires Implements(mem, tables, sp) && t in tables && tables[t].level > 1 && i < 512 && t in mem
    requires !Present(mem[t][i])
    ensures Implements(WithEntry(mem, t, i, 0), tables, sp)
  {
    var mem' := WithEntry(mem, t, i, 0);
    assert !Present(0);
    forall f, j | f in tables && 0 <= j < 512
      ensures f in mem' && WordOk(mem', tables, sp, f, j)
    {
      assert WordOk(mem, tables, sp, f, j);
    }
  }

  /** A frame that is not a table may hold anything. */
  lemma OtherFrame(mem: Memory, mem': Memory, tables: Tables, sp: Spaces)
    requires Implements(mem, tables, sp)
    requires forall f :: f in tables ==> f in mem' && mem'[f] == mem[f]
    ensures Implements(mem', tables, sp)
  {
    forall f, j | f in tables && 0 <= j < 512
      ensures WordOk(mem', tables, sp, f, j)
    {
      assert WordOk(mem, tables, sp, f, j);
    }
  }

  // ---------- a new pagemap ----------

  /** The loop of vmm_new_pagemap, seen from the finished table. */
  function UpperHalf(t: Table): (r: Table)
    ensures forall i :: 0 <= i < 512 ==> r[i] == if i < 256 then 0 else t[i]
  {
    seq(512, i requires 0 <= i < 512 => if i < 256 then 0 else t[i])
  }

  lemma AddClone(mem: Memory, tables: Tables, sp: Spaces, kernel: nat, f: nat)
    requires Implements(mem, tables, sp) && Ok(sp, kernel) && kernel in sp.slots && kernel in mem
    requires f !in tables && PageAddress(f)
    ensures Implements(mem[f := UpperHalf(mem[kernel])], tables[f := Region(4, f, 0)], Clone(sp, kernel, f))
    ensures Ok(Clone(sp, kernel, f), kernel)
  {
    var sp' := Clone(sp, kernel, f);
    var mem' := mem[f := UpperHalf(mem[kernel])];
    var tables' := tables[f := Region(4, f, 0)];
    assert f !in sp.slots;
    CloneOk(sp, kernel, f);
    hide Ok;
    CloneRegions(mem, tables, sp, kernel, f);
    hide Known, Child, Clone, UpperHalf, Placed;
    forall x, j | x in tables' && 0 <= j < 512
      ensures x in mem' && WordOk(mem', tables', sp', x, j)
    {
      assert x != f ==> PlacedTable(mem, tables, sp, x) by { if x != f { TablePlaced(mem, tables, sp, x); } }
      assert WordOk(mem, tables, sp, if x == f then kernel else x, j);
      hide WordOk;
      CloneWord(mem, tables, sp, kernel, f, x, j);
    }
  }

  lemma CloneRegions(mem: Memory, tables: Tables, sp: Spaces, kernel: nat, f: nat)
    requires Implements(mem, tables, sp) && kernel in sp.slots && kernel in mem
    requires f !in tables && PageAddress(f) && f !in sp.slots
    ensures Placed(mem[f := UpperHalf(mem[kernel])], tables[f := Region(4, f, 0)], Clone(sp, kernel, f))
    ensures OneTableEach(tables[f := Region(4, f, 0)])
  {
    var sp' := Clone(sp, kernel, f);
    forall x | x in tables
      ensures Known(sp', tables[x]) && tables[x] != Region(4, f, 0)
    {
      assert Known(sp, tables[x]);
      CloneKnown(sp, kernel, f, tables[x], 0);
    }
    assert Known(sp', Region(4, f, 0));
    hide Known, WordOk;
  }

  lemma CloneKnown(sp: Spaces, kernel: nat, f: nat, g: Region, j: nat)
    requires kernel in sp.slots && f !in sp.slots
    ensures Known(sp, g) ==> Known(Clone(sp, kernel, f), g) && g != Region(4, f, 0)
    ensures Known(sp, g) ==> Child(Clone(sp, kernel, f), g, j) == Child(sp, g, j)
    ensures Child(Clone(sp, kernel, f), Region(4, f, 0), j) ==
            if j < 256 then None else Child(sp, Region(4, kernel, 0), j)
  {
  }

  lemma CloneWord(mem: Memory, tables: Tables, sp: Spaces, kernel: nat, f: nat, x: nat, j: nat)
    requires kernel in sp.slots && f !in sp.slots && kernel in tables && tables[kernel] == Region(4, kernel, 0)
    requires f !in tables && kernel in mem && j < 512 && (x in tables || x == f) && (x in tables ==> x in mem)
    requires WordOk(mem, tables, sp, if x == f then kernel else x, j)
    requires x in tables ==> Known(sp, tables[x])
    ensures WordOk(mem[f := UpperHalf(mem[kernel])], tables[f := Region(4, f, 0)], Clone(sp, kernel, f), x, j)
  {
    assert !Present(0);
    if x == f {
      CloneKnown(sp, kernel, f, tables[kernel], j);
      assert UpperHalf(mem[kernel])[j] == if j < 256 then 0 else mem[kernel][j];
    } else {
      CloneKnown(sp, kernel, f, tables[x], j);
    }
  }
}
