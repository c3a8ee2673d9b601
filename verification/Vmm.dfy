/** vmm_map, vmm_unmap, virt_to_phys and vmm_new_pagemap of kernel/src/mm/vmm.c over a frame
    allocator. Each method is proved against one operation on plain address spaces. */
module Vmm {
  import opened Bits
  import opened PageWords
  import opened Pmm
  import opened AddressSpaces
  import opened Paging

  /** Tables vmm_map has to add before it can write a page's entry. */
  function Missing(sp: Spaces, root: nat, page: nat): nat {
    if !HasWindow(sp, root, SlotOf(page)) then 3 else
    var o := Owner(sp, root, SlotOf(page));
    (if Region(2, o, page / 512 / 512) in sp.dirs then 0 else 1)
    + (if Region(1, o, page / 512) in sp.dirs then 0 else 1)
  }

  lemma UnopenedWindow(sp: Spaces, kernel: nat, root: nat, page: nat)
    requires Ok(sp, kernel) && !HasWindow(sp, root, SlotOf(page))
    ensures Region(2, root, page / 512 / 512) !in sp.dirs && Region(1, root, page / 512) !in sp.dirs
  {
    assert Region(1, root, page / 512) in sp.dirs ==> ParentOpen(sp, Region(1, root, page / 512));
    assert Region(2, root, page / 512 / 512) in sp.dirs ==> ParentOpen(sp, Region(2, root, page / 512 / 512));
  }

  /** A missing level means an unmapped page. */
  lemma MissingLevel(sp: Spaces, kernel: nat, root: nat, page: nat)
    requires Ok(sp, kernel) && Missing(sp, root, page) > 0
    ensures View(sp, root, page) == 0 && UnmapPage(sp, root, page) == sp
  {
    if HasWindow(sp, root, SlotOf(page)) {
      var k := (Owner(sp, root, SlotOf(page)), page);
      assert Region(1, k.0, page / 512) in sp.dirs ==> ParentOpen(sp, Region(1, k.0, page / 512));
      assert k !in sp.pages;
      assert sp.pages - {k} == sp.pages;
    }
  }

  /** What one present or absent directory entry says. */
  lemma Descend(mem: Memory, tables: Tables, sp: Spaces, t: nat, i: nat)
    requires Implements(mem, tables, sp) && t in tables && i < 512
    ensures t in mem && Known(sp, tables[t]) && 1 <= tables[t].level <= 4
    ensures tables[t].level == 1 ==> mem[t][i] == PageWord(sp, tables[t].owner, tables[t].prefix * 512 + i)
    ensures tables[t].level > 1 ==> (Present(mem[t][i]) <==> Child(sp, tables[t], i).Some?)
    ensures tables[t].level > 1 && Present(mem[t][i]) ==>
              AddressOf(mem[t][i]) in tables && tables[AddressOf(mem[t][i])] == Child(sp, tables[t], i).value.0
              && RightsOf(mem[t][i]) == Child(sp, tables[t], i).value.1
  {
    assert Known(sp, tables[t]);
    assert WordOk(mem, tables, sp, t, i);
  }

  /** The frames in s hold the same words in both memories. */
  ghost predicate Agree(s: set<nat>, m: Memory, m': Memory) {
    forall f :: f in s ==> f in m && f in m' && m[f] == m'[f]
  }

  lemma AgreeTrans(s: set<nat>, m: Memory, m': Memory, m'': Memory)
    requires Agree(s, m, m') && Agree(s, m', m'')
    ensures Agree(s, m, m'')
  {
  }

  lemma KernelWindow(sp: Spaces, kernel: nat)
    requires Ok(sp, kernel)
    ensures kernel in sp.slots
  {
  }

  lemma RootTable(mem: Memory, tables: Tables, sp: Spaces, root: nat)
    requires Implements(mem, tables, sp) && root in sp.slots
    ensures root in tables && tables[root] == Region(4, root, 0)
  {
  }

  class PageMapper {
    const pmm: FrameAllocator
    var kernel: nat
    /** Frames in use as page tables. */
    ghost var tables: Tables
    /** The address spaces the tables implement. */
    ghost var spaces: Spaces

    ghost predicate Valid()
      reads this, pmm, pmm.pages
    {
      && pmm.Valid() && tables.Keys <= pmm.held
      && Implements(pmm.mem, tables, spaces) && Ok(spaces, kernel)
    }

    /** Frames handed out that are not page tables. */
    ghost function ClientFrames(): set<nat>
      reads this, pmm
    {
      pmm.held - tables.Keys
    }

    /** The first step of vmm_init: an empty kernel pagemap. */
    constructor (pmm: FrameAllocator)
      requires pmm.Valid() && pmm.idx > 0
      modifies pmm`idx, pmm`mem, pmm`held
      ensures Valid() && this.pmm == pmm && pmm.pages == old(pmm.pages)
      ensures pmm.idx == old(pmm.idx) - 1 && ClientFrames() == old(pmm.held)
      ensures spaces == Spaces(map[kernel := map[]], map[], map[])
    {
      hide Conserved, Elements, Implements, Ok, Distinct;
      this.pmm := pmm;
      var f := pmm.RequestPage();
      kernel := f;
      tables := map[f := Region(4, f, 0)];
      spaces := Spaces(map[f := map[]], map[], map[]);
      new;
      EmptyKernel(pmm.mem, f);
    }

    /** A client takes a frame for its own use. */
    method TakeFrame() returns (f: nat)
      requires Valid()
      modifies pmm`idx, pmm`mem, pmm`held
      ensures Valid()
      ensures old(pmm.idx) == 0 ==>
                f == 0 && ClientFrames() == old(ClientFrames()) && pmm.idx == 0 && pmm.mem == old(pmm.mem)
      ensures old(pmm.idx) > 0 ==>
                FrameAddress(f) && f !in old(ClientFrames()) && ClientFrames() == old(ClientFrames()) + {f}
      ensures old(pmm.idx) > 0 ==> pmm.mem == old(pmm.mem)[f := ZeroTable()] && pmm.idx == old(pmm.idx) - 1
    {
      hide Conserved, Elements, Distinct, Implements, Ok;
      ghost var was := pmm.mem;
      f := pmm.RequestPage();
      OtherFrame(was, pmm.mem, tables, spaces);
    }

    /** The block vmm_map repeats at each level: make sure entry i of table t leads to a table. */
    method EnsureTable(t: nat, i: nat, flags: u64, ghost g: Region) returns (next: nat)
      requires Valid() && t in tables && tables[t] == g && g.level > 1 && i < 512 && EntryFlags(flags)
      requires Known(spaces, g)
      requires Child(spaces, g, i).Some? || pmm.idx > 0
      modifies this`tables, this`spaces, pmm`idx, pmm`mem, pmm`held
      ensures spaces == OpenChild(old(spaces), g, i, RightsOf(flags))
      ensures next in tables && Child(spaces, g, i).Some? && tables[next] == Child(spaces, g, i).value.0
      ensures pmm.idx == old(pmm.idx) - Cost(old(spaces), g, i)
      ensures Agree(old(ClientFrames()), old(pmm.mem), pmm.mem)
      ensures Valid() && ClientFrames() == old(ClientFrames())
    {
      hide Conserved, Elements, Distinct, Implements, Ok, Present, AddressOf, Known, FrameAddress;
      Descend(pmm.mem, tables, spaces, t, i);
      if !Present(pmm.mem[t][i]) {
        ghost var was := pmm.mem;
        var f := pmm.RequestPage();
        assert PageAddress(f) by { FrameIsPage(pmm, f); }
        OtherFrame(was, pmm.mem, tables, spaces);
        MakeEntry(f, flags);
        AddTable(pmm.mem, tables, spaces, kernel, t, i, f, flags);
        OpenedChild(spaces, g, i, RightsOf(flags));
        spaces := OpenChild(spaces, g, i, RightsOf(flags));
        tables := tables[f := SubRegion(g, i)];
        pmm.mem := WithEntry(pmm.mem, t, i, Or(f, flags));
      }
      Descend(pmm.mem, tables, spaces, t, i);
      next := AddressOf(pmm.mem[t][i]);
    }

    /** The part of vmm_map before the last-level write. */
    method EnsurePath(pagemap: nat, virt: nat, flags: u64) returns (t1: nat)
      requires Valid() && pagemap in spaces.slots && EntryFlags(flags)
      requires pmm.idx >= Missing(spaces, pagemap, PageOf(virt))
      modifies this`tables, this`spaces, pmm`idx, pmm`mem, pmm`held
      ensures Valid() && spaces == Opened(old(spaces), pagemap, PageOf(virt), RightsOf(flags))
      ensures t1 in tables && tables[t1] == Region(1, Owner(spaces, pagemap, SlotOf(PageOf(virt))), PageOf(virt) / 512)
      ensures pmm.idx == old(pmm.idx - Missing(spaces, pagemap, PageOf(virt)))
      ensures ClientFrames() == old(ClientFrames())
      ensures Agree(old(ClientFrames()), old(pmm.mem), pmm.mem)
    {
      hide Conserved, Elements, Distinct, Implements, Ok, Present, AddressOf, FrameAddress, PageOf, TableIndex,
        RightsOf, Known, Child, OpenChild, EntryFlags, Missing, OpenWindow, OpenRegion, Agree;
      ghost var clients, m0 := ClientFrames(), pmm.mem;
      var i2, i3, i4 := Pml2Index(virt), Pml3Index(virt), Pml4Index(virt);
      ghost var q, rights := PageOf(virt), RightsOf(flags);
      PageIndices(virt);
      MissingStages(spaces, kernel, pagemap, q, rights);
      StageWindow(spaces, pagemap, i4, rights);
      RootTable(pmm.mem, tables, spaces, pagemap);
      Descend(pmm.mem, tables, spaces, pagemap, i4);
      var t3 := EnsureTable(pagemap, i4, flags, Region(4, pagemap, 0));
      ghost var o, m1 := Owner(spaces, pagemap, i4), pmm.mem;
      StageRegion(spaces, Region(3, o, i4), i3, rights);
      Descend(pmm.mem, tables, spaces, t3, i3);
      var t2 := EnsureTable(t3, i3, flags, Region(3, o, i4));
      ghost var m2 := pmm.mem;
      AgreeTrans(clients, m0, m1, m2);
      StageRegion(spaces, Region(2, o, q / 512 / 512), i2, rights);
      Descend(pmm.mem, tables, spaces, t2, i2);
      t1 := EnsureTable(t2, i2, flags, Region(2, o, q / 512 / 512));
      AgreeTrans(clients, m0, m2, pmm.mem);
    }

    method Map(pagemap: nat, virt: nat, phys: nat, flags: u64)
      requires Valid() && pagemap in spaces.slots && PageAddress(phys) && EntryFlags(flags)
      requires pmm.idx >= Missing(spaces, pagemap, PageOf(virt))
      modifies this`tables, this`spaces, pmm`idx, pmm`mem, pmm`held
      ensures Valid() && spaces == MapPage(old(spaces), pagemap, PageOf(virt), EntryWord(phys, flags))
      ensures pmm.idx == old(pmm.idx - Missing(spaces, pagemap, PageOf(virt)))
      ensures ClientFrames() == old(ClientFrames())
      ensures Agree(old(ClientFrames()), old(pmm.mem), pmm.mem)
    {
      hide Conserved, Elements, Distinct, Implements, Ok, Present, AddressOf, FrameAddress, PageOf, TableIndex,
        EntryWord, RightsOf, Opened, EntryFlags, Missing, Known;
      var i1 := Pml1Index(virt);
      ghost var q := PageOf(virt);
      PageIndices(virt);
      var t1 := EnsurePath(pagemap, virt, flags);
      var w := EntryWord(phys, flags);
      Descend(pmm.mem, tables, spaces, t1, i1);
      assert tables[t1] in spaces.dirs by { KnownSmall(spaces, tables[t1]); }
      WriteLeaf(pmm.mem, tables, spaces, t1, i1, w);
      WriteOk(spaces, kernel, tables[t1].owner, q, w);
      pmm.mem := WithEntry(pmm.mem, t1, i1, w);
      spaces := Write(spaces, tables[t1].owner, q, w);
    }

    /** The block vmm_unmap repeats at each level: clear an entry that was not present. */
    method ClearAbsent(t: nat, i: nat)
      requires Valid() && t in tables && t in pmm.mem && tables[t].level > 1 && i < 512 && !Present(pmm.mem[t][i])
      modifies pmm`mem
      ensures Valid() && Agree(old(ClientFrames()), old(pmm.mem), pmm.mem)
    {
      hide Conserved, Elements, Distinct, Implements, Ok, Present, FrameAddress;
      EraseAbsent(pmm.mem, tables, spaces, t, i);
      pmm.mem := WithEntry(pmm.mem, t, i, 0);
    }

    method Unmap(pagemap: nat, virt: nat)
      requires Valid() && pagemap in spaces.slots
      modifies this`spaces, pmm`mem
      ensures Valid() && spaces == UnmapPage(old(spaces), pagemap, PageOf(virt))
      ensures Agree(old(ClientFrames()), old(pmm.mem), pmm.mem)
    {
      hide Conserved, Elements, Distinct, Implements, Ok, Present, AddressOf, FrameAddress, PageOf, TableIndex, Known,
        RightsOf, Pml1Index, Pml2Index, Pml3Index, Pml4Index;
      var i1, i2, i3, i4 := Pml1Index(virt), Pml2Index(virt), Pml3Index(virt), Pml4Index(virt);
      ghost var q := PageOf(virt);
      PageIndices(virt);
      UnmapOk(spaces, kernel, pagemap, q);
      if Missing(spaces, pagemap, q) > 0 {
        MissingLevel(spaces, kernel, pagemap, q);
      }
      RootTable(pmm.mem, tables, spaces, pagemap);
      Descend(pmm.mem, tables, spaces, pagemap, i4);
      if !Present(pmm.mem[pagemap][i4]) {
        ClearAbsent(pagemap, i4);
        return;
      }
      var t3 := AddressOf(pmm.mem[pagemap][i4]);
      Descend(pmm.mem, tables, spaces, t3, i3);
      if !Present(pmm.mem[t3][i3]) {
        ClearAbsent(t3, i3);
        return;
      }
      var t2 := AddressOf(pmm.mem[t3][i3]);
      Descend(pmm.mem, tables, spaces, t2, i2);
      if !Present(pmm.mem[t2][i2]) {
        ClearAbsent(t2, i2);
        return;
      }
      var t1 := AddressOf(pmm.mem[t2][i2]);
      Descend(pmm.mem, tables, spaces, t1, i1);
      EraseLeaf(pmm.mem, tables, spaces, t1, i1);
      pmm.mem := WithEntry(pmm.mem, t1, i1, 0);
      spaces := UnmapPage(spaces, pagemap, q);
    }

    /** The body of vmm_new_pagemap after the allocation: clear the page, copy entries 256 to 511. */
    method CopyUpperHalf(pagemap: nat)
      requires pagemap in pmm.mem && kernel in pmm.mem && pagemap != kernel
      modifies pmm`mem
      ensures pmm.mem == old(pmm.mem[pagemap := UpperHalf(pmm.mem[kernel])])
    {
      ghost var was := pmm.mem;
      pmm.mem := pmm.mem[pagemap := ZeroTable()];
      for i := 256 to 512
        invariant pagemap in pmm.mem && kernel in pmm.mem
        invariant pmm.mem == was[pagemap := pmm.mem[pagemap]]
        invariant forall j :: 0 <= j < 512 ==> pmm.mem[pagemap][j] == if 256 <= j < i then was[kernel][j] else 0
      {
        pmm.mem := WithEntry(pmm.mem, pagemap, i, pmm.mem[kernel][i]);
      }
      assert pmm.mem[pagemap] == UpperHalf(was[kernel]);
    }

    method NewPagemap() returns (pagemap: nat)
      requires Valid() && pmm.idx > 0
      modifies this`tables, this`spaces, pmm`idx, pmm`mem, pmm`held
      ensures Valid() && pagemap !in old(spaces.slots) && spaces == Clone(old(spaces), kernel, pagemap)
      ensures pmm.idx == old(pmm.idx) - 1 && ClientFrames() == old(ClientFrames())
      ensures Agree(old(ClientFrames()), old(pmm.mem), pmm.mem)
    {
      hide Conserved, Elements, Distinct, Implements, Ok, Clone, UpperHalf, FrameAddress, Known, Child, PageWord,
        Present, AddressOf;
      KernelWindow(spaces, kernel);
      RootTable(pmm.mem, tables, spaces, kernel);
      Descend(pmm.mem, tables, spaces, kernel, 0);
      ghost var was := pmm.mem;
      pagemap := pmm.RequestPage();
      assert PageAddress(pagemap) by { FrameIsPage(pmm, pagemap); }
      OtherFrame(was, pmm.mem, tables, spaces);
      AddClone(pmm.mem, tables, spaces, kernel, pagemap);
      assert pagemap !in spaces.slots by { if pagemap in spaces.slots { RootTable(pmm.mem, tables, spaces, pagemap); } }
      CopyUpperHalf(pagemap);
      tables := tables[pagemap := Region(4, pagemap, 0)];
      spaces := Clone(spaces, kernel, pagemap);
    }

    method VirtToPhys(pagemap: nat, virt: nat) returns (phys: nat)
      requires Valid() && pagemap in spaces.slots
      ensures phys == AddressOf(View(spaces, pagemap, PageOf(virt)))
    {
      Walk(pmm.mem, tables, spaces, kernel, pagemap, virt);
      hide Conserved, Elements, Implements, Ok, AddressOf, Present, View, PageOf, TableIndex, Distinct;
      var i1, i2, i3, i4 := Pml1Index(virt), Pml2Index(virt), Pml3Index(virt), Pml4Index(virt);
      if !Present(pmm.mem[pagemap][i4]) {
        return 0;
      }
      var t3 := AddressOf(pmm.mem[pagemap][i4]);
      if !Present(pmm.mem[t3][i3]) {
        return 0;
      }
      var t2 := AddressOf(pmm.mem[t3][i3]);
      if !Present(pmm.mem[t2][i2]) {
        return 0;
      }
      var t1 := AddressOf(pmm.mem[t2][i2]);
      phys := AddressOf(pmm.mem[t1][i1]);
    }
  }

  lemma KnownSmall(sp: Spaces, g: Region)
    requires Known(sp, g) && g.level == 1
    ensures g in sp.dirs
  {
  }

  /** The first table addition of vmm_map opens a window, the other two open regions. */
  lemma StageWindow(sp: Spaces, root: nat, slot: nat, rights: Rights)
    requires root in sp.slots
    ensures var g, s := Region(4, root, 0), OpenChild(sp, Region(4, root, 0), slot, rights);
            && s == OpenWindow(sp, root, slot, rights) && HasWindow(s, root, slot)
            && Child(s, g, slot).Some? && Child(s, g, slot).value.0 == Region(3, Owner(s, root, slot), slot)
            && Cost(sp, g, slot) == if HasWindow(sp, root, slot) then 0 else 1
  {
  }

  lemma StageRegion(sp: Spaces, g: Region, i: nat, rights: Rights)
    requires 2 <= g.level <= 3
    ensures var s := OpenChild(sp, g, i, rights);
            && s == OpenRegion(sp, SubRegion(g, i), rights) && s.slots == sp.slots
            && Child(s, g, i).Some? && Child(s, g, i).value.0 == SubRegion(g, i)
            && Cost(sp, g, i) == if SubRegion(g, i) in sp.dirs then 0 else 1
  {
  }

  /** How many of the three additions happen. */
  lemma MissingStages(sp: Spaces, kernel: nat, root: nat, page: nat, rights: Rights)
    requires Ok(sp, kernel) && root in sp.slots
    ensures var s1 := OpenWindow(sp, root, SlotOf(page), rights);
            var o := Owner(s1, root, SlotOf(page));
            var s2 := OpenRegion(s1, Region(2, o, page / 512 / 512), rights);
            Missing(sp, root, page) ==
              (if HasWindow(sp, root, SlotOf(page)) then 0 else 1)
              + (if Region(2, o, page / 512 / 512) in s1.dirs then 0 else 1)
              + (if Region(1, o, page / 512) in s2.dirs then 0 else 1)
  {
    if !HasWindow(sp, root, SlotOf(page)) {
      UnopenedWindow(sp, kernel, root, page);
    }
  }

  function Cost(sp: Spaces, g: Region, i: nat): nat {
    if Child(sp, g, i).Some? then 0 else 1
  }

  lemma FrameIsPage(pmm: FrameAllocator, f: nat)
    requires pmm.Valid() && f in pmm.held
    ensures PageAddress(f) && f in pmm.mem
  {
  }

  /** `word` is what the hardware finds at the end of the walk, 0 if a level is absent. */
  ghost predicate WalkFinds(mem: Memory, root: nat, virt: nat, word: nat) {
    var i1, i2, i3, i4 := Pml1Index(virt), Pml2Index(virt), Pml3Index(virt), Pml4Index(virt);
    root in mem &&
    if !Present(mem[root][i4]) then word == 0 else
    var t3 := AddressOf(mem[root][i4]);
    t3 in mem &&
    if !Present(mem[t3][i3]) then word == 0 else
    var t2 := AddressOf(mem[t3][i3]);
    t2 in mem &&
    if !Present(mem[t2][i2]) then word == 0 else
    var t1 := AddressOf(mem[t2][i2]);
    t1 in mem && word == mem[t1][i1]
  }

  lemma Walk(mem: Memory, tables: Tables, sp: Spaces, kernel: nat, root: nat, virt: nat)
    requires Implements(mem, tables, sp) && Ok(sp, kernel) && root in sp.slots
    ensures WalkFinds(mem, root, virt, View(sp, root, PageOf(virt)))
    ensures AddressOf(0) == 0
  {
    hide Implements, Ok, Known, AddressOf, Present, PageOf, TableIndex;
    assert AddressOf(0) == 0 by { ZeroAddress(); }
    var q := PageOf(virt);
    var i1, i2, i3, i4 := Pml1Index(virt), Pml2Index(virt), Pml3Index(virt), Pml4Index(virt);
    PageIndices(virt);
    if Missing(sp, root, q) > 0 {
      MissingLevel(sp, kernel, root, q);
    }
    RootTable(mem, tables, sp, root);
    Descend(mem, tables, sp, root, i4);
    if Present(mem[root][i4]) {
      var t3 := AddressOf(mem[root][i4]);
      Descend(mem, tables, sp, t3, i3);
      if Present(mem[t3][i3]) {
        var t2 := AddressOf(mem[t3][i3]);
        Descend(mem, tables, sp, t2, i2);
        if Present(mem[t2][i2]) {
          Descend(mem, tables, sp, AddressOf(mem[t2][i2]), i1);
        }
      }
    }
  }

  lemma ZeroAddress()
    ensures AddressOf(0) == 0
  {
  }

  lemma EmptyKernel(mem: Memory, f: nat)
    requires f in mem && mem[f] == ZeroTable() && PageAddress(f)
    ensures var sp := Spaces(map[f := map[]], map[], map[]);
            Implements(mem, map[f := Region(4, f, 0)], sp) && Ok(sp, f)
  {
    var sp := Spaces(map[f := map[]], map[], map[]);
    var tables := map[f := Region(4, f, 0)];
    assert !Present(0);
    forall x, j | x in tables && 0 <= j < 512
      ensures x in mem && WordOk(mem, tables, sp, x, j)
    {
      assert mem[f][j] == 0 && !HasWindow(sp, f, j);
    }
  }

  /** The rights the hardware derives from the four entries on the way to a page. */
  function HardwareRights(mem: Memory, root: nat, virt: nat): Option<Rights> {
    var i1, i2, i3, i4 := Pml1Index(virt), Pml2Index(virt), Pml3Index(virt), Pml4Index(virt);
    if root !in mem || !Present(mem[root][i4]) then None else
    var t3 := AddressOf(mem[root][i4]);
    if t3 !in mem || !Present(mem[t3][i3]) then None else
    var t2 := AddressOf(mem[t3][i3]);
    if t2 !in mem || !Present(mem[t2][i2]) then None else
    var t1 := AddressOf(mem[t2][i2]);
    if t1 !in mem || !Present(mem[t1][i1]) then None else
    Some(Meet(Meet(RightsOf(mem[root][i4]), RightsOf(mem[t3][i3])), Meet(RightsOf(mem[t2][i2]), RightsOf(mem[t1][i1]))))
  }

  /** Bit by bit: a page is writable if bit 1 is set in all four entries, open to users if bit 2 is, and not
      executable if bit 63 is set in any of them. */
  lemma RightsBits(mem: Memory, root: nat, virt: nat)
    requires HardwareRights(mem, root, virt).Some?
    ensures var i1, i2, i3, i4 := Pml1Index(virt), Pml2Index(virt), Pml3Index(virt), Pml4Index(virt);
            var w4 := mem[root][i4];
            var w3 := mem[AddressOf(w4)][i3];
            var w2 := mem[AddressOf(w3)][i2];
            var w1 := mem[AddressOf(w2)][i1];
            var r := HardwareRights(mem, root, virt).value;
            && And(w4, 1) != 0 && And(w3, 1) != 0 && And(w2, 1) != 0 && And(w1, 1) != 0
            && (r.writable <==> And(w4, 2) != 0 && And(w3, 2) != 0 && And(w2, 2) != 0 && And(w1, 2) != 0)
            && (r.user <==> And(w4, 4) != 0 && And(w3, 4) != 0 && And(w2, 4) != 0 && And(w1, 4) != 0)
            && (r.noExecute <==> And(w4, 0x8000_0000_0000_0000) != 0 || And(w3, 0x8000_0000_0000_0000) != 0
                                 || And(w2, 0x8000_0000_0000_0000) != 0 || And(w1, 0x8000_0000_0000_0000) != 0)
  {
    hide And, TableIndex;
  }

  /** The rights an address space records for a page are those the hardware enforces over all four levels. */
  lemma RightsAgree(mem: Memory, tables: Tables, sp: Spaces, kernel: nat, root: nat, virt: nat)
    requires Implements(mem, tables, sp) && Ok(sp, kernel) && root in sp.slots
    ensures HardwareRights(mem, root, virt) == Effective(sp, root, PageOf(virt))
  {
    hide Implements, Ok, Known, AddressOf, Present, PageOf, TableIndex, RightsOf;
    var q := PageOf(virt);
    var i1, i2, i3, i4 := Pml1Index(virt), Pml2Index(virt), Pml3Index(virt), Pml4Index(virt);
    PageIndices(virt);
    RootTable(mem, tables, sp, root);
    Descend(mem, tables, sp, root, i4);
    if Present(mem[root][i4]) {
      var t3 := AddressOf(mem[root][i4]);
      Descend(mem, tables, sp, t3, i3);
      if Present(mem[t3][i3]) {
        var t2 := AddressOf(mem[t3][i3]);
        Descend(mem, tables, sp, t2, i2);
        if Present(mem[t2][i2]) {
          Descend(mem, tables, sp, AddressOf(mem[t2][i2]), i1);
          LeafPresent(sp, kernel, Owner(sp, root, i4), q);
        }
      }
    }
  }

  lemma LeafPresent(sp: Spaces, kernel: nat, owner: nat, page: nat)
    requires Ok(sp, kernel)
    ensures Present(PageWord(sp, owner, page)) <==> (owner, page) in sp.pages
  {
    assert !Present(0);
  }

  lemma ValidSpaces(vm: PageMapper)
    requires vm.Valid()
    ensures Ok(vm.spaces, vm.kernel)
  {
  }
}
