/** elf_load of kernel/src/proc/elf.c: the pages a 64-bit ELF file asks for, the loop that maps and fills
    them, and what a program then finds in its memory. */
module Elf {
  import opened Bits
  import opened PageWords
  import opened Pmm
  import opened AddressSpaces
  import opened Paging
  import opened Vmm
  import opened Mappings
  import opened FrameBytes

  const ELF_MAGIC: nat := 0x464C457F
  const PT_LOAD: nat := 1
  const PF_X: nat := 1
  const PF_W: nat := 2

  // ---------- the file ----------

  /** An unsigned little-endian field. */
  function Field(data: seq<u8>, at: nat, size: nat): nat
    requires at + size <= |data|
    decreases size
  {
    if size == 0 then 0 else data[at] + 256 * Field(data, at + 1, size - 1)
  }

  predicate IsElf64(data: seq<u8>)
    requires |data| >= 64
  {
    Field(data, 0, 4) == ELF_MAGIC && data[4] == 2
  }

  function EntryPoint(data: seq<u8>): nat
    requires |data| >= 64
  {
    Field(data, 24, 8)
  }

  function HeaderCount(data: seq<u8>): nat
    requires |data| >= 64
  {
    Field(data, 56, 2)
  }

  function HeaderAt(data: seq<u8>, i: nat): nat
    requires |data| >= 64
  {
    Field(data, 32, 8) + i * 56
  }

  datatype Segment = Segment(kind: nat, flags: nat, offset: nat, vaddr: nat, filesz: nat, memsz: nat)

  function SegmentAt(data: seq<u8>, i: nat): Segment
    requires |data| >= 64 && HeaderAt(data, i) + 56 <= |data|
  {
    var h := HeaderAt(data, i);
    Segment(Field(data, h, 4), Field(data, h + 4, 4), Field(data, h + 8, 8), Field(data, h + 16, 8),
            Field(data, h + 32, 8), Field(data, h + 40, 8))
  }

  /** The file holds the segment's bytes, and its end addresses fit in 64 bits. */
  predicate SegmentOk(data: seq<u8>, s: Segment) {
    && s.offset + s.filesz <= |data| && s.vaddr + s.memsz + 4096 <= WORD_SIZE
    && s.offset + s.memsz + 0x3000 <= WORD_SIZE && s.offset + s.filesz + 4096 <= WORD_SIZE
  }

  /** What elf_load trusts about a file that passes its two checks. */
  ghost predicate FileOk(data: seq<u8>) {
    && |data| >= 64
    && (IsElf64(data) ==> forall i :: 0 <= i < HeaderCount(data) ==>
          HeaderAt(data, i) + 56 <= |data|
          && (SegmentAt(data, i).kind == PT_LOAD ==> SegmentOk(data, SegmentAt(data, i))))
  }

  // ---------- the pages it asks for ----------

  function Start(s: Segment): nat {
    s.vaddr / 4096 * 4096
  }

  function End(s: Segment): nat {
    AlignUp(s.vaddr + s.memsz, 4096)
  }

  function PageCount(s: Segment): nat {
    if Start(s) < End(s) then (End(s) - Start(s)) / 4096 else 0
  }

  function SegmentFlags(flags: nat): (f: u64)
    ensures EntryFlags(f)
  {
    KernelFlags();
    var w := if And(flags, PF_W) != 0 then Or(VMM_PRESENT, VMM_WRITABLE) else VMM_PRESENT;
    if And(flags, PF_X) == 0 then Or(w, NX_BIT) else w
  }

  /** Byte m of a segment, counted from the start of its first page. */
  function SegmentByte(data: seq<u8>, s: Segment, m: nat): u8
    requires s.offset + s.filesz <= |data|
  {
    if m < s.filesz then data[s.offset + m] else 0
  }

  /** One page to be mapped at an address and filled. */
  datatype PageLoad = PageLoad(virt: nat, flags: u64, bytes: seq<u8>)

  function PageBytes(data: seq<u8>, s: Segment, i: nat): (b: seq<u8>)
    requires s.offset + s.filesz <= |data|
    ensures |b| == 4096 && forall j :: 0 <= j < 4096 ==> b[j] == SegmentByte(data, s, i * 4096 + j)
  {
    seq<u8>(4096, j requires 0 <= j < 4096 => SegmentByte(data, s, i * 4096 + j))
  }

  function SegmentPage(data: seq<u8>, s: Segment, i: nat): PageLoad
    requires s.offset + s.filesz <= |data|
  {
    PageLoad(Start(s) + i * 4096, SegmentFlags(s.flags), PageBytes(data, s, i))
  }

  function SegmentPages(data: seq<u8>, s: Segment, n: nat): (r: seq<PageLoad>)
    requires s.offset + s.filesz <= |data|
    ensures |r| == n && forall i :: 0 <= i < n ==> r[i] == SegmentPage(data, s, i)
  {
    seq(n, i requires 0 <= i < n => SegmentPage(data, s, i))
  }

  /** The pages of the first n program headers, in loading order. */
  ghost function LoadPlan(data: seq<u8>, n: nat): seq<PageLoad>
    requires FileOk(data) && IsElf64(data) && n <= HeaderCount(data)
  {
    if n == 0 then []
    else
      var s := SegmentAt(data, n - 1);
      LoadPlan(data, n - 1) + if s.kind == PT_LOAD then SegmentPages(data, s, PageCount(s)) else []
  }

  ghost function FilePlan(data: seq<u8>): seq<PageLoad>
    requires FileOk(data)
  {
    if IsElf64(data) then LoadPlan(data, HeaderCount(data)) else []
  }

  ghost predicate PlanOk(plan: seq<PageLoad>) {
    forall k :: 0 <= k < |plan| ==> EntryFlags(plan[k].flags) && |plan[k].bytes| == 4096
  }

  lemma {:induction false} LoadPlanOk(data: seq<u8>, n: nat)
    requires FileOk(data) && IsElf64(data) && n <= HeaderCount(data)
    ensures PlanOk(LoadPlan(data, n))
  {
    hide EntryFlags, IsElf64, HeaderCount, SegmentFlags, SegmentAt;
    if n > 0 {
      LoadPlanOk(data, n - 1);
    }
  }

  lemma {:induction false} PlanPrefix(data: seq<u8>, i: nat, n: nat)
    requires FileOk(data) && IsElf64(data) && i <= n <= HeaderCount(data)
    ensures LoadPlan(data, i) <= LoadPlan(data, n)
  {
    hide IsElf64, HeaderCount, SegmentAt;
    if i < n {
      PlanPrefix(data, i, n - 1);
    }
  }

  // ---------- a run of the loader ----------

  /** What the loader started from and what it has to do. */
  datatype Run = Run(base: Spaces, root: nat, plan: seq<PageLoad>, clients: set<nat>, mem: Memory, idx: nat)

  /** The mappings made when the first |fs| pages have got the frames fs. */
  function PlacedAt(plan: seq<PageLoad>, fs: seq<nat>): (ms: seq<Mapping>)
    requires |fs| <= |plan|
    ensures |ms| == |fs| && forall k :: 0 <= k < |fs| ==> ms[k] == Mapping(plan[k].virt, fs[k], plan[k].flags)
  {
    seq(|fs|, k requires 0 <= k < |fs| => Mapping(plan[k].virt, fs[k], plan[k].flags))
  }

  function Zeros(n: nat): (z: seq<nat>)
    ensures |z| == n && forall k :: 0 <= k < n ==> z[k] == 0
  {
    seq(n, k => 0)
  }

  ghost predicate Holds(t: Table, bytes: seq<u8>) {
    |bytes| == 4096 && forall j :: 0 <= j < 4096 ==> Peek(t, j) == bytes[j]
  }

  /** Distinct frames, none in use before, each filled as planned. */
  ghost predicate Filled(mem: Memory, plan: seq<PageLoad>, clients: set<nat>, fs: seq<nat>)
    requires |fs| <= |plan|
  {
    && (forall k :: 0 <= k < |fs| ==>
        PageAddress(fs[k]) && fs[k] !in clients && fs[k] in mem && Holds(mem[fs[k]], plan[k].bytes))
    && (forall j, k :: 0 <= j < k < |fs| ==> fs[j] != fs[k])
  }

  lemma ZerosFit(plan: seq<PageLoad>, n: nat)
    requires PlanOk(plan) && n <= |plan|
    ensures AllFit(PlacedAt(plan, Zeros(n)))
  {
    hide EntryFlags;
  }

  /** Page tables needed for the first n pages of the plan. */
  ghost function TablesFor(run: Run, n: nat): nat
    requires PlanOk(run.plan) && n <= |run.plan| && run.root in run.base.slots
  {
    ZerosFit(run.plan, n);
    CostAll(run.base, run.root, PlacedAt(run.plan, Zeros(n)))
  }

  /** Page tables needed for page n of the plan when those before it are mapped. */
  ghost function TablesAt(run: Run, n: nat): nat
    requires PlanOk(run.plan) && n < |run.plan| && run.root in run.base.slots
  {
    ZerosFit(run.plan, n);
    Missing(MapAll(run.base, run.root, PlacedAt(run.plan, Zeros(n))), run.root, PageOf(run.plan[n].virt))
  }

  /** vmm_map never runs out of frames: if a page's own frame is there, so are those for its tables. */
  ghost predicate NeverStuck(run: Run) {
    && PlanOk(run.plan) && run.root in run.base.slots
    && forall n :: 0 <= n < |run.plan| ==>
         run.idx <= n + TablesFor(run, n) || run.idx > n + TablesFor(run, n) + TablesAt(run, n)
  }

  /** The state after the first |fs| pages of the plan. */
  ghost predicate Progress(vm: PageMapper, run: Run, fs: seq<nat>)
    reads vm, vm.pmm, vm.pmm.pages
  {
    && vm.Valid() && |fs| <= |run.plan| && run.root in run.base.slots && PlanOk(run.plan)
    && Filled(vm.pmm.mem, run.plan, run.clients, fs) && AllFit(PlacedAt(run.plan, fs))
    && vm.spaces == MapAll(run.base, run.root, PlacedAt(run.plan, fs))
    && vm.ClientFrames() == run.clients + Elements(fs)
    && Agree(run.clients, run.mem, vm.pmm.mem)
    && vm.pmm.idx == run.idx - |fs| - TablesFor(run, |fs|)
  }

  // ---------- one page ----------

  /** No 64-bit sum or product of elf_load wraps for a segment it may trust. */
  lemma NoWrap(data: seq<u8>, s: Segment, i: nat)
    requires SegmentOk(data, s) && i < PageCount(s)
    ensures s.vaddr + s.memsz + 4095 < WORD_SIZE && Start(s) + i * 4096 + 4096 <= End(s) < WORD_SIZE
    ensures s.offset + i * 4096 + 4096 < WORD_SIZE && s.offset + s.filesz < WORD_SIZE
    ensures Start(s) + PageCount(s) * 4096 == End(s)
  {
  }

  /** The copy or the clearing that elf_load does after mapping a page. */
  method FillPage(vm: PageMapper, f: nat, data: seq<u8>, s: Segment, addr: nat, ghost i: nat)
    requires vm.Valid() && f in vm.ClientFrames() && f in vm.pmm.mem && vm.pmm.mem[f] == ZeroTable()
    requires SegmentOk(data, s) && i < PageCount(s) && addr == Start(s) + i * 4096
    modifies vm.pmm`mem
    ensures vm.Valid() && f in vm.pmm.mem && vm.pmm.mem == old(vm.pmm.mem)[f := vm.pmm.mem[f]]
    ensures Holds(vm.pmm.mem[f], SegmentPage(data, s, i).bytes)
  {
    hide Implements, Ok, Conserved, Distinct, Peek, FrameAddress, Start, PageCount, SegmentFlags, ZeroTable;
    ghost var was := vm.pmm.mem;
    forall j | 0 <= j < 4096 ensures Peek(was[f], j) == 0 { FreshByte(j); }
    var fileOffset := s.offset + (addr - Start(s));
    if fileOffset < s.offset + s.filesz {
      var toCopy := 4096;
      if fileOffset + 4096 > s.offset + s.filesz {
        toCopy := s.offset + s.filesz - fileOffset;
      }
      Memcpy(vm.pmm, f, data, fileOffset, toCopy);
    } else {
      Memclear(vm.pmm, f);
    }
    assert Holds(vm.pmm.mem[f], PageBytes(data, s, i));
    OtherFrame(was, vm.pmm.mem, vm.tables, vm.spaces);
  }

  /** The body of elf_load's inner loop; f is 0 when no frame is left. */
  method LoadPage(vm: PageMapper, pagemap: nat, data: seq<u8>, s: Segment, addr: nat, ghost i: nat) returns (f: nat)
    requires vm.Valid() && pagemap in vm.spaces.slots
    requires SegmentOk(data, s) && i < PageCount(s) && addr == Start(s) + i * 4096
    requires vm.pmm.idx == 0 || vm.pmm.idx > Missing(vm.spaces, pagemap, PageOf(addr))
    modifies vm`tables, vm`spaces, vm.pmm`idx, vm.pmm`mem, vm.pmm`held
    ensures vm.Valid() && (f == 0 <==> old(vm.pmm.idx) == 0)
    ensures Agree(old(vm.ClientFrames()), old(vm.pmm.mem), vm.pmm.mem)
    ensures f == 0 ==> vm.ClientFrames() == old(vm.ClientFrames()) && vm.spaces == old(vm.spaces) && vm.pmm.idx == 0
    ensures f != 0 ==> PageAddress(f) && f in vm.pmm.mem && f !in old(vm.ClientFrames())
    ensures f != 0 ==> vm.ClientFrames() == old(vm.ClientFrames()) + {f}
    ensures f != 0 ==> vm.spaces == MapPage(old(vm.spaces), pagemap, PageOf(addr), EntryWord(f, SegmentFlags(s.flags)))
    ensures f != 0 ==> vm.pmm.idx == old(vm.pmm.idx - 1 - Missing(vm.spaces, pagemap, PageOf(addr)))
    ensures f != 0 ==> Holds(vm.pmm.mem[f], SegmentPage(data, s, i).bytes)
  {
    hide Implements, Ok, Conserved, Distinct, FrameAddress, PageOf, Missing, MapPage, EntryWord, EntryFlags, Start,
      PageCount, SegmentFlags, Holds, ZeroTable, SegmentPage, SegmentOk, PageAddress;
    f := vm.TakeFrame();
    if f == 0 {
      if old(vm.pmm.idx) > 0 { FrameFacts(f); }
      return;
    }
    ghost var m1, m0, clients := vm.pmm.mem, old(vm.pmm.mem), old(vm.ClientFrames());
    FrameFacts(f);
    vm.Map(pagemap, addr, f, SegmentFlags(s.flags));
    ghost var m2 := vm.pmm.mem;
    FillPage(vm, f, data, s, addr, i);
    AgreeThrough(clients, f, m0, m1, m2, vm.pmm.mem);
  }

  lemma FrameFacts(f: nat)
    requires FrameAddress(f)
    ensures PageAddress(f) && f != 0
  {
  }

  lemma AgreeThrough(s: set<nat>, f: nat, m0: Memory, m1: Memory, m2: Memory, m3: Memory)
    requires f !in s && (forall x :: x in s ==> x in m0) && m1 == m0[f := ZeroTable()] && Agree(s + {f}, m1, m2)
    requires f in m3 && m3 == m2[f := m3[f]]
    ensures Agree(s, m0, m3)
  {
    forall x | x in s ensures x in m0 && x in m3 && m0[x] == m3[x] { assert x in s + {f}; }
  }

  // ---------- the loops ----------

  /** Giving the next page a frame extends the list of mappings by one. */
  lemma NextMapping(run: Run, fs: seq<nat>, f: nat)
    requires |fs| < |run.plan| && run.root in run.base.slots && PlanOk(run.plan)
    requires AllFit(PlacedAt(run.plan, fs)) && PageAddress(f)
    ensures AllFit(PlacedAt(run.plan, fs + [f]))
    ensures MapAll(run.base, run.root, PlacedAt(run.plan, fs + [f])) ==
            MapPage(MapAll(run.base, run.root, PlacedAt(run.plan, fs)), run.root, PageOf(run.plan[|fs|].virt),
                    EntryWord(f, run.plan[|fs|].flags))
  {
    hide EntryFlags, PageOf, MapAll, MapPage, EntryWord, PageAddress;
    var p := run.plan[|fs|];
    var m := Mapping(p.virt, f, p.flags);
    assert PlacedAt(run.plan, fs + [f]) == PlacedAt(run.plan, fs) + [m];
    MapAllNext(run.base, run.root, PlacedAt(run.plan, fs), m);
  }

  /** The tables a page needs do not depend on which frames were given out. */
  lemma NextTables(run: Run, fs: seq<nat>)
    requires |fs| < |run.plan| && run.root in run.base.slots && PlanOk(run.plan) && AllFit(PlacedAt(run.plan, fs))
    ensures TablesFor(run, |fs| + 1) == TablesFor(run, |fs|) + TablesAt(run, |fs|)
    ensures TablesAt(run, |fs|) ==
            Missing(MapAll(run.base, run.root, PlacedAt(run.plan, fs)), run.root, PageOf(run.plan[|fs|].virt))
  {
    hide EntryFlags, PageOf, MapAll, Missing, CostAll, Fit;
    var n := |fs|;
    var p := run.plan[n];
    var m := Mapping(p.virt, 0, p.flags);
    ZerosFit(run.plan, n);
    ZerosFit(run.plan, n + 1);
    var ms := PlacedAt(run.plan, Zeros(n));
    assert PlacedAt(run.plan, Zeros(n + 1)) == ms + [m];
    assert Fit(m) by { assert Last(ms + [m]) == m; assert (ms + [m])[n] == m; }
    CostNext(run.base, run.root, ms, m);
    MissingIgnoresFrames(run.base, run.root, ms, PlacedAt(run.plan, fs), PageOf(p.virt));
  }

  lemma NextFilled(mem: Memory, mem': Memory, plan: seq<PageLoad>, clients: set<nat>, fs: seq<nat>, f: nat)
    requires |fs| < |plan| && Filled(mem, plan, clients, fs) && Agree(clients + Elements(fs), mem, mem')
    requires PageAddress(f) && f !in clients + Elements(fs) && f in mem' && Holds(mem'[f], plan[|fs|].bytes)
    ensures Filled(mem', plan, clients, fs + [f])
    ensures clients + Elements(fs + [f]) == clients + Elements(fs) + {f}
  {
    hide PageAddress, Holds;
    assert forall k :: 0 <= k < |fs| ==> fs[k] in clients + Elements(fs);
    ElementsPush(fs, f);
  }

  lemma AgreePart(s: set<nat>, t: set<nat>, m: Memory, m': Memory, m'': Memory)
    requires Agree(s, m, m') && Agree(s + t, m', m'')
    ensures Agree(s, m, m'')
  {
    forall f | f in s ensures f in m && f in m'' && m[f] == m''[f] { assert f in s + t; }
  }

  /** Everything Progress says about frames, kept by a step that leaves the frames in use alone. */
  lemma SameFilled(mem: Memory, mem': Memory, plan: seq<PageLoad>, clients: set<nat>, fs: seq<nat>)
    requires |fs| <= |plan| && Filled(mem, plan, clients, fs) && Agree(clients + Elements(fs), mem, mem')
    ensures Filled(mem', plan, clients, fs)
  {
    hide PageAddress, Holds;
    assert forall k :: 0 <= k < |fs| ==> fs[k] in clients + Elements(fs);
  }

  method LoadNext(vm: PageMapper, data: seq<u8>, s: Segment, addr: nat, ghost i: nat, pagemap: nat, ghost run: Run,
                  ghost fs: seq<nat>)
    returns (f: nat)
    requires Progress(vm, run, fs) && NeverStuck(run) && |fs| < |run.plan| && pagemap == run.root
    requires SegmentOk(data, s) && i < PageCount(s) && addr == Start(s) + i * 4096
    requires run.plan[|fs|] == SegmentPage(data, s, i)
    modifies vm`tables, vm`spaces, vm.pmm`idx, vm.pmm`mem, vm.pmm`held
    ensures f == 0 ==> Progress(vm, run, fs) && vm.pmm.idx == 0
    ensures f != 0 ==> Progress(vm, run, fs + [f])
  {
    hide PageMapper.Valid, EntryFlags, PageOf, MapAll, MapPage, EntryWord, PageAddress, Missing, Holds, Filled, Start,
      PageCount, SegmentFlags, PlanOk, TablesFor, TablesAt, Agree, SegmentOk, Fit, Elements;
    NextTables(run, fs);
    ghost var m := vm.pmm.mem;
    f := LoadPage(vm, pagemap, data, s, addr, i);
    AgreePart(run.clients, Elements(fs), run.mem, m, vm.pmm.mem);
    if f == 0 {
      SameFilled(m, vm.pmm.mem, run.plan, run.clients, fs);
    } else {
      NextMapping(run, fs, f);
      NextFilled(m, vm.pmm.mem, run.plan, run.clients, fs, f);
    }
  }

  /** elf_load's inner loop: the pages of one segment, until done or out of frames. */
  method LoadSegment(vm: PageMapper, pagemap: nat, data: seq<u8>, s: Segment, ghost run: Run,
                     ghost before: seq<PageLoad>, ghost fs0: seq<nat>)
    returns (ok: bool, ghost fs: seq<nat>)
    requires Progress(vm, run, fs0) && NeverStuck(run) && pagemap == run.root && SegmentOk(data, s) && |fs0| == |before|
    requires before + SegmentPages(data, s, PageCount(s)) <= run.plan
    modifies vm`tables, vm`spaces, vm.pmm`idx, vm.pmm`mem, vm.pmm`held
    ensures Progress(vm, run, fs)
    ensures ok ==> |fs| == |before| + PageCount(s)
    ensures !ok ==> |fs| < |run.plan| && vm.pmm.idx == 0
  {
    hide Progress, NeverStuck, SegmentFlags, SegmentPage, Start, End, PageCount;
    ok, fs := true, fs0;
    var addr := Start(s);
    ghost var i := 0;
    while addr < End(s)
      invariant addr == Start(s) + i * 4096 && i <= PageCount(s) && |fs| == |before| + i
      invariant Progress(vm, run, fs)
      decreases PageCount(s) - i
    {
      LoopRange(s, i);
      ghost var pages := SegmentPages(data, s, PageCount(s));
      assert run.plan[|fs|] == (before + pages)[|before| + i];
      var f := LoadNext(vm, data, s, addr, i, pagemap, run, fs);
      if f == 0 {
        return false, fs;
      }
      fs := fs + [f];
      addr, i := addr + 4096, i + 1;
    }
    LoopRange(s, i);
  }

  lemma LoopRange(s: Segment, i: nat)
    ensures Start(s) + i * 4096 < End(s) <==> i < PageCount(s)
  {
  }

  /** elf_load. Every run maps and fills a prefix of the file's pages; it is the whole plan exactly when
      the entry point is returned, and shorter only when the frame stack ran empty. */
  method ElfLoad(vm: PageMapper, data: seq<u8>, pagemap: nat) returns (entry: nat, ghost run: Run, ghost fs: seq<nat>)
    requires vm.Valid() && pagemap in vm.spaces.slots && FileOk(data)
    requires NeverStuck(Run(vm.spaces, pagemap, FilePlan(data), vm.ClientFrames(), vm.pmm.mem, vm.pmm.idx))
    modifies vm`tables, vm`spaces, vm.pmm`idx, vm.pmm`mem, vm.pmm`held
    ensures run == old(Run(vm.spaces, pagemap, FilePlan(data), vm.ClientFrames(), vm.pmm.mem, vm.pmm.idx))
    ensures Progress(vm, run, fs)
    ensures entry == if IsElf64(data) && |fs| == |run.plan| then EntryPoint(data) else 0
    ensures |fs| < |run.plan| ==> vm.pmm.idx == 0
    ensures IsElf64(data) && |fs| == |run.plan| ==>
              Complete(vm.pmm.mem, run, vm.kernel, fs, data) && vm.spaces == Loaded(run, fs)
  {
    hide Progress, Complete, Ok, NeverStuck, SegmentOk, PageMapper.Valid, IsElf64, HeaderCount, SegmentAt, PageCount,
      FilePlan, LoadPlan;
    run := Run(vm.spaces, pagemap, FilePlan(data), vm.ClientFrames(), vm.pmm.mem, vm.pmm.idx);
    fs := [];
    ValidSpaces(vm);
    NothingLoaded(vm, run);
    PlanIs(data);
    if !IsElf64(data) {
      return 0, run, fs;
    }
    var i := 0;
    while i < HeaderCount(data)
      invariant i <= HeaderCount(data) && Progress(vm, run, fs) && |fs| == |LoadPlan(data, i)|
    {
      PlanNext(data, i);
      if SegmentAt(data, i).kind != PT_LOAD {
        i := i + 1;
        continue;
      }
      var ok: bool;
      ok, fs := LoadSegment(vm, pagemap, data, SegmentAt(data, i), run, LoadPlan(data, i), fs);
      if !ok {
        return 0, run, fs;
      }
      i := i + 1;
    }
    FinishedLoad(vm, run, fs, data);
    entry := EntryPoint(data);
  }

  lemma PlanIs(data: seq<u8>)
    requires FileOk(data)
    ensures !IsElf64(data) ==> FilePlan(data) == []
    ensures IsElf64(data) ==> FilePlan(data) == LoadPlan(data, HeaderCount(data)) && LoadPlan(data, 0) == []
  {
    hide IsElf64;
  }

  lemma PlanNext(data: seq<u8>, i: nat)
    requires FileOk(data) && IsElf64(data) && i < HeaderCount(data)
    ensures HeaderAt(data, i) + 56 <= |data|
    ensures var s := SegmentAt(data, i);
            if s.kind == PT_LOAD then
              SegmentOk(data, s) && LoadPlan(data, i + 1) == LoadPlan(data, i) + SegmentPages(data, s, PageCount(s))
            else LoadPlan(data, i + 1) == LoadPlan(data, i)
    ensures LoadPlan(data, i + 1) <= LoadPlan(data, HeaderCount(data))
  {
    hide IsElf64, HeaderCount, SegmentAt, PageCount, HeaderAt;
    PlanPrefix(data, i + 1, HeaderCount(data));
  }

  lemma NothingLoaded(vm: PageMapper, run: Run)
    requires vm.Valid() && NeverStuck(run) && run.base == vm.spaces
    requires run.clients == vm.ClientFrames() && run.mem == vm.pmm.mem && run.idx == vm.pmm.idx
    ensures Progress(vm, run, [])
  {
    hide Ok, Implements, Conserved, Distinct, FrameAddress;
    assert PlacedAt(run.plan, []) == [] == PlacedAt(run.plan, Zeros(0));
    assert Elements([]) == {};
  }

  // ---------- what the program finds ----------

  /** The byte a program reads at an address, None if nothing is mapped there. */
  ghost function ReadByte(mem: Memory, sp: Spaces, root: nat, v: nat): Option<u8> {
    var w := View(sp, root, PageOf(v));
    if w != 0 && AddressOf(w) in mem then Some(Peek(mem[AddressOf(w)], v % 4096)) else None
  }

  ghost predicate PagesDistinct(plan: seq<PageLoad>) {
    forall j, k :: 0 <= j < k < |plan| ==> PageOf(plan[j].virt) != PageOf(plan[k].virt)
  }

  /** A page of the plan that no later one replaces is found at its address, filled. */
  lemma LoadedByte(mem: Memory, run: Run, kernel: nat, fs: seq<nat>, k: nat, j: nat)
    requires Ok(run.base, kernel) && run.root in run.base.slots && PlanOk(run.plan) && |fs| <= |run.plan|
    requires AllFit(PlacedAt(run.plan, fs)) && Filled(mem, run.plan, run.clients, fs)
    requires k < |fs| && j < 4096 && run.plan[k].virt % 4096 == 0
    requires forall i :: k < i < |fs| ==> PageOf(run.plan[i].virt) != PageOf(run.plan[k].virt)
    ensures ReadByte(mem, MapAll(run.base, run.root, PlacedAt(run.plan, fs)), run.root, run.plan[k].virt + j)
            == Some(run.plan[k].bytes[j])
  {
    hide Ok, PageOf, MapAll, View, Fit, AddressOf, EntryFlags, PageAddress;
    var ms, v := PlacedAt(run.plan, fs), run.plan[k].virt;
    SamePage(v, j);
    MapAllView(run.base, kernel, run.root, ms, PageOf(v));
    FinalAt(ms, PageOf(v), View(run.base, run.root, PageOf(v)), k);
    assert AddressOf(Word(ms[k])) == fs[k];
    assert Word(ms[k]) != 0 by { assert !Present(0); }
  }

  lemma SamePage(v: nat, j: nat)
    requires v % 4096 == 0 && j < 4096
    ensures PageOf(v + j) == PageOf(v) && (v + j) % 4096 == j
  {
    assert (v + j) / 4096 == v / 4096;
  }

  /** A page that is not in the plan stays as it was. */
  lemma UnlistedPage(run: Run, kernel: nat, fs: seq<nat>, page: nat)
    requires Ok(run.base, kernel) && run.root in run.base.slots && |fs| <= |run.plan| && AllFit(PlacedAt(run.plan, fs))
    requires forall i :: 0 <= i < |fs| ==> PageOf(run.plan[i].virt) != page
    ensures View(MapAll(run.base, run.root, PlacedAt(run.plan, fs)), run.root, page) == View(run.base, run.root, page)
  {
    hide Ok, PageOf, MapAll, View, Fit;
    MapAllView(run.base, kernel, run.root, PlacedAt(run.plan, fs), page);
    FinalAbsent(PlacedAt(run.plan, fs), page, View(run.base, run.root, page));
  }

  /** Where a segment's pages are in the plan. */
  lemma SegmentInPlan(data: seq<u8>, i: nat, p: nat)
    requires Loads(data, i) && p < PageCount(SegmentAt(data, i))
    ensures var k := |LoadPlan(data, i)| + p;
            k < |FilePlan(data)| && FilePlan(data)[k] == SegmentPage(data, SegmentAt(data, i), p)
  {
    hide IsElf64, HeaderCount, SegmentAt, PageCount, HeaderAt, LoadPlan, FilePlan, SegmentPage;
    PlanNext(data, i);
    PlanIs(data);
    var s, k := SegmentAt(data, i), |LoadPlan(data, i)| + p;
    assert LoadPlan(data, i + 1)[k] == SegmentPages(data, s, PageCount(s))[p];
  }

  /** A finished load, as ElfLoad leaves it when it returns the entry point. */
  ghost predicate Complete(mem: Memory, run: Run, kernel: nat, fs: seq<nat>, data: seq<u8>) {
    && FileOk(data) && IsElf64(data) && run.plan == FilePlan(data) && PlanOk(run.plan)
    && Ok(run.base, kernel) && run.root in run.base.slots && |fs| == |run.plan|
    && AllFit(PlacedAt(run.plan, fs)) && Filled(mem, run.plan, run.clients, fs)
  }

  lemma FinishedLoad(vm: PageMapper, run: Run, fs: seq<nat>, data: seq<u8>)
    requires Progress(vm, run, fs) && |fs| == |run.plan| && FileOk(data) && IsElf64(data) && run.plan == FilePlan(data)
    requires Ok(run.base, vm.kernel)
    ensures Complete(vm.pmm.mem, run, vm.kernel, fs, data) && vm.spaces == Loaded(run, fs)
  {
  }

  /** The address spaces once the pages have the frames fs. */
  ghost function Loaded(run: Run, fs: seq<nat>): Spaces
    requires |fs| <= |run.plan| && run.root in run.base.slots && AllFit(PlacedAt(run.plan, fs))
  {
    MapAll(run.base, run.root, PlacedAt(run.plan, fs))
  }

  /** Program header i is there and is loaded. */
  ghost predicate Loads(data: seq<u8>, i: nat) {
    FileOk(data) && IsElf64(data) && i < HeaderCount(data) && SegmentAt(data, i).kind == PT_LOAD
  }

  /** After a complete load of a file whose segments share no page, every byte of the pages of every
      segment is the file's, and zero from the end of the file part on. */
  lemma SegmentImage(mem: Memory, run: Run, kernel: nat, fs: seq<nat>, data: seq<u8>, i: nat, m: nat)
    requires Complete(mem, run, kernel, fs, data) && PagesDistinct(run.plan) && Loads(data, i)
    requires m < PageCount(SegmentAt(data, i)) * 4096
    ensures ReadByte(mem, Loaded(run, fs), run.root, Start(SegmentAt(data, i)) + m) ==
            Some(SegmentByte(data, SegmentAt(data, i), m))
  {
    hide Ok, MapAll, Fit, EntryFlags, PageAddress, PageOf, IsElf64, HeaderCount, SegmentAt, PageCount, HeaderAt,
      LoadPlan, FilePlan, Filled, ReadByte, SegmentFlags, PlanOk, PlacedAt;
    var s, p := SegmentAt(data, i), m / 4096;
    assert p < PageCount(s) && m == p * 4096 + m % 4096;
    SegmentInPlan(data, i, p);
    LoadedByte(mem, run, kernel, fs, |LoadPlan(data, i)| + p, m % 4096);
  }

  /** For a segment that starts on a page boundary, byte k of its memory image is file byte offset + k,
      or 0 beyond the file part. */
  lemma AlignedImage(mem: Memory, run: Run, kernel: nat, fs: seq<nat>, data: seq<u8>, i: nat, k: nat)
    requires Complete(mem, run, kernel, fs, data) && PagesDistinct(run.plan) && Loads(data, i)
    requires SegmentAt(data, i).vaddr % 4096 == 0 && k < SegmentAt(data, i).memsz
    ensures var s := SegmentAt(data, i);
            ReadByte(mem, Loaded(run, fs), run.root, s.vaddr + k) ==
            Some(if k < s.filesz then data[s.offset + k] else 0)
  {
    hide Ok, MapAll, Fit, EntryFlags, PageAddress, PageOf, IsElf64, HeaderCount, SegmentAt, PageCount, HeaderAt,
      FilePlan, Filled, ReadByte, PlanOk, PlacedAt, Loaded, PagesDistinct;
    CoversMemory(SegmentAt(data, i), k);
    SegmentImage(mem, run, kernel, fs, data, i, k);
  }

  lemma CoversMemory(s: Segment, k: nat)
    requires k < s.memsz
    ensures s.vaddr - Start(s) + k < PageCount(s) * 4096 && Start(s) == s.vaddr - s.vaddr % 4096
  {
  }

  /** Off a page boundary the image is shifted: memory byte k shows the file part from the page's start. */
  lemma ShiftedImage(mem: Memory, run: Run, kernel: nat, fs: seq<nat>, data: seq<u8>, i: nat, k: nat)
    requires Complete(mem, run, kernel, fs, data) && PagesDistinct(run.plan) && Loads(data, i)
    requires k < SegmentAt(data, i).memsz
    ensures var s := SegmentAt(data, i);
            ReadByte(mem, Loaded(run, fs), run.root, s.vaddr + k) == Some(SegmentByte(data, s, s.vaddr % 4096 + k))
  {
    hide Ok, MapAll, Fit, EntryFlags, PageAddress, PageOf, IsElf64, HeaderCount, SegmentAt, PageCount, HeaderAt,
      FilePlan, Filled, ReadByte, PlanOk, PlacedAt, Loaded, PagesDistinct;
    var s := SegmentAt(data, i);
    CoversMemory(s, k);
    SegmentImage(mem, run, kernel, fs, data, i, s.vaddr % 4096 + k);
  }

  // ---------- when segments share no page ----------

  /** The pages of two segments do not meet. */
  predicate SegmentsApart(s: Segment, t: Segment) {
    End(s) <= Start(t) || End(t) <= Start(s)
  }

  ghost predicate AllApart(data: seq<u8>, n: nat) {
    && (forall i :: 0 <= i < n && Loads(data, i) ==> End(SegmentAt(data, i)) <= 0x1_0000_0000_0000)
    && (forall i, j :: 0 <= i < j < n && Loads(data, i) && Loads(data, j) ==>
        SegmentsApart(SegmentAt(data, i), SegmentAt(data, j)))
  }

  lemma {:induction false} PlanOrigin(data: seq<u8>, n: nat, k: nat)
    requires FileOk(data) && IsElf64(data) && n <= HeaderCount(data) && k < |LoadPlan(data, n)|
    ensures exists i :: 0 <= i < n && Loads(data, i) && InSegment(SegmentAt(data, i), LoadPlan(data, n)[k].virt)
  {
    hide IsElf64, HeaderCount, SegmentAt, HeaderAt, PageCount, SegmentFlags, PageBytes;
    var s := SegmentAt(data, n - 1);
    if k < |LoadPlan(data, n - 1)| {
      PlanOrigin(data, n - 1, k);
    } else {
      PageInSegment(s, k - |LoadPlan(data, n - 1)|);
      assert Loads(data, n - 1);
    }
  }

  /** v is the address of one of the segment's pages. */
  predicate InSegment(s: Segment, v: nat) {
    v % 4096 == 0 && Start(s) <= v < End(s)
  }

  lemma PageInSegment(s: Segment, p: nat)
    requires p < PageCount(s)
    ensures InSegment(s, Start(s) + p * 4096)
  {
  }

  /** A page with a byte of the segment, or around the address of an empty one that is not aligned. */
  predicate TouchesPage(s: Segment, v: nat) {
    v % 4096 == 0 && s.vaddr < v + 4096 && v < s.vaddr + s.memsz
  }

  lemma SegmentPagesExactly(s: Segment, v: nat)
    ensures InSegment(s, v) <==> TouchesPage(s, v)
    ensures InSegment(s, v) ==> (v - Start(s)) / 4096 < PageCount(s) && v == Start(s) + (v - Start(s)) / 4096 * 4096
  {
  }

  /** The plan has a page at an address if and only if a loaded segment touches that page. */
  lemma PlanPagesExactly(data: seq<u8>, v: nat)
    requires FileOk(data) && IsElf64(data)
    ensures (exists k :: 0 <= k < |FilePlan(data)| && FilePlan(data)[k].virt == v) <==>
            (exists i: nat :: Loads(data, i) && TouchesPage(SegmentAt(data, i), v))
  {
    hide IsElf64, HeaderCount, SegmentAt, HeaderAt, PageCount, SegmentFlags, PageBytes, FilePlan, LoadPlan, Start, End;
    PlanIs(data);
    if k :| 0 <= k < |FilePlan(data)| && FilePlan(data)[k].virt == v {
      PlanOrigin(data, HeaderCount(data), k);
      var i :| 0 <= i < HeaderCount(data) && Loads(data, i) && InSegment(SegmentAt(data, i), v);
      SegmentPagesExactly(SegmentAt(data, i), v);
    }
    if i: nat :| Loads(data, i) && TouchesPage(SegmentAt(data, i), v) {
      var s := SegmentAt(data, i);
      SegmentPagesExactly(s, v);
      SegmentInPlan(data, i, (v - Start(s)) / 4096);
    }
  }

  /** Segments in the first 2^48 bytes whose page ranges do not meet share no page. */
  lemma {:induction false} ApartDistinct(data: seq<u8>, n: nat)
    requires FileOk(data) && IsElf64(data) && n <= HeaderCount(data) && AllApart(data, n)
    ensures PagesDistinct(LoadPlan(data, n))
  {
    hide IsElf64, HeaderCount, SegmentAt, HeaderAt, PageCount, SegmentFlags, PageBytes, PageOf;
    if n > 0 {
      ApartDistinct(data, n - 1);
      var s, plan := SegmentAt(data, n - 1), LoadPlan(data, n);
      var m := |LoadPlan(data, n - 1)|;
      forall j, k | 0 <= j < k < |plan| && k >= m
        ensures PageOf(plan[j].virt) != PageOf(plan[k].virt)
      {
        assert Loads(data, n - 1);
        PageInSegment(s, k - m);
        if j >= m {
          PageInSegment(s, j - m);
        } else {
          PlanOrigin(data, n - 1, j);
        }
        LowPagesDiffer(plan[j].virt, plan[k].virt);
      }
    }
  }

  lemma LowPagesDiffer(v: nat, u: nat)
    requires v % 4096 == 0 && u % 4096 == 0 && v < 0x1_0000_0000_0000 && u < 0x1_0000_0000_0000
    ensures PageOf(v) == PageOf(u) <==> v == u
  {
  }

  // ---------- when frames suffice ----------

  /** Four frames a page are always enough: the load then cannot stop early. */
  lemma EnoughFrames(run: Run)
    requires PlanOk(run.plan) && run.root in run.base.slots && run.idx >= 4 * |run.plan|
    ensures NeverStuck(run)
    ensures forall n :: 0 <= n < |run.plan| ==> run.idx > n + TablesFor(run, n)
  {
    hide EntryFlags, CostAll, MapAll, PageOf;
    forall n | 0 <= n < |run.plan|
      ensures run.idx > n + TablesFor(run, n) + TablesAt(run, n)
    {
      ZerosFit(run.plan, n);
      CostBound(run.base, run.root, PlacedAt(run.plan, Zeros(n)));
    }
  }

  // ---------- with which rights ----------

  /** The first page of the plan that lies in a zone; |plan| if none does. */
  function Opener(plan: seq<PageLoad>, level: nat, zone: nat): (i: nat)
    ensures i <= |plan| && (i < |plan| ==> Zone(level, PageOf(plan[i].virt)) == zone)
    ensures forall j :: 0 <= j < i ==> Zone(level, PageOf(plan[j].virt)) != zone
  {
    if plan == [] then 0
    else
      var i := Opener(plan[..|plan| - 1], level, zone);
      if i < |plan| - 1 || Zone(level, PageOf(plan[|plan| - 1].virt)) == zone then i else |plan|
  }

  /** At least the rights of the second are in the first. */
  predicate Grants(a: Rights, b: Rights) {
    (b.writable ==> a.writable) && (b.user ==> a.user) && (a.noExecute ==> b.noExecute)
  }

  /** The rights the first page loaded in a zone leaves to all pages of that zone. */
  function GrantedIn(plan: seq<PageLoad>, level: nat, k: nat): Rights
    requires k < |plan|
  {
    var i := Opener(plan, level, Zone(level, PageOf(plan[k].virt)));
    RightsOf(plan[if i < |plan| then i else k].flags)
  }

  lemma {:induction false} FirstIsOpener(plan: seq<PageLoad>, fs: seq<nat>, level: nat, zone: nat)
    requires |fs| == |plan| && AllFit(PlacedAt(plan, fs))
    ensures var i := Opener(plan, level, zone);
            FirstIn(PlacedAt(plan, fs), level, zone) == if i < |plan| then Some(RightsOf(plan[i].flags)) else None
  {
    hide Fit, PageOf, RightsOf, Zone;
    if plan != [] {
      var n := |plan| - 1;
      var ms := PlacedAt(plan, fs);
      assert Init(ms) == PlacedAt(plan[..n], fs[..n]) && Last(ms).virt == plan[n].virt
             && Last(ms).flags == plan[n].flags;
      FirstIsOpener(plan[..n], fs[..n], level, zone);
    }
  }

  /** In a part of the address space that was empty before, the rights of every loaded page are its own
      segment's, cut down by those of the first page loaded in each of its three zones. */
  lemma LoadedRights(run: Run, kernel: nat, fs: seq<nat>, k: nat)
    requires Ok(run.base, kernel) && run.root in run.base.slots && k < |run.plan| == |fs|
    requires AllFit(PlacedAt(run.plan, fs)) && PagesDistinct(run.plan)
    requires !HasWindow(run.base, run.root, SlotOf(PageOf(run.plan[k].virt)))
    ensures Effective(Loaded(run, fs), run.root, PageOf(run.plan[k].virt)) ==
            Some(Meet(Meet(GrantedIn(run.plan, 3, k), GrantedIn(run.plan, 2, k)),
                      Meet(GrantedIn(run.plan, 1, k), RightsOf(run.plan[k].flags))))
  {
    hide Ok, MapAll, Fit, EntryFlags, PageAddress, PageOf, Final, FirstIn, Effective, RightsOf, Zone, HasWindow, Meet;
    var ms, q := PlacedAt(run.plan, fs), PageOf(run.plan[k].virt);
    MapAllRights(run.base, kernel, run.root, ms, q);
    FinalAt(ms, q, 0, k);
    assert Word(ms[k]) != 0 by { assert !Present(0); }
    FirstIsOpener(run.plan, fs, 1, Zone(1, q));
    FirstIsOpener(run.plan, fs, 2, Zone(2, q));
    FirstIsOpener(run.plan, fs, 3, Zone(3, q));
    MappedHasFirst(ms, 1, q);
    MappedHasFirst(ms, 2, q);
    MappedHasFirst(ms, 3, q);
  }

  /** A loaded page has exactly the rights its segment asks for if and only if the first page loaded in each
      of its three zones grants at least those. */
  lemma RightsExactly(run: Run, kernel: nat, fs: seq<nat>, k: nat)
    requires Ok(run.base, kernel) && run.root in run.base.slots && k < |run.plan| == |fs|
    requires AllFit(PlacedAt(run.plan, fs)) && PagesDistinct(run.plan)
    requires !HasWindow(run.base, run.root, SlotOf(PageOf(run.plan[k].virt)))
    ensures Effective(Loaded(run, fs), run.root, PageOf(run.plan[k].virt)) == Some(RightsOf(run.plan[k].flags))
            <==> forall level :: 1 <= level <= 3 ==> Grants(GrantedIn(run.plan, level, k), RightsOf(run.plan[k].flags))
  {
    hide Ok, MapAll, Fit, PageOf, Effective, RightsOf, HasWindow, GrantedIn, PagesDistinct;
    LoadedRights(run, kernel, fs, k);
    var own := RightsOf(run.plan[k].flags);
    assert (forall level :: 1 <= level <= 3 ==> Grants(GrantedIn(run.plan, level, k), own)) <==>
           Grants(GrantedIn(run.plan, 1, k), own) && Grants(GrantedIn(run.plan, 2, k), own)
           && Grants(GrantedIn(run.plan, 3, k), own);
  }

  /** On segment flags: one segment's pages grant what another asks for if and only if they are writable and
      executable wherever the other is to be. */
  lemma SegmentGrants(f: nat, g: nat)
    ensures Grants(RightsOf(SegmentFlags(f)), RightsOf(SegmentFlags(g))) <==>
            (g / 2 % 2 == 1 ==> f / 2 % 2 == 1) && (g % 2 == 1 ==> f % 2 == 1)
  {
    hide RightsOf, SegmentFlags;
    SegmentRights(f);
    SegmentRights(g);
  }

  /** What the segment flags ask for: bit 1 of p_flags is for writing, bit 0 for execution. */
  lemma SegmentRights(flags: nat)
    ensures RightsOf(SegmentFlags(flags)) == Rights(flags / 2 % 2 == 1, false, flags % 2 == 0)
  {
    FlagBits(flags);
    UnitRights();
    hide RightsOf, EntryFlags;
    UnionRights(VMM_PRESENT, VMM_WRITABLE);
    UnionRights(VMM_PRESENT, NX_BIT);
    UnionRights(Or(VMM_PRESENT, VMM_WRITABLE), NX_BIT);
  }
  lemma FlagBits(flags: nat)
    ensures And(flags, PF_W) != 0 <==> flags / 2 % 2 == 1
    ensures And(flags, PF_X) != 0 <==> flags % 2 == 1
  {
  }
}
