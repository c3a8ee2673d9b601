/** ELF files built byte by byte, read back by the loader's own field reader, and what loading them shows:
    when the image of a segment is right for every file, and a program that loses its data segment's rights. */
module ElfFiles {
  import opened Bits
  import opened PageWords
  import opened Pmm
  import opened AddressSpaces
  import opened Vmm
  import opened Mappings
  import opened FrameBytes
  import opened Elf

  // ---------- writing a file ----------

  /** Byte o of a 56-byte program header. */
  function SegmentBytes(s: Segment, o: nat): u8 {
    if o < 4 then ByteAt(s.kind, o)
    else if o < 8 then ByteAt(s.flags, o - 4)
    else if o < 16 then ByteAt(s.offset, o - 8)
    else if o < 24 then ByteAt(s.vaddr, o - 16)
    else if o < 32 then 0
    else if o < 40 then ByteAt(s.filesz, o - 32)
    else if o < 48 then ByteAt(s.memsz, o - 40)
    else 0
  }

  /** Byte o of a file header with an entry point and `count` program headers at offset `table`. */
  function HeaderBytes(entry: nat, table: nat, count: nat, o: nat): u8 {
    if o < 4 then ByteAt(0x464C457F, o)
    else if o == 4 then 2
    else if 24 <= o < 32 then ByteAt(entry, o - 24)
    else if 32 <= o < 40 then ByteAt(table, o - 32)
    else if 56 <= o < 58 then ByteAt(count, o - 56)
    else 0
  }

  /** A program header that loads nothing. */
  function NoSegment(): Segment {
    Segment(0, 0, 0, 0, 0, 0)
  }

  function SegmentOf(segs: seq<Segment>, i: nat): Segment {
    if i < |segs| then segs[i] else NoSegment()
  }

  function FileByte(entry: nat, table: nat, count: nat, segs: seq<Segment>, o: nat): u8 {
    if o < 64 then HeaderBytes(entry, table, count, o)
    else if table <= o < table + count * 56 then SegmentBytes(SegmentOf(segs, (o - table) / 56), (o - table) % 56)
    else 0
  }

  /** The loader reads this byte as part of a header. */
  predicate Critical(table: nat, count: nat, o: nat) {
    o < 5 || 24 <= o < 40 || 56 <= o < 58 || table <= o < table + count * 56
  }

  /** The file has these program headers, whatever it holds elsewhere. */
  ghost predicate Written(data: seq<u8>, entry: nat, table: nat, count: nat, segs: seq<Segment>) {
    && entry < WORD_SIZE && 64 <= table < WORD_SIZE && count < 0x1_0000 && |segs| <= count
    && table + count * 56 <= |data|
    && forall o :: 0 <= o < |data| && Critical(table, count, o) ==> data[o] == FileByte(entry, table, count, segs, o)
  }

  predicate FieldsFit(s: Segment) {
    && s.kind < 0x1_0000_0000 && s.flags < 0x1_0000_0000
    && s.offset < WORD_SIZE && s.vaddr < WORD_SIZE && s.filesz < WORD_SIZE && s.memsz < WORD_SIZE
  }

  lemma {:induction false} FieldIs(data: seq<u8>, at: nat, n: nat, v: nat)
    requires at + n <= |data| && v < Power256(n) && forall j :: 0 <= j < n ==> data[at + j] == ByteAt(v, j)
    ensures Field(data, at, n) == v
    decreases n
  {
    if n > 0 {
      assert data[at + 0] == ByteAt(v, 0);
      forall j | 0 <= j < n - 1 ensures data[at + 1 + j] == ByteAt(v / 256, j) {
        assert data[at + (j + 1)] == ByteAt(v, j + 1);
      }
      FieldIs(data, at + 1, n - 1, v / 256);
    }
  }

  lemma Powers()
    ensures Power256(2) == 0x1_0000 && Power256(4) == 0x1_0000_0000 && Power256(8) == WORD_SIZE
  {
    EightBytes();
    assert Power256(2) == 0x1_0000;
    assert Power256(4) == 0x1_0000_0000;
  }

  /** The file header reads back. */
  lemma HeaderReads(data: seq<u8>, entry: nat, table: nat, count: nat, segs: seq<Segment>)
    requires Written(data, entry, table, count, segs)
    ensures |data| >= 64 && IsElf64(data) && EntryPoint(data) == entry
    ensures HeaderCount(data) == count && Field(data, 32, 8) == table
  {
    hide Field, ByteAt, Power256;
    Powers();
    assert forall j :: 0 <= j < 4 ==> Critical(table, count, 0 + j) && data[0 + j] == ByteAt(ELF_MAGIC, j);
    assert forall j :: 0 <= j < 8 ==> Critical(table, count, 24 + j) && data[24 + j] == ByteAt(entry, j);
    assert forall j :: 0 <= j < 8 ==> Critical(table, count, 32 + j) && data[32 + j] == ByteAt(table, j);
    assert forall j :: 0 <= j < 2 ==> Critical(table, count, 56 + j) && data[56 + j] == ByteAt(count, j);
    FieldIs(data, 0, 4, ELF_MAGIC);
    FieldIs(data, 24, 8, entry);
    FieldIs(data, 32, 8, table);
    FieldIs(data, 56, 2, count);
    assert Critical(table, count, 4);
  }

  lemma EntryByte(data: seq<u8>, entry: nat, table: nat, count: nat, segs: seq<Segment>, i: nat, o: nat)
    requires Written(data, entry, table, count, segs) && i < count && o < 56
    ensures table + i * 56 + o < |data| && data[table + i * 56 + o] == SegmentBytes(SegmentOf(segs, i), o)
  {
    hide SegmentBytes;
    var x := table + i * 56 + o;
    assert (x - table) / 56 == i && (x - table) % 56 == o;
    assert Critical(table, count, x);
  }

  lemma EntryField(data: seq<u8>, entry: nat, table: nat, count: nat, segs: seq<Segment>, i: nat, at: nat, n: nat,
                   v: nat)
    requires Written(data, entry, table, count, segs) && i < count && at + n <= 56 && v < Power256(n)
    requires forall j :: 0 <= j < n ==> SegmentBytes(SegmentOf(segs, i), at + j) == ByteAt(v, j)
    ensures table + i * 56 + at + n <= |data| && Field(data, table + i * 56 + at, n) == v
  {
    hide SegmentBytes, ByteAt, Field, Written, Power256;
    var h := table + i * 56;
    EntryByte(data, entry, table, count, segs, i, 55);
    forall j | 0 <= j < n ensures h + at + j < |data| && data[h + at + j] == ByteAt(v, j) {
      EntryByte(data, entry, table, count, segs, i, at + j);
      assert SegmentBytes(SegmentOf(segs, i), at + j) == ByteAt(v, j);
    }
    FieldIs(data, h + at, n, v);
  }

  /** Every program header reads back as the segment written. */
  lemma SegmentReads(data: seq<u8>, entry: nat, table: nat, count: nat, segs: seq<Segment>, i: nat)
    requires Written(data, entry, table, count, segs) && i < count && FieldsFit(SegmentOf(segs, i))
    ensures |data| >= 64 && HeaderAt(data, i) == table + i * 56 && HeaderAt(data, i) + 56 <= |data|
    ensures SegmentAt(data, i) == SegmentOf(segs, i)
  {
    hide Field, ByteAt, Written, Power256, SegmentOf, SegmentBytes, IsElf64;
    HeaderReads(data, entry, table, count, segs);
    Powers();
    var s := SegmentOf(segs, i);
    EntryByte(data, entry, table, count, segs, i, 55);
    FieldBytes(s);
    EntryField(data, entry, table, count, segs, i, 0, 4, s.kind);
    EntryField(data, entry, table, count, segs, i, 4, 4, s.flags);
    EntryField(data, entry, table, count, segs, i, 8, 8, s.offset);
    EntryField(data, entry, table, count, segs, i, 16, 8, s.vaddr);
    EntryField(data, entry, table, count, segs, i, 32, 8, s.filesz);
    EntryField(data, entry, table, count, segs, i, 40, 8, s.memsz);
  }

  lemma FieldBytes(s: Segment)
    ensures forall j :: 0 <= j < 4 ==> SegmentBytes(s, 0 + j) == ByteAt(s.kind, j)
    ensures forall j :: 0 <= j < 4 ==> SegmentBytes(s, 4 + j) == ByteAt(s.flags, j)
    ensures forall j :: 0 <= j < 8 ==> SegmentBytes(s, 8 + j) == ByteAt(s.offset, j)
    ensures forall j :: 0 <= j < 8 ==> SegmentBytes(s, 16 + j) == ByteAt(s.vaddr, j)
    ensures forall j :: 0 <= j < 8 ==> SegmentBytes(s, 32 + j) == ByteAt(s.filesz, j)
    ensures forall j :: 0 <= j < 8 ==> SegmentBytes(s, 40 + j) == ByteAt(s.memsz, j)
  {
    hide ByteAt;
  }

  /** The loader accepts exactly the files that begin with 7F 45 4C 46 02. */
  lemma ElfChecks(data: seq<u8>)
    requires |data| >= 64
    ensures IsElf64(data) <==> data[0] == 0x7F && data[1] == 0x45 && data[2] == 0x4C && data[3] == 0x46 && data[4] == 2
  {
    var f3 := Field(data, 3, 1);
    var f2 := Field(data, 2, 2);
    var f1 := Field(data, 1, 3);
    assert Field(data, 4, 0) == 0 && f3 == data[3] && f2 == data[2] + 256 * f3 && f1 == data[1] + 256 * f2;
    assert Field(data, 0, 4) == data[0] + 256 * f1;
  }

  /** Loading a written file returns the entry point that was written, or 0 if frames ran out. */
  method LoadWritten(vm: PageMapper, data: seq<u8>, pagemap: nat, ghost e: nat, ghost table: nat, ghost count: nat,
                     ghost segs: seq<Segment>)
    returns (entry: nat, ghost run: Run, ghost fs: seq<nat>)
    requires vm.Valid() && pagemap in vm.spaces.slots && FileOk(data) && Written(data, e, table, count, segs)
    requires NeverStuck(Run(vm.spaces, pagemap, FilePlan(data), vm.ClientFrames(), vm.pmm.mem, vm.pmm.idx))
    modifies vm`tables, vm`spaces, vm.pmm`idx, vm.pmm`mem, vm.pmm`held
    ensures entry == if |fs| == |run.plan| then e else 0
    ensures |fs| == |run.plan| ==> Complete(vm.pmm.mem, run, vm.kernel, fs, data) && vm.spaces == Loaded(run, fs)
    ensures |fs| < |run.plan| ==> vm.pmm.idx == 0
  {
    hide Written, IsElf64, EntryPoint, HeaderCount, FileOk, FilePlan, NeverStuck, Complete, Progress, PageMapper.Valid;
    HeaderReads(data, e, table, count, segs);
    entry, run, fs := ElfLoad(vm, data, pagemap);
  }

  // ---------- loading a file ----------

  /** The frame that holds the first n of 4096 bytes. */
  function Page(bytes: seq<u8>, n: nat): Table
    requires n <= 4096 == |bytes|
  {
    if n == 0 then ZeroTable() else Poke(Page(bytes, n - 1), n - 1, bytes[n - 1])
  }

  lemma {:induction false} PageHolds(bytes: seq<u8>, n: nat, j: nat)
    requires n <= 4096 == |bytes| && j < 4096
    ensures Peek(Page(bytes, n), j) == if j < n then bytes[j] else 0
  {
    hide Peek, Poke, ZeroTable;
    if n == 0 {
      FreshByte(j);
    } else {
      PageHolds(bytes, n - 1, j);
      PokePeek(Page(bytes, n - 1), n - 1, bytes[n - 1], j);
    }
  }

  function FrameFor(k: nat): nat {
    (k + 1) * 4096
  }

  lemma FrameForFits(k: nat)
    requires k < 0x10_0000_0000
    ensures PageAddress(FrameFor(k)) && FrameFor(k) / 4096 == k + 1
  {
  }

  /** Frames for every page of a plan of at most 2^36 pages. */
  lemma AnyFrames(plan: seq<PageLoad>) returns (mem: Memory, fs: seq<nat>)
    requires PlanOk(plan) && |plan| <= 0x10_0000_0000
    ensures |fs| == |plan| && Filled(mem, plan, {}, fs)
  {
    hide EntryFlags, PageAddress, FrameFor, Page, Peek;
    fs := seq(|plan|, k requires 0 <= k < |plan| => FrameFor(k));
    mem := map f | f in fs && 0 < f / 4096 <= |plan| :: Page(plan[f / 4096 - 1].bytes, 4096);
    forall k | 0 <= k < |fs|
      ensures PageAddress(fs[k]) && fs[k] in mem && Elf.Holds(mem[fs[k]], plan[k].bytes) && fs[k] / 4096 == k + 1
    {
      FrameForFits(k);
      assert fs[k] == FrameFor(k) && fs[k] in fs;
      forall j | 0 <= j < 4096 ensures Peek(mem[fs[k]], j) == plan[k].bytes[j] { PageHolds(plan[k].bytes, 4096, j); }
    }
  }

  /** Every file of at most 2^36 pages has a finished load into an empty pagemap. */
  lemma AnyLoad(data: seq<u8>) returns (mem: Memory, run: Run, fs: seq<nat>)
    requires FileOk(data) && IsElf64(data) && |FilePlan(data)| <= 0x10_0000_0000
    ensures run == Run(EmptySpace(0), 0, FilePlan(data), {}, map[], 0) && Complete(mem, run, 0, fs, data)
  {
    hide IsElf64, HeaderCount, HeaderAt, SegmentAt, LoadPlan, Ok, EntryFlags, PageAddress, Fit, PlanOk, Filled;
    PlanIs(data);
    LoadPlanOk(data, HeaderCount(data));
    EmptyOk(0);
    run := Run(EmptySpace(0), 0, FilePlan(data), {}, map[], 0);
    mem, fs := AnyFrames(run.plan);
    PlacementFits(mem, run, fs);
  }

  lemma PlacementFits(mem: Memory, run: Run, fs: seq<nat>)
    requires |fs| == |run.plan| && PlanOk(run.plan) && Filled(mem, run.plan, run.clients, fs)
    ensures AllFit(PlacedAt(run.plan, fs))
  {
    hide EntryFlags, PageAddress, Elf.Holds;
  }

  /** What elf_load trusts about a segment, and few enough pages for each to have a number of its own. */
  predicate Loadable(s: Segment) {
    && FieldsFit(s) && s.kind == 1 && s.vaddr + s.memsz + 4096 <= WORD_SIZE
    && s.offset + s.memsz + 0x3000 <= WORD_SIZE && s.offset + s.filesz + 4096 <= WORD_SIZE
    && PageCount(s) <= 0x10_0000_0000
  }

  lemma WrittenOk(data: seq<u8>, entry: nat, table: nat, count: nat, segs: seq<Segment>)
    requires Written(data, entry, table, count, segs)
    requires forall i :: 0 <= i < |segs| ==> Loadable(segs[i]) && segs[i].offset + segs[i].filesz <= |data|
    ensures FileOk(data) && IsElf64(data) && HeaderCount(data) == count
  {
    HeaderReads(data, entry, table, count, segs);
    hide IsElf64, HeaderCount, HeaderAt, SegmentAt, Written, PageCount;
    forall i | 0 <= i < HeaderCount(data)
      ensures HeaderAt(data, i) + 56 <= |data|
      ensures SegmentAt(data, i).kind == PT_LOAD ==> SegmentOk(data, SegmentAt(data, i))
    {
      SegmentReads(data, entry, table, count, segs, i);
    }
  }

  /** With one segment, the plan is its pages, however many empty headers follow. */
  lemma {:induction false} PlanOfOne(data: seq<u8>, entry: nat, table: nat, count: nat, s: Segment, n: nat)
    requires Written(data, entry, table, count, [s]) && Loadable(s) && s.offset + s.filesz <= |data| && 1 <= n <= count
    requires FileOk(data) && IsElf64(data) && HeaderCount(data) == count
    ensures LoadPlan(data, n) == SegmentPages(data, s, PageCount(s))
  {
    hide IsElf64, HeaderCount, HeaderAt, SegmentAt, Written, PageCount, LoadPlan, FileOk, SegmentPages;
    SegmentReads(data, entry, table, count, [s], n - 1);
    PlanNext(data, n - 1);
    if n > 1 {
      PlanOfOne(data, entry, table, count, s, n - 1);
    } else {
      PlanIs(data);
      assert [] + SegmentPages(data, s, PageCount(s)) == SegmentPages(data, s, PageCount(s));
    }
  }

  /** The pages of one loadable segment have different numbers. */
  lemma OneSegmentDistinct(data: seq<u8>, s: Segment)
    requires Loadable(s) && s.offset + s.filesz <= |data|
    ensures PagesDistinct(SegmentPages(data, s, PageCount(s)))
  {
    var plan := SegmentPages(data, s, PageCount(s));
    hide PageOf, SegmentFlags, PageBytes, FieldsFit;
    forall j, k | 0 <= j < k < |plan| ensures PageOf(plan[j].virt) != PageOf(plan[k].virt) {
      CountedPages(s.vaddr / 4096, j, k);
    }
  }

  lemma CountedPages(a: nat, j: nat, k: nat)
    requires j < k < j + 0x10_0000_0000
    ensures PageOf(a * 4096 + j * 4096) != PageOf(a * 4096 + k * 4096)
  {
    assert (a * 4096 + j * 4096) / 4096 == a + j && (a * 4096 + k * 4096) / 4096 == a + k;
  }

  // ---------- when a segment's image is right ----------

  /** A finished load, with no page shared, of a file whose program header i is this segment. */
  ghost predicate LoadOf(mem: Memory, run: Run, kernel: nat, fs: seq<nat>, data: seq<u8>, i: nat, s: Segment) {
    Complete(mem, run, kernel, fs, data) && PagesDistinct(run.plan) && Loads(data, i) && SegmentAt(data, i) == s
  }

  /** Byte k of the segment's memory image is what the ELF specification asks for. */
  ghost predicate RightByte(mem: Memory, run: Run, fs: seq<nat>, data: seq<u8>, s: Segment, k: nat)
    requires |fs| <= |run.plan| && run.root in run.base.slots && AllFit(PlacedAt(run.plan, fs))
    requires s.offset + s.filesz <= |data|
  {
    ReadByte(mem, Loaded(run, fs), run.root, s.vaddr + k) == Some(if k < s.filesz then data[s.offset + k] else 0)
  }

  /** The image is right in every load of every file with this segment. */
  ghost predicate AlwaysRight(s: Segment) {
    forall mem, run, kernel, fs, data, i, k ::
      LoadOf(mem, run, kernel, fs, data, i, s) && 0 <= k < s.memsz ==> RightIn(mem, run, kernel, fs, data, i, s, k)
  }

  ghost predicate RightIn(mem: Memory, run: Run, kernel: nat, fs: seq<nat>, data: seq<u8>, i: nat, s: Segment, k: nat)
    requires LoadOf(mem, run, kernel, fs, data, i, s)
  {
    RightByte(mem, run, fs, data, s, k)
  }

  /** The segment starts on a page boundary, or has nothing to show. */
  predicate AlignedOrEmpty(s: Segment) {
    s.vaddr % 4096 == 0 || s.memsz == 0 || s.filesz == 0
  }

  lemma AlignedIsRight(mem: Memory, run: Run, kernel: nat, fs: seq<nat>, data: seq<u8>, i: nat, s: Segment, k: nat)
    requires LoadOf(mem, run, kernel, fs, data, i, s) && k < s.memsz && AlignedOrEmpty(s)
    ensures RightIn(mem, run, kernel, fs, data, i, s, k)
  {
    hide Complete, Loads, PagesDistinct, SegmentAt, ReadByte, Loaded;
    CompleteFacts(mem, run, kernel, fs, data, i);
    ShiftedImage(mem, run, kernel, fs, data, i, k);
  }

  lemma CompleteFacts(mem: Memory, run: Run, kernel: nat, fs: seq<nat>, data: seq<u8>, i: nat)
    requires Complete(mem, run, kernel, fs, data) && Loads(data, i)
    ensures |fs| <= |run.plan| && run.root in run.base.slots && AllFit(PlacedAt(run.plan, fs))
    ensures SegmentOk(data, SegmentAt(data, i))
  {
    hide Ok, FilePlan, IsElf64, HeaderCount, HeaderAt, SegmentAt, Filled, PlanOk, Fit;
  }

  /** Where the header table of the file goes: behind the two bytes that are compared, and such that no byte
      of its offset can be mistaken for another. */
  function TableFor(s: Segment): nat {
    if 34 <= s.offset < 40 then 2 * Power256(s.offset - 32) else s.offset + 4160
  }

  const COUNT: nat := 0x301
  const ENTRY: nat := 0x1817_1615_1413_1211

  /** A byte that is not the given one. */
  function Other(b: u8): u8 {
    if b == 1 then 2 else 1
  }

  /** A file with this segment whose first segment byte differs from the one a page offset further on. */
  function Probe(s: Segment): seq<u8> {
    var table := TableFor(s);
    var size := table + COUNT * 56 + s.offset + s.filesz;
    var r := s.vaddr % 4096;
    seq<u8>(size, o requires 0 <= o < size =>
      if o == s.offset && !Critical(table, COUNT, o) then Other(FileByte(ENTRY, table, COUNT, [s], o + r))
      else FileByte(ENTRY, table, COUNT, [s], o))
  }

  lemma TableFits(s: Segment)
    requires Loadable(s)
    ensures 64 <= TableFor(s) < WORD_SIZE && s.offset + 4096 <= TableFor(s)
  {
    if 34 <= s.offset < 40 {
      SmallPowers();
    }
  }

  lemma SmallPowers()
    ensures Power256(2) == 0x1_0000 && Power256(3) == 0x100_0000 && Power256(4) == 0x1_0000_0000
    ensures Power256(5) == 0x100_0000_0000 && Power256(6) == 0x1_0000_0000_0000 && Power256(7) == 0x100_0000_0000_0000
  {
    assert Power256(1) == 256;
    assert Power256(2) == 0x1_0000;
    assert Power256(3) == 0x100_0000;
    assert Power256(4) == 0x1_0000_0000;
    assert Power256(5) == 0x100_0000_0000;
    assert Power256(6) == 0x1_0000_0000_0000;
  }

  lemma ProbeWritten(s: Segment)
    requires Loadable(s)
    ensures Written(Probe(s), ENTRY, TableFor(s), COUNT, [s]) && s.offset + s.filesz <= |Probe(s)|
  {
    TableFits(s);
    hide TableFor, FileByte, PageCount;
  }

  /** The bytes of the table's offset that matter. */
  lemma TableBytes(s: Segment, j: nat)
    requires Loadable(s) && s.offset < 64 && j < 8
    ensures s.offset < 5 || 24 <= s.offset < 32 ==>
              ByteAt(TableFor(s), j) == if j == 0 then 0x40 + s.offset else if j == 1 then 0x10 else 0
    ensures s.offset == 32 ==> ByteAt(TableFor(s), j) == if j == 0 then 0x60 else if j == 1 then 0x10 else 0
    ensures s.offset == 33 ==> ByteAt(TableFor(s), j) == if j == 0 then 0x61 else if j == 1 then 0x10 else 0
    ensures 34 <= s.offset < 40 ==> ByteAt(TableFor(s), j) == if j == s.offset - 32 then 2 else 0
  {
    if s.offset < 5 || 24 <= s.offset < 34 {
      TwoBytes(TableFor(s), j);
    } else if 34 <= s.offset < 40 {
      OneByte(s.offset - 32, j);
    }
  }

  lemma TwoBytes(v: nat, j: nat)
    requires v < 0x1_0000
    ensures ByteAt(v, j) == if j == 0 then v % 256 else if j == 1 then v / 256 else 0
  {
    if j >= 2 {
      assert v / 256 / 256 == 0;
      ZeroByte(j - 2);
    }
  }

  lemma {:induction false} OneByte(n: nat, j: nat)
    ensures ByteAt(2 * Power256(n), j) == if j == n then 2 else 0
  {
    if n == 0 {
      if j > 0 { ZeroByte(j - 1); }
    } else if j > 0 {
      assert 2 * Power256(n) / 256 == 2 * Power256(n - 1);
      OneByte(n - 1, j - 1);
    }
  }

  lemma EntryBytes(j: nat)
    requires j < 8
    ensures ByteAt(ENTRY, j) == 0x11 + j
  {
    var e1 := ENTRY / 256;
    var e2 := e1 / 256;
    var e3 := e2 / 256;
    var e4 := e3 / 256;
    assert e1 == 0x18_1716_1514_1312 && e2 == 0x1817_1615_1413 && e3 == 0x18_1716_1514 && e4 == 0x1817_1615;
    assert ByteAt(e4, 0) == 0x15 && ByteAt(e4, 1) == 0x16 && ByteAt(e4, 2) == 0x17 && ByteAt(e4, 3) == 0x18;
    assert j >= 4 ==> ByteAt(ENTRY, j) == ByteAt(e1, j - 1) == ByteAt(e2, j - 2) == ByteAt(e3, j - 3) == ByteAt(e4,
               j - 4);
  }

  lemma MagicBytes(j: nat)
    requires j < 4
    ensures ByteAt(ELF_MAGIC, j) == if j == 0 then 0x7F else if j == 1 then 0x45 else if j == 2 then 0x4C else 0x46
  {
    assert ELF_MAGIC / 256 == 0x464C45 && ELF_MAGIC / 256 / 256 == 0x464C && ELF_MAGIC / 256 / 256 / 256 == 0x46;
  }

  /** In the probe file the first byte of the segment is not the byte the loader shows in its place. */
  lemma ProbeDiffers(s: Segment)
    requires Loadable(s) && !AlignedOrEmpty(s) && s.offset + s.filesz <= |Probe(s)|
    ensures SegmentByte(Probe(s), s, s.vaddr % 4096) != SegmentByte(Probe(s), s, 0)
  {
    var x, r := s.offset, s.vaddr % 4096;
    TableFits(s);
    if Critical(TableFor(s), COUNT, x) {
      CriticalDiffers(s, x + r);
    } else {
      ProbeWritten(s);
    }
  }

  /** A header byte inside the segment differs from every later byte in front of the table, and from 0. */
  lemma CriticalDiffers(s: Segment, y: nat)
    requires Loadable(s) && Critical(TableFor(s), COUNT, s.offset) && s.offset < y < s.offset + 4096
    ensures var b := FileByte(ENTRY, TableFor(s), COUNT, [s], s.offset);
            b != 0 && b != FileByte(ENTRY, TableFor(s), COUNT, [s], y)
  {
    TableFits(s);
    hide ByteAt, TableFor;
    var x := s.offset;
    TwoBytes(COUNT, 0);
    TwoBytes(COUNT, 1);
    if x < 4 { MagicBytes(x); }
    if y < 4 { MagicBytes(y); }
    if 24 <= x < 32 { EntryBytes(x - 24); }
    if 24 <= y < 32 { EntryBytes(y - 24); }
    if 32 <= x < 40 { TableBytes(s, x - 32); }
    if 32 <= y < 40 { TableBytes(s, y - 32); }
  }

  /** Every file with one loadable segment has a load without shared pages. */
  lemma OneSegmentLoads(data: seq<u8>, entry: nat, table: nat, count: nat, s: Segment)
    returns (mem: Memory, run: Run, fs: seq<nat>)
    requires Written(data, entry, table, count, [s]) && count > 0 && Loadable(s) && s.offset + s.filesz <= |data|
    ensures LoadOf(mem, run, 0, fs, data, 0, s)
  {
    hide Written, PageCount, FileOk, IsElf64, HeaderCount, HeaderAt, SegmentAt, LoadPlan, FilePlan, PagesDistinct,
      SegmentPage, Complete;
    WrittenOk(data, entry, table, count, [s]);
    PlanOfOne(data, entry, table, count, s, count);
    OneSegmentDistinct(data, s);
    PlanIs(data);
    SegmentReads(data, entry, table, count, [s], 0);
    mem, run, fs := AnyLoad(data);
  }

  /** Every load of the probe file, into whatever pagemap and frames, shows a wrong first byte. */
  lemma ProbeAlwaysWrong(mem: Memory, run: Run, kernel: nat, fs: seq<nat>, i: nat, s: Segment)
    requires Loadable(s) && !AlignedOrEmpty(s) && LoadOf(mem, run, kernel, fs, Probe(s), i, s)
    ensures !RightIn(mem, run, kernel, fs, Probe(s), i, s, 0)
  {
    hide Probe, Written, PageCount, Complete, Loads, PagesDistinct, SegmentAt, ReadByte, Loaded;
    ProbeWritten(s);
    ProbeDiffers(s);
    CompleteFacts(mem, run, kernel, fs, Probe(s), i);
    ShiftedImage(mem, run, kernel, fs, Probe(s), i, 0);
  }

  /** For every loadable segment that is not page aligned and has file bytes in memory, a file that can be
      loaded, and whose every load shows a wrong first byte. */
  lemma WrongByte(s: Segment) returns (mem: Memory, run: Run, fs: seq<nat>, data: seq<u8>)
    requires Loadable(s) && !AlignedOrEmpty(s)
    ensures LoadOf(mem, run, 0, fs, data, 0, s) && !RightIn(mem, run, 0, fs, data, 0, s, 0)
    ensures forall mem', run', kernel, fs', i :: LoadOf(mem', run', kernel, fs', data, i, s) ==>
              !RightIn(mem', run', kernel, fs', data, i, s, 0)
  {
    hide Probe, Written, LoadOf, RightIn, PageCount;
    data := Probe(s);
    ProbeWritten(s);
    mem, run, fs := OneSegmentLoads(data, ENTRY, TableFor(s), COUNT, s);
    forall mem', run', kernel, fs', i | LoadOf(mem', run', kernel, fs', data, i, s)
      ensures !RightIn(mem', run', kernel, fs', data, i, s, 0)
    {
      ProbeAlwaysWrong(mem', run', kernel, fs', i, s);
    }
  }

  /** The loader gives a segment the right image in every load of every file if and only if the segment starts
      on a page boundary, or has no memory or no file bytes. */
  lemma AlignmentNeeded(s: Segment)
    requires Loadable(s)
    ensures AlwaysRight(s) <==> AlignedOrEmpty(s)
  {
    hide LoadOf, RightIn;
    if AlignedOrEmpty(s) {
      forall mem, run, kernel, fs, data, i, k | LoadOf(mem, run, kernel, fs, data, i, s) && 0 <= k < s.memsz
        ensures RightIn(mem, run, kernel, fs, data, i, s, k)
      {
        AlignedIsRight(mem, run, kernel, fs, data, i, s, k);
      }
    } else {
      var mem, run, fs, data := WrongByte(s);
    }
  }

  /** A file with 32 bytes of code for address 0x400010: its first byte in memory is wrong. */
  lemma UnalignedFile() returns (mem: Memory, run: Run, fs: seq<nat>, data: seq<u8>)
    ensures var s := Segment(1, 5, 0x1000, 0x40_0010, 32, 32);
            LoadOf(mem, run, 0, fs, data, 0, s) && !RightIn(mem, run, 0, fs, data, 0, s, 0)
  {
    var s := Segment(1, 5, 0x1000, 0x40_0010, 32, 32);
    assert Loadable(s);
    mem, run, fs, data := WrongByte(s);
  }

  // ---------- a program whose data cannot be written ----------

  /** A file with readable, executable code at 0x1000 and writable data on the next page, as the linker
      script of the init program lays them out. */
  function CodeAndData(): seq<Segment> {
    [Segment(1, 5, 0x1000, 0x1000, 0x100, 0x100), Segment(1, 6, 0x2000, 0x2000, 0x10, 0x20)]
  }

  function ProgramFile(): seq<u8> {
    seq<u8>(0x3000, o requires 0 <= o < 0x3000 => FileByte(0x1000, 64, 2, CodeAndData(), o))
  }

  lemma ProgramWritten()
    ensures Written(ProgramFile(), 0x1000, 64, 2, CodeAndData())
    ensures FileOk(ProgramFile()) && IsElf64(ProgramFile()) && HeaderCount(ProgramFile()) == 2
  {
    hide FileByte, IsElf64, HeaderCount, FileOk;
    assert Loadable(CodeAndData()[0]) && Loadable(CodeAndData()[1]);
    WrittenOk(ProgramFile(), 0x1000, 64, 2, CodeAndData());
  }

  lemma ProgramPlan()
    ensures FileOk(ProgramFile())
    ensures var plan, segs := FilePlan(ProgramFile()), CodeAndData();
            && |plan| == 2 && plan[0].virt == 0x1000 && plan[1].virt == 0x2000
            && plan[0].flags == SegmentFlags(5) && plan[1].flags == SegmentFlags(6)
  {
    hide ProgramFile, FileByte, IsElf64, HeaderCount, HeaderAt, SegmentAt, LoadPlan, FilePlan, FileOk, PageCount,
      Start, Written, SegmentFlags, PageBytes, CodeAndData, FieldsFit;
    var data, segs := ProgramFile(), CodeAndData();
    ProgramWritten();
    ProgramSegments();
    SegmentReads(data, 0x1000, 64, 2, segs, 0);
    SegmentReads(data, 0x1000, 64, 2, segs, 1);
    PlanNext(data, 0);
    PlanNext(data, 1);
    PlanIs(data);
  }

  lemma ProgramSegments()
    ensures var segs := CodeAndData();
            && |segs| == 2 && FieldsFit(segs[0]) && FieldsFit(segs[1])
            && segs[0].kind == PT_LOAD && segs[1].kind == PT_LOAD && segs[0].flags == 5 && segs[1].flags == 6
            && PageCount(segs[0]) == 1 && PageCount(segs[1]) == 1 && Start(segs[0]) == 0x1000
            && Start(segs[1]) == 0x2000
  {
  }

  lemma FivePlusSix()
    ensures RightsOf(SegmentFlags(5)) == Rights(false, false, false)
            && RightsOf(SegmentFlags(6)) == Rights(true, false, true)
  {
    hide RightsOf, SegmentFlags;
    SegmentRights(5);
    SegmentRights(6);
  }

  /** The data page of that program is mapped, was asked for as writable, and is not. */
  lemma ReadOnlyDataSegment() returns (mem: Memory, run: Run, fs: seq<nat>)
    ensures Complete(mem, run, 0, fs, ProgramFile()) && |run.plan| == 2 && run.plan[1].virt == 0x2000
    ensures RightsOf(run.plan[1].flags).writable
    ensures var e := Effective(Loaded(run, fs), run.root, PageOf(0x2000)); e.Some? && !e.value.writable
  {
    hide ProgramFile, FileOk, IsElf64, HeaderCount, FilePlan, RightsOf, SegmentFlags, PageOf, Zone, Effective, Opener,
      Complete, Loaded, EmptySpace, SlotOf;
    ProgramWritten();
    ProgramPlan();
    FivePlusSix();
    mem, run, fs := AnyLoad(ProgramFile());
    CompletePlan(mem, run, fs, ProgramFile());
    TwoPages(run.plan);
    NoWindows(SlotOf(PageOf(0x2000)));
    LoadedRights(run, 0, fs, 1);
  }

  lemma NoWindows(slot: nat)
    ensures !HasWindow(EmptySpace(0), 0, slot)
  {
  }

  /** The first page of such a plan opens all zones of the second. */
  lemma TwoPages(plan: seq<PageLoad>)
    requires |plan| == 2 && plan[0].virt == 0x1000 && plan[1].virt == 0x2000
    ensures PagesDistinct(plan) && GrantedIn(plan, 1, 1) == RightsOf(plan[0].flags)
  {
    hide RightsOf;
    PageNumbers();
  }

  lemma PageNumbers()
    ensures PageOf(0x1000) == 1 && PageOf(0x2000) == 2 && Zone(1, 1) == Zone(1, 2)
  {
  }

  lemma CompletePlan(mem: Memory, run: Run, fs: seq<nat>, data: seq<u8>)
    requires Complete(mem, run, 0, fs, data)
    ensures Ok(run.base, 0) && run.root in run.base.slots && |fs| == |run.plan| && AllFit(PlacedAt(run.plan, fs))
  {
    hide Ok, FilePlan, IsElf64, FileOk, Filled, PlanOk, Fit;
  }
}
