/** The physical frame allocator of kernel/src/mm/pmm.c: a stack of free frame addresses kept in
    memory carved out of the boot memory map. Every frame handed out is zeroed first. */
module Pmm {
  import opened Bits

  // PAGE_SIZE is written out as 4096 throughout.
  const ADDRESS_LIMIT: nat := 0x10_0000_0000_0000

  /** One frame of memory, read as 512 words. */
  type Table = t: seq<u64> | |t| == 512 witness seq(512, i => 0)

  type Memory = map<nat, Table>

  function ZeroTable(): (t: Table)
    ensures forall i :: 0 <= i < 512 ==> t[i] == 0
  {
    seq(512, i => 0)
  }

  datatype MemEntry = MemEntry(base: nat, length: nat, usable: bool)

  function DivRoundUp(x: nat, y: nat): nat
    requires y > 0
  {
    (x + (y - 1)) / y
  }

  function AlignUp(x: nat, y: nat): nat
    requires y > 0
  {
    DivRoundUp(x, y) * y
  }

  // ---------- the frames a memory map describes ----------

  /** Pages counted by the first pass over the memory map. */
  function CountPages(m: seq<MemEntry>): nat {
    if m == [] then 0
    else CountPages(m[..|m| - 1]) +
         (if m[|m| - 1].usable then DivRoundUp(m[|m| - 1].length, 4096) else 0)
  }

  function ArraySize(m: seq<MemEntry>): nat {
    AlignUp(CountPages(m) * 8, 4096)
  }

  function FramesOf(e: MemEntry): seq<nat> {
    if e.usable then seq(DivRoundUp(e.length, 4096), k requires k >= 0 => e.base + k * 4096) else []
  }

  function AllFrames(m: seq<MemEntry>): seq<nat> {
    if m == [] then [] else AllFrames(m[..|m| - 1]) + FramesOf(m[|m| - 1])
  }

  /** What the boot loader promises about usable memory. */
  ghost predicate WellFormed(m: seq<MemEntry>) {
    && (forall i :: 0 <= i < |m| && m[i].usable ==>
          m[i].base % 4096 == 0 && m[i].length % 4096 == 0 && m[i].base > 0 &&
          m[i].base + m[i].length <= ADDRESS_LIMIT)
    && (forall i, j :: 0 <= i < j < |m| && m[i].usable && m[j].usable ==>
          m[i].base + m[i].length <= m[j].base || m[j].base + m[j].length <= m[i].base)
  }

  function Shrunk(e: MemEntry, size: nat): MemEntry
    requires size <= e.length
  {
    e.(base := e.base + size, length := e.length - size)
  }

  predicate Holds(e: MemEntry, size: nat) {
    e.length >= size && e.usable
  }

  ghost predicate Distinct(s: seq<nat>) {
    forall i, j :: 0 <= i < j < |s| ==> s[i] != s[j]
  }

  predicate FrameAddress(f: nat) {
    f % 4096 == 0 && 0 < f < ADDRESS_LIMIT
  }

  lemma {:induction false} CountSplit(m: seq<MemEntry>, i: nat)
    requires i < |m|
    ensures CountPages(m) == CountPages(m[..i]) + |FramesOf(m[i])| + CountPages(m[i + 1..])
  {
    if i == |m| - 1 {
      assert m[i + 1..] == [];
    } else {
      CountSplit(m[..|m| - 1], i);
      assert m[..|m| - 1][..i] == m[..i];
      assert m[i + 1..][..|m| - i - 2] == m[..|m| - 1][i + 1..];
    }
  }

  lemma {:induction false} CountIsFrames(m: seq<MemEntry>)
    ensures |AllFrames(m)| == CountPages(m)
  {
    if m != [] {
      CountIsFrames(m[..|m| - 1]);
    }
  }

  /** Carving `size` bytes off one entry removes exactly size / 4096 frames. */
  lemma ShrinkCount(m: seq<MemEntry>, i: nat, size: nat)
    requires i < |m| && Holds(m[i], size) && size % 4096 == 0
    ensures CountPages(m[i := Shrunk(m[i], size)]) == CountPages(m) - size / 4096
  {
    var m' := m[i := Shrunk(m[i], size)];
    CountSplit(m, i);
    CountSplit(m', i);
    assert m'[..i] == m[..i] && m'[i + 1..] == m[i + 1..];
    var k := size / 4096;
    assert size == k * 4096;
    assert DivRoundUp(m[i].length - size, 4096) == DivRoundUp(m[i].length, 4096) - k;
  }

  /** Every listed frame is an aligned address inside some usable entry. */
  lemma {:induction false} FrameOrigin(m: seq<MemEntry>, k: nat) returns (i: nat)
    requires WellFormed(m) && k < |AllFrames(m)|
    ensures i < |m| && m[i].usable && FrameAddress(AllFrames(m)[k])
    ensures m[i].base <= AllFrames(m)[k] < m[i].base + m[i].length
  {
    var n := |m| - 1;
    if k < |AllFrames(m[..n])| {
      i := FrameOrigin(m[..n], k);
    } else {
      i := n;
      var x := k - |AllFrames(m[..n])|;
      assert AllFrames(m)[k] == FramesOf(m[n])[x] == m[n].base + x * 4096;
    }
  }

  lemma {:induction false} FramesDistinct(m: seq<MemEntry>)
    requires WellFormed(m)
    ensures Distinct(AllFrames(m))
  {
    if m != [] {
      var n := |m| - 1;
      var a, b := AllFrames(m[..n]), FramesOf(m[n]);
      FramesDistinct(m[..n]);
      forall x, y | 0 <= x < |a| && 0 <= y < |b|
        ensures a[x] != b[y]
      {
        var i := FrameOrigin(m[..n], x);
        assert b[y] == m[n].base + y * 4096;
      }
    }
  }

  lemma ShrinkWellFormed(m: seq<MemEntry>, i: nat, size: nat)
    requires WellFormed(m) && i < |m| && Holds(m[i], size) && size % 4096 == 0
    ensures WellFormed(m[i := Shrunk(m[i], size)])
  {
  }

  /** No frame left after the carving touches the bytes the stack array occupies. */
  lemma ShrinkAvoidsArray(m: seq<MemEntry>, i: nat, size: nat, k: nat)
    requires WellFormed(m) && i < |m| && Holds(m[i], size) && size % 4096 == 0
    requires k < |AllFrames(m[i := Shrunk(m[i], size)])|
    ensures var f := AllFrames(m[i := Shrunk(m[i], size)])[k];
            f + 4096 <= m[i].base || m[i].base + size <= f
  {
    var m' := m[i := Shrunk(m[i], size)];
    ShrinkWellFormed(m, i, size);
    var j := FrameOrigin(m', k);
    var f := AllFrames(m')[k];
    if j != i {
      assert m'[j] == m[j];
      assert f % 4096 == 0 && m[i].base % 4096 == 0;
    }
  }

  ghost function Elements(s: seq<nat>): set<nat> {
    set x | x in s
  }

  lemma ElementsPush(s: seq<nat>, x: nat)
    ensures Elements(s + [x]) == Elements(s) + {x}
  {
  }

  // ---------- conservation of frames ----------

  /** Free and held frames are disjoint, none is listed twice, and together they number `max`. */
  ghost predicate Conserved(free: seq<nat>, held: set<nat>, max: nat) {
    Distinct(free) && held !! Elements(free) && |held| + |free| == max
  }

  lemma PopConserved(free: seq<nat>, held: set<nat>, max: nat)
    requires Conserved(free, held, max) && |free| > 0
    ensures var n := |free| - 1;
            free[n] !in held && Conserved(free[..n], held + {free[n]}, max)
            && held + {free[n]} + Elements(free[..n]) == held + Elements(free)
  {
    var n := |free| - 1;
    ElementsPush(free[..n], free[n]);
    assert free == free[..n] + [free[n]];
  }

  lemma PushConserved(free: seq<nat>, held: set<nat>, max: nat, f: nat)
    requires Conserved(free, held, max) && f in held
    ensures |free| < max && Conserved(free + [f], held - {f}, max)
    ensures held - {f} + Elements(free + [f]) == held + Elements(free)
  {
    ElementsPush(free, f);
    assert |held - {f}| == |held| - 1;
  }

  /** Pushing a frame nobody holds breaks the balance. */
  lemma PushForeign(free: seq<nat>, held: set<nat>, max: nat, f: nat)
    requires Conserved(free, held, max) && f !in held
    ensures !Conserved(free + [f], held - {f}, max)
  {
    assert held - {f} == held;
  }

  // ---------- the allocator ----------

  class FrameAllocator {
    var entries: seq<MemEntry>
    var pages: array<nat>
    var idx: nat
    var max: nat
    var mem: Memory
    /** Frames handed out and not yet returned. */
    ghost var held: set<nat>

    ghost predicate Valid()
      reads this, pages
    {
      && idx <= max <= pages.Length
      && Conserved(Free(), held, max)
      && (forall f :: f in Managed() ==> FrameAddress(f) && f in mem)
    }

    ghost function Free(): seq<nat>
      requires idx <= pages.Length
      reads this, pages
    {
      pages[..idx]
    }

    /** All frames under management, free or held. */
    ghost function Managed(): set<nat>
      requires idx <= pages.Length
      reads this, pages
    {
      held + Elements(Free())
    }

    constructor Init(memmap: seq<MemEntry>, ram: Memory)
      requires WellFormed(memmap)
      requires exists i :: 0 <= i < |memmap| && Holds(memmap[i], ArraySize(memmap))
      requires forall f :: f in AllFrames(memmap) ==> f in ram
      ensures Valid() && fresh(pages) && held == {} && mem == ram && max == idx
      // exactly the frames the array itself does not use, each once
      ensures max == |AllFrames(memmap)| - (|AllFrames(memmap)| * 8 + 4095) / 4096
      // the stack has eight bytes for every usable frame, in whole pages
      ensures pages.Length * 8 == (|AllFrames(memmap)| * 8 + 4095) / 4096 * 4096 == ArraySize(memmap)
      ensures Free() == AllFrames(entries) && CarvedFrom(memmap, entries, Managed())
    {
      hide WellFormed, Conserved, Elements, Avoids, AllFrames, CountPages;
      var freePages := CountFree(memmap);
      CountIsFrames(memmap);
      var arraySize := AlignUp(freePages * 8, 4096);
      var at := FindHolder(memmap, arraySize);
      entries := memmap[at := Shrunk(memmap[at], arraySize)];
      CountFits(freePages);
      pages := new nat[arraySize / 8];
      idx, max, mem, held := 0, 0, ram, {};
      new;
      ShrinkCount(memmap, at, arraySize);
      CountIsFrames(entries);
      FillStack();
      max := idx;
      CarvedFrames(memmap, at, arraySize);
      forall f | f in AllFrames(entries) || f in AllFrames(memmap)
        ensures f in AllFrames(entries) <==>
                (f in AllFrames(memmap) && !(memmap[at].base <= f < memmap[at].base + arraySize))
      {
        CarvedExactly(memmap, at, arraySize, f);
      }
      ElementsAre(AllFrames(entries));
      assert Managed() == Elements(Free()) == Elements(AllFrames(entries));
    }

    /** The third loop of pmm_init: push every page of every usable entry. */
    method FillStack()
      requires idx == 0 && |AllFrames(entries)| <= pages.Length
      modifies this`idx, pages
      ensures idx == |AllFrames(entries)| && pages[..idx] == AllFrames(entries)
    {
      for i := 0 to |entries|
        invariant idx == |AllFrames(entries[..i])| && idx <= pages.Length
        invariant pages[..idx] == AllFrames(entries[..i])
      {
        FramesPrefix(entries, i + 1);
        assert entries[..i + 1][..i] == entries[..i];
        if entries[i].usable {
          PushEntry(entries[i]);
        }
      }
      assert entries[..|entries|] == entries;
    }

    method PushEntry(e: MemEntry)
      requires e.usable && idx + |FramesOf(e)| <= pages.Length
      modifies this`idx, pages
      ensures idx == old(idx) + |FramesOf(e)|
      ensures pages[..idx] == old(pages[..idx]) + FramesOf(e)
    {
      var j := 0;
      ghost var k := 0;
      while j < e.length
        invariant j == k * 4096 && 0 <= k <= |FramesOf(e)| && idx == old(idx) + k
        invariant j < e.length <==> k < |FramesOf(e)|
        invariant pages[..idx] == old(pages[..idx]) + FramesOf(e)[..k]
      {
        assert FramesOf(e)[..k + 1] == FramesOf(e)[..k] + [e.base + j];
        pages[idx] := e.base + j;
        idx := idx + 1;
        assert pages[..idx] == pages[..idx - 1] + [e.base + j];
        j, k := j + 4096, k + 1;
      }
      assert FramesOf(e)[..k] == FramesOf(e);
    }

    /** Pops and zeroes a frame; NULL when the stack is empty. */
    method RequestPage() returns (f: nat)
      requires Valid()
      modifies this`idx, this`mem, this`held
      ensures Valid() && Managed() == old(Managed())
      ensures old(idx) == 0 ==> f == 0 && idx == 0 && mem == old(mem) && held == old(held)
      ensures old(idx) > 0 ==> f == old(Free()[idx - 1]) && Free() == old(Free()[..idx - 1])
      ensures old(idx) > 0 ==> held == old(held) + {f} && f !in old(held)
      ensures old(idx) > 0 ==> mem == old(mem)[f := ZeroTable()]
    {
      hide Conserved, Elements;
      if idx == 0 {
        return 0;
      }
      PopConserved(Free(), held, max);
      idx := idx - 1;
      f := pages[idx];
      assert Free() == old(Free()[..idx - 1]) && f == old(Free()[idx - 1]);
      held := held + {f};
      assert Managed() == old(Managed());
      mem := mem[f := ZeroTable()];
    }

    /** Pushes a frame back, whoever held it: NULL and a full stack are ignored. Frames stay conserved exactly
        if the frame was held, or nothing was pushed; and a held frame is always pushed. */
    method FreePage(f: nat)
      requires idx <= max <= pages.Length
      modifies this`idx, this`held, pages
      ensures idx <= max == old(max) && mem == old(mem)
      ensures f == 0 || old(idx) == max ==> Free() == old(Free()) && held == old(held)
      ensures f != 0 && old(idx) < max ==> Free() == old(Free()) + [f] && held == old(held) - {f}
      ensures old(Valid()) ==> (Valid() <==> f == 0 || f in old(held) || old(idx) == max)
      ensures old(Valid()) && f in old(held) ==> old(idx) < max && Managed() == old(Managed())
    {
      hide Conserved, Elements;
      if Valid() && f in held { PushConserved(Free(), held, max, f); }
      if Valid() && f !in held && idx < max { PushForeign(Free(), held, max, f); }
      if f == 0 || idx >= max {
        return;
      }
      pages[idx] := f;
      idx := idx + 1;
      held := held - {f};
      assert Free() == old(Free()) + [f];
    }
  }

  /** The first pass of pmm_init. */
  method CountFree(memmap: seq<MemEntry>) returns (freePages: nat)
    ensures freePages == |AllFrames(memmap)|
  {
    freePages := 0;
    for i := 0 to |memmap|
      invariant freePages == CountPages(memmap[..i])
    {
      assert memmap[..i + 1][..i] == memmap[..i];
      if memmap[i].usable {
        freePages := freePages + DivRoundUp(memmap[i].length, 4096);
      }
    }
    assert memmap[..|memmap|] == memmap;
    CountIsFrames(memmap);
  }

  /** The second pass of pmm_init: the first usable entry that can hold the stack. */
  method FindHolder(memmap: seq<MemEntry>, size: nat) returns (at: nat)
    requires exists i :: 0 <= i < |memmap| && Holds(memmap[i], size)
    ensures at < |memmap| && Holds(memmap[at], size)
    ensures forall j :: 0 <= j < at ==> !Holds(memmap[j], size)
  {
    at := 0;
    while !(memmap[at].length >= size && memmap[at].usable)
      invariant at < |memmap|
      invariant forall j :: 0 <= j < at ==> !Holds(memmap[j], size)
      decreases |memmap| - at
    {
      at := at + 1;
    }
  }

  /** The first entry that can hold the stack array gave up exactly the array's bytes, and no
      managed frame touches them. */
  ghost predicate CarvedFrom(memmap: seq<MemEntry>, entries: seq<MemEntry>, managed: set<nat>) {
    exists i :: && 0 <= i < |memmap| && Holds(memmap[i], ArraySize(memmap))
                && (forall j :: 0 <= j < i ==> !Holds(memmap[j], ArraySize(memmap)))
                && entries == memmap[i := Shrunk(memmap[i], ArraySize(memmap))]
                && Avoids(managed, memmap[i].base, ArraySize(memmap))
                && forall f :: f in managed <==> f in AllFrames(memmap) && !InArray(memmap, i, f)
  }

  /** The frame lies in the bytes carved off entry i. */
  predicate InArray(memmap: seq<MemEntry>, i: nat, f: nat)
    requires i < |memmap|
  {
    memmap[i].base <= f < memmap[i].base + ArraySize(memmap)
  }

  lemma ElementsAre(s: seq<nat>)
    ensures forall f :: f in Elements(s) <==> f in s
  {
  }

  /** The stack array has eight bytes for every usable frame, rounded up to whole pages and no further. */
  lemma ArraySizeLeast(m: seq<MemEntry>)
    ensures ArraySize(m) % 4096 == 0 && |AllFrames(m)| * 8 <= ArraySize(m) < |AllFrames(m)| * 8 + 4096
  {
    CountIsFrames(m);
  }

  /** The address lies in usable entry i. */
  predicate InEntry(m: seq<MemEntry>, i: nat, f: nat) {
    i < |m| && m[i].usable && m[i].base <= f < m[i].base + m[i].length
  }

  lemma EntryFrame(m: seq<MemEntry>, i: nat, f: nat)
    requires WellFormed(m) && InEntry(m, i, f) && f % 4096 == 0
    ensures f in AllFrames(m)
  {
    assert m[i].base % 4096 == 0;
    hide WellFormed, AllFrames;
    PageWithin(m[i].base, m[i].length, f);
    FrameListed(m, i, (f - m[i].base) / 4096);
  }

  /** The frames of a memory map are exactly the aligned addresses inside its usable entries. */
  lemma FramesExactly(m: seq<MemEntry>, f: nat)
    requires WellFormed(m)
    ensures f in AllFrames(m) <==> f % 4096 == 0 && exists i: nat :: InEntry(m, i, f)
  {
    hide WellFormed, AllFrames;
    if f in AllFrames(m) {
      var k :| 0 <= k < |AllFrames(m)| && AllFrames(m)[k] == f;
      var i := FrameOrigin(m, k);
      assert InEntry(m, i, f);
    }
    if f % 4096 == 0 {
      if i: nat :| InEntry(m, i, f) {
        EntryFrame(m, i, f);
      }
    }
  }

  /** Carving takes away the frames under the array and no others. */
  lemma CarvedExactly(m: seq<MemEntry>, i: nat, size: nat, f: nat)
    requires WellFormed(m) && i < |m| && Holds(m[i], size) && size % 4096 == 0
    ensures f in AllFrames(m[i := Shrunk(m[i], size)]) <==>
            f in AllFrames(m) && !(m[i].base <= f < m[i].base + size)
  {
    var m' := m[i := Shrunk(m[i], size)];
    ShrinkWellFormed(m, i, size);
    FramesExactly(m, f);
    FramesExactly(m', f);
    hide AllFrames, WellFormed;
    if f in AllFrames(m') {
      var j: nat :| InEntry(m', j, f);
      assert InEntry(m, j, f);
      CarvedClear(m, i, size, j, f);
    }
    if f in AllFrames(m) && !(m[i].base <= f < m[i].base + size) {
      var j: nat :| InEntry(m, j, f);
      assert InEntry(m', j, f);
    }
  }

  lemma CarvedClear(m: seq<MemEntry>, i: nat, size: nat, j: nat, f: nat)
    requires WellFormed(m) && i < |m| && Holds(m[i], size) && InEntry(m[i := Shrunk(m[i], size)], j, f)
    ensures !(m[i].base <= f < m[i].base + size)
  {
  }

  ghost predicate Avoids(frames: set<nat>, base: nat, size: nat) {
    forall f :: f in frames ==> f + 4096 <= base || base + size <= f
  }

  lemma CarvedFrames(m: seq<MemEntry>, i: nat, size: nat)
    requires WellFormed(m) && i < |m| && Holds(m[i], size) && size % 4096 == 0
    ensures var s := AllFrames(m[i := Shrunk(m[i], size)]);
            && Conserved(s, {}, |s|)
            && Avoids(Elements(s), m[i].base, size)
            && (forall f :: f in Elements(s) ==> FrameAddress(f) && f in AllFrames(m))
  {
    var m' := m[i := Shrunk(m[i], size)];
    ShrinkWellFormed(m, i, size);
    FramesDistinct(m');
    forall f | f in Elements(AllFrames(m'))
      ensures FrameAddress(f) && f in AllFrames(m)
      ensures f + 4096 <= m[i].base || m[i].base + size <= f
    {
      var k :| 0 <= k < |AllFrames(m')| && AllFrames(m')[k] == f;
      ShrinkAvoidsArray(m, i, size, k);
      ShrinkKeepsFrame(m, i, size, k);
    }
  }

  lemma CountFits(n: nat)
    ensures n <= AlignUp(n * 8, 4096) / 8
    ensures AlignUp(n * 8, 4096) % 4096 == 0 && AlignUp(n * 8, 4096) % 8 == 0
  {
    var q := DivRoundUp(n * 8, 4096);
    var a := q * 4096;
    assert n * 8 <= a;
    assert a == 8 * (q * 512);
  }

  lemma {:induction false} FramesPrefix(m: seq<MemEntry>, i: nat)
    requires i <= |m|
    ensures |AllFrames(m[..i])| <= |AllFrames(m)|
    ensures AllFrames(m[..i]) <= AllFrames(m)
  {
    if i < |m| {
      FramesPrefix(m[..|m| - 1], i);
      assert m[..|m| - 1][..i] == m[..i];
    } else {
      assert m[..i] == m;
    }
  }

  lemma {:induction false} FrameListed(m: seq<MemEntry>, i: nat, x: nat)
    requires i < |m| && m[i].usable && x < DivRoundUp(m[i].length, 4096)
    ensures m[i].base + x * 4096 in AllFrames(m)
  {
    if i < |m| - 1 {
      FrameListed(m[..|m| - 1], i, x);
    } else {
      assert FramesOf(m[i])[x] in AllFrames(m);
    }
  }

  /** A frame that remains was a frame of the original map. */
  lemma ShrinkKeepsFrame(m: seq<MemEntry>, i: nat, size: nat, k: nat)
    requires WellFormed(m) && i < |m| && Holds(m[i], size) && size % 4096 == 0
    requires k < |AllFrames(m[i := Shrunk(m[i], size)])|
    ensures var f := AllFrames(m[i := Shrunk(m[i], size)])[k]; FrameAddress(f) && f in AllFrames(m)
  {
    var m' := m[i := Shrunk(m[i], size)];
    ShrinkWellFormed(m, i, size);
    var j := FrameOrigin(m', k);
    var f := AllFrames(m')[k];
    assert m[j].base % 4096 == 0 && m[j].base <= f < m[j].base + m[j].length && m[j].usable;
    hide AllFrames, WellFormed;
    PageWithin(m[j].base, m[j].length, f);
    FrameListed(m, j, (f - m[j].base) / 4096);
  }

  lemma PageWithin(base: nat, length: nat, f: nat)
    requires base % 4096 == 0 && f % 4096 == 0 && base <= f < base + length
    ensures var x := (f - base) / 4096; f == base + x * 4096 && x < DivRoundUp(length, 4096)
  {
  }
}
