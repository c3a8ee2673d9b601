/** How a heap layout is stored: linked headers in memory. A header is a record at its address;
    address 0 is NULL. */
module HeapWiring {
  import opened HeapLayout

  const MAGIC: nat := 0xc001c0de
  const DEAD: nat := 0xdeaddead

  datatype Major = Major(prev: nat, next: nat, pages: nat, size: nat, usage: nat, first: nat)

  datatype Minor = Minor(prev: nat, next: nat, block: nat, magic: nat, size: nat, reqSize: nat)

  type Majors = map<nat, Major>
  type Minors = map<nat, Minor>
  /** Byte memory; a byte never written reads as whatever Peek says. */
  type Ram = map<nat, nat>

  function Peek(ram: Ram, a: nat): nat {
    if a in ram then ram[a] else 0
  }

  function ChunkAt(cs: seq<Chunk>, j: int): nat {
    if 0 <= j < |cs| then cs[j].addr else 0
  }

  function BlockAt(blocks: seq<Block>, k: int): nat {
    if 0 <= k < |blocks| then blocks[k].base else 0
  }

  function MinorFor(b: Block, j: nat): Minor
    requires j < |b.chunks|
  {
    Minor(ChunkAt(b.chunks, j - 1), ChunkAt(b.chunks, j + 1), b.base, MAGIC, b.chunks[j].size, b.chunks[j].req)
  }

  function MajorFor(blocks: seq<Block>, k: nat): Major
    requires k < |blocks|
  {
    Major(BlockAt(blocks, k - 1), BlockAt(blocks, k + 1), blocks[k].pages, blocks[k].pages * 4096,
          40 + Usage(blocks[k].chunks), ChunkAt(blocks[k].chunks, 0))
  }

  ghost predicate MinorsOk(minors: Minors, b: Block) {
    forall j :: 0 <= j < |b.chunks| ==> b.chunks[j].addr in minors && minors[b.chunks[j].addr] == MinorFor(b, j)
  }

  ghost predicate BacksOk(ram: Ram, b: Block) {
    forall j :: 0 <= j < |b.chunks| ==> Peek(ram, BackAddr(b.chunks[j])) == BackOffset(b.chunks[j])
  }

  ghost predicate MajorsOk(majors: Majors, blocks: seq<Block>) {
    forall k :: 0 <= k < |blocks| ==> blocks[k].base in majors && majors[blocks[k].base] == MajorFor(blocks, k)
  }

  ghost predicate ChunksOk(minors: Minors, ram: Ram, blocks: seq<Block>) {
    forall k :: 0 <= k < |blocks| ==> MinorsOk(minors, blocks[k]) && BacksOk(ram, blocks[k])
  }

  /** Memory holds exactly this layout, consistently linked in both directions. */
  ghost predicate Wired(majors: Majors, minors: Minors, ram: Ram, blocks: seq<Block>) {
    LayoutOk(blocks) && MajorsOk(majors, blocks) && ChunksOk(minors, ram, blocks)
  }

  // ---------- one block's chunks do not depend on memory outside the block ----------

  predicate SameMinor(m: Minors, m': Minors, a: nat) {
    (a in m <==> a in m') && (a in m ==> m[a] == m'[a])
  }

  lemma MinorsFrame(m: Minors, m': Minors, ram: Ram, ram': Ram, b: Block)
    requires BlockOk(b) && MinorsOk(m, b) && BacksOk(ram, b)
    requires forall a :: b.base <= a < BlockEnd(b) ==> SameMinor(m, m', a) && Peek(ram', a) == Peek(ram, a)
    ensures MinorsOk(m', b) && BacksOk(ram', b)
  {
    forall j | 0 <= j < |b.chunks|
      ensures b.chunks[j].addr in m' && m'[b.chunks[j].addr] == MinorFor(b, j)
      ensures Peek(ram', BackAddr(b.chunks[j])) == BackOffset(b.chunks[j])
    {
      var a, p := b.chunks[j].addr, BackAddr(b.chunks[j]);
      PayloadInside(b.chunks[j]);
      assert SameMinor(m, m', a) && Peek(ram', p) == Peek(ram, p);
    }
  }

  ghost predicate LocalChange(m: Minors, m': Minors, ram: Ram, ram': Ram, b: Block) {
    forall a: nat :: !(b.base <= a < BlockEnd(b)) ==> SameMinor(m, m', a) && Peek(ram', a) == Peek(ram, a)
  }

  /** Replacing one block's chunks leaves the chunks of every other block in place. */
  lemma ChangeOneBlock(m: Minors, m': Minors, ram: Ram, ram': Ram, blocks: seq<Block>, k: nat, b: Block)
    requires LayoutOk(blocks) && ChunksOk(m, ram, blocks) && k < |blocks|
    requires BlockOk(b) && b.base == blocks[k].base && b.pages == blocks[k].pages
    requires LocalChange(m, m', ram, ram', b) && MinorsOk(m', b) && BacksOk(ram', b)
    ensures LayoutOk(blocks[k := b]) && ChunksOk(m', ram', blocks[k := b])
  {
    forall i | 0 <= i < |blocks| && i != k
      ensures MinorsOk(m', blocks[i]) && BacksOk(ram', blocks[i])
    {
      assert Apart(blocks[i], blocks[k]);
      MinorsFrame(m, m', ram, ram', blocks[i]);
    }
  }

  // ---------- linking a chunk in ----------

  /** The pointer writes of a placement at position j: the new header, then its neighbours. */
  function LinkIn(m: Minors, b: Block, j: nat, c: Chunk): Minors
    requires j <= |b.chunks| && MinorsPresent(m, b)
  {
    var header := Minor(ChunkAt(b.chunks, j - 1), ChunkAt(b.chunks, j), b.base, MAGIC, c.size, c.req);
    var m1 := m[c.addr := header];
    var m2 := if j > 0 then m1[b.chunks[j - 1].addr := m1[b.chunks[j - 1].addr].(next := c.addr)] else m1;
    if j < |b.chunks| then m2[b.chunks[j].addr := m2[b.chunks[j].addr].(prev := c.addr)] else m2
  }

  predicate MinorsPresent(m: Minors, b: Block) {
    forall j :: 0 <= j < |b.chunks| ==> b.chunks[j].addr in m
  }

  lemma LinkInOk(m: Minors, ram: Ram, b: Block, j: nat, size: nat, req: nat)
    requires BlockOk(b) && MinorsOk(m, b) && BacksOk(ram, b)
    requires j <= |b.chunks| && Fits(b, j, size + 40) && req + 32 <= size
    ensures var c := NewChunk(b, j, size, req);
            var b' := Place(b, j, size, req);
            var m' := LinkIn(m, b, j, c);
            var ram' := ram[BackAddr(c) := BackOffset(c)];
            BlockOk(b') && MinorsOk(m', b') && BacksOk(ram', b') && LocalChange(m, m', ram, ram', b')
  {
    hide BlockOk, LinkIn, Payload, BackAddr, BackOffset, Peek, MinorFor, LocalChange, NewChunk, Fits;
    var c := NewChunk(b, j, size, req);
    var b' := Place(b, j, size, req);
    PlaceOk(b, j, size, req);
    forall i | 0 <= i < |b'.chunks|
      ensures b'.chunks[i].addr in LinkIn(m, b, j, c) && LinkIn(m, b, j, c)[b'.chunks[i].addr] == MinorFor(b', i)
      ensures Peek(ram[BackAddr(c) := BackOffset(c)], BackAddr(b'.chunks[i])) == BackOffset(b'.chunks[i])
    {
      hide MinorsOk, BacksOk;
      LinkInAt(m, b, j, size, req, i);
      BackStays(ram, b, j, size, req, i);
      assert b'.chunks[i] == PlacedAt(b, j, size, req, i);
    }
    LinkInLocal(m, ram, b, j, size, req);
  }

  lemma BackStays(ram: Ram, b: Block, j: nat, size: nat, req: nat, i: nat)
    requires BlockOk(b) && BacksOk(ram, b)
    requires j <= |b.chunks| && Fits(b, j, size + 40) && req + 32 <= size && i <= |b.chunks|
    ensures var c, d := NewChunk(b, j, size, req), PlacedAt(b, j, size, req, i);
            Peek(ram[BackAddr(c) := BackOffset(c)], BackAddr(d)) == BackOffset(d)
  {
    hide BlockOk, Place;
    var c, d := NewChunk(b, j, size, req), PlacedAt(b, j, size, req, i);
    PayloadInside(c);
    if i != j {
      var o := if i < j then i else i - 1;
      Within(b, o);
      PayloadInside(d);
      NewChunkBetween(b, j, size, req, o);
    }
  }

  lemma LinkInLocal(m: Minors, ram: Ram, b: Block, j: nat, size: nat, req: nat)
    requires BlockOk(b) && MinorsOk(m, b)
    requires j <= |b.chunks| && Fits(b, j, size + 40) && req + 32 <= size
    ensures var c := NewChunk(b, j, size, req);
            LocalChange(m, LinkIn(m, b, j, c), ram, ram[BackAddr(c) := BackOffset(c)], Place(b, j, size, req))
  {
    hide BlockOk, Payload, BackAddr, BackOffset;
    var c := NewChunk(b, j, size, req);
    PlacedWithin(b, j, size, req, j);
    PayloadInside(c);
    if j > 0 { Within(b, j - 1); }
    if j < |b.chunks| { Within(b, j); }
    forall a: nat | !(b.base <= a < BlockEnd(b))
      ensures SameMinor(m, LinkIn(m, b, j, c), a)
      ensures Peek(ram[BackAddr(c) := BackOffset(c)], a) == Peek(ram, a)
    {
    }
  }

  /** What linking in a chunk at position j does to the header of an old chunk. */
  lemma LinkInReads(m: Minors, b: Block, j: nat, c: Chunk, o: nat)
    requires BlockOk(b) && MinorsPresent(m, b) && j <= |b.chunks| && o < |b.chunks|
    requires forall x :: 0 <= x < |b.chunks| ==> b.chunks[x].addr != c.addr
    ensures var x := b.chunks[o].addr;
            && x in LinkIn(m, b, j, c)
            && LinkIn(m, b, j, c)[x] == m[x].(prev := if o == j then c.addr else m[x].prev,
                                              next := if o == j - 1 then c.addr else m[x].next)
    ensures c.addr in LinkIn(m, b, j, c)
    ensures LinkIn(m, b, j, c)[c.addr] ==
            Minor(ChunkAt(b.chunks, j - 1), ChunkAt(b.chunks, j), b.base, MAGIC, c.size, c.req)
  {
    hide BlockOk, ChunkAt;
    if j > 0 && o != j - 1 { AddrsDiffer(b, o, j - 1); }
    if j < |b.chunks| && o != j { AddrsDiffer(b, o, j); }
  }

  lemma PlacedNeighbours(b: Block, j: nat, size: nat, req: nat, i: nat)
    requires j <= |b.chunks| && i <= |b.chunks|
    ensures var cs, cs' := b.chunks, Place(b, j, size, req).chunks;
            var c := NewChunk(b, j, size, req);
            var o := if i < j then i else i - 1;
            if i == j then
              cs'[i] == c && ChunkAt(cs', i - 1) == ChunkAt(cs, j - 1) && ChunkAt(cs', i + 1) == ChunkAt(cs, j)
            else
              && cs'[i] == cs[o]
              && ChunkAt(cs', i - 1) == (if o == j then c.addr else ChunkAt(cs, o - 1))
              && ChunkAt(cs', i + 1) == (if o == j - 1 then c.addr else ChunkAt(cs, o + 1))
  {
    hide NewChunk;
  }

  /** The header found at each chunk of the grown block. */
  lemma LinkInAt(m: Minors, b: Block, j: nat, size: nat, req: nat, i: nat)
    requires BlockOk(b) && MinorsOk(m, b) && j <= |b.chunks| && Fits(b, j, size + 40)
    requires i <= |b.chunks|
    ensures var c := NewChunk(b, j, size, req);
            var b' := Place(b, j, size, req);
            var m' := LinkIn(m, b, j, c);
            b'.chunks[i].addr in m' && m'[b'.chunks[i].addr] == MinorFor(b', i)
  {
    hide BlockOk, ChunkAt, LinkIn, NewChunk, Fits;
    var c := NewChunk(b, j, size, req);
    PlacedNeighbours(b, j, size, req, i);
    forall x | 0 <= x < |b.chunks| ensures b.chunks[x].addr != c.addr {
      NewChunkBetween(b, j, size, req, x);
    }
    if i != j {
      var o := if i < j then i else i - 1;
      assert m[b.chunks[o].addr] == MinorFor(b, o);
      LinkInReads(m, b, j, c, o);
    } else if |b.chunks| > 0 {
      LinkInReads(m, b, j, c, 0);
    } else {
      LinkInEmpty(m, b, c);
    }
  }

  lemma LinkInEmpty(m: Minors, b: Block, c: Chunk)
    requires b.chunks == []
    ensures c.addr in LinkIn(m, b, 0, c)
    ensures LinkIn(m, b, 0, c)[c.addr] == Minor(0, 0, b.base, MAGIC, c.size, c.req)
    ensures ChunkAt(b.chunks, -1) == 0 == ChunkAt(b.chunks, 0)
  {
  }

  function MajorPlaced(majors: Majors, base: nat, size: nat, first: nat): Majors
    requires base in majors
  {
    majors[base := majors[base].(usage := majors[base].usage + size + 40, first := first)]
  }

  lemma BasesDiffer(blocks: seq<Block>, i: nat, k: nat)
    requires LayoutOk(blocks) && i < |blocks| && k < |blocks| && i != k
    ensures blocks[i].base != blocks[k].base
  {
    assert BlockOk(blocks[i]) && BlockOk(blocks[k]);
    assert Apart(blocks[i], blocks[k]);
  }

  lemma MajorAt(majors: Majors, blocks: seq<Block>, i: nat)
    requires MajorsOk(majors, blocks) && i < |blocks|
    ensures blocks[i].base in majors && majors[blocks[i].base] == MajorFor(blocks, i)
  {
  }

  lemma BlockParts(majors: Majors, minors: Minors, ram: Ram, blocks: seq<Block>, k: nat)
    requires Wired(majors, minors, ram, blocks) && k < |blocks|
    ensures BlockOk(blocks[k]) && MinorsOk(minors, blocks[k]) && BacksOk(ram, blocks[k])
            && MinorsPresent(minors, blocks[k])
    ensures blocks[k].base in majors && majors[blocks[k].base] == MajorFor(blocks, k)
  {
  }

  /** Changing one block's chunks touches only that block's header. */
  lemma MajorChanged(majors: Majors, blocks: seq<Block>, k: nat, b: Block)
    requires LayoutOk(blocks) && MajorsOk(majors, blocks) && k < |blocks|
    requires b.base == blocks[k].base && b.pages == blocks[k].pages
    ensures MajorsOk(majors[b.base := MajorFor(blocks[k := b], k)], blocks[k := b])
  {
    hide LayoutOk, Usage, ChunkAt;
    var blocks' := blocks[k := b];
    forall i | 0 <= i < |blocks'|
      ensures var m := majors[b.base := MajorFor(blocks', k)];
              blocks'[i].base in m && m[blocks'[i].base] == MajorFor(blocks', i)
    {
      hide MajorsOk;
      if i != k {
        BasesDiffer(blocks, i, k);
        MajorAt(majors, blocks, i);
        assert BlockAt(blocks', i - 1) == BlockAt(blocks, i - 1) && BlockAt(blocks', i + 1) == BlockAt(blocks, i + 1);
      }
    }
  }

  /** Every one of kmalloc's placement cases keeps the heap wired. */
  lemma PlaceWired(majors: Majors, minors: Minors, ram: Ram, blocks: seq<Block>, k: nat, j: nat, size: nat, req: nat)
    requires Wired(majors, minors, ram, blocks) && k < |blocks| && j <= |blocks[k].chunks|
    requires Fits(blocks[k], j, size + 40) && req + 32 <= size
    ensures var b := blocks[k];
            var c := NewChunk(b, j, size, req);
            && b.base in majors && MinorsPresent(minors, b)
            && Wired(MajorPlaced(majors, b.base, size, if j == 0 then c.addr else majors[b.base].first),
                     LinkIn(minors, b, j, c), ram[BackAddr(c) := BackOffset(c)],
                     blocks[k := Place(b, j, size, req)])
  {
    hide BlockOk, MinorsOk, BacksOk, LocalChange, LinkIn, Apart, LayoutOk, MajorsOk, ChunksOk, Usage, BackAddr,
      BackOffset, Fits;
    var b := blocks[k];
    var c := NewChunk(b, j, size, req);
    var b' := Place(b, j, size, req);
    BlockParts(majors, minors, ram, blocks, k);
    LinkInOk(minors, ram, b, j, size, req);
    PlaceUsage(b, j, size, req);
    MajorChanged(majors, blocks, k, b');
    ChangeOneBlock(minors, LinkIn(minors, b, j, c), ram, ram[BackAddr(c) := BackOffset(c)], blocks, k, b');
    assert ChunkAt(b'.chunks, 0) == if j == 0 then c.addr else ChunkAt(b.chunks, 0);
    assert MajorFor(blocks[k := b'], k) ==
           majors[b.base].(usage := majors[b.base].usage + size + 40, first := ChunkAt(b'.chunks, 0));
  }

  // ---------- unlinking a chunk ----------

  /** The pointer writes of kfree on the chunk at position j. */
  function Unlink(m: Minors, b: Block, j: nat): Minors
    requires j < |b.chunks| && MinorsPresent(m, b)
  {
    var a := b.chunks[j].addr;
    var m1 := m[a := m[a].(magic := DEAD)];
    var m2 := if j + 1 >= |b.chunks| then m1
              else m1[b.chunks[j + 1].addr := m1[b.chunks[j + 1].addr].(prev := ChunkAt(b.chunks, j - 1))];
    if j > 0 then m2[b.chunks[j - 1].addr := m2[b.chunks[j - 1].addr].(next := ChunkAt(b.chunks, j + 1))] else m2
  }

  lemma AddrsDiffer(b: Block, x: nat, y: nat)
    requires BlockOk(b) && x < |b.chunks| && y < |b.chunks| && x != y
    ensures b.chunks[x].addr != b.chunks[y].addr
  {
    if x < y { Ordered(b, x, y); } else { Ordered(b, y, x); }
  }

  /** What unlinking chunk j does to the header of another chunk. */
  lemma UnlinkReads(m: Minors, b: Block, j: nat, o: nat)
    requires BlockOk(b) && MinorsPresent(m, b) && j < |b.chunks| && o < |b.chunks| && o != j
    ensures var x := b.chunks[o].addr;
            && x in Unlink(m, b, j)
            && Unlink(m, b, j)[x] == m[x].(prev := if o == j + 1 then ChunkAt(b.chunks, j - 1) else m[x].prev,
                                           next := if o == j - 1 then ChunkAt(b.chunks, j + 1) else m[x].next)
  {
    hide BlockOk, ChunkAt;
    AddrsDiffer(b, o, j);
    if j > 0 && o != j - 1 { AddrsDiffer(b, o, j - 1); }
    if j + 1 < |b.chunks| && o != j + 1 { AddrsDiffer(b, o, j + 1); }
  }

  lemma RemovedNeighbours(cs: seq<Chunk>, j: nat, i: nat)
    requires j < |cs| && i < |cs| - 1
    ensures var cs' := cs[..j] + cs[j + 1..];
            var o := if i < j then i else i + 1;
            && cs'[i] == cs[o]
            && ChunkAt(cs', i - 1) == (if o == j + 1 then ChunkAt(cs, j - 1) else ChunkAt(cs, o - 1))
            && ChunkAt(cs', i + 1) == (if o == j - 1 then ChunkAt(cs, j + 1) else ChunkAt(cs, o + 1))
  {
  }

  lemma UnlinkAt(m: Minors, b: Block, j: nat, i: nat)
    requires BlockOk(b) && MinorsOk(m, b) && j < |b.chunks| && i < |b.chunks| - 1
    ensures var b' := Remove(b, j);
            var m' := Unlink(m, b, j);
            b'.chunks[i].addr in m' && m'[b'.chunks[i].addr] == MinorFor(b', i)
  {
    var o := if i < j then i else i + 1;
    assert m[b.chunks[o].addr] == MinorFor(b, o);
    hide BlockOk, ChunkAt, Unlink;
    UnlinkReads(m, b, j, o);
    RemovedNeighbours(b.chunks, j, i);
  }

  lemma UnlinkOk(m: Minors, ram: Ram, b: Block, j: nat)
    requires BlockOk(b) && MinorsOk(m, b) && BacksOk(ram, b) && j < |b.chunks|
    ensures var b' := Remove(b, j);
            BlockOk(b') && MinorsOk(Unlink(m, b, j), b') && BacksOk(ram, b')
            && LocalChange(m, Unlink(m, b, j), ram, ram, b')
  {
    hide BlockOk, Payload, BackAddr, BackOffset, MinorFor;
    RemoveOk(b, j);
    forall i | 0 <= i < |b.chunks| - 1
      ensures var b' := Remove(b, j);
              b'.chunks[i].addr in Unlink(m, b, j) && Unlink(m, b, j)[b'.chunks[i].addr] == MinorFor(b', i)
    {
      hide Unlink;
      UnlinkAt(m, b, j, i);
    }
    Within(b, j);
    if j > 0 { Within(b, j - 1); }
    if j + 1 < |b.chunks| { Within(b, j + 1); }
  }

  function MajorFreed(majors: Majors, base: nat, size: nat, first: nat): Majors
    requires base in majors && size + 40 <= majors[base].usage
  {
    majors[base := majors[base].(usage := majors[base].usage - (size + 40), first := first)]
  }

  lemma UnlinkWired(majors: Majors, minors: Minors, ram: Ram, blocks: seq<Block>, k: nat, j: nat)
    requires Wired(majors, minors, ram, blocks) && k < |blocks| && j < |blocks[k].chunks|
    ensures var b := blocks[k];
            && b.base in majors && MinorsPresent(minors, b) && b.chunks[j].size + 40 <= majors[b.base].usage
            && Wired(MajorFreed(majors, b.base, b.chunks[j].size,
                if j == 0 then ChunkAt(b.chunks, 1) else majors[b.base].first),
                     Unlink(minors, b, j), ram, blocks[k := Remove(b, j)])
  {
    hide BlockOk, MinorsOk, BacksOk, LocalChange, Unlink, Apart, LayoutOk, MajorsOk, ChunksOk, Usage;
    var b := blocks[k];
    var b' := Remove(b, j);
    BlockParts(majors, minors, ram, blocks, k);
    UnlinkOk(minors, ram, b, j);
    UsageSplit(b.chunks, j);
    MajorChanged(majors, blocks, k, b');
    ChangeOneBlock(minors, Unlink(minors, b, j), ram, ram, blocks, k, b');
    assert ChunkAt(b'.chunks, 0) == if j == 0 then ChunkAt(b.chunks, 1) else ChunkAt(b.chunks, 0);
    assert MajorFor(blocks[k := b'], k) ==
           majors[b.base].(usage := majors[b.base].usage - (b.chunks[j].size + 40), first := ChunkAt(b'.chunks, 0));
  }

  // ---------- adding and dropping a block ----------

  ghost predicate FreshRange(blocks: seq<Block>, base: nat, pages: nat) {
    && BlockOk(Block(base, pages, []))
    && forall i :: 0 <= i < |blocks| ==> Apart(blocks[i], Block(base, pages, []))
  }

  /** A new block linked after the last one. */
  function Appended(majors: Majors, last: nat, base: nat, pages: nat): Majors
    requires last == 0 || last in majors
  {
    var m := majors[base := Major(last, 0, pages, pages * 4096, 40, 0)];
    if last == 0 then m else m[last := majors[last].(next := base)]
  }

  lemma AppendWired(majors: Majors, minors: Minors, ram: Ram, blocks: seq<Block>, base: nat, pages: nat)
    requires Wired(majors, minors, ram, blocks) && FreshRange(blocks, base, pages)
    ensures var last := BlockAt(blocks, |blocks| - 1);
            && (last == 0 || last in majors)
            && Wired(Appended(majors, last, base, pages), minors, ram, blocks + [Block(base, pages, [])])
  {
    var b := Block(base, pages, []);
    var blocks' := blocks + [b];
    var last := BlockAt(blocks, |blocks| - 1);
    assert MinorsOk(minors, b) && BacksOk(ram, b);
    if blocks != [] {
      assert BlockOk(blocks[|blocks| - 1]) && majors[last] == MajorFor(blocks, |blocks| - 1);
    }
    hide MinorsOk, BacksOk;
    forall i | 0 <= i < |blocks'|
      ensures var m := Appended(majors, last, base, pages);
              blocks'[i].base in m && m[blocks'[i].base] == MajorFor(blocks', i)
    {
      AppendedMajor(majors, blocks, base, pages, i);
    }
  }

  lemma FreshBase(blocks: seq<Block>, base: nat, pages: nat, i: nat)
    requires LayoutOk(blocks) && FreshRange(blocks, base, pages) && i < |blocks|
    ensures blocks[i].base != base && blocks[i].base != 0
  {
    assert BlockOk(blocks[i]) && Apart(blocks[i], Block(base, pages, []));
  }

  lemma AppendedNeighbours(blocks: seq<Block>, b: Block, i: nat)
    requires i <= |blocks|
    ensures var blocks' := blocks + [b];
            && blocks'[i] == (if i < |blocks| then blocks[i] else b)
            && BlockAt(blocks', i - 1) == BlockAt(blocks, i - 1)
            && BlockAt(blocks', i + 1) == if i == |blocks| - 1 then b.base else BlockAt(blocks, i + 1)
    ensures i >= |blocks| - 1 ==> BlockAt(blocks, i + 1) == 0
    ensures BlockAt(blocks, |blocks| - 1) == if blocks == [] then 0 else blocks[|blocks| - 1].base
    ensures ChunkAt([], 0) == 0 && Usage([]) == 0
  {
  }

  lemma AppendedMajor(majors: Majors, blocks: seq<Block>, base: nat, pages: nat, i: nat)
    requires LayoutOk(blocks) && MajorsOk(majors, blocks) && FreshRange(blocks, base, pages) && i <= |blocks|
    requires var last := BlockAt(blocks, |blocks| - 1); last == 0 || last in majors
    ensures var blocks' := blocks + [Block(base, pages, [])];
            var m := Appended(majors, BlockAt(blocks, |blocks| - 1), base, pages);
            blocks'[i].base in m && m[blocks'[i].base] == MajorFor(blocks', i)
  {
    hide Usage, MajorsOk, LayoutOk, FreshRange, BlockAt, ChunkAt;
    AppendedNeighbours(blocks, Block(base, pages, []), i);
    if blocks != [] {
      FreshBase(blocks, base, pages, |blocks| - 1);
    }
    if i < |blocks| {
      FreshBase(blocks, base, pages, i);
      MajorAt(majors, blocks, i);
      if i < |blocks| - 1 {
        BasesDiffer(blocks, i, |blocks| - 1);
      }
    }
  }

  /** The pointer writes that take an empty block out of the list. */
  function Dropped(majors: Majors, blocks: seq<Block>, k: nat): Majors
    requires k < |blocks| && MajorsPresent(majors, blocks)
  {
    var m1 := if k == 0 then majors
              else majors[blocks[k - 1].base := majors[blocks[k - 1].base].(next := BlockAt(blocks, k + 1))];
    var m2 := if k + 1 >= |blocks| then m1
              else m1[blocks[k + 1].base := m1[blocks[k + 1].base].(prev := BlockAt(blocks, k - 1))];
    m2 - {blocks[k].base}
  }

  predicate MajorsPresent(majors: Majors, blocks: seq<Block>) {
    forall i :: 0 <= i < |blocks| ==> blocks[i].base in majors
  }

  lemma DropReads(majors: Majors, blocks: seq<Block>, k: nat, o: nat)
    requires LayoutOk(blocks) && MajorsPresent(majors, blocks) && k < |blocks| && o < |blocks| && o != k
    ensures var x := blocks[o].base;
            && x in Dropped(majors, blocks, k)
            && Dropped(majors, blocks, k)[x] ==
               majors[x].(prev := if o == k + 1 then BlockAt(blocks, k - 1) else majors[x].prev,
                          next := if o == k - 1 then BlockAt(blocks, k + 1) else majors[x].next)
  {
    hide LayoutOk, BlockAt;
    BasesDiffer(blocks, o, k);
    if k > 0 && o != k - 1 { BasesDiffer(blocks, o, k - 1); }
    if k + 1 < |blocks| && o != k + 1 { BasesDiffer(blocks, o, k + 1); }
  }

  lemma DroppedNeighbours(blocks: seq<Block>, k: nat, i: nat)
    requires k < |blocks| && i < |blocks| - 1
    ensures var rest := blocks[..k] + blocks[k + 1..];
            var o := if i < k then i else i + 1;
            && rest[i] == blocks[o]
            && BlockAt(rest, i - 1) == (if o == k + 1 then BlockAt(blocks, k - 1) else BlockAt(blocks, o - 1))
            && BlockAt(rest, i + 1) == (if o == k - 1 then BlockAt(blocks, k + 1) else BlockAt(blocks, o + 1))
  {
  }

  lemma DroppedMajor(majors: Majors, blocks: seq<Block>, k: nat, i: nat)
    requires LayoutOk(blocks) && MajorsOk(majors, blocks) && k < |blocks| && i < |blocks| - 1
    ensures var rest := blocks[..k] + blocks[k + 1..];
            var m := Dropped(majors, blocks, k);
            rest[i].base in m && m[rest[i].base] == MajorFor(rest, i)
  {
    hide LayoutOk, Usage, BlockAt, ChunkAt, Dropped;
    var o := if i < k then i else i + 1;
    MajorAt(majors, blocks, o);
    DropReads(majors, blocks, k, o);
    DroppedNeighbours(blocks, k, i);
  }

  lemma DropWired(majors: Majors, minors: Minors, ram: Ram, blocks: seq<Block>, k: nat)
    requires Wired(majors, minors, ram, blocks) && k < |blocks|
    ensures MajorsPresent(majors, blocks)
    ensures Wired(Dropped(majors, blocks, k), minors, ram, blocks[..k] + blocks[k + 1..])
  {
    hide BlockOk, MinorsOk, BacksOk, Apart, Dropped, MajorFor;
    var rest := blocks[..k] + blocks[k + 1..];
    forall i | 0 <= i < |rest|
      ensures BlockOk(rest[i]) && MinorsOk(minors, rest[i]) && BacksOk(ram, rest[i])
      ensures rest[i].base in Dropped(majors, blocks, k)
              && Dropped(majors, blocks, k)[rest[i].base] == MajorFor(rest, i)
    {
      DroppedMajor(majors, blocks, k, i);
      hide LayoutOk, MajorsOk, ChunksOk;
      BlockParts(majors, minors, ram, blocks, if i < k then i else i + 1);
    }
    forall x, y | 0 <= x < y < |rest|
      ensures Apart(rest[x], rest[y])
    {
      assert Apart(blocks[if x < k then x else x + 1], blocks[if y < k then y else y + 1]);
    }
  }
}
