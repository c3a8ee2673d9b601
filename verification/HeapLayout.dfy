/** The shape of the kernel heap of kernel/src/mm/liballoc/liballoc.c: page-granular blocks, each
    with a 40-byte header followed by chunks in address order, each with its own 40-byte header. */
module HeapLayout {

  datatype Chunk = Chunk(addr: nat, size: nat, req: nat)

  datatype Block = Block(base: nat, pages: nat, chunks: seq<Chunk>)

  function End(c: Chunk): nat {
    c.addr + 40 + c.size
  }

  function BlockEnd(b: Block): nat {
    b.base + b.pages * 4096
  }

  // ---------- well-formed layouts ----------

  ghost predicate InOrder(lo: nat, cs: seq<Chunk>, hi: nat) {
    && lo <= hi
    && (forall j :: 0 <= j < |cs| ==> lo <= cs[j].addr && End(cs[j]) <= hi)
    && (forall i, j :: 0 <= i < j < |cs| ==> End(cs[i]) <= cs[j].addr)
  }

  /** A chunk holds its request, 16 bytes in front of it and 16 bytes of slack. */
  predicate Roomy(c: Chunk) {
    c.req + 32 <= c.size
  }

  ghost predicate BlockOk(b: Block) {
    && 0 < b.base && 0 < b.pages && b.pages * 4096 < 0x1_0000_0000
    && InOrder(b.base + 40, b.chunks, BlockEnd(b))
    && (forall j :: 0 <= j < |b.chunks| ==> Roomy(b.chunks[j]))
  }

  predicate Apart(a: Block, b: Block) {
    BlockEnd(a) <= b.base || BlockEnd(b) <= a.base
  }

  ghost predicate LayoutOk(blocks: seq<Block>) {
    && (forall i :: 0 <= i < |blocks| ==> BlockOk(blocks[i]))
    && (forall i, j :: 0 <= i < j < |blocks| ==> Apart(blocks[i], blocks[j]))
  }

  // ---------- gaps ----------

  /** Gap j lies in front of chunk j; the last gap reaches to the end of the block. */
  function GapStart(b: Block, j: nat): nat
    requires j <= |b.chunks|
  {
    if j == 0 then b.base + 40 else End(b.chunks[j - 1])
  }

  function GapEnd(b: Block, j: nat): nat
    requires j <= |b.chunks|
  {
    if j == |b.chunks| then BlockEnd(b) else b.chunks[j].addr
  }

  predicate Fits(b: Block, j: nat, need: nat)
    requires j <= |b.chunks|
  {
    GapStart(b, j) + need <= GapEnd(b, j)
  }

  ghost predicate HasFit(b: Block, need: nat) {
    exists j :: 0 <= j <= |b.chunks| && Fits(b, j, need)
  }

  ghost predicate FirstFit(b: Block, j: nat, need: nat) {
    && j <= |b.chunks| && Fits(b, j, need)
    && forall i :: 0 <= i < j ==> !Fits(b, i, need)
  }

  function Usage(cs: seq<Chunk>): nat {
    if cs == [] then 0 else Usage(cs[..|cs| - 1]) + 40 + cs[|cs| - 1].size
  }

  /** The accounting of a block: its size less its usage. */
  function FreeBytes(b: Block): int {
    b.pages * 4096 - (40 + Usage(b.chunks))
  }

  /** The lengths of gaps 0 to n - 1. */
  ghost function GapSum(b: Block, n: nat): int
    requires n <= |b.chunks| + 1
  {
    if n == 0 then 0 else GapSum(b, n - 1) + GapEnd(b, n - 1) - GapStart(b, n - 1)
  }

  lemma {:induction false} GapsBefore(b: Block, n: nat)
    requires n <= |b.chunks|
    ensures GapSum(b, n) + Usage(b.chunks[..n]) == GapStart(b, n) - (b.base + 40)
  {
    if n > 0 {
      GapsBefore(b, n - 1);
      assert b.chunks[..n][..n - 1] == b.chunks[..n - 1];
    }
  }

  /** Size less usage is exactly the sum of all gaps. */
  lemma AccountingIsGaps(b: Block)
    ensures FreeBytes(b) == GapSum(b, |b.chunks| + 1)
  {
    GapsBefore(b, |b.chunks|);
    assert b.chunks[..|b.chunks|] == b.chunks;
  }

  lemma {:induction false} GapWithin(b: Block, j: nat, n: nat)
    requires BlockOk(b) && j < n <= |b.chunks| + 1
    ensures 0 <= GapEnd(b, j) - GapStart(b, j) <= GapSum(b, n)
  {
    GapNonnegative(b, n - 1);
    if j < n - 1 {
      GapWithin(b, j, n - 1);
    } else if n > 1 {
      GapWithin(b, 0, n - 1);
    }
  }

  lemma GapNonnegative(b: Block, j: nat)
    requires BlockOk(b) && j <= |b.chunks|
    ensures GapStart(b, j) <= GapEnd(b, j)
  {
  }

  /** The early skip of a block never passes over a gap that fits. */
  lemma SkipIsSafe(b: Block, need: nat)
    requires BlockOk(b) && FreeBytes(b) < need
    ensures !HasFit(b, need)
  {
    AccountingIsGaps(b);
    forall j | 0 <= j <= |b.chunks|
      ensures !Fits(b, j, need)
    {
      GapWithin(b, j, |b.chunks| + 1);
    }
  }

  lemma FreeNonnegative(b: Block)
    requires BlockOk(b)
    ensures FreeBytes(b) >= 0
  {
    AccountingIsGaps(b);
    GapWithin(b, 0, |b.chunks| + 1);
  }

  lemma EmptyFits(b: Block, need: nat)
    requires b.chunks == [] && need <= FreeBytes(b)
    ensures FirstFit(b, 0, need)
  {
  }

  // ---------- alignment ----------

  /** Where ALIGN moves a pointer to the body of a chunk. */
  function AlignUp16(body: nat): (p: nat)
    ensures p % 16 == 0 && body + 16 <= p < body + 32
  {
    var q := body + 16;
    if q % 16 == 0 then q else q + (16 - q % 16)
  }

  /** The pointer handed to the caller. */
  function Payload(c: Chunk): nat {
    AlignUp16(c.addr + 40)
  }

  /** Where ALIGN stores how far it moved the pointer: 16 bytes in front of the payload. */
  function BackAddr(c: Chunk): nat {
    Payload(c) - 16
  }

  /** The distance it stores there. */
  function BackOffset(c: Chunk): nat {
    Payload(c) - (c.addr + 40)
  }

  // ---------- placing and removing a chunk ----------

  function NewChunk(b: Block, j: nat, size: nat, req: nat): Chunk
    requires j <= |b.chunks|
  {
    Chunk(GapStart(b, j), size, req)
  }

  function Place(b: Block, j: nat, size: nat, req: nat): Block
    requires j <= |b.chunks|
  {
    b.(chunks := b.chunks[..j] + [NewChunk(b, j, size, req)] + b.chunks[j..])
  }

  function Remove(b: Block, j: nat): Block
    requires j < |b.chunks|
  {
    b.(chunks := b.chunks[..j] + b.chunks[j + 1..])
  }

  lemma Within(b: Block, x: nat)
    requires BlockOk(b) && x < |b.chunks|
    ensures b.base + 40 <= b.chunks[x].addr && End(b.chunks[x]) <= BlockEnd(b) && Roomy(b.chunks[x])
  {
  }

  lemma Ordered(b: Block, x: nat, y: nat)
    requires BlockOk(b) && x < y < |b.chunks|
    ensures End(b.chunks[x]) <= b.chunks[y].addr
  {
  }

  /** A chunk put into a gap lies between the chunks on either side. */
  lemma NewChunkBetween(b: Block, j: nat, size: nat, req: nat, x: nat)
    requires BlockOk(b) && j <= |b.chunks| && Fits(b, j, size + 40) && x < |b.chunks|
    ensures x < j ==> End(b.chunks[x]) <= NewChunk(b, j, size, req).addr
    ensures x >= j ==> End(NewChunk(b, j, size, req)) <= b.chunks[x].addr
  {
    hide BlockOk;
    if x < j - 1 {
      Ordered(b, x, j - 1);
    } else if x > j {
      Ordered(b, j, x);
    }
  }

  function PlacedAt(b: Block, j: nat, size: nat, req: nat, i: nat): (c: Chunk)
    requires j <= |b.chunks| && i <= |b.chunks|
    ensures c == Place(b, j, size, req).chunks[i]
  {
    if i < j then b.chunks[i] else if i == j then NewChunk(b, j, size, req) else b.chunks[i - 1]
  }

  lemma PlacedPair(b: Block, j: nat, size: nat, req: nat, x: nat, y: nat)
    requires BlockOk(b) && j <= |b.chunks| && Fits(b, j, size + 40) && x < y <= |b.chunks|
    ensures End(PlacedAt(b, j, size, req, x)) <= PlacedAt(b, j, size, req, y).addr
  {
    hide BlockOk, Place;
    if y == j {
      NewChunkBetween(b, j, size, req, x);
    } else if x == j {
      NewChunkBetween(b, j, size, req, y - 1);
    } else {
      Ordered(b, if x < j then x else x - 1, if y < j then y else y - 1);
    }
  }

  lemma PlacedWithin(b: Block, j: nat, size: nat, req: nat, i: nat)
    requires BlockOk(b) && j <= |b.chunks| && Fits(b, j, size + 40) && i <= |b.chunks| && req + 32 <= size
    ensures var c := PlacedAt(b, j, size, req, i);
            b.base + 40 <= c.addr && End(c) <= BlockEnd(b) && Roomy(c)
  {
    hide Place;
    if i == j {
    } else {
      Within(b, if i < j then i else i - 1);
    }
  }

  lemma PlaceOk(b: Block, j: nat, size: nat, req: nat)
    requires BlockOk(b) && j <= |b.chunks| && Fits(b, j, size + 40) && req + 32 <= size
    ensures BlockOk(Place(b, j, size, req))
  {
    var cs := Place(b, j, size, req).chunks;
    forall i | 0 <= i < |cs|
      ensures b.base + 40 <= cs[i].addr && End(cs[i]) <= BlockEnd(b) && Roomy(cs[i])
    {
      hide BlockOk;
      PlacedWithin(b, j, size, req, i);
      assert cs[i] == PlacedAt(b, j, size, req, i);
    }
    forall x, y | 0 <= x < y < |cs|
      ensures End(cs[x]) <= cs[y].addr
    {
      hide BlockOk;
      PlacedPair(b, j, size, req, x, y);
      assert cs[x] == PlacedAt(b, j, size, req, x) && cs[y] == PlacedAt(b, j, size, req, y);
    }
  }

  lemma RemoveOk(b: Block, j: nat)
    requires BlockOk(b) && j < |b.chunks|
    ensures BlockOk(Remove(b, j))
  {
    var cs := Remove(b, j).chunks;
    forall x | 0 <= x < |cs|
      ensures b.base + 40 <= cs[x].addr && End(cs[x]) <= BlockEnd(b) && Roomy(cs[x])
    {
      hide BlockOk;
      Within(b, if x < j then x else x + 1);
    }
    forall x, y | 0 <= x < y < |cs|
      ensures End(cs[x]) <= cs[y].addr
    {
      hide BlockOk;
      Ordered(b, if x < j then x else x + 1, if y < j then y else y + 1);
    }
  }

  lemma {:induction false} UsageSplit(cs: seq<Chunk>, j: nat)
    requires j < |cs|
    ensures Usage(cs) == Usage(cs[..j] + cs[j + 1..]) + 40 + cs[j].size
  {
    var n := |cs| - 1;
    if j < n {
      UsageSplit(cs[..n], j);
      var r := cs[..j] + cs[j + 1..];
      assert r[..|r| - 1] == cs[..n][..j] + cs[..n][j + 1..];
    } else {
      assert cs[..j] + cs[j + 1..] == cs[..n];
    }
  }

  lemma PlaceUsage(b: Block, j: nat, size: nat, req: nat)
    requires j <= |b.chunks|
    ensures Usage(Place(b, j, size, req).chunks) == Usage(b.chunks) + 40 + size
    ensures Remove(Place(b, j, size, req), j) == b
  {
    var cs := Place(b, j, size, req).chunks;
    UsageSplit(cs, j);
    assert cs[..j] + cs[j + 1..] == b.chunks;
  }

  // ---------- whole heaps ----------

  function TotalSize(cs: seq<Chunk>): nat {
    if cs == [] then 0 else TotalSize(cs[..|cs| - 1]) + cs[|cs| - 1].size
  }

  /** Bytes in live chunks (l_inuse). */
  function InUse(blocks: seq<Block>): nat {
    if blocks == [] then 0 else InUse(blocks[..|blocks| - 1]) + TotalSize(blocks[|blocks| - 1].chunks)
  }

  /** Bytes in blocks (l_allocated). */
  function Allocated(blocks: seq<Block>): nat {
    if blocks == [] then 0 else Allocated(blocks[..|blocks| - 1]) + blocks[|blocks| - 1].pages * 4096
  }

  function ChunkCount(blocks: seq<Block>): nat {
    if blocks == [] then 0 else ChunkCount(blocks[..|blocks| - 1]) + |blocks[|blocks| - 1].chunks|
  }

  lemma {:induction false} TotalSplit(cs: seq<Chunk>, j: nat)
    requires j < |cs|
    ensures TotalSize(cs) == TotalSize(cs[..j] + cs[j + 1..]) + cs[j].size
  {
    var n := |cs| - 1;
    if j < n {
      TotalSplit(cs[..n], j);
      var r := cs[..j] + cs[j + 1..];
      assert r[..|r| - 1] == cs[..n][..j] + cs[..n][j + 1..];
    } else {
      assert cs[..j] + cs[j + 1..] == cs[..n];
    }
  }

  lemma {:induction false} SumUpdate(blocks: seq<Block>, k: nat, b: Block)
    requires k < |blocks|
    ensures InUse(blocks[k := b]) == InUse(blocks) - TotalSize(blocks[k].chunks) + TotalSize(b.chunks)
    ensures Allocated(blocks[k := b]) == Allocated(blocks) - blocks[k].pages * 4096 + b.pages * 4096
    ensures ChunkCount(blocks[k := b]) == ChunkCount(blocks) - |blocks[k].chunks| + |b.chunks|
  {
    var n := |blocks| - 1;
    if k < n {
      SumUpdate(blocks[..n], k, b);
      assert blocks[k := b][..n] == blocks[..n][k := b];
    } else {
      assert blocks[k := b][..n] == blocks[..n];
    }
  }

  lemma {:induction false} SumDrop(blocks: seq<Block>, k: nat)
    requires k < |blocks|
    ensures var rest := blocks[..k] + blocks[k + 1..];
            && InUse(rest) == InUse(blocks) - TotalSize(blocks[k].chunks)
            && Allocated(rest) == Allocated(blocks) - blocks[k].pages * 4096
            && ChunkCount(rest) == ChunkCount(blocks) - |blocks[k].chunks|
  {
    var n := |blocks| - 1;
    if k < n {
      SumDrop(blocks[..n], k);
      var rest := blocks[..k] + blocks[k + 1..];
      assert rest[..|rest| - 1] == blocks[..n][..k] + blocks[..n][k + 1..];
    } else {
      assert blocks[..k] + blocks[k + 1..] == blocks[..n];
    }
  }

  lemma SumAppend(blocks: seq<Block>, b: Block)
    ensures InUse(blocks + [b]) == InUse(blocks) + TotalSize(b.chunks)
    ensures Allocated(blocks + [b]) == Allocated(blocks) + b.pages * 4096
    ensures ChunkCount(blocks + [b]) == ChunkCount(blocks) + |b.chunks|
  {
    assert (blocks + [b])[..|blocks|] == blocks;
  }

  lemma PlaceTotal(b: Block, j: nat, size: nat, req: nat)
    requires j <= |b.chunks|
    ensures TotalSize(Place(b, j, size, req).chunks) == TotalSize(b.chunks) + size
  {
    var cs := Place(b, j, size, req).chunks;
    TotalSplit(cs, j);
    assert cs[..j] + cs[j + 1..] == b.chunks;
  }

  // ---------- the specification of kmalloc and kfree ----------

  /** The block list before placement when block k is used; k == |blocks| means a fresh block. */
  function Grown(blocks: seq<Block>, k: nat, page: nat, pages: nat): seq<Block> {
    if k < |blocks| then blocks else blocks + [Block(page, pages, [])]
  }

  function MallocSpec(blocks: seq<Block>, k: nat, j: nat, page: nat, pages: nat, size: nat, req: nat): seq<Block>
    requires k <= |blocks| && (k < |blocks| ==> j <= |blocks[k].chunks|) && (k == |blocks| ==> j == 0)
  {
    var g := Grown(blocks, k, page, pages);
    g[k := Place(g[k], j, size, req)]
  }

  function FreeSpec(blocks: seq<Block>, k: nat, j: nat): seq<Block>
    requires k < |blocks| && j < |blocks[k].chunks|
  {
    if |blocks[k].chunks| == 1 then blocks[..k] + blocks[k + 1..]
    else blocks[k := Remove(blocks[k], j)]
  }

  ghost predicate NoneEmpty(blocks: seq<Block>) {
    forall k :: 0 <= k < |blocks| ==> blocks[k].chunks != []
  }

  /** kfree undoes kmalloc: the blocks and chunks are exactly those from before, for every placement. */
  lemma FreeUndoesMalloc(blocks: seq<Block>, k: nat, j: nat, page: nat, pages: nat, size: nat, req: nat)
    requires NoneEmpty(blocks)
    requires k <= |blocks| && (k < |blocks| ==> j <= |blocks[k].chunks|) && (k == |blocks| ==> j == 0)
    ensures FreeSpec(MallocSpec(blocks, k, j, page, pages, size, req), k, j) == blocks
  {
    var g := Grown(blocks, k, page, pages);
    PlaceUsage(g[k], j, size, req);
    assert k < |blocks| ==> |blocks[k].chunks| > 0;
    if k == |blocks| {
      var m := g[k := Place(g[k], j, size, req)];
      assert m[..k] + m[k + 1..] == blocks;
    } else {
      assert g[k := Place(g[k], j, size, req)][k := g[k]] == blocks;
    }
  }

  lemma FreeSpecSums(blocks: seq<Block>, k: nat, j: nat)
    requires k < |blocks| && j < |blocks[k].chunks|
    ensures InUse(FreeSpec(blocks, k, j)) == InUse(blocks) - blocks[k].chunks[j].size
    ensures ChunkCount(FreeSpec(blocks, k, j)) == ChunkCount(blocks) - 1
    ensures Allocated(FreeSpec(blocks, k, j)) ==
            Allocated(blocks) - (if |blocks[k].chunks| == 1 then blocks[k].pages * 4096 else 0)
    ensures NoneEmpty(blocks) ==> NoneEmpty(FreeSpec(blocks, k, j))
  {
    TotalSplit(blocks[k].chunks, j);
    if |blocks[k].chunks| == 1 {
      SumDrop(blocks, k);
      assert blocks[k].chunks[..j] + blocks[k].chunks[j + 1..] == [];
    } else {
      SumUpdate(blocks, k, Remove(blocks[k], j));
    }
  }

  /** A run of frees, each naming a live chunk at the time. */
  ghost predicate Frees(blocks: seq<Block>, order: seq<(nat, nat)>, end: seq<Block>)
    decreases |order|
  {
    if order == [] then blocks == end
    else
      var (k, j) := order[0];
      k < |blocks| && j < |blocks[k].chunks| && Frees(FreeSpec(blocks, k, j), order[1..], end)
  }

  /** Freeing as many chunks as are live, in any order, returns every block. */
  lemma {:induction false} FreeAll(blocks: seq<Block>, order: seq<(nat, nat)>, end: seq<Block>)
    requires NoneEmpty(blocks) && Frees(blocks, order, end)
    ensures |order| <= ChunkCount(blocks)
    ensures |order| == ChunkCount(blocks) <==> end == []
    ensures |order| == ChunkCount(blocks) ==> Allocated(end) == 0 && InUse(end) == 0
    decreases |order|
  {
    if order == [] {
      if blocks != [] {
        assert blocks[|blocks| - 1].chunks != [];
      }
    } else {
      var (k, j) := order[0];
      FreeSpecSums(blocks, k, j);
      FreeAll(FreeSpec(blocks, k, j), order[1..], end);
    }
  }

  // ---------- safety of live payloads ----------

  predicate Disjoint(a: nat, n: nat, b: nat, m: nat) {
    a + n <= b || b + m <= a
  }

  /** Payload, back-offset byte and header of a chunk, in that chunk and nowhere else. */
  lemma PayloadInside(c: Chunk)
    requires Roomy(c)
    ensures Payload(c) % 16 == 0
    ensures c.addr + 40 <= BackAddr(c) == Payload(c) - 16 && Payload(c) + c.req < End(c)
    ensures 16 <= BackOffset(c) < 32
  {
  }

  /** Any two chunks of a heap are the same chunk or lie apart. */
  lemma ChunksApart(blocks: seq<Block>, k: nat, j: nat, k': nat, j': nat)
    requires LayoutOk(blocks) && k < |blocks| && j < |blocks[k].chunks| && k' < |blocks| && j' < |blocks[k'].chunks|
    requires (k, j) != (k', j')
    ensures var c, d := blocks[k].chunks[j], blocks[k'].chunks[j']; Disjoint(c.addr, 40 + c.size, d.addr, 40 + d.size)
  {
    assert BlockOk(blocks[k]) && BlockOk(blocks[k']);
    if k != k' {
      assert Apart(blocks[k], blocks[k']);
    }
  }

  lemma ChunkApartFromBlockHeader(blocks: seq<Block>, k: nat, j: nat, k': nat)
    requires LayoutOk(blocks) && k < |blocks| && j < |blocks[k].chunks| && k' < |blocks|
    ensures var c := blocks[k].chunks[j]; Disjoint(c.addr, 40 + c.size, blocks[k'].base, 40)
  {
    assert BlockOk(blocks[k]) && BlockOk(blocks[k']);
    if k != k' {
      assert Apart(blocks[k], blocks[k']);
    }
  }

  /** Live payloads are aligned and large enough; no payload meets another payload, any chunk
      header, any block header or any stored back-offset byte. */
  lemma PayloadsSafe(blocks: seq<Block>, k: nat, j: nat, k': nat, j': nat)
    requires LayoutOk(blocks) && k < |blocks| && j < |blocks[k].chunks| && k' < |blocks| && j' < |blocks[k'].chunks|
    ensures var c, d := blocks[k].chunks[j], blocks[k'].chunks[j'];
            && Payload(c) % 16 == 0
            && blocks[k].base < Payload(c) && Payload(c) + c.req <= BlockEnd(blocks[k])
            && ((k, j) != (k', j') ==> Disjoint(Payload(c), c.req, Payload(d), d.req))
            && Disjoint(Payload(c), c.req, d.addr, 40)
            && Disjoint(Payload(c), c.req, BackAddr(d), 1)
            && Disjoint(Payload(c), c.req, blocks[k'].base, 40)
  {
    assert BlockOk(blocks[k]) && BlockOk(blocks[k']);
    PayloadInside(blocks[k].chunks[j]);
    PayloadInside(blocks[k'].chunks[j']);
    ChunkApartFromBlockHeader(blocks, k, j, k');
    if (k, j) != (k', j') {
      ChunksApart(blocks, k, j, k', j');
    }
  }
}
