/** Whole runs of the kernel heap: callers allocate, store into their payloads, resize and free, in any
    order, and every payload behaves as a piece of memory of its own. */
module HeapRuns {
  import opened HeapLayout
  import opened HeapWiring
  import opened Heap

  /** The part of the heap that callers can tell apart: chunks and bytes. */
  datatype HeapView = HeapView(blocks: seq<Block>, ram: Ram)

  /** A call with the page source's answer and the pointer returned. */
  datatype Op =
    | Malloc(req: nat, page: nat, p: nat)
    | Free(p: nat)
    | Realloc(p: nat, size: nat, page: nat, q: nat)
    | Store(p: nat, i: nat, v: nat)

  // ---------- live chunks ----------

  ghost predicate HasChunk(blocks: seq<Block>, c: Chunk) {
    exists k: nat, j: nat :: IsChunk(blocks, k, j) && blocks[k].chunks[j] == c
  }

  ghost predicate LivePointer(blocks: seq<Block>, p: nat) {
    exists c :: HasChunk(blocks, c) && Payload(c) == p
  }

  predicate ChunksDisjoint(c: Chunk, d: Chunk) {
    Disjoint(c.addr, 40 + c.size, d.addr, 40 + d.size)
  }

  lemma HasAt(blocks: seq<Block>, k: nat, j: nat)
    requires IsChunk(blocks, k, j)
    ensures HasChunk(blocks, blocks[k].chunks[j])
  {
  }

  lemma DistinctApart(blocks: seq<Block>, c: Chunk, d: Chunk)
    requires LayoutOk(blocks) && HasChunk(blocks, c) && HasChunk(blocks, d) && c != d
    ensures ChunksDisjoint(c, d)
  {
    var k: nat, j: nat :| IsChunk(blocks, k, j) && blocks[k].chunks[j] == c;
    var k': nat, j': nat :| IsChunk(blocks, k', j') && blocks[k'].chunks[j'] == d;
    ChunksApart(blocks, k, j, k', j');
  }

  lemma RoomyChunk(blocks: seq<Block>, c: Chunk)
    requires LayoutOk(blocks) && HasChunk(blocks, c)
    ensures Roomy(c) && exists k: nat :: k < |blocks| && blocks[k].base < c.addr
  {
    var k: nat, j: nat :| IsChunk(blocks, k, j) && blocks[k].chunks[j] == c;
    assert BlockOk(blocks[k]);
    Within(blocks[k], j);
  }

  /** A payload lies inside its chunk, behind its back-offset byte, and clear of every other chunk. */
  lemma PayloadApart(blocks: seq<Block>, c: Chunk, d: Chunk)
    requires LayoutOk(blocks) && HasChunk(blocks, c) && HasChunk(blocks, d)
    ensures 0 < c.addr < BackAddr(c) < Payload(c) && Payload(c) + c.req < End(c)
    ensures c != d ==> Disjoint(Payload(c), c.req, d.addr, 40 + d.size)
    ensures Disjoint(Payload(c), c.req, BackAddr(d), 1)
  {
    hide LayoutOk, HasChunk;
    RoomyChunk(blocks, c);
    RoomyChunk(blocks, d);
    PayloadInside(c);
    PayloadInside(d);
    hide Payload, BackAddr;
    if c != d {
      DistinctApart(blocks, c, d);
    }
  }

  /** A pointer has one chunk. */
  lemma PointerUnique(blocks: seq<Block>, c: Chunk, d: Chunk)
    requires LayoutOk(blocks) && HasChunk(blocks, c) && HasChunk(blocks, d) && Payload(c) == Payload(d)
    ensures c == d
  {
    if c != d {
      DistinctApart(blocks, c, d);
      RoomyChunk(blocks, c);
      RoomyChunk(blocks, d);
      PayloadInside(c);
      PayloadInside(d);
    }
  }

  // ---------- what a call does ----------

  /** Calls whose page answer is NULL or fresh, and stores into live payloads only. */
  ghost predicate Enabled(s: HeapView, op: Op) {
    match op
    case Malloc(req, page, _) => page != 0 ==> FreshRange(s.blocks, page, PagesFor(req + 32))
    case Realloc(_, size, page, _) => page != 0 ==> FreshRange(s.blocks, page, PagesFor(size + 32))
    case Store(p, i, v) => exists c :: HasChunk(s.blocks, c) && Payload(c) == p && i < c.req
    case Free(_) => true
  }

  ghost predicate Mallocs(s: HeapView, req: nat, page: nat, p: nat, s': HeapView) {
    if p == 0 then s' == s
    else exists bet: nat, k: nat, j: nat :: MallocDone(s.blocks, s.ram, bet, s'.blocks, s'.ram, page, k, j, req, p)
  }

  ghost predicate Frees(s: HeapView, p: nat, s': HeapView) {
    if LivePointer(s.blocks, p) then
      exists k: nat, j: nat :: IsLive(s.blocks, k, j, p) && s' == s.(blocks := FreeSpec(s.blocks, k, j))
    else s' == s
  }

  /** krealloc on a live pointer with a size that is not 0. */
  ghost predicate Resizes(s: HeapView, p: nat, size: nat, page: nat, q: nat, s': HeapView) {
    exists k: nat, j: nat :: IsLive(s.blocks, k, j, p) && ResizesAt(s, k, j, p, size, page, q, s')
  }

  ghost predicate ResizesAt(s: HeapView, k: nat, j: nat, p: nat, size: nat, page: nat, q: nat, s': HeapView)
    requires IsLive(s.blocks, k, j, p)
  {
    var c := s.blocks[k].chunks[j];
    if size <= c.req then
      q == p && s' == s.(blocks := Resized(s.blocks, k, j, size))
    else if q == 0 then
      AboveNull(s.blocks, c.req) && s'.blocks == FreeSpec(s.blocks, k, j) && Copied(s.ram, s'.ram, 0, p, c.req)
    else
      exists bet: nat, k': nat, j': nat ::
        Moved(s.blocks, s.ram, bet, s'.blocks, s'.ram, page, k, j, k', j', size, p, q)
  }

  ghost predicate Happens(s: HeapView, op: Op, s': HeapView) {
    match op
    case Malloc(req, page, p) => Mallocs(s, req, page, p, s')
    case Free(p) => Frees(s, p, s')
    case Realloc(p, size, page, q) =>
      if size == 0 then q == 0 && Frees(s, p, s')
      else if p == 0 then Mallocs(s, size, page, q, s')
      else if LivePointer(s.blocks, p) then Resizes(s, p, size, page, q, s')
      else q == 0 && s' == s
    case Store(p, i, v) => s' == s.(ram := s.ram[p + i := v])
  }

  // ---------- chunks before and after ----------

  ghost predicate Adds(blocks: seq<Block>, blocks': seq<Block>, c: Chunk) {
    forall d :: HasChunk(blocks', d) <==> HasChunk(blocks, d) || d == c
  }

  ghost predicate Drops(blocks: seq<Block>, blocks': seq<Block>, c: Chunk) {
    forall d :: HasChunk(blocks', d) <==> HasChunk(blocks, d) && d != c
  }

  lemma MallocAdds(blocks: seq<Block>, ram: Ram, bet: nat, blocks': seq<Block>, ram': Ram, page: nat,
                   k: nat, j: nat, req: nat, p: nat) returns (c: Chunk)
    requires MallocDone(blocks, ram, bet, blocks', ram', page, k, j, req, p)
    ensures Adds(blocks, blocks', c) && Payload(c) == p && c.req == req
    ensures IsChunk(blocks', k, j) && blocks'[k].chunks[j] == c
    ensures ram' == ram[BackAddr(c) := BackOffset(c)]
  {
    hide FirstFit, FoundInOrder, PagesFor, NoFit, BackAddr, BackOffset, Payload;
    var g := Grown(blocks, k, page, PagesFor(req + 32));
    c := NewChunk(g[k], j, req + 32, req);
    assert IsChunk(blocks', k, j) && blocks'[k].chunks[j] == c;
    forall d | HasChunk(blocks, d)
      ensures HasChunk(blocks', d)
    {
      var x: nat, y: nat :| IsChunk(blocks, x, y) && blocks[x].chunks[y] == d;
      var at := OldChunkAt(blocks, ram, bet, blocks', ram', page, k, j, req, p, x, y);
      HasAt(blocks', x, at);
    }
    forall d | HasChunk(blocks', d)
      ensures HasChunk(blocks, d) || d == c
    {
      var x: nat, y: nat :| IsChunk(blocks', x, y) && blocks'[x].chunks[y] == d;
      if x != k {
        assert blocks'[x] == blocks[x];
        HasAt(blocks, x, y);
      } else if y != j {
        assert d == PlacedAt(g[k], j, req + 32, req, y);
        HasAt(g, x, if y < j then y else y - 1);
        assert k < |blocks|;
      }
    }
  }

  /** The chunk added was not there before. */
  lemma AddedIsNew(blocks: seq<Block>, ram: Ram, bet: nat, blocks': seq<Block>, ram': Ram, page: nat,
                   k: nat, j: nat, req: nat, p: nat)
    requires MallocDone(blocks, ram, bet, blocks', ram', page, k, j, req, p) && LayoutOk(blocks')
    ensures IsChunk(blocks', k, j) && !HasChunk(blocks, blocks'[k].chunks[j])
  {
    hide MallocDone, LayoutOk;
    var c := MallocAdds(blocks, ram, bet, blocks', ram', page, k, j, req, p);
    if HasChunk(blocks, c) {
      var x: nat, y: nat :| IsChunk(blocks, x, y) && blocks[x].chunks[y] == c;
      var at := OldChunkAt(blocks, ram, bet, blocks', ram', page, k, j, req, p, x, y);
      ChunksApart(blocks', x, at, k, j);
    }
  }

  lemma FreeDrops(blocks: seq<Block>, k: nat, j: nat)
    requires LayoutOk(blocks) && IsChunk(blocks, k, j)
    ensures Drops(blocks, FreeSpec(blocks, k, j), blocks[k].chunks[j])
  {
    var c, after := blocks[k].chunks[j], FreeSpec(blocks, k, j);
    forall d | HasChunk(blocks, d) && d != c
      ensures HasChunk(after, d)
    {
      var x: nat, y: nat :| IsChunk(blocks, x, y) && blocks[x].chunks[y] == d;
      FreedIndex(blocks, k, j, x, y);
    }
    forall d | HasChunk(after, d)
      ensures HasChunk(blocks, d) && d != c
    {
      var x: nat, y: nat :| IsChunk(after, x, y) && after[x].chunks[y] == d;
      FreedOrigin(blocks, k, j, x, y);
    }
  }

  lemma FreedIndex(blocks: seq<Block>, k: nat, j: nat, x: nat, y: nat)
    requires IsChunk(blocks, k, j) && IsChunk(blocks, x, y) && (x, y) != (k, j)
    ensures HasChunk(FreeSpec(blocks, k, j), blocks[x].chunks[y])
  {
    var after := FreeSpec(blocks, k, j);
    if |blocks[k].chunks| == 1 {
      HasAt(after, if x < k then x else x - 1, y);
    } else {
      HasAt(after, x, if x == k && y > j then y - 1 else y);
    }
  }

  lemma FreedOrigin(blocks: seq<Block>, k: nat, j: nat, x: nat, y: nat)
    requires LayoutOk(blocks) && IsChunk(blocks, k, j) && IsChunk(FreeSpec(blocks, k, j), x, y)
    ensures var d := FreeSpec(blocks, k, j)[x].chunks[y]; HasChunk(blocks, d) && d != blocks[k].chunks[j]
  {
    hide LayoutOk, HasChunk;
    var x' := if |blocks[k].chunks| == 1 && x >= k then x + 1 else x;
    var y' := if |blocks[k].chunks| != 1 && x == k && y >= j then y + 1 else y;
    HasAt(blocks, x', y');
    ChunksApart(blocks, k, j, x', y');
  }

  lemma ResizeSwaps(blocks: seq<Block>, k: nat, j: nat, req: nat)
    requires LayoutOk(blocks) && IsChunk(blocks, k, j)
    ensures var c := blocks[k].chunks[j];
            forall d :: HasChunk(Resized(blocks, k, j, req), d) <==>
                        (HasChunk(blocks, d) && d != c) || d == c.(req := req)
  {
    var c, after := blocks[k].chunks[j], Resized(blocks, k, j, req);
    HasAt(after, k, j);
    forall d | HasChunk(blocks, d) && d != c
      ensures HasChunk(after, d)
    {
      var x: nat, y: nat :| IsChunk(blocks, x, y) && blocks[x].chunks[y] == d;
      HasAt(after, x, y);
    }
    forall d | HasChunk(after, d) && d != c.(req := req)
      ensures HasChunk(blocks, d) && d != c
    {
      var x: nat, y: nat :| IsChunk(after, x, y) && after[x].chunks[y] == d;
      HasAt(blocks, x, y);
      ChunksApart(blocks, k, j, x, y);
    }
  }

  // ---------- every call keeps the layout ----------

  lemma ReplaceLayout(blocks: seq<Block>, k: nat, b: Block)
    requires LayoutOk(blocks) && k < |blocks| && BlockOk(b) && b.base == blocks[k].base && b.pages == blocks[k].pages
    ensures LayoutOk(blocks[k := b])
  {
    hide BlockOk;
    var after := blocks[k := b];
    forall i, j | 0 <= i < j < |after| ensures Apart(after[i], after[j]) { assert Apart(blocks[i], blocks[j]); }
  }

  lemma MallocLayout(blocks: seq<Block>, ram: Ram, bet: nat, blocks': seq<Block>, ram': Ram, page: nat,
                     k: nat, j: nat, req: nat, p: nat)
    requires LayoutOk(blocks) && MallocDone(blocks, ram, bet, blocks', ram', page, k, j, req, p)
    requires page != 0 ==> FreshRange(blocks, page, PagesFor(req + 32))
    ensures LayoutOk(blocks')
  {
    hide FoundInOrder, PagesFor, NoFit, BackAddr, BackOffset, Payload, BlockOk;
    var g := Grown(blocks, k, page, PagesFor(req + 32));
    assert LayoutOk(g);
    PlaceOk(g[k], j, req + 32, req);
    ReplaceLayout(g, k, Place(g[k], j, req + 32, req));
  }

  lemma FreeLayout(blocks: seq<Block>, k: nat, j: nat)
    requires LayoutOk(blocks) && IsChunk(blocks, k, j)
    ensures LayoutOk(FreeSpec(blocks, k, j))
  {
    if |blocks[k].chunks| == 1 {
      var after := blocks[..k] + blocks[k + 1..];
      forall x | 0 <= x < |after| ensures BlockOk(after[x]) { assert after[x] == blocks[if x < k then x else x + 1]; }
      forall x, y | 0 <= x < y < |after| ensures Apart(after[x], after[y]) {
        assert after[x] == blocks[if x < k then x else x + 1] && after[y] == blocks[if y < k then y else y + 1];
      }
    } else {
      RemoveOk(blocks[k], j);
      ReplaceLayout(blocks, k, Remove(blocks[k], j));
    }
  }

  lemma ResizeLayout(blocks: seq<Block>, k: nat, j: nat, req: nat)
    requires LayoutOk(blocks) && IsChunk(blocks, k, j) && req <= blocks[k].chunks[j].req
    ensures LayoutOk(Resized(blocks, k, j, req))
  {
    ResizedLayout(blocks[k], j, req);
    ReplaceLayout(blocks, k, blocks[k].(chunks := blocks[k].chunks[j := blocks[k].chunks[j].(req := req)]));
  }

  // ---------- no call touches another payload ----------

  /** The payload a call is about; 0 for an allocation. */
  function Target(op: Op): nat {
    if op.Malloc? then 0 else op.p
  }

  ghost predicate SamePayloadBytes(ram: Ram, ram': Ram, c: Chunk) {
    forall a: nat :: Payload(c) <= a < Payload(c) + c.req ==> Peek(ram', a) == Peek(ram, a)
  }

  /** A chunk and its bytes survive. */
  ghost predicate Survives(s: HeapView, s': HeapView, c: Chunk) {
    HasChunk(s'.blocks, c) && SamePayloadBytes(s.ram, s'.ram, c)
  }

  lemma MallocOthers(s: HeapView, req: nat, page: nat, p: nat, s': HeapView, c: Chunk)
    requires LayoutOk(s.blocks) && Mallocs(s, req, page, p, s') && HasChunk(s.blocks, c)
    requires page != 0 ==> FreshRange(s.blocks, page, PagesFor(req + 32))
    ensures LayoutOk(s'.blocks) && Survives(s, s', c)
  {
    hide LayoutOk, MallocDone, FreshRange, PagesFor, HasChunk;
    if p != 0 {
      var bet: nat, k: nat, j: nat :| MallocDone(s.blocks, s.ram, bet, s'.blocks, s'.ram, page, k, j, req, p);
      MallocLayout(s.blocks, s.ram, bet, s'.blocks, s'.ram, page, k, j, req, p);
      var added := MallocAdds(s.blocks, s.ram, bet, s'.blocks, s'.ram, page, k, j, req, p);
      PayloadApart(s'.blocks, c, added);
    }
  }

  lemma FreeOthers(s: HeapView, p: nat, s': HeapView, c: Chunk)
    requires LayoutOk(s.blocks) && Frees(s, p, s') && HasChunk(s.blocks, c)
    ensures LayoutOk(s'.blocks) && (Payload(c) != p ==> Survives(s, s', c))
  {
    hide LayoutOk, HasChunk, Payload;
    if LivePointer(s.blocks, p) {
      var k: nat, j: nat :| IsLive(s.blocks, k, j, p) && s' == s.(blocks := FreeSpec(s.blocks, k, j));
      FreeLayout(s.blocks, k, j);
      FreeDrops(s.blocks, k, j);
    }
  }

  lemma ShrinkOthers(s: HeapView, k: nat, j: nat, p: nat, size: nat, c: Chunk)
    requires LayoutOk(s.blocks) && IsLive(s.blocks, k, j, p) && size <= s.blocks[k].chunks[j].req
             && HasChunk(s.blocks, c)
    ensures var s' := s.(blocks := Resized(s.blocks, k, j, size));
            && LayoutOk(s'.blocks) && (Payload(c) != p ==> Survives(s, s', c))
            && HasChunk(s'.blocks, s.blocks[k].chunks[j].(req := size))
  {
    hide LayoutOk, HasChunk, Payload;
    ResizeLayout(s.blocks, k, j, size);
    ResizeSwaps(s.blocks, k, j, size);
  }

  /** A failed growth writes below the heap only. */
  lemma FailOthers(s: HeapView, k: nat, j: nat, p: nat, s': HeapView, c: Chunk)
    requires LayoutOk(s.blocks) && IsLive(s.blocks, k, j, p) && HasChunk(s.blocks, c)
    requires var d := s.blocks[k].chunks[j];
             AboveNull(s.blocks, d.req) && s'.blocks == FreeSpec(s.blocks, k, j) && Copied(s.ram, s'.ram, 0, p, d.req)
    ensures LayoutOk(s'.blocks) && (Payload(c) != p ==> Survives(s, s', c))
  {
    FreeLayout(s.blocks, k, j);
    FreeDrops(s.blocks, k, j);
    hide LayoutOk, HasChunk, Payload;
    RoomyChunk(s.blocks, c);
    PayloadApart(s.blocks, c, c);
  }

  /** A growth: the chunk is gone, a larger one is there with the old bytes, all others survive. */
  lemma MoveOthers(s: HeapView, bet: nat, page: nat, k: nat, j: nat, k': nat, j': nat, size: nat, p: nat, q: nat,
                   s': HeapView, c: Chunk) returns (added: Chunk)
    requires LayoutOk(s.blocks) && IsLive(s.blocks, k, j, p) && HasChunk(s.blocks, c)
    requires page != 0 ==> FreshRange(s.blocks, page, PagesFor(size + 32))
    requires Moved(s.blocks, s.ram, bet, s'.blocks, s'.ram, page, k, j, k', j', size, p, q)
    ensures LayoutOk(s'.blocks) && (Payload(c) != p ==> Survives(s, s', c))
    ensures HasChunk(s'.blocks, added) && Payload(added) == q != p && added.req == size
    ensures forall d :: HasChunk(s'.blocks, d) ==> (HasChunk(s.blocks, d) && Payload(d) != p) || d == added
  {
    hide LayoutOk, HasChunk, MallocDone, FreshRange, PagesFor, SameBytes, SameOutside;
    var g := Grown(s.blocks, k', page, PagesFor(size + 32));
    var d := NewChunk(g[k'], j', size + 32, size);
    var mid := MallocSpec(s.blocks, k', j', page, PagesFor(size + 32), size + 32, size);
    var midRam := s.ram[BackAddr(d) := BackOffset(d)];
    MallocLayout(s.blocks, s.ram, bet, mid, midRam, page, k', j', size, q);
    added := MallocAdds(s.blocks, s.ram, bet, mid, midRam, page, k', j', size, q);
    var at := OldChunkAt(s.blocks, s.ram, bet, mid, midRam, page, k', j', size, q, k, j);
    FreeLayout(mid, k, at);
    FreeDrops(mid, k, at);
    var c0 := mid[k].chunks[at];
    HasAt(mid, k', j');
    HasAt(mid, k, at);
    ChunksApart(mid, k, at, k', j');
    if added == c0 || Payload(added) == Payload(c0) { PointerUnique(mid, added, c0); }
    AddedIsNew(s.blocks, s.ram, bet, mid, midRam, page, k', j', size, q);
    forall d | HasChunk(mid, d) && Payload(d) == p ensures d == c0 { PointerUnique(mid, d, c0); }
    PayloadApart(mid, c, added);
    OutsideKept(s.ram, s'.ram, added, c);
  }

  lemma OutsideKept(ram: Ram, ram': Ram, d: Chunk, c: Chunk)
    requires SameOutside(ram, ram', d)
    ensures Disjoint(Payload(c), c.req, d.addr, 40 + d.size) ==> SamePayloadBytes(ram, ram', c)
  {
  }

  /** Apart from header bytes, a call leaves every payload it is not about in place, with all its bytes. */
  lemma CallLeavesOthers(s: HeapView, op: Op, s': HeapView, c: Chunk)
    requires LayoutOk(s.blocks) && Enabled(s, op) && Happens(s, op, s') && HasChunk(s.blocks, c)
    ensures LayoutOk(s'.blocks) && (Payload(c) != Target(op) ==> Survives(s, s', c))
  {
    hide LayoutOk, HasChunk, Mallocs, Frees, FreshRange, Survives, LivePointer, Payload, PagesFor;
    match op
    case Malloc(req, page, p) => MallocOthers(s, req, page, p, s', c);
    case Free(p) => FreeOthers(s, p, s', c);
    case Store(p, i, v) => StoreOthers(s, p, i, v, c);
    case Realloc(p, size, page, q) =>
      if size == 0 {
        FreeOthers(s, p, s', c);
      } else if p == 0 {
        MallocOthers(s, size, page, q, s', c);
      } else if LivePointer(s.blocks, p) {
        ResizeOthers(s, p, size, page, q, s', c);
      } else {
        Unchanged(s, c);
      }
  }

  lemma Unchanged(s: HeapView, c: Chunk)
    requires HasChunk(s.blocks, c)
    ensures Survives(s, s, c)
  {
  }

  lemma StoreOthers(s: HeapView, p: nat, i: nat, v: nat, c: Chunk)
    requires LayoutOk(s.blocks) && Enabled(s, Store(p, i, v)) && HasChunk(s.blocks, c)
    ensures Payload(c) != p ==> Survives(s, s.(ram := s.ram[p + i := v]), c)
  {
    hide LayoutOk, HasChunk;
    var d :| HasChunk(s.blocks, d) && Payload(d) == p && i < d.req;
    PayloadApart(s.blocks, c, d);
    PayloadApart(s.blocks, d, c);
  }

  lemma ResizeOthers(s: HeapView, p: nat, size: nat, page: nat, q: nat, s': HeapView, c: Chunk)
    requires LayoutOk(s.blocks) && Resizes(s, p, size, page, q, s') && HasChunk(s.blocks, c)
    requires page != 0 ==> FreshRange(s.blocks, page, PagesFor(size + 32))
    ensures LayoutOk(s'.blocks) && (Payload(c) != p ==> Survives(s, s', c))
  {
    hide LayoutOk, HasChunk, FreshRange, Survives, Payload, PagesFor, Moved, Copied, AboveNull, Resized, FreeSpec;
    var k: nat, j: nat :| IsLive(s.blocks, k, j, p) && ResizesAt(s, k, j, p, size, page, q, s');
    if size <= s.blocks[k].chunks[j].req {
      ShrinkOthers(s, k, j, p, size, c);
    } else if q == 0 {
      FailOthers(s, k, j, p, s', c);
    } else {
      var bet: nat, k': nat, j': nat :|
        Moved(s.blocks, s.ram, bet, s'.blocks, s'.ram, page, k, j, k', j', size, p, q);
      var added := MoveOthers(s, bet, page, k, j, k', j', size, p, q, s', c);
    }
  }

  /** krealloc on a live payload: unless it returns NULL, the payload returned has the new size and begins
      with the old bytes, as many as both sizes allow. */
  lemma ResizeKeeps(s: HeapView, p: nat, size: nat, page: nat, q: nat, s': HeapView, c: Chunk) returns (d: Chunk)
    requires LayoutOk(s.blocks) && Resizes(s, p, size, page, q, s') && q != 0
    requires HasChunk(s.blocks, c) && Payload(c) == p
    requires page != 0 ==> FreshRange(s.blocks, page, PagesFor(size + 32))
    ensures HasChunk(s'.blocks, d) && Payload(d) == q && d.req == size && (q == p <==> size <= c.req)
    ensures SameBytes(s.ram, p, s'.ram, q, if size <= c.req then size else c.req)
  {
    hide LayoutOk, HasChunk, FreshRange, PagesFor, Copied, AboveNull, Resized, FreeSpec, Payload;
    var k: nat, j: nat :| IsLive(s.blocks, k, j, p) && ResizesAt(s, k, j, p, size, page, q, s');
    HasAt(s.blocks, k, j);
    PointerUnique(s.blocks, c, s.blocks[k].chunks[j]);
    if size <= c.req {
      ShrinkOthers(s, k, j, p, size, c);
      d := c.(req := size);
      SamePayload(c, d);
    } else {
      var bet: nat, k': nat, j': nat :|
        Moved(s.blocks, s.ram, bet, s'.blocks, s'.ram, page, k, j, k', j', size, p, q);
      d := MoveOthers(s, bet, page, k, j, k', j', size, p, q, s', c);
    }
  }

  // ---------- headers ----------

  /** The address lies in the 40-byte header of a live chunk or of a block. */
  ghost predicate InHeader(blocks: seq<Block>, a: nat) {
    || (exists c :: HasChunk(blocks, c) && c.addr <= a < c.addr + 40)
    || (exists k: nat :: k < |blocks| && blocks[k].base <= a < blocks[k].base + 40)
  }

  /** Header bytes may have any new values; all other memory is the same. */
  ghost predicate HeadersWritten(s: HeapView, s': HeapView) {
    s'.blocks == s.blocks && forall a: nat :: !InHeader(s.blocks, a) ==> Peek(s'.ram, a) == Peek(s.ram, a)
  }

  lemma ChunkClearOfBlocks(blocks: seq<Block>, c: Chunk, k: nat)
    requires LayoutOk(blocks) && HasChunk(blocks, c) && k < |blocks|
    ensures Disjoint(c.addr, 40 + c.size, blocks[k].base, 40)
  {
    var x: nat, y: nat :| IsChunk(blocks, x, y) && blocks[x].chunks[y] == c;
    ChunkApartFromBlockHeader(blocks, x, y, k);
  }

  /** No header holds a byte of a live payload, or a stored back-offset byte. */
  lemma HeadersClear(blocks: seq<Block>, c: Chunk, a: nat)
    requires LayoutOk(blocks) && HasChunk(blocks, c) && (a == BackAddr(c) || Payload(c) <= a < Payload(c) + c.req)
    ensures !InHeader(blocks, a)
  {
    hide LayoutOk, HasChunk;
    PayloadApart(blocks, c, c);
    RoomyChunk(blocks, c);
    PayloadInside(c);
    hide Payload, BackAddr;
    forall d | HasChunk(blocks, d) ensures !(d.addr <= a < d.addr + 40) {
      if d != c { DistinctApart(blocks, c, d); }
    }
    forall k: nat | k < |blocks| ensures !(blocks[k].base <= a < blocks[k].base + 40) {
      ChunkClearOfBlocks(blocks, c, k);
    }
  }

  /** Whatever is written to headers, live payloads and back-offset bytes stay. */
  lemma HeadersHarmless(s: HeapView, s': HeapView, c: Chunk)
    requires LayoutOk(s.blocks) && HasChunk(s.blocks, c) && HeadersWritten(s, s')
    ensures Survives(s, s', c) && Peek(s'.ram, BackAddr(c)) == Peek(s.ram, BackAddr(c))
  {
    hide LayoutOk, HasChunk, InHeader, Payload, BackAddr;
    HeadersClear(s.blocks, c, BackAddr(c));
    forall a: nat | Payload(c) <= a < Payload(c) + c.req ensures Peek(s'.ram, a) == Peek(s.ram, a) {
      HeadersClear(s.blocks, c, a);
    }
  }

  // ---------- runs ----------

  /** A call as memory sees it: the heap may write any header there is before the call and any header there is
      after it. */
  ghost predicate Steps(s: HeapView, op: Op, s': HeapView) {
    exists m, e :: Stage(s, m, op, e, s')
  }

  ghost predicate Stage(s: HeapView, m: HeapView, op: Op, e: HeapView, s': HeapView) {
    HeadersWritten(s, m) && Happens(m, op, e) && HeadersWritten(e, s')
  }

  lemma SurvivesTwice(s: HeapView, m: HeapView, e: HeapView, c: Chunk)
    requires Survives(s, m, c) && Survives(m, e, c)
    ensures Survives(s, e, c)
  {
    hide Payload;
  }

  /** Whatever a caller does, every payload that the call is not about keeps its place, its size and all its
      bytes, whatever is written to headers. */
  lemma OthersUntouched(s: HeapView, op: Op, s': HeapView, c: Chunk)
    requires LayoutOk(s.blocks) && Enabled(s, op) && Steps(s, op, s') && HasChunk(s.blocks, c)
    ensures LayoutOk(s'.blocks) && (Payload(c) != Target(op) ==> Survives(s, s', c))
  {
    hide LayoutOk, HasChunk, Happens, InHeader, Payload, FreshRange, PagesFor;
    var m, e :| Stage(s, m, op, e, s');
    HeadersHarmless(s, m, c);
    assert Enabled(m, op);
    CallLeavesOthers(m, op, e, c);
    if Payload(c) != Target(op) {
      SurvivesTwice(s, m, e, c);
      HeadersHarmless(e, s', c);
      SurvivesTwice(s, e, s', c);
    }
  }

  /** states[i] leads to states[i + 1] by call i, each legal where it happens. */
  ghost predicate Run(states: seq<HeapView>, ops: seq<Op>) {
    && |states| == |ops| + 1
    && forall i :: 0 <= i < |ops| ==> Enabled(states[i], ops[i]) && Steps(states[i], ops[i], states[i + 1])
  }

  lemma RunStep(states: seq<HeapView>, ops: seq<Op>, i: nat)
    requires Run(states, ops) && i < |ops|
    ensures Enabled(states[i], ops[i]) && Steps(states[i], ops[i], states[i + 1])
  {
  }

  /** A call that leaves the layout sound, whether or not there is a chunk to look at. */
  lemma CallLayout(s: HeapView, op: Op, s': HeapView)
    requires LayoutOk(s.blocks) && Enabled(s, op) && Happens(s, op, s')
    ensures LayoutOk(s'.blocks)
  {
    hide LayoutOk, FreshRange, PagesFor, MallocDone, Payload;
    if c :| HasChunk(s.blocks, c) {
      CallLeavesOthers(s, op, s', c);
    } else if op.Malloc? || (op.Realloc? && op.size != 0 && op.p == 0) {
      var req, p := if op.Malloc? then op.req else op.size, if op.Malloc? then op.p else op.q;
      if p != 0 {
        var bet: nat, k: nat, j: nat :| MallocDone(s.blocks, s.ram, bet, s'.blocks, s'.ram, op.page, k, j, req, p);
        MallocLayout(s.blocks, s.ram, bet, s'.blocks, s'.ram, op.page, k, j, req, p);
      }
    }
  }

  lemma StepLayout(s: HeapView, op: Op, s': HeapView)
    requires LayoutOk(s.blocks) && Enabled(s, op) && Steps(s, op, s')
    ensures LayoutOk(s'.blocks)
  {
    hide LayoutOk, HasChunk, Happens, InHeader, FreshRange, PagesFor;
    var m, e :| Stage(s, m, op, e, s');
    assert Enabled(m, op);
    CallLayout(m, op, e);
  }

  lemma {:induction false} RunLayout(states: seq<HeapView>, ops: seq<Op>, n: nat)
    requires Run(states, ops) && LayoutOk(states[0].blocks) && n <= |ops|
    ensures LayoutOk(states[n].blocks)
  {
    hide LayoutOk, Enabled, Steps;
    if n > 0 {
      RunLayout(states, ops, n - 1);
      RunStep(states, ops, n - 1);
      StepLayout(states[n - 1], ops[n - 1], states[n]);
    }
  }

  /** Over every run, a payload that no call is about keeps its place, its size and all its bytes. */
  lemma {:induction false} UntouchedRun(states: seq<HeapView>, ops: seq<Op>, a: nat, b: nat, c: Chunk)
    requires Run(states, ops) && a <= b <= |ops| && LayoutOk(states[a].blocks) && HasChunk(states[a].blocks, c)
    requires forall i :: a <= i < b ==> Target(ops[i]) != Payload(c)
    ensures LayoutOk(states[b].blocks) && Survives(states[a], states[b], c)
    decreases b
  {
    hide LayoutOk, Enabled, Steps, HasChunk, Payload;
    if a < b {
      UntouchedRun(states, ops, a, b - 1, c);
      RunStep(states, ops, b - 1);
      OthersUntouched(states[b - 1], ops[b - 1], states[b], c);
    }
  }

  /** A shrink to `small` bytes, then any calls that are not about that payload, then a krealloc to at
      least as many bytes: the shrunk prefix is what it was before the shrink. */
  lemma ShrinkThenLaterGrow(states: seq<HeapView>, ops: seq<Op>, p: nat, small: nat, large: nat, c: Chunk)
    requires Run(states, ops) && |ops| >= 2 && LayoutOk(states[0].blocks)
    requires HasChunk(states[0].blocks, c) && Payload(c) == p && 0 < small <= c.req && small <= large
    requires ops[0].Realloc? && ops[0].p == p && ops[0].size == small
    requires forall i :: 1 <= i < |ops| - 1 ==> Target(ops[i]) != p
    requires Last(ops).Realloc? && Last(ops).p == p && Last(ops).size == large && Last(ops).q != 0
    ensures SameBytes(states[0].ram, p, states[|ops|].ram, Last(ops).q, small)
  {
    hide LayoutOk, HasChunk, Enabled, Steps, Payload;
    var n := |ops| - 1;
    RunStep(states, ops, 0);
    var d := StepResizes(states[0], ops[0], states[1], c);
    RunLayout(states, ops, 1);
    UntouchedRun(states, ops, 1, n, d);
    RunStep(states, ops, n);
    var e := StepResizes(states[n], ops[n], states[n + 1], d);
    BytesChain(states[0].ram, states[1].ram, states[n].ram, states[n + 1].ram, p, ops[n].q, d, small);
  }

  /** krealloc on a live payload as a step of a run. */
  lemma StepResizes(s: HeapView, op: Op, s': HeapView, c: Chunk) returns (d: Chunk)
    requires LayoutOk(s.blocks) && Enabled(s, op) && Steps(s, op, s') && HasChunk(s.blocks, c)
    requires op.Realloc? && op.size > 0 && op.p == Payload(c) && (op.q != 0 || op.size <= c.req)
    ensures op.q != 0 && HasChunk(s'.blocks, d) && Payload(d) == op.q && d.req == op.size
    ensures op.q == op.p <==> op.size <= c.req
    ensures SameBytes(s.ram, op.p, s'.ram, op.q, if op.size <= c.req then op.size else c.req)
  {
    hide LayoutOk, HasChunk, InHeader, Payload, FreshRange, PagesFor, Resizes;
    var m, e :| Stage(s, m, op, e, s');
    LiveIs(s.blocks, c);
    HeadersHarmless(s, m, c);
    CallLayout(m, op, e);
    if op.size <= c.req { ShrinkReturns(m, op.p, op.size, op.page, op.q, e, c); }
    d := ResizeKeeps(m, op.p, op.size, op.page, op.q, e, c);
    HeadersHarmless(e, s', d);
    BytesThrough(s.ram, m.ram, e.ram, s'.ram, c, d, if op.size <= c.req then op.size else c.req);
  }

  lemma BytesThrough(r0: Ram, r1: Ram, r2: Ram, r3: Ram, c: Chunk, d: Chunk, n: nat)
    requires SamePayloadBytes(r0, r1, c) && SamePayloadBytes(r2, r3, d) && n <= c.req && n <= d.req
    requires SameBytes(r1, Payload(c), r2, Payload(d), n)
    ensures SameBytes(r0, Payload(c), r3, Payload(d), n)
  {
    hide Payload;
    var p, q := Payload(c), Payload(d);
    forall a: nat | p <= a < p + n ensures Peek(r3, q + (a - p)) == Peek(r0, a) {
      var b := q + (a - p);
      assert q <= b < q + d.req;
    }
  }

  function Last(ops: seq<Op>): Op
    requires ops != []
  {
    ops[|ops| - 1]
  }

  lemma LiveIs(blocks: seq<Block>, c: Chunk)
    requires LayoutOk(blocks) && HasChunk(blocks, c)
    ensures LivePointer(blocks, Payload(c)) && Payload(c) != 0
  {
    PayloadApart(blocks, c, c);
  }

  lemma ShrinkReturns(s: HeapView, p: nat, size: nat, page: nat, q: nat, s': HeapView, c: Chunk)
    requires LayoutOk(s.blocks) && Resizes(s, p, size, page, q, s') && HasChunk(s.blocks, c) && Payload(c) == p
    requires size <= c.req
    ensures q == p != 0
  {
    hide LayoutOk, HasChunk;
    var k: nat, j: nat :| IsLive(s.blocks, k, j, p) && ResizesAt(s, k, j, p, size, page, q, s');
    HasAt(s.blocks, k, j);
    PointerUnique(s.blocks, c, s.blocks[k].chunks[j]);
    LiveIs(s.blocks, c);
  }

  lemma BytesChain(r0: Ram, r1: Ram, r2: Ram, r3: Ram, p: nat, q: nat, d: Chunk, n: nat)
    requires SameBytes(r0, p, r1, p, n) && SamePayloadBytes(r1, r2, d) && Payload(d) == p && n == d.req
    requires SameBytes(r2, p, r3, q, n)
    ensures SameBytes(r0, p, r3, q, n)
  {
    hide Payload;
    forall a: nat | p <= a < p + n ensures Peek(r3, q + (a - p)) == Peek(r0, a) {
      assert Peek(r1, p + (a - p)) == Peek(r0, a);
    }
  }

  // ---------- payloads as memories of their own ----------

  /** For some payloads, the bytes their owners know: what they stored, or had carried over. */
  type Known = map<nat, map<nat, nat>>

  /** How a call changes what is known, by its arguments and result alone. */
  function Track(m: Known, op: Op): Known {
    match op
    case Malloc(_, _, p) => if p == 0 then m else m[p := map[]]
    case Free(p) => m - {p}
    case Store(p, i, v) => if p in m then (var known: map<nat, nat> := m[p][i := v]; m[p := known]) else m
    case Realloc(p, size, _, q) =>
      if size == 0 then m - {p}
      else if p == 0 then if q == 0 then m else m[q := map[]]
      else if p !in m then m
      else if q == 0 then m - {p}
      else (m - {p})[q := Below(m[p], size)]
  }

  function Below(known: map<nat, nat>, size: nat): map<nat, nat> {
    map i | i in known && i < size :: known[i]
  }

  function TrackAll(m: Known, ops: seq<Op>): Known {
    if ops == [] then m else Track(TrackAll(m, ops[..|ops| - 1]), ops[|ops| - 1])
  }

  ghost predicate Reads(ram: Ram, c: Chunk, known: map<nat, nat>) {
    forall i :: i in known ==> i < c.req && Peek(ram, Payload(c) + i) == known[i]
  }

  ghost predicate KnownAt(s: HeapView, p: nat, known: map<nat, nat>) {
    exists c :: HasChunk(s.blocks, c) && Payload(c) == p && Reads(s.ram, c, known)
  }

  /** Every payload reads back what its owner knows of it. */
  ghost predicate Faithful(s: HeapView, m: Known) {
    LayoutOk(s.blocks) && forall p :: p in m ==> KnownAt(s, p, m[p])
  }

  lemma SurvivesKnown(s: HeapView, s': HeapView, c: Chunk, p: nat, known: map<nat, nat>)
    requires Survives(s, s', c) && Payload(c) == p && Reads(s.ram, c, known)
    ensures KnownAt(s', p, known)
  {
    hide Payload;
    assert Reads(s'.ram, c, known);
  }

  lemma KnownElsewhere(s: HeapView, op: Op, s': HeapView, p: nat, known: map<nat, nat>)
    requires LayoutOk(s.blocks) && Enabled(s, op) && Happens(s, op, s') && KnownAt(s, p, known) && p != Target(op)
    ensures KnownAt(s', p, known)
  {
    hide LayoutOk, Enabled, Happens, HasChunk, Survives, Reads, Payload;
    var c :| HasChunk(s.blocks, c) && Payload(c) == p && Reads(s.ram, c, known);
    CallLeavesOthers(s, op, s', c);
    SurvivesKnown(s, s', c, p, known);
  }

  lemma NewKnown(s: HeapView, req: nat, page: nat, p: nat, s': HeapView)
    requires Mallocs(s, req, page, p, s') && p != 0
    ensures KnownAt(s', p, map[])
  {
    hide MallocDone, PagesFor, Payload;
    var bet: nat, k: nat, j: nat :| MallocDone(s.blocks, s.ram, bet, s'.blocks, s'.ram, page, k, j, req, p);
    var c := MallocAdds(s.blocks, s.ram, bet, s'.blocks, s'.ram, page, k, j, req, p);
    assert Reads(s'.ram, c, map[]);
  }

  lemma StoreKnown(s: HeapView, p: nat, i: nat, v: nat, known: map<nat, nat>)
    requires LayoutOk(s.blocks) && Enabled(s, Store(p, i, v)) && KnownAt(s, p, known)
    ensures KnownAt(s.(ram := s.ram[p + i := v]), p, known[i := v])
  {
    hide LayoutOk, HasChunk, Payload;
    var c :| HasChunk(s.blocks, c) && Payload(c) == p && Reads(s.ram, c, known);
    var d :| HasChunk(s.blocks, d) && Payload(d) == p && i < d.req;
    PointerUnique(s.blocks, c, d);
    assert Reads(s.ram[p + i := v], c, known[i := v]);
  }

  lemma ResizeKnown(s: HeapView, p: nat, size: nat, page: nat, q: nat, s': HeapView, known: map<nat, nat>)
    requires LayoutOk(s.blocks) && Resizes(s, p, size, page, q, s') && q != 0 && KnownAt(s, p, known)
    requires page != 0 ==> FreshRange(s.blocks, page, PagesFor(size + 32))
    ensures KnownAt(s', q, Below(known, size))
  {
    hide LayoutOk, HasChunk, Payload, Resizes, FreshRange, PagesFor;
    var c :| HasChunk(s.blocks, c) && Payload(c) == p && Reads(s.ram, c, known);
    var d := ResizeKeeps(s, p, size, page, q, s', c);
    forall i | i in Below(known, size)
      ensures i < d.req && Peek(s'.ram, q + i) == known[i]
    {
      assert Peek(s'.ram, q + ((p + i) - p)) == Peek(s.ram, p + i);
    }
    assert Reads(s'.ram, d, Below(known, size));
  }

  lemma CallFaithful(s: HeapView, op: Op, s': HeapView, m: Known)
    requires Faithful(s, m) && Enabled(s, op) && Happens(s, op, s')
    ensures Faithful(s', Track(m, op))
  {
    CallLayout(s, op, s');
    hide LayoutOk, KnownAt, Mallocs, Frees, Resizes, FreshRange, PagesFor;
    forall p | p in Track(m, op)
      ensures KnownAt(s', p, Track(m, op)[p])
    {
      if p in m && p != Target(op) && Track(m, op)[p] == m[p] {
        KnownElsewhere(s, op, s', p, m[p]);
      } else {
        OwnFaithful(s, op, s', m, p);
      }
    }
  }

  /** The payload a call is about, or returns. */
  lemma OwnFaithful(s: HeapView, op: Op, s': HeapView, m: Known, p: nat)
    requires Faithful(s, m) && Enabled(s, op) && Happens(s, op, s') && p in Track(m, op)
    requires !(p in m && p != Target(op) && Track(m, op)[p] == m[p])
    ensures KnownAt(s', p, Track(m, op)[p])
  {
    hide LayoutOk, KnownAt, Mallocs, Frees, Resizes, FreshRange, PagesFor;
    if p in m { KnownIsLive(s, p, m[p]); }
    match op
    case Malloc(req, page, r) => if r != 0 { NewKnown(s, req, page, r, s'); }
    case Free(r) =>
    case Store(r, i, v) => StoreKnown(s, r, i, v, m[r]);
    case Realloc(r, size, page, q) =>
      if size == 0 {
      } else if r == 0 {
        if q != 0 { NewKnown(s, size, page, q, s'); }
      } else if r in m {
        KnownIsLive(s, r, m[r]);
        if q != 0 { ResizeKnown(s, r, size, page, q, s', m[r]); }
      }
  }

  lemma KnownIsLive(s: HeapView, p: nat, known: map<nat, nat>)
    requires LayoutOk(s.blocks) && KnownAt(s, p, known)
    ensures LivePointer(s.blocks, p) && p != 0
  {
    hide LayoutOk, HasChunk, Payload, Reads;
    var c :| HasChunk(s.blocks, c) && Payload(c) == p && Reads(s.ram, c, known);
    LiveIs(s.blocks, c);
  }

  lemma HeadersFaithful(s: HeapView, s': HeapView, m: Known)
    requires Faithful(s, m) && HeadersWritten(s, s')
    ensures Faithful(s', m)
  {
    hide LayoutOk, HasChunk, InHeader, Payload, Reads, Survives;
    forall p | p in m ensures KnownAt(s', p, m[p]) {
      var c :| HasChunk(s.blocks, c) && Payload(c) == p && Reads(s.ram, c, m[p]);
      HeadersHarmless(s, s', c);
      SurvivesKnown(s, s', c, p, m[p]);
    }
  }

  lemma StepFaithful(s: HeapView, op: Op, s': HeapView, m: Known)
    requires Faithful(s, m) && Enabled(s, op) && Steps(s, op, s')
    ensures Faithful(s', Track(m, op))
  {
    hide Faithful, Happens, HasChunk, InHeader, FreshRange, PagesFor, Track;
    var mid, e :| Stage(s, mid, op, e, s');
    HeadersFaithful(s, mid, m);
    assert Enabled(mid, op);
    CallFaithful(mid, op, e, m);
    HeadersFaithful(e, s', Track(m, op));
  }

  /** Over every run of kmalloc, kfree, krealloc and stores, every payload reads back, at every byte its
      owner knows, what was last stored there or what krealloc carried over. */
  lemma {:induction false} RunFaithful(states: seq<HeapView>, ops: seq<Op>, m: Known, n: nat)
    requires Run(states, ops) && Faithful(states[0], m) && n <= |ops|
    ensures Faithful(states[n], TrackAll(m, ops[..n]))
  {
    hide Faithful, Enabled, Steps, Track;
    if n > 0 {
      RunFaithful(states, ops, m, n - 1);
      RunStep(states, ops, n - 1);
      StepFaithful(states[n - 1], ops[n - 1], states[n], TrackAll(m, ops[..n - 1]));
      assert ops[..n][..n - 1] == ops[..n - 1];
    } else {
      assert ops[..0] == [];
    }
  }

  /** Nothing live goes untracked. */
  ghost predicate Covers(s: HeapView, m: Known) {
    forall c :: HasChunk(s.blocks, c) ==> Payload(c) in m
  }

  lemma FreeCovers(blocks: seq<Block>, k: nat, j: nat, d: Chunk)
    requires LayoutOk(blocks) && IsChunk(blocks, k, j) && HasChunk(FreeSpec(blocks, k, j), d)
    ensures HasChunk(blocks, d) && Payload(d) != Payload(blocks[k].chunks[j])
  {
    hide LayoutOk, Payload, FreeSpec;
    FreeDrops(blocks, k, j);
    HasAt(blocks, k, j);
    hide HasChunk;
    if Payload(d) == Payload(blocks[k].chunks[j]) { PointerUnique(blocks, d, blocks[k].chunks[j]); }
  }

  lemma MallocCovers(s: HeapView, req: nat, page: nat, p: nat, s': HeapView, d: Chunk)
    requires Mallocs(s, req, page, p, s') && HasChunk(s'.blocks, d)
    ensures HasChunk(s.blocks, d) || (p != 0 && Payload(d) == p)
  {
    hide MallocDone, HasChunk, Payload;
    if p != 0 {
      var bet: nat, k: nat, j: nat :| MallocDone(s.blocks, s.ram, bet, s'.blocks, s'.ram, page, k, j, req, p);
      var c := MallocAdds(s.blocks, s.ram, bet, s'.blocks, s'.ram, page, k, j, req, p);
    }
  }

  lemma ResizeCovers(s: HeapView, p: nat, size: nat, page: nat, q: nat, s': HeapView, d: Chunk)
    requires LayoutOk(s.blocks) && Resizes(s, p, size, page, q, s') && HasChunk(s'.blocks, d)
    requires page != 0 ==> FreshRange(s.blocks, page, PagesFor(size + 32))
    ensures (HasChunk(s.blocks, d) && Payload(d) != p) || (q != 0 && Payload(d) == q)
  {
    hide LayoutOk, HasChunk, FreshRange, PagesFor, Moved, Copied, AboveNull, FreeSpec, Payload, Resized;
    var k: nat, j: nat :| IsLive(s.blocks, k, j, p) && ResizesAt(s, k, j, p, size, page, q, s');
    var c := s.blocks[k].chunks[j];
    HasAt(s.blocks, k, j);
    LiveIs(s.blocks, c);
    if size <= c.req {
      ResizeSwaps(s.blocks, k, j, size);
      SamePayload(c, c.(req := size));
      if HasChunk(s.blocks, d) && Payload(d) == p { PointerUnique(s.blocks, c, d); }
    } else if q == 0 {
      FreeCovers(s.blocks, k, j, d);
    } else {
      var bet: nat, k': nat, j': nat :|
        Moved(s.blocks, s.ram, bet, s'.blocks, s'.ram, page, k, j, k', j', size, p, q);
      var added := MoveOthers(s, bet, page, k, j, k', j', size, p, q, s', c);
    }
  }

  lemma CallCovers(s: HeapView, op: Op, s': HeapView, m: Known, d: Chunk)
    requires LayoutOk(s.blocks) && Covers(s, m) && Enabled(s, op) && Happens(s, op, s') && HasChunk(s'.blocks, d)
    ensures Payload(d) in Track(m, op)
  {
    hide LayoutOk, HasChunk, Mallocs, Resizes, FreshRange, PagesFor, Payload, FreeSpec;
    match op
    case Malloc(req, page, p) => MallocCovers(s, req, page, p, s', d);
    case Store(_, _, _) =>
    case Free(p) => FreesCovers(s, p, s', d);
    case Realloc(p, size, page, q) =>
      if size == 0 {
        FreesCovers(s, p, s', d);
      } else if p == 0 {
        MallocCovers(s, size, page, q, s', d);
      } else if LivePointer(s.blocks, p) {
        ResizeCovers(s, p, size, page, q, s', d);
        var c :| HasChunk(s.blocks, c) && Payload(c) == p;
        assert p in m;
      } else {
        assert Payload(d) != p;
      }
  }

  lemma FreesCovers(s: HeapView, p: nat, s': HeapView, d: Chunk)
    requires LayoutOk(s.blocks) && Frees(s, p, s') && HasChunk(s'.blocks, d)
    ensures HasChunk(s.blocks, d) && Payload(d) != p
  {
    hide LayoutOk, Payload, HasChunk, FreeSpec;
    if LivePointer(s.blocks, p) {
      var k: nat, j: nat :| IsLive(s.blocks, k, j, p) && s' == s.(blocks := FreeSpec(s.blocks, k, j));
      FreeCovers(s.blocks, k, j, d);
    }
  }

  lemma StepCovers(s: HeapView, op: Op, s': HeapView, m: Known, d: Chunk)
    requires LayoutOk(s.blocks) && Covers(s, m) && Enabled(s, op) && Steps(s, op, s') && HasChunk(s'.blocks, d)
    ensures Payload(d) in Track(m, op)
  {
    hide LayoutOk, HasChunk, Happens, InHeader, FreshRange, PagesFor, Payload, Track;
    var mid, e :| Stage(s, mid, op, e, s');
    assert Enabled(mid, op);
    CallCovers(mid, op, e, m, d);
  }

  lemma {:induction false} RunCovers(states: seq<HeapView>, ops: seq<Op>, m: Known, n: nat)
    requires Run(states, ops) && LayoutOk(states[0].blocks) && Covers(states[0], m) && n <= |ops|
    ensures Covers(states[n], TrackAll(m, ops[..n]))
  {
    hide LayoutOk, Enabled, Steps, Track, HasChunk, Payload;
    if n > 0 {
      RunCovers(states, ops, m, n - 1);
      RunLayout(states, ops, n - 1);
      RunStep(states, ops, n - 1);
      assert ops[..n][..n - 1] == ops[..n - 1];
      forall d | HasChunk(states[n].blocks, d)
        ensures Payload(d) in TrackAll(m, ops[..n])
      {
        StepCovers(states[n - 1], ops[n - 1], states[n], TrackAll(m, ops[..n - 1]), d);
      }
    } else {
      assert ops[..0] == [];
    }
  }

  /** From the empty heap on: after every run the tracked payloads are exactly the live ones, and each
      reads back what its owner knows. */
  lemma HeapIsMemories(states: seq<HeapView>, ops: seq<Op>, n: nat)
    requires Run(states, ops) && states[0].blocks == [] && n <= |ops|
    ensures var m := TrackAll(map[], ops[..n]);
            Faithful(states[n], m) && forall p :: p in m <==> LivePointer(states[n].blocks, p)
  {
    hide HasChunk, Enabled, Steps, Track, Payload, KnownAt;
    assert Covers(states[0], map[]) by { NoChunks(states[0].blocks); }
    RunFaithful(states, ops, map[], n);
    RunCovers(states, ops, map[], n);
    var m := TrackAll(map[], ops[..n]);
    forall p | p in m ensures LivePointer(states[n].blocks, p) { KnownIsLive(states[n], p, m[p]); }
  }

  lemma NoChunks(blocks: seq<Block>)
    requires blocks == []
    ensures forall c :: !HasChunk(blocks, c)
  {
  }

  // ---------- the heap's own methods take these steps ----------

  datatype Request =
    | AskMalloc(req: nat)
    | AskFree(p: nat)
    | AskRealloc(p: nat, size: nat)
    | AskStore(p: nat, i: nat, v: nat)

  /** What the heap demands of its callers. A pointer is NULL, live, or leads to a header without the magic
      number. */
  ghost predicate Allowed(h: Heap, ask: Request, page: nat, k: nat, j: nat)
    reads h
  {
    match ask
    case AskMalloc(req) => SmallEnough(req) && (page != 0 ==> FreshRange(h.blocks, page, PagesFor(req + 32)))
    case AskFree(p) => Pointer(h, p, k, j)
    case AskRealloc(p, size) =>
      && SmallEnough(size) && (page != 0 ==> FreshRange(h.blocks, page, PagesFor(size + 32)))
      && Pointer(h, p, k, j) && (IsLive(h.blocks, k, j, p) ==> AboveNull(h.blocks, h.blocks[k].chunks[j].req))
    case AskStore(p, i, _) => IsLive(h.blocks, k, j, p) && i < h.blocks[k].chunks[j].req
  }

  ghost predicate Pointer(h: Heap, p: nat, k: nat, j: nat)
    reads h
  {
    p == 0 || IsLive(h.blocks, k, j, p) || (p >= 72 && MagicAt(h.minors, HeaderOf(h.ram, p)) != MAGIC)
  }

  ghost function ViewOf(h: Heap): HeapView
    reads h
  {
    HeapView(h.blocks, h.ram)
  }

  predicate Answers(op: Op, ask: Request, page: nat) {
    match ask
    case AskMalloc(req) => op.Malloc? && op.req == req && op.page == page
    case AskFree(p) => op == Free(p)
    case AskRealloc(p, size) => op.Realloc? && op.p == p && op.size == size && op.page == page
    case AskStore(p, i, v) => op == Store(p, i, v)
  }

  /** What a call does to chunks and payloads is a step, with no more header bytes written. */
  lemma HappensSteps(s: HeapView, op: Op, s': HeapView)
    requires Happens(s, op, s')
    ensures Steps(s, op, s')
  {
    hide Happens, InHeader;
    assert Stage(s, s, op, s', s');
  }

  /** Any one call on a valid heap is a step of a run and leaves a valid heap. */
  method Perform(h: Heap, ask: Request, page: nat, ghost k: nat, ghost j: nat) returns (op: Op)
    requires h.Valid() && Allowed(h, ask, page, k, j)
    modifies h
    ensures h.Valid() && Answers(op, ask, page)
    ensures Enabled(old(ViewOf(h)), op) && Happens(old(ViewOf(h)), op, ViewOf(h))
            && Steps(old(ViewOf(h)), op, ViewOf(h))
  {
    hide Heap.Valid, FreshRange, PagesFor, NoFit, MallocDone, Moved, Copied, AboveNull, FreeSpec, HeaderOf, Payload,
      HasChunk, Steps;
    ghost var s := ViewOf(h);
    match ask {
      case AskMalloc(req) =>
        var p, k', j' := h.Kmalloc(req, page);
        op := Malloc(req, page, p);
      case AskFree(p) =>
        PointerLive(h, p, k, j);
        h.Kfree(p, k, j);
        op := Free(p);
      case AskRealloc(p, size) =>
        PointerLive(h, p, k, j);
        var q, k', j' := h.Krealloc(p, size, page, k, j);
        op := Realloc(p, size, page, q);
        if size != 0 && p != 0 && IsLive(s.blocks, k, j, p) {
          assert ResizesAt(s, k, j, p, size, page, q, ViewOf(h));
        }
      case AskStore(p, i, v) =>
        HasAt(h.blocks, k, j);
        h.Store(p, i, v, k, j);
        op := Store(p, i, v);
    }
    HappensSteps(s, op, ViewOf(h));
  }

  /** Among the pointers callers may pass, the live ones are those at the chunk they name. */
  lemma PointerLive(h: Heap, p: nat, k: nat, j: nat)
    requires h.Valid() && Pointer(h, p, k, j)
    ensures LivePointer(h.blocks, p) <==> IsLive(h.blocks, k, j, p)
    ensures LivePointer(h.blocks, p) ==> p != 0
  {
    hide Consistent, Payload, HeaderOf;
    if LivePointer(h.blocks, p) {
      var c :| HasChunk(h.blocks, c) && Payload(c) == p;
      var x: nat, y: nat :| IsChunk(h.blocks, x, y) && h.blocks[x].chunks[y] == c;
      LiveHeader(h.majors, h.minors, h.ram, h.memRoot, h.bestBet, h.inuse, h.heapBytes, h.blocks, x, y, p);
    }
    if IsLive(h.blocks, k, j, p) { HasAt(h.blocks, k, j); }
  }
}
