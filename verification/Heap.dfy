/** kmalloc, kfree and krealloc of kernel/src/mm/liballoc/liballoc.c. */
module Heap {
  import opened HeapLayout
  import opened HeapWiring

  /** Pages allocate_new_page asks for: room for both headers, rounded up, at least 16. */
  function PagesFor(size: nat): (n: nat)
    ensures n >= 16 && n * 4096 >= size + 80 && (n > 16 ==> (n - 1) * 4096 < size + 80)
  {
    var st := size + 80;
    var n := if st % 4096 == 0 then st / 4096 else st / 4096 + 1;
    if n < 16 then 16 else n
  }

  /** The request sizes for which the 32-bit block size does not wrap. */
  predicate SmallEnough(req: nat) {
    PagesFor(req + 32) * 4096 < 0x1_0000_0000
  }

  ghost predicate IsBase(blocks: seq<Block>, a: nat) {
    exists k :: 0 <= k < |blocks| && blocks[k].base == a
  }

  /** Links, hint and counters all agree with the layout. */
  ghost predicate Consistent(majors: Majors, minors: Minors, ram: Ram, root: nat, bet: nat,
                             inuse: nat, heapBytes: nat, blocks: seq<Block>)
  {
    && Wired(majors, minors, ram, blocks)
    && root == BlockAt(blocks, 0)
    && (bet == 0 || IsBase(blocks, bet))
    && inuse == InUse(blocks)
    && heapBytes == Allocated(blocks)
  }

  /** A C conversion of an unsigned 32-bit difference to int. */
  function ToInt32(x: int): int {
    if x % 0x1_0000_0000 < 0x8000_0000 then x % 0x1_0000_0000 else x % 0x1_0000_0000 - 0x1_0000_0000
  }

  lemma PlaceConsistent(majors: Majors, minors: Minors, ram: Ram, root: nat, bet: nat, inuse: nat, heapBytes: nat,
                        blocks: seq<Block>, k: nat, j: nat, size: nat, req: nat)
    requires Consistent(majors, minors, ram, root, bet, inuse, heapBytes, blocks)
    requires k < |blocks| && j <= |blocks[k].chunks| && Fits(blocks[k], j, size + 40) && req + 32 <= size
    ensures var b := blocks[k];
            var c := NewChunk(b, j, size, req);
            && b.base in majors && MinorsPresent(minors, b)
            && Consistent(MajorPlaced(majors, b.base, size, if j == 0 then c.addr else majors[b.base].first),
                          LinkIn(minors, b, j, c), ram[BackAddr(c) := BackOffset(c)], root, bet, inuse + size,
                          heapBytes,
                          blocks[k := Place(b, j, size, req)])
  {
    hide Wired, InUse, Allocated, TotalSize, LinkIn, BackAddr, BackOffset, Fits;
    PlaceWired(majors, minors, ram, blocks, k, j, size, req);
    SumUpdate(blocks, k, Place(blocks[k], j, size, req));
    PlaceTotal(blocks[k], j, size, req);
    KeepBases(blocks, k, Place(blocks[k], j, size, req), bet);
  }

  lemma KeepBases(blocks: seq<Block>, k: nat, b: Block, a: nat)
    requires k < |blocks| && b.base == blocks[k].base
    ensures IsBase(blocks, a) ==> IsBase(blocks[k := b], a)
    ensures BlockAt(blocks[k := b], 0) == BlockAt(blocks, 0)
  {
    if IsBase(blocks, a) {
      var i :| 0 <= i < |blocks| && blocks[i].base == a;
      assert blocks[k := b][i].base == a;
    }
  }

  lemma AppendConsistent(majors: Majors, minors: Minors, ram: Ram, root: nat, bet: nat, inuse: nat, heapBytes: nat,
                         blocks: seq<Block>, base: nat, pages: nat)
    requires Consistent(majors, minors, ram, root, bet, inuse, heapBytes, blocks) && FreshRange(blocks, base, pages)
    ensures var last := BlockAt(blocks, |blocks| - 1);
            && (last == 0 || last in majors)
            && Consistent(Appended(majors, last, base, pages), minors, ram, if root == 0 then base else root, bet,
                          inuse, heapBytes + pages * 4096, blocks + [Block(base, pages, [])])
            && (root == 0 <==> blocks == []) && (last == 0 <==> blocks == [])
  {
    hide Wired, InUse, Allocated, TotalSize, FreshRange;
    AppendWired(majors, minors, ram, blocks, base, pages);
    SumAppend(blocks, Block(base, pages, []));
    assert TotalSize([]) == 0 by { EmptyTotal(); }
    if blocks != [] {
      WiredBase(majors, minors, ram, blocks, 0);
      WiredBase(majors, minors, ram, blocks, |blocks| - 1);
    }
    if IsBase(blocks, bet) {
      var i :| 0 <= i < |blocks| && blocks[i].base == bet;
      assert (blocks + [Block(base, pages, [])])[i].base == bet;
    }
  }

  lemma EmptyTotal()
    ensures TotalSize([]) == 0 && Usage([]) == 0
  {
  }

  lemma WiredBase(majors: Majors, minors: Minors, ram: Ram, blocks: seq<Block>, k: nat)
    requires Wired(majors, minors, ram, blocks) && k < |blocks|
    ensures blocks[k].base > 0 && BlockOk(blocks[k]) && blocks[k].base in majors
    ensures majors[blocks[k].base] == MajorFor(blocks, k)
    ensures 0 <= FreeBytes(blocks[k]) && MinorsPresent(minors, blocks[k])
  {
    FreeNonnegative(blocks[k]);
  }

  lemma WiredChunk(majors: Majors, minors: Minors, ram: Ram, blocks: seq<Block>, k: nat, j: nat)
    requires Wired(majors, minors, ram, blocks) && k < |blocks| && j < |blocks[k].chunks|
    ensures var c := blocks[k].chunks[j];
            && c.addr > blocks[k].base && End(c) <= BlockEnd(blocks[k]) && Roomy(c)
            && c.addr in minors && minors[c.addr] == MinorFor(blocks[k], j)
            && Peek(ram, BackAddr(c)) == BackOffset(c)
  {
    BlockParts(majors, minors, ram, blocks, k);
    Within(blocks[k], j);
  }

  /** Chunk addresses are never NULL, so a NULL link means the end of the list. */
  lemma LinkIsNull(majors: Majors, minors: Minors, ram: Ram, blocks: seq<Block>, k: nat, j: int)
    requires Wired(majors, minors, ram, blocks) && k < |blocks|
    ensures ChunkAt(blocks[k].chunks, j) == 0 <==> !(0 <= j < |blocks[k].chunks|)
  {
    hide Wired;
    if 0 <= j < |blocks[k].chunks| {
      WiredChunk(majors, minors, ram, blocks, k, j);
    }
  }

  class Heap {
    var majors: Majors
    var minors: Minors
    var ram: Ram
    var memRoot: nat
    var bestBet: nat
    var inuse: nat
    var heapBytes: nat
    var warningCount: nat
    var errorCount: nat
    var possibleOverruns: nat
    /** The layout the headers in memory describe. */
    ghost var blocks: seq<Block>

    ghost predicate Working()
      reads this
    {
      Consistent(majors, minors, ram, memRoot, bestBet, inuse, heapBytes, blocks)
    }

    ghost predicate Valid()
      reads this
    {
      Working() && NoneEmpty(blocks)
    }

    constructor ()
      ensures Valid() && blocks == [] && heapBytes == 0 && inuse == 0
    {
      majors, minors, ram := map[], map[], map[];
      memRoot, bestBet, inuse, heapBytes := 0, 0, 0, 0;
      warningCount, errorCount, possibleOverruns := 0, 0, 0;
      blocks := [];
    }

    /** ALIGN: step over 16 bytes, round up to 16, record the distance 16 bytes back. */
    method Align(body: nat) returns (p: nat)
      modifies this`ram
      ensures p == AlignUp16(body) && ram == old(ram)[p - 16 := p - body]
    {
      p := body + 16;
      var diff := p % 16;
      if diff != 0 {
        diff := 16 - diff;
        p := p + diff;
      }
      ram := ram[p - 16 := diff + 16];
    }

    // ---------- the placement cases ----------

    /** Case 2: the block holds no chunk. */
    method PlaceOnly(maj: nat, size: nat, req: nat, ghost k: nat) returns (p: nat)
      requires Working() && k < |blocks| && maj == blocks[k].base && blocks[k].chunks == []
      requires Fits(blocks[k], 0, size + 40) && req + 32 <= size
      modifies this`majors, this`minors, this`ram, this`inuse, this`blocks
      ensures Working() && blocks == old(blocks)[k := Place(old(blocks)[k], 0, size, req)]
      ensures p == Payload(NewChunk(old(blocks)[k], 0, size, req))
      ensures ram == old(ram)[p - 16 := BackOffset(NewChunk(old(blocks)[k], 0, size, req))]
    {
      hide Wired, InUse, Allocated, Usage, IsBase;
      PlaceConsistent(majors, minors, ram, memRoot, bestBet, inuse, heapBytes, blocks, k, 0, size, req);
      var first := maj + 40;
      minors := minors[first := Minor(0, 0, maj, MAGIC, size, req)];
      majors := majors[maj := majors[maj].(usage := majors[maj].usage + size + 40, first := first)];
      inuse := inuse + size;
      p := Align(first + 40);
      blocks := blocks[k := Place(blocks[k], 0, size, req)];
    }

    /** Case 3: in front of the first chunk. */
    method PlaceFront(maj: nat, size: nat, req: nat, ghost k: nat) returns (p: nat)
      requires Working() && k < |blocks| && maj == blocks[k].base && blocks[k].chunks != []
      requires Fits(blocks[k], 0, size + 40) && req + 32 <= size
      modifies this`majors, this`minors, this`ram, this`inuse, this`blocks
      ensures Working() && blocks == old(blocks)[k := Place(old(blocks)[k], 0, size, req)]
      ensures p == Payload(NewChunk(old(blocks)[k], 0, size, req))
      ensures ram == old(ram)[p - 16 := BackOffset(NewChunk(old(blocks)[k], 0, size, req))]
    {
      hide Wired, InUse, Allocated, Usage, IsBase;
      PlaceConsistent(majors, minors, ram, memRoot, bestBet, inuse, heapBytes, blocks, k, 0, size, req);
      WiredBase(majors, minors, ram, blocks, k);
      WiredChunk(majors, minors, ram, blocks, k, 0);
      var first, was := maj + 40, majors[maj].first;
      minors := minors[was := minors[was].(prev := first)];
      minors := minors[first := Minor(0, was, maj, MAGIC, size, req)];
      majors := majors[maj := majors[maj].(usage := majors[maj].usage + size + 40, first := first)];
      inuse := inuse + size;
      p := Align(first + 40);
      assert minors == LinkIn(old(minors), old(blocks)[k], 0, NewChunk(old(blocks)[k], 0, size, req));
      blocks := blocks[k := Place(blocks[k], 0, size, req)];
    }

    /** Case 4.1: behind the last chunk. */
    method PlaceBack(maj: nat, min: nat, size: nat, req: nat, ghost k: nat) returns (p: nat)
      requires Working() && k < |blocks| && maj == blocks[k].base && blocks[k].chunks != []
      requires min == blocks[k].chunks[|blocks[k].chunks| - 1].addr
      requires Fits(blocks[k], |blocks[k].chunks|, size + 40) && req + 32 <= size
      modifies this`majors, this`minors, this`ram, this`inuse, this`blocks
      ensures Working() && blocks == old(blocks[k := Place(blocks[k], |blocks[k].chunks|, size, req)])
      ensures p == old(Payload(NewChunk(blocks[k], |blocks[k].chunks|, size, req)))
      ensures ram == old(ram)[p - 16 := old(BackOffset(NewChunk(blocks[k], |blocks[k].chunks|, size, req)))]
    {
      hide Wired, InUse, Allocated, Usage, IsBase;
      ghost var j := |blocks[k].chunks|;
      PlaceConsistent(majors, minors, ram, memRoot, bestBet, inuse, heapBytes, blocks, k, j, size, req);
      WiredBase(majors, minors, ram, blocks, k);
      WiredChunk(majors, minors, ram, blocks, k, j - 1);
      var next := min + 40 + minors[min].size;
      minors := minors[min := minors[min].(next := next)];
      minors := minors[next := Minor(min, 0, maj, MAGIC, size, req)];
      majors := majors[maj := majors[maj].(usage := majors[maj].usage + size + 40)];
      inuse := inuse + size;
      p := Align(next + 40);
      assert minors == LinkIn(old(minors), old(blocks)[k], j, NewChunk(old(blocks)[k], j, size, req));
      blocks := blocks[k := Place(blocks[k], j, size, req)];
    }

    /** Case 4.2: between two chunks. */
    method PlaceBetween(maj: nat, min: nat, size: nat, req: nat, ghost k: nat, ghost j: nat) returns (p: nat)
      requires Working() && k < |blocks| && maj == blocks[k].base && 0 < j < |blocks[k].chunks|
      requires min == blocks[k].chunks[j - 1].addr
      requires Fits(blocks[k], j, size + 40) && req + 32 <= size
      modifies this`majors, this`minors, this`ram, this`inuse, this`blocks
      ensures Working() && blocks == old(blocks[k := Place(blocks[k], j, size, req)])
      ensures p == old(Payload(NewChunk(blocks[k], j, size, req)))
      ensures ram == old(ram)[p - 16 := old(BackOffset(NewChunk(blocks[k], j, size, req)))]
    {
      hide Consistent, BlockOk, Fits;
      PlaceConsistent(majors, minors, ram, memRoot, bestBet, inuse, heapBytes, blocks, k, j, size, req);
      BetweenFacts(majors, minors, ram, memRoot, bestBet, inuse, heapBytes, blocks, k, j, size);
      var next := minors[min].next;
      var newMin := min + 40 + minors[min].size;
      minors := minors[newMin := Minor(min, next, maj, MAGIC, size, req)];
      minors := minors[next := minors[next].(prev := newMin)];
      minors := minors[min := minors[min].(next := newMin)];
      majors := majors[maj := majors[maj].(usage := majors[maj].usage + size + 40)];
      inuse := inuse + size;
      p := Align(newMin + 40);
      assert minors == LinkIn(old(minors), old(blocks)[k], j, NewChunk(old(blocks)[k], j, size, req));
      blocks := blocks[k := Place(blocks[k], j, size, req)];
    }

    /** Cases 2 to 4 on one block: put the chunk into the first gap that is large enough, if any. */
    method TryPlace(maj: nat, size: nat, req: nat, ghost k: nat) returns (p: nat, ghost j: nat)
      requires Working() && k < |blocks| && maj == blocks[k].base
      requires FreeBytes(blocks[k]) >= size + 40 && req + 32 <= size
      modifies this`majors, this`minors, this`ram, this`inuse, this`blocks
      ensures Working()
      ensures p != 0 ==>
                FirstFit(old(blocks)[k], j, size + 40)
                && PlacedIn(old(blocks), old(ram), blocks, ram, k, j, size, req, p)
      ensures p == 0 ==>
                !HasFit(old(blocks)[k], size + 40) && blocks == old(blocks) && ram == old(ram)
                && majors == old(majors) && minors == old(minors) && inuse == old(inuse)
    {
      hide Wired, InUse, Allocated, Usage, IsBase, PlacedIn;
      ghost var b := blocks[k];
      WiredBase(majors, minors, ram, blocks, k);
      LinkIsNull(majors, minors, ram, blocks, k, 0);
      var first := majors[maj].first;
      if first == 0 {
        EmptyFits(b, size + 40);
        j := 0;
        p := PlaceOnly(maj, size, req, k);
        IsPlaced(old(blocks), old(ram), blocks, ram, k, j, size, req, p);
        return;
      }
      WiredChunk(majors, minors, ram, blocks, k, 0);
      if first - maj - 40 >= size + 40 {
        j := 0;
        p := PlaceFront(maj, size, req, k);
        IsPlaced(old(blocks), old(ram), blocks, ram, k, j, size, req, p);
        return;
      }
      p, j := ScanGaps(maj, first, size, req, k);
    }

    /** The loop of case 4. */
    method ScanGaps(maj: nat, first: nat, size: nat, req: nat, ghost k: nat) returns (p: nat, ghost j: nat)
      requires Working() && k < |blocks| && maj == blocks[k].base && blocks[k].chunks != []
      requires first == blocks[k].chunks[0].addr && !Fits(blocks[k], 0, size + 40) && req + 32 <= size
      modifies this`majors, this`minors, this`ram, this`inuse, this`blocks
      ensures Working()
      ensures p != 0 ==>
                FirstFit(old(blocks)[k], j, size + 40)
                && PlacedIn(old(blocks), old(ram), blocks, ram, k, j, size, req, p)
      ensures p == 0 ==>
                !HasFit(old(blocks)[k], size + 40) && blocks == old(blocks) && ram == old(ram)
                && majors == old(majors) && minors == old(minors) && inuse == old(inuse)
    {
      hide Consistent, PlacedIn, Fits, ChunkAt;
      ghost var b, need := blocks[k], size + 40;
      var min := first;
      j := 0;
      FirstLink(b);
      while min != 0
        invariant blocks == old(blocks) && ram == old(ram) && majors == old(majors) && minors == old(minors)
                  && inuse == old(inuse)
        invariant 0 <= j <= |b.chunks| && min == ChunkAt(b.chunks, j)
        invariant forall x :: 0 <= x <= j ==> !Fits(b, x, need)
        decreases |b.chunks| - j
      {
        ScanFacts(majors, minors, ram, memRoot, bestBet, inuse, heapBytes, blocks, k, j, need);
        if minors[min].next == 0 {
          if maj + majors[maj].size - min - 40 - minors[min].size >= size + 40 {
            j := j + 1;
            p := PlaceBack(maj, min, size, req, k);
            IsPlaced(old(blocks), old(ram), blocks, ram, k, j, size, req, p);
            return;
          }
        }
        if minors[min].next != 0 {
          if minors[min].next - min - 40 - minors[min].size >= size + 40 {
            j := j + 1;
            p := PlaceBetween(maj, min, size, req, k, j);
            IsPlaced(old(blocks), old(ram), blocks, ram, k, j, size, req, p);
            return;
          }
        }
        min := minors[min].next;
        j := j + 1;
      }
      ScanEnd(majors, minors, ram, memRoot, bestBet, inuse, heapBytes, blocks, k, j);
      p := 0;
    }

    /** allocate_new_page, with the answer of the page source given: NULL or a fresh range. */
    method AllocateNewPage(size: nat, page: nat) returns (maj: nat)
      modifies this`majors, this`heapBytes, this`warningCount
      ensures maj == page
      ensures page == 0 ==> majors == old(majors) && heapBytes == old(heapBytes)
      ensures page != 0 ==>
                majors == old(majors)[page := Major(0, 0, PagesFor(size), PagesFor(size) * 4096, 40, 0)]
                && heapBytes == old(heapBytes) + PagesFor(size) * 4096
      ensures warningCount == old(warningCount) + if page == 0 then 1 else 0
    {
      var st := size + 40;
      st := st + 40;
      if st % 4096 == 0 {
        st := st / 4096;
      } else {
        st := st / 4096 + 1;
      }
      if st < 16 {
        st := 16;
      }
      maj := page;
      if maj == 0 {
        warningCount := warningCount + 1;
        return;
      }
      majors := majors[maj := Major(0, 0, st, st * 4096, 40, 0)];
      heapBytes := heapBytes + majors[maj].size;
    }

    /** Adds a block behind the last one, or as the first. */
    method Extend(last: nat, size: nat, page: nat) returns (ok: bool)
      requires Working() && last == BlockAt(blocks, |blocks| - 1)
      requires page != 0 ==> FreshRange(blocks, page, PagesFor(size))
      modifies this`majors, this`heapBytes, this`warningCount, this`memRoot, this`blocks
      ensures Working() && ok == (page != 0)
      ensures !ok ==>
                blocks == old(blocks) && majors == old(majors) && heapBytes == old(heapBytes)
                && memRoot == old(memRoot)
      ensures ok ==> blocks == old(blocks) + [Block(page, PagesFor(size), [])]
      ensures warningCount == old(warningCount) + if ok then 0 else 1
    {
      hide Wired, InUse, Allocated, Usage, FreshRange, PagesFor;
      if page != 0 {
        AppendConsistent(majors, minors, ram, memRoot, bestBet, inuse, heapBytes, blocks, page, PagesFor(size));
        if blocks != [] {
          FreshBase2(majors, minors, ram, blocks, page, PagesFor(size));
        }
      }
      var maj := AllocateNewPage(size, page);
      if maj == 0 {
        return false;
      }
      if last == 0 {
        memRoot := maj;
      } else {
        majors := majors[last := majors[last].(next := maj)];
        majors := majors[maj := majors[maj].(prev := last)];
      }
      assert majors == Appended(old(majors), last, page, PagesFor(size));
      blocks := blocks + [Block(page, PagesFor(size), [])];
      return true;
    }

    method Kmalloc(req: nat, page: nat) returns (p: nat, ghost k: nat, ghost j: nat)
      requires Valid() && SmallEnough(req)
      requires page != 0 ==> FreshRange(blocks, page, PagesFor(req + 32))
      modifies this
      ensures Valid()
      ensures p == 0 <==> page == 0 && NoFit(old(blocks), req + 72)
      ensures p == 0 ==> blocks == old(blocks) && ram == old(ram) && minors == old(minors)
      ensures p != 0 ==> MallocDone(old(blocks), old(ram), old(bestBet), blocks, ram, page, k, j, req, p)
      ensures HintFound(old(blocks), old(bestBet), page, req, k, p != 0, bestBet)
      ensures errorCount == old(errorCount) && possibleOverruns == old(possibleOverruns)
      ensures warningCount == old(warningCount) + if p == 0 then 1 else 0
    {
      hide Consistent, FreshRange, PagesFor, NoFit, FreeBytes, MallocDone, NoneEmpty, Searching, HintFound, FreeOf,
        BlockIndex;
      var size := req + 32;
      ghost var was, s, grown := blocks, 0, false;
      RootIs(majors, minors, ram, memRoot, bestBet, inuse, heapBytes, blocks);
      if memRoot == 0 {
        EmptyRange(blocks, req + 72);
        var ok := Extend(0, size, page);
        if !ok {
          NoBlocksHint(was, bestBet, page, req);
          return 0, 0, 0;
        }
        grown := true;
      }
      NoHint(majors, minors, ram, memRoot, bestBet, inuse, heapBytes, blocks, was);
      RootIs(majors, minors, ram, memRoot, bestBet, inuse, heapBytes, blocks);
      var maj, startedBet, bestSize := memRoot, false, 0;
      if bestBet != 0 {
        ghost var at := BetIndex(majors, minors, ram, memRoot, bestBet, inuse, heapBytes, blocks);
        bestSize := majors[bestBet].size - majors[bestBet].usage;
        HintIs(majors, minors, ram, memRoot, bestBet, inuse, heapBytes, blocks, at);
        if bestSize > size + 40 {
          maj := bestBet;
          startedBet := true;
          s := at;
        }
      }
      SearchBegins(majors, minors, ram, memRoot, bestBet, inuse, heapBytes, was, blocks, page, size, grown,
          startedBet, s);
      p, k, j := Search(maj, startedBet, bestSize, req, page, was, grown, s);
      if p != 0 {
        NotRefused(was, old(ram), old(bestBet), blocks, ram, page, k, j, req, p);
      }
    }

    /** Remembers the block with the most free bytes seen so far. */
    method Consider(maj: nat, bestSize: nat, diff: nat, ghost k: nat) returns (best: nat)
      requires Working() && k < |blocks| && maj == blocks[k].base
      modifies this`bestBet
      ensures Working() && best == if bestSize < diff then diff else bestSize
      ensures bestBet == if bestSize < diff then maj else old(bestBet)
    {
      hide Consistent;
      best := bestSize;
      if bestSize < diff {
        Rebet(majors, minors, ram, memRoot, bestBet, inuse, heapBytes, blocks, k);
        bestBet := maj;
        best := diff;
      }
    }

    /** Extends the list behind its last block, which is block k. */
    method ExtendAfter(maj: nat, size: nat, page: nat, ghost k: nat) returns (ok: bool)
      requires Working() && k + 1 == |blocks| && maj == blocks[k].base
      requires page != 0 ==> FreshRange(blocks, page, PagesFor(size))
      modifies this`majors, this`heapBytes, this`warningCount, this`memRoot, this`blocks
      ensures Working() && ok == (page != 0)
      ensures !ok ==> blocks == old(blocks)
      ensures ok ==> blocks == old(blocks) + [Block(page, PagesFor(size), [])]
      ensures ok ==> maj in majors && majors[maj].next == page
      ensures warningCount == old(warningCount) + if ok then 0 else 1
    {
      hide Consistent, FreshRange, PagesFor;
      ok := Extend(maj, size, page);
      if ok {
        MajorRead(majors, minors, ram, memRoot, bestBet, inuse, heapBytes, blocks, k);
      }
    }

    /** The main loop of kmalloc, entered at block s. */
    method Search(start: nat, bet: bool, best: nat, req: nat, page: nat, ghost was: seq<Block>, ghost fromEmpty: bool,
                  ghost s: nat)
      returns (p: nat, ghost k: nat, ghost j: nat)
      requires Working() && NoneEmpty(was) && start == BlockAt(blocks, s)
      requires Searching(was, blocks, bestBet, page, PagesFor(req + 32), fromEmpty, bet, s, s, req + 72)
      requires page != 0 ==> FreshRange(was, page, PagesFor(req + 32))
      requires (fromEmpty ==> was == []) && best == FreeOf(was, bestBet) && BeganAt(was, bestBet, req + 72, bet, s)
      modifies this
      ensures Working() && NoneEmpty(blocks)
      ensures p == 0 ==> page == 0 && NoFit(was, req + 72)
      ensures p == 0 ==> blocks == was && ram == old(ram) && minors == old(minors)
      ensures p != 0 ==> MallocDone(was, old(ram), old(bestBet), blocks, ram, page, k, j, req, p)
      ensures HintFound(was, old(bestBet), page, req, k, p != 0, bestBet)
      ensures errorCount == old(errorCount) && possibleOverruns == old(possibleOverruns)
      ensures warningCount == old(warningCount) + if p == 0 then 1 else 0
    {
      hide Consistent, FreshRange, PagesFor, HasFit, FirstFit, PlacedIn, NoFit, FreeBytes, MallocDone, NoneEmpty,
        Searching, BlockOk, TotalSize, MajorsOk, MinorsOk, LayoutOk, Hinted, HintFound, FreeOf, BlockIndex,
        BeganAt;
      var size := req + 32;
      var maj, startedBet, bestSize := start, bet, best;
      ghost var need, grown, pages := req + 72, fromEmpty, PagesFor(req + 32);
      k, j := s, 0;
      p := 0;
      SearchIndex(was, blocks, bestBet, page, pages, grown, startedBet, s, k, need);
      RoomInNew(page, size);
      BeganFront(was, bestBet, need, bet, s);
      HintBegins(was, blocks, bestBet, page, pages, grown, bet, s, need, best);
      while maj != 0
        invariant Working() && k < |blocks| && maj == blocks[k].base && (grown || blocks == was)
        invariant Searching(was, blocks, old(bestBet), page, pages, grown, startedBet, s, k, need)
        invariant Hinted(was, blocks, old(bestBet), bet, startedBet, s, k, bestBet, bestSize) && (startedBet ==> bet)
        invariant warningCount == old(warningCount)
        invariant grown && |was| > 0 ==> FreeBytes(was[|was| - 1]) >= need
        invariant ram == old(ram) && minors == old(minors) && errorCount == old(errorCount)
                  && possibleOverruns == old(possibleOverruns)
        decreases if grown then 0 else 1, startedBet, |blocks| - k
      {
        MajorRead(majors, minors, ram, memRoot, bestBet, inuse, heapBytes, blocks, k);
        RootIs(majors, minors, ram, memRoot, bestBet, inuse, heapBytes, blocks);
        var diff := majors[maj].size - majors[maj].usage;
        HintOne(was, blocks, old(bestBet), page, pages, grown, bet, startedBet, s, k, need, bestBet, bestSize);
        ghost var looked := true;
        bestSize := Consider(maj, bestSize, diff, k);
        if diff < size + 40 {
          SkipIsSafe(blocks[k], need);
          SearchOn(was, blocks, old(bestBet), page, pages, grown, startedBet, s, k, need);
          if majors[maj].next != 0 {
            maj := majors[maj].next;
            k := k + 1;
            continue;
          }
          if startedBet {
            HintWraps(was, blocks, old(bestBet), bet, s, k + 1, bestBet, bestSize);
            maj := memRoot;
            startedBet := false;
            k := 0;
            continue;
          }
          HintGrows(was, old(bestBet), page, req, bet, s, k + 1, bestBet, bestSize);
          var ok := ExtendAfter(maj, size, page, k);
          if !ok {
            break;
          }
          maj := majors[maj].next;
          k := k + 1;
          grown := true;
          looked := false;
        }
        SearchIndex(was, blocks, old(bestBet), page, pages, grown, startedBet, s, k, need);
        HintDone(was, blocks, old(bestBet), page, req, grown, bet, startedBet, s, k, looked, bestBet, bestSize);
        p, j := TryPlace(maj, size, req, k);
        if p != 0 {
          Finished(was, old(ram), old(bestBet), blocks, ram, page, k, j, req, p, s, grown, startedBet);
          return;
        }
        SearchOn(was, blocks, old(bestBet), page, pages, grown, startedBet, s, k, need);
        if majors[maj].next == 0 {
          if startedBet {
            HintWraps(was, blocks, old(bestBet), bet, s, k + 1, bestBet, bestSize);
            maj := memRoot;
            startedBet := false;
            k := 0;
            continue;
          }
          HintGrows(was, old(bestBet), page, req, bet, s, k + 1, bestBet, bestSize);
          var ok := ExtendAfter(maj, size, page, k);
          if !ok {
            break;
          }
          grown := true;
        }
        maj := majors[maj].next;
        k := k + 1;
      }
      MajorRead(majors, minors, ram, memRoot, bestBet, inuse, heapBytes, blocks, k);
      p := 0;
    }

    // ---------- kfree ----------

    /** The first half of kfree: mark the chunk dead and take it out of its block's list. */
    method UnlinkMinor(min: nat, maj: nat, ghost k: nat, ghost j: nat)
      requires Working() && IsChunk(blocks, k, j) && min == blocks[k].chunks[j].addr && maj == blocks[k].base
      modifies this`majors, this`minors, this`inuse, this`blocks
      ensures Working() && blocks == old(blocks[k := Remove(blocks[k], j)])
      ensures min in minors && minors[min].magic == DEAD
    {
      hide Wired, InUse, Allocated, Usage, IsBase;
      ghost var b := blocks[k];
      UnlinkConsistent(majors, minors, ram, memRoot, bestBet, inuse, heapBytes, blocks, k, j);
      WiredBase(majors, minors, ram, blocks, k);
      WiredChunk(majors, minors, ram, blocks, k, j);
      LinkIsNull(majors, minors, ram, blocks, k, j - 1);
      LinkIsNull(majors, minors, ram, blocks, k, j + 1);
      var prev, next := minors[min].prev, minors[min].next;
      inuse := inuse - minors[min].size;
      majors := majors[maj := majors[maj].(usage := majors[maj].usage - (minors[min].size + 40))];
      minors := minors[min := minors[min].(magic := DEAD)];
      if next != 0 {
        minors := minors[next := minors[next].(prev := prev)];
      }
      if prev != 0 {
        minors := minors[prev := minors[prev].(next := next)];
      }
      if prev == 0 {
        majors := majors[maj := majors[maj].(first := next)];
      }
      assert minors == Unlink(old(minors), b, j);
      assert majors == MajorFreed(old(majors), maj, b.chunks[j].size,
                 if j == 0 then ChunkAt(b.chunks, 1) else old(majors)[maj].first);
      DeadStays(old(minors), b, j);
      blocks := blocks[k := Remove(b, j)];
    }

    /** Returns an empty block to the page source. */
    method ReleaseBlock(maj: nat, ghost k: nat)
      requires Working() && k < |blocks| && maj == blocks[k].base && blocks[k].chunks == []
      modifies this`majors, this`memRoot, this`bestBet, this`heapBytes, this`blocks
      ensures Working() && blocks == old(blocks[..k] + blocks[k + 1..])
      ensures bestBet == if old(bestBet) == maj then 0 else old(bestBet)
    {
      hide Consistent, BlockOk, FreeBytes;
      DropConsistent(majors, minors, ram, memRoot, bestBet, inuse, heapBytes, blocks, k);
      DropFacts(majors, minors, ram, memRoot, bestBet, inuse, heapBytes, blocks, k);
      var prev, next := majors[maj].prev, majors[maj].next;
      if memRoot == maj {
        memRoot := next;
      }
      if bestBet == maj {
        bestBet := 0;
      }
      if prev != 0 {
        majors := majors[prev := majors[prev].(next := next)];
      }
      if next != 0 {
        majors := majors[next := majors[next].(prev := prev)];
      }
      heapBytes := heapBytes - majors[maj].size;
      majors := majors - {maj};
      assert majors == Dropped(old(majors), blocks, k);
      blocks := blocks[..k] + blocks[k + 1..];
    }

    /** What kfree and krealloc do about a header without the magic number. */
    method BadMagic(magic: nat)
      modifies this`errorCount, this`possibleOverruns
      ensures errorCount == old(errorCount) + 1
      ensures possibleOverruns == old(possibleOverruns) + if magic % 0x100 == 0xde then 1 else 0
    {
      LowByte(magic, 0x1_0000);
      LowByte(magic, 0x100);
      errorCount := errorCount + 1;
      if magic % 0x100_0000 == MAGIC % 0x100_0000 || magic % 0x1_0000 == MAGIC % 0x1_0000
         || magic % 0x100 == MAGIC % 0x100 {
        possibleOverruns := possibleOverruns + 1;
      }
    }

    method Kfree(ptr: nat, ghost k: nat, ghost j: nat)
      requires Valid()
      requires ptr == 0 || IsLive(blocks, k, j, ptr) || (ptr >= 72 && MagicAt(minors, HeaderOf(ram, ptr)) != MAGIC)
      modifies this
      ensures Valid() && ram == old(ram)
      ensures ptr != 0 && old(IsLive(blocks, k, j, ptr)) ==> blocks == FreeSpec(old(blocks), k, j)
      ensures ptr != 0 && old(IsLive(blocks, k, j, ptr)) ==>
                errorCount == old(errorCount) && MagicAt(minors, HeaderOf(ram, ptr)) == 0xdeaddead
      ensures ptr != 0 && old(IsLive(blocks, k, j, ptr)) ==> bestBet == FreeHint(old(blocks), k, j, old(bestBet))
      ensures ptr == 0 || !old(IsLive(blocks, k, j, ptr)) ==> bestBet == old(bestBet)
      ensures warningCount == old(warningCount) + if ptr == 0 then 1 else 0
      ensures ptr == 0 ==> blocks == old(blocks) && errorCount == old(errorCount)
      ensures ptr != 0 && !old(IsLive(blocks, k, j, ptr)) ==> blocks == old(blocks) && errorCount == old(errorCount) + 1
    {
      hide Consistent, NoneEmpty, Payload, BackAddr, BackOffset, FreeBytes, FreeOf, ToInt32;
      if ptr == 0 {
        warningCount := warningCount + 1;
        return;
      }
      if IsLive(blocks, k, j, ptr) {
        LiveHeader(majors, minors, ram, memRoot, bestBet, inuse, heapBytes, blocks, k, j, ptr);
      }
      var min := HeaderOf(ram, ptr);
      if MagicAt(minors, min) != MAGIC {
        BadMagic(MagicAt(minors, min));
        return;
      }
      var maj := minors[min].block;
      UnlinkMinor(min, maj, k, j);
      MajorRead(majors, minors, ram, memRoot, bestBet, inuse, heapBytes, blocks, k);
      FreeSteps(old(blocks), k, j);
      if majors[maj].first == 0 {
        ReleaseBlock(maj, k);
      } else if bestBet != 0 {
        ghost var i := BetIndex(majors, minors, ram, memRoot, bestBet, inuse, heapBytes, blocks);
        var bestSize := ToInt32(majors[bestBet].size - majors[bestBet].usage);
        var majSize := ToInt32(majors[maj].size - majors[maj].usage);
        HintIs(majors, minors, ram, memRoot, bestBet, inuse, heapBytes, blocks, i);
        if majSize > bestSize {
          Rebet(majors, minors, ram, memRoot, bestBet, inuse, heapBytes, blocks, k);
          bestBet := maj;
        }
      }
    }

    // ---------- a caller's write ----------

    /** The owner of a payload stores one byte in it. */
    method Store(p: nat, i: nat, v: nat, ghost k: nat, ghost j: nat)
      requires Valid() && IsLive(blocks, k, j, p) && i < blocks[k].chunks[j].req
      modifies this`ram
      ensures Valid() && ram == old(ram)[p + i := v]
    {
      hide Consistent;
      StoreConsistent(majors, minors, ram, memRoot, bestBet, inuse, heapBytes, blocks, k, j, p, i, v);
      ram := ram[p + i := v];
    }

    // ---------- krealloc ----------

    /** liballoc_memcpy: four bytes at a time, then one at a time. */
    method Memcpy(dst: nat, src: nat, n: nat)
      requires Disjoint(dst, n, src, n)
      modifies this`ram
      ensures Copied(old(ram), ram, dst, src, n)
    {
      hide Copied;
      var done, left := 0, n;
      CopyNothing(ram, dst, src);
      while left >= 4
        invariant done + left == n && Copied(old(ram), ram, dst, src, done)
      {
        var d, s := dst + done, src + done;
        var b0, b1, b2, b3 := Peek(ram, s), Peek(ram, s + 1), Peek(ram, s + 2), Peek(ram, s + 3);
        CopyByte(old(ram), ram, dst, src, done, done, n);
        CopyByte(old(ram), ram, dst, src, done, done + 1, n);
        CopyByte(old(ram), ram, dst, src, done, done + 2, n);
        CopyByte(old(ram), ram, dst, src, done, done + 3, n);
        CopyNext(old(ram), ram, dst, src, done);
        CopyNext(old(ram), ram[d := b0], dst, src, done + 1);
        CopyNext(old(ram), ram[d := b0][d + 1 := b1], dst, src, done + 2);
        CopyNext(old(ram), ram[d := b0][d + 1 := b1][d + 2 := b2], dst, src, done + 3);
        ram := ram[d := b0][d + 1 := b1][d + 2 := b2][d + 3 := b3];
        done, left := done + 4, left - 4;
      }
      while left > 0
        invariant done + left == n && Copied(old(ram), ram, dst, src, done)
      {
        CopyByte(old(ram), ram, dst, src, done, done, n);
        CopyNext(old(ram), ram, dst, src, done);
        ram := ram[dst + done := Peek(ram, src + done)];
        done, left := done + 1, left - 1;
      }
    }

    method Krealloc(p: nat, size: nat, page: nat, ghost k: nat, ghost j: nat)
      returns (q: nat, ghost k': nat, ghost j': nat)
      requires Valid() && SmallEnough(size)
      requires page != 0 ==> FreshRange(blocks, page, PagesFor(size + 32))
      requires p == 0 || IsLive(blocks, k, j, p) || (p >= 72 && MagicAt(minors, HeaderOf(ram, p)) != MAGIC)
      // a failed growth copies to address 0: the heap does not live there
      requires IsLive(blocks, k, j, p) ==> AboveNull(blocks, blocks[k].chunks[j].req)
      modifies this
      ensures Valid()
      ensures size == 0 ==> q == 0 && ram == old(ram)
      ensures size == 0 && p != 0 && old(IsLive(blocks, k, j, p)) ==> blocks == FreeSpec(old(blocks), k, j)
      ensures size == 0 && (p == 0 || !old(IsLive(blocks, k, j, p))) ==> blocks == old(blocks)
      ensures size != 0 && p == 0 && q != 0 ==>
                MallocDone(old(blocks), old(ram), old(bestBet), blocks, ram, page, k', j', size, q)
      ensures size != 0 && p == 0 ==> (q == 0 <==> page == 0 && NoFit(old(blocks), size + 72))
      ensures size != 0 && p == 0 && q == 0 ==> blocks == old(blocks) && ram == old(ram)
      ensures size != 0 && p != 0 && !old(IsLive(blocks, k, j, p)) ==>
                q == 0 && blocks == old(blocks) && ram == old(ram) && errorCount == old(errorCount) + 1
      ensures size != 0 && p != 0 && old(IsLive(blocks, k, j, p)) && size > old(blocks)[k].chunks[j].req ==>
                (q == 0 <==> page == 0 && NoFit(old(blocks), size + 72))
      ensures size != 0 && p != 0 && old(IsLive(blocks, k, j, p)) ==>
                if size <= old(blocks)[k].chunks[j].req then
                  q == p && ram == old(ram) && blocks == Resized(old(blocks), k, j, size)
                else if q == 0 then
                  blocks == FreeSpec(old(blocks), k, j) && Copied(old(ram), ram, 0, p, old(blocks)[k].chunks[j].req)
                else
                  Moved(old(blocks), old(ram), old(bestBet), blocks, ram, page, k, j, k', j', size, p, q)
    {
      hide Consistent, NoneEmpty, Payload, BackAddr, BackOffset, MallocDone, NoFit, FreshRange, PagesFor, FreeSpec,
        Moved, AboveNull, Copied, HeaderOf;
      k', j' := 0, 0;
      if size == 0 {
        Kfree(p, k, j);
        return 0, 0, 0;
      }
      if p == 0 {
        q, k', j' := Kmalloc(size, page);
        return;
      }
      if IsLive(blocks, k, j, p) {
        LiveHeader(majors, minors, ram, memRoot, bestBet, inuse, heapBytes, blocks, k, j, p);
      }
      var min := HeaderOf(ram, p);
      if MagicAt(minors, min) != MAGIC {
        BadMagic(MagicAt(minors, min));
        return 0, 0, 0;
      }
      var realSize := minors[min].reqSize;
      if realSize >= size {
        ResizeConsistent(majors, minors, ram, memRoot, bestBet, inuse, heapBytes, blocks, k, j, size);
        minors := minors[min := minors[min].(reqSize := size)];
        blocks := Resized(blocks, k, j, size);
        return p, k, j;
      }
      q, k', j' := Grow(p, realSize, size, page, k, j);
    }

    /** The last four statements of krealloc: allocate, copy, free, return. */
    method Grow(p: nat, realSize: nat, size: nat, page: nat, ghost k: nat, ghost j: nat)
      returns (q: nat, ghost k': nat, ghost j': nat)
      requires Valid() && SmallEnough(size) && IsLive(blocks, k, j, p) && realSize == blocks[k].chunks[j].req < size
      requires page != 0 ==> FreshRange(blocks, page, PagesFor(size + 32))
      requires AboveNull(blocks, realSize)
      modifies this
      ensures Valid()
      ensures q == 0 <==> page == 0 && NoFit(old(blocks), size + 72)
      ensures q == 0 ==> blocks == FreeSpec(old(blocks), k, j) && Copied(old(ram), ram, 0, p, realSize)
      ensures q != 0 ==> Moved(old(blocks), old(ram), old(bestBet), blocks, ram, page, k, j, k', j', size, p, q)
    {
      hide Consistent, NoneEmpty, Payload, BackAddr, BackOffset, MallocDone, NoFit, FreshRange, PagesFor, FreeSpec,
        Moved, AboveNull, Copied, HeaderOf, LayoutOk;
      ghost var was, wasRam, bet := blocks, ram, bestBet;
      LiveHeader(majors, minors, ram, memRoot, bestBet, inuse, heapBytes, blocks, k, j, p);
      q, k', j' := Kmalloc(size, page);
      ghost var at := j;
      ghost var mid, midRam := blocks, ram;
      LayoutOf(majors, minors, ram, memRoot, bestBet, inuse, heapBytes, blocks);
      if q == 0 {
        NullApart(majors, minors, ram, memRoot, bestBet, inuse, heapBytes, blocks, k, j, p);
      } else {
        at := OldChunkAt(was, wasRam, bet, blocks, ram, page, k', j', size, q, k, j);
        PayloadsApart(majors, minors, ram, memRoot, bestBet, inuse, heapBytes, blocks, k, at, k', j', p, q, realSize);
      }
      Memcpy(q, p, realSize);
      CopyConsistent(majors, minors, midRam, ram, memRoot, bestBet, inuse, heapBytes, blocks, q, p, realSize, k', j');
      Kfree(p, k, at);
      if q != 0 {
        IsMoved(was, wasRam, bet, mid, midRam, blocks, ram, page, k, j, k', j', at, size, p, q);
      }
    }
  }

  // ---------- facts about the search ----------

  ghost predicate NoFitIn(blocks: seq<Block>, lo: nat, hi: nat, need: nat) {
    forall x :: lo <= x < hi && x < |blocks| ==> !HasFit(blocks[x], need)
  }

  ghost predicate NoFit(blocks: seq<Block>, need: nat) {
    NoFitIn(blocks, 0, |blocks|, need)
  }

  /** The block the search starts from: the hint if its free bytes promise enough, else the first. */
  ghost predicate StartsAt(blocks: seq<Block>, bet: nat, s: nat, need: nat) {
    if s < |blocks| && blocks[s].base == bet && FreeBytes(blocks[s]) > need then true
    else s == 0 && forall i :: 0 <= i < |blocks| && blocks[i].base == bet ==> FreeBytes(blocks[i]) <= need
  }

  /** Block k is the first with a fitting gap in search order: from the start to the end of the
      list, then once more from the front. */
  ghost predicate FoundInOrder(blocks: seq<Block>, bet: nat, k: nat, need: nat) {
    exists s :: StartsAt(blocks, bet, s, need) &&
                if k >= s then NoFitIn(blocks, s, k, need)
                else NoFitIn(blocks, s, |blocks|, need) && NoFitIn(blocks, 0, k, need)
  }

  /** A successful kmalloc: one chunk more, in the first fitting gap of the block the search finds.
      The page source is used only when no existing block has a fitting gap. */
  ghost predicate MallocDone(blocks: seq<Block>, ram: Ram, bet: nat, blocks': seq<Block>, ram': Ram,
                             page: nat, k: nat, j: nat, req: nat, p: nat)
  {
    var size := req + 32;
    var g := Grown(blocks, k, page, PagesFor(size));
    && k <= |blocks| && j <= |g[k].chunks|
    && FirstFit(g[k], j, req + 72)
    && blocks' == MallocSpec(blocks, k, j, page, PagesFor(size), size, req)
    && (k == |blocks| ==> page != 0 && NoFit(blocks, req + 72))
    && (k < |blocks| ==> FoundInOrder(blocks, bet, k, req + 72))
    && var c := NewChunk(g[k], j, size, req);
       p == Payload(c) && ram' == ram[BackAddr(c) := BackOffset(c)]
  }

  // ---------- the hint ----------

  /** Indices lo to hi - 1. */
  function Range(lo: nat, hi: nat): seq<nat>
    decreases hi
  {
    if lo >= hi then [] else Range(lo, hi - 1) + [hi - 1]
  }

  /** The free bytes of the block at an address, 0 if there is none. */
  function FreeOf(blocks: seq<Block>, a: nat): int {
    if blocks == [] then 0
    else if blocks[|blocks| - 1].base == a then FreeBytes(blocks[|blocks| - 1])
    else FreeOf(blocks[..|blocks| - 1], a)
  }

  function BlockIndex(blocks: seq<Block>, a: nat): nat {
    if blocks == [] then 0
    else if blocks[|blocks| - 1].base == a then |blocks| - 1
    else BlockIndex(blocks[..|blocks| - 1], a)
  }

  /** The hint, with its free bytes, after looking at the given blocks in turn: a block with more free bytes
      replaces it. */
  function HintAfter(blocks: seq<Block>, seen: seq<nat>, hint: (nat, int)): (nat, int) {
    if seen == [] then hint else
    var h := HintAfter(blocks, seen[..|seen| - 1], hint);
    var i := seen[|seen| - 1];
    if i < |blocks| && FreeBytes(blocks[i]) > h.1 then (blocks[i].base, FreeBytes(blocks[i])) else h
  }

  /** The blocks kmalloc's loop has looked at when it comes to block k: from the hint on, then from the front. */
  function Visits(bet: bool, started: bool, s: nat, k: nat, n: nat): seq<nat> {
    if started then Range(s, k) else if bet then Range(s, n) + Range(0, k) else Range(0, k)
  }

  ghost predicate Hinted(was: seq<Block>, cur: seq<Block>, bet0: nat, bet: bool, started: bool, s: nat, k: nat,
                         bestBet: nat, bestSize: int)
  {
    (bestBet, bestSize) == HintAfter(cur, Visits(bet, started, s, k, |was|), (bet0, FreeOf(was, bet0)))
  }

  /** The hint kmalloc leaves: the block with the most free bytes among the old hint and the blocks looked at.
      A block just added behind a block too full to try is not looked at. */
  ghost predicate HintLeft(was: seq<Block>, bet0: nat, page: nat, req: nat, k: nat, found: bool, wrapped: bool,
                           bestBet: nat)
  {
    var need, n := req + 72, |was|;
    var started := FreeOf(was, bet0) > need;
    var s := if started then BlockIndex(was, bet0) else 0;
    var cur := if found && k == n then was + [Block(page, PagesFor(req + 32), [])] else was;
    var seen := if !found || (k == n && n > 0 && FreeBytes(was[n - 1]) < need) then Visits(started, false, s, n, n)
                else Visits(started, started && !wrapped, s, k + 1, n);
    bestBet == HintAfter(cur, seen, (bet0, FreeOf(was, bet0))).0
  }

  ghost predicate HintFound(was: seq<Block>, bet0: nat, page: nat, req: nat, k: nat, found: bool, bestBet: nat) {
    || HintLeft(was, bet0, page, req, k, found, false, bestBet)
    || HintLeft(was, bet0, page, req, k, found, true, bestBet)
  }

  /** The hint kfree leaves. A released block is no hint; otherwise the block freed from becomes the hint if it
      has more free bytes than the old one, compared as signed 32-bit numbers. */
  function FreeHint(blocks: seq<Block>, k: nat, j: nat, bet: nat): nat
    requires IsChunk(blocks, k, j)
  {
    var b := Remove(blocks[k], j);
    if b.chunks == [] then if bet == b.base then 0 else bet
    else if bet == 0 then 0
    else if ToInt32(FreeBytes(b)) > ToInt32(FreeOf(blocks[k := b], bet)) then b.base else bet
  }

  /** The hint kfree leaves has at least as many free bytes as the old hint and the block freed from, if and
      only if those two both have less than 2 GiB free or both have not: the code compares them as signed
      numbers. */
  lemma FreeHintLarger(blocks: seq<Block>, k: nat, j: nat, bet: nat)
    requires LayoutOk(blocks) && IsChunk(blocks, k, j) && |blocks[k].chunks| > 1
    requires exists i :: 0 <= i < |blocks| && blocks[i].base == bet != 0
    ensures var after, h := blocks[k := Remove(blocks[k], j)], FreeHint(blocks, k, j, bet);
            var mine, other := FreeBytes(after[k]), FreeOf(after, bet);
            (FreeOf(after, h) >= other && FreeOf(after, h) >= mine) <==>
            (mine < 0x8000_0000 <==> other < 0x8000_0000)
  {
    var b := Remove(blocks[k], j);
    var after := blocks[k := b];
    var i :| 0 <= i < |blocks| && blocks[i].base == bet != 0;
    RemovedSame(blocks, k, j);
    hide LayoutOk, BlockOk, FreeBytes, ToInt32, FreeOf, Remove;
    TheBlock(after, i);
    TheBlock(after, k);
    AsInt32(after[i]);
    AsInt32(after[k]);
    assert b.chunks != [];
  }

  lemma RemovedSame(blocks: seq<Block>, k: nat, j: nat)
    requires LayoutOk(blocks) && IsChunk(blocks, k, j)
    ensures var b := Remove(blocks[k], j);
            var after := blocks[k := b];
            && (b.chunks == [] <==> |blocks[k].chunks| == 1)
            && (forall x :: 0 <= x < |after| ==>
                  BlockOk(after[x]) && after[x].base == blocks[x].base && after[x].pages == blocks[x].pages)
            && (forall x, y :: 0 <= x < |after| && 0 <= y < |after| && x != y ==> after[x].base != after[y].base)
  {
    hide BlockOk;
    RemoveOk(blocks[k], j);
    var after := blocks[k := Remove(blocks[k], j)];
    forall x, y | 0 <= x < |after| && 0 <= y < |after| && x != y ensures after[x].base != after[y].base {
      BasesDiffer(blocks, x, y);
    }
  }

  lemma AsInt32(b: Block)
    requires BlockOk(b)
    ensures 0 <= FreeBytes(b) < 0x1_0000_0000
    ensures ToInt32(FreeBytes(b)) == FreeBytes(b) - if FreeBytes(b) < 0x8000_0000 then 0 else 0x1_0000_0000
  {
    FreeNonnegative(b);
    hide BlockOk;
  }

  /** Looking at blocks leaves the one with the most free bytes, and the old hint if none has more. */
  lemma {:induction false} HintIsLargest(blocks: seq<Block>, seen: seq<nat>, hint: (nat, int))
    ensures var h := HintAfter(blocks, seen, hint);
            && h.1 >= hint.1 && (forall i :: i in seen && i < |blocks| ==> FreeBytes(blocks[i]) <= h.1)
            && (h == hint || exists i: nat :: i in seen && i < |blocks| && h == (blocks[i].base, FreeBytes(blocks[i])))
            && (h.1 == hint.1 ==> h == hint)
  {
    if seen != [] {
      var pre, i := seen[..|seen| - 1], seen[|seen| - 1];
      HintIsLargest(blocks, pre, hint);
      assert seen == pre + [i];
    }
  }

  lemma {:induction false} HintStable(blocks: seq<Block>, b: Block, seen: seq<nat>, hint: (nat, int))
    requires forall i :: i in seen ==> i < |blocks|
    ensures HintAfter(blocks + [b], seen, hint) == HintAfter(blocks, seen, hint)
  {
    if seen != [] {
      var pre, i := seen[..|seen| - 1], seen[|seen| - 1];
      assert forall x :: x in pre ==> x in seen;
      HintStable(blocks, b, pre, hint);
      assert i in seen;
      assert (blocks + [b])[i] == blocks[i];
    }
  }

  lemma {:induction false} RangeIn(lo: nat, hi: nat, n: nat)
    requires hi <= n
    ensures forall i :: i in Range(lo, hi) ==> i < n
    decreases hi
  {
    if lo < hi {
      RangeIn(lo, hi - 1, n);
    }
  }

  lemma HintNext(blocks: seq<Block>, seen: seq<nat>, k: nat, hint: (nat, int))
    requires k < |blocks|
    ensures var h := HintAfter(blocks, seen, hint);
            HintAfter(blocks, seen + [k], hint) ==
            if FreeBytes(blocks[k]) > h.1 then (blocks[k].base, FreeBytes(blocks[k])) else h
  {
    assert (seen + [k])[..|seen|] == seen;
  }

  lemma VisitsNext(bet: bool, started: bool, s: nat, k: nat, n: nat)
    requires started ==> s <= k
    ensures Visits(bet, started, s, k + 1, n) == Visits(bet, started, s, k, n) + [k]
  {
  }

  lemma HintBegins(was: seq<Block>, cur: seq<Block>, bet0: nat, page: nat, pages: nat, grown: bool, bet: bool, s: nat,
                   need: nat, best: int)
    requires Searching(was, cur, bet0, page, pages, grown, bet, s, s, need) && best == FreeOf(was, bet0)
    requires !bet ==> s == 0
    ensures Hinted(was, cur, bet0, bet, bet, s, s, bet0, best)
  {
    hide NoFit, NoFitIn, HasFit, FreeBytes, FreeOf;
  }

  lemma HintOne(was: seq<Block>, cur: seq<Block>, bet0: nat, page: nat, pages: nat, grown: bool, bet: bool,
                started: bool, s: nat, k: nat, need: nat, bestBet: nat, bestSize: int)
    requires Searching(was, cur, bet0, page, pages, grown, started, s, k, need)
    requires Hinted(was, cur, bet0, bet, started, s, k, bestBet, bestSize)
    ensures var free := FreeBytes(cur[k]);
            Hinted(was, cur, bet0, bet, started, s, k + 1, if bestSize < free then cur[k].base else bestBet,
                   if bestSize < free then free else bestSize)
  {
    hide NoFit, NoFitIn, HasFit, FreeBytes, FreeOf, Visits, StartsAt;
    VisitsNext(bet, started, s, k, |was|);
    HintNext(cur, Visits(bet, started, s, k, |was|), k, (bet0, FreeOf(was, bet0)));
  }

  lemma HintWraps(was: seq<Block>, cur: seq<Block>, bet0: nat, bet: bool, s: nat, k: nat, bestBet: nat, bestSize: int)
    requires bet && k == |was| && Hinted(was, cur, bet0, bet, true, s, k, bestBet, bestSize)
    ensures Hinted(was, cur, bet0, bet, false, s, 0, bestBet, bestSize)
  {
    hide FreeBytes, FreeOf;
    assert Range(s, k) + Range(0, 0) == Range(s, k);
  }

  /** Where the search began, as the hint decides it. */
  ghost predicate BeganAt(was: seq<Block>, bet0: nat, need: nat, bet: bool, s: nat) {
    bet == (FreeOf(was, bet0) > need) && s == if bet then BlockIndex(was, bet0) else 0
  }

  lemma BeganFront(was: seq<Block>, bet0: nat, need: nat, bet: bool, s: nat)
    requires BeganAt(was, bet0, need, bet, s)
    ensures !bet ==> s == 0
  {
  }

  lemma VisitsIn(bet: bool, s: nat, k: nat, n: nat)
    requires k <= n
    ensures forall i :: i in Visits(bet, false, s, k, n) ==> i < n
  {
    RangeIn(s, n, n);
    RangeIn(0, k, n);
  }

  lemma HintGrows(was: seq<Block>, bet0: nat, page: nat, req: nat, bet: bool, s: nat, k: nat, bestBet: nat,
                  bestSize: int)
    requires k == |was| && Hinted(was, was, bet0, bet, false, s, k, bestBet, bestSize)
    requires BeganAt(was, bet0, req + 72, bet, s)
    ensures Hinted(was, was + [Block(page, PagesFor(req + 32), [])], bet0, bet, false, s, k, bestBet, bestSize)
    ensures forall i :: HintFound(was, bet0, page, req, i, false, bestBet)
  {
    hide FreeBytes, FreeOf, BlockIndex, PagesFor, Visits;
    VisitsIn(bet, s, k, |was|);
    HintStable(was, Block(page, PagesFor(req + 32), []), Visits(bet, false, s, k, |was|), (bet0, FreeOf(was, bet0)));
  }

  lemma HintDone(was: seq<Block>, cur: seq<Block>, bet0: nat, page: nat, req: nat, grown: bool, bet: bool,
                 started: bool,
                 s: nat, k: nat, looked: bool, bestBet: nat, bestSize: int)
    requires cur == if grown then was + [Block(page, PagesFor(req + 32), [])] else was
    requires k < |cur| && (grown ==> k == |was| && !started) && (started ==> bet)
             && BeganAt(was, bet0, req + 72, bet, s)
    requires looked && grown && |was| > 0 ==> FreeBytes(was[|was| - 1]) >= req + 72
    requires looked ==> Hinted(was, cur, bet0, bet, started, s, k + 1, bestBet, bestSize)
    requires !looked ==> grown && |was| > 0 && FreeBytes(was[|was| - 1]) < req + 72
    requires !looked ==> Hinted(was, cur, bet0, bet, false, s, k, bestBet, bestSize)
    ensures HintFound(was, bet0, page, req, k, true, bestBet)
  {
    hide FreeBytes, FreeOf, BlockIndex, PagesFor, Visits;
    assert HintLeft(was, bet0, page, req, k, true, !started, bestBet);
  }

  lemma NoBlocksHint(was: seq<Block>, bet: nat, page: nat, req: nat)
    requires was == []
    ensures HintFound(was, bet, page, req, 0, false, bet)
  {
  }

  lemma {:induction false} NoSuchBlock(blocks: seq<Block>, a: nat)
    requires forall i :: 0 <= i < |blocks| ==> blocks[i].base != a
    ensures FreeOf(blocks, a) == 0
  {
    if blocks != [] {
      NoSuchBlock(blocks[..|blocks| - 1], a);
    }
  }

  lemma {:induction false} TheBlock(blocks: seq<Block>, at: nat)
    requires at < |blocks| && forall i :: 0 <= i < |blocks| && i != at ==> blocks[i].base != blocks[at].base
    ensures FreeOf(blocks, blocks[at].base) == FreeBytes(blocks[at]) && BlockIndex(blocks, blocks[at].base) == at
  {
    hide FreeBytes;
    if at < |blocks| - 1 {
      assert blocks[|blocks| - 1].base != blocks[at].base;
      TheBlock(blocks[..|blocks| - 1], at);
    }
  }

  lemma NoHint(majors: Majors, minors: Minors, ram: Ram, root: nat, bet: nat, inuse: nat, heapBytes: nat,
               blocks: seq<Block>, was: seq<Block>)
    requires Consistent(majors, minors, ram, root, bet, inuse, heapBytes, blocks) && (was == blocks || was == [])
    ensures FreeOf(was, 0) == 0
  {
    hide Wired, InUse, Allocated, IsBase;
    forall i | 0 <= i < |was| ensures was[i].base != 0 { WiredBase(majors, minors, ram, blocks, i); }
    NoSuchBlock(was, 0);
  }

  lemma HintIs(majors: Majors, minors: Minors, ram: Ram, root: nat, bet: nat, inuse: nat, heapBytes: nat,
               blocks: seq<Block>, at: nat)
    requires Consistent(majors, minors, ram, root, bet, inuse, heapBytes, blocks)
    requires at < |blocks| && blocks[at].base == bet
    ensures FreeOf(blocks, bet) == FreeBytes(blocks[at]) && BlockIndex(blocks, bet) == at
  {
    hide Wired, InUse, Allocated, IsBase, FreeBytes;
    forall i | 0 <= i < |blocks|
    && i != at ensures blocks[i].base != bet { WiredDiffer(majors, minors, ram, blocks, i, at); }
    TheBlock(blocks, at);
  }

  /** What kmalloc asks the page source for: room for the request, 32 bytes of slack and both 40-byte headers, at
      least 16 pages, and never a page more than that. The chunk takes the request and the slack, no more. */
  lemma NewBlockLeast(blocks: seq<Block>, ram: Ram, bet: nat, blocks': seq<Block>, ram': Ram,
                      page: nat, k: nat, j: nat, req: nat, p: nat)
    requires MallocDone(blocks, ram, bet, blocks', ram', page, k, j, req, p)
    ensures IsChunk(blocks', k, j) && blocks'[k].chunks[j].req == req && blocks'[k].chunks[j].size == req + 32
    ensures k == |blocks| ==>
              && blocks'[k].base == page && blocks'[k].pages >= 16 && blocks'[k].pages * 4096 >= req + 112
              && (blocks'[k].pages > 16 ==> (blocks'[k].pages - 1) * 4096 < req + 112)
    ensures forall i :: 0 <= i < |blocks| ==> blocks'[i].base == blocks[i].base && blocks'[i].pages == blocks[i].pages
  {
    hide FoundInOrder, Payload, BackAddr, BackOffset, FirstFit, NoFit;
    var g := Grown(blocks, k, page, PagesFor(req + 32));
    assert blocks'[k].chunks[j] == Place(g[k], j, req + 32, req).chunks[j];
  }

  /** A pointer comes back only if a block had room or the page source gave one. */
  lemma NotRefused(blocks: seq<Block>, ram: Ram, bet: nat, blocks': seq<Block>, ram': Ram,
                   page: nat, k: nat, j: nat, req: nat, p: nat)
    requires MallocDone(blocks, ram, bet, blocks', ram', page, k, j, req, p)
    ensures page != 0 || !NoFit(blocks, req + 72)
  {
    hide FoundInOrder, PagesFor, Payload, BackAddr, BackOffset;
    if k < |blocks| {
      assert HasFit(blocks[k], req + 72);
    }
  }

  lemma ExtendNoFit(blocks: seq<Block>, lo: nat, k: nat, need: nat)
    requires NoFitIn(blocks, lo, k, need) && (k < |blocks| ==> !HasFit(blocks[k], need))
    ensures NoFitIn(blocks, lo, k + 1, need)
    ensures k + 1 >= |blocks| ==> NoFitIn(blocks, lo, |blocks|, need)
  {
  }

  /** Where the search stands at block k of the current list: what it has ruled out, and whether
      the list already ends in a block obtained for this request. */
  ghost predicate Searching(was: seq<Block>, cur: seq<Block>, bet: nat, page: nat, pages: nat, grown: bool,
                            started: bool, s: nat, k: nat, need: nat)
  {
    && s < |cur| && k < |cur|
    && cur == (if grown then was + [Block(page, pages, [])] else was)
    && if grown then
         !started && k == |was| && page != 0 && NoFit(was, need) && HasFit(Block(page, pages, []), need)
       else
         && StartsAt(was, bet, s, need)
         && (started ==> s <= k && NoFitIn(was, s, k, need))
         && (!started ==> NoFitIn(was, 0, k, need) && (s > 0 ==> NoFitIn(was, s, |was|, need)))
  }

  lemma SearchIndex(was: seq<Block>, cur: seq<Block>, bet: nat, page: nat, pages: nat, grown: bool,
                    started: bool, s: nat, k: nat, need: nat)
    requires Searching(was, cur, bet, page, pages, grown, started, s, k, need)
    ensures s < |cur| && k < |cur| && cur == (if grown then was + [Block(page, pages, [])] else was)
    ensures grown ==> k == |was| && !started
  {
  }

  /** Moving on from a block without a fitting gap: to the next block, back to the front once, or to
      a new block. A block obtained for the request is never passed over. */
  lemma SearchOn(was: seq<Block>, cur: seq<Block>, bet: nat, page: nat, pages: nat, grown: bool,
                 started: bool, s: nat, k: nat, need: nat)
    requires Searching(was, cur, bet, page, pages, grown, started, s, k, need) && !HasFit(cur[k], need)
    requires HasFit(Block(page, pages, []), need)
    ensures !grown && cur == was
    ensures k + 1 < |cur| ==> Searching(was, cur, bet, page, pages, grown, started, s, k + 1, need)
    ensures k + 1 == |cur| && started ==> Searching(was, cur, bet, page, pages, grown, false, s, 0, need)
    ensures k + 1 == |cur| && !started ==> NoFit(was, need)
    ensures k + 1 == |cur| && !started && page != 0 ==>
              Searching(was, was + [Block(page, pages, [])], bet, page, pages, true, started, s, k + 1, need)
  {
    hide HasFit, StartsAt;
    ExtendNoFit(was, if started then s else 0, k, need);
  }

  lemma SearchBegins(majors: Majors, minors: Minors, ram: Ram, root: nat, bet: nat, inuse: nat, heapBytes: nat,
                     was: seq<Block>, cur: seq<Block>, page: nat, size: nat, grown: bool, started: bool, s: nat)
    requires Consistent(majors, minors, ram, root, bet, inuse, heapBytes, cur) && cur != []
    requires cur == if grown then was + [Block(page, PagesFor(size), [])] else was
    requires grown ==> was == [] && page != 0 && bet == 0
    requires if started then s < |cur| && cur[s].base == bet && FreeBytes(cur[s]) > size + 40
             else s == 0 &&
                  (bet == 0 || exists i :: 0 <= i < |cur| && cur[i].base == bet && FreeBytes(cur[i]) <= size + 40)
    requires started ==> bet != 0
    ensures Searching(was, cur, bet, page, PagesFor(size), grown, started, s, s, size + 40)
  {
    hide Wired, FreeBytes, Consistent, HasFit, PagesFor;
    RoomInNew(page, size);
    if !grown {
      StartFound(majors, minors, ram, root, bet, inuse, heapBytes, cur, s, size + 40);
    }
  }

  lemma EmptyRange(blocks: seq<Block>, need: nat)
    ensures forall lo :: NoFitIn(blocks, lo, lo, need)
    ensures blocks == [] ==> NoFit(blocks, need)
  {
  }

  lemma RootIs(majors: Majors, minors: Minors, ram: Ram, root: nat, bet: nat, inuse: nat, heapBytes: nat,
               blocks: seq<Block>)
    requires Consistent(majors, minors, ram, root, bet, inuse, heapBytes, blocks)
    ensures root == 0 <==> blocks == []
    ensures root == BlockAt(blocks, 0)
    ensures blocks == [] ==> bet == 0
  {
    if blocks != [] {
      WiredBase(majors, minors, ram, blocks, 0);
    }
  }

  lemma BetIndex(majors: Majors, minors: Minors, ram: Ram, root: nat, bet: nat, inuse: nat, heapBytes: nat,
                 blocks: seq<Block>)
    returns (s: nat)
    requires Consistent(majors, minors, ram, root, bet, inuse, heapBytes, blocks) && bet != 0
    ensures s < |blocks| && blocks[s].base == bet && bet in majors
    ensures majors[bet].size - majors[bet].usage == FreeBytes(blocks[s]) >= 0
  {
    hide Wired;
    s :| 0 <= s < |blocks| && blocks[s].base == bet;
    WiredBase(majors, minors, ram, blocks, s);
  }

  /** The hint names a block without enough free bytes. */
  ghost predicate HintIsSmall(blocks: seq<Block>, bet: nat, need: nat) {
    exists i :: 0 <= i < |blocks| && blocks[i].base == bet && FreeBytes(blocks[i]) <= need
  }

  lemma StartFound(majors: Majors, minors: Minors, ram: Ram, root: nat, bet: nat, inuse: nat, heapBytes: nat,
                   blocks: seq<Block>, s: nat, need: nat)
    requires Consistent(majors, minors, ram, root, bet, inuse, heapBytes, blocks)
    requires (s < |blocks| && blocks[s].base == bet && FreeBytes(blocks[s]) > need) ||
             (s == 0 && (bet == 0 || HintIsSmall(blocks, bet, need)))
    ensures StartsAt(blocks, bet, s, need)
  {
    forall i | 0 <= i < |blocks| && blocks[i].base == bet
               && !(s < |blocks| && blocks[s].base == bet && FreeBytes(blocks[s]) > need)
      ensures FreeBytes(blocks[i]) <= need
    {
      WiredBase(majors, minors, ram, blocks, i);
      var i' :| 0 <= i' < |blocks| && blocks[i'].base == bet && FreeBytes(blocks[i']) <= need;
      if i != i' { BasesDiffer(blocks, i, i'); }
    }
  }

  lemma MajorRead(majors: Majors, minors: Minors, ram: Ram, root: nat, bet: nat, inuse: nat, heapBytes: nat,
                  blocks: seq<Block>, k: nat)
    requires Consistent(majors, minors, ram, root, bet, inuse, heapBytes, blocks) && k < |blocks|
    ensures blocks[k].base != 0 && blocks[k].base in majors && BlockOk(blocks[k])
    ensures var m := majors[blocks[k].base];
            && m.size - m.usage == FreeBytes(blocks[k]) >= 0
            && m.next == BlockAt(blocks, k + 1)
            && (m.next == 0 <==> k + 1 == |blocks|)
            && (m.first == 0 <==> blocks[k].chunks == [])
  {
    LinkIsNull(majors, minors, ram, blocks, k, 0);
    hide Wired;
    WiredBase(majors, minors, ram, blocks, k);
    if k + 1 < |blocks| {
      WiredBase(majors, minors, ram, blocks, k + 1);
    }
  }

  /** Any block may become the hint. */
  lemma Rebet(majors: Majors, minors: Minors, ram: Ram, root: nat, bet: nat, inuse: nat, heapBytes: nat,
              blocks: seq<Block>, k: nat)
    requires Consistent(majors, minors, ram, root, bet, inuse, heapBytes, blocks) && k < |blocks|
    ensures Consistent(majors, minors, ram, root, blocks[k].base, inuse, heapBytes, blocks)
  {
    hide Wired;
  }

  /** A block obtained for a request always has room for it. */
  lemma RoomInNew(page: nat, size: nat)
    ensures var b := Block(page, PagesFor(size), []);
            FreeBytes(b) >= size + 40 && HasFit(b, size + 40)
  {
    EmptyTotal();
    assert Fits(Block(page, PagesFor(size), []), 0, size + 40);
  }

  lemma Finished(was: seq<Block>, ram: Ram, bet: nat, blocks: seq<Block>, ram': Ram, page: nat, k: nat, j: nat,
                 req: nat,
                 p: nat, s: nat, grown: bool, started: bool)
    requires NoneEmpty(was)
    requires var cur := if grown then was + [Block(page, PagesFor(req + 32), [])] else was;
             && Searching(was, cur, bet, page, PagesFor(req + 32), grown, started, s, k, req + 72)
             && FirstFit(cur[k], j, req + 72) && PlacedIn(cur, ram, blocks, ram', k, j, req + 32, req, p)
    ensures MallocDone(was, ram, bet, blocks, ram', page, k, j, req, p) && NoneEmpty(blocks)
  {
    hide NoFit, StartsAt, FirstFit, BackAddr, BackOffset, Payload, PagesFor, HasFit;
    var cur := if grown then was + [Block(page, PagesFor(req + 32), [])] else was;
    assert j <= |cur[k].chunks| by { FirstFitInRange(cur[k], j, req + 72); }
    assert Grown(was, k, page, PagesFor(req + 32)) == cur;
    assert Place(cur[k], j, req + 32, req).chunks != [];
    assert !grown ==> FoundInOrder(was, bet, k, req + 72);
  }

  lemma FirstFitInRange(b: Block, j: nat, need: nat)
    requires FirstFit(b, j, need)
    ensures j <= |b.chunks|
  {
  }

  lemma FirstLink(b: Block)
    requires b.chunks != []
    ensures ChunkAt(b.chunks, 0) == b.chunks[0].addr
  {
  }

  lemma ScanEnd(majors: Majors, minors: Minors, ram: Ram, root: nat, bet: nat, inuse: nat, heapBytes: nat,
                blocks: seq<Block>, k: nat, j: nat)
    requires Consistent(majors, minors, ram, root, bet, inuse, heapBytes, blocks) && k < |blocks|
    ensures ChunkAt(blocks[k].chunks, j) == 0 <==> j >= |blocks[k].chunks|
  {
    LinkIsNull(majors, minors, ram, blocks, k, j);
  }

  /** What the headers say about the gap behind chunk j. */
  lemma ScanFacts(majors: Majors, minors: Minors, ram: Ram, root: nat, bet: nat, inuse: nat, heapBytes: nat,
                  blocks: seq<Block>, k: nat, j: nat, need: nat)
    requires Consistent(majors, minors, ram, root, bet, inuse, heapBytes, blocks) && k < |blocks|
    requires j <= |blocks[k].chunks| && ChunkAt(blocks[k].chunks, j) != 0
    ensures var b := blocks[k];
            var min := ChunkAt(b.chunks, j);
            && j < |b.chunks| && min == b.chunks[j].addr && min in minors && b.base in majors
            && minors[min].next == ChunkAt(b.chunks, j + 1)
            && (minors[min].next == 0 <==> j + 1 == |b.chunks|)
            && (minors[min].next == 0 ==>
                  (b.base + majors[b.base].size - min - 40 - minors[min].size >= need <==> Fits(b, j + 1, need)))
            && (minors[min].next != 0 ==>
                  (minors[min].next - min - 40 - minors[min].size >= need <==> Fits(b, j + 1, need)))
  {
    hide Wired, InUse, Allocated, Usage, IsBase;
    LinkIsNull(majors, minors, ram, blocks, k, j);
    LinkIsNull(majors, minors, ram, blocks, k, j + 1);
    WiredBase(majors, minors, ram, blocks, k);
    WiredChunk(majors, minors, ram, blocks, k, j);
  }

  lemma BetweenFacts(majors: Majors, minors: Minors, ram: Ram, root: nat, bet: nat, inuse: nat, heapBytes: nat,
                     blocks: seq<Block>, k: nat, j: nat, size: nat)
    requires Consistent(majors, minors, ram, root, bet, inuse, heapBytes, blocks) && k < |blocks|
    requires 0 < j < |blocks[k].chunks| && Fits(blocks[k], j, size + 40)
    ensures var b := blocks[k];
            var min, next := b.chunks[j - 1].addr, b.chunks[j].addr;
            && b.base in majors && min in minors && next in minors
            && minors[min].next == next && minors[min].size == b.chunks[j - 1].size
            && min < min + 40 + minors[min].size < next
  {
    hide Wired, InUse, Allocated, Usage, IsBase;
    WiredBase(majors, minors, ram, blocks, k);
    WiredChunk(majors, minors, ram, blocks, k, j - 1);
    WiredChunk(majors, minors, ram, blocks, k, j);
  }

  lemma LowByte(x: nat, n: nat)
    requires n == 0x1_0000 || n == 0x100
    ensures x % (n * 0x100) % 0x100 == x % 0x100
  {
    if n == 0x100 {
      assert x == 0x100 * (0x100 * (x / 0x1_0000)) + x % 0x1_0000;
    } else {
      assert x == 0x100 * (0x1_0000 * (x / 0x100_0000)) + x % 0x100_0000;
    }
  }

  // ---------- facts about freeing ----------

  predicate IsChunk(blocks: seq<Block>, k: nat, j: nat) {
    k < |blocks| && j < |blocks[k].chunks|
  }

  /** ptr is the payload of chunk j of block k. */
  predicate IsLive(blocks: seq<Block>, k: nat, j: nat, ptr: nat) {
    IsChunk(blocks, k, j) && ptr == Payload(blocks[k].chunks[j])
  }

  /** UNALIGN, then back over the header. */
  function HeaderOf(ram: Ram, ptr: nat): nat
    requires ptr >= 72
  {
    var diff := Peek(ram, ptr - 16);
    if diff < 32 then ptr - diff - 40 else ptr - 40
  }

  function MagicAt(minors: Minors, a: nat): nat {
    if a in minors then minors[a].magic else 0
  }

  /** UNALIGN recovers the exact header from any pointer kmalloc returned. */
  lemma LiveHeader(majors: Majors, minors: Minors, ram: Ram, root: nat, bet: nat, inuse: nat, heapBytes: nat,
                   blocks: seq<Block>, k: nat, j: nat, ptr: nat)
    requires Consistent(majors, minors, ram, root, bet, inuse, heapBytes, blocks) && IsLive(blocks, k, j, ptr)
    ensures ptr >= 72 && HeaderOf(ram, ptr) == blocks[k].chunks[j].addr
    ensures HeaderOf(ram, ptr) in minors && minors[HeaderOf(ram, ptr)] == MinorFor(blocks[k], j)
    ensures minors[HeaderOf(ram, ptr)].magic == 0xc001c0de
  {
    hide Wired, InUse, Allocated, IsBase;
    WiredBase(majors, minors, ram, blocks, k);
    WiredChunk(majors, minors, ram, blocks, k, j);
    PayloadInside(blocks[k].chunks[j]);
  }

  lemma UnlinkConsistent(majors: Majors, minors: Minors, ram: Ram, root: nat, bet: nat, inuse: nat, heapBytes: nat,
                         blocks: seq<Block>, k: nat, j: nat)
    requires Consistent(majors, minors, ram, root, bet, inuse, heapBytes, blocks) && IsChunk(blocks, k, j)
    ensures var b := blocks[k];
            && b.base in majors && MinorsPresent(minors, b) && b.chunks[j].size + 40 <= majors[b.base].usage
            && b.chunks[j].size <= inuse
            && Consistent(MajorFreed(majors, b.base, b.chunks[j].size,
                if j == 0 then ChunkAt(b.chunks, 1) else majors[b.base].first),
                          Unlink(minors, b, j), ram, root, bet, inuse - b.chunks[j].size, heapBytes,
                          blocks[k := Remove(b, j)])
  {
    hide Wired, InUse, Allocated, TotalSize, Unlink, IsBase;
    UnlinkWired(majors, minors, ram, blocks, k, j);
    SumUpdate(blocks, k, Remove(blocks[k], j));
    TotalSplit(blocks[k].chunks, j);
    KeepBases(blocks, k, Remove(blocks[k], j), bet);
  }

  lemma DeadStays(m: Minors, b: Block, j: nat)
    requires BlockOk(b) && MinorsPresent(m, b) && j < |b.chunks|
    ensures b.chunks[j].addr in Unlink(m, b, j) && Unlink(m, b, j)[b.chunks[j].addr].magic == DEAD
  {
  }

  lemma DropConsistent(majors: Majors, minors: Minors, ram: Ram, root: nat, bet: nat, inuse: nat, heapBytes: nat,
                       blocks: seq<Block>, k: nat)
    requires Consistent(majors, minors, ram, root, bet, inuse, heapBytes, blocks)
    requires k < |blocks| && blocks[k].chunks == []
    ensures MajorsPresent(majors, blocks) && blocks[k].pages * 4096 <= heapBytes
    ensures Consistent(Dropped(majors, blocks, k), minors, ram,
                       if root == blocks[k].base then BlockAt(blocks, k + 1) else root,
                       if bet == blocks[k].base then 0 else bet,
                       inuse, heapBytes - blocks[k].pages * 4096, blocks[..k] + blocks[k + 1..])
  {
    hide Wired, InUse, Allocated, TotalSize, Dropped;
    DropWired(majors, minors, ram, blocks, k);
    SumDrop(blocks, k);
    EmptyTotal();
    var rest := blocks[..k] + blocks[k + 1..];
    if k > 0 { WiredDiffer(majors, minors, ram, blocks, 0, k); }
    assert BlockAt(rest, 0) == if k == 0 then BlockAt(blocks, 1) else BlockAt(blocks, 0);
    if bet != 0 && bet != blocks[k].base {
      var i :| 0 <= i < |blocks| && blocks[i].base == bet;
      assert rest[if i < k then i else i - 1].base == bet;
    }
  }

  lemma DropFacts(majors: Majors, minors: Minors, ram: Ram, root: nat, bet: nat, inuse: nat, heapBytes: nat,
                  blocks: seq<Block>, k: nat)
    requires Consistent(majors, minors, ram, root, bet, inuse, heapBytes, blocks) && k < |blocks|
    ensures blocks[k].base in majors && blocks[k].base != 0 && majors[blocks[k].base].size == blocks[k].pages * 4096
    ensures majors[blocks[k].base].prev == BlockAt(blocks, k - 1)
            && majors[blocks[k].base].next == BlockAt(blocks, k + 1)
    ensures BlockAt(blocks, k - 1) == 0 <==> k == 0
    ensures BlockAt(blocks, k + 1) == 0 <==> k + 1 == |blocks|
    ensures BlockAt(blocks, k - 1) != blocks[k].base && BlockAt(blocks, k + 1) != blocks[k].base
    ensures k > 0 ==> BlockAt(blocks, k - 1) in majors
    ensures k + 1 < |blocks| ==> BlockAt(blocks, k + 1) in majors
  {
    hide Wired, InUse, Allocated, Usage, IsBase;
    WiredBase(majors, minors, ram, blocks, k);
    if k > 0 { WiredBase(majors, minors, ram, blocks, k - 1); WiredDiffer(majors, minors, ram, blocks, k - 1, k); }
    if k + 1 < |blocks| {
      WiredBase(majors, minors, ram, blocks, k + 1);
      WiredDiffer(majors, minors, ram, blocks, k + 1, k);
    }
  }

  lemma WiredDiffer(majors: Majors, minors: Minors, ram: Ram, blocks: seq<Block>, i: nat, k: nat)
    requires Wired(majors, minors, ram, blocks) && i < |blocks| && k < |blocks| && i != k
    ensures blocks[i].base != blocks[k].base
  {
    BasesDiffer(blocks, i, k);
  }

  /** kfree's two stages, removing a chunk and releasing an emptied block, make up FreeSpec. */
  lemma FreeSteps(blocks: seq<Block>, k: nat, j: nat)
    requires IsChunk(blocks, k, j)
    ensures var b := Remove(blocks[k], j);
            var mid := blocks[k := b];
            FreeSpec(blocks, k, j) == if b.chunks == [] then mid[..k] + mid[k + 1..] else mid
    ensures NoneEmpty(blocks) ==> NoneEmpty(FreeSpec(blocks, k, j))
  {
    var mid := blocks[k := Remove(blocks[k], j)];
    assert mid[..k] == blocks[..k] && mid[k + 1..] == blocks[k + 1..];
  }

  // ---------- facts about resizing ----------

  /** Memory after n bytes at src were copied to dst. */
  ghost predicate Copied(ram: Ram, ram': Ram, dst: nat, src: nat, n: nat) {
    && (forall a: nat :: dst <= a < dst + n ==> Peek(ram', a) == Peek(ram, src + (a - dst)))
    && (forall a: nat :: !(dst <= a < dst + n) ==> Peek(ram', a) == Peek(ram, a))
  }

  lemma CopyNothing(ram: Ram, dst: nat, src: nat)
    ensures Copied(ram, ram, dst, src, 0)
  {
  }

  /** A source byte not yet reached still has its old value. */
  lemma CopyByte(ram: Ram, ram': Ram, dst: nat, src: nat, done: nat, i: nat, n: nat)
    requires Copied(ram, ram', dst, src, done) && done <= i < n && Disjoint(dst, n, src, n)
    ensures Peek(ram', src + i) == Peek(ram, src + i)
  {
    var a := src + i;
    assert Peek(ram', a) == Peek(ram, a);
  }

  lemma CopyNext(ram: Ram, ram': Ram, dst: nat, src: nat, done: nat)
    requires Copied(ram, ram', dst, src, done)
    ensures Copied(ram, ram'[dst + done := Peek(ram, src + done)], dst, src, done + 1)
  {
    var next := ram'[dst + done := Peek(ram, src + done)];
    forall a: nat
      ensures Peek(next, a) == if dst <= a < dst + done + 1 then Peek(ram, src + (a - dst)) else Peek(ram, a)
    {
      assert a != dst + done ==> Peek(next, a) == Peek(ram', a);
    }
  }

  ghost predicate AboveNull(blocks: seq<Block>, n: nat) {
    forall k :: 0 <= k < |blocks| ==> n <= blocks[k].base
  }

  /** The same heap with another request size recorded for one chunk. */
  function Resized(blocks: seq<Block>, k: nat, j: nat, req: nat): seq<Block>
    requires IsChunk(blocks, k, j)
  {
    var b := blocks[k];
    blocks[k := b.(chunks := b.chunks[j := b.chunks[j].(req := req)])]
  }

  /** Where an old chunk is found after a placement at gap j' of block k'. */
  function Shifted(k: nat, j: nat, k': nat, j': nat): nat {
    if k' == k && j' <= j then j + 1 else j
  }

  ghost predicate SameOutside(ram: Ram, ram': Ram, c: Chunk) {
    forall a: nat :: !(c.addr <= a < End(c)) ==> Peek(ram', a) == Peek(ram, a)
  }

  ghost predicate SameBytes(ram: Ram, p: nat, ram': Ram, q: nat, n: nat) {
    forall a: nat :: p <= a < p + n ==> Peek(ram', q + (a - p)) == Peek(ram, a)
  }

  /** A krealloc that had to move: the new chunk is placed as kmalloc places it, the old one is freed
      as kfree frees it, the old payload's bytes arrive in the new payload, and no byte outside the
      new chunk changes. */
  ghost predicate Moved(blocks: seq<Block>, ram: Ram, bet: nat, blocks': seq<Block>, ram': Ram, page: nat,
                        k: nat, j: nat, k': nat, j': nat, size: nat, p: nat, q: nat)
  {
    var g := Grown(blocks, k', page, PagesFor(size + 32));
    && IsChunk(blocks, k, j) && k' <= |blocks| && j' <= |g[k'].chunks|
    && var c := NewChunk(g[k'], j', size + 32, size);
    && var mid := MallocSpec(blocks, k', j', page, PagesFor(size + 32), size + 32, size);
    && MallocDone(blocks, ram, bet, mid, ram[BackAddr(c) := BackOffset(c)], page, k', j', size, q)
    && var at := Shifted(k, j, k', j');
    && IsChunk(mid, k, at) && mid[k].chunks[at] == blocks[k].chunks[j]
    && blocks' == FreeSpec(mid, k, at)
    && SameBytes(ram, p, ram', q, blocks[k].chunks[j].req)
    && SameOutside(ram, ram', c)
  }

  lemma {:induction false} SameSizes(cs: seq<Chunk>, j: nat, req: nat)
    requires j < |cs|
    ensures Usage(cs[j := cs[j].(req := req)]) == Usage(cs)
    ensures TotalSize(cs[j := cs[j].(req := req)]) == TotalSize(cs)
  {
    var n := |cs| - 1;
    var cs' := cs[j := cs[j].(req := req)];
    if j < n {
      SameSizes(cs[..n], j, req);
      assert cs'[..n] == cs[..n][j := cs[..n][j].(req := req)];
    } else {
      assert cs'[..n] == cs[..n];
    }
  }

  lemma ResizedMinor(m: Minors, b: Block, j: nat, req: nat, i: nat)
    requires BlockOk(b) && MinorsOk(m, b) && j < |b.chunks| && i < |b.chunks|
    ensures var b' := b.(chunks := b.chunks[j := b.chunks[j].(req := req)]);
            var a := b.chunks[j].addr;
            && a in m
            && var m' := m[a := m[a].(reqSize := req)];
               b'.chunks[i].addr in m' && m'[b'.chunks[i].addr] == MinorFor(b', i)
  {
    hide BlockOk;
    assert m[b.chunks[i].addr] == MinorFor(b, i) && m[b.chunks[j].addr] == MinorFor(b, j);
    hide MinorsOk;
    if i != j { AddrsDiffer(b, i, j); }
  }

  lemma ResizedBlock(m: Minors, ram: Ram, b: Block, j: nat, req: nat)
    requires BlockOk(b) && MinorsOk(m, b) && BacksOk(ram, b) && j < |b.chunks| && req <= b.chunks[j].req
    ensures var b' := b.(chunks := b.chunks[j := b.chunks[j].(req := req)]);
            var a := b.chunks[j].addr;
            && a in m
            && var m' := m[a := m[a].(reqSize := req)];
               BlockOk(b') && MinorsOk(m', b') && BacksOk(ram, b') && LocalChange(m, m', ram, ram, b')
  {
    hide Payload, BackAddr, BackOffset, BlockOk, MinorFor;
    var b' := b.(chunks := b.chunks[j := b.chunks[j].(req := req)]);
    var a := b.chunks[j].addr;
    Within(b, j);
    ResizedLayout(b, j, req);
    forall i | 0 <= i < |b.chunks|
      ensures var m' := m[a := m[a].(reqSize := req)];
              b'.chunks[i].addr in m' && m'[b'.chunks[i].addr] == MinorFor(b', i)
      ensures Peek(ram, BackAddr(b'.chunks[i])) == BackOffset(b'.chunks[i])
    {
      ResizedMinor(m, b, j, req, i);
      SamePayload(b.chunks[i], b'.chunks[i]);
    }
  }

  lemma SamePayload(c: Chunk, d: Chunk)
    requires c.addr == d.addr
    ensures Payload(c) == Payload(d) && BackAddr(c) == BackAddr(d) && BackOffset(c) == BackOffset(d)
  {
  }

  lemma ResizedLayout(b: Block, j: nat, req: nat)
    requires BlockOk(b) && j < |b.chunks| && req <= b.chunks[j].req
    ensures BlockOk(b.(chunks := b.chunks[j := b.chunks[j].(req := req)]))
  {
    var cs := b.chunks[j := b.chunks[j].(req := req)];
    assert forall i :: 0 <= i < |cs| ==> cs[i].addr == b.chunks[i].addr && End(cs[i]) == End(b.chunks[i]);
  }

  lemma ResizeConsistent(majors: Majors, minors: Minors, ram: Ram, root: nat, bet: nat, inuse: nat, heapBytes: nat,
                         blocks: seq<Block>, k: nat, j: nat, req: nat)
    requires Consistent(majors, minors, ram, root, bet, inuse, heapBytes, blocks)
    requires IsChunk(blocks, k, j) && req <= blocks[k].chunks[j].req
    ensures var a := blocks[k].chunks[j].addr;
            a in minors && Consistent(majors, minors[a := minors[a].(reqSize := req)], ram, root, bet, inuse, heapBytes,
                                      Resized(blocks, k, j, req))
    ensures NoneEmpty(blocks) ==> NoneEmpty(Resized(blocks, k, j, req))
  {
    hide InUse, Allocated, Usage, TotalSize, IsBase, LayoutOk, MajorsOk, ChunksOk, BlockOk, MinorsOk, BacksOk,
      LocalChange;
    var b := blocks[k];
    var b' := b.(chunks := b.chunks[j := b.chunks[j].(req := req)]);
    BlockParts(majors, minors, ram, blocks, k);
    ResizedBlock(minors, ram, b, j, req);
    SameSizes(b.chunks, j, req);
    SumUpdate(blocks, k, b');
    KeepBases(blocks, k, b', bet);
    MajorChanged(majors, blocks, k, b');
    assert MajorFor(blocks[k := b'], k) == majors[b.base];
    assert majors[b.base := majors[b.base]] == majors;
    var a := b.chunks[j].addr;
    ChangeOneBlock(minors, minors[a := minors[a].(reqSize := req)], ram, ram, blocks, k, b');
  }

  lemma LayoutOf(majors: Majors, minors: Minors, ram: Ram, root: nat, bet: nat, inuse: nat, heapBytes: nat,
                 blocks: seq<Block>)
    requires Consistent(majors, minors, ram, root, bet, inuse, heapBytes, blocks)
    ensures LayoutOk(blocks)
  {
  }

  lemma NullApart(majors: Majors, minors: Minors, ram: Ram, root: nat, bet: nat, inuse: nat, heapBytes: nat,
                  blocks: seq<Block>, k: nat, j: nat, p: nat)
    requires Consistent(majors, minors, ram, root, bet, inuse, heapBytes, blocks) && IsLive(blocks, k, j, p)
    requires AboveNull(blocks, blocks[k].chunks[j].req)
    ensures blocks[k].chunks[j].req <= p
  {
    PayloadsSafe(blocks, k, j, k, j);
  }

  /** The chunk being reallocated survives the placement of the new one. */
  lemma OldChunkAt(blocks: seq<Block>, ram: Ram, bet: nat, blocks': seq<Block>, ram': Ram, page: nat,
                   k': nat, j': nat, size: nat, q: nat, k: nat, j: nat) returns (at: nat)
    requires MallocDone(blocks, ram, bet, blocks', ram', page, k', j', size, q) && IsChunk(blocks, k, j)
    ensures at == Shifted(k, j, k', j') && (k, at) != (k', j')
    ensures IsChunk(blocks', k, at) && blocks'[k].chunks[at] == blocks[k].chunks[j]
    ensures IsLive(blocks', k', j', q) && blocks'[k'].chunks[j'].req == size
  {
    hide NoFit, FirstFit, FoundInOrder, PagesFor, BackAddr, BackOffset;
    at := Shifted(k, j, k', j');
    var g := Grown(blocks, k', page, PagesFor(size + 32));
    assert g[k] == blocks[k];
    assert blocks'[k'] == Place(g[k'], j', size + 32, size);
    if k == k' {
      assert blocks'[k].chunks[at] == PlacedAt(g[k], j', size + 32, size, at);
    }
    assert blocks'[k'].chunks[j'] == NewChunk(g[k'], j', size + 32, size);
  }

  lemma PayloadsApart(majors: Majors, minors: Minors, ram: Ram, root: nat, bet: nat, inuse: nat, heapBytes: nat,
                      blocks: seq<Block>, k: nat, j: nat, k': nat, j': nat, p: nat, q: nat, n: nat)
    requires Consistent(majors, minors, ram, root, bet, inuse, heapBytes, blocks)
    requires IsLive(blocks, k, j, p) && IsLive(blocks, k', j', q) && (k, j) != (k', j')
    requires n == blocks[k].chunks[j].req <= blocks[k'].chunks[j'].req
    ensures Disjoint(q, n, p, n)
  {
    PayloadsSafe(blocks, k, j, k', j');
  }

  /** A copy into a live payload, or below the heap, disturbs no header and no back-offset byte. */
  lemma CopyConsistent(majors: Majors, minors: Minors, ram: Ram, ram': Ram, root: nat, bet: nat, inuse: nat,
                       heapBytes: nat,
                       blocks: seq<Block>, q: nat, p: nat, n: nat, k: nat, j: nat)
    requires Consistent(majors, minors, ram, root, bet, inuse, heapBytes, blocks) && Copied(ram, ram', q, p, n)
    requires (q == 0 && AboveNull(blocks, n)) || (IsLive(blocks, k, j, q) && n <= blocks[k].chunks[j].req)
    ensures Consistent(majors, minors, ram', root, bet, inuse, heapBytes, blocks)
  {
    hide InUse, Allocated, Usage, IsBase, BackAddr, BackOffset, MajorsOk, MinorsOk, LayoutOk, Copied, AboveNull,
      IsLive;
    forall x | 0 <= x < |blocks|
      ensures MinorsOk(minors, blocks[x]) && BacksOk(ram', blocks[x])
    {
      assert MinorsOk(minors, blocks[x]) && BacksOk(ram, blocks[x]);
      forall y | 0 <= y < |blocks[x].chunks|
        ensures Peek(ram', BackAddr(blocks[x].chunks[y])) == BackOffset(blocks[x].chunks[y])
      {
        BackAvoids(blocks, q, n, k, j, x, y);
        CopyAvoids(ram, ram', q, p, n, BackAddr(blocks[x].chunks[y]));
      }
    }
  }

  /** A byte stored in a live payload disturbs no header and no back-offset byte. */
  lemma StoreConsistent(majors: Majors, minors: Minors, ram: Ram, root: nat, bet: nat, inuse: nat, heapBytes: nat,
                        blocks: seq<Block>, k: nat, j: nat, p: nat, i: nat, v: nat)
    requires Consistent(majors, minors, ram, root, bet, inuse, heapBytes, blocks)
    requires IsLive(blocks, k, j, p) && i < blocks[k].chunks[j].req
    ensures Consistent(majors, minors, ram[p + i := v], root, bet, inuse, heapBytes, blocks)
  {
    hide InUse, Allocated, Usage, IsBase, BackAddr, BackOffset, MajorsOk, MinorsOk, LayoutOk, Payload;
    var ram' := ram[p + i := v];
    forall x | 0 <= x < |blocks|
      ensures MinorsOk(minors, blocks[x]) && BacksOk(ram', blocks[x])
    {
      assert MinorsOk(minors, blocks[x]) && BacksOk(ram, blocks[x]);
      forall y | 0 <= y < |blocks[x].chunks|
        ensures Peek(ram', BackAddr(blocks[x].chunks[y])) == BackOffset(blocks[x].chunks[y])
      {
        BackAvoids(blocks, p, blocks[k].chunks[j].req, k, j, x, y);
      }
    }
  }

  lemma CopyAvoids(ram: Ram, ram': Ram, q: nat, p: nat, n: nat, a: nat)
    requires Copied(ram, ram', q, p, n) && !(q <= a < q + n)
    ensures Peek(ram', a) == Peek(ram, a)
  {
  }

  lemma BackAvoids(blocks: seq<Block>, q: nat, n: nat, k: nat, j: nat, x: nat, y: nat)
    requires LayoutOk(blocks) && IsChunk(blocks, x, y)
    requires (q == 0 && AboveNull(blocks, n)) || (IsLive(blocks, k, j, q) && n <= blocks[k].chunks[j].req)
    ensures !(q <= BackAddr(blocks[x].chunks[y]) < q + n)
  {
    if q == 0 && AboveNull(blocks, n) {
      assert BlockOk(blocks[x]);
      Within(blocks[x], y);
      PayloadInside(blocks[x].chunks[y]);
    } else {
      PayloadsSafe(blocks, k, j, x, y);
    }
  }

  lemma IsMoved(was: seq<Block>, wasRam: Ram, bet: nat, mid: seq<Block>, midRam: Ram, blocks: seq<Block>, ram: Ram,
                page: nat,
                k: nat, j: nat, k': nat, j': nat, at: nat, size: nat, p: nat, q: nat)
    requires IsChunk(was, k, j) && MallocDone(was, wasRam, bet, mid, midRam, page, k', j', size, q) && LayoutOk(mid)
    requires at == Shifted(k, j, k', j') && (k, at) != (k', j') && IsLive(mid, k, at, p)
             && mid[k].chunks[at] == was[k].chunks[j]
    requires IsLive(mid, k', j', q) && mid[k'].chunks[j'].req == size > was[k].chunks[j].req
    requires Copied(midRam, ram, q, p, was[k].chunks[j].req) && blocks == FreeSpec(mid, k, at)
    ensures Moved(was, wasRam, bet, blocks, ram, page, k, j, k', j', size, p, q)
  {
    hide NoFit, FirstFit, FoundInOrder, PagesFor, FreeSpec, LayoutOk, BackAddr, BackOffset, Payload, Copied,
      MallocDone, SameBytes, SameOutside;
    var g, c := NewChunkIs(was, wasRam, bet, mid, midRam, page, k', j', size, q);
    BytesArrive(wasRam, midRam, ram, mid, k, at, k', j', p, q, was[k].chunks[j].req);
  }

  lemma NewChunkIs(blocks: seq<Block>, ram: Ram, bet: nat, blocks': seq<Block>, ram': Ram, page: nat, k: nat, j: nat,
                   req: nat, q: nat)
    returns (g: seq<Block>, c: Chunk)
    requires MallocDone(blocks, ram, bet, blocks', ram', page, k, j, req, q)
    ensures g == Grown(blocks, k, page, PagesFor(req + 32)) && k <= |blocks| && j <= |g[k].chunks|
    ensures c == NewChunk(g[k], j, req + 32, req) && IsChunk(blocks', k, j) && blocks'[k].chunks[j] == c
    ensures blocks' == MallocSpec(blocks, k, j, page, PagesFor(req + 32), req + 32, req)
    ensures ram' == ram[BackAddr(c) := BackOffset(c)]
  {
    hide NoFit, FirstFit, FoundInOrder, PagesFor, BackAddr, BackOffset, Payload;
    g := Grown(blocks, k, page, PagesFor(req + 32));
    c := NewChunk(g[k], j, req + 32, req);
    assert blocks'[k].chunks[j] == Place(g[k], j, req + 32, req).chunks[j];
  }

  lemma BytesArrive(wasRam: Ram, midRam: Ram, ram: Ram, mid: seq<Block>, k: nat, at: nat, k': nat, j': nat, p: nat,
                    q: nat, n: nat)
    requires LayoutOk(mid) && IsLive(mid, k, at, p) && IsLive(mid, k', j', q) && (k, at) != (k', j')
    requires n == mid[k].chunks[at].req < mid[k'].chunks[j'].req && Copied(midRam, ram, q, p, n)
    requires var c := mid[k'].chunks[j']; midRam == wasRam[BackAddr(c) := BackOffset(c)]
    ensures SameBytes(wasRam, p, ram, q, n) && SameOutside(wasRam, ram, mid[k'].chunks[j'])
  {
    hide LayoutOk, BackAddr, BackOffset, Payload;
    var c := mid[k'].chunks[j'];
    ChunkFacts(mid, k', j');
    PayloadsSafe(mid, k, at, k', j');
    forall a: nat | p <= a < p + n ensures Peek(ram, q + (a - p)) == Peek(wasRam, a) {
      var b := q + (a - p);
      assert Peek(ram, b) == Peek(midRam, p + (b - q));
      assert a != BackAddr(c);
    }
    forall a: nat | !(c.addr <= a < End(c)) ensures Peek(ram, a) == Peek(wasRam, a) {
      CopyAvoids(midRam, ram, q, p, n, a);
    }
  }

  lemma ChunkFacts(blocks: seq<Block>, k: nat, j: nat)
    requires LayoutOk(blocks) && IsChunk(blocks, k, j)
    ensures var c := blocks[k].chunks[j];
            c.addr + 40 <= BackAddr(c) < Payload(c) && Payload(c) + c.req < End(c)
  {
    assert BlockOk(blocks[k]);
    Within(blocks[k], j);
    PayloadInside(blocks[k].chunks[j]);
  }

  /** A new chunk overlaps no old chunk and no block header: what krealloc and kmalloc write stays
      clear of every other live payload. */
  lemma NewChunkClear(blocks: seq<Block>, ram: Ram, bet: nat, blocks': seq<Block>, ram': Ram, page: nat,
                      k': nat, j': nat, req: nat, q: nat, k: nat, j: nat)
    requires LayoutOk(blocks) && LayoutOk(blocks') && IsChunk(blocks, k, j)
    requires MallocDone(blocks, ram, bet, blocks', ram', page, k', j', req, q)
    ensures var g := Grown(blocks, k', page, PagesFor(req + 32));
            var c, d := blocks[k].chunks[j], NewChunk(g[k'], j', req + 32, req);
            Disjoint(c.addr, 40 + c.size, d.addr, 40 + d.size) && Disjoint(blocks[k].base, 40, d.addr, 40 + d.size)
  {
    hide LayoutOk, NoFit, FirstFit, FoundInOrder, PagesFor;
    var at := OldChunkAt(blocks, ram, bet, blocks', ram', page, k', j', req, q, k, j);
    var g := Grown(blocks, k', page, PagesFor(req + 32));
    assert blocks'[k'].chunks[j'] == Place(g[k'], j', req + 32, req).chunks[j'];
    ChunksApart(blocks', k, at, k', j');
    ChunkApartFromBlockHeader(blocks', k', j', k);
  }

  lemma FreshBase2(majors: Majors, minors: Minors, ram: Ram, blocks: seq<Block>, base: nat, pages: nat)
    requires Wired(majors, minors, ram, blocks) && FreshRange(blocks, base, pages) && blocks != []
    ensures blocks[|blocks| - 1].base != base
  {
    FreshBase(blocks, base, pages, |blocks| - 1);
  }

  /** Exactly one chunk was added, at gap j of block k, and exactly one byte of memory written. */
  ghost predicate PlacedIn(blocks: seq<Block>, ram: Ram, blocks': seq<Block>, ram': Ram,
                           k: nat, j: nat, size: nat, req: nat, p: nat)
  {
    && k < |blocks| && j <= |blocks[k].chunks|
    && blocks' == blocks[k := Place(blocks[k], j, size, req)]
    && var c := NewChunk(blocks[k], j, size, req);
       p == Payload(c) && ram' == ram[BackAddr(c) := BackOffset(c)]
  }

  lemma IsPlaced(blocks: seq<Block>, ram: Ram, blocks': seq<Block>, ram': Ram, k: nat, j: nat, size: nat, req: nat,
                 p: nat)
    requires k < |blocks| && j <= |blocks[k].chunks|
    requires blocks' == blocks[k := Place(blocks[k], j, size, req)]
    requires p == Payload(NewChunk(blocks[k], j, size, req))
    requires ram' == ram[p - 16 := BackOffset(NewChunk(blocks[k], j, size, req))]
    ensures PlacedIn(blocks, ram, blocks', ram', k, j, size, req, p) && p != 0
  {
  }

  /** A caller on a fresh heap asks for 100 bytes, gets them, and then for 100000 when the page source has no
      more: it is told NULL, and its 100 bytes are gone. */
  method FailedGrowth() returns (h: Heap, p: nat, q: nat)
    ensures fresh(h) && h.Valid() && p != 0 && q == 0
    ensures h.blocks == []
  {
    var page := 0x10_0000;
    h := new Heap();
    FirstPage(page);
    ghost var was, bet := h.ram, h.bestBet;
    ghost var k, j: nat, k': nat, j': nat;
    p, k, j := h.Kmalloc(100, page);
    FirstChunk(was, bet, h.blocks, h.ram, page, k, j, p);
    q, k', j' := h.Krealloc(p, 100000, 0, k, j);
  }

  lemma FirstPage(page: nat)
    requires page == 0x10_0000
    ensures SmallEnough(100) && SmallEnough(100000) && PagesFor(132) == 16 && FreshRange([], page, 16)
    ensures HasFit(Block(page, 16, []), 172) && NoFit([], 172)
  {
    EmptyFits(Block(page, 16, []), 172);
  }

  lemma FirstChunk(was: Ram, bet: nat, blocks: seq<Block>, ram: Ram, page: nat, k: nat, j: nat, p: nat)
    requires page == 0x10_0000 && MallocDone([], was, bet, blocks, ram, page, k, j, 100, p)
    ensures IsLive(blocks, k, j, p) && blocks[k].chunks[j].req == 100 && AboveNull(blocks, 100)
    ensures NoFit(blocks, 100072) && FreeSpec(blocks, k, j) == []
  {
    FirstPage(page);
    hide FirstFit, NoFit, PagesFor, FoundInOrder, Payload, BackAddr, BackOffset;
    var c := Chunk(page + 40, 132, 100);
    var b := Block(page, 16, []);
    assert Grown([], 0, page, 16) == [b] && k == 0 && j == 0;
    assert NewChunk(b, 0, 132, 100) == c && Place(b, 0, 132, 100).chunks == [c];
    assert blocks == [Block(page, 16, [c])];
    OneChunkFull(page, c);
  }

  lemma OneChunkFull(page: nat, c: Chunk)
    requires page == 0x10_0000 && c == Chunk(page + 40, 132, 100)
    ensures NoFit([Block(page, 16, [c])], 100072)
  {
    var b := Block(page, 16, [c]);
    assert b.chunks[..0] == [] && Usage(b.chunks) == 172;
    SkipIsSafe(b, 100072);
  }
}
