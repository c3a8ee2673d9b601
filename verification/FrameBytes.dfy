/** Frames read and written byte by byte: memcpy and memset of kernel/src/lib/string.c on memory whose
    words are little-endian. */
module FrameBytes {
  import opened Bits
  import opened Pmm

  type u8 = x: nat | x < 256

  function Power256(n: nat): nat {
    if n == 0 then 1 else 256 * Power256(n - 1)
  }

  function ByteAt(w: nat, k: nat): u8 {
    if k == 0 then w % 256 else ByteAt(w / 256, k - 1)
  }

  function SetByte(w: nat, k: nat, b: u8): nat {
    if k == 0 then w / 256 * 256 + b else SetByte(w / 256, k - 1, b) * 256 + w % 256
  }

  lemma {:induction false} SetByteBound(w: nat, k: nat, b: u8, n: nat)
    requires k < n && w < Power256(n)
    ensures SetByte(w, k, b) < Power256(n)
  {
    var p := Power256(n - 1);
    assert w / 256 < p;
    if k > 0 {
      SetByteBound(w / 256, k - 1, b, n - 1);
      Carry(SetByte(w / 256, k - 1, b), w % 256, p);
    } else {
      Carry(w / 256, b, p);
    }
  }

  lemma Carry(high: nat, low: u8, p: nat)
    requires high < p
    ensures high * 256 + low < 256 * p
  {
  }

  /** A byte written is read back, and no other byte of the word changes. */
  lemma {:induction false} SetByteGet(w: nat, k: nat, b: u8, j: nat)
    ensures ByteAt(SetByte(w, k, b), j) == if j == k then b else ByteAt(w, j)
  {
    var s := SetByte(w, k, b);
    if k == 0 {
      assert s % 256 == b && s / 256 == w / 256;
    } else {
      assert s % 256 == w % 256 && s / 256 == SetByte(w / 256, k - 1, b);
      if j > 0 {
        SetByteGet(w / 256, k - 1, b, j - 1);
      }
    }
  }

  lemma {:induction false} ZeroByte(k: nat)
    ensures ByteAt(0, k) == 0
  {
    if k > 0 {
      ZeroByte(k - 1);
    }
  }

  lemma EightBytes()
    ensures Power256(8) == WORD_SIZE
  {
    assert Power256(2) == 0x1_0000;
    assert Power256(4) == 0x1_0000_0000;
    assert Power256(6) == 0x1_0000_0000_0000;
  }

  /** Byte j of a frame. */
  function Peek(t: Table, j: nat): u8
    requires j < 4096
  {
    ByteAt(t[j / 8], j % 8)
  }

  function Poke(t: Table, j: nat, b: u8): Table
    requires j < 4096
  {
    EightBytes();
    SetByteBound(t[j / 8], j % 8, b, 8);
    var word: u64 := SetByte(t[j / 8], j % 8, b);
    t[j / 8 := word]
  }

  lemma PokePeek(t: Table, j: nat, b: u8, i: nat)
    requires j < 4096 && i < 4096
    ensures Peek(Poke(t, j, b), i) == if i == j then b else Peek(t, i)
  {
    SetByteGet(t[j / 8], j % 8, b, i % 8);
  }

  lemma FreshByte(j: nat)
    requires j < 4096
    ensures Peek(ZeroTable(), j) == 0
  {
    ZeroByte(j % 8);
  }

  /** memcpy from a file image into the start of a frame. */
  method Memcpy(pmm: FrameAllocator, frame: nat, data: seq<u8>, from: nat, n: nat)
    requires frame in pmm.mem && n <= 4096 && from + n <= |data|
    modifies pmm`mem
    ensures frame in pmm.mem && pmm.mem == old(pmm.mem)[frame := pmm.mem[frame]]
    ensures forall j :: 0 <= j < 4096 ==>
              Peek(pmm.mem[frame], j) == if j < n then data[from + j] else old(Peek(pmm.mem[frame], j))
  {
    hide Poke, Peek;
    ghost var was := pmm.mem;
    var i := 0;
    while i < n
      invariant i <= n && frame in pmm.mem && pmm.mem == was[frame := pmm.mem[frame]]
      invariant forall j :: 0 <= j < 4096 ==>
                  Peek(pmm.mem[frame], j) == if j < i then data[from + j] else Peek(was[frame], j)
    {
      ghost var before := pmm.mem[frame];
      pmm.mem := pmm.mem[frame := Poke(pmm.mem[frame], i, data[from + i])];
      forall j | 0 <= j < 4096
        ensures Peek(pmm.mem[frame], j) == if j == i then data[from + i] else Peek(before, j)
      {
        PokePeek(before, i, data[from + i], j);
      }
      i := i + 1;
    }
  }

  /** memset of a whole frame to zero. */
  method Memclear(pmm: FrameAllocator, frame: nat)
    requires frame in pmm.mem
    modifies pmm`mem
    ensures frame in pmm.mem && pmm.mem == old(pmm.mem)[frame := pmm.mem[frame]]
    ensures forall j :: 0 <= j < 4096 ==> Peek(pmm.mem[frame], j) == 0
  {
    hide Poke, Peek;
    ghost var was := pmm.mem;
    var i := 0;
    while i < 4096
      invariant i <= 4096 && frame in pmm.mem && pmm.mem == was[frame := pmm.mem[frame]]
      invariant forall j :: 0 <= j < i ==> Peek(pmm.mem[frame], j) == 0
    {
      ghost var before := pmm.mem[frame];
      pmm.mem := pmm.mem[frame := Poke(pmm.mem[frame], i, 0)];
      forall j | 0 <= j < 4096
        ensures Peek(pmm.mem[frame], j) == if j == i then 0 else Peek(before, j)
      {
        PokePeek(before, i, 0, j);
      }
      i := i + 1;
    }
  }
}
