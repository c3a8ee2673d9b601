/** Page-table words and virtual addresses: the mask and shift expressions of kernel/src/mm/vmm.c
    and what they compute. */
module PageWords {
  import opened Bits

  const ADDRESS_MASK: nat := 0x000F_FFFF_FFFF_F000
  const NX_BIT: nat := 0x8000_0000_0000_0000

  function TableIndex(virt: nat, shift: nat): nat {
    Shr(And(virt, Shl(0x1ff, shift)), shift)
  }

  function Pml1Index(virt: nat): (i: nat)
    ensures i < 512
  {
    IndexExpression(virt, 12);
    TableIndex(virt, 12)
  }

  function Pml2Index(virt: nat): (i: nat)
    ensures i < 512
  {
    IndexExpression(virt, 21);
    TableIndex(virt, 21)
  }

  function Pml3Index(virt: nat): (i: nat)
    ensures i < 512
  {
    IndexExpression(virt, 30);
    TableIndex(virt, 30)
  }

  function Pml4Index(virt: nat): (i: nat)
    ensures i < 512
  {
    IndexExpression(virt, 39);
    TableIndex(virt, 39)
  }

  /** The page number: bits 12..47 of a virtual address. */
  function PageOf(virt: nat): nat {
    virt / 4096 % 0x10_0000_0000
  }

  function AddressOf(word: nat): nat {
    And(word, ADDRESS_MASK)
  }

  predicate Present(word: nat) {
    And(word, 1) != 0
  }

  /** What the hardware allows through one entry. */
  datatype Rights = Rights(writable: bool, user: bool, noExecute: bool)

  function RightsOf(word: nat): Rights {
    Rights(And(word, 2) != 0, And(word, 4) != 0, And(word, NX_BIT) != 0)
  }

  /** A page is writable or user-accessible only if every level says so, and not executable if any
      level says so. */
  function Meet(a: Rights, b: Rights): Rights {
    Rights(a.writable && b.writable, a.user && b.user, a.noExecute || b.noExecute)
  }

  predicate PageAddress(p: nat) {
    p % 4096 == 0 && p < 0x10_0000_0000_0000
  }

  /** Flags a caller may pass to vmm_map: present, and touching no address bit. */
  predicate EntryFlags(flags: nat) {
    flags < WORD_SIZE && Present(flags) && AddressOf(flags) == 0
  }

  // ---------- index expressions ----------

  lemma IndexExpression(virt: nat, k: nat)
    ensures TableIndex(virt, k) == Shr(virt, k) % 512 < 512
  {
    OnesValues();
    AndField(virt, 9, k);
    ShrShl(Low(Shr(virt, k), 9), k);
    Low9(Shr(virt, k));
  }

  lemma Shift21(a: nat)
    ensures Shr(a, 21) == a / 0x20_0000
  {
    ShrAdd(a, 12, 9); Shift12(a); Shift9(a / 4096);
  }

  lemma Shift30(a: nat)
    ensures Shr(a, 30) == a / 0x4000_0000
  {
    ShrAdd(a, 21, 9); Shift21(a); Shift9(a / 0x20_0000);
  }

  lemma Shift39(a: nat)
    ensures Shr(a, 39) == a / 0x80_0000_0000
  {
    ShrAdd(a, 30, 9); Shift30(a); Shift9(a / 0x4000_0000);
  }

  /** The four index expressions read the four 9-bit fields above the page offset. */
  lemma IndexExpressions(virt: nat)
    ensures Pml1Index(virt) == virt / 0x1000 % 512
    ensures Pml2Index(virt) == virt / 0x20_0000 % 512
    ensures Pml3Index(virt) == virt / 0x4000_0000 % 512
    ensures Pml4Index(virt) == virt / 0x80_0000_0000 % 512
  {
    IndexExpression(virt, 12); Shift12(virt);
    IndexExpression(virt, 21); Shift21(virt);
    IndexExpression(virt, 30); Shift30(virt);
    IndexExpression(virt, 39); Shift39(virt);
  }

  lemma DivDiv(a: nat)
    ensures a / 0x20_0000 == a / 4096 / 512
    ensures a / 0x4000_0000 == a / 4096 / 512 / 512
    ensures a / 0x80_0000_0000 == a / 4096 / 512 / 512 / 512
  {
    DivStep(a);
    var p := a / 4096;
    DivStep2(a, p);
  }

  lemma DivStep(a: nat)
    ensures a / 0x20_0000 == a / 4096 / 512
  {
  }

  lemma DivStep2(a: nat, p: nat)
    requires p == a / 4096
    ensures a / 0x4000_0000 == p / 512 / 512
    ensures a / 0x80_0000_0000 == p / 512 / 512 / 512
  {
  }

  /** The page number and the four indices determine each other. */
  lemma PageIndices(virt: nat)
    ensures var q := PageOf(virt);
            && q < 0x10_0000_0000
            && Pml4Index(virt) == q / 512 / 512 / 512
            && q / 512 / 512 == Pml4Index(virt) * 512 + Pml3Index(virt)
            && q / 512 == q / 512 / 512 * 512 + Pml2Index(virt)
            && q == q / 512 * 512 + Pml1Index(virt)
  {
    IndexExpressions(virt);
    DivDiv(virt);
    Split(virt / 4096);
  }

  lemma Split(p: nat)
    ensures var q := p % 0x10_0000_0000;
            && p % 512 == q % 512 && p / 512 % 512 == q / 512 % 512
            && p / 512 / 512 % 512 == q / 512 / 512 % 512
            && p / 512 / 512 / 512 % 512 == q / 512 / 512 / 512
  {
    var q := p % 0x10_0000_0000;
    var h := p / 0x10_0000_0000;
    assert p == 0x10_0000_0000 * h + q;
    assert p / 512 == 0x800_0000 * h + q / 512;
    assert p / 512 / 512 == 0x4_0000 * h + q / 512 / 512;
    assert p / 512 / 512 / 512 == 512 * h + q / 512 / 512 / 512;
  }

  // ---------- entry words ----------

  lemma MaskIsField()
    ensures ADDRESS_MASK == Shl(Ones(40), 12)
  {
    OnesValues();
    Shift12(Ones(40));
  }

  /** The address mask keeps exactly the page-aligned addresses below 2^52. */
  lemma AddressFixed(p: nat)
    ensures AddressOf(p) == p <==> PageAddress(p)
  {
    MaskIsField();
    OnesValues();
    AndField(p, 40, 12);
    Shift12(p);
    var f := Low(p / 4096, 40);
    Shift12(f);
    LowBound(p / 4096, 40);
  }

  lemma {:induction false} AndSelf(a: nat)
    ensures And(a, a) == a
  {
    if a > 0 {
      AndSelf(a / 2);
    }
  }

  /** An address has no bit outside the mask. */
  lemma AddressBit(p: nat, bit: nat)
    requires PageAddress(p) && And(ADDRESS_MASK, bit) == 0
    ensures And(p, bit) == 0
  {
    AddressFixed(p);
    AndAnd(p, ADDRESS_MASK, bit);
  }

  lemma {:induction false} LowHigh(a: nat, x: nat, k: nat)
    requires a <= Ones(k)
    ensures And(a, Shl(x, k)) == 0
  {
    if k > 0 {
      LowHigh(a / 2, x, k - 1);
      AndStep(a, Shl(x, k));
    }
  }

  lemma LowMaskBits()
    ensures And(ADDRESS_MASK, 1) == 0 && And(ADDRESS_MASK, 2) == 0 && And(ADDRESS_MASK, 4) == 0
  {
    AndStep(ADDRESS_MASK, 1);
    AndStep(ADDRESS_MASK, 2);
    AndStep(ADDRESS_MASK / 2, 1);
    AndStep(ADDRESS_MASK, 4);
    AndStep(ADDRESS_MASK / 2, 2);
  }

  lemma NxMaskBit()
    ensures And(ADDRESS_MASK, NX_BIT) == 0
  {
    OnesValues();
    OnesAdd(63, 1);
    OnesAdd(52, 11);
    assert NX_BIT == Shl(1, 63);
    LowHigh(ADDRESS_MASK, 1, 63);
  }

  /** `address | flags` reads back as that address, present, with the rights of the flags. */
  lemma MakeEntry(p: nat, flags: nat)
    requires PageAddress(p) && EntryFlags(flags)
    ensures Or(p, flags) < WORD_SIZE
    ensures AddressOf(Or(p, flags)) == p && Present(Or(p, flags)) && RightsOf(Or(p, flags)) == RightsOf(flags)
  {
    OnesValues();
    OrBound(p, flags, 64);
    AndOr(p, flags, ADDRESS_MASK);
    AddressFixed(p);
    LowMaskBits();
    NxMaskBit();
    AndOr(p, flags, 1); AddressBit(p, 1);
    AndOr(p, flags, 2); AddressBit(p, 2);
    AndOr(p, flags, 4); AddressBit(p, 4);
    AndOr(p, flags, NX_BIT); AddressBit(p, NX_BIT);
  }

  function EntryWord(p: nat, flags: nat): (w: u64)
    requires PageAddress(p) && EntryFlags(flags)
    ensures AddressOf(w) == p && Present(w) && RightsOf(w) == RightsOf(flags)
  {
    MakeEntry(p, flags);
    Or(p, flags)
  }

  // ---------- flags ----------

  const VMM_PRESENT: nat := 1
  const VMM_WRITABLE: nat := 2

  lemma {:induction false} AndCommutes(a: nat, b: nat)
    ensures And(a, b) == And(b, a)
  {
    if a > 0 && b > 0 {
      AndCommutes(a / 2, b / 2);
    }
  }

  /** The flag words the kernel passes are fit for vmm_map: present, adding writable or no-execute. */
  lemma FlagsUnion(f: nat, g: nat)
    requires EntryFlags(f) && g < WORD_SIZE && AddressOf(g) == 0
    ensures EntryFlags(Or(f, g))
  {
    OnesValues();
    OrBound(f, g, 64);
    AndOr(f, g, ADDRESS_MASK);
    AndOr(f, g, 1);
  }

  lemma KernelFlags()
    ensures EntryFlags(VMM_PRESENT) && EntryFlags(Or(VMM_PRESENT, VMM_WRITABLE))
    ensures EntryFlags(Or(VMM_PRESENT, NX_BIT)) && EntryFlags(Or(Or(VMM_PRESENT, VMM_WRITABLE), NX_BIT))
  {
    LowMaskBits();
    NxMaskBit();
    AndCommutes(ADDRESS_MASK, 1);
    AndCommutes(ADDRESS_MASK, 2);
    AndCommutes(ADDRESS_MASK, NX_BIT);
    AndSelf(1);
    FlagsUnion(1, 2);
    FlagsUnion(1, NX_BIT);
    FlagsUnion(Or(1, 2), NX_BIT);
  }

  lemma UnionRights(f: nat, g: nat)
    ensures var a, b := RightsOf(f), RightsOf(g);
            RightsOf(Or(f, g)) == Rights(a.writable || b.writable, a.user || b.user, a.noExecute || b.noExecute)
  {
    AndOr(f, g, 2);
    AndOr(f, g, 4);
    AndOr(f, g, NX_BIT);
  }

  lemma UnitRights()
    ensures RightsOf(VMM_PRESENT) == Rights(false, false, false)
    ensures RightsOf(VMM_WRITABLE) == Rights(true, false, false)
    ensures RightsOf(NX_BIT) == Rights(false, false, true)
  {
    AndStep(1, 2);
    AndStep(1, 4);
    AndStep(1, NX_BIT);
    AndSelf(2);
    AndStep(2, 4);
    AndStep(1, 2);
    AndStep(2, NX_BIT);
    AndStep(1, NX_BIT / 2);
    AndSelf(NX_BIT);
    AndCommutes(NX_BIT, 2);
    AndCommutes(NX_BIT, 4);
    AndStep(4, NX_BIT);
    AndStep(2, NX_BIT / 2);
    AndStep(1, NX_BIT / 2 / 2);
  }

  // ---------- entry words as sums ----------

  lemma {:induction false} OrIsSum(a: nat, b: nat)
    requires And(a, b) == 0
    ensures Or(a, b) == a + b
  {
    if a > 0 && b > 0 {
      AndStep(a, b);
      OrIsSum(a / 2, b / 2);
    }
  }

  /** An entry word is the sum of its address and its flags: no bit is shared. */
  lemma EntryIsSum(p: nat, flags: nat)
    requires PageAddress(p) && EntryFlags(flags)
    ensures EntryWord(p, flags) == p + flags
  {
    AddressFixed(p);
    AndAnd(p, ADDRESS_MASK, flags);
    AndCommutes(ADDRESS_MASK, flags);
    hide Or, Present, RightsOf;
    assert And(p, flags) == And(p, 0) == 0;
    OrIsSum(p, flags);
  }
}
