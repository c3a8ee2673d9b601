/** vmm_init of kernel/src/mm/vmm.c: the loops that build the kernel's address space, and exactly
    which space they build. */
module VmmInit {
  import opened Bits
  import opened PageWords
  import opened Pmm
  import opened AddressSpaces
  import opened Vmm
  import opened Mappings

  const UPPER_HALF: nat := 0xFFFF_8000_0000_0000
  const FOUR_GIB: nat := 0x1_0000_0000

  /** A section as the linker names it: its first address and the one after its last. */
  datatype Span = Span(start: nat, end: nat)

  /** What the linker and the boot loader tell vmm_init. */
  datatype Layout = Layout(hhdm: nat, virtBase: nat, physBase: nat, reqs: Span, text: Span, rodata: Span, data: Span)

  function First(s: Span): nat {
    s.start / 4096 * 4096
  }

  /** Pages from ALIGN_DOWN(start) up to ALIGN_UP(end). */
  function Pages(s: Span): nat {
    if First(s) < AlignUp(s.end, 4096) then (AlignUp(s.end, 4096) - First(s)) / 4096 else 0
  }

  /** The page at v belongs to the section. */
  predicate InSpan(s: Span, v: nat) {
    First(s) <= v < First(s) + Pages(s) * 4096
  }

  /** A section lies in the kernel image, and its physical image is addressable. */
  predicate SpanOk(l: Layout, s: Span) {
    l.virtBase <= s.start && s.end + 4095 < WORD_SIZE && s.end + 4096 + l.physBase < l.virtBase + 0x10_0000_0000_0000
  }

  predicate LayoutOk(l: Layout) {
    && l.hhdm % 4096 == 0 && UPPER_HALF <= l.hhdm && l.hhdm + FOUR_GIB <= WORD_SIZE
    && l.virtBase % 4096 == 0 && UPPER_HALF <= l.virtBase && l.physBase % 4096 == 0
    && SpanOk(l, l.reqs) && SpanOk(l, l.text) && SpanOk(l, l.rodata) && SpanOk(l, l.data)
  }

  /** `v - __kernel_virt_base + __kernel_phys_base` in 64-bit arithmetic. */
  function Shifted(l: Layout, v: nat): nat {
    (v - l.virtBase + l.physBase) % WORD_SIZE
  }

  function ReadWrite(): (f: u64)
    ensures EntryFlags(f)
  {
    KernelFlags();
    Or(VMM_PRESENT, VMM_WRITABLE)
  }

  function ReadExecute(): (f: u64)
    ensures EntryFlags(f)
  {
    KernelFlags();
    VMM_PRESENT
  }

  function ReadOnly(): (f: u64)
    ensures EntryFlags(f)
  {
    KernelFlags();
    Or(VMM_PRESENT, NX_BIT)
  }

  function ReadWriteData(): (f: u64)
    ensures EntryFlags(f)
  {
    KernelFlags();
    Or(Or(VMM_PRESENT, VMM_WRITABLE), NX_BIT)
  }

  // ---------- the mappings, in the order they are made ----------

  function SectionPlan(l: Layout, lo: nat, n: nat, flags: u64): (ms: seq<Mapping>)
    ensures |ms| == n
  {
    if n == 0 then []
    else SectionPlan(l, lo, n - 1, flags) + [Mapping(lo + (n - 1) * 4096, Shifted(l, lo + (n - 1) * 4096), flags)]
  }

  /** The last loop: each page of low memory at its own address and in the direct map. */
  function DirectPlan(hhdm: nat, n: nat): seq<Mapping> {
    if n == 0 then []
    else DirectPlan(hhdm, n - 1)
         + [Mapping((n - 1) * 4096, (n - 1) * 4096, ReadWrite())]
         + [Mapping(hhdm + (n - 1) * 4096, (n - 1) * 4096, ReadWrite())]
  }

  function SpanPlan(l: Layout, s: Span, flags: u64): seq<Mapping> {
    SectionPlan(l, First(s), Pages(s), flags)
  }

  function Plan(l: Layout): seq<Mapping> {
    SpanPlan(l, l.reqs, ReadWrite()) + SpanPlan(l, l.text, ReadExecute()) + SpanPlan(l, l.rodata, ReadOnly())
    + SpanPlan(l, l.data, ReadWriteData()) + DirectPlan(l.hhdm, FOUR_GIB / 4096)
  }

  lemma ShiftedFits(l: Layout, s: Span, v: nat)
    requires LayoutOk(l) && SpanOk(l, s) && InSpan(s, v) && v % 4096 == 0
    ensures PageAddress(Shifted(l, v)) && UPPER_HALF <= v < WORD_SIZE
    ensures Shifted(l, v) + l.virtBase == v + l.physBase
  {
    assert First(s) >= l.virtBase;
  }

  lemma {:induction false} SectionFits(l: Layout, s: Span, n: nat, flags: u64)
    requires LayoutOk(l) && SpanOk(l, s) && n <= Pages(s) && EntryFlags(flags)
    ensures AllFit(SectionPlan(l, First(s), n, flags))
  {
    hide EntryFlags, PageAddress, Shifted, SpanOk, LayoutOk;
    if n > 0 {
      SectionFits(l, s, n - 1, flags);
      ShiftedFits(l, s, First(s) + (n - 1) * 4096);
    }
  }

  lemma {:induction false} DirectFits(hhdm: nat, n: nat)
    requires n <= FOUR_GIB / 4096
    ensures AllFit(DirectPlan(hhdm, n))
  {
    hide EntryFlags, ReadWrite;
    if n > 0 {
      DirectFits(hhdm, n - 1);
      assert PageAddress((n - 1) * 4096);
    }
  }

  lemma PlanFits(l: Layout)
    requires LayoutOk(l)
    ensures AllFit(SpanPlan(l, l.reqs, ReadWrite())) && AllFit(SpanPlan(l, l.text, ReadExecute()))
    ensures AllFit(SpanPlan(l, l.rodata, ReadOnly())) && AllFit(SpanPlan(l, l.data, ReadWriteData()))
    ensures AllFit(DirectPlan(l.hhdm, FOUR_GIB / 4096)) && AllFit(Plan(l))
  {
    hide Fit, EntryFlags, DirectPlan, SectionPlan, ReadWrite, ReadExecute, ReadOnly, ReadWriteData;
    SectionFits(l, l.reqs, Pages(l.reqs), ReadWrite());
    SectionFits(l, l.text, Pages(l.text), ReadExecute());
    SectionFits(l, l.rodata, Pages(l.rodata), ReadOnly());
    SectionFits(l, l.data, Pages(l.data), ReadWriteData());
    DirectFits(l.hhdm, FOUR_GIB / 4096);
  }

  // ---------- the space they make ----------

  /** A page-aligned address the hardware accepts. */
  predicate CanonicalPage(v: nat) {
    v % 4096 == 0 && (v < 0x8000_0000_0000 || UPPER_HALF <= v < WORD_SIZE)
  }

  /** Canonical addresses and page numbers determine each other. */
  lemma PagesDiffer(v: nat, u: nat)
    requires CanonicalPage(v) && CanonicalPage(u)
    ensures PageOf(v) == PageOf(u) <==> v == u
  {
    CanonicalNumber(v);
    CanonicalNumber(u);
  }

  lemma CanonicalNumber(v: nat)
    requires CanonicalPage(v)
    ensures v == PageOf(v) * 4096 + if v < UPPER_HALF then 0 else 0xFFFF_0000_0000_0000
  {
    var p := v / 4096;
    assert v == p * 4096;
    if v >= UPPER_HALF {
      var d := p - 0xF_FFF0_0000_0000;
      assert p == 0xFFFF * 0x10_0000_0000 + d && 0 <= d < 0x10_0000_0000;
    }
  }

  /** A section's word for a page inside it, what was there before for any other. */
  function Section(l: Layout, s: Span, flags: u64, v: nat, before: nat): nat
    requires LayoutOk(l) && SpanOk(l, s) && EntryFlags(flags) && v % 4096 == 0
  {
    if InSpan(s, v) then ShiftedFits(l, s, v); EntryWord(Shifted(l, v), flags) else before
  }

  function DirectWord(a: nat): u64
    requires a % 4096 == 0 && a < FOUR_GIB
  {
    hide EntryFlags, ReadWrite;
    EntryWord(a, ReadWrite())
  }

  function Direct(hhdm: nat, n: nat, v: nat, before: nat): nat
    requires n <= FOUR_GIB / 4096 && v % 4096 == 0 && hhdm % 4096 == 0
  {
    if v < n * 4096 then DirectWord(v)
    else if hhdm <= v < hhdm + n * 4096 then DirectWord(v - hhdm)
    else before
  }

  /** The word each page should have; where windows overlap, the one mapped last. */
  function Intended(l: Layout, v: nat): nat
    requires LayoutOk(l) && v % 4096 == 0
  {
    Direct(l.hhdm, FOUR_GIB / 4096, v,
      Section(l, l.data, ReadWriteData(), v,
        Section(l, l.rodata, ReadOnly(), v,
          Section(l, l.text, ReadExecute(), v,
            Section(l, l.reqs, ReadWrite(), v, 0)))))
  }

  lemma {:induction false} SectionFinal(l: Layout, s: Span, n: nat, flags: u64, v: nat, before: nat)
    requires LayoutOk(l) && SpanOk(l, s) && n <= Pages(s) && EntryFlags(flags) && CanonicalPage(v)
    requires AllFit(SectionPlan(l, First(s), n, flags))
    ensures Final(SectionPlan(l, First(s), n, flags), PageOf(v), before) ==
            if First(s) <= v < First(s) + n * 4096
            then ShiftedFits(l, s, v); EntryWord(Shifted(l, v), flags) else before
  {
    hide EntryFlags, PageAddress, Shifted, SpanOk, LayoutOk, PageOf, EntryWord;
    if n > 0 {
      var u := First(s) + (n - 1) * 4096;
      var ms := SectionPlan(l, First(s), n, flags);
      assert Init(ms) == SectionPlan(l, First(s), n - 1, flags);
      SectionFinal(l, s, n - 1, flags, v, before);
      ShiftedFits(l, s, u);
      PagesDiffer(v, u);
    }
  }

  lemma {:induction false} DirectFinal(hhdm: nat, n: nat, v: nat, before: nat)
    requires n <= FOUR_GIB / 4096 && CanonicalPage(v) && AllFit(DirectPlan(hhdm, n))
    requires hhdm % 4096 == 0 && UPPER_HALF <= hhdm && hhdm + FOUR_GIB <= WORD_SIZE
    ensures Final(DirectPlan(hhdm, n), PageOf(v), before) == Direct(hhdm, n, v, before)
  {
    hide EntryFlags, PageOf, Final, Fit, Direct, DirectWord;
    DirectNone(hhdm, v, before);
    if n > 0 {
      DirectStep(hhdm, n, v, before);
      DirectFits(hhdm, n - 1);
      DirectFinal(hhdm, n - 1, v, before);
      DirectPair(DirectPlan(hhdm, n - 1), hhdm, (n - 1) * 4096, v, before);
    }
  }

  lemma DirectPair(ms: seq<Mapping>, hhdm: nat, a: nat, v: nat, before: nat)
    requires AllFit(ms) && CanonicalPage(v) && a % 4096 == 0 && a < FOUR_GIB
    requires hhdm % 4096 == 0 && UPPER_HALF <= hhdm && hhdm + FOUR_GIB <= WORD_SIZE
    ensures var next := ms + [Mapping(a, a, ReadWrite())] + [Mapping(hhdm + a, a, ReadWrite())];
            AllFit(next) && Final(next, PageOf(v), before) ==
            if v == a || v == hhdm + a then DirectWord(a) else Final(ms, PageOf(v), before)
  {
    DirectPages(hhdm, a);
    hide EntryFlags, PageOf, EntryWord, ReadWrite, Final, Fit, CanonicalPage, PageAddress, AddressOf, Present,
      RightsOf;
    var low, high := Mapping(a, a, ReadWrite()), Mapping(hhdm + a, a, ReadWrite());
    DirectFit(a);
    FinalNext(ms, low, PageOf(v), before);
    FinalNext(ms + [low], high, PageOf(v), before);
    PagesDiffer(v, a);
    PagesDiffer(v, hhdm + a);
  }

  lemma DirectPages(hhdm: nat, a: nat)
    requires a % 4096 == 0 && a < FOUR_GIB
    requires hhdm % 4096 == 0 && UPPER_HALF <= hhdm && hhdm + FOUR_GIB <= WORD_SIZE
    ensures CanonicalPage(a) && CanonicalPage(hhdm + a) && a < hhdm
  {
  }

  lemma DirectNone(hhdm: nat, v: nat, before: nat)
    requires v % 4096 == 0 && hhdm % 4096 == 0
    ensures Direct(hhdm, 0, v, before) == before == Final([], PageOf(v), before)
  {
  }

  lemma DirectStep(hhdm: nat, n: nat, v: nat, before: nat)
    requires 0 < n <= FOUR_GIB / 4096 && v % 4096 == 0 && hhdm % 4096 == 0 && UPPER_HALF <= hhdm
    ensures Direct(hhdm, n, v, before) ==
            if v == (n - 1) * 4096 || v == hhdm + (n - 1) * 4096 then DirectWord((n - 1) * 4096)
            else Direct(hhdm, n - 1, v, before)
  {
    hide EntryWord, EntryFlags, ReadWrite, DirectWord;
  }

  lemma DirectFit(a: nat)
    requires a % 4096 == 0 && a < FOUR_GIB
    ensures forall v :: Fit(Mapping(v, a, ReadWrite()))
  {
    hide EntryFlags, ReadWrite;
  }

  /** The address space after all the mappings. */
  ghost function Built(l: Layout, root: nat): Spaces
    requires LayoutOk(l)
  {
    PlanFits(l);
    MapAll(EmptySpace(root), root, Plan(l))
  }

  /** vmm_init leaves every page of the address space exactly as intended, and no page mapped that
      is not in one of its windows. */
  lemma InitExact(l: Layout, root: nat, v: nat)
    requires LayoutOk(l) && CanonicalPage(v)
    ensures View(Built(l, root), root, PageOf(v)) == Intended(l, v)
  {
    PlanFits(l);
    EmptyOk(root);
    hide EntryFlags, PageOf, EntryWord, DirectPlan, SectionPlan, ReadWrite, ReadExecute, ReadOnly, ReadWriteData, Fit,
      Ok, Final, Section, Direct, SpanPlan, MapAll;
    MapAllView(EmptySpace(root), root, root, Plan(l), PageOf(v));
    var q := PageOf(v);
    var a, b := SpanPlan(l, l.reqs, ReadWrite()), SpanPlan(l, l.text, ReadExecute());
    var c, d := SpanPlan(l, l.rodata, ReadOnly()), SpanPlan(l, l.data, ReadWriteData());
    FinalConcat(a, b, q, 0);
    FinalConcat(a + b, c, q, 0);
    FinalConcat(a + b + c, d, q, 0);
    FinalConcat(a + b + c + d, DirectPlan(l.hhdm, FOUR_GIB / 4096), q, 0);
    SpanFinal(l, l.reqs, ReadWrite(), v, 0);
    SpanFinal(l, l.text, ReadExecute(), v, Final(a, q, 0));
    SpanFinal(l, l.rodata, ReadOnly(), v, Final(a + b, q, 0));
    SpanFinal(l, l.data, ReadWriteData(), v, Final(a + b + c, q, 0));
    DirectFinal(l.hhdm, FOUR_GIB / 4096, v, Final(a + b + c + d, q, 0));
  }

  lemma SpanFinal(l: Layout, s: Span, flags: u64, v: nat, before: nat)
    requires LayoutOk(l) && SpanOk(l, s) && EntryFlags(flags) && CanonicalPage(v) && AllFit(SpanPlan(l, s, flags))
    ensures Final(SpanPlan(l, s, flags), PageOf(v), before) == Section(l, s, flags, v, before)
  {
    SectionFinal(l, s, Pages(s), flags, v, before);
  }

  /** Two windows of the address space, given by first address and size, do not meet. */
  predicate Apart(a: nat, m: nat, b: nat, n: nat) {
    a + m <= b || b + n <= a
  }

  predicate WindowsApart(l: Layout) {
    && SpanApart(l.reqs, l.text) && SpanApart(l.reqs, l.rodata) && SpanApart(l.reqs, l.data)
    && SpanApart(l.text, l.rodata) && SpanApart(l.text, l.data) && SpanApart(l.rodata, l.data)
    && SpanBeyond(l, l.reqs) && SpanBeyond(l, l.text) && SpanBeyond(l, l.rodata) && SpanBeyond(l, l.data)
  }

  predicate SpanApart(s: Span, t: Span) {
    Apart(First(s), Pages(s) * 4096, First(t), Pages(t) * 4096)
  }

  predicate SpanBeyond(l: Layout, s: Span) {
    Apart(First(s), Pages(s) * 4096, l.hhdm, FOUR_GIB)
  }

  /** With disjoint windows the first 4 GiB map to themselves, the direct map to the same frames, each
      section to its place in the kernel image, and nothing else is mapped. */
  lemma InitTranslates(l: Layout, root: nat, v: nat)
    requires LayoutOk(l) && WindowsApart(l) && CanonicalPage(v)
    ensures var w := View(Built(l, root), root, PageOf(v));
            && (v < FOUR_GIB ==> AddressOf(w) == v && Present(w))
            && (l.hhdm <= v < l.hhdm + FOUR_GIB ==> AddressOf(w) == v - l.hhdm && Present(w))
            && (InSection(l, v) ==> AddressOf(w) + l.virtBase == v + l.physBase && Present(w))
            && (InSpan(l.reqs, v) ==> RightsOf(w) == RightsOf(ReadWrite()))
            && (InSpan(l.text, v) ==> RightsOf(w) == RightsOf(ReadExecute()))
            && (InSpan(l.rodata, v) ==> RightsOf(w) == RightsOf(ReadOnly()))
            && (InSpan(l.data, v) ==> RightsOf(w) == RightsOf(ReadWriteData()))
            && (FOUR_GIB <= v && !(l.hhdm <= v < l.hhdm + FOUR_GIB) && !InSection(l, v) ==> w == 0)
  {
    InitExact(l, root, v);
    hide EntryFlags, PageOf, ReadWrite, ReadExecute, ReadOnly, ReadWriteData, RightsOf, AddressOf, Present, Fit,
      Built, View, Plan, SpanOk, LayoutOk, Shifted, PageAddress, InSpan, WindowsApart, CanonicalPage;
    assert v % 4096 == 0 by { Aligned(v); }
    SectionMeans(l, v);
    OneWindow(l, v);
  }

  lemma Aligned(v: nat)
    requires CanonicalPage(v)
    ensures v % 4096 == 0
  {
  }

  /** A page is in one window at most. */
  lemma OneWindow(l: Layout, v: nat)
    requires WindowsApart(l)
    ensures InSpan(l.reqs, v) ==> !InSpan(l.text, v) && !InSpan(l.rodata, v) && !InSpan(l.data, v)
    ensures InSpan(l.text, v) ==> !InSpan(l.rodata, v) && !InSpan(l.data, v)
    ensures InSpan(l.rodata, v) ==> !InSpan(l.data, v)
    ensures InSection(l, v) ==> !(l.hhdm <= v < l.hhdm + FOUR_GIB)
  {
    hide First, Pages;
  }

  predicate InSection(l: Layout, v: nat) {
    InSpan(l.reqs, v) || InSpan(l.text, v) || InSpan(l.rodata, v) || InSpan(l.data, v)
  }

  lemma SectionMeans(l: Layout, v: nat)
    requires LayoutOk(l) && v % 4096 == 0
    ensures InSection(l, v) ==> Shifted(l, v) + l.virtBase == v + l.physBase && v >= UPPER_HALF
    ensures SpanOk(l, l.reqs) && SpanOk(l, l.text) && SpanOk(l, l.rodata) && SpanOk(l, l.data)
  {
    hide InSpan, SpanOk;
    if InSpan(l.reqs, v) { ShiftedFits(l, l.reqs, v); }
    if InSpan(l.text, v) { ShiftedFits(l, l.text, v); }
    if InSpan(l.rodata, v) { ShiftedFits(l, l.rodata, v); }
    if InSpan(l.data, v) { ShiftedFits(l, l.data, v); }
  }

  /** The pages of a section are exactly those with an address between its two ends. */
  lemma SpanExactly(s: Span, v: nat)
    requires v % 4096 == 0
    ensures InSpan(s, v) <==> s.start < v + 4096 && v < s.end
  {
  }

  lemma FlagNumbers()
    ensures ReadWrite() == 3 && ReadExecute() == 1
    ensures ReadOnly() == 0x8000_0000_0000_0001 && ReadWriteData() == 0x8000_0000_0000_0003
  {
    hide EntryFlags;
    AndStep(1, 2);
    AndStep(1, NX_BIT);
    AndStep(3, NX_BIT);
    AndStep(1, NX_BIT / 2);
    OrIsSum(1, 2);
    OrIsSum(1, NX_BIT);
    OrIsSum(3, NX_BIT);
  }

  /** The kernel space in plain numbers, for disjoint windows: the first 4 GiB map to themselves and are seen
      again at the direct map, present and writable; each page between a section's ends maps to its place
      in the image with that section's bits; every other page has no word. */
  lemma InitNumbers(l: Layout, root: nat, v: nat)
    requires LayoutOk(l) && WindowsApart(l) && CanonicalPage(v)
    ensures var w := View(Built(l, root), root, PageOf(v));
            var image := v - l.virtBase + l.physBase;
            && (v < 0x1_0000_0000 ==> w == v + 3)
            && (l.hhdm <= v < l.hhdm + 0x1_0000_0000 ==> w == v - l.hhdm + 3)
            && (l.reqs.start < v + 4096 && v < l.reqs.end ==> w == image + 3)
            && (l.text.start < v + 4096 && v < l.text.end ==> w == image + 1)
            && (l.rodata.start < v + 4096 && v < l.rodata.end ==> w == image + 0x8000_0000_0000_0001)
            && (l.data.start < v + 4096 && v < l.data.end ==> w == image + 0x8000_0000_0000_0003)
            && (w != 0 ==> v < 0x1_0000_0000 || l.hhdm <= v < l.hhdm + 0x1_0000_0000
                           || (l.reqs.start < v + 4096 && v < l.reqs.end) || (l.text.start < v + 4096 && v < l.text.end)
                           || (l.rodata.start < v + 4096 && v < l.rodata.end)
                           || (l.data.start < v + 4096 && v < l.data.end))
  {
    Aligned(v);
    InitExact(l, root, v);
    SpanExactly(l.reqs, v);
    SpanExactly(l.text, v);
    SpanExactly(l.rodata, v);
    SpanExactly(l.data, v);
    SectionMeans(l, v);
    OneWindow(l, v);
    FlagNumbers();
    hide EntryFlags, PageOf, ReadWrite, ReadExecute, ReadOnly, ReadWriteData, RightsOf, AddressOf, Present, View, Built,
      LayoutOk, SpanOk, WindowsApart, CanonicalPage, InSpan, PageAddress, Shifted, EntryWord, Section, Direct;
    DirectNumbers(l.hhdm, v);
    SectionNumbers(l, l.reqs, ReadWrite(), v);
    SectionNumbers(l, l.text, ReadExecute(), v);
    SectionNumbers(l, l.rodata, ReadOnly(), v);
    SectionNumbers(l, l.data, ReadWriteData(), v);
  }

  lemma SectionNumbers(l: Layout, s: Span, flags: u64, v: nat)
    requires LayoutOk(l) && SpanOk(l, s) && EntryFlags(flags) && v % 4096 == 0
    ensures forall before: nat ::
              Section(l, s, flags, v, before) == if InSpan(s, v) then Shifted(l, v) + flags else before
  {
    hide EntryFlags, EntryWord, Shifted, PageAddress, LayoutOk, SpanOk, InSpan;
    if InSpan(s, v) {
      ShiftedFits(l, s, v);
      EntryIsSum(Shifted(l, v), flags);
    }
  }

  lemma DirectNumbers(hhdm: nat, v: nat)
    requires v % 4096 == 0 && hhdm % 4096 == 0
    ensures forall before: nat ::
              Direct(hhdm, FOUR_GIB / 4096, v, before) ==
              if v < 0x1_0000_0000 then v + 3 else if hhdm <= v < hhdm + 0x1_0000_0000 then v - hhdm + 3 else before
  {
    FlagNumbers();
    hide EntryFlags, EntryWord, ReadWrite;
    if v < FOUR_GIB { EntryIsSum(v, ReadWrite()); }
    if hhdm <= v < hhdm + FOUR_GIB { EntryIsSum(v - hhdm, ReadWrite()); }
  }

  // ---------- the loops ----------

  lemma ConsecutivePages(v: nat, n: nat)
    requires CanonicalPage(v) && UPPER_HALF <= v && v + n * 4096 < WORD_SIZE
    ensures PageOf(v + n * 4096) == PageOf(v) + n
  {
    CanonicalNumber(v);
    CanonicalNumber(v + n * 4096);
  }

  /** One turn of a section's loop can afford the tables it needs. */
  lemma SectionAffords(sp: Spaces, kernel: nat, l: Layout, s: Span, n: nat)
    requires LayoutOk(l) && SpanOk(l, s) && n < Pages(s)
    requires n > 0 ==> Missing(sp, kernel, PageOf(First(s)) + n - 1) == 0
    ensures PageAddress(Shifted(l, First(s) + n * 4096))
    ensures var p := PageOf(First(s));
            PageOf(First(s) + n * 4096) == p + n
            && ZonesTouched(p, n) + Missing(sp, kernel, p + n) <= ZonesTouched(p, n + 1)
  {
    hide LayoutOk, PageOf, Shifted, SpanOk, Missing, PageAddress, Fresh;
    var at, p := First(s) + n * 4096, PageOf(First(s));
    ShiftedFits(l, s, First(s));
    ShiftedFits(l, s, at);
    ConsecutivePages(First(s), n);
    if n > 0 { NeighbourIsCheap(sp, kernel, p + n); }
    AtMostThree(sp, kernel, p + n);
  }

  /** Carrying out a mapping extends the plan done so far. */
  lemma PlanStep(sp: Spaces, kernel: nat, plan: seq<Mapping>, m: Mapping, other: nat)
    requires Ok(sp, kernel) && AllFit(plan) && Fit(m) && kernel in sp.slots
    requires sp == MapAll(EmptySpace(kernel), kernel, plan)
    ensures AllFit(plan + [m])
    ensures var sp' := MapPage(sp, kernel, PageOf(m.virt), EntryWord(m.phys, m.flags));
            && sp' == MapAll(EmptySpace(kernel), kernel, plan + [m]) && Missing(sp', kernel, PageOf(m.virt)) == 0
            && Missing(sp', kernel, other) <= Missing(sp, kernel, other)
  {
    hide Ok, PageOf, EntryFlags, Missing, PageAddress, MapPage, EntryWord, MapAll;
    MapAllNext(EmptySpace(kernel), kernel, plan, m);
    MapOpens(sp, kernel, kernel, PageOf(m.virt), Word(m), other);
  }

  lemma NothingYet(l: Layout, lo: nat, flags: u64, done: seq<Mapping>, p: nat)
    ensures done + SectionPlan(l, lo, 0, flags) == done && ZonesTouched(p, 0) == 0
  {
  }

  lemma AtMostThree(sp: Spaces, root: nat, page: nat)
    ensures Missing(sp, root, page) <= 3
  {
  }

  /** vmm_map on the kernel pagemap, as one more step of the plan. */
  method MapPlanned(vm: PageMapper, virt: nat, phys: nat, flags: u64, ghost plan: seq<Mapping>, ghost other: nat)
    requires vm.Valid() && AllFit(plan) && vm.spaces == MapAll(EmptySpace(vm.kernel), vm.kernel, plan)
    requires PageAddress(phys) && EntryFlags(flags)
    requires vm.pmm.idx >= Missing(vm.spaces, vm.kernel, PageOf(virt))
    modifies vm`tables, vm`spaces, vm.pmm`idx, vm.pmm`mem, vm.pmm`held
    ensures vm.Valid() && AllFit(plan + [Mapping(virt, phys, flags)])
    ensures vm.spaces == MapAll(EmptySpace(vm.kernel), vm.kernel, plan + [Mapping(virt, phys, flags)])
    ensures Missing(vm.spaces, vm.kernel, PageOf(virt)) == 0
    ensures Missing(vm.spaces, vm.kernel, other) <= old(Missing(vm.spaces, vm.kernel, other))
    ensures vm.pmm.idx == old(vm.pmm.idx - Missing(vm.spaces, vm.kernel, PageOf(virt)))
    ensures vm.ClientFrames() == old(vm.ClientFrames())
  {
    hide PageMapper.Valid, Ok, PageOf, EntryFlags, EntryWord, MapPage, Missing, PageAddress, Agree, MapAll;
    ValidSpaces(vm);
    PlanStep(vm.spaces, vm.kernel, plan, Mapping(virt, phys, flags), other);
    vm.Map(vm.kernel, virt, phys, flags);
  }

  method MapSection(vm: PageMapper, l: Layout, s: Span, flags: u64, ghost done: seq<Mapping>)
    requires vm.Valid() && LayoutOk(l) && SpanOk(l, s) && EntryFlags(flags) && AllFit(done)
    requires vm.spaces == MapAll(EmptySpace(vm.kernel), vm.kernel, done)
    requires vm.pmm.idx >= ZonesTouched(PageOf(First(s)), Pages(s))
    modifies vm`tables, vm`spaces, vm.pmm`idx, vm.pmm`mem, vm.pmm`held
    ensures vm.Valid() && AllFit(done + SpanPlan(l, s, flags))
    ensures vm.spaces == MapAll(EmptySpace(vm.kernel), vm.kernel, done + SpanPlan(l, s, flags))
    ensures vm.pmm.idx >= old(vm.pmm.idx) - ZonesTouched(PageOf(First(s)), Pages(s))
    ensures vm.ClientFrames() == old(vm.ClientFrames())
  {
    hide PageMapper.Valid, Ok, PageOf, EntryFlags, EntryWord, Shifted, LayoutOk, SpanOk, MapPage, Missing,
      PageAddress, Agree, MapAll, ZonesTouched;
    var at, end := First(s), AlignUp(s.end, 4096);
    ghost var n, p := 0, PageOf(First(s));
    NothingYet(l, First(s), flags, done, p);
    while at < end
      invariant at == First(s) + n * 4096 && n <= Pages(s)
      invariant vm.Valid() && AllFit(done + SectionPlan(l, First(s), n, flags))
      invariant vm.spaces == MapAll(EmptySpace(vm.kernel), vm.kernel, done + SectionPlan(l, First(s), n, flags))
      invariant n > 0 ==> Missing(vm.spaces, vm.kernel, p + n - 1) == 0
      invariant vm.pmm.idx >= old(vm.pmm.idx) - ZonesTouched(p, n)
      invariant vm.ClientFrames() == old(vm.ClientFrames())
    {
      SectionAffords(vm.spaces, vm.kernel, l, s, n);
      TouchedGrows(p, n + 1, Pages(s));
      ghost var plan, m := done + SectionPlan(l, First(s), n, flags), Mapping(at, Shifted(l, at), flags);
      assert plan + [m] == done + SectionPlan(l, First(s), n + 1, flags);
      MapPlanned(vm, at, Shifted(l, at), flags, plan, 0);
      at, n := at + 4096, n + 1;
    }
  }

  /** One turn of the last loop can afford its tables in both windows. */
  lemma DirectAffords(sp: Spaces, kernel: nat, p: nat, n: nat)
    requires n > 0 ==> Missing(sp, kernel, p + n - 1) == 0
    ensures ZonesTouched(p, n) + Missing(sp, kernel, p + n) <= ZonesTouched(p, n + 1)
  {
    hide Missing, Fresh;
    if n > 0 { NeighbourIsCheap(sp, kernel, p + n); }
    AtMostThree(sp, kernel, p + n);
  }

  lemma LowPages(n: nat)
    requires n < FOUR_GIB / 4096
    ensures PageOf(n * 4096) == n && PageAddress(n * 4096) && n * 4096 < FOUR_GIB
  {
  }

  method MapDirect(vm: PageMapper, hhdm: nat, ghost done: seq<Mapping>)
    requires vm.Valid() && AllFit(done)
    requires hhdm % 4096 == 0 && UPPER_HALF <= hhdm && hhdm + FOUR_GIB <= WORD_SIZE
    requires vm.spaces == MapAll(EmptySpace(vm.kernel), vm.kernel, done)
    requires vm.pmm.idx >= ZonesTouched(0, FOUR_GIB / 4096) + ZonesTouched(PageOf(hhdm), FOUR_GIB / 4096)
    modifies vm`tables, vm`spaces, vm.pmm`idx, vm.pmm`mem, vm.pmm`held
    ensures vm.Valid() && AllFit(done + DirectPlan(hhdm, FOUR_GIB / 4096))
    ensures vm.spaces == MapAll(EmptySpace(vm.kernel), vm.kernel, done + DirectPlan(hhdm, FOUR_GIB / 4096))
    ensures vm.ClientFrames() == old(vm.ClientFrames())
  {
    hide PageMapper.Valid, Ok, PageOf, EntryFlags, EntryWord, MapPage, Missing, PageAddress, Agree, MapAll,
      ZonesTouched, ReadWrite;
    var gb4 := 0;
    ghost var n, p := 0, PageOf(hhdm);
    assert done + DirectPlan(hhdm, 0) == done;
    Untouched(p);
    while gb4 < FOUR_GIB
      invariant gb4 == n * 4096 && n <= FOUR_GIB / 4096
      invariant vm.Valid() && AllFit(done + DirectPlan(hhdm, n))
      invariant vm.spaces == MapAll(EmptySpace(vm.kernel), vm.kernel, done + DirectPlan(hhdm, n))
      invariant n > 0 ==> Missing(vm.spaces, vm.kernel, n - 1) == 0 && Missing(vm.spaces, vm.kernel, p + n - 1) == 0
      invariant vm.pmm.idx >= old(vm.pmm.idx) - ZonesTouched(0, n) - ZonesTouched(p, n)
      invariant vm.ClientFrames() == old(vm.ClientFrames())
    {
      TouchedGrows(0, n + 1, FOUR_GIB / 4096);
      TouchedGrows(p, n + 1, FOUR_GIB / 4096);
      DirectTurn(vm, hhdm, gb4, done + DirectPlan(hhdm, n), n);
      assert done + DirectPlan(hhdm, n) + DirectMappings(hhdm, gb4) == done + DirectPlan(hhdm, n + 1);
      gb4, n := gb4 + 4096, n + 1;
    }
  }

  function DirectMappings(hhdm: nat, a: nat): seq<Mapping> {
    [Mapping(a, a, ReadWrite()), Mapping(hhdm + a, a, ReadWrite())]
  }

  /** The body of the last loop. */
  method DirectTurn(vm: PageMapper, hhdm: nat, gb4: nat, ghost plan: seq<Mapping>, ghost n: nat)
    requires vm.Valid() && AllFit(plan) && vm.spaces == MapAll(EmptySpace(vm.kernel), vm.kernel, plan)
    requires hhdm % 4096 == 0 && UPPER_HALF <= hhdm && hhdm + FOUR_GIB <= WORD_SIZE
    requires gb4 == n * 4096 && n < FOUR_GIB / 4096
    requires n > 0 ==>
               Missing(vm.spaces, vm.kernel, n - 1) == 0 && Missing(vm.spaces, vm.kernel, PageOf(hhdm) + n - 1) == 0
    requires vm.pmm.idx + ZonesTouched(0, n) + ZonesTouched(PageOf(hhdm), n)
             >= ZonesTouched(0, n + 1) + ZonesTouched(PageOf(hhdm), n + 1)
    modifies vm`tables, vm`spaces, vm.pmm`idx, vm.pmm`mem, vm.pmm`held
    ensures vm.Valid() && AllFit(plan + DirectMappings(hhdm, gb4))
    ensures vm.spaces == MapAll(EmptySpace(vm.kernel), vm.kernel, plan + DirectMappings(hhdm, gb4))
    ensures Missing(vm.spaces, vm.kernel, n) == 0 && Missing(vm.spaces, vm.kernel, PageOf(hhdm) + n) == 0
    ensures vm.pmm.idx + ZonesTouched(0, n + 1) + ZonesTouched(PageOf(hhdm), n + 1)
            >= old(vm.pmm.idx) + ZonesTouched(0, n) + ZonesTouched(PageOf(hhdm), n)
    ensures vm.ClientFrames() == old(vm.ClientFrames())
  {
    hide PageMapper.Valid, Ok, PageOf, EntryFlags, EntryWord, MapPage, Missing, PageAddress, Agree, MapAll,
      ZonesTouched, ReadWrite;
    ghost var p := PageOf(hhdm);
    ghost var low := Mapping(gb4, gb4, ReadWrite());
    LowPages(n);
    ConsecutivePages(hhdm, n);
    TouchedGrows(p, n, n + 1);
    DirectAffords(vm.spaces, vm.kernel, 0, n);
    MapPlanned(vm, gb4, gb4, ReadWrite(), plan, if n > 0 then p + n - 1 else 0);
    DirectAffords(vm.spaces, vm.kernel, p, n);
    MapPlanned(vm, hhdm + gb4, gb4, ReadWrite(), plan + [low], n);
    assert plan + [low] + [Mapping(hhdm + gb4, gb4, ReadWrite())] == plan + DirectMappings(hhdm, gb4);
  }

  lemma Untouched(p: nat)
    ensures ZonesTouched(0, 0) == 0 == ZonesTouched(p, 0)
  {
  }

  function SpanTables(s: Span): nat {
    ZonesTouched(PageOf(First(s)), Pages(s))
  }

  /** Frames that are certainly enough: the kernel's top table, and one for each zone touched. */
  function Budget(l: Layout): nat {
    1 + SpanTables(l.reqs) + SpanTables(l.text) + SpanTables(l.rodata) + SpanTables(l.data)
    + ZonesTouched(0, FOUR_GIB / 4096) + ZonesTouched(PageOf(l.hhdm), FOUR_GIB / 4096)
  }

  method Initialize(pmm: FrameAllocator, l: Layout) returns (vm: PageMapper)
    requires pmm.Valid() && LayoutOk(l) && pmm.idx >= Budget(l)
    modifies pmm`idx, pmm`mem, pmm`held
    ensures fresh(vm) && vm.pmm == pmm && vm.Valid() && vm.ClientFrames() == old(pmm.held)
    ensures forall v :: CanonicalPage(v) ==> View(vm.spaces, vm.kernel, PageOf(v)) == Intended(l, v)
    ensures vm.spaces == Built(l, vm.kernel)
  {
    hide PageMapper.Valid, Ok, PageOf, EntryFlags, MapAll, ZonesTouched, Pages, First, ReadWrite, ReadOnly,
      ReadExecute, ReadWriteData, SpanPlan, DirectPlan, FrameAllocator.Valid, View, Intended, SpanOk;
    vm := new PageMapper(pmm);
    ghost var k := vm.kernel;
    StartPlan(k);
    PlanFits(l);
    ghost var a, b := SpanPlan(l, l.reqs, ReadWrite()), SpanPlan(l, l.text, ReadExecute());
    ghost var c, d := SpanPlan(l, l.rodata, ReadOnly()), SpanPlan(l, l.data, ReadWriteData());
    MapSection(vm, l, l.reqs, ReadWrite(), []);
    assert [] + a == a;
    MapSection(vm, l, l.text, ReadExecute(), a);
    MapSection(vm, l, l.rodata, ReadOnly(), a + b);
    MapSection(vm, l, l.data, ReadWriteData(), a + b + c);
    MapDirect(vm, l.hhdm, a + b + c + d);
    forall v | CanonicalPage(v)
      ensures View(vm.spaces, vm.kernel, PageOf(v)) == Intended(l, v)
    {
      InitExact(l, vm.kernel, v);
    }
  }

  lemma StartPlan(k: nat)
    ensures AllFit([]) && MapAll(EmptySpace(k), k, []) == EmptySpace(k)
  {
  }

  // ---------- rights ----------

  lemma {:induction false} FirstConcat(a: seq<Mapping>, b: seq<Mapping>, level: nat, zone: nat)
    requires AllFit(a) && AllFit(b)
    ensures AllFit(a + b)
    ensures FirstIn(a + b, level, zone) ==
            if FirstIn(a, level, zone).Some? then FirstIn(a, level, zone) else FirstIn(b, level, zone)
  {
    hide PageOf, RightsOf, Zone, Fit;
    if b == [] {
      assert a + b == a;
    } else {
      FirstConcat(a, Init(b), level, zone);
      assert Init(a + b) == a + Init(b);
    }
  }

  lemma FlagRights()
    ensures RightsOf(ReadWrite()) == Rights(true, false, false)
            && RightsOf(ReadExecute()) == Rights(false, false, false)
    ensures RightsOf(ReadOnly()) == Rights(false, false, true) && RightsOf(ReadWriteData()) == Rights(true, false, true)
  {
    UnitRights();
    hide RightsOf, ReadWrite, ReadExecute, ReadOnly, ReadWriteData, EntryFlags;
    UnionRights(VMM_PRESENT, VMM_WRITABLE);
    UnionRights(VMM_PRESENT, NX_BIT);
    UnionRights(Or(VMM_PRESENT, VMM_WRITABLE), NX_BIT);
    FlagWords();
  }

  lemma FlagWords()
    ensures ReadWrite() == Or(VMM_PRESENT, VMM_WRITABLE) && ReadExecute() == VMM_PRESENT
            && ReadOnly() == Or(VMM_PRESENT, NX_BIT)
    ensures ReadWriteData() == Or(Or(VMM_PRESENT, VMM_WRITABLE), NX_BIT)
  {
    hide EntryFlags;
  }

  function PageAt(lo: nat, i: nat): nat {
    PageOf(lo + i * 4096)
  }

  /** One of the n pages from lo on lies in the zone. */
  ghost predicate Meets(lo: nat, n: nat, level: nat, zone: nat) {
    exists i :: 0 <= i < n && Zone(level, PageAt(lo, i)) == zone
  }

  /** The section has a page in the zone. */
  ghost predicate Touches(s: Span, level: nat, zone: nat) {
    Meets(First(s), Pages(s), level, zone)
  }

  lemma {:induction false} SectionFirst(l: Layout, lo: nat, n: nat, flags: u64, level: nat, zone: nat)
    requires AllFit(SectionPlan(l, lo, n, flags))
    ensures FirstIn(SectionPlan(l, lo, n, flags), level, zone) ==
            if Meets(lo, n, level, zone) then Some(RightsOf(flags)) else None
  {
    hide PageOf, RightsOf, Zone, Fit, Shifted;
    if n > 0 {
      assert Init(SectionPlan(l, lo, n, flags)) == SectionPlan(l, lo, n - 1, flags);
      SectionFirst(l, lo, n - 1, flags, level, zone);
      assert Zone(level, PageAt(lo, n - 1)) == zone ==> Meets(lo, n, level, zone);
      assert Meets(lo, n, level, zone) && Zone(level, PageAt(lo, n - 1)) != zone ==> Meets(lo, n - 1, level, zone);
    }
  }

  lemma SectionTouches(s: Span, v: nat, level: nat)
    requires v % 4096 == 0 && InSpan(s, v)
    ensures Touches(s, level, Zone(level, PageOf(v)))
  {
    hide PageOf, Zone;
    var i := (v - First(s)) / 4096;
    assert PageAt(First(s), i) == PageOf(v);
  }

  /** The flags of the first mapping made in a zone: the sections come in this order, the direct map last. */
  ghost function FirstFlags(l: Layout, level: nat, zone: nat): u64 {
    if Touches(l.reqs, level, zone) then ReadWrite()
    else if Touches(l.text, level, zone) then ReadExecute()
    else if Touches(l.rodata, level, zone) then ReadOnly()
    else if Touches(l.data, level, zone) then ReadWriteData()
    else ReadWrite()
  }

  lemma {:induction false} DirectFirst(hhdm: nat, n: nat, level: nat, zone: nat)
    requires AllFit(DirectPlan(hhdm, n))
    ensures FirstIn(DirectPlan(hhdm, n), level, zone).Some? ==>
              FirstIn(DirectPlan(hhdm, n), level, zone).value == RightsOf(ReadWrite())
  {
    hide PageOf, RightsOf, Zone, Fit, ReadWrite;
    if n > 0 {
      var ms := DirectPlan(hhdm, n);
      assert Init(Init(ms)) == DirectPlan(hhdm, n - 1);
      assert Last(Init(ms)).flags == ReadWrite() && Last(ms).flags == ReadWrite();
      DirectFirst(hhdm, n - 1, level, zone);
    }
  }

  /** The rights recorded in the table of a zone. */
  lemma ZoneFirst(l: Layout, level: nat, zone: nat)
    requires LayoutOk(l) && AllFit(Plan(l))
    ensures FirstIn(Plan(l), level, zone).Some? ==>
              FirstIn(Plan(l), level, zone).value == RightsOf(FirstFlags(l, level, zone))
  {
    PlanFits(l);
    hide PageOf, RightsOf, Zone, Fit, LayoutOk, DirectPlan, SectionPlan, ReadWrite, ReadExecute, ReadOnly,
      ReadWriteData, FirstIn, Meets, EntryFlags;
    var a, b := SpanPlan(l, l.reqs, ReadWrite()), SpanPlan(l, l.text, ReadExecute());
    var c, d := SpanPlan(l, l.rodata, ReadOnly()), SpanPlan(l, l.data, ReadWriteData());
    var e := DirectPlan(l.hhdm, FOUR_GIB / 4096);
    FirstConcat(a, b, level, zone);
    FirstConcat(a + b, c, level, zone);
    FirstConcat(a + b + c, d, level, zone);
    FirstConcat(a + b + c + d, e, level, zone);
    SectionFirst(l, First(l.reqs), Pages(l.reqs), ReadWrite(), level, zone);
    SectionFirst(l, First(l.text), Pages(l.text), ReadExecute(), level, zone);
    SectionFirst(l, First(l.rodata), Pages(l.rodata), ReadOnly(), level, zone);
    SectionFirst(l, First(l.data), Pages(l.data), ReadWriteData(), level, zone);
    DirectFirst(l.hhdm, FOUR_GIB / 4096, level, zone);
  }

  /** What the table of a page's zone imposes. */
  ghost function Imposes(l: Layout, level: nat, v: nat): Rights {
    RightsOf(FirstFlags(l, level, Zone(level, PageOf(v))))
  }

  /** The rights of every page vmm_init maps, over all four levels: its own, cut down by those of the first
      mapping in each of its three zones. */
  lemma PageRights(l: Layout, root: nat, v: nat)
    requires LayoutOk(l) && CanonicalPage(v)
    ensures Effective(Built(l, root), root, PageOf(v)) ==
            (Aligned(v);
             if Intended(l, v) == 0 then None
             else Some(Meet(Meet(Imposes(l, 3, v), Imposes(l, 2, v)),
                 Meet(Imposes(l, 1, v), RightsOf(Intended(l, v))))))
  {
    Aligned(v);
    PlanFits(l);
    InitExact(l, root, v);
    EmptyOk(root);
    var q := PageOf(v);
    assert View(EmptySpace(root), root, q) == 0 && !HasWindow(EmptySpace(root), root, SlotOf(q));
    hide PageOf, RightsOf, Fit, LayoutOk, Plan, FirstFlags, FirstIn, Ok, MapAll, View, Effective, Final, EmptySpace,
      Zone, Intended, Meet;
    MapAllView(EmptySpace(root), root, root, Plan(l), q);
    MapAllRights(EmptySpace(root), root, root, Plan(l), q);
    ZoneFirst(l, 1, Zone(1, q));
    ZoneFirst(l, 2, Zone(2, q));
    ZoneFirst(l, 3, Zone(3, q));
    if Intended(l, v) != 0 {
      MappedHasFirst(Plan(l), 1, q);
      MappedHasFirst(Plan(l), 2, q);
      MappedHasFirst(Plan(l), 3, q);
    }
  }

  /** The first mapping in the zone is writable: the boot requests reach it, or neither code nor read-only
      data does. */
  ghost predicate OpenedWritable(l: Layout, level: nat, v: nat) {
    var z := Zone(level, PageOf(v));
    Touches(l.reqs, level, z) || (!Touches(l.text, level, z) && !Touches(l.rodata, level, z))
  }

  ghost predicate WritableAbove(l: Layout, v: nat) {
    OpenedWritable(l, 1, v) && OpenedWritable(l, 2, v) && OpenedWritable(l, 3, v)
  }

  lemma ImposesIs(l: Layout, level: nat, v: nat)
    ensures Imposes(l, level, v).writable <==> OpenedWritable(l, level, v)
    ensures var z := Zone(level, PageOf(v));
            && (Touches(l.reqs, level, z) ==> Imposes(l, level, v) == Rights(true, false, false))
            && (Touches(l.text, level, z) ==> !Imposes(l, level, v).noExecute)
            && (!Touches(l.text, level, z) && !Touches(l.rodata, level, z) && !Touches(l.data, level, z) ==>
                  Imposes(l, level, v) == Rights(true, false, false))
  {
    hide Touches, RightsOf, ReadWrite, ReadExecute, ReadOnly, ReadWriteData, Zone, PageOf;
    FlagRights();
  }

  /** vmm_init does not always leave kernel data writable. A data page can be written if and only if in each
      of its three zones the first mapping made was a writable one: that of the boot requests, or not one
      of code or read-only data. */
  lemma DataWritable(l: Layout, root: nat, v: nat)
    requires LayoutOk(l) && WindowsApart(l) && CanonicalPage(v) && InSpan(l.data, v)
    ensures var e := Effective(Built(l, root), root, PageOf(v));
            e.Some? && e.value.noExecute && (e.value.writable <==> WritableAbove(l, v))
  {
    RightsWritten(l, root, v);
  }

  /** Code can always be executed and never written, read-only data never either, and the boot requests
      always have the rights asked for. */
  lemma SectionRights(l: Layout, root: nat, v: nat)
    requires LayoutOk(l) && WindowsApart(l) && CanonicalPage(v)
    ensures var e := Effective(Built(l, root), root, PageOf(v));
            && (InSpan(l.text, v) ==> e.Some? && !e.value.noExecute && !e.value.writable)
            && (InSpan(l.rodata, v) ==> e.Some? && e.value.noExecute && !e.value.writable)
            && (InSpan(l.reqs, v) ==> e == Some(Rights(true, false, false)))
  {
    RightsWritten(l, root, v);
    Aligned(v);
    hide LayoutOk, WindowsApart, Zone, PageOf, Touches, Effective, Built, Imposes, InSpan;
    if InSpan(l.text, v) {
      SectionTouches(l.text, v, 1);
      SectionTouches(l.text, v, 2);
      SectionTouches(l.text, v, 3);
    }
    if InSpan(l.reqs, v) {
      SectionTouches(l.reqs, v, 1);
      SectionTouches(l.reqs, v, 2);
      SectionTouches(l.reqs, v, 3);
    }
    ImposesIs(l, 1, v);
    ImposesIs(l, 2, v);
    ImposesIs(l, 3, v);
  }

  /** The first 4 GiB are always writable at their own addresses; a page of the direct map is writable if
      and only if its zones were opened writable. */
  lemma DirectRights(l: Layout, root: nat, v: nat)
    requires LayoutOk(l) && WindowsApart(l) && CanonicalPage(v)
    ensures var e := Effective(Built(l, root), root, PageOf(v));
            && (v < FOUR_GIB ==> e == Some(Rights(true, false, false)))
            && (l.hhdm <= v < l.hhdm + FOUR_GIB ==> e.Some? && (e.value.writable <==> WritableAbove(l, v)))
  {
    RightsWritten(l, root, v);
    hide WindowsApart, PageOf, Touches, Effective, Built, Imposes;
    ImposesIs(l, 1, v);
    ImposesIs(l, 2, v);
    ImposesIs(l, 3, v);
    if v < FOUR_GIB {
      LowZones(l, v, 1);
      LowZones(l, v, 2);
      LowZones(l, v, 3);
    }
  }

  /** Rights of a mapped page, with those of its own entry written out. */
  lemma RightsWritten(l: Layout, root: nat, v: nat)
    requires LayoutOk(l) && WindowsApart(l) && CanonicalPage(v)
    ensures var e := Effective(Built(l, root), root, PageOf(v));
            var above := Meet(Meet(Imposes(l, 3, v), Imposes(l, 2, v)), Imposes(l, 1, v));
            && (above.writable <==> WritableAbove(l, v))
            && (InSpan(l.data, v) ==> e == Some(Meet(above, Rights(true, false, true))))
            && (InSpan(l.text, v) ==> e == Some(Meet(above, Rights(false, false, false))))
            && (InSpan(l.rodata, v) ==> e == Some(Meet(above, Rights(false, false, true))))
            && (InSpan(l.reqs, v) ==> e == Some(Meet(above, Rights(true, false, false))))
            && (v < FOUR_GIB || l.hhdm <= v < l.hhdm + FOUR_GIB ==> e == Some(Meet(above, Rights(true, false, false))))
  {
    PageRights(l, root, v);
    InitTranslates(l, root, v);
    InitExact(l, root, v);
    DirectWords(l, v);
    assert !Present(0);
    hide LayoutOk, WindowsApart, Zone, PageOf, Touches, Effective, Built, Imposes, RightsOf, View, Intended,
      AddressOf, Present, ReadWrite, ReadExecute, ReadOnly, ReadWriteData, InSpan, OpenedWritable;
    FlagRights();
    ImposesIs(l, 1, v);
    ImposesIs(l, 2, v);
    ImposesIs(l, 3, v);
  }

  lemma DirectWords(l: Layout, v: nat)
    requires LayoutOk(l) && CanonicalPage(v)
    ensures v % 4096 == 0
    ensures v < FOUR_GIB || l.hhdm <= v < l.hhdm + FOUR_GIB ==> RightsOf(Intended(l, v)) == RightsOf(ReadWrite())
  {
    hide RightsOf, Section, ReadWrite, EntryFlags;
  }

  /** No section reaches a zone of low memory. */
  lemma LowZones(l: Layout, v: nat, level: nat)
    requires LayoutOk(l) && CanonicalPage(v) && v < FOUR_GIB && 1 <= level <= 3
    ensures var z := Zone(level, PageOf(v));
            && !Touches(l.reqs, level, z) && !Touches(l.text, level, z)
            && !Touches(l.rodata, level, z) && !Touches(l.data, level, z)
  {
    SpanHigh(l, l.reqs, v, level);
    SpanHigh(l, l.text, v, level);
    SpanHigh(l, l.rodata, v, level);
    SpanHigh(l, l.data, v, level);
  }

  lemma SpanHigh(l: Layout, s: Span, v: nat, level: nat)
    requires LayoutOk(l) && SpanOk(l, s) && CanonicalPage(v) && v < FOUR_GIB && 1 <= level <= 3
    ensures !Touches(s, level, Zone(level, PageOf(v)))
  {
    hide LayoutOk, SpanOk;
    forall i: nat | i < Pages(s) ensures Zone(level, PageAt(First(s), i)) != Zone(level, PageOf(v)) {
      SpanPageHigh(l, s, i, v, level);
    }
  }

  lemma SpanPageHigh(l: Layout, s: Span, i: nat, v: nat, level: nat)
    requires LayoutOk(l) && SpanOk(l, s) && CanonicalPage(v) && v < FOUR_GIB && 1 <= level <= 3 && i < Pages(s)
    ensures Zone(level, PageAt(First(s), i)) != Zone(level, PageOf(v))
  {
    hide LayoutOk, SpanOk, Zone;
    var u := First(s) + i * 4096;
    ShiftedFits(l, s, u);
    CanonicalNumber(u);
    CanonicalNumber(v);
    hide First, Pages, PageOf;
    ZonesApart(PageOf(v), PageOf(u));
  }

  lemma ZonesApart(p: nat, q: nat)
    requires p < 0x10_0000 && q >= 0x8_0000_0000
    ensures Zone(1, p) != Zone(1, q) && Zone(2, p) != Zone(2, q) && Zone(3, p) != Zone(3, q)
  {
    Zones(p);
    Zones(q);
  }

  /** An image as the linker script lays it out, each section on the next page boundary, whose code reaches
      into the 2 MiB zone of its data while the boot requests do not. */
  function LargeImage(): Layout {
    Layout(UPPER_HALF, 0xffff_ffff_8000_0000, 0x20_0000,
           Span(0xffff_ffff_8000_0000, 0xffff_ffff_8000_0010), Span(0xffff_ffff_8000_1000, 0xffff_ffff_8020_0ff0),
           Span(0xffff_ffff_8020_1000, 0xffff_ffff_8020_1100), Span(0xffff_ffff_8020_2000, 0xffff_ffff_8020_2200))
  }

  lemma ReadOnlyData(root: nat)
    ensures var l := LargeImage();
            && LayoutOk(l) && WindowsApart(l) && InSpan(l.data, 0xffff_ffff_8020_2000)
            && var e := Effective(Built(l, root), root, PageOf(0xffff_ffff_8020_2000));
               e.Some? && !e.value.writable
  {
    var l, v := LargeImage(), 0xffff_ffff_8020_2000;
    LargeImageOk();
    LargeTouches();
    hide LayoutOk, WindowsApart, Built, Effective, Touches, Zone, PageOf, InSpan, LargeImage;
    DataWritable(l, root, v);
  }

  lemma LargeTouches()
    ensures var l, z := LargeImage(), Zone(1, PageOf(0xffff_ffff_8020_2000));
            Touches(l.text, 1, z) && !Touches(l.reqs, 1, z)
  {
    hide Pages, First, PageAt, PageOf, Zone, LargeImage;
    LargePages();
    LargeZones();
    var l, v := LargeImage(), 0xffff_ffff_8020_2000;
    assert Zone(1, PageAt(First(l.text), 511)) == Zone(1, PageOf(v));
  }

  lemma LargePages()
    ensures var l := LargeImage();
            && Pages(l.reqs) == 1 && Pages(l.text) == 512
            && PageAt(First(l.reqs), 0) == 0xf_fff8_0000 && PageAt(First(l.text), 511) == 0xf_fff8_0200
            && PageOf(0xffff_ffff_8020_2000) == 0xf_fff8_0202
  {
  }

  lemma LargeZones()
    ensures Zone(1, 0xf_fff8_0200) == Zone(1, 0xf_fff8_0202) != Zone(1, 0xf_fff8_0000)
  {
    Zones(0xf_fff8_0000);
    Zones(0xf_fff8_0200);
    Zones(0xf_fff8_0202);
  }

  lemma LargeImageOk()
    ensures var l := LargeImage();
            && LayoutOk(l) && WindowsApart(l) && InSpan(l.data, 0xffff_ffff_8020_2000)
            && CanonicalPage(0xffff_ffff_8020_2000)
  {
  }
}
