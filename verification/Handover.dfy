/**
 What the address space looks like across paging_init and the two mappings of
 acpi_init, what paging_get_phyaddr answers, and when the unchecked obligations of
 the mapping operations matter.
 */
module Handover {
  import opened Words
  import opened Mmu
  import opened PagingSpec
  import opened PagingRuns
  import opened Paging
  import opened Boot

  // --- Before and after the CR3 switch ---

  /** Under the boot directory: identity below VMA, the same memory again from VMA up. */
  lemma BootTranslates(m: Memory, L: Layout, lin: Word)
    requires BootMap(m, L)
    ensures Walk(m, L.boot, lin) == Some(if lin < VMA then lin else lin - VMA)
  {
    BootWalk(m, L, lin / 0x1000);
    WalkByPage(m, L.boot, lin);
  }

  /** Every linear address right after paging_init. */
  lemma FinalTranslates(m: Memory, L: Layout, lin: Word)
    requires L.Ok() && L.ApicFree() && Refines(m, L, BootSpace(L))
    ensures Walk(m, L.dir, lin) ==
            if VMA <= lin < VMA + L.Windows() * 0x400000 then Some(lin - VMA)
            else if IOAPIC <= lin < IOAPIC + 0x1000 || LAPIC <= lin < LAPIC + 0x1000 then Some(lin)
            else None
  {
    RefinesWalk(m, L, BootSpace(L), lin);
    assert InWindow(lin / 0x1000 / 1024, L.Windows()) <==> VMA <= lin < VMA + L.Windows() * 0x400000;
  }

  /** Handover: the kernel's memory keeps its higher-half addresses across the switch. */
  lemma HandoverKeepsKernel(m: Memory, m': Memory, L: Layout, a: Word)
    requires L.Ok() && L.ApicFree() && BootMap(m, L) && Refines(m', L, BootSpace(L))
    requires a <= L.limit
    ensures Walk(m, L.boot, VMA + a) == Walk(m', L.dir, VMA + a) == Some(a)
  {
    BootTranslates(m, L, VMA + a);
    FinalTranslates(m', L, VMA + a);
  }

  /** ... the boot directory's identity mappings are gone ... */
  lemma HandoverDropsIdentity(m: Memory, m': Memory, L: Layout, lin: Word)
    requires L.Ok() && L.ApicFree() && BootMap(m, L) && Refines(m', L, BootSpace(L))
    requires lin < VMA
    ensures Walk(m, L.boot, lin) == Some(lin) && Walk(m', L.dir, lin) == None
  {
    BootTranslates(m, L, lin);
    FinalTranslates(m', L, lin);
  }

  /** ... and the APIC registers are mapped 1:1, through the one table in use. */
  lemma HandoverMapsApics(m: Memory, L: Layout)
    requires L.Ok() && L.ApicFree() && Refines(m, L, BootSpace(L))
    ensures WalkPage(m, L.dir, IOAPIC / 0x1000) == Some(IOAPIC / 0x1000)
    ensures WalkPage(m, L.dir, LAPIC / 0x1000) == Some(LAPIC / 0x1000)
    ensures TableSet(m, L) == {1019}
  {
    assert WalkPage(m, L.dir, 0xFEC00) == BootSpace(L).Lookup(0xFEC00);
    assert WalkPage(m, L.dir, 0xFEE00) == BootSpace(L).Lookup(0xFEE00);
    assert TableSet(m, L) == BootSpace(L).tabled;
  }

  /** One operation on the machine. */
  method Perform(hw: Machine, L: Layout, op: Op, ghost s: Space)
    requires L.Ok() && hw.Valid() && hw.Paging() && hw.Root() == L.dir
    requires Coherent(hw.tlb, hw.Mem(), L.dir)
    requires Inv(hw.Mem(), L) && Refines(hw.Mem(), L, s) && op.Legal(L, s)
    modifies hw`tlb, hw.ram
    ensures Coherent(hw.tlb, hw.Mem(), L.dir)
    ensures hw.Mem() == Step(old(hw.Mem()), L, op)
    ensures Inv(hw.Mem(), L) && Refines(hw.Mem(), L, AbsStep(s, op))
    ensures Window(old(hw.Mem()), L, L.Windows()) ==> (Window(hw.Mem(), L, L.Windows()) <==> op.SparesWindows(L))
  {
    StepRefines(hw.Mem(), L, s, op);
    if Window(hw.Mem(), L, L.Windows()) { StepWindows(hw.Mem(), L, op); }
    if op.Op4Mb? {
      PagingMap4Mb(hw, L, op.phyaddr, op.lin, op.flags);
    } else {
      var fault := PagingMap4Kb(hw, L, op.phyaddr, op.lin, op.flags);
    }
  }

  /** Whole runs on the machine, fills and evictions interleaved everywhere: memory is that of
      the specified run, it refines the abstract one, and the TLB is coherent. */
  method Run(hw: Machine, L: Layout, ops: seq<Op>, ghost s: Space)
    requires L.Ok() && hw.Valid() && hw.Paging() && hw.Root() == L.dir
    requires Coherent(hw.tlb, hw.Mem(), L.dir)
    requires Inv(hw.Mem(), L) && Refines(hw.Mem(), L, s) && LegalRun(L, s, ops)
    modifies hw`tlb, hw.ram
    ensures Coherent(hw.tlb, hw.Mem(), L.dir)
    ensures hw.Mem() == Exec(old(hw.Mem()), L, s, ops)
    ensures Inv(hw.Mem(), L) && Refines(hw.Mem(), L, AbsRun(s, ops))
    ensures Window(old(hw.Mem()), L, L.Windows()) && (forall k :: 0 <= k < |ops| ==> ops[k].SparesWindows(L)) ==>
              Window(hw.Mem(), L, L.Windows())
    decreases |ops|
  {
    if ops == [] { return; }
    Perform(hw, L, ops[0], s);
    Run(hw, L, ops[1..], AbsStep(s, ops[0]));
  }

  // --- Obligations the code does not check, and exactly what they guard ---

  /** Whether a store of map_4kb's page entry into frame `f`, when the region is a 4 MiB page,
      leaves `lin` mapped as asked.  It does nothing for `lin` unless it hits the region's own
      directory entry, which then is a 4 MiB page or names a table by the flags' SIZE bit. */
  predicate StrayMaps(m: Memory, L: Layout, phyaddr: Word, lin: Word, flags: Word, f: Page) {
    var frame, i := phyaddr / 0x1000, TableIndex(lin);
    if f != L.dir || i != DirIndex(lin) then WalkPage(m, L.dir, lin / 0x1000) == Some(frame)
    else if PageSize(flags) then frame % 1024 == i
    else frame == L.dir || (Present(m[WordOf(frame, i)]) && m[WordOf(frame, i)] / 0x1000 == frame)
  }

  lemma StrayStore(m: Memory, L: Layout, phyaddr: Word, lin: Word, flags: Word, f: Page)
    requires L.Ok() && FlagsOk(flags) && IsLarge(Pde(m, L, lin / 0x400000))
    ensures var m' := m[WordOf(f, TableIndex(lin)) := PteWord(phyaddr, flags)];
            WalkPage(m', L.dir, lin / 0x1000) == Some(phyaddr / 0x1000) <==> StrayMaps(m, L, phyaddr, lin, flags, f)
  {
    var w, i, p := PteWord(phyaddr, flags), TableIndex(lin), lin / 0x1000;
    var m' := m[WordOf(f, i) := w];
    assert p % 1024 == i && p / 1024 == DirIndex(lin);
    if f != L.dir || i != DirIndex(lin) {
      assert PdeFor(m', L.dir, p) == PdeFor(m, L.dir, p);
    } else {
      assert PdeFor(m', L.dir, p) == w;
      assert w / 0x400000 == phyaddr / 0x1000 / 1024;
    }
  }

  /** map_4kb returns with the page mapped as asked exactly when the region is no 4 MiB page.
      When it is one, the second store goes VMA above the frame bits of the 4 MiB entry: it
      faults where nothing is mapped there and otherwise hits a word unrelated to the page. */
  lemma Map4KbNeedsTable(m: Memory, L: Layout, root: Page, phyaddr: Word, lin: Word, flags: Word)
    requires L.Ok() && FlagsOk(flags) && PoolSound(m, L) && Live(m, L, root)
    requires Present(Pde(m, L, lin / 0x400000)) || FirstFree(m, L, 0) < POOL
    ensures var r, e := Map4KbCode(m, L, root, phyaddr, lin, flags), Pde(m, L, lin / 0x400000);
            !r.fault && WalkPage(r.mem, L.dir, lin / 0x1000) == Some(phyaddr / 0x1000) <==>
            if !IsLarge(e) then true
            else match WalkPage(m, root, HighPage(SmallFrame(e)))
                 case None => false
                 case Some(f) => StrayMaps(m, L, phyaddr, lin, flags, f)
  {
    var e := Pde(m, L, lin / 0x400000);
    if IsLarge(e) {
      var w := WalkPage(m, root, HighPage(SmallFrame(e)));
      if w.Some? { StrayStore(m, L, phyaddr, lin, flags, w.value); }
    } else {
      LegalCode(m, L, root, phyaddr, lin, flags);
      Map4KbWalk(m, L, phyaddr, lin, flags, lin / 0x1000);
    }
  }

  /** What a page-table entry maps. */
  function EntryFrame(pte: Word): Option<Page> { if Present(pte) then Some(SmallFrame(pte)) else None }

  /** Where linear page 0xC0000, VMA above page 0, goes once the entry of `lin` references
      physical page 0: as before, unless that entry governs the page itself. */
  function NullTarget(m: Memory, L: Layout, root: Page, lin: Word): Option<Page> {
    if root == L.dir && DirIndex(lin) == 768 then EntryFrame(m[WordOf(0, 0)]) else WalkPage(m, root, 0xC0000)
  }

  lemma NullTargetWalk(m: Memory, L: Layout, root: Page, lin: Word)
    requires L.Ok() && PoolSound(m, L) && Live(m, L, root)
    ensures WalkPage(m[WordOf(L.dir, DirIndex(lin)) := 3], root, 0xC0000) == NullTarget(m, L, root, lin)
  {
    var i := DirIndex(lin);
    var m1 := m[WordOf(L.dir, i) := 3];
    if root == L.boot {
      BootUntouched(m, m1, L, 0xC0000);
    } else if i == 768 {
      assert PdeFor(m1, L.dir, 0xC0000) == 3 && m1[WordOf(0, 0)] == m[WordOf(0, 0)];
    } else {
      NewEntryWalk(m, L, i, 3, 0xC0000);
    }
  }

  /** An entry that references physical page 0 is none of the pool's. */
  lemma NullEntry(m: Memory, L: Layout, i: int)
    requires L.Ok() && 0 <= i < 1024 && Pde(m, L, i) == 3
    ensures !PoolSound(m, L)
  {
    assert IsTable(Pde(m, L, i));
  }

  lemma NullCode(m: Memory, L: Layout, root: Page, phyaddr: Word, lin: Word, flags: Word)
    requires L.Ok() && flags < 0x1000 && PoolSound(m, L) && Live(m, L, root)
    requires |TableSet(m, L)| == POOL && !Present(Pde(m, L, lin / 0x400000))
    ensures var m1 := m[WordOf(L.dir, DirIndex(lin)) := 3];
            Map4KbCode(m, L, root, phyaddr, lin, flags) ==
            match NullTarget(m, L, root, lin)
            case None => Outcome(m1, true)
            case Some(f) => Outcome(m1[WordOf(f, TableIndex(lin)) := PteWord(phyaddr, flags)], false)
  {
    var target := NullTarget(m, L, root, lin);
    assert TableFor(m, L, lin) == 0 by { AllocatorMeaning(m, L); }
    assert WithTable(m, L, lin) == m[WordOf(L.dir, DirIndex(lin)) := 3];
    NullTargetWalk(m, L, root, lin);
    if target.None? {
      CodeFaults(m, L, root, phyaddr, lin, flags);
    } else {
      CodeStores(m, L, root, phyaddr, lin, flags, target.value);
    }
  }

  /** With all ten tables in use the allocator answers NULL.  The first store makes physical
      page 0 the region's table; the second goes to wherever page 0 shows at VMA, and faults
      where it does not.  The pool is then no longer sound, unless that very store lands on
      the entry just written. */
  lemma ExhaustedPool(m: Memory, L: Layout, root: Page, phyaddr: Word, lin: Word, flags: Word)
    requires L.Ok() && flags < 0x1000 && PoolSound(m, L) && Live(m, L, root)
    requires |TableSet(m, L)| == POOL && !Present(Pde(m, L, lin / 0x400000))
    ensures var m1, r := m[WordOf(L.dir, DirIndex(lin)) := 3], Map4KbCode(m, L, root, phyaddr, lin, flags);
            match NullTarget(m, L, root, lin)
            case None => r == Outcome(m1, true) && !PoolSound(r.mem, L)
            case Some(f) =>
              && r == Outcome(m1[WordOf(f, TableIndex(lin)) := PteWord(phyaddr, flags)], false)
              && (f != L.dir || TableIndex(lin) != DirIndex(lin) ==> !PoolSound(r.mem, L))
  {
    var i, target := DirIndex(lin), NullTarget(m, L, root, lin);
    var m1 := m[WordOf(L.dir, i) := 3];
    NullCode(m, L, root, phyaddr, lin, flags);
    if target.None? {
      NullEntry(m1, L, i);
    } else if target.value != L.dir || TableIndex(lin) != i {
      NullEntry(m1[WordOf(target.value, TableIndex(lin)) := PteWord(phyaddr, flags)], L, i);
    }
  }

  /** Physical page 0 as the table of `lin`'s region. */
  lemma NullTable(m: Memory, L: Layout, phyaddr: Word, lin: Word, flags: Word, p: Page)
    requires L.Ok() && flags < 0x1000 && p / 1024 == lin / 0x400000
    ensures var m' := m[WordOf(L.dir, DirIndex(lin)) := 3][WordOf(0, TableIndex(lin)) := PteWord(phyaddr, flags)];
            WalkPage(m', L.dir, p) ==
            if p == lin / 0x1000 then Asked(phyaddr, flags) else EntryFrame(m[WordOf(0, p % 1024)])
  {
    var i, w := lin / 0x400000, PteWord(phyaddr, flags);
    var m' := m[WordOf(L.dir, i) := 3][WordOf(0, TableIndex(lin)) := w];
    PageInRegion(lin, p);
    assert PdeFor(m', L.dir, p) == 3;
    assert m'[WordOf(0, p % 1024)] == if p == lin / 0x1000 then w else m[WordOf(0, p % 1024)];
  }

  /** Where page 0 is visible at VMA, as on the boot directory and while window 0 is in place,
      both stores succeed: the page asked for is mapped, and its 1023 neighbours go wherever
      the old contents of physical page 0 say. */
  lemma ExhaustedPoolBreaks(m: Memory, L: Layout, root: Page, phyaddr: Word, lin: Word, flags: Word, p: Page)
    requires L.Ok() && flags < 0x1000 && PoolSound(m, L) && Live(m, L, root)
    requires |TableSet(m, L)| == POOL && !Present(Pde(m, L, lin / 0x400000))
    requires WalkPage(m, root, 0xC0000) == Some(0) && p / 1024 == lin / 0x400000
    ensures var r := Map4KbCode(m, L, root, phyaddr, lin, flags);
            && !r.fault && !PoolSound(r.mem, L)
            && WalkPage(r.mem, L.dir, p) ==
               if p == lin / 0x1000 then Asked(phyaddr, flags) else EntryFrame(m[WordOf(0, p % 1024)])
  {
    ExhaustedPool(m, L, root, phyaddr, lin, flags);
    NullTable(m, L, phyaddr, lin, flags, p);
  }

  /** paging_init's first map_4kb maps the I/O APIC 1:1 exactly when the kernel's windows stop
      short of its region, that is when the kernel ends below 0x3EC00000. */
  lemma ApicNeedsRoom(m: Memory, L: Layout)
    requires L.Ok() && Building(m, L, WindowSpace(L.Windows()))
    ensures var r := Map4KbCode(m, L, L.boot, IOAPIC, IOAPIC, APIC_FLAGS);
            !r.fault && WalkPage(r.mem, L.dir, IOAPIC / 0x1000) == Some(IOAPIC / 0x1000) <==> L.ApicFree()
  {
    var s := WindowSpace(L.Windows());
    AllocatorMeaning(m, L);
    assert TableSet(m, L) == s.tabled;
    assert 1019 in s.large <==> !L.ApicFree();
    assert WalkPage(m, L.dir, 0xFEC00) == s.Lookup(0xFEC00) != Some(0xFEC00);
    assert TableIndex(IOAPIC) == 0;
    Map4KbNeedsTable(m, L, L.boot, IOAPIC, IOAPIC, APIC_FLAGS);
  }

  // --- acpi_init's two mappings ---

  /** Adding VMA in 32 bits, as acpi_init does. */
  function AcpiPage(rsdt: Word): Page { (rsdt / 0x1000 + 0xC0000) % PAGES }

  function NextPage(p: Page): Page { (p + 1) % PAGES }

  /** The two mappings, on the pages they mean. */
  function AcpiOps(rsdt: Word): (ops: seq<Op>)
    ensures |ops| == 2 && ops[0].Op4Kb? && ops[1].Op4Kb? && ops[0].flags == ops[1].flags == 0x003
    ensures ops[0].lin / 0x1000 == AcpiPage(rsdt) && ops[1].lin / 0x1000 == NextPage(AcpiPage(rsdt))
    ensures ops[0].phyaddr / 0x1000 == rsdt / 0x1000 && ops[1].phyaddr / 0x1000 == NextPage(rsdt / 0x1000)
    ensures ops[0].Region() == AcpiPage(rsdt) / 1024 && ops[1].Region() == NextPage(AcpiPage(rsdt)) / 1024
  {
    var n: int, v: int := rsdt / 0x1000, AcpiPage(rsdt);
    assert rsdt - rsdt % 0x1000 == n * 0x1000;
    WrapPages(n + 0xC0000);
    WrapPages(n + 1);
    WrapPages(v + 1);
    var phys := rsdt - rsdt % 0x1000;
    var virt := (phys + VMA) % 0x1_0000_0000;
    [Op4Kb(phys, virt, KERNEL_FLAGS),
     Op4Kb((phys + 0x1000) % 0x1_0000_0000, (virt + 0x1000) % 0x1_0000_0000, KERNEL_FLAGS)]
  }

  /** Neither RSDT page shows where a kernel window is. */
  predicate OutsideWindows(L: Layout, rsdt: Word) {
    !InWindow(AcpiPage(rsdt) / 1024, L.Windows()) && !InWindow(NextPage(AcpiPage(rsdt)) / 1024, L.Windows())
  }

  predicate IsApic(p: Page) { p == 0xFEC00 || p == 0xFEE00 }

  /** From any memory paging_init can leave, acpi_init's mappings are legal exactly when both
      pages are outside the kernel's windows.  They take the tables in use to at most three,
      map both RSDT pages and change no other page. */
  lemma AcpiMappings(L: Layout, rsdt: Word)
    requires L.Ok() && L.ApicFree()
    ensures LegalRun(L, BootSpace(L), AcpiOps(rsdt)) <==> OutsideWindows(L, rsdt)
    ensures var s', v := AbsRun(BootSpace(L), AcpiOps(rsdt)), AcpiPage(rsdt);
            && |s'.tabled| <= 3
            && s'.Lookup(v) == Some(rsdt / 0x1000) && s'.Lookup(NextPage(v)) == Some(NextPage(rsdt / 0x1000))
            && forall p: Page :: p != v && p != NextPage(v) ==> s'.Lookup(p) == BootSpace(L).Lookup(p)
  {
    var s, ops := BootSpace(L), AcpiOps(rsdt);
    var s1 := AbsStep(s, ops[0]);
    var s2 := AbsStep(s1, ops[1]);
    assert ops[1..] == [ops[1]] && ops[1..][1..] == [];
    assert LegalRun(L, s, ops) <==> ops[0].Legal(L, s) && ops[1].Legal(L, s1) by {
      assert LegalRun(L, s1, [ops[1]]) <==> ops[1].Legal(L, s1);
    }
    assert forall i :: 0 <= i < 1024 ==> (i in s.large <==> InWindow(i, L.Windows()));
    assert AbsRun(s, ops) == AbsRun(s1, [ops[1]]) == s2;
    assert s.tabled == {1019};
    assert |s1.tabled| <= 2 && |s2.tabled| <= 3;
    assert FlagsOk(KERNEL_FLAGS);
    forall p: Page
      ensures s2.Lookup(p) == if ops[1].Covers(p) then ops[1].Frame(p)
                              else if ops[0].Covers(p) then ops[0].Frame(p) else s.Lookup(p)
    {
      AbsStepLookup(s, ops[0], p);
      AbsStepLookup(s1, ops[1], p);
    }
  }

  lemma BootPages(L: Layout, p: Page)
    requires L.Ok() && L.ApicFree()
    ensures p in BootSpace(L).pages <==> InWindow(p / 1024, L.Windows()) || IsApic(p)
    ensures IsApic(p) ==> BootSpace(L).Lookup(p) == Some(p)
  {
  }

  /** Legal or not in the pool's terms, what the kernel itself had mapped survives exactly when
      neither page is an APIC page: those would go to memory instead of to the registers. */
  lemma AcpiKeepsKernel(L: Layout, rsdt: Word)
    requires L.Ok() && L.ApicFree() && OutsideWindows(L, rsdt)
    ensures var s' := AbsRun(BootSpace(L), AcpiOps(rsdt));
            (forall p: Page :: p in BootSpace(L).pages ==> s'.Lookup(p) == BootSpace(L).Lookup(p)) <==>
            !IsApic(AcpiPage(rsdt)) && !IsApic(NextPage(AcpiPage(rsdt)))
  {
    var s, s', v := BootSpace(L), AbsRun(BootSpace(L), AcpiOps(rsdt)), AcpiPage(rsdt);
    AcpiMappings(L, rsdt);
    BootPages(L, v);
    BootPages(L, NextPage(v));
    if IsApic(v) {
      assert s'.Lookup(v) == Some(rsdt / 0x1000) != s.Lookup(v);
    } else if IsApic(NextPage(v)) {
      assert s'.Lookup(NextPage(v)) == Some(NextPage(rsdt / 0x1000)) != s.Lookup(NextPage(v));
    }
  }

  /** Where acpi_init looks for the byte at physical address `rsdt`. */
  function AcpiAddress(rsdt: Word): (lin: Word)
    ensures lin / 0x1000 == AcpiPage(rsdt) && lin % 0x1000 == rsdt % 0x1000
  {
    (rsdt + VMA) % 0x1_0000_0000
  }

  /** For the memory `m'` any run of those two mappings refines: both RSDT pages are mapped,
      every other page is as before, and at most three tables are in use. */
  lemma AcpiPages(m: Memory, m': Memory, L: Layout, rsdt: Word, p: Page)
    requires L.Ok() && L.ApicFree() && Refines(m, L, BootSpace(L))
    requires Refines(m', L, AbsRun(BootSpace(L), AcpiOps(rsdt)))
    ensures WalkPage(m', L.dir, AcpiPage(rsdt)) == Some(rsdt / 0x1000)
    ensures WalkPage(m', L.dir, NextPage(AcpiPage(rsdt))) == Some(NextPage(rsdt / 0x1000))
    ensures p != AcpiPage(rsdt) && p != NextPage(AcpiPage(rsdt)) ==> WalkPage(m', L.dir, p) == WalkPage(m, L.dir, p)
    ensures |TableSet(m', L)| <= 3
  {
    AcpiMappings(L, rsdt);
    assert TableSet(m', L) == AbsRun(BootSpace(L), AcpiOps(rsdt)).tabled;
  }

  /** acpi_init then reads the RSDT's first byte where it lies. */
  lemma RsdtReadable(m: Memory, root: Page, rsdt: Word)
    requires WalkPage(m, root, AcpiPage(rsdt)) == Some(rsdt / 0x1000)
    ensures Walk(m, root, AcpiAddress(rsdt)) == Some(rsdt)
  {
    WalkFromPage(m, root, AcpiAddress(rsdt), rsdt / 0x1000);
  }

  /** The entry of page `p` after the two calls: those of the RSDT pages are present and
      writable, every other page keeps its own. */
  function RsdtEntry(rsdt: Word, p: Page, before: Option<int>): Option<int> {
    if p == AcpiPage(rsdt) then Some(rsdt / 0x1000 * 0x1000 + 0x3)
    else if p == NextPage(AcpiPage(rsdt)) then Some(NextPage(rsdt / 0x1000) * 0x1000 + 0x3)
    else before
  }

  ghost predicate RsdtEntries(m: Memory, m': Memory, L: Layout, rsdt: Word) {
    forall p: Page :: MappingEntry(m', L.dir, p) == RsdtEntry(rsdt, p, MappingEntry(m, L.dir, p))
  }

  lemma RsdtRun(m: Memory, L: Layout, rsdt: Word)
    requires L.Ok() && Inv(m, L) && Refines(m, L, BootSpace(L)) && LegalRun(L, BootSpace(L), AcpiOps(rsdt))
    ensures RsdtEntries(m, Exec(m, L, BootSpace(L), AcpiOps(rsdt)), L, rsdt)
  {
    var m' := Exec(m, L, BootSpace(L), AcpiOps(rsdt));
    forall p: Page
      ensures MappingEntry(m', L.dir, p) == RsdtEntry(rsdt, p, MappingEntry(m, L.dir, p))
    {
      RunEntries(m, L, BootSpace(L), AcpiOps(rsdt), p);
      TwoEntries(AcpiOps(rsdt), p, MappingEntry(m, L.dir, p));
      AcpiEntry(rsdt, p, MappingEntry(m, L.dir, p));
    }
  }

  lemma TwoEntries(ops: seq<Op>, p: Page, before: Option<int>)
    requires |ops| == 2
    ensures LastEntry(ops, p, before) ==
            if ops[1].Covers(p) then ops[1].Entry() else if ops[0].Covers(p) then ops[0].Entry() else before
  {
    var mid := if ops[0].Covers(p) then ops[0].Entry() else before;
    var rest := ops[1..];
    assert rest[0] == ops[1] && rest[1..] == [];
    assert LastEntry(rest, p, mid) == LastEntry(rest[1..], p, if ops[1].Covers(p) then ops[1].Entry() else mid);
  }

  lemma AcpiEntry(rsdt: Word, p: Page, before: Option<int>)
    ensures var ops := AcpiOps(rsdt);
            RsdtEntry(rsdt, p, before) ==
            if ops[1].Covers(p) then ops[1].Entry() else if ops[0].Covers(p) then ops[0].Entry() else before
  {
    var ops := AcpiOps(rsdt);
    assert Present(0x003);
    assert ops[0].Entry() == Some(ops[0].phyaddr / 0x1000 * 0x1000 + 3);
    assert ops[1].Entry() == Some(ops[1].phyaddr / 0x1000 * 0x1000 + 3);
  }

  /** The arguments acpi_init computes. */
  method AcpiCalls(rsdt: Word) returns (ops: seq<Op>)
    ensures ops == AcpiOps(rsdt)
  {
    assert And(rsdt, 0xFFFF_F000) == rsdt - rsdt % 0x1000 by { FrameMask(rsdt); }
    var physBase := And(rsdt, 0xFFFF_F000);
    var virtBase := (physBase + VMA) % 0x1_0000_0000;
    ops := [Op4Kb(physBase, virtBase, KERNEL_FLAGS),
            Op4Kb((physBase + 0x1000) % 0x1_0000_0000, (virtBase + 0x1000) % 0x1_0000_0000, KERNEL_FLAGS)];
  }

  /** The two mappings of acpi_init, right after paging_init. */
  method AcpiMapRsdt(hw: Machine, L: Layout, rsdt: Word)
    requires L.Ok() && L.ApicFree() && hw.Valid() && hw.Paging() && hw.Root() == L.dir
    requires OutsideWindows(L, rsdt)
    requires Coherent(hw.tlb, hw.Mem(), L.dir)
    requires Inv(hw.Mem(), L) && Refines(hw.Mem(), L, BootSpace(L))
    modifies hw`tlb, hw.ram
    ensures Coherent(hw.tlb, hw.Mem(), L.dir)
    ensures Inv(hw.Mem(), L) && Refines(hw.Mem(), L, AbsRun(BootSpace(L), AcpiOps(rsdt)))
    ensures Window(old(hw.Mem()), L, L.Windows()) ==> Window(hw.Mem(), L, L.Windows())
    ensures RsdtEntries(old(hw.Mem()), hw.Mem(), L, rsdt)
  {
    var ops := AcpiCalls(rsdt);
    assert LegalRun(L, BootSpace(L), ops) by { AcpiMappings(L, rsdt); }
    ghost var m := hw.Mem();
    Run(hw, L, ops, BootSpace(L));
    RsdtRun(m, L, rsdt);
  }

  /** Paging switched on in entry, then paging_init. */
  method BootPaging(hw: Machine, L: Layout)
    requires L.Ok() && L.ApicFree() && hw.Valid() && hw.cr3 < 0x1000 && BootMap(hw.Mem(), L)
    modifies hw, hw.ram
    ensures hw.Valid() && hw.Paging() && hw.Root() == L.dir && Coherent(hw.tlb, hw.Mem(), L.dir)
    ensures Inv(hw.Mem(), L) && Window(hw.Mem(), L, L.Windows()) && Refines(hw.Mem(), L, BootSpace(L))
    ensures FinalEntries(hw.Mem(), L)
  {
    EntryInitPaging(hw, L);
    PagingInit(hw, L);
  }

  /** The kernel's own sequence: paging switched on in entry, paging_init, then acpi_init. */
  method BootSequence(hw: Machine, L: Layout, rsdt: Word)
    requires L.Ok() && L.ApicFree() && OutsideWindows(L, rsdt)
    requires hw.Valid() && hw.cr3 < 0x1000 && BootMap(hw.Mem(), L)
    modifies hw, hw.ram
    ensures hw.Valid() && hw.Paging() && hw.Root() == L.dir && Coherent(hw.tlb, hw.Mem(), L.dir)
    ensures Inv(hw.Mem(), L) && Window(hw.Mem(), L, L.Windows())
    ensures Refines(hw.Mem(), L, AbsRun(BootSpace(L), AcpiOps(rsdt)))
  {
    BootPaging(hw, L);
    AcpiMapRsdt(hw, L, rsdt);
  }

  // --- paging_get_phyaddr ---

  /** The walk's answer as the source returns it: 0 for an unmapped address. */
  function PhyaddrOf(w: Option<Word>): Word { if w.Some? then w.value else 0 }

  lemma JoinLarge(e: Word, lin: Word)
    ensures Or(And(e, 0xFFC0_0000), And(lin, 0x3F_FFFF)) == LargeAddress(e, lin)
  {
    var h, low := e / 0x400000, lin % 0x400000;
    assert And(e, 0xFFC0_0000) == h * 0x400000 by { FrameMask(e); }
    assert And(lin, 0x3F_FFFF) == low by { OffsetMask(lin); }
    assert Or(h * 0x400000 + 0, low) == h * 0x400000 + low by { Pow2Values(); OrSplit(h, 0, low, 22, 0x400000); }
  }

  lemma JoinSmall(e: Word, lin: Word)
    ensures Or(And(e, 0xFFFF_F000), And(lin, 0xFFF)) == SmallAddress(e, lin)
  {
    var h, low := e / 0x1000, lin % 0x1000;
    assert And(e, 0xFFFF_F000) == h * 0x1000 by { FrameMask(e); }
    assert And(lin, 0xFFF) == low by { OffsetMask(lin); }
    assert Or(h * 0x1000 + 0, low) == h * 0x1000 + low by { Pow2Values(); OrSplit(h, 0, low, 12, 0x1000); }
    assert SmallAddress(e, lin) == h * 0x1000 + low;
  }

  /** What a load of word `i` of linear page `p` finds; None is a page fault. */
  function LoadAt(m: Memory, root: Page, p: Page, i: int): Option<Word>
    requires 0 <= i < 1024
  {
    var f := WalkPage(m, root, p);
    if f.Some? then Some(m[WordOf(f.value, i)]) else None
  }

  /** The page and the word a pointer to entry `i` means when it starts `shift` words into page
      `root`, as CR3 does with low bits set. */
  function EntryPlace(root: Page, shift: nat, i: int): (r: (Page, int))
    requires shift < 1024 && 0 <= i < 1024
    ensures 0 <= r.1 < 1024
  {
    if shift + i < 1024 then (root, shift + i) else (NextPage(root), shift + i - 1024)
  }

  lemma EntryAddress(cr3: Word, i: int)
    requires cr3 % 4 == 0 && 0 <= i < 1024
    ensures var (p, w) := EntryPlace(cr3 / 0x1000, cr3 % 0x1000 / 4, i); (cr3 + 4 * i) % 0x1_0000_0000 == PhysOf(p, w)
  {
    var root: Page, low := cr3 / 0x1000, cr3 % 0x1000;
    DivModUnique(cr3, 4, root * 0x400 + low / 4, low % 4);
    var (p, w) := EntryPlace(root, low / 4, i);
    var wraps := if low / 4 + i >= 1024 && root == PAGES - 1 then 1 else 0;
    assert cr3 + 4 * i == 0x1_0000_0000 * wraps + (p * 0x1000 + 4 * w);
    DivModUnique(cr3 + 4 * i, 0x1_0000_0000, wraps, p * 0x1000 + 4 * w);
  }

  /** paging_get_phyaddr's answer in every state: it takes the physical addresses of the
      directory, as CR3 holds it, and of the table for linear ones. */
  function PhyaddrAnswer(m: Memory, root: Page, shift: nat, lin: Word): Option<Word>
    requires shift < 1024
  {
    var (p, w) := EntryPlace(root, shift, DirIndex(lin));
    match LoadAt(m, root, p, w)
    case None => None
    case Some(e) => AnswerFrom(m, root, e, lin)
  }

  /** The answer once the directory entry is read. */
  function AnswerFrom(m: Memory, root: Page, e: Word, lin: Word): Option<Word> {
    if !Present(e) then Some(0)
    else if PageSize(e) then Some(LargeAddress(e, lin))
    else AnswerInTable(m, root, e, lin)
  }

  function AnswerInTable(m: Memory, root: Page, e: Word, lin: Word): Option<Word> {
    match LoadAt(m, root, SmallFrame(e), TableIndex(lin))
    case None => None
    case Some(pte) => Some(if Present(pte) then SmallAddress(pte, lin) else 0)
  }

  /** Load word `i` of linear page `p`. */
  method LoadPage(hw: Machine, p: Page, i: nat) returns (v: Option<Word>)
    requires hw.Valid() && hw.Paging() && i < 1024
    requires Coherent(hw.tlb, hw.Mem(), hw.Root())
    modifies hw`tlb
    ensures Coherent(hw.tlb, hw.Mem(), hw.Root()) && v == LoadAt(hw.Mem(), hw.Root(), p, i)
  {
    PageWalk(hw.Mem(), hw.Root(), p, i);
    v := hw.TryLoad(PhysOf(p, i));
  }

  /** paging_get_phyaddr (None is a page fault), for every aligned value of CR3. */
  method GetPhyaddr(hw: Machine, lin: Word) returns (r: Option<Word>)
    requires hw.Valid() && hw.Paging() && hw.cr3 % 4 == 0
    requires Coherent(hw.tlb, hw.Mem(), hw.Root())
    modifies hw`tlb
    ensures Coherent(hw.tlb, hw.Mem(), hw.Root())
    ensures r == PhyaddrAnswer(hw.Mem(), hw.Root(), hw.cr3 % 0x1000 / 4, lin)
  {
    var entry := LoadEntry(hw, DirIndex(lin));
    if entry.None? { return None; }
    var e := entry.value;
    assert (And(e, 0x1) != 0) == Present(e) && (And(e, 0x80) != 0) == PageSize(e) by { FlagTests(e); }
    if And(e, 0x1) == 0 { return Some(0); }
    if And(e, 0x80) != 0 {
      JoinLarge(e, lin);
      return Some(Or(And(e, 0xFFC0_0000), And(lin, 0x3F_FFFF)));
    }
    r := PhyaddrInTable(hw, e, lin);
  }

  /** The first load: CR3 as a pointer, indexed. */
  method LoadEntry(hw: Machine, i: nat) returns (v: Option<Word>)
    requires hw.Valid() && hw.Paging() && hw.cr3 % 4 == 0 && i < 1024
    requires Coherent(hw.tlb, hw.Mem(), hw.Root())
    modifies hw`tlb
    ensures Coherent(hw.tlb, hw.Mem(), hw.Root())
    ensures var (p, w) := EntryPlace(hw.Root(), hw.cr3 % 0x1000 / 4, i); v == LoadAt(hw.Mem(), hw.Root(), p, w)
  {
    ghost var (p, w) := EntryPlace(hw.Root(), hw.cr3 % 0x1000 / 4, i);
    EntryAddress(hw.cr3, i);
    PageWalk(hw.Mem(), hw.Root(), p, w);
    v := hw.TryLoad((hw.cr3 + 4 * i) % 0x1_0000_0000);
  }

  /** The 4 KiB half of paging_get_phyaddr. */
  method PhyaddrInTable(hw: Machine, e: Word, lin: Word) returns (r: Option<Word>)
    requires hw.Valid() && hw.Paging()
    requires Coherent(hw.tlb, hw.Mem(), hw.Root())
    modifies hw`tlb
    ensures Coherent(hw.tlb, hw.Mem(), hw.Root()) && r == AnswerInTable(hw.Mem(), hw.Root(), e, lin)
  {
    assert And(e, 0xFFFF_F000) / 0x1000 == SmallFrame(e) by { FrameMask(e); }
    assert And(lin / 0x1000, 0x3FF) == TableIndex(lin) by { OffsetMask(lin / 0x1000); }
    var pte := LoadPage(hw, And(e, 0xFFFF_F000) / 0x1000, And(lin / 0x1000, 0x3FF));
    if pte.None? { return None; }
    assert (And(pte.value, 0x1) != 0) == Present(pte.value) by { FlagTests(pte.value); }
    if And(pte.value, 0x1) == 0 { return Some(0); }
    JoinSmall(pte.value, lin);
    r := Some(Or(And(pte.value, 0xFFFF_F000), And(lin, 0xFFF)));
  }

  /** Physical page `p` is visible at its own address. */
  predicate Identity(m: Memory, root: Page, p: Page) { WalkPage(m, root, p) == Some(p) }

  /** With the low bits of CR3 clear it answers the walk, 0 for an unmapped address, wherever
      the structures it reads are visible at their own addresses. */
  lemma PhyaddrIsWalk(m: Memory, root: Page, lin: Word)
    requires Identity(m, root, root)
    requires var e := m[WordOf(root, DirIndex(lin))]; IsTable(e) ==> Identity(m, root, SmallFrame(e))
    ensures PhyaddrAnswer(m, root, 0, lin) == Some(PhyaddrOf(Walk(m, root, lin)))
  {
  }

  /** What a linear address means on the boot directory. */
  function BootPhysical(lin: Word): Word { if lin < VMA then lin else lin - VMA }

  /** On the boot directory they are, for every address. */
  lemma PhyaddrWorksOnBoot(m: Memory, L: Layout, lin: Word)
    requires L.Ok() && BootMap(m, L)
    ensures PhyaddrAnswer(m, L.boot, 0, lin) == Some(BootPhysical(lin))
  {
    BootWalk(m, L, L.boot);
    assert BootAt(m, L, DirIndex(lin));
    PhyaddrIsWalk(m, L.boot, lin);
    BootTranslates(m, L, lin);
  }

  /** Entry `e` leads to the right answer for the whole of region `i`. */
  ghost predicate AnswersRegion(m: Memory, root: Page, e: Word, i: int) {
    forall lin: Word :: DirIndex(lin) == i ==> AnswerFrom(m, root, e, lin) == Some(BootPhysical(lin))
  }

  /** The page behind the boot directory answers for region `i` when read 256 entries too early. */
  ghost predicate NextAnswers(m: Memory, L: Layout, i: int)
    requires L.Ok() && 256 <= i < 1024
  {
    AnswersRegion(m, L.boot, m[WordOf(L.boot + 1, i - 256)], i)
  }

  /** What the boot directory answers when CR3 has low bits set: entries are read `shift` words
      on, those past its end from the page behind it. */
  lemma ShiftedAnswer(m: Memory, L: Layout, shift: nat, lin: Word)
    requires L.Ok() && BootMap(m, L) && shift < 1024
    ensures var w := shift + DirIndex(lin);
            PhyaddrAnswer(m, L.boot, shift, lin) ==
            if w < 1024 then Some(LargeAddress(BootEntry(w), lin))
            else AnswerFrom(m, L.boot, m[WordOf(L.boot + 1, w - 1024)], lin)
  {
    var w := shift + DirIndex(lin);
    assert NextPage(L.boot) == L.boot + 1;
    if w < 1024 {
      BootWalk(m, L, L.boot);
      assert BootAt(m, L, w);
      assert LoadAt(m, L.boot, L.boot, w) == Some(BootEntry(w));
    } else {
      BootWalk(m, L, L.boot + 1);
      assert LoadAt(m, L.boot, L.boot + 1, w - 1024) == Some(m[WordOf(L.boot + 1, w - 1024)]);
    }
  }

  /** Entry 0 is then another region's, unless it is that of VMA. */
  lemma ShiftWrong(m: Memory, L: Layout, shift: nat)
    requires L.Ok() && BootMap(m, L) && 0 < shift < 1024 && shift != 768
    ensures PhyaddrAnswer(m, L.boot, shift, 0) != Some(BootPhysical(0))
  {
    ShiftedAnswer(m, L, shift, 0);
    assert LargeAddress(BootEntry(shift), 0) == BootFrame(shift) * 0x400000;
  }

  lemma Shift768(m: Memory, L: Layout, lin: Word)
    requires L.Ok() && BootMap(m, L)
    ensures PhyaddrAnswer(m, L.boot, 768, lin) ==
            if DirIndex(lin) < 256 then Some(BootPhysical(lin))
            else AnswerFrom(m, L.boot, m[WordOf(L.boot + 1, DirIndex(lin) - 256)], lin)
  {
    ShiftedAnswer(m, L, 768, lin);
    if DirIndex(lin) < 256 { LargeOfBoot(lin); }
  }

  lemma Shift768Exactly(m: Memory, L: Layout)
    requires L.Ok() && BootMap(m, L)
    ensures (forall lin: Word :: PhyaddrAnswer(m, L.boot, 768, lin) == Some(BootPhysical(lin))) <==>
            forall i :: 256 <= i < 1024 ==> NextAnswers(m, L, i)
  {
    if forall i :: 256 <= i < 1024 ==> NextAnswers(m, L, i) {
      forall lin: Word
        ensures PhyaddrAnswer(m, L.boot, 768, lin) == Some(BootPhysical(lin))
      {
        Shift768(m, L, lin);
        if DirIndex(lin) >= 256 { assert NextAnswers(m, L, DirIndex(lin)); }
      }
    }
    if forall lin: Word :: PhyaddrAnswer(m, L.boot, 768, lin) == Some(BootPhysical(lin)) {
      forall i | 256 <= i < 1024
        ensures NextAnswers(m, L, i)
      {
        forall lin: Word | DirIndex(lin) == i
          ensures AnswerFrom(m, L.boot, m[WordOf(L.boot + 1, i - 256)], lin) == Some(BootPhysical(lin))
        {
          Shift768(m, L, lin);
          assert PhyaddrAnswer(m, L.boot, 768, lin) == Some(BootPhysical(lin));
        }
      }
    }
  }

  /** Every address is then answered right exactly when no bit is set, or the bits make 768
      entries and the page behind the directory happens to hold the other 768. */
  lemma PhyaddrShifted(m: Memory, L: Layout, shift: nat)
    requires L.Ok() && BootMap(m, L) && shift < 1024
    ensures (forall lin: Word :: PhyaddrAnswer(m, L.boot, shift, lin) == Some(BootPhysical(lin))) <==>
            shift == 0 || (shift == 768 && forall i :: 256 <= i < 1024 ==> NextAnswers(m, L, i))
  {
    if shift == 0 {
      forall lin: Word
        ensures PhyaddrAnswer(m, L.boot, 0, lin) == Some(BootPhysical(lin))
      {
        PhyaddrWorksOnBoot(m, L, lin);
      }
    } else if shift != 768 {
      ShiftWrong(m, L, shift);
    } else {
      Shift768Exactly(m, L);
    }
  }

  lemma LargeOfBoot(lin: Word)
    requires DirIndex(lin) < 256
    ensures LargeAddress(BootEntry(768 + DirIndex(lin)), lin) == lin
  {
  }

  /** After paging_init, and after any later legal run that does not itself map the page whose
      number is the directory's, every call faults on its first load. */
  lemma PhyaddrFaults(m: Memory, m': Memory, L: Layout, ops: seq<Op>, lin: Word)
    requires L.Ok() && L.ApicFree() && Refines(m, L, BootSpace(L))
    requires Refines(m', L, AbsRun(BootSpace(L), ops))
    ensures LoadAt(m', L.dir, L.dir, DirIndex(lin)) == None <==> LastWrite(ops, L.dir, None) == None
    ensures LastWrite(ops, L.dir, None) == None ==> PhyaddrAnswer(m', L.dir, 0, lin) == None
  {
    AbsRunLookup(BootSpace(L), ops, L.dir);
    assert BootSpace(L).Lookup(L.dir) == None;
  }

  /** After any later run whose last operations on the page numbers of the directory and of the
      table in question mapped those 1:1, it answers what the run left `lin` mapped to. */
  lemma PhyaddrAfterRun(m: Memory, m': Memory, L: Layout, ops: seq<Op>, lin: Word)
    requires L.Ok() && L.ApicFree() && Refines(m, L, BootSpace(L))
    requires PoolSound(m', L) && Refines(m', L, AbsRun(BootSpace(L), ops))
    requires LastWrite(ops, L.dir, None) == Some(L.dir)
    requires var e := Pde(m', L, DirIndex(lin));
             IsTable(e) ==> LastWrite(ops, SmallFrame(e), None) == Some(SmallFrame(e))
    ensures PhyaddrAnswer(m', L.dir, 0, lin) ==
            Some(PhyaddrOf(InFrame(LastWrite(ops, lin / 0x1000, BootSpace(L).Lookup(lin / 0x1000)), lin)))
  {
    var s, e := BootSpace(L), Pde(m', L, DirIndex(lin));
    AbsRunLookup(s, ops, L.dir);
    assert s.Lookup(L.dir) == None;
    if IsTable(e) {
      AbsRunLookup(s, ops, SmallFrame(e));
      assert s.Lookup(SmallFrame(e)) == None;
    }
    PhyaddrIsWalk(m', L.dir, lin);
    AbsRunLookup(s, ops, lin / 0x1000);
    RefinesWalk(m', L, AbsRun(s, ops), lin);
  }
}
