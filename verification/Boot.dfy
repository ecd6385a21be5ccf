/**
 The boot directory of ksrc/_entry.s, the switch to paging, and paging_init, which
 builds the final directory while running on the boot one.
 */
module Boot {
  import opened Words
  import opened Mmu
  import opened PagingSpec
  import opened PagingRuns
  import opened Paging

  const KERNEL_FLAGS: Word := 0x003
  const APIC_FLAGS: Word := 0x01B
  const IOAPIC: Word := 0xFEC0_0000
  const LAPIC: Word := 0xFEE0_0000

  lemma BootOr(frame: nat)
    ensures Or(frame * 0x400000, 0x87) == frame * 0x400000 + 0x87
  {
    Pow2Values();
    OrSplit(frame, 0, 0x87, 22, 0x400000);
  }

  /** The `.rept` block at entry_page_directory: identity below VMA, then again from 0. */
  method BuildBootDirectory() returns (entries: seq<Word>)
    ensures |entries| == 1024
    ensures forall i :: 0 <= i < 1024 ==> entries[i] == BootEntry(i)
    ensures forall i :: 0 <= i < 1024 ==> entries[i] == (if i < 768 then i else i - 768) * 0x400000 + 0x87
  {
    entries := [];
    var addr: nat := 0;
    while |entries| < 1024
      invariant |entries| <= 1024
      invariant addr == if |entries| <= 768 then |entries| * 0x400000 else (|entries| - 768) * 0x400000
      invariant forall i :: 0 <= i < |entries| ==> entries[i] == BootEntry(i)
    {
      if addr >= VMA { addr := 0; }
      BootOr(BootFrame(|entries|));
      entries := entries + [Or(addr, 0x87)];
      addr := addr + 0x400000;
    }
  }

  /** Setting CR0.PG and CR4.PSE with `or`. */
  lemma EnablePg(cr0: Word)
    ensures Or(cr0, 0x8000_0000) < 0x1_0000_0000 && Or(cr0, 0x8000_0000) / 0x8000_0000 == 1
  {
    var r := Or(cr0, 0x8000_0000);
    assert r < 0x1_0000_0000 by { Pow2Values(); OrLow(cr0, 0x8000_0000, 32); }
    assert r / 0x8000_0000 % 2 == 1 by { Pow2Values(); OrBit(cr0, 0x8000_0000, 31); }
  }

  lemma EnablePse(cr4: Word)
    ensures Or(cr4, 0x10) < 0x1_0000_0000 && Or(cr4, 0x10) / 0x10 % 2 == 1
  {
    assert Or(cr4, 0x10) < 0x1_0000_0000 by { Pow2Values(); OrLow(cr4, 0x10, 32); }
    assert Or(cr4, 0x10) / 0x10 % 2 == 1 by { Pow2Values(); OrBit(cr4, 0x10, 4); }
  }

  method EnablePaging(hw: Machine)
    modifies hw`cr0, hw`cr4
    ensures hw.Paging()
    ensures hw.cr0 == Or(old(hw.cr0), 0x8000_0000) && hw.cr4 == Or(old(hw.cr4), 0x10)
  {
    EnablePg(hw.cr0);
    EnablePse(hw.cr4);
    hw.cr4 := Or(hw.cr4, 0x10);
    hw.cr0 := Or(hw.cr0, 0x8000_0000);
  }

  lemma JoinCr3(cr3: Word, root: Page)
    requires cr3 < 0x1000
    ensures Or(cr3, root * 0x1000) == root * 0x1000 + cr3
  {
    Pow2Values();
    OrCommutes(cr3, root * 0x1000);
    OrSplit(root, 0, cr3, 12, 0x1000);
  }

  /** entry_init_paging: CR3 is or-ed with the boot directory's address, so its own
      address bits must be clear. */
  method EntryInitPaging(hw: Machine, L: Layout)
    requires hw.Valid() && L.Ok() && hw.cr3 < 0x1000 && BootMap(hw.Mem(), L)
    modifies hw`cr0, hw`cr3, hw`cr4, hw`tlb
    ensures hw.Paging() && hw.Root() == L.boot && Coherent(hw.tlb, hw.Mem(), hw.Root())
    ensures hw.cr3 == L.boot * 0x1000 + old(hw.cr3)
    ensures hw.cr0 == Or(old(hw.cr0), 0x8000_0000) && hw.cr4 == Or(old(hw.cr4), 0x10)
  {
    JoinCr3(hw.cr3, L.boot);
    hw.LoadCr3(Or(hw.cr3, L.boot * 0x1000));
    EnablePaging(hw);
  }

  /** memset(…, 0, …) over whole pages, through the current translation. */
  method ZeroPages(hw: Machine, L: Layout, first: Page, count: nat)
    requires hw.Valid() && hw.Paging() && L.Ok() && hw.Root() == L.boot
    requires forall p :: first <= p < first + count ==> L.Owns(p)
    requires BootMap(hw.Mem(), L) && Coherent(hw.tlb, hw.Mem(), L.boot)
    modifies hw`tlb, hw.ram
    ensures BootMap(hw.Mem(), L) && Coherent(hw.tlb, hw.Mem(), L.boot)
    ensures forall w :: 0 <= w < RAM_WORDS ==>
              hw.Mem()[w] == if first * 1024 <= w < (first + count) * 1024 then 0 else old(hw.Mem())[w]
  {
    var i := 0;
    while i < count * 1024
      invariant 0 <= i <= count * 1024
      invariant BootMap(hw.Mem(), L) && Coherent(hw.tlb, hw.Mem(), L.boot)
      invariant forall w :: 0 <= w < RAM_WORDS ==>
                  hw.Mem()[w] == if first * 1024 <= w < first * 1024 + i then 0 else old(hw.Mem())[w]
    {
      ghost var m := hw.Mem();
      assert L.Owns(first + i / 1024);
      StoreStructure(hw, L, first + i / 1024, i % 1024, 0);
      BootUntouched(m, hw.Mem(), L, 0);
      BootNeverStale(hw.tlb, m, hw.Mem(), L);
      i := i + 1;
    }
  }

  // --- The spaces paging_init passes through ---

  predicate InWindow(region: int, n: nat) { 768 <= region < 768 + n }

  /** The first `n` windows, and nothing else. */
  function WindowSpace(n: nat): Space
    requires n <= 256
  {
    Space(map p: Page | 0xC0000 <= p < 0x100000 && InWindow(p / 1024, n) :: p - 0xC0000,
          set i | 768 <= i < 1024 && InWindow(i, n),
          {})
  }

  /** The space paging_init leaves behind. */
  function BootSpace(L: Layout): Space
    requires L.Ok()
  {
    var w := WindowSpace(L.Windows());
    Space(w.pages[0xFEC00 := 0xFEC00][0xFEE00 := 0xFEE00], w.large, {1019})
  }

  lemma ZeroRefinesEmpty(m: Memory, L: Layout)
    requires L.Ok()
    requires forall p, i :: L.Owns(p) && 0 <= i < 1024 ==> m[WordOf(p, i)] == 0
    ensures PoolSound(m, L) && Refines(m, L, WindowSpace(0))
  {
    assert forall i :: 0 <= i < 1024 ==> Pde(m, L, i) == 0;
    forall k | 0 <= k < POOL
      ensures !Used(m, L, k) && !Referenced(m, L, k)
    {
      assert forall j :: 0 <= j < 1024 ==> PoolEntry(m, L, k, j) == 0;
    }
  }

  /** The mapping loop's step. */
  function WindowOp(n: nat): Op
    requires n <= 255
  {
    Op4Mb(n * 0x400000, n * 0x400000 + VMA, KERNEL_FLAGS)
  }

  lemma WindowOpFields(n: nat, p: Page)
    requires n <= 255
    ensures WindowOp(n).Region() == 768 + n && FlagsOk(WindowOp(n).flags)
    ensures WindowOp(n).Covers(p) ==> WindowOp(n).Frame(p) == Some(p - 0xC0000)
  {
  }

  lemma WindowStep(L: Layout, n: nat)
    requires L.Ok() && n < L.Windows()
    ensures WindowOp(n).Legal(L, WindowSpace(n))
    ensures AbsStep(WindowSpace(n), WindowOp(n)) == WindowSpace(n + 1)
  {
    var s, s', op := AbsStep(WindowSpace(n), WindowOp(n)), WindowSpace(n + 1), WindowOp(n);
    WindowOpFields(n, 0);
    assert s.large == s'.large;
    forall p: Page
      ensures s.Lookup(p) == s'.Lookup(p)
    {
      WindowOpFields(n, p);
      AbsStepLookup(WindowSpace(n), op, p);
    }
    SameLookups(s, s');
  }

  lemma SameLookups(s: Space, s': Space)
    requires forall p: Page :: s.Lookup(p) == s'.Lookup(p)
    ensures s.pages == s'.pages
  {
    forall p: Page
      ensures p in s.pages <==> p in s'.pages
      ensures p in s.pages ==> s.pages[p] == s'.pages[p]
    {
      assert s.Lookup(p) == s'.Lookup(p);
    }
    assert s.pages.Keys == s'.pages.Keys;
  }

  lemma ApicSteps(L: Layout)
    requires L.Ok() && L.ApicFree()
    ensures var s, a, b := WindowSpace(L.Windows()), Op4Kb(IOAPIC, IOAPIC, APIC_FLAGS), Op4Kb(LAPIC, LAPIC, APIC_FLAGS);
            && a.Legal(L, s) && b.Legal(L, AbsStep(s, a))
            && AbsStep(AbsStep(s, a), b) == BootSpace(L)
  {
    assert IOAPIC / 0x400000 == 1019 && LAPIC / 0x400000 == 1019;
  }

  /** What paging_init keeps while it still runs on the boot directory. */
  ghost predicate Building(m: Memory, L: Layout, s: Space)
    requires L.Ok()
  {
    BootMap(m, L) && PoolSound(m, L) && Refines(m, L, s)
  }

  ghost predicate OnBoot(hw: Machine, L: Layout)
    reads hw, hw.ram
  {
    hw.Valid() && hw.Paging() && hw.Root() == L.boot && Coherent(hw.tlb, hw.Mem(), L.boot)
  }

  lemma BuildingStep(m: Memory, L: Layout, s: Space, op: Op)
    requires L.Ok() && Building(m, L, s) && op.Legal(L, s)
    ensures Obeys(m, L, op)
    ensures Building(Step(m, L, op), L, AbsStep(s, op)) && OnlyOwned(m, Step(m, L, op), L)
  {
    StepRefines(m, L, s, op);
    MapOnlyOwned(m, L, op.phyaddr, op.lin, op.flags);
    BootUntouched(m, Step(m, L, op), L, 0);
  }

  lemma OnlyOwnedTrans(m: Memory, m1: Memory, m2: Memory, L: Layout)
    requires OnlyOwned(m, m1, L) && OnlyOwned(m1, m2, L)
    ensures OnlyOwned(m, m2, L)
  {
    forall p: Page, i | 0 <= i < 1024 && !L.Owns(p)
      ensures m2[WordOf(p, i)] == m[WordOf(p, i)]
    {
      assert m1[WordOf(p, i)] == m[WordOf(p, i)];
    }
  }

  // --- Every word of the structures ---

  /** The directory entries of the first `n` windows, present, writable and of 4 MiB; all other
      words of the directory and the pool are 0. */
  ghost predicate WindowEntries(m: Memory, L: Layout, n: nat)
    requires L.Ok()
  {
    && (forall i :: 0 <= i < 1024 ==> Pde(m, L, i) == if 768 <= i < 768 + n then (i - 768) * 0x400000 + 0x83 else 0)
    && (forall k, j :: 0 <= k < 10 && 0 <= j < 1024 ==> PoolEntry(m, L, k, j) == 0)
  }

  /** One more table entry, for the first pool table, present and writable, and in it the two
      APIC pages: present, writable, write-through and not cached. */
  ghost predicate FinalEntries(m: Memory, L: Layout)
    requires L.Ok()
  {
    && (forall i :: 0 <= i < 1024 ==>
          Pde(m, L, i) ==
          if 768 <= i < 768 + L.Windows() then (i - 768) * 0x400000 + 0x83
          else if i == 1019 then L.pool * 0x1000 + 0x3
          else 0)
    && (forall k, j :: 0 <= k < 10 && 0 <= j < 1024 ==>
          PoolEntry(m, L, k, j) ==
          if k == 0 && j == 0 then 0xFEC0_001B else if k == 0 && j == 0x200 then 0xFEE0_001B else 0)
  }

  lemma KernelEntry(n: nat)
    requires n < 256
    ensures Or(0x80, KERNEL_FLAGS) == 0x83 && n * 0x400000 / 0x400000 == n
  {
    DivModUnique(n * 0x400000, 0x400000, n, 0);
  }

  lemma WindowEntriesStep(m: Memory, L: Layout, n: nat)
    requires L.Ok() && n < L.Windows() && WindowEntries(m, L, n)
    ensures WindowEntries(Map4Mb(m, L, n * 0x400000, n * 0x400000 + VMA, KERNEL_FLAGS), L, n + 1)
  {
    var m' := Map4Mb(m, L, n * 0x400000, n * 0x400000 + VMA, KERNEL_FLAGS);
    assert (n * 0x400000 + VMA) / 0x400000 == 768 + n by { WindowOpFields(n, 0); }
    Map4MbEntries(m, L, n * 0x400000, n * 0x400000 + VMA, KERNEL_FLAGS);
    assert Pde(m', L, 768 + n) == n * 0x400000 + 0x83 by { KernelEntry(n); }
  }

  /** The table is the pool's first, and the page lands at `j` in it. */
  lemma ApicEntry(m: Memory, L: Layout, address: Word, j: int)
    requires L.Ok() && address / 0x400000 == 1019 && TableIndex(address) == j
    requires PoolSound(m, L) && Legal4Kb(m, L, address) && TableFor(m, L, address) == L.pool
    ensures var m' := Map4Kb(m, L, address, address, APIC_FLAGS);
            && (forall i :: 0 <= i < 1024 && i != 1019 ==> Pde(m', L, i) == Pde(m, L, i))
            && (forall k, i :: 0 <= k < 10 && 0 <= i < 1024 ==>
                  PoolEntry(m', L, k, i) ==
                  if k == 0 && i == j then address / 0x1000 * 0x1000 + 0x1B else PoolEntry(m, L, k, i))
  {
    Map4KbEntries(m, L, address, address, APIC_FLAGS);
    var e := PteWord(address, APIC_FLAGS);
    assert e == e / 0x1000 * 0x1000 + e % 0x1000;
  }

  lemma FirstTableIsFree(m: Memory, L: Layout)
    requires L.Ok() && WindowEntries(m, L, L.Windows())
    ensures FirstFree(m, L, 0) == 0
  {
    assert forall j :: 0 <= j < 1024 ==> PoolEntry(m, L, 0, j) == 0;
    assert !Used(m, L, 0);
  }

  /** After the first APIC page the region has a table, the pool's first. */
  lemma FirstApic(m: Memory, L: Layout)
    requires L.Ok() && L.ApicFree() && PoolSound(m, L) && WindowEntries(m, L, L.Windows())
    ensures Legal4Kb(m, L, IOAPIC)
    ensures var m1 := Map4Kb(m, L, IOAPIC, IOAPIC, APIC_FLAGS);
            && Pde(m1, L, 1019) == L.pool * 0x1000 + 0x3
            && (forall i :: 0 <= i < 1024 && i != 1019 ==> Pde(m1, L, i) == Pde(m, L, i))
            && (forall k, i :: 0 <= k < 10 && 0 <= i < 1024 ==>
                  PoolEntry(m1, L, k, i) == if k == 0 && i == 0 then 0xFEC0_001B else 0)
  {
    FirstTableIsFree(m, L);
    assert Pde(m, L, 1019) == 0;
    ApicEntry(m, L, IOAPIC, 0);
    Map4KbEntries(m, L, IOAPIC, IOAPIC, APIC_FLAGS);
    var m1 := Map4Kb(m, L, IOAPIC, IOAPIC, APIC_FLAGS);
    assert m1[WordOf(L.dir, 1019)] == TableEntry(L.pool);
    var e := TableEntry(L.pool);
    assert e == e / 0x1000 * 0x1000 + e % 0x1000;
  }

  lemma BothApics(m: Memory, L: Layout)
    requires L.Ok() && L.ApicFree() && PoolSound(m, L) && WindowEntries(m, L, L.Windows())
    ensures FinalEntries(Map4Kb(Map4Kb(m, L, IOAPIC, IOAPIC, APIC_FLAGS), L, LAPIC, LAPIC, APIC_FLAGS), L)
  {
    FirstApic(m, L);
    var m1 := Map4Kb(m, L, IOAPIC, IOAPIC, APIC_FLAGS);
    Map4KbKeeps(m, L, IOAPIC, IOAPIC, APIC_FLAGS);
    DivModUnique(L.pool * 0x1000 + 3, 0x1000, L.pool, 3);
    SplitEntry(L.pool * 0x1000 + 3, L.pool, 3);
    ApicEntry(m1, L, LAPIC, 0x200);
    SecondApicTable(m1, L);
  }

  /** map_4kb over a present table entry leaves the directory alone. */
  lemma SecondApicTable(m: Memory, L: Layout)
    requires L.Ok() && PoolSound(m, L) && IsTable(Pde(m, L, 1019))
    ensures Pde(Map4Kb(m, L, LAPIC, LAPIC, APIC_FLAGS), L, 1019) == Pde(m, L, 1019)
  {
    assert L.pool <= Pde(m, L, 1019) / 0x1000 < L.pool + POOL;
  }

  method ClearStructures(hw: Machine, L: Layout)
    requires L.Ok() && OnBoot(hw, L) && BootMap(hw.Mem(), L)
    modifies hw`tlb, hw.ram
    ensures OnBoot(hw, L) && Building(hw.Mem(), L, WindowSpace(0)) && WindowEntries(hw.Mem(), L, 0)
    ensures OnlyOwned(old(hw.Mem()), hw.Mem(), L)
  {
    ZeroPages(hw, L, L.dir, 1);
    ZeroPages(hw, L, L.pool, POOL);
    ZeroRefinesEmpty(hw.Mem(), L);
  }

  lemma WindowBuilds(m: Memory, L: Layout, n: nat)
    requires L.Ok() && n < L.Windows() && Building(m, L, WindowSpace(n))
    ensures Legal4Mb(m, L, n * 0x400000 + VMA)
    ensures var m' := Map4Mb(m, L, n * 0x400000, n * 0x400000 + VMA, KERNEL_FLAGS);
            Building(m', L, WindowSpace(n + 1)) && OnlyOwned(m, m', L)
  {
    WindowStep(L, n);
    BuildingStep(m, L, WindowSpace(n), WindowOp(n));
  }

  method MapOneWindow(hw: Machine, L: Layout, mapAddr: Word, ghost n: nat)
    requires L.Ok() && n < L.Windows() && mapAddr == n * 0x400000
    requires OnBoot(hw, L) && Building(hw.Mem(), L, WindowSpace(n)) && WindowEntries(hw.Mem(), L, n)
    modifies hw`tlb, hw.ram
    ensures OnBoot(hw, L) && Building(hw.Mem(), L, WindowSpace(n + 1)) && WindowEntries(hw.Mem(), L, n + 1)
    ensures OnlyOwned(old(hw.Mem()), hw.Mem(), L)
  {
    WindowBuilds(hw.Mem(), L, n);
    WindowEntriesStep(hw.Mem(), L, n);
    PagingMap4Mb(hw, L, mapAddr, mapAddr + VMA, KERNEL_FLAGS);
  }

  /** The mapping loop: its 32-bit counter never wraps. */
  method MapKernel(hw: Machine, L: Layout)
    requires L.Ok() && OnBoot(hw, L) && Building(hw.Mem(), L, WindowSpace(0)) && WindowEntries(hw.Mem(), L, 0)
    modifies hw`tlb, hw.ram
    ensures OnBoot(hw, L) && Building(hw.Mem(), L, WindowSpace(L.Windows()))
    ensures WindowEntries(hw.Mem(), L, L.Windows())
    ensures OnlyOwned(old(hw.Mem()), hw.Mem(), L)
  {
    ghost var m := hw.Mem();
    var mapAddr: Word := 0;
    ghost var n := 0;
    while mapAddr <= L.limit
      invariant mapAddr == n * 0x400000 && 0 <= n <= L.Windows()
      invariant OnBoot(hw, L) && Building(hw.Mem(), L, WindowSpace(n)) && WindowEntries(hw.Mem(), L, n)
      invariant OnlyOwned(m, hw.Mem(), L)
    {
      ghost var m1 := hw.Mem();
      MapOneWindow(hw, L, mapAddr, n);
      OnlyOwnedTrans(m, m1, hw.Mem(), L);
      mapAddr := mapAddr + 0x400000;
      n := n + 1;
    }
  }

  lemma PageBuilds(m: Memory, L: Layout, address: Word, s: Space, s': Space)
    requires L.Ok() && Building(m, L, s) && Op4Kb(address, address, APIC_FLAGS).Legal(L, s)
    requires s' == AbsStep(s, Op4Kb(address, address, APIC_FLAGS))
    ensures Legal4Kb(m, L, address)
    ensures var m' := Map4Kb(m, L, address, address, APIC_FLAGS); Building(m', L, s') && OnlyOwned(m, m', L)
  {
    BuildingStep(m, L, s, Op4Kb(address, address, APIC_FLAGS));
  }

  /** One 4 KiB mapping while still on the boot directory. */
  method MapOnePage(hw: Machine, L: Layout, address: Word, ghost s: Space, ghost s': Space)
    requires L.Ok() && OnBoot(hw, L) && Building(hw.Mem(), L, s) && Op4Kb(address, address, APIC_FLAGS).Legal(L, s)
    requires s' == AbsStep(s, Op4Kb(address, address, APIC_FLAGS))
    modifies hw`tlb, hw.ram
    ensures OnBoot(hw, L) && Building(hw.Mem(), L, s')
    ensures hw.Mem() == Map4Kb(old(hw.Mem()), L, address, address, APIC_FLAGS)
    ensures OnlyOwned(old(hw.Mem()), hw.Mem(), L)
  {
    PageBuilds(hw.Mem(), L, address, s, s');
    var fault := PagingMap4Kb(hw, L, address, address, APIC_FLAGS);
  }

  method MapApics(hw: Machine, L: Layout)
    requires L.Ok() && L.ApicFree() && OnBoot(hw, L) && Building(hw.Mem(), L, WindowSpace(L.Windows()))
    requires WindowEntries(hw.Mem(), L, L.Windows())
    modifies hw`tlb, hw.ram
    ensures OnBoot(hw, L) && Building(hw.Mem(), L, BootSpace(L)) && FinalEntries(hw.Mem(), L)
    ensures OnlyOwned(old(hw.Mem()), hw.Mem(), L)
  {
    ghost var m, s := hw.Mem(), WindowSpace(L.Windows());
    ApicSteps(L);
    ghost var s1 := AbsStep(s, Op4Kb(IOAPIC, IOAPIC, APIC_FLAGS));
    MapOnePage(hw, L, IOAPIC, s, s1);
    ghost var m1 := hw.Mem();
    MapOnePage(hw, L, LAPIC, s1, BootSpace(L));
    BothApics(m, L);
    OnlyOwnedTrans(m, m1, hw.Mem(), L);
  }

  /** The window is part of the space paging_init ends with. */
  lemma BootSpaceHasWindow(m: Memory, L: Layout)
    requires L.Ok() && L.ApicFree() && Refines(m, L, BootSpace(L))
    ensures Window(m, L, L.Windows()) && Home(m, L)
  {
    forall i | 0 <= i < L.Windows()
      ensures WindowAt(m, L, i)
    {
      var p := 0xC0000 + i * 1024;
      assert p / 1024 == 768 + i && p % 1024 == 0;
      assert 768 + i in BootSpace(L).large;
      assert WalkPage(m, L.dir, p) == BootSpace(L).Lookup(p) == Some(i * 1024);
    }
  }

  /** paging_init: from the boot directory to the final one. */
  method PagingInit(hw: Machine, L: Layout)
    requires L.Ok() && L.ApicFree() && OnBoot(hw, L) && BootMap(hw.Mem(), L)
    modifies hw`cr0, hw`cr3, hw`cr4, hw`tlb, hw.ram
    ensures hw.Valid() && hw.Paging() && hw.Root() == L.dir && hw.cr3 == L.dir * 0x1000
    ensures hw.cr0 == Or(old(hw.cr0), 0x8000_0000) && hw.cr4 == Or(old(hw.cr4), 0x10)
    ensures Coherent(hw.tlb, hw.Mem(), L.dir)
    ensures Inv(hw.Mem(), L) && Window(hw.Mem(), L, L.Windows()) && Refines(hw.Mem(), L, BootSpace(L))
    ensures FinalEntries(hw.Mem(), L)
    ensures OnlyOwned(old(hw.Mem()), hw.Mem(), L)
  {
    ghost var m := hw.Mem();
    ClearStructures(hw, L);
    ghost var m1 := hw.Mem();
    MapKernel(hw, L);
    OnlyOwnedTrans(m, m1, hw.Mem(), L);
    ghost var m2 := hw.Mem();
    MapApics(hw, L);
    OnlyOwnedTrans(m, m2, hw.Mem(), L);
    BootSpaceHasWindow(hw.Mem(), L);
    hw.LoadCr3(L.dir * 0x1000);
    EnablePaging(hw);
  }
}
