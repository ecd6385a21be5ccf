/**
 ksrc/mmu/paging.c run on the machine of module Mmu: every load and store of the
 directory and of the tables goes through the current translation, TLB included.
 */
module Paging {
  import opened Words
  import opened Mmu
  import opened PagingSpec
  import opened PagingRuns

  /** Only the directory and the pool differ. */
  ghost predicate OnlyOwned(m: Memory, m': Memory, L: Layout) {
    forall p: Page, i :: 0 <= i < 1024 && !L.Owns(p) ==> m'[WordOf(p, i)] == m[WordOf(p, i)]
  }

  lemma BootUntouched(m: Memory, m': Memory, L: Layout, p: Page)
    requires L.Ok() && BootMap(m, L) && OnlyOwned(m, m', L)
    ensures BootMap(m', L)
    ensures WalkEntry(m', L.boot, p) == WalkEntry(m, L.boot, p)
  {
    forall i | 0 <= i < 1024
      ensures BootAt(m', L, i)
    {
      assert BootAt(m, L, i);
    }
    assert BootAt(m, L, p / 1024) && BootAt(m', L, p / 1024);
    BootWalk(m, L, p);
    BootWalk(m', L, p);
  }

  lemma MapOnlyOwned(m: Memory, L: Layout, phyaddr: Word, lin: Word, flags: Word)
    requires L.Ok() && flags < 0x1000
    ensures OnlyOwned(m, Map4Mb(m, L, phyaddr, lin, flags), L) && OnlyOwned(m, WithTable(m, L, lin), L)
    ensures PoolSound(m, L) && Legal4Kb(m, L, lin) ==> OnlyOwned(m, Map4Kb(m, L, phyaddr, lin, flags), L)
  {
  }

  // --- Translations between the stores of one call ---

  /** What may be cached after map_4mb: 4 MiB translations in its region, the rest as before. */
  lemma Map4MbEntry(m: Memory, L: Layout, phyaddr: Word, lin: Word, flags: Word, p: Page)
    requires L.Ok() && flags < 0x1000 && PoolSound(m, L)
    ensures var e := WalkEntry(Map4Mb(m, L, phyaddr, lin, flags), L.dir, p);
            if p / 1024 == lin / 0x400000 then
              e == if Present(flags) then Some(Entry(LargeFrame(phyaddr, p), true)) else None
            else e == WalkEntry(m, L.dir, p)
  {
    var m' := Map4Mb(m, L, phyaddr, lin, flags);
    Map4MbWalk(m, L, phyaddr, lin, flags, p);
    Map4MbEntries(m, L, phyaddr, lin, flags);
    assert PdeFor(m', L.dir, p) == Pde(m', L, p / 1024) && PdeFor(m, L.dir, p) == Pde(m, L, p / 1024);
  }

  /** After map_4mb's store and before its INVLPG, only the remapped region can be stale. */
  lemma StaleOnlyInRegion(t: Tlb, m: Memory, L: Layout, root: Page, phyaddr: Word, lin: Word, flags: Word)
    requires L.Ok() && flags < 0x1000 && PoolSound(m, L) && Live(m, L, root)
    requires Justified(t, m, Map4Mb(m, L, phyaddr, lin, flags), root)
    ensures CoherentBut(t, Map4Mb(m, L, phyaddr, lin, flags), root,
                        lin / 0x400000 * 1024, lin / 0x400000 * 1024 + 1024)
  {
    var m' := Map4Mb(m, L, phyaddr, lin, flags);
    MapOnlyOwned(m, L, phyaddr, lin, flags);
    forall p | p in t && p / 1024 != lin / 0x400000
      ensures WalkEntry(m', root, p) == WalkEntry(m, root, p)
    {
      if root == L.boot { BootUntouched(m, m', L, p); } else { Map4MbEntry(m, L, phyaddr, lin, flags, p); }
    }
  }

  /** Under the boot directory nothing is ever stale. */
  lemma BootNeverStale(t: Tlb, m: Memory, m': Memory, L: Layout)
    requires L.Ok() && BootMap(m, L) && OnlyOwned(m, m', L)
    requires Justified(t, m, m', L.boot)
    ensures Coherent(t, m', L.boot)
  {
    forall p | p in t
      ensures WalkEntry(m', L.boot, p) == WalkEntry(m, L.boot, p)
    {
      BootUntouched(m, m', L, p);
    }
  }

  lemma NewEntryWalk(m: Memory, L: Layout, i: int, e: Word, p: Page)
    requires L.Ok() && PoolSound(m, L) && 0 <= i < 1024 && p / 1024 != i
    ensures WalkEntry(m[WordOf(L.dir, i) := e], L.dir, p) == WalkEntry(m, L.dir, p)
    ensures WalkPage(m[WordOf(L.dir, i) := e], L.dir, p) == WalkPage(m, L.dir, p)
  {
    var m', pde := m[WordOf(L.dir, i) := e], Pde(m, L, p / 1024);
    assert Pde(m', L, p / 1024) == pde;
    if IsTable(pde) {
      var k := pde / 0x1000 - L.pool;
      assert PoolEntry(m', L, k, p % 1024) == PoolEntry(m, L, k, p % 1024);
    }
  }

  /** Filling in a directory entry that was not present leaves nothing stale. */
  lemma NewEntryIsSilent(t: Tlb, m: Memory, L: Layout, root: Page, i: int, e: Word)
    requires L.Ok() && PoolSound(m, L) && Live(m, L, root) && 0 <= i < 1024 && !Present(Pde(m, L, i))
    requires Justified(t, m, m[WordOf(L.dir, i) := e], root)
    ensures Coherent(t, m[WordOf(L.dir, i) := e], root)
  {
    var m' := m[WordOf(L.dir, i) := e];
    if root == L.boot {
      BootNeverStale(t, m, m', L);
    } else {
      forall p | p in t && p / 1024 != i
        ensures WalkEntry(m', root, p) == WalkEntry(m, root, p)
      {
        NewEntryWalk(m, L, i, e, p);
      }
      forall p: Page | p / 1024 == i
        ensures WalkEntry(m, root, p) == None
      {
      }
    }
  }

  /** So map_4kb's first store, whichever table it enters, leaves nothing stale. */
  lemma FreshTableIsSilent(t: Tlb, m: Memory, L: Layout, root: Page, lin: Word)
    requires L.Ok() && PoolSound(m, L) && Live(m, L, root)
    requires Justified(t, m, WithTable(m, L, lin), root)
    ensures Coherent(t, WithTable(m, L, lin), root)
  {
    var i := lin / 0x400000;
    if !Present(Pde(m, L, i)) {
      NewEntryIsSilent(t, m, L, root, i, TableEntry(TableFor(m, L, lin)));
    }
  }

  /** A table from the pool changes no translation at all. */
  lemma WithTableWalk(m: Memory, L: Layout, lin: Word, p: Page)
    requires L.Ok() && PoolSound(m, L) && Legal4Kb(m, L, lin)
    ensures WalkEntry(WithTable(m, L, lin), L.dir, p) == WalkEntry(m, L.dir, p)
    ensures WalkPage(WithTable(m, L, lin), L.dir, p) == WalkPage(m, L.dir, p)
  {
    var i := lin / 0x400000;
    if !Present(Pde(m, L, i)) {
      if p / 1024 == i {
        FreshTableIsEmpty(m, L, lin, p);
      } else {
        NewEntryWalk(m, L, i, TableEntry(TableFor(m, L, lin)), p);
      }
    }
  }

  lemma FreshTableIsEmpty(m: Memory, L: Layout, lin: Word, p: Page)
    requires L.Ok() && PoolSound(m, L) && Legal4Kb(m, L, lin) && !Present(Pde(m, L, lin / 0x400000))
    requires p / 1024 == lin / 0x400000
    ensures WalkPage(WithTable(m, L, lin), L.dir, p) == None
  {
    var m', k := WithTable(m, L, lin), FirstFree(m, L, 0);
    WithTableEntries(m, L, lin);
    assert PoolEntry(m', L, k, p % 1024) == PoolEntry(m, L, k, p % 1024);
    assert !Used(m, L, k);
  }

  lemma Map4KbEntry(m: Memory, L: Layout, phyaddr: Word, lin: Word, flags: Word, p: Page)
    requires L.Ok() && flags < 0x1000 && PoolSound(m, L) && Legal4Kb(m, L, lin) && p != lin / 0x1000
    ensures WalkEntry(Map4Kb(m, L, phyaddr, lin, flags), L.dir, p) == WalkEntry(WithTable(m, L, lin), L.dir, p)
  {
    var m1, m' := WithTable(m, L, lin), Map4Kb(m, L, phyaddr, lin, flags);
    WithTableWalk(m, L, lin, p);
    Map4KbWalk(m, L, phyaddr, lin, flags, p);
    WithTableEntries(m, L, lin);
    Map4KbEntries(m, L, phyaddr, lin, flags);
    var i := lin / 0x400000;
    assert PdeFor(m1, L.dir, p) == Pde(m1, L, p / 1024) && PdeFor(m', L.dir, p) == Pde(m', L, p / 1024);
    assert p / 1024 == i ==> !PageSize(Pde(m1, L, i)) && !PageSize(Pde(m', L, i));
  }

  /** After map_4kb's second store and before its INVLPG, only the remapped page can be stale. */
  lemma StaleOnlyAtPage(t: Tlb, m: Memory, L: Layout, root: Page, phyaddr: Word, lin: Word, flags: Word)
    requires L.Ok() && flags < 0x1000 && PoolSound(m, L) && Live(m, L, root) && Legal4Kb(m, L, lin)
    requires Justified(t, WithTable(m, L, lin), Map4Kb(m, L, phyaddr, lin, flags), root)
    ensures CoherentBut(t, Map4Kb(m, L, phyaddr, lin, flags), root, lin / 0x1000, lin / 0x1000 + 1)
  {
    var m1, m' := WithTable(m, L, lin), Map4Kb(m, L, phyaddr, lin, flags);
    MapOnlyOwned(m, L, phyaddr, lin, flags);
    forall p | p in t && p != lin / 0x1000
      ensures WalkEntry(m', root, p) == WalkEntry(m1, root, p)
    {
      if root == L.boot {
        BootUntouched(m, m1, L, p);
        BootUntouched(m, m', L, p);
      } else {
        Map4KbEntry(m, L, phyaddr, lin, flags, p);
      }
    }
  }

  // --- The current directory stays usable ---

  /** map_4mb takes the structures away exactly when it moves or unmaps a window that shows them while
      the final directory is current. */
  lemma Map4MbLive(m: Memory, L: Layout, root: Page, phyaddr: Word, lin: Word, flags: Word)
    requires L.Ok() && Live(m, L, root) && flags < 0x1000
    ensures Live(Map4Mb(m, L, phyaddr, lin, flags), L, root) <==>
            root == L.boot || Op4Mb(phyaddr, lin, flags).KeepsHome(L)
  {
    var m' := Map4Mb(m, L, phyaddr, lin, flags);
    MapOnlyOwned(m, L, phyaddr, lin, flags);
    if root == L.boot { BootUntouched(m, m', L, 0); } else { Map4MbHome(m, L, phyaddr, lin, flags); }
  }

  lemma WithTableLive(m: Memory, L: Layout, root: Page, lin: Word)
    requires L.Ok() && Live(m, L, root)
    ensures Live(WithTable(m, L, lin), L, root)
  {
    var m' := WithTable(m, L, lin);
    if root == L.boot {
      MapOnlyOwned(m, L, 0, lin, 0);
      BootUntouched(m, m', L, 0);
    } else {
      forall i | 0 <= i < 256 && L.Houses(i)
        ensures WindowAt(m', L, i)
      {
        assert WindowAt(m, L, i);
      }
    }
  }

  lemma Map4KbLive(m: Memory, L: Layout, root: Page, phyaddr: Word, lin: Word, flags: Word)
    requires L.Ok() && PoolSound(m, L) && Live(m, L, root) && flags < 0x1000 && Legal4Kb(m, L, lin)
    ensures Live(Map4Kb(m, L, phyaddr, lin, flags), L, root)
  {
    var m' := Map4Kb(m, L, phyaddr, lin, flags);
    if root == L.boot {
      MapOnlyOwned(m, L, phyaddr, lin, flags);
      BootUntouched(m, m', L, 0);
    } else {
      forall i | 0 <= i < 256 && L.Houses(i)
        ensures WindowAt(m', L, i)
      {
        Map4KbWindows(m, L, phyaddr, lin, flags, i);
      }
    }
  }

  // --- The code ---

  /** Store a word of a structure page at its higher-half address. */
  method StoreStructure(hw: Machine, L: Layout, p: Page, i: nat, v: Word)
    requires hw.Valid() && hw.Paging() && L.Ok() && L.Owns(p) && i < 1024
    requires Live(hw.Mem(), L, hw.Root()) && Coherent(hw.tlb, hw.Mem(), hw.Root())
    modifies hw`tlb, hw.ram
    ensures hw.Mem() == old(hw.Mem())[WordOf(p, i) := v]
    ensures Justified(hw.tlb, old(hw.Mem()), hw.Mem(), hw.Root())
  {
    SelfMapped(hw.Mem(), L, hw.Root(), p, i);
    hw.Store(HighOf(p, i), v, PhysOf(p, i));
  }

  method LoadStructure(hw: Machine, L: Layout, p: Page, i: nat) returns (v: Word)
    requires hw.Valid() && hw.Paging() && L.Ok() && L.Owns(p) && i < 1024
    requires Live(hw.Mem(), L, hw.Root()) && Coherent(hw.tlb, hw.Mem(), hw.Root())
    modifies hw`tlb
    ensures Coherent(hw.tlb, hw.Mem(), hw.Root())
    ensures v == hw.Mem()[WordOf(p, i)]
  {
    SelfMapped(hw.Mem(), L, hw.Root(), p, i);
    v := hw.Load(HighOf(p, i), PhysOf(p, i));
  }

  /** The inner loop of paging_get_page_table: does table `idx` hold a present entry? */
  method IsUsed(hw: Machine, L: Layout, idx: nat) returns (used: bool)
    requires hw.Valid() && hw.Paging() && L.Ok() && idx < POOL
    requires Live(hw.Mem(), L, hw.Root()) && Coherent(hw.tlb, hw.Mem(), hw.Root())
    modifies hw`tlb
    ensures Coherent(hw.tlb, hw.Mem(), hw.Root()) && used == Used(hw.Mem(), L, idx)
  {
    for entry := 0 to 1024
      invariant forall j :: 0 <= j < entry ==> !Present(PoolEntry(hw.Mem(), L, idx, j))
      invariant Coherent(hw.tlb, hw.Mem(), hw.Root())
    {
      var e := LoadStructure(hw, L, L.pool + idx, entry);
      assert e == PoolEntry(hw.Mem(), L, idx, entry);
      if Present(e) { return true; }
    }
    used := false;
  }

  /** paging_get_page_table: the physical address of the first table without a present
      entry, NULL (0) when all ten have one. */
  method GetPageTable(hw: Machine, L: Layout) returns (table: Word)
    requires hw.Valid() && hw.Paging() && L.Ok()
    requires Live(hw.Mem(), L, hw.Root()) && Coherent(hw.tlb, hw.Mem(), hw.Root())
    modifies hw`tlb
    ensures Coherent(hw.tlb, hw.Mem(), hw.Root())
    ensures var k := FirstFree(hw.Mem(), L, 0);
            table == if k == POOL then 0 else (L.pool + k) * 0x1000
  {
    var idx := 0;
    while idx < POOL
      invariant 0 <= idx <= POOL
      invariant FirstFree(hw.Mem(), L, 0) == FirstFree(hw.Mem(), L, idx)
      invariant Coherent(hw.tlb, hw.Mem(), hw.Root())
    {
      var used := IsUsed(hw, L, idx);
      if !used { return (L.pool + idx) * 0x1000; }
      idx := idx + 1;
    }
    table := 0;
  }

  /** Which translations map_4mb can leave stale: a table was current in the region, and a page
      of it other than the one asked for was mapped. */
  ghost predicate LeavesStale(m: Memory, L: Layout, lin: Word)
    requires L.Ok()
  {
    !Legal4Mb(m, L, lin) && HasOtherEntry(m, L, lin)
  }

  lemma SmallNeighbour(m: Memory, L: Layout, lin: Word, p: Page)
    requires L.Ok() && p / 1024 == lin / 0x400000 && p != lin / 0x1000
    requires WalkEntry(m, L.dir, p).Some? && !WalkEntry(m, L.dir, p).value.large
    ensures LeavesStale(m, L, lin)
  {
    PageInRegion(lin, p);
    assert IsTable(Pde(m, L, p / 1024));
    assert Present(m[WordOf(TableFor(m, L, lin), p % 1024)]);
  }

  /** All that map_4mb's store can make stale its INVLPG drops, but for those. */
  lemma PdeStore(t: Tlb, m: Memory, L: Layout, root: Page, phyaddr: Word, lin: Word, flags: Word)
    requires L.Ok() && flags < 0x1000 && PoolSound(m, L) && Live(m, L, root)
    requires Justified(t, m, Map4Mb(m, L, phyaddr, lin, flags), root)
    requires root == L.boot || !LeavesStale(m, L, lin)
    ensures CoherentButDropped(t, Map4Mb(m, L, phyaddr, lin, flags), root, lin)
  {
    if root == L.boot {
      MapOnlyOwned(m, L, phyaddr, lin, flags);
      BootNeverStale(t, m, Map4Mb(m, L, phyaddr, lin, flags), L);
    } else {
      DirStore(t, m, L, phyaddr, lin, flags);
    }
  }

  lemma DirStore(t: Tlb, m: Memory, L: Layout, phyaddr: Word, lin: Word, flags: Word)
    requires L.Ok() && flags < 0x1000 && PoolSound(m, L) && !LeavesStale(m, L, lin)
    requires Justified(t, m, Map4Mb(m, L, phyaddr, lin, flags), L.dir)
    ensures CoherentButDropped(t, Map4Mb(m, L, phyaddr, lin, flags), L.dir, lin)
  {
    forall p | p in t && !Drops(lin, p, t[p])
      ensures WalkEntry(Map4Mb(m, L, phyaddr, lin, flags), L.dir, p) == Some(t[p])
    {
      Map4MbEntry(m, L, phyaddr, lin, flags, p);
      if p / 1024 == lin / 0x400000 && WalkEntry(m, L.dir, p) == Some(t[p]) { SmallNeighbour(m, L, lin, p); }
    }
  }

  /** A page another entry of the replaced table mapped, as the TLB may still hold it. */
  lemma StaleNeighbour(m: Memory, L: Layout, phyaddr: Word, lin: Word, flags: Word, j: int) returns (t: Tlb, p: Page)
    requires L.Ok() && flags < 0x1000 && PoolSound(m, L) && !Legal4Mb(m, L, lin)
    requires 0 <= j < 1024 && j != TableIndex(lin) && Present(m[WordOf(TableFor(m, L, lin), j)])
    ensures p / 1024 == lin / 0x400000 && p % 1024 == j
    ensures t == map[p := Entry(SmallFrame(m[WordOf(TableFor(m, L, lin), j)]), false)]
    ensures var m' := Map4Mb(m, L, phyaddr, lin, flags);
            Coherent(t, m, L.dir) && Justified(t, m, m', L.dir) && AfterInvlpg(t, t, m', L.dir, lin)
  {
    p := lin / 0x400000 * 1024 + j;
    assert p / 1024 == lin / 0x400000 && p % 1024 == j;
    PageInRegion(lin, p);
    assert PdeFor(m, L.dir, p) == Pde(m, L, lin / 0x400000);
    t := map[p := Entry(SmallFrame(m[WordOf(TableFor(m, L, lin), j)]), false)];
    assert WalkEntry(m, L.dir, p) == Some(t[p]);
  }

  /** Every TLB the processor may be left with after map_4mb's store and INVLPG holds only what
      the new structures give, under the final directory, exactly when no other page of a
      replaced table was mapped. */
  lemma Map4MbCoherent(m: Memory, L: Layout, phyaddr: Word, lin: Word, flags: Word)
    requires L.Ok() && flags < 0x1000 && PoolSound(m, L)
    ensures var m' := Map4Mb(m, L, phyaddr, lin, flags);
            (forall t: Tlb, t': Tlb :: Justified(t, m, m', L.dir) && AfterInvlpg(t, t', m', L.dir, lin) ==>
               Coherent(t', m', L.dir)) <==> !LeavesStale(m, L, lin)
  {
    var m' := Map4Mb(m, L, phyaddr, lin, flags);
    if LeavesStale(m, L, lin) {
      var j :| 0 <= j < 1024 && j != TableIndex(lin) && Present(m[WordOf(TableFor(m, L, lin), j)]);
      var t, p := StaleNeighbour(m, L, phyaddr, lin, flags, j);
      Map4MbEntry(m, L, phyaddr, lin, flags, p);
      assert p in t && WalkEntry(m', L.dir, p) != Some(t[p]);
    } else {
      forall t: Tlb, t': Tlb | Justified(t, m, m', L.dir) && AfterInvlpg(t, t', m', L.dir, lin)
        ensures Coherent(t', m', L.dir)
      {
        DirStore(t, m, L, phyaddr, lin, flags);
        InvlpgRestores(t, m', L.dir, lin);
      }
    }
  }

  /** Some page of a replaced table, other than the one asked for, went to another frame. */
  ghost predicate LeavesWrong(m: Memory, L: Layout, phyaddr: Word, lin: Word, flags: Word)
    requires L.Ok()
  {
    !Legal4Mb(m, L, lin) &&
    exists j :: 0 <= j < 1024 && j != TableIndex(lin) &&
                WrongEntry(m[WordOf(TableFor(m, L, lin), j)], phyaddr, flags, j)
  }

  /** A present entry of page `j` that the new 4 MiB entry does not agree with. */
  predicate WrongEntry(pte: Word, phyaddr: Word, flags: Word, j: int) {
    Present(pte) && !(Present(flags) && SmallFrame(pte) == phyaddr / 0x400000 * 1024 + j)
  }

  /** Exactly then some such TLB translates a page to a frame that is no longer its own. */
  lemma Map4MbRight(m: Memory, L: Layout, phyaddr: Word, lin: Word, flags: Word)
    requires L.Ok() && flags < 0x1000 && PoolSound(m, L)
    ensures var m' := Map4Mb(m, L, phyaddr, lin, flags);
            (forall t: Tlb, t': Tlb :: Justified(t, m, m', L.dir) && AfterInvlpg(t, t', m', L.dir, lin) ==>
               Right(t', m', L.dir)) <==> !LeavesWrong(m, L, phyaddr, lin, flags)
  {
    var m' := Map4Mb(m, L, phyaddr, lin, flags);
    if LeavesWrong(m, L, phyaddr, lin, flags) {
      var j :| 0 <= j < 1024 && j != TableIndex(lin) &&
               WrongEntry(m[WordOf(TableFor(m, L, lin), j)], phyaddr, flags, j);
      var t, p := StaleNeighbour(m, L, phyaddr, lin, flags, j);
      Map4MbWalk(m, L, phyaddr, lin, flags, p);
      assert p in t && WalkPage(m', L.dir, p) != Some(t[p].frame);
    } else {
      forall t: Tlb, t': Tlb, p | Justified(t, m, m', L.dir) && AfterInvlpg(t, t', m', L.dir, lin) && p in t'
        ensures WalkPage(m', L.dir, p) == Some(t'[p].frame)
      {
        KeptIsRight(m, L, phyaddr, lin, flags, t, t', p);
      }
    }
  }

  lemma KeptIsRight(m: Memory, L: Layout, phyaddr: Word, lin: Word, flags: Word, t: Tlb, t': Tlb, p: Page)
    requires L.Ok() && flags < 0x1000 && PoolSound(m, L) && !LeavesWrong(m, L, phyaddr, lin, flags)
    requires Justified(t, m, Map4Mb(m, L, phyaddr, lin, flags), L.dir)
    requires AfterInvlpg(t, t', Map4Mb(m, L, phyaddr, lin, flags), L.dir, lin) && p in t'
    ensures WalkPage(Map4Mb(m, L, phyaddr, lin, flags), L.dir, p) == Some(t'[p].frame)
  {
    var m' := Map4Mb(m, L, phyaddr, lin, flags);
    Map4MbEntry(m, L, phyaddr, lin, flags, p);
    if WalkEntry(m', L.dir, p) != Some(t'[p]) {
      assert p in t && t[p] == t'[p] && !Drops(lin, p, t[p]) && WalkEntry(m, L.dir, p) == Some(t[p]);
      SmallNeighbour(m, L, lin, p);
      PageInRegion(lin, p);
      assert !WrongEntry(m[WordOf(TableFor(m, L, lin), p % 1024)], phyaddr, flags, p % 1024);
    }
  }

  lemma Map4KbMaps(m: Memory, L: Layout, phyaddr: Word, lin: Word, flags: Word)
    requires L.Ok() && FlagsOk(flags) && PoolSound(m, L) && Legal4Kb(m, L, lin)
    ensures WalkEntry(Map4Kb(m, L, phyaddr, lin, flags), L.dir, lin / 0x1000) == Some(Entry(phyaddr / 0x1000, false))
  {
    var m' := Map4Kb(m, L, phyaddr, lin, flags);
    Map4KbWalk(m, L, phyaddr, lin, flags, lin / 0x1000);
    Map4KbEntries(m, L, phyaddr, lin, flags);
    assert lin / 0x1000 / 1024 == DirIndex(lin);
    assert PdeFor(m', L.dir, lin / 0x1000) == Pde(m', L, DirIndex(lin)) && IsTable(Pde(m', L, DirIndex(lin)));
  }

  /** A failing pair of calls: map_4kb maps page 0x80001 to frame 5, map_4mb then replaces the
      table.  The old translation may survive the INVLPG, while the walk finds frame 0x10001. */
  lemma ReplacedTable(m: Memory, L: Layout)
    requires L.Ok() && PoolSound(m, L) && Legal4Kb(m, L, 0x8000_1000)
    ensures var m1 := Map4Kb(m, L, 0x5000, 0x8000_1000, 3);
            var m2, t := Map4Mb(m1, L, 0x1000_0000, 0x8000_0000, 3), map[0x80001 := Entry(5, false)];
            && Coherent(t, m1, L.dir) && Justified(t, m1, m2, L.dir) && AfterInvlpg(t, t, m2, L.dir, 0x8000_0000)
            && WalkPage(m2, L.dir, 0x80001) == Some(0x10001) && LeavesStale(m1, L, 0x8000_0000)
  {
    var m1 := Map4Kb(m, L, 0x5000, 0x8000_1000, 3);
    Map4KbKeeps(m, L, 0x5000, 0x8000_1000, 3);
    Map4KbMaps(m, L, 0x5000, 0x8000_1000, 3);
    SmallNeighbour(m1, L, 0x8000_0000, 0x80001);
    var t, p := StaleNeighbour(m1, L, 0x1000_0000, 0x8000_0000, 3, 1);
    Map4MbWalk(m1, L, 0x1000_0000, 0x8000_0000, 3, 0x80001);
  }

  /** What is left after the INVLPG outside a replaced table, and at worst inside it. */
  lemma AfterPdeStore(t: Tlb, t': Tlb, m: Memory, L: Layout, root: Page, phyaddr: Word, lin: Word, flags: Word)
    requires L.Ok() && flags < 0x1000 && PoolSound(m, L) && Live(m, L, root)
    requires Justified(t, m, Map4Mb(m, L, phyaddr, lin, flags), root)
    requires AfterInvlpg(t, t', Map4Mb(m, L, phyaddr, lin, flags), root, lin)
    ensures var m', lo := Map4Mb(m, L, phyaddr, lin, flags), lin / 0x400000 * 1024;
            && Justified(t', m, m', root) && CoherentBut(t', m', root, lo, lo + 1024)
            && (root == L.boot || !LeavesStale(m, L, lin) ==> Coherent(t', m', root))
  {
    var m' := Map4Mb(m, L, phyaddr, lin, flags);
    assert Justified(t', m, m', root);
    StaleOnlyInRegion(t', m, L, root, phyaddr, lin, flags);
    if root == L.boot || !LeavesStale(m, L, lin) {
      PdeStore(t, m, L, root, phyaddr, lin, flags);
      InvlpgRestores(t, m', root, lin);
    }
  }

  /** paging_map_4mb, over whatever the region held. */
  method PagingMap4Mb(hw: Machine, L: Layout, phyaddr: Word, lin: Word, flags: Word)
    requires hw.Valid() && hw.Paging() && L.Ok() && flags < 0x1000
    requires PoolSound(hw.Mem(), L) && Live(hw.Mem(), L, hw.Root()) && Coherent(hw.tlb, hw.Mem(), hw.Root())
    modifies hw`tlb, hw.ram
    ensures hw.Mem() == Map4Mb(old(hw.Mem()), L, phyaddr, lin, flags)
    ensures hw.Root() == L.boot || !LeavesStale(old(hw.Mem()), L, lin) ==> Coherent(hw.tlb, hw.Mem(), hw.Root())
    ensures Justified(hw.tlb, old(hw.Mem()), hw.Mem(), hw.Root())
    ensures CoherentBut(hw.tlb, hw.Mem(), hw.Root(), lin / 0x400000 * 1024, lin / 0x400000 * 1024 + 1024)
    ensures PoolSound(hw.Mem(), L) <==> Legal4Mb(old(hw.Mem()), L, lin)
    ensures Live(hw.Mem(), L, hw.Root()) <==> hw.Root() == L.boot || Op4Mb(phyaddr, lin, flags).KeepsHome(L)
  {
    ghost var m, root := hw.Mem(), hw.Root();
    PdeLargeDecodes(phyaddr, flags);
    StoreStructure(hw, L, L.dir, DirIndex(lin), PdeLarge(phyaddr, flags));
    ghost var t := hw.tlb;
    hw.Invlpg(lin);
    AfterPdeStore(t, hw.tlb, m, L, root, phyaddr, lin, flags);
    Map4MbLive(m, L, root, phyaddr, lin, flags);
    Map4MbLeaksTables(m, L, phyaddr, lin, flags);
  }

  lemma NewEntry(m: Memory, L: Layout, lin: Word, table: Word)
    requires L.Ok() && !Present(Pde(m, L, lin / 0x400000))
    requires table == TableFor(m, L, lin) * 0x1000
    ensures PdeTable(table) < 0x1_0000_0000
    ensures m[WordOf(L.dir, DirIndex(lin)) := PdeTable(table)] == WithTable(m, L, lin)
  {
    PdeTableDecodes(table);
    DivModUnique(table, 0x1000, TableFor(m, L, lin), 0);
  }

  /** The first half of paging_map_4kb: the physical address of the table the directory names
      for `lin`, or of one from the pool, or NULL, entered in the directory in either case. */
  method GoverningTable(hw: Machine, L: Layout, lin: Word) returns (table: Word)
    requires hw.Valid() && hw.Paging() && L.Ok()
    requires PoolSound(hw.Mem(), L) && Live(hw.Mem(), L, hw.Root()) && Coherent(hw.tlb, hw.Mem(), hw.Root())
    modifies hw`tlb, hw.ram
    ensures hw.Mem() == WithTable(old(hw.Mem()), L, lin) && table == TableFor(old(hw.Mem()), L, lin) * 0x1000
    ensures Coherent(hw.tlb, hw.Mem(), hw.Root())
  {
    ghost var m := hw.Mem();
    var current := LoadStructure(hw, L, L.dir, DirIndex(lin));
    assert (And(current, 0x1) != 0) == Present(current) by { FlagTests(current); }
    if And(current, 0x1) == 0 {
      table := GetPageTable(hw, L);
      NewEntry(m, L, lin, table);
      StoreStructure(hw, L, L.dir, DirIndex(lin), PdeTable(table));
      FreshTableIsSilent(hw.tlb, m, L, hw.Root(), lin);
    } else {
      FrameMask(current);
      table := And(current, 0xFFFF_F000);
    }
  }

  /** 32-bit wrap-around of page-aligned addresses is wrap-around of page numbers. */
  lemma WrapPages(n: nat)
    ensures (n * 0x1000) % 0x1_0000_0000 == n % PAGES * 0x1000
  {
    DivModUnique(n * 0x1000, 0x1_0000_0000, n / PAGES, n % PAGES * 0x1000);
  }

  /** Word `i` of linear page `q`, wherever that page is mapped. */
  lemma PageWalk(m: Memory, root: Page, q: Page, i: int)
    requires 0 <= i < 1024
    ensures Walk(m, root, PhysOf(q, i)) ==
            match WalkPage(m, root, q) case None => None case Some(f) => Some(PhysOf(f, i))
  {
    WalkByPage(m, root, PhysOf(q, i));
  }

  lemma WriteTarget(table: Word, lin: Word, t: Page)
    requires table == t * 0x1000
    ensures (table + VMA) % 0x1_0000_0000 + 4 * And(lin / 0x1000, 0x3FF) == PhysOf(HighPage(t), TableIndex(lin))
  {
    OffsetMask(lin / 0x1000);
    assert (t + 0xC0000) * 0x1000 == table + VMA;
    WrapPages(t + 0xC0000);
  }

  /** The page-table store of paging_map_4kb, with the source's masks and 32-bit addition. */
  method WritePte(hw: Machine, table: Word, phyaddr: Word, lin: Word, flags: Word, ghost t: Page) returns (fault: bool)
    requires hw.Valid() && hw.Paging() && flags < 0x1000 && table == t * 0x1000
    requires Coherent(hw.tlb, hw.Mem(), hw.Root())
    modifies hw`tlb, hw.ram
    ensures match WalkPage(old(hw.Mem()), hw.Root(), HighPage(t))
            case None => fault && hw.Mem() == old(hw.Mem())
            case Some(f) => !fault && hw.Mem() == old(hw.Mem())[WordOf(f, TableIndex(lin)) := PteWord(phyaddr, flags)]
    ensures Justified(hw.tlb, old(hw.Mem()), hw.Mem(), hw.Root())
  {
    ghost var q, i := HighPage(t), TableIndex(lin);
    WriteTarget(table, lin, t);
    assert Pte(phyaddr, flags) == PteWord(phyaddr, flags) by { PteDecodes(phyaddr, flags); }
    PageWalk(hw.Mem(), hw.Root(), q, i);
    var pgtbl := (table + VMA) % 0x1_0000_0000;
    var ptIndex := And(lin / 0x1000, 0x3FF);
    assert pgtbl + 4 * ptIndex == PhysOf(q, i);
    fault := hw.TryStore(pgtbl + 4 * ptIndex, Pte(phyaddr, flags));
  }

  lemma CodeFaults(m: Memory, L: Layout, root: Page, phyaddr: Word, lin: Word, flags: Word)
    requires L.Ok() && flags < 0x1000
    requires WalkPage(WithTable(m, L, lin), root, HighPage(TableFor(m, L, lin))) == None
    ensures Map4KbCode(m, L, root, phyaddr, lin, flags) == Outcome(WithTable(m, L, lin), true)
  {
  }

  lemma CodeStores(m: Memory, L: Layout, root: Page, phyaddr: Word, lin: Word, flags: Word, f: Page)
    requires L.Ok() && flags < 0x1000
    requires WalkPage(WithTable(m, L, lin), root, HighPage(TableFor(m, L, lin))) == Some(f)
    ensures Map4KbCode(m, L, root, phyaddr, lin, flags) ==
            Outcome(WithTable(m, L, lin)[WordOf(f, TableIndex(lin)) := PteWord(phyaddr, flags)], false)
  {
  }

  lemma HighPageOf(t: Page)
    requires t < 0x40000
    ensures HighPage(t) == 0xC0000 + t
  {
  }

  /** Where the obligations are met the code's second store reaches the table it is meant for. */
  lemma LegalCode(m: Memory, L: Layout, root: Page, phyaddr: Word, lin: Word, flags: Word)
    requires L.Ok() && flags < 0x1000 && PoolSound(m, L) && Live(m, L, root) && Legal4Kb(m, L, lin)
    ensures Map4KbCode(m, L, root, phyaddr, lin, flags) == Outcome(Map4Kb(m, L, phyaddr, lin, flags), false)
  {
    var m1, t := WithTable(m, L, lin), TableFor(m, L, lin);
    assert L.Owns(t) by { WithTableEntries(m, L, lin); }
    assert t < 0x40000 && WalkPage(m1, root, 0xC0000 + t) == Some(t) by {
      WithTableLive(m, L, root, lin);
      SelfMappedPage(m1, L, root, t);
    }
    HighPageOf(t);
    CodeStores(m, L, root, phyaddr, lin, flags, t);
  }

  /** A legal call leaves a coherent TLB once its INVLPG is done. */
  lemma AfterPteStore(t: Tlb, t': Tlb, m: Memory, L: Layout, root: Page, phyaddr: Word, lin: Word, flags: Word)
    requires L.Ok() && flags < 0x1000 && PoolSound(m, L) && Live(m, L, root) && Legal4Kb(m, L, lin)
    requires Justified(t, WithTable(m, L, lin), Map4Kb(m, L, phyaddr, lin, flags), root)
    requires AfterInvlpg(t, t', Map4Kb(m, L, phyaddr, lin, flags), root, lin)
    ensures Coherent(t', Map4Kb(m, L, phyaddr, lin, flags), root)
  {
    StaleOnlyAtPage(t, m, L, root, phyaddr, lin, flags);
    InvlpgRestores(t, Map4Kb(m, L, phyaddr, lin, flags), root, lin);
  }

  /** paging_map_4kb, in every state of the region and of the pool. */
  method PagingMap4Kb(hw: Machine, L: Layout, phyaddr: Word, lin: Word, flags: Word) returns (fault: bool)
    requires hw.Valid() && hw.Paging() && L.Ok() && flags < 0x1000
    requires PoolSound(hw.Mem(), L) && Live(hw.Mem(), L, hw.Root()) && Coherent(hw.tlb, hw.Mem(), hw.Root())
    modifies hw`tlb, hw.ram
    ensures Outcome(hw.Mem(), fault) == Map4KbCode(old(hw.Mem()), L, hw.Root(), phyaddr, lin, flags)
    ensures Legal4Kb(old(hw.Mem()), L, lin) ==>
              && !fault && hw.Mem() == Map4Kb(old(hw.Mem()), L, phyaddr, lin, flags)
              && Coherent(hw.tlb, hw.Mem(), hw.Root()) && Live(hw.Mem(), L, hw.Root())
              && (PoolSound(hw.Mem(), L) <==> Present(flags) || HasOtherEntry(old(hw.Mem()), L, lin))
  {
    ghost var m, root := hw.Mem(), hw.Root();
    ghost var target := TableFor(m, L, lin);
    if Legal4Kb(m, L, lin) { LegalCode(m, L, root, phyaddr, lin, flags); }
    var table := GoverningTable(hw, L, lin);
    fault := WritePte(hw, table, phyaddr, lin, flags, target);
    if fault { return; }
    ghost var t := hw.tlb;
    hw.Invlpg(lin);
    if Legal4Kb(m, L, lin) {
      AfterPteStore(t, hw.tlb, m, L, root, phyaddr, lin, flags);
      Map4KbLive(m, L, root, phyaddr, lin, flags);
      Map4KbNeedsPresent(m, L, phyaddr, lin, flags);
    }
  }
}
