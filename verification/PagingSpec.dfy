/**
 The kernel's page directory, its pool of ten page tables and the two mapping
 operations, as functions on memory snapshots; the invariant that stands in for
 ownership records; and the abstract page map the operations refine.
 */
module PagingSpec {
  import opened Words
  import opened Mmu

  const POOL: nat := 10

  /** Physical pages of the final directory, the first pool table and the boot directory,
      and the word the mapping loop takes as the kernel's physical end. */
  datatype Layout = Layout(dir: Page, pool: Page, boot: Page, limit: Word) {
    /** How many 4 MiB windows the mapping loop installs. */
    function Windows(): (n: nat)
      ensures 1 <= n && (limit < 0x4000_0000 <==> n <= 256) && limit < n * 0x400000
    {
      limit / 0x400000 + 1
    }

    /** The kernel ends below 1 GiB, so its windows fit above VMA; its pages lie inside
        them, above 1 MiB, and do not overlap. */
    predicate Ok() {
      && limit < 0x4000_0000
      && 256 <= pool && pool + POOL <= Windows() * 1024
      && 256 <= dir < Windows() * 1024 && 256 <= boot < Windows() * 1024
      && !(pool <= dir < pool + POOL) && !(pool <= boot < pool + POOL) && dir != boot
    }

    /** The windows end below the region of the APIC registers. */
    predicate ApicFree() { limit < 0x3EC0_0000 }

    /** Pages the mapping operations read and write. */
    predicate Owns(p: int) { p == dir || pool <= p < pool + POOL }

    /** The 4 MiB of physical memory number `i` hold one of those pages. */
    predicate Houses(i: int) { i == dir / 1024 || i == pool / 1024 || i == (pool + POOL - 1) / 1024 }
  }

  /** The physical address of word `i` of page `p`, and where the higher half shows it. */
  function PhysOf(p: Page, i: int): (a: Word)
    requires 0 <= i < 1024
    ensures a % 4 == 0 && a / 4 == WordOf(p, i) && a / 0x1000 == p && a % 0x1000 == 4 * i
  {
    p * 0x1000 + 4 * i
  }

  function HighOf(p: int, i: int): (a: Word)
    requires 0 <= p < 0x40000 && 0 <= i < 1024
    ensures a % 4 == 0 && a / 0x1000 == 0xC0000 + p && a % 0x1000 == 4 * i
  {
    VMA + PhysOf(p, i)
  }

  // --- Entry encodings, with the source's masks ---

  function PdeLarge(phyaddr: Word, flags: Word): nat { Or(Or(And(phyaddr, 0xFFC0_0000), 0x80), flags) }

  function PdeTable(table: Word): nat { Or(Or(Or(And(table, 0xFFFF_F000), 0x1), 0x2), 0x0) }

  function Pte(phyaddr: Word, flags: Word): nat { Or(And(phyaddr, 0xFFFF_F000), flags) }

  lemma HousesMeans(L: Layout, i: int)
    requires L.Ok()
    ensures L.Houses(i) <==> exists p: Page :: L.Owns(p) && p / 1024 == i
    ensures L.Houses(i) ==> 0 <= i < L.Windows()
  {
    if L.Houses(i) {
      var p: Page := if i == L.dir / 1024 then L.dir else if i == L.pool / 1024 then L.pool else L.pool + POOL - 1;
      assert L.Owns(p) && p / 1024 == i;
    }
  }

  /** Flags that map: twelve bits, PRESENT among them. */
  predicate FlagsOk(flags: Word) { flags < 0x1000 && Present(flags) }

  lemma FrameMask(x: Word)
    ensures And(x, 0xFFFF_F000) == x / 0x1000 * 0x1000
    ensures And(x, 0xFFC0_0000) == x / 0x400000 * 0x400000
  {
    Pow2Values();
    AndHighMask(x, 32, 12);
    AndHighMask(x, 32, 22);
  }

  lemma OffsetMask(x: Word)
    ensures And(x, 0xFFF) == x % 0x1000
    ensures And(x, 0x3FF) == x % 0x400
    ensures And(x, 0x3F_FFFF) == x % 0x400000
  {
    Pow2Values();
    AndLowMask(x, 10);
    AndLowMask(x, 12);
    AndLowMask(x, 22);
  }

  /** The C tests of the PRESENT and SIZE bits are the processor's. */
  lemma FlagTests(e: Word)
    ensures (And(e, 0x1) != 0) == Present(e)
    ensures (And(e, 0x80) != 0) == PageSize(e)
  {
    Pow2Values();
    AndBit(e, 0);
    AndBit(e, 7);
  }

  /** The bits below 12 and the frame number of an entry can be read off separately. */
  lemma SplitEntry(e: int, h: nat, low: nat)
    requires low < 0x1000 && e == h * 0x1000 + low
    ensures e / 0x1000 == h && e % 0x1000 == low && (h < PAGES ==> e < 0x1_0000_0000)
    ensures e % 2 == low % 2 && e / 0x80 % 2 == low / 0x80 % 2
  {
    DivModUnique(e, 0x1000, h, low);
    DivModUnique(e, 2, h * 0x800 + low / 2, low % 2);
    DivModUnique(e, 0x80, h * 0x20 + low / 0x80, low % 0x80);
    DivModUnique(e / 0x80, 2, h * 0x10 + low / 0x80 / 2, low / 0x80 % 2);
  }

  lemma SplitLargeEntry(e: int, h: nat, low: nat)
    requires low < 0x1000 && e == h * 0x400000 + low
    ensures e / 0x400000 == h && e % 0x400000 == low && e % 0x1000 == low
    ensures e % 2 == low % 2 && e / 0x80 % 2 == low / 0x80 % 2
  {
    DivModUnique(e, 0x400000, h, low);
    SplitEntry(e, h * 0x400, low);
  }

  lemma SizeAndFlags(flags: Word)
    requires flags < 0x1000
    ensures Or(0x80, flags) < 0x1000
    ensures Or(0x80, flags) % 2 == flags % 2 && Or(0x80, flags) / 0x80 % 2 == 1
  {
    Pow2Values();
    OrLow(0x80, flags, 12);
    OrBit(0x80, flags, 0);
    OrBit(0x80, flags, 7);
  }

  lemma PdeLargeSum(phyaddr: Word, flags: Word)
    requires flags < 0x1000
    ensures PdeLarge(phyaddr, flags) == phyaddr / 0x400000 * 0x400000 + Or(0x80, flags)
  {
    Pow2Values();
    var h := phyaddr / 0x400000;
    FrameMask(phyaddr);
    OrSplit(h, 0, 0x80, 22, 0x400000);
    OrSplit(h, 0x80, flags, 22, 0x400000);
  }

  /** A 4 MiB entry decodes to what went into it: its address bits are the frame, its low bits
      the flags and SIZE. */
  lemma PdeLargeDecodes(phyaddr: Word, flags: Word)
    requires flags < 0x1000
    ensures PdeLarge(phyaddr, flags) < 0x1_0000_0000
    ensures var e := PdeLarge(phyaddr, flags);
            && PageSize(e) && e / 0x400000 == phyaddr / 0x400000 && Present(e) == Present(flags)
            && e == phyaddr / 0x400000 * 0x400000 + Or(0x80, flags)
  {
    PdeLargeSum(phyaddr, flags);
    SizeAndFlags(flags);
    SplitLargeEntry(PdeLarge(phyaddr, flags), phyaddr / 0x400000, Or(0x80, flags));
  }

  lemma PdeTableDecodes(table: Word)
    ensures PdeTable(table) == TableEntry(table / 0x1000)
  {
    Pow2Values();
    var h := table / 0x1000;
    FrameMask(table);
    OrSplit(h, 0, 1, 12, 0x1000);
    OrSplit(h, 1, 2, 12, 0x1000);
    assert Or(1, 2) == 3;
  }

  lemma PteDecodes(phyaddr: Word, flags: Word)
    requires flags < 0x1000
    ensures Pte(phyaddr, flags) == PteWord(phyaddr, flags)
  {
    Pow2Values();
    FrameMask(phyaddr);
    OrSplit(phyaddr / 0x1000, 0, flags, 12, 0x1000);
  }

  // --- State predicates ---

  function Pde(m: Memory, L: Layout, i: int): Word
    requires 0 <= i < 1024
  {
    m[WordOf(L.dir, i)]
  }

  function PoolEntry(m: Memory, L: Layout, k: int, j: int): Word
    requires L.Ok() && 0 <= k < POOL && 0 <= j < 1024
  {
    m[WordOf(L.pool + k, j)]
  }

  /** The allocator's test: the table holds a present entry. */
  ghost predicate Used(m: Memory, L: Layout, k: int)
    requires L.Ok() && 0 <= k < POOL
  {
    exists j :: 0 <= j < 1024 && Present(PoolEntry(m, L, k, j))
  }

  predicate References(m: Memory, L: Layout, i: int, k: int)
    requires 0 <= i < 1024
  {
    IsTable(Pde(m, L, i)) && Pde(m, L, i) / 0x1000 == L.pool + k
  }

  ghost predicate Referenced(m: Memory, L: Layout, k: int) {
    exists i :: 0 <= i < 1024 && References(m, L, i, k)
  }

  /** Table entries of the directory point at distinct pool tables, and the tables with a
      present entry are exactly the referenced ones. */
  ghost predicate PoolSound(m: Memory, L: Layout)
    requires L.Ok()
  {
    && (forall i :: 0 <= i < 1024 && IsTable(Pde(m, L, i)) ==> L.pool <= Pde(m, L, i) / 0x1000 < L.pool + POOL)
    && (forall i, j :: 0 <= i < j < 1024 && IsTable(Pde(m, L, i)) && IsTable(Pde(m, L, j)) ==>
          Pde(m, L, i) / 0x1000 != Pde(m, L, j) / 0x1000)
    && (forall k :: 0 <= k < POOL ==> (Used(m, L, k) <==> Referenced(m, L, k)))
  }

  /** The i-th 4 MiB of the higher half maps the i-th 4 MiB of physical memory. */
  predicate WindowAt(m: Memory, L: Layout, i: int)
    requires 0 <= i < 256
  {
    IsLarge(Pde(m, L, 768 + i)) && Pde(m, L, 768 + i) / 0x400000 == i
  }

  /** The first `n` 4 MiB windows of the higher half map physical memory from 0 up. */
  ghost predicate Window(m: Memory, L: Layout, n: int)
    requires n <= 256
  {
    forall i :: 0 <= i < n ==> WindowAt(m, L, i)
  }

  /** The windows that show the directory and the pool are in place. */
  ghost predicate Home(m: Memory, L: Layout)
    requires L.Ok()
  {
    forall i :: 0 <= i < 256 && L.Houses(i) ==> WindowAt(m, L, i)
  }

  /** The first pool table from `k` up without a present entry; POOL when there is none. */
  ghost function FirstFree(m: Memory, L: Layout, k: nat): (r: nat)
    requires L.Ok() && k <= POOL
    ensures k <= r <= POOL
    ensures forall j :: k <= j < r ==> Used(m, L, j)
    ensures r < POOL ==> !Used(m, L, r)
    decreases POOL - k
  {
    if k == POOL || !Used(m, L, k) then k else FirstFree(m, L, k + 1)
  }

  // --- The two operations on memory ---

  ghost function Map4Mb(m: Memory, L: Layout, phyaddr: Word, lin: Word, flags: Word): Memory
    requires flags < 0x1000
  {
    PdeLargeDecodes(phyaddr, flags);
    m[WordOf(L.dir, lin / 0x400000) := PdeLarge(phyaddr, flags)]
  }

  /** The page of the table map_4kb writes to: the one the directory names, a table without
      a present entry when it names none, page 0 (NULL) when the pool has none left. */
  ghost function TableFor(m: Memory, L: Layout, lin: Word): Page
    requires L.Ok()
  {
    if Present(Pde(m, L, lin / 0x400000)) then Pde(m, L, lin / 0x400000) / 0x1000
    else if FirstFree(m, L, 0) < POOL then L.pool + FirstFree(m, L, 0)
    else 0
  }

  /** A directory entry that references table page `t`, present and writable. */
  function TableEntry(t: Page): (e: Word)
    ensures IsTable(e) && e / 0x1000 == t && e % 0x1000 == 3
  {
    SplitEntry(t * 0x1000 + 3, t, 3);
    t * 0x1000 + 3
  }

  /** After the first store of map_4kb: the governing entry is present. */
  ghost function WithTable(m: Memory, L: Layout, lin: Word): Memory
    requires L.Ok()
  {
    if Present(Pde(m, L, lin / 0x400000)) then m
    else m[WordOf(L.dir, lin / 0x400000) := TableEntry(TableFor(m, L, lin))]
  }

  /** A page-table entry as arithmetic. */
  function PteWord(phyaddr: Word, flags: Word): (e: Word)
    requires flags < 0x1000
    ensures e / 0x1000 == phyaddr / 0x1000 && e % 0x1000 == flags
    ensures Present(e) == Present(flags) && PageSize(e) == PageSize(flags)
  {
    var h: Page := phyaddr / 0x1000;
    var e := h * 0x1000 + flags;
    SplitEntry(e, h, flags);
    e
  }

  ghost function Map4Kb(m: Memory, L: Layout, phyaddr: Word, lin: Word, flags: Word): Memory
    requires L.Ok() && flags < 0x1000
  {
    WithTable(m, L, lin)[WordOf(TableFor(m, L, lin), TableIndex(lin)) := PteWord(phyaddr, flags)]
  }

  /** Memory after a call, and whether it ended in a page fault. */
  datatype Outcome = Outcome(mem: Memory, fault: bool)

  /** The linear page VMA above physical page `t`, in 32 bits. */
  function HighPage(t: Page): Page { (t + 0xC0000) % PAGES }

  /** What map_4kb does in every state: its second store goes to wherever the linear page VMA
      above the table is mapped by then, and page-faults where nothing is. */
  ghost function Map4KbCode(m: Memory, L: Layout, root: Page, phyaddr: Word, lin: Word, flags: Word): Outcome
    requires L.Ok() && flags < 0x1000
  {
    var m1 := WithTable(m, L, lin);
    match WalkPage(m1, root, HighPage(TableFor(m, L, lin)))
    case None => Outcome(m1, true)
    case Some(f) => Outcome(m1[WordOf(f, TableIndex(lin)) := PteWord(phyaddr, flags)], false)
  }

  /** What map_4mb's callers owe: not over a page table. */
  predicate Legal4Mb(m: Memory, L: Layout, lin: Word) { !IsTable(Pde(m, L, lin / 0x400000)) }

  /** What map_4kb's callers owe: not inside a 4 MiB page, and a table to be had. */
  ghost predicate Legal4Kb(m: Memory, L: Layout, lin: Word)
    requires L.Ok()
  {
    IsTable(Pde(m, L, lin / 0x400000)) || (!Present(Pde(m, L, lin / 0x400000)) && FirstFree(m, L, 0) < POOL)
  }

  // --- What they do to every translation ---

  lemma Map4MbEntries(m: Memory, L: Layout, phyaddr: Word, lin: Word, flags: Word)
    requires L.Ok() && flags < 0x1000
    ensures var m', i := Map4Mb(m, L, phyaddr, lin, flags), lin / 0x400000;
            && PageSize(Pde(m', L, i)) && Present(Pde(m', L, i)) == Present(flags)
            && Pde(m', L, i) / 0x400000 == phyaddr / 0x400000
            && Pde(m', L, i) == phyaddr / 0x400000 * 0x400000 + Or(0x80, flags)
            && (forall j :: 0 <= j < 1024 && j != i ==> Pde(m', L, j) == Pde(m, L, j))
            && (forall k, j :: 0 <= k < POOL && 0 <= j < 1024 ==> PoolEntry(m', L, k, j) == PoolEntry(m, L, k, j))
  {
    PdeLargeDecodes(phyaddr, flags);
  }

  lemma WithTableEntries(m: Memory, L: Layout, lin: Word)
    requires L.Ok() && PoolSound(m, L) && Legal4Kb(m, L, lin)
    ensures var m', i, t := WithTable(m, L, lin), lin / 0x400000, TableFor(m, L, lin);
            && L.pool <= t < L.pool + POOL
            && IsTable(Pde(m', L, i)) && Pde(m', L, i) / 0x1000 == t
            && (forall j :: 0 <= j < 1024 && j != i ==> Pde(m', L, j) == Pde(m, L, j))
            && (forall k, j :: 0 <= k < POOL && 0 <= j < 1024 ==> PoolEntry(m', L, k, j) == PoolEntry(m, L, k, j))
  {
    var m', i := WithTable(m, L, lin), lin / 0x400000;
    if !Present(Pde(m, L, i)) {
      assert Pde(m', L, i) == TableEntry(L.pool + FirstFree(m, L, 0));
      forall k, j | 0 <= k < POOL && 0 <= j < 1024
        ensures PoolEntry(m', L, k, j) == PoolEntry(m, L, k, j)
      {
      }
    }
  }

  lemma Map4KbEntries(m: Memory, L: Layout, phyaddr: Word, lin: Word, flags: Word)
    requires L.Ok() && flags < 0x1000 && PoolSound(m, L) && Legal4Kb(m, L, lin)
    ensures var m', i, t := Map4Kb(m, L, phyaddr, lin, flags), lin / 0x400000, TableFor(m, L, lin);
            && L.pool <= t < L.pool + POOL
            && IsTable(Pde(m', L, i)) && Pde(m', L, i) / 0x1000 == t
            && (forall j :: 0 <= j < 1024 && j != i ==> Pde(m', L, j) == Pde(m, L, j))
            && (forall k, j :: 0 <= k < POOL && 0 <= j < 1024 ==>
                  PoolEntry(m', L, k, j) ==
                  if L.pool + k == t && j == TableIndex(lin) then PteWord(phyaddr, flags)
                  else PoolEntry(m, L, k, j))
  {
    var m1, m', t := WithTable(m, L, lin), Map4Kb(m, L, phyaddr, lin, flags), TableFor(m, L, lin);
    WithTableEntries(m, L, lin);
    assert forall j :: 0 <= j < 1024 ==> Pde(m', L, j) == Pde(m1, L, j);
    forall k, j | 0 <= k < POOL && 0 <= j < 1024
      ensures PoolEntry(m', L, k, j) ==
              if L.pool + k == t && j == TableIndex(lin) then PteWord(phyaddr, flags) else PoolEntry(m1, L, k, j)
    {
    }
  }

  /** No other region's table is the one map_4kb writes to. */
  lemma TableIsOwn(m: Memory, L: Layout, lin: Word, j: int)
    requires L.Ok() && PoolSound(m, L) && Legal4Kb(m, L, lin)
    requires 0 <= j < 1024 && j != lin / 0x400000 && IsTable(Pde(m, L, j))
    ensures Pde(m, L, j) / 0x1000 != TableFor(m, L, lin)
  {
    if !Present(Pde(m, L, lin / 0x400000)) {
      assert References(m, L, j, Pde(m, L, j) / 0x1000 - L.pool);
    }
  }

  /** What map_4mb is asked to map page `p` of its region to: nothing when the flags lack PRESENT. */
  function AskedLarge(phyaddr: Word, flags: Word, p: Page): Option<Page> {
    if Present(flags) then Some(LargeFrame(phyaddr, p)) else None
  }

  lemma Map4MbWalk(m: Memory, L: Layout, phyaddr: Word, lin: Word, flags: Word, p: Page)
    requires L.Ok() && flags < 0x1000 && PoolSound(m, L)
    ensures WalkPage(Map4Mb(m, L, phyaddr, lin, flags), L.dir, p) ==
            if p / 1024 == lin / 0x400000 then AskedLarge(phyaddr, flags, p)
            else WalkPage(m, L.dir, p)
  {
    Map4MbEntries(m, L, phyaddr, lin, flags);
    var e := Pde(m, L, p / 1024);
    if p / 1024 != lin / 0x400000 && IsTable(e) {
      assert PoolEntry(m, L, e / 0x1000 - L.pool, p % 1024) == m[WordOf(e / 0x1000, p % 1024)];
    }
  }

  lemma PageInRegion(lin: Word, p: Page)
    requires p / 1024 == lin / 0x400000
    ensures (p == lin / 0x1000) == (p % 1024 == TableIndex(lin))
  {
    assert lin / 0x1000 / 1024 == lin / 0x400000;
  }

  /** What map_4kb is asked to map its page to: nothing when the flags lack PRESENT. */
  function Asked(phyaddr: Word, flags: Word): Option<Page> {
    if Present(flags) then Some(phyaddr / 0x1000) else None
  }

  /** map_4kb inside its own region: the one page changes; a fresh table maps no other. */
  lemma Map4KbWalkInside(m: Memory, L: Layout, phyaddr: Word, lin: Word, flags: Word, p: Page)
    requires L.Ok() && flags < 0x1000 && PoolSound(m, L) && Legal4Kb(m, L, lin)
    requires p / 1024 == lin / 0x400000
    ensures WalkPage(Map4Kb(m, L, phyaddr, lin, flags), L.dir, p) ==
            if p == lin / 0x1000 then Asked(phyaddr, flags) else WalkPage(m, L.dir, p)
  {
    Map4KbEntries(m, L, phyaddr, lin, flags);
    var m', t := Map4Kb(m, L, phyaddr, lin, flags), TableFor(m, L, lin);
    var pte, pte' := PoolEntry(m, L, t - L.pool, p % 1024), PoolEntry(m', L, t - L.pool, p % 1024);
    assert PdeFor(m', L.dir, p) == Pde(m', L, p / 1024);
    assert WalkPage(m', L.dir, p) == if Present(pte') then Some(pte' / 0x1000) else None;
    PageInRegion(lin, p);
    if p == lin / 0x1000 {
      assert pte' == PteWord(phyaddr, flags);
    } else {
      assert pte' == pte;
    }
  }

  lemma Map4KbWalkOutside(m: Memory, L: Layout, phyaddr: Word, lin: Word, flags: Word, p: Page)
    requires L.Ok() && flags < 0x1000 && PoolSound(m, L) && Legal4Kb(m, L, lin)
    requires p / 1024 != lin / 0x400000
    ensures WalkPage(Map4Kb(m, L, phyaddr, lin, flags), L.dir, p) == WalkPage(m, L.dir, p)
  {
    Map4KbEntries(m, L, phyaddr, lin, flags);
    var m', e := Map4Kb(m, L, phyaddr, lin, flags), Pde(m, L, p / 1024);
    assert PdeFor(m', L.dir, p) == Pde(m', L, p / 1024) == e;
    if IsTable(e) {
      TableIsOwn(m, L, lin, p / 1024);
      var k := e / 0x1000 - L.pool;
      assert PoolEntry(m', L, k, p % 1024) == PoolEntry(m, L, k, p % 1024);
    }
  }

  lemma Map4KbWalk(m: Memory, L: Layout, phyaddr: Word, lin: Word, flags: Word, p: Page)
    requires L.Ok() && flags < 0x1000 && PoolSound(m, L) && Legal4Kb(m, L, lin)
    ensures WalkPage(Map4Kb(m, L, phyaddr, lin, flags), L.dir, p) ==
            if p == lin / 0x1000 then Asked(phyaddr, flags) else WalkPage(m, L.dir, p)
  {
    if p / 1024 == lin / 0x400000 {
      Map4KbWalkInside(m, L, phyaddr, lin, flags, p);
    } else {
      Map4KbWalkOutside(m, L, phyaddr, lin, flags, p);
    }
  }

  // --- Which entry maps each page ---

  lemma Map4MbMapping(m: Memory, L: Layout, phyaddr: Word, lin: Word, flags: Word, p: Page)
    requires L.Ok() && flags < 0x1000 && PoolSound(m, L)
    ensures var e := MappingEntry(Map4Mb(m, L, phyaddr, lin, flags), L.dir, p);
            if p / 1024 != lin / 0x400000 then e == MappingEntry(m, L.dir, p)
            else if Present(flags) then e.Some? && e.value == phyaddr / 0x400000 * 0x400000 + Or(0x80, flags)
            else e == None
  {
    Map4MbEntries(m, L, phyaddr, lin, flags);
    var e := Pde(m, L, p / 1024);
    if p / 1024 != lin / 0x400000 && IsTable(e) {
      assert PoolEntry(m, L, e / 0x1000 - L.pool, p % 1024) == m[WordOf(e / 0x1000, p % 1024)];
    }
  }

  lemma Map4KbMappingInside(m: Memory, L: Layout, phyaddr: Word, lin: Word, flags: Word, p: Page)
    requires L.Ok() && flags < 0x1000 && PoolSound(m, L) && Legal4Kb(m, L, lin)
    requires p / 1024 == lin / 0x400000
    ensures var e := MappingEntry(Map4Kb(m, L, phyaddr, lin, flags), L.dir, p);
            if p != lin / 0x1000 then e == MappingEntry(m, L.dir, p)
            else if Present(flags) then e == Some(PteWord(phyaddr, flags)) else e == None
  {
    Map4KbEntries(m, L, phyaddr, lin, flags);
    var m', t := Map4Kb(m, L, phyaddr, lin, flags), TableFor(m, L, lin);
    var pte, pte' := PoolEntry(m, L, t - L.pool, p % 1024), PoolEntry(m', L, t - L.pool, p % 1024);
    assert PdeFor(m', L.dir, p) == Pde(m', L, p / 1024);
    assert MappingEntry(m', L.dir, p) == if Present(pte') then Some(pte') else None;
    PageInRegion(lin, p);
    assert pte' == if p == lin / 0x1000 then PteWord(phyaddr, flags) else pte;
  }

  lemma Map4KbMappingOutside(m: Memory, L: Layout, phyaddr: Word, lin: Word, flags: Word, p: Page)
    requires L.Ok() && flags < 0x1000 && PoolSound(m, L) && Legal4Kb(m, L, lin)
    requires p / 1024 != lin / 0x400000
    ensures MappingEntry(Map4Kb(m, L, phyaddr, lin, flags), L.dir, p) == MappingEntry(m, L.dir, p)
  {
    Map4KbEntries(m, L, phyaddr, lin, flags);
    var m', e := Map4Kb(m, L, phyaddr, lin, flags), Pde(m, L, p / 1024);
    assert PdeFor(m', L.dir, p) == Pde(m', L, p / 1024) == e;
    if IsTable(e) {
      TableIsOwn(m, L, lin, p / 1024);
      var k := e / 0x1000 - L.pool;
      assert PoolEntry(m', L, k, p % 1024) == PoolEntry(m, L, k, p % 1024);
    }
  }

  // --- The invariant is kept ---

  lemma Map4MbKeeps(m: Memory, L: Layout, phyaddr: Word, lin: Word, flags: Word)
    requires L.Ok() && flags < 0x1000 && PoolSound(m, L) && Legal4Mb(m, L, lin)
    ensures PoolSound(Map4Mb(m, L, phyaddr, lin, flags), L)
  {
    Map4MbEntries(m, L, phyaddr, lin, flags);
    var m' := Map4Mb(m, L, phyaddr, lin, flags);
    forall k | 0 <= k < POOL
      ensures Used(m', L, k) == Used(m, L, k) && Referenced(m', L, k) == Referenced(m, L, k)
    {
      assert forall j :: 0 <= j < 1024 ==> PoolEntry(m', L, k, j) == PoolEntry(m, L, k, j);
      assert forall j :: 0 <= j < 1024 ==> References(m', L, j, k) == References(m, L, j, k);
    }
  }

  /** map_4mb keeps the pool sound exactly when it does not replace a table: a replaced
      table keeps its present entries but nothing references it any more. */
  lemma Map4MbLeaksTables(m: Memory, L: Layout, phyaddr: Word, lin: Word, flags: Word)
    requires L.Ok() && flags < 0x1000 && PoolSound(m, L)
    ensures PoolSound(Map4Mb(m, L, phyaddr, lin, flags), L) <==> Legal4Mb(m, L, lin)
  {
    var i, m' := lin / 0x400000, Map4Mb(m, L, phyaddr, lin, flags);
    if IsTable(Pde(m, L, i)) {
      var k := Pde(m, L, i) / 0x1000 - L.pool;
      Map4MbEntries(m, L, phyaddr, lin, flags);
      assert References(m, L, i, k) && Referenced(m, L, k);
      var j :| 0 <= j < 1024 && Present(PoolEntry(m, L, k, j));
      assert Present(PoolEntry(m', L, k, j)) && Used(m', L, k);
      assert !Referenced(m', L, k);
    } else {
      Map4MbKeeps(m, L, phyaddr, lin, flags);
    }
  }

  /** Of the tables map_4kb does not write to, none changes its standing with the allocator. */
  lemma OtherTablesKept(m: Memory, L: Layout, phyaddr: Word, lin: Word, flags: Word, k: int)
    requires L.Ok() && flags < 0x1000 && PoolSound(m, L) && Legal4Kb(m, L, lin)
    requires 0 <= k < POOL && L.pool + k != TableFor(m, L, lin)
    ensures var m' := Map4Kb(m, L, phyaddr, lin, flags); Used(m', L, k) == Referenced(m', L, k)
  {
    Map4KbEntries(m, L, phyaddr, lin, flags);
    var m', i := Map4Kb(m, L, phyaddr, lin, flags), lin / 0x400000;
    assert forall j :: 0 <= j < 1024 ==> PoolEntry(m', L, k, j) == PoolEntry(m, L, k, j);
    assert Used(m', L, k) == Used(m, L, k);
    assert !References(m, L, i, k) && !References(m', L, i, k);
    assert forall j :: 0 <= j < 1024 && j != i ==> References(m', L, j, k) == References(m, L, j, k);
    assert Referenced(m', L, k) == Referenced(m, L, k);
  }

  /** Some entry of the table that governs `lin`, other than that of `lin`, is present. */
  ghost predicate HasOtherEntry(m: Memory, L: Layout, lin: Word)
    requires L.Ok()
  {
    exists j :: 0 <= j < 1024 && j != TableIndex(lin) && Present(m[WordOf(TableFor(m, L, lin), j)])
  }

  /** A legal map_4kb keeps the pool sound exactly when it leaves its table a present entry:
      otherwise the allocator hands that table out again while the directory still names it. */
  lemma Map4KbNeedsPresent(m: Memory, L: Layout, phyaddr: Word, lin: Word, flags: Word)
    requires L.Ok() && flags < 0x1000 && PoolSound(m, L) && Legal4Kb(m, L, lin)
    ensures PoolSound(Map4Kb(m, L, phyaddr, lin, flags), L) <==> Present(flags) || HasOtherEntry(m, L, lin)
  {
    Map4KbEntries(m, L, phyaddr, lin, flags);
    var m', i, t := Map4Kb(m, L, phyaddr, lin, flags), lin / 0x400000, TableFor(m, L, lin);
    var k := t - L.pool;
    assert References(m', L, i, k);
    WrittenTable(m, L, phyaddr, lin, flags);
    forall k' | 0 <= k' < POOL && k' != k
      ensures Used(m', L, k') == Referenced(m', L, k')
    {
      OtherTablesKept(m, L, phyaddr, lin, flags, k');
    }
    forall j | 0 <= j < 1024 && j != i && IsTable(Pde(m', L, j))
      ensures Pde(m', L, j) / 0x1000 != t
    {
      TableIsOwn(m, L, lin, j);
    }
  }

  lemma WrittenEntry(m: Memory, L: Layout, phyaddr: Word, lin: Word, flags: Word, j: int)
    requires L.Ok() && flags < 0x1000 && PoolSound(m, L) && Legal4Kb(m, L, lin) && 0 <= j < 1024
    ensures var t := TableFor(m, L, lin);
            && L.pool <= t < L.pool + POOL
            && PoolEntry(Map4Kb(m, L, phyaddr, lin, flags), L, t - L.pool, j) ==
               if j == TableIndex(lin) then PteWord(phyaddr, flags) else m[WordOf(t, j)]
  {
    Map4KbEntries(m, L, phyaddr, lin, flags);
    assert PoolEntry(m, L, TableFor(m, L, lin) - L.pool, j) == m[WordOf(TableFor(m, L, lin), j)];
  }

  lemma WrittenTable(m: Memory, L: Layout, phyaddr: Word, lin: Word, flags: Word)
    requires L.Ok() && flags < 0x1000 && PoolSound(m, L) && Legal4Kb(m, L, lin)
    ensures L.pool <= TableFor(m, L, lin) < L.pool + POOL
    ensures Used(Map4Kb(m, L, phyaddr, lin, flags), L, TableFor(m, L, lin) - L.pool) <==>
            Present(flags) || HasOtherEntry(m, L, lin)
  {
    var m', t, i := Map4Kb(m, L, phyaddr, lin, flags), TableFor(m, L, lin), TableIndex(lin);
    WrittenEntry(m, L, phyaddr, lin, flags, i);
    var k := t - L.pool;
    forall j | 0 <= j < 1024
      ensures Present(PoolEntry(m', L, k, j)) == if j == i then Present(flags) else Present(m[WordOf(t, j)])
    {
      WrittenEntry(m, L, phyaddr, lin, flags, j);
    }
    if Present(flags) { assert Present(PoolEntry(m', L, k, i)); }
    if HasOtherEntry(m, L, lin) {
      var j :| 0 <= j < 1024 && j != i && Present(m[WordOf(t, j)]);
      assert Present(PoolEntry(m', L, k, j));
    }
  }

  lemma Map4KbKeeps(m: Memory, L: Layout, phyaddr: Word, lin: Word, flags: Word)
    requires L.Ok() && FlagsOk(flags) && PoolSound(m, L) && Legal4Kb(m, L, lin)
    ensures PoolSound(Map4Kb(m, L, phyaddr, lin, flags), L)
  {
    Map4KbNeedsPresent(m, L, phyaddr, lin, flags);
  }

  // --- What a remapped 4 MiB region does to the windows ---

  lemma Map4MbWindows(m: Memory, L: Layout, phyaddr: Word, lin: Word, flags: Word, i: int)
    requires L.Ok() && flags < 0x1000 && 0 <= i < 256
    ensures WindowAt(Map4Mb(m, L, phyaddr, lin, flags), L, i) <==>
            if lin / 0x400000 == 768 + i then Present(flags) && phyaddr / 0x400000 == i else WindowAt(m, L, i)
  {
    Map4MbEntries(m, L, phyaddr, lin, flags);
  }

  lemma Map4KbWindows(m: Memory, L: Layout, phyaddr: Word, lin: Word, flags: Word, i: int)
    requires L.Ok() && flags < 0x1000 && PoolSound(m, L) && Legal4Kb(m, L, lin)
    requires 0 <= i < 256 && WindowAt(m, L, i)
    ensures WindowAt(WithTable(m, L, lin), L, i) && WindowAt(Map4Kb(m, L, phyaddr, lin, flags), L, i)
  {
    WithTableEntries(m, L, lin);
    Map4KbEntries(m, L, phyaddr, lin, flags);
  }
}
