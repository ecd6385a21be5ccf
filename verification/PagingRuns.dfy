/**
 Whole runs of the mapping operations: they refine a page map updated last writer
 wins, keep the pool sound, and keep every structure the next operation edits
 reachable in the higher half.
 */
module PagingRuns {
  import opened Words
  import opened Mmu
  import opened PagingSpec

  /** What holds between any two operations once the final directory is complete. */
  ghost predicate Inv(m: Memory, L: Layout)
    requires L.Ok()
  {
    PoolSound(m, L) && Home(m, L)
  }

  // --- The boot directory, and which directories carry the higher half ---

  function BootFrame(i: int): int { if i < 768 then i else i - 768 }

  function BootEntry(i: int): (e: Word)
    requires 0 <= i < 1024
    ensures IsLarge(e) && e / 0x400000 == BootFrame(i) && e % 0x400000 == 0x87
  {
    SplitLargeEntry(BootFrame(i) * 0x400000 + 0x87, BootFrame(i), 0x87);
    BootFrame(i) * 0x400000 + 0x87
  }

  predicate BootAt(m: Memory, L: Layout, i: int)
    requires 0 <= i < 1024
  {
    m[WordOf(L.boot, i)] == BootEntry(i)
  }

  ghost predicate BootMap(m: Memory, L: Layout) { forall i :: 0 <= i < 1024 ==> BootAt(m, L, i) }

  /** `root` is a directory under which the kernel can edit its paging structures. */
  ghost predicate Live(m: Memory, L: Layout, root: Page)
    requires L.Ok()
  {
    || (root == L.boot && BootMap(m, L))
    || (root == L.dir && Home(m, L))
  }

  lemma BootWalk(m: Memory, L: Layout, p: Page)
    requires BootMap(m, L)
    ensures WalkPage(m, L.boot, p) == Some(if p < 0xC0000 then p else p - 0xC0000)
  {
    assert BootAt(m, L, p / 1024);
  }

  lemma WindowWalk(m: Memory, L: Layout, p: int)
    requires 0 <= p < 0x40000 && WindowAt(m, L, p / 1024)
    ensures WalkPage(m, L.dir, 0xC0000 + p) == Some(p)
  {
    assert (0xC0000 + p) / 1024 == 768 + p / 1024;
  }

  lemma SelfMappedPage(m: Memory, L: Layout, root: Page, p: int)
    requires L.Ok() && Live(m, L, root) && L.Owns(p)
    ensures p < 0x40000 && WalkPage(m, root, 0xC0000 + p) == Some(p)
  {
    if root == L.boot && BootMap(m, L) {
      BootWalk(m, L, 0xC0000 + p);
    } else {
      HousesMeans(L, p / 1024);
      WindowWalk(m, L, p);
    }
  }

  lemma FrameFor(f: Option<Page>, lin: Word, p: Page, i: int)
    requires 0 <= i < 1024 && lin % 0x1000 == 4 * i
    ensures InFrame(f, lin) == Some(PhysOf(p, i)) <==> f == Some(p)
  {
  }

  lemma HighWalk(m: Memory, root: Page, p: int, i: int)
    requires 0 <= p < 0x40000 && 0 <= i < 1024
    ensures Walk(m, root, HighOf(p, i)) == Some(PhysOf(p, i)) <==> WalkPage(m, root, 0xC0000 + p) == Some(p)
  {
    var lin := HighOf(p, i);
    var f := WalkPage(m, root, lin / 0x1000);
    assert Walk(m, root, lin) == InFrame(f, lin) by { WalkByPage(m, root, lin); }
    FrameFor(f, lin, p, i);
  }

  /** Self-mapping: every word the operations touch sits at VMA plus its physical address. */
  lemma SelfMapped(m: Memory, L: Layout, root: Page, p: int, i: int)
    requires L.Ok() && Live(m, L, root) && L.Owns(p) && 0 <= i < 1024
    ensures p < 0x40000 && Walk(m, root, HighOf(p, i)) == Some(PhysOf(p, i))
  {
    SelfMappedPage(m, L, root, p);
    HighWalk(m, root, p, i);
  }

  // --- The allocator counts table entries ---

  ghost function TableSet(m: Memory, L: Layout): set<int> {
    set i | 0 <= i < 1024 && IsTable(Pde(m, L, i))
  }

  ghost function UsedSet(m: Memory, L: Layout): set<int>
    requires L.Ok()
  {
    set k | 0 <= k < POOL && Used(m, L, k)
  }

  lemma Pick<T>(s: set<T>) returns (x: T)
    requires s != {}
    ensures x in s
  {
    x :| x in s;
  }

  /** An injective map has as many values as keys. */
  lemma {:induction false} InjectiveCard<K, V>(f: map<K, V>)
    requires forall x, y :: x in f && y in f && x != y ==> f[x] != f[y]
    ensures |f.Values| == |f.Keys|
  {
    if f.Keys == {} {
      assert f.Values == {};
    } else {
      var x := Pick(f.Keys);
      var g := f - {x};
      assert f.Keys == g.Keys + {x};
      assert f.Values == g.Values + {f[x]} by {
        forall v | v in f.Values
          ensures v in g.Values + {f[x]}
        {
          var y :| y in f && f[y] == v;
          if y != x { assert y in g && g[y] == v; }
        }
      }
      assert f[x] !in g.Values;
      InjectiveCard(g);
    }
  }

  lemma {:induction false} RangeCard(s: set<int>, n: nat)
    requires forall k :: k in s ==> 0 <= k < n
    ensures |s| <= n && (|s| == n <==> forall k :: 0 <= k < n ==> k in s)
  {
    if n != 0 {
      var t := s - {n - 1};
      RangeCard(t, n - 1);
      if n - 1 in s { assert s == t + {n - 1}; } else { assert s == t; }
      assert forall k :: 0 <= k < n - 1 ==> (k in t <==> k in s);
    } else if s != {} {
      var k := Pick(s);
      assert false;
    }
  }

  /** Which pool table each table entry of the directory names. */
  ghost function Tables(m: Memory, L: Layout): (f: map<int, int>)
    ensures f.Keys == TableSet(m, L)
  {
    map i | i in TableSet(m, L) :: Pde(m, L, i) / 0x1000 - L.pool
  }

  lemma NamedIsUsed(m: Memory, L: Layout, k: int)
    requires L.Ok() && PoolSound(m, L)
    ensures k in Tables(m, L).Values <==> k in UsedSet(m, L)
  {
    var f := Tables(m, L);
    if k in f.Values {
      var i :| i in f && f[i] == k;
      assert References(m, L, i, k) && Referenced(m, L, k);
    }
    if k in UsedSet(m, L) {
      assert Referenced(m, L, k);
      var i :| 0 <= i < 1024 && References(m, L, i, k);
      assert i in f && f[i] == k;
    }
  }

  lemma TablesAreUsed(m: Memory, L: Layout)
    requires L.Ok() && PoolSound(m, L)
    ensures |TableSet(m, L)| == |UsedSet(m, L)|
  {
    var f, used := Tables(m, L), UsedSet(m, L);
    assert forall i, j :: i in f && j in f && i < j ==> f[i] != f[j];
    InjectiveCard(f);
    assert f.Values == used by {
      forall k: int
        ensures k in f.Values <==> k in used
      {
        NamedIsUsed(m, L, k);
      }
    }
  }

  /** The allocator's answer, in terms of references: the first table no directory entry
      points at, or none exactly when ten directory entries are tables. */
  lemma AllocatorMeaning(m: Memory, L: Layout)
    requires L.Ok() && PoolSound(m, L)
    ensures var k := FirstFree(m, L, 0);
            && (forall j :: 0 <= j < k ==> Referenced(m, L, j))
            && (k < POOL ==> !Referenced(m, L, k))
            && (k == POOL <==> |TableSet(m, L)| == 10)
            && |TableSet(m, L)| <= 10
  {
    TablesAreUsed(m, L);
    RangeCard(UsedSet(m, L), POOL);
    var k := FirstFree(m, L, 0);
    forall j | 0 <= j < k
      ensures Referenced(m, L, j) && j in UsedSet(m, L)
    {
      assert Used(m, L, j);
    }
    if k < POOL { assert !Used(m, L, k) && k !in UsedSet(m, L); }
  }

  // --- The abstract page map ---

  /** Which page maps where, and how each 4 MiB region is carried. */
  datatype Space = Space(pages: map<Page, Page>, large: set<int>, tabled: set<int>) {
    function Lookup(p: Page): Option<Page> { if p in pages then Some(pages[p]) else None }
  }

  datatype Op = Op4Mb(phyaddr: Word, lin: Word, flags: Word) | Op4Kb(phyaddr: Word, lin: Word, flags: Word) {
    function Region(): int { lin / 0x400000 }

    predicate Covers(p: Page) { if Op4Mb? then p / 1024 == Region() else p == lin / 0x1000 }

    /** The frame this operation gives page `p`; none when it unmaps. */
    function Frame(p: Page): Option<Page> {
      if Op4Mb? then AskedLarge(phyaddr, flags, p) else Asked(phyaddr, flags)
    }

    /** The entry this operation writes for its pages; none when it unmaps. */
    function Entry(): Option<int> {
      if !Present(flags) then None
      else if Op4Mb? then Some(phyaddr / 0x400000 * 0x400000 + Or(0x80, flags))
      else Some(phyaddr / 0x1000 * 0x1000 + flags)
    }

    /** A 4 MiB mapping of window `i` that only repeats it. */
    predicate Repeats(i: int) { Present(flags) && phyaddr / 0x400000 == i }

    /** A 4 MiB mapping of a window that shows the directory or the pool only repeats it. */
    predicate KeepsHome(L: Layout) { L.Houses(Region() - 768) ==> Repeats(Region() - 768) }

    /** The same of every kernel window. */
    predicate KeepsWindow(L: Layout) {
      768 <= Region() < 768 + L.Windows() ==> Repeats(Region() - 768)
    }

    predicate SparesWindows(L: Layout) { Op4Mb? ==> KeepsWindow(L) }

    /** Another page of the region is mapped. */
    predicate HasNeighbour(s: Space) { exists q :: q in s.pages && q / 1024 == Region() && q != lin / 0x1000 }

    /** What keeps the pool sound, on the abstract state: no table is replaced, none is needed
        when all are in use, and none is left without a present entry. */
    predicate Allowed(L: Layout, s: Space) {
      && flags < 0x1000
      && if Op4Mb? then Region() !in s.tabled
         else
           && Region() !in s.large && (Region() in s.tabled || |s.tabled| < POOL)
           && (Present(flags) || HasNeighbour(s))
    }

    /** All obligations of the source's callers. */
    predicate Legal(L: Layout, s: Space) { Allowed(L, s) && (Op4Mb? ==> KeepsHome(L)) }
  }

  function AbsPages(s: Space, op: Op): map<Page, Page> {
    if !Present(op.flags) then map q | q in s.pages && !op.Covers(q) :: s.pages[q]
    else if op.Op4Kb? then s.pages[op.lin / 0x1000 := op.phyaddr / 0x1000]
    else
      s.pages + map p: Page | op.Region() * 1024 <= p < op.Region() * 1024 + 1024 :: LargeFrame(op.phyaddr, p)
  }

  function AbsStep(s: Space, op: Op): Space {
    if op.Op4Kb? then Space(AbsPages(s, op), s.large, s.tabled + {op.Region()})
    else
      var large := if Present(op.flags) then s.large + {op.Region()} else s.large - {op.Region()};
      Space(AbsPages(s, op), large, s.tabled)
  }

  function AbsRun(s: Space, ops: seq<Op>): Space
    decreases |ops|
  {
    if ops == [] then s else AbsRun(AbsStep(s, ops[0]), ops[1..])
  }

  predicate LegalRun(L: Layout, s: Space, ops: seq<Op>)
    decreases |ops|
  {
    ops != [] ==> ops[0].Legal(L, s) && LegalRun(L, AbsStep(s, ops[0]), ops[1..])
  }

  ghost predicate Refines(m: Memory, L: Layout, s: Space) {
    && (forall p: Page :: WalkPage(m, L.dir, p) == s.Lookup(p))
    && (forall i :: i in s.large ==> 0 <= i < 1024)
    && (forall i :: i in s.tabled ==> 0 <= i < 1024)
    && (forall i :: 0 <= i < 1024 ==> (i in s.large <==> IsLarge(Pde(m, L, i))))
    && (forall i :: 0 <= i < 1024 ==> (i in s.tabled <==> IsTable(Pde(m, L, i))))
  }

  lemma AbsStepLookup(s: Space, op: Op, p: Page)
    ensures AbsStep(s, op).Lookup(p) == if op.Covers(p) then op.Frame(p) else s.Lookup(p)
  {
  }

  /** The same obligations, on memory. */
  ghost predicate Obeys(m: Memory, L: Layout, op: Op)
    requires L.Ok()
  {
    && op.flags < 0x1000
    && if op.Op4Mb? then Legal4Mb(m, L, op.lin)
       else Legal4Kb(m, L, op.lin) && (Present(op.flags) || HasOtherEntry(m, L, op.lin))
  }

  lemma NeighbourMeans(m: Memory, L: Layout, s: Space, op: Op)
    requires L.Ok() && Refines(m, L, s) && op.Region() !in s.large && op.HasNeighbour(s)
    ensures HasOtherEntry(m, L, op.lin)
  {
    var q: Page :| q in s.pages && q / 1024 == op.Region() && q != op.lin / 0x1000;
    var e := Pde(m, L, q / 1024);
    assert WalkPage(m, L.dir, q) == s.Lookup(q) == Some(s.pages[q]);
    assert PdeFor(m, L.dir, q) == e && IsTable(e);
    PageInRegion(op.lin, q);
    assert Present(m[WordOf(TableFor(m, L, op.lin), q % 1024)]);
  }

  /** Abstract obligations are the concrete ones. */
  lemma LegalMeans(m: Memory, L: Layout, s: Space, op: Op)
    requires L.Ok() && PoolSound(m, L) && Refines(m, L, s) && op.Allowed(L, s)
    ensures Obeys(m, L, op)
  {
    assert s.tabled == TableSet(m, L);
    assert FirstFree(m, L, 0) == POOL <==> |s.tabled| == POOL by { AllocatorMeaning(m, L); }
    if op.Op4Kb? && !Present(op.flags) { NeighbourMeans(m, L, s, op); }
  }

  ghost function Step(m: Memory, L: Layout, op: Op): Memory
    requires L.Ok() && op.flags < 0x1000
  {
    if op.Op4Mb? then Map4Mb(m, L, op.phyaddr, op.lin, op.flags)
    else Map4Kb(m, L, op.phyaddr, op.lin, op.flags)
  }

  lemma StepWalk(m: Memory, L: Layout, op: Op, p: Page)
    requires L.Ok() && PoolSound(m, L) && Obeys(m, L, op)
    ensures WalkPage(Step(m, L, op), L.dir, p) ==
            if op.Covers(p) then op.Frame(p) else WalkPage(m, L.dir, p)
  {
    if op.Op4Mb? {
      assert Step(m, L, op) == Map4Mb(m, L, op.phyaddr, op.lin, op.flags);
      Map4MbWalk(m, L, op.phyaddr, op.lin, op.flags, p);
    } else {
      assert Step(m, L, op) == Map4Kb(m, L, op.phyaddr, op.lin, op.flags);
      Map4KbWalk(m, L, op.phyaddr, op.lin, op.flags, p);
    }
  }

  lemma StepEntry(m: Memory, L: Layout, op: Op, p: Page)
    requires L.Ok() && PoolSound(m, L) && Obeys(m, L, op)
    ensures MappingEntry(Step(m, L, op), L.dir, p) ==
            if op.Covers(p) then op.Entry() else MappingEntry(m, L.dir, p)
  {
    if op.Op4Mb? {
      Map4MbMapping(m, L, op.phyaddr, op.lin, op.flags, p);
    } else if p / 1024 == op.Region() {
      Map4KbMappingInside(m, L, op.phyaddr, op.lin, op.flags, p);
    } else {
      Map4KbMappingOutside(m, L, op.phyaddr, op.lin, op.flags, p);
    }
  }

  lemma StepKeepsPool(m: Memory, L: Layout, op: Op)
    requires L.Ok() && PoolSound(m, L) && Obeys(m, L, op)
    ensures PoolSound(Step(m, L, op), L)
  {
    if op.Op4Mb? {
      Map4MbKeeps(m, L, op.phyaddr, op.lin, op.flags);
    } else {
      Map4KbNeedsPresent(m, L, op.phyaddr, op.lin, op.flags);
    }
  }

  // --- Exactly which 4 MiB mappings cost the kernel its structures ---

  /** Every word of the directory and of the pool is at VMA plus its physical address. */
  ghost predicate Reachable(m: Memory, L: Layout)
    requires L.Ok()
  {
    forall p, i :: L.Owns(p) && 0 <= i < 1024 ==> Walk(m, L.dir, HighOf(p, i)) == Some(PhysOf(p, i))
  }

  lemma Map4MbHome(m: Memory, L: Layout, phyaddr: Word, lin: Word, flags: Word)
    requires L.Ok() && flags < 0x1000 && Home(m, L)
    ensures Home(Map4Mb(m, L, phyaddr, lin, flags), L) <==> Op4Mb(phyaddr, lin, flags).KeepsHome(L)
  {
    var m', r := Map4Mb(m, L, phyaddr, lin, flags), lin / 0x400000 - 768;
    forall i | 0 <= i < 256
      ensures WindowAt(m', L, i) <==> if r == i then Op4Mb(phyaddr, lin, flags).Repeats(i) else WindowAt(m, L, i)
    {
      Map4MbWindows(m, L, phyaddr, lin, flags, i);
    }
    HousesMeans(L, r);
  }

  /** map_4mb leaves every structure where the next call looks for it exactly when it neither
      moves nor unmaps a window that shows one. */
  lemma Map4MbReaches(m: Memory, L: Layout, phyaddr: Word, lin: Word, flags: Word)
    requires L.Ok() && flags < 0x1000 && Inv(m, L)
    ensures Reachable(Map4Mb(m, L, phyaddr, lin, flags), L) <==>
            forall p: Page :: L.Owns(p) && 768 + p / 1024 == lin / 0x400000 ==>
              Present(flags) && phyaddr / 0x400000 == p / 1024
  {
    var m', r := Map4Mb(m, L, phyaddr, lin, flags), lin / 0x400000 - 768;
    Map4MbHome(m, L, phyaddr, lin, flags);
    HousesMeans(L, r);
    if Home(m', L) {
      forall p, i | L.Owns(p) && 0 <= i < 1024
        ensures Walk(m', L.dir, HighOf(p, i)) == Some(PhysOf(p, i))
      {
        SelfMapped(m', L, L.dir, p, i);
      }
    } else {
      var p: Page :| L.Owns(p) && p / 1024 == r;
      Map4MbWalk(m, L, phyaddr, lin, flags, 0xC0000 + p);
      HighWalk(m', L.dir, p, 0);
    }
  }

  /** map_4mb leaves all kernel windows in place exactly when it repeats or misses them. */
  lemma Map4MbKeepsWindows(m: Memory, L: Layout, phyaddr: Word, lin: Word, flags: Word)
    requires L.Ok() && flags < 0x1000 && Window(m, L, L.Windows())
    ensures Window(Map4Mb(m, L, phyaddr, lin, flags), L, L.Windows()) <==>
            Op4Mb(phyaddr, lin, flags).KeepsWindow(L)
  {
    var m', r := Map4Mb(m, L, phyaddr, lin, flags), lin / 0x400000 - 768;
    forall i | 0 <= i < 256
      ensures WindowAt(m', L, i) <==> if r == i then Op4Mb(phyaddr, lin, flags).Repeats(i) else WindowAt(m, L, i)
    {
      Map4MbWindows(m, L, phyaddr, lin, flags, i);
    }
    assert 0 <= r < L.Windows() ==> (WindowAt(m', L, r) <==> Op4Mb(phyaddr, lin, flags).Repeats(r));
  }

  lemma StepWindows(m: Memory, L: Layout, op: Op)
    requires L.Ok() && PoolSound(m, L) && op.flags < 0x1000 && (op.Op4Kb? ==> Legal4Kb(m, L, op.lin))
    requires Window(m, L, L.Windows())
    ensures Window(Step(m, L, op), L, L.Windows()) <==> op.SparesWindows(L)
  {
    if op.Op4Mb? {
      Map4MbKeepsWindows(m, L, op.phyaddr, op.lin, op.flags);
    } else {
      forall i | 0 <= i < L.Windows()
        ensures WindowAt(Step(m, L, op), L, i)
      {
        assert WindowAt(m, L, i);
        Map4KbWindows(m, L, op.phyaddr, op.lin, op.flags, i);
      }
    }
  }

  /** A kernel of two windows with all its structures in the first. */
  const SMALL: Layout := Layout(300, 310, 330, 0x800000)

  /** Where a page of a moved window shows up. */
  lemma MovedPage(m: Memory, L: Layout, phyaddr: Word, lin: Word, flags: Word, p: Page, i: int)
    requires L.Ok() && FlagsOk(flags) && PoolSound(m, L)
    requires p < 0x40000 && 0 <= i < 1024 && lin / 0x400000 == 768 + p / 1024
    ensures Walk(Map4Mb(m, L, phyaddr, lin, flags), L.dir, HighOf(p, i)) ==
            Some(PhysOf(LargeFrame(phyaddr, p), i))
  {
    var m', q, f := Map4Mb(m, L, phyaddr, lin, flags), 0xC0000 + p, LargeFrame(phyaddr, p);
    assert q / 1024 == 768 + p / 1024 && q % 1024 == p % 1024;
    assert WalkPage(m', L.dir, q) == Some(f) by { Map4MbWalk(m, L, phyaddr, lin, flags, q); }
    assert Walk(m', L.dir, HighOf(p, i)) == InFrame(Some(f), HighOf(p, i)) by { WalkByPage(m', L.dir, HighOf(p, i)); }
    FrameFor(Some(f), HighOf(p, i), f, i);
  }

  /** One call takes the directory away from the next: the word at its address is another. */
  lemma MovedDirectory(m: Memory)
    requires Inv(m, SMALL)
    ensures Walk(m, SMALL.dir, HighOf(300, 0)) == Some(PhysOf(300, 0))
    ensures Walk(Map4Mb(m, SMALL, 0x1000_0000, 0xC000_0000, 3), SMALL.dir, HighOf(300, 0)) == Some(PhysOf(0x1012C, 0))
    ensures !Reachable(Map4Mb(m, SMALL, 0x1000_0000, 0xC000_0000, 3), SMALL)
  {
    SelfMapped(m, SMALL, SMALL.dir, 300, 0);
    MovedPage(m, SMALL, 0x1000_0000, 0xC000_0000, 3, 300, 0);
    Map4MbReaches(m, SMALL, 0x1000_0000, 0xC000_0000, 3);
    assert SMALL.Owns(300);
  }

  /** Moving the other window costs the kernel that window and no structure. */
  lemma MovedOtherWindow(m: Memory)
    requires Inv(m, SMALL) && Window(m, SMALL, SMALL.Windows())
    ensures var m' := Map4Mb(m, SMALL, 0x1000_0000, 0xC080_0000, 3);
            Reachable(m', SMALL) && !Window(m', SMALL, SMALL.Windows())
  {
    Map4MbReaches(m, SMALL, 0x1000_0000, 0xC080_0000, 3);
    Map4MbKeepsWindows(m, SMALL, 0x1000_0000, 0xC080_0000, 3);
  }

  lemma StepKinds(m: Memory, L: Layout, op: Op, i: int)
    requires L.Ok() && PoolSound(m, L) && Obeys(m, L, op) && 0 <= i < 1024
    ensures var e, e' := Pde(m, L, i), Pde(Step(m, L, op), L, i);
            if i != op.Region() then e' == e
            else if op.Op4Mb? then PageSize(e') && Present(e') == Present(op.flags)
            else IsTable(e')
    ensures op.Op4Mb? ==> !IsTable(Pde(m, L, op.Region()))
    ensures op.Op4Kb? ==> !IsLarge(Pde(m, L, op.Region()))
  {
    if op.Op4Mb? {
      Map4MbEntries(m, L, op.phyaddr, op.lin, op.flags);
    } else {
      Map4KbEntries(m, L, op.phyaddr, op.lin, op.flags);
    }
  }

  /** An operation keeps the structures in their windows exactly when it moves none of those. */
  lemma StepHome(m: Memory, L: Layout, op: Op)
    requires L.Ok() && Inv(m, L) && op.flags < 0x1000 && (op.Op4Kb? ==> Legal4Kb(m, L, op.lin))
    ensures Home(Step(m, L, op), L) <==> (op.Op4Mb? ==> op.KeepsHome(L))
  {
    if op.Op4Mb? {
      Map4MbHome(m, L, op.phyaddr, op.lin, op.flags);
    } else {
      forall i | 0 <= i < 256 && L.Houses(i)
        ensures WindowAt(Step(m, L, op), L, i)
      {
        Map4KbWindows(m, L, op.phyaddr, op.lin, op.flags, i);
      }
    }
  }

  /** One operation that keeps the pool sound refines one abstract step, wherever the
      structures are; a legal one keeps them where they are. */
  lemma StepRefines(m: Memory, L: Layout, s: Space, op: Op)
    requires L.Ok() && PoolSound(m, L) && Refines(m, L, s) && op.Allowed(L, s)
    ensures Obeys(m, L, op)
    ensures PoolSound(Step(m, L, op), L) && Refines(Step(m, L, op), L, AbsStep(s, op))
    ensures Home(m, L) ==> (Home(Step(m, L, op), L) <==> op.Legal(L, s))
  {
    LegalMeans(m, L, s, op);
    StepKeepsPool(m, L, op);
    if Home(m, L) { StepHome(m, L, op); }
    var m', s' := Step(m, L, op), AbsStep(s, op);
    forall p: Page
      ensures WalkPage(m', L.dir, p) == s'.Lookup(p)
    {
      StepWalk(m, L, op, p);
      AbsStepLookup(s, op, p);
    }
    forall i | 0 <= i < 1024
      ensures i in s'.large <==> IsLarge(Pde(m', L, i))
      ensures i in s'.tabled <==> IsTable(Pde(m', L, i))
    {
      StepKinds(m, L, op, i);
    }
  }

  /** Memory after a legal run.  The contract is the refinement theorem. */
  ghost function Exec(m: Memory, L: Layout, s: Space, ops: seq<Op>): (m': Memory)
    requires L.Ok() && Inv(m, L) && Refines(m, L, s) && LegalRun(L, s, ops)
    ensures Inv(m', L) && Refines(m', L, AbsRun(s, ops))
    ensures Window(m, L, L.Windows()) && (forall k :: 0 <= k < |ops| ==> ops[k].SparesWindows(L)) ==>
              Window(m', L, L.Windows())
    decreases |ops|
  {
    if ops == [] then m
    else
      StepRefines(m, L, s, ops[0]);
      assert Window(m, L, L.Windows()) && ops[0].SparesWindows(L) ==> Window(Step(m, L, ops[0]), L, L.Windows()) by {
        if Window(m, L, L.Windows()) { StepWindows(m, L, ops[0]); }
      }
      Exec(Step(m, L, ops[0]), L, AbsStep(s, ops[0]), ops[1..])
  }

  /** The entry the last operation covering `p` wrote; `before` when none covers it. */
  function LastEntry(ops: seq<Op>, p: Page, before: Option<int>): Option<int>
    decreases |ops|
  {
    if ops == [] then before
    else LastEntry(ops[1..], p, if ops[0].Covers(p) then ops[0].Entry() else before)
  }

  /** Flags survive runs as frames do: after any legal run the entry that maps each page, flags
      included, is the one the last operation that covered it asked for, and as before when
      none did. */
  lemma {:induction false} RunEntries(m: Memory, L: Layout, s: Space, ops: seq<Op>, p: Page)
    requires L.Ok() && Inv(m, L) && Refines(m, L, s) && LegalRun(L, s, ops)
    ensures MappingEntry(Exec(m, L, s, ops), L.dir, p) == LastEntry(ops, p, MappingEntry(m, L.dir, p))
    decreases |ops|
  {
    if ops != [] {
      StepRefines(m, L, s, ops[0]);
      StepEntry(m, L, ops[0], p);
      RunEntries(Step(m, L, ops[0]), L, AbsStep(s, ops[0]), ops[1..], p);
    }
  }

  /** What the last operation covering `p` gave it; `before` when none covers it. */
  function LastWrite(ops: seq<Op>, p: Page, before: Option<Page>): Option<Page> {
    if ops == [] then before
    else
      var last := ops[|ops| - 1];
      if last.Covers(p) then last.Frame(p) else LastWrite(ops[..|ops| - 1], p, before)
  }

  lemma {:induction false} LastWriteFront(ops: seq<Op>, p: Page, before: Option<Page>)
    requires ops != []
    ensures LastWrite(ops, p, before) ==
            LastWrite(ops[1..], p, if ops[0].Covers(p) then ops[0].Frame(p) else before)
    decreases |ops|
  {
    if |ops| == 1 {
      assert ops[..0] == [] && ops[1..] == [];
    } else {
      var init := ops[..|ops| - 1];
      LastWriteFront(init, p, before);
      assert ops[1..][..|ops| - 2] == init[1..];
    }
  }

  lemma {:induction false} AbsRunLookup(s: Space, ops: seq<Op>, p: Page)
    ensures AbsRun(s, ops).Lookup(p) == LastWrite(ops, p, s.Lookup(p))
    decreases |ops|
  {
    if ops != [] {
      AbsStepLookup(s, ops[0], p);
      AbsRunLookup(AbsStep(s, ops[0]), ops[1..], p);
      LastWriteFront(ops, p, s.Lookup(p));
    }
  }

  lemma RefinesWalk(m: Memory, L: Layout, s: Space, lin: Word)
    requires Refines(m, L, s)
    ensures Walk(m, L.dir, lin) == InFrame(s.Lookup(lin / 0x1000), lin)
  {
    WalkByPage(m, L.dir, lin);
    assert WalkPage(m, L.dir, lin / 0x1000) == s.Lookup(lin / 0x1000);
  }

  /** Main refinement theorem: after any legal run every page maps where the last operation
      that covered it said, and as before when none did. */
  lemma LastWriterWins(m: Memory, L: Layout, s: Space, ops: seq<Op>, p: Page)
    requires L.Ok() && Inv(m, L) && Refines(m, L, s) && LegalRun(L, s, ops)
    ensures WalkPage(Exec(m, L, s, ops), L.dir, p) == LastWrite(ops, p, WalkPage(m, L.dir, p))
  {
    AbsRunLookup(s, ops, p);
  }

  /** The same of every 32-bit linear address, for any memory `m'` that refines the run, as
      the memory of Exec does. */
  lemma RunTranslates(m: Memory, m': Memory, L: Layout, s: Space, ops: seq<Op>, lin: Word)
    requires Refines(m, L, s) && Refines(m', L, AbsRun(s, ops))
    ensures Walk(m', L.dir, lin) == InFrame(LastWrite(ops, lin / 0x1000, WalkPage(m, L.dir, lin / 0x1000)), lin)
  {
    AbsRunLookup(s, ops, lin / 0x1000);
    RefinesWalk(m', L, AbsRun(s, ops), lin);
    assert WalkPage(m, L.dir, lin / 0x1000) == s.Lookup(lin / 0x1000);
  }

  /** After any legal run page `p` of the lower gigabyte shows at VMA plus its address exactly
      when the last operation that covered its place there put it there. */
  lemma RunShows(m: Memory, L: Layout, s: Space, ops: seq<Op>, p: int, i: int)
    requires L.Ok() && Inv(m, L) && Refines(m, L, s) && LegalRun(L, s, ops)
    requires 0 <= p < 0x40000 && 0 <= i < 1024
    ensures Walk(Exec(m, L, s, ops), L.dir, HighOf(p, i)) == Some(PhysOf(p, i)) <==>
            LastWrite(ops, 0xC0000 + p, WalkPage(m, L.dir, 0xC0000 + p)) == Some(p)
  {
    LastWriterWins(m, L, s, ops, 0xC0000 + p);
    HighWalk(Exec(m, L, s, ops), L.dir, p, i);
  }

  /** Self-mapping over whole runs: after any legal run, every word of the directory and of the
      pool is still at VMA plus its physical address. */
  lemma RunSelfMapped(m: Memory, L: Layout, s: Space, ops: seq<Op>)
    requires L.Ok() && Inv(m, L) && Refines(m, L, s) && LegalRun(L, s, ops)
    ensures Reachable(Exec(m, L, s, ops), L)
  {
    var m' := Exec(m, L, s, ops);
    forall p, i | L.Owns(p) && 0 <= i < 1024
      ensures Walk(m', L.dir, HighOf(p, i)) == Some(PhysOf(p, i))
    {
      SelfMapped(m', L, L.dir, p, i);
    }
  }
}
