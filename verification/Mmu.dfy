/**
 32-bit paging as the processor performs it (Intel SDM Vol. 3A, section 4.3),
 stated over a word-addressed snapshot of physical memory and written with
 arithmetic only, independently of the kernel's masks.  A TLB caches walks, each with
 the size of the page it came from (section 4.10.2), and is filled and evicted at the
 processor's whim.

 Page numbers are addresses divided by 4096.  `root` is the page number of the
 page directory that CR3 points at.
 */
module Mmu {
  import opened Words

  const RAM_WORDS: nat := 0x4000_0000
  const PAGES: nat := 0x10_0000

  type Memory = m: seq<Word> | |m| == RAM_WORDS witness seq(RAM_WORDS, i => 0)
  type Page = p: int | 0 <= p < PAGES

  /** A cached translation: the frame, and whether it came from a 4 MiB page. */
  datatype Entry = Entry(frame: Page, large: bool)

  type Tlb = map<Page, Entry>

  predicate Present(e: Word) { e % 2 == 1 }

  predicate PageSize(e: Word) { e / 0x80 % 2 == 1 }

  predicate IsLarge(e: Word) { Present(e) && PageSize(e) }

  predicate IsTable(e: Word) { Present(e) && !PageSize(e) }

  /** Word number `i` of physical page `p`. */
  function WordOf(p: Page, i: int): (w: int)
    requires 0 <= i < 1024
    ensures 0 <= w < RAM_WORDS
  {
    p * 1024 + i
  }

  /** The directory entry that governs linear page `p`. */
  function PdeFor(m: Memory, root: Page, p: Page): Word { m[WordOf(root, p / 1024)] }

  /** The frame inside a 4 MiB page, and the frame a table entry names. */
  function LargeFrame(e: Word, p: Page): Page { e / 0x400000 * 1024 + p % 1024 }

  function SmallFrame(e: Word): Page { e / 0x1000 }

  /** The frame linear page `p` maps to, if any. */
  function WalkPage(m: Memory, root: Page, p: Page): Option<Page> {
    var pde := PdeFor(m, root, p);
    if !Present(pde) then None
    else if PageSize(pde) then Some(LargeFrame(pde, p))
    else
      var pte := m[WordOf(SmallFrame(pde), p % 1024)];
      if Present(pte) then Some(SmallFrame(pte)) else None
  }

  /** What the TLB may hold for linear page `p`. */
  function WalkEntry(m: Memory, root: Page, p: Page): Option<Entry> {
    var f := WalkPage(m, root, p);
    if f.Some? then Some(Entry(f.value, PageSize(PdeFor(m, root, p)))) else None
  }

  /** The entry that maps linear page `p`: the directory's for a 4 MiB page, the table's
      otherwise.  Its low twelve bits are the page's flags. */
  function MappingEntry(m: Memory, root: Page, p: Page): Option<Word> {
    var pde := PdeFor(m, root, p);
    if !Present(pde) then None
    else if PageSize(pde) then Some(pde)
    else
      var pte := m[WordOf(SmallFrame(pde), p % 1024)];
      if Present(pte) then Some(pte) else None
  }

  /** Bits 31:22 and 21:12 of a linear address. */
  function DirIndex(lin: Word): (i: int)
    ensures 0 <= i < 1024 && i == lin / 0x1000 / 1024
  {
    lin / 0x400000
  }

  function TableIndex(lin: Word): (i: int)
    ensures 0 <= i < 1024
  {
    lin / 0x1000 % 1024
  }

  /** The address at `lin`'s offset in the 4 MiB frame of entry `e`. */
  function LargeAddress(e: Word, lin: Word): (a: Word)
    ensures a == LargeFrame(e, lin / 0x1000) * 0x1000 + lin % 0x1000
  {
    assert lin % 0x400000 == lin / 0x1000 % 1024 * 0x1000 + lin % 0x1000;
    e - e % 0x400000 + lin % 0x400000
  }

  /** The address at `lin`'s offset in the 4 KiB frame of entry `e`. */
  function SmallAddress(e: Word, lin: Word): (a: Word)
    ensures a == SmallFrame(e) * 0x1000 + lin % 0x1000
  {
    e - e % 0x1000 + lin % 0x1000
  }

  /** Address translation, bit fields as the manual's figures 4-2 and 4-3 draw them. */
  function Walk(m: Memory, root: Page, lin: Word): Option<Word> {
    var pde := m[WordOf(root, DirIndex(lin))];
    if !Present(pde) then None
    else if PageSize(pde) then Some(LargeAddress(pde, lin))
    else
      var pte := m[WordOf(SmallFrame(pde), TableIndex(lin))];
      if Present(pte) then Some(SmallAddress(pte, lin)) else None
  }

  /** The byte at `lin`'s offset in frame `f`. */
  function InFrame(f: Option<Page>, lin: Word): Option<Word> {
    if f.Some? then Some(f.value * 0x1000 + lin % 0x1000) else None
  }

  /** Translation is page-wise: the two definitions say the same of every address. */
  lemma WalkByPage(m: Memory, root: Page, lin: Word)
    ensures Walk(m, root, lin) == InFrame(WalkPage(m, root, lin / 0x1000), lin)
  {
  }

  lemma WalkFromPage(m: Memory, root: Page, lin: Word, f: Page)
    requires WalkPage(m, root, lin / 0x1000) == Some(f)
    ensures Walk(m, root, lin) == Some(f * 0x1000 + lin % 0x1000)
  {
    WalkByPage(m, root, lin);
  }

  /** Every cached translation outside pages lo..hi-1 is the current walk's. */
  ghost predicate CoherentBut(t: Tlb, m: Memory, root: Page, lo: int, hi: int) {
    forall p :: p in t && !(lo <= p < hi) ==> WalkEntry(m, root, p) == Some(t[p])
  }

  ghost predicate Coherent(t: Tlb, m: Memory, root: Page) { CoherentBut(t, m, root, 0, 0) }

  /** Every cached translation has the frame the current walk finds, whatever its kind. */
  ghost predicate Right(t: Tlb, m: Memory, root: Page) {
    forall p :: p in t ==> WalkPage(m, root, p) == Some(t[p].frame)
  }

  /** Every cached translation is the walk of the memory before or after a store. */
  ghost predicate Justified(t: Tlb, m: Memory, m': Memory, root: Page) {
    forall p :: p in t ==> WalkEntry(m, root, p) == Some(t[p]) || WalkEntry(m', root, p) == Some(t[p])
  }

  /** `t1` can follow `t0` by evictions and by fills from memory `m`. */
  ghost predicate Evolves(t0: Tlb, t1: Tlb, m: Memory, root: Page) {
    forall p :: p in t1 ==> (p in t0 && t0[p] == t1[p]) || WalkEntry(m, root, p) == Some(t1[p])
  }

  /** What INVLPG drops (section 4.10.4.1): all translations of the page number of `lin`, that
      is of its 4 KiB page and, cached from a 4 MiB page, of its whole region.  A translation
      another page of the region got from a page table stays. */
  predicate Drops(lin: Word, p: Page, e: Entry) {
    p == lin / 0x1000 || (e.large && p / 1024 == DirIndex(lin))
  }

  /** `t1` can follow `t0` across an INVLPG: what it drops may only come back by a fresh walk. */
  ghost predicate AfterInvlpg(t0: Tlb, t1: Tlb, m: Memory, root: Page, lin: Word) {
    forall p :: p in t1 ==>
                  || (p in t0 && t0[p] == t1[p] && !Drops(lin, p, t0[p]))
                  || WalkEntry(m, root, p) == Some(t1[p])
  }

  /** All that can be stale is what INVLPG drops. */
  ghost predicate CoherentButDropped(t: Tlb, m: Memory, root: Page, lin: Word) {
    forall p :: p in t ==> Drops(lin, p, t[p]) || WalkEntry(m, root, p) == Some(t[p])
  }

  /** INVLPG is sure to make the TLB coherent exactly then. */
  lemma InvlpgRestores(t0: Tlb, m: Memory, root: Page, lin: Word)
    ensures (forall t1: Tlb :: AfterInvlpg(t0, t1, m, root, lin) ==> Coherent(t1, m, root)) <==>
            CoherentButDropped(t0, m, root, lin)
  {
    if !CoherentButDropped(t0, m, root, lin) {
      var kept := map p | p in t0 && !Drops(lin, p, t0[p]) :: t0[p];
      assert AfterInvlpg(t0, kept, m, root, lin);
    }
  }

  /** The processor: control registers, TLB and the memory behind them. */
  class Machine {
    const ram: array<Word>
    var cr0: Word
    var cr3: Word
    var cr4: Word
    var tlb: Tlb

    ghost predicate Valid() reads this { ram.Length == RAM_WORDS }

    ghost function Mem(): Memory
      requires Valid()
      reads this, ram
    {
      ram[..]
    }

    function Root(): Page reads this { cr3 / 0x1000 }

    /** CR0.PG and CR4.PSE are set. */
    predicate Paging() reads this { cr0 / 0x8000_0000 == 1 && cr4 / 0x10 % 2 == 1 }

    constructor (ram: array<Word>)
      requires ram.Length == RAM_WORDS
      ensures Valid() && this.ram == ram && cr0 == cr3 == cr4 == 0 && tlb == map[]
    {
      this.ram := ram;
      cr0, cr3, cr4, tlb := 0, 0, 0, map[];
    }

    /** Any number of fills and evictions, in any order. */
    method Speculate()
      requires Valid()
      modifies `tlb
      ensures Evolves(old(tlb), tlb, Mem(), Root())
    {
      var n: nat :| true;
      for i := 0 to n
        invariant Evolves(old(tlb), tlb, Mem(), Root())
      {
        var p: Page :| true;
        if * {
          tlb := tlb - {p};
        } else {
          var e := ReadPage(p);
          if e.Some? { tlb := tlb[p := e.value]; }
        }
      }
    }

    /** The hardware walk of one page. */
    method ReadPage(p: Page) returns (e: Option<Entry>)
      requires Valid()
      ensures e == WalkEntry(Mem(), Root(), p)
    {
      var pde := ram[WordOf(Root(), p / 1024)];
      if !Present(pde) { return None; }
      if PageSize(pde) { return Some(Entry(LargeFrame(pde, p), true)); }
      var pte := ram[WordOf(SmallFrame(pde), p % 1024)];
      e := if Present(pte) then Some(Entry(SmallFrame(pte), false)) else None;
    }

    /** Translate through the TLB when it holds the page, by a walk otherwise. */
    method Translate(lin: Word) returns (pa: Option<Word>)
      requires Valid() && Paging()
      modifies `tlb
      ensures Evolves(old(tlb), tlb, Mem(), Root())
      ensures (lin / 0x1000 in old(tlb) ==> WalkEntry(Mem(), Root(), lin / 0x1000) == Some(old(tlb)[lin / 0x1000]))
              ==> pa == Walk(Mem(), Root(), lin)
    {
      WalkByPage(Mem(), Root(), lin);
      Speculate();
      var p := lin / 0x1000;
      var e;
      if p in tlb { e := Some(tlb[p]); } else { e := ReadPage(p); }
      pa := InFrame(if e.Some? then Some(e.value.frame) else None, lin);
    }

    /** A load that page-faults (None) on an unmapped address. */
    method TryLoad(lin: Word) returns (v: Option<Word>)
      requires Valid() && Paging() && lin % 4 == 0
      requires Coherent(tlb, Mem(), Root())
      modifies `tlb
      ensures Coherent(tlb, Mem(), Root())
      ensures v == match Walk(Mem(), Root(), lin) case None => None case Some(pa) => Some(Mem()[pa / 4])
    {
      var pa := Translate(lin);
      if pa.None? { return None; }
      v := Some(ram[pa.value / 4]);
    }

    method Load(lin: Word, ghost pa: Word) returns (v: Word)
      requires Valid() && Paging() && lin % 4 == 0
      requires Coherent(tlb, Mem(), Root())
      requires Walk(Mem(), Root(), lin) == Some(pa)
      modifies `tlb
      ensures Coherent(tlb, Mem(), Root())
      ensures v == Mem()[pa / 4]
    {
      var r := TryLoad(lin);
      v := r.value;
    }

    /** A store: it reaches the walk's address, whatever the TLB did before, or page-faults. */
    method TryStore(lin: Word, v: Word) returns (fault: bool)
      requires Valid() && Paging() && lin % 4 == 0
      requires Coherent(tlb, Mem(), Root())
      modifies `tlb, ram
      ensures match Walk(old(Mem()), Root(), lin)
              case None => fault && Mem() == old(Mem())
              case Some(pa) => !fault && Mem() == old(Mem())[pa / 4 := v]
      ensures Justified(tlb, old(Mem()), Mem(), Root())
    {
      var pa := Translate(lin);
      if pa.None? { return true; }
      ram[pa.value / 4] := v;
      assert Mem() == old(Mem())[pa.value / 4 := v];
      Speculate();
      fault := false;
    }

    /** A store to an address known to be mapped. */
    method Store(lin: Word, v: Word, ghost pa: Word)
      requires Valid() && Paging() && lin % 4 == 0
      requires Coherent(tlb, Mem(), Root())
      requires Walk(Mem(), Root(), lin) == Some(pa)
      modifies `tlb, ram
      ensures Mem() == old(Mem())[pa / 4 := v]
      ensures Justified(tlb, old(Mem()), Mem(), Root())
    {
      var fault := TryStore(lin, v);
    }

    method Invlpg(lin: Word)
      requires Valid()
      modifies `tlb
      ensures AfterInvlpg(old(tlb), tlb, Mem(), Root(), lin)
    {
      tlb := map p | p in tlb && !Drops(lin, p, tlb[p]) :: tlb[p];
      Speculate();
    }

    /** MOV to CR3 drops every translation (no page is global: CR4.PGE is never set). */
    method LoadCr3(v: Word)
      requires Valid()
      modifies `cr3, `tlb
      ensures cr3 == v && Coherent(tlb, Mem(), Root())
    {
      cr3 := v;
      tlb := map[];
      Speculate();
    }
  }
}
