/**
 ksrc/acpi.c: the search for the RSDP (section 5.2.5.1 of the ACPI standard, signature only).
 `mem` is physical memory from 0 up, seen at VMA in the higher half.
 */
module Rsdp {
  import opened Words
  import opened Mem

  const EBDA_POINTER: nat := 0x040E
  const EBDA_STEPS: nat := 64
  const BIOS_START: nat := 0xE0000
  const BIOS_STEPS: nat := 8192

  /** "RSD PTR ". */
  const SIGNATURE: seq<Byte> := [0x52, 0x53, 0x44, 0x20, 0x50, 0x54, 0x52, 0x20]

  predicate LowMemory(mem: seq<Byte>) { |mem| >= 0x11_0000 }

  /** Sixteen times the segment stored in the BIOS data area. */
  function Ebda(mem: seq<Byte>): (a: nat)
    requires LowMemory(mem)
    ensures a <= 0xFFFF0
  {
    var low: int, high: int := mem[EBDA_POINTER], mem[EBDA_POINTER + 1];
    (low + 0x100 * high) * 0x10
  }

  predicate SignatureAt(mem: seq<Byte>, a: nat) { a + 8 <= |mem| && mem[a..a + 8] == SIGNATURE }

  /** The first of the paragraphs start, start + 16, ... that carries the signature, counted
      from `k`; `steps` when none does. */
  function FirstParagraph(mem: seq<Byte>, start: nat, steps: nat, k: nat): (r: nat)
    requires k <= steps
    ensures k <= r <= steps
    ensures forall j :: k <= j < r ==> !SignatureAt(mem, start + 0x10 * j)
    ensures r < steps ==> SignatureAt(mem, start + 0x10 * r)
    decreases steps - k
  {
    if k == steps || SignatureAt(mem, start + 0x10 * k) then k else FirstParagraph(mem, start, steps, k + 1)
  }

  /** No paragraph of the range carries the signature. */
  ghost predicate NoneSigned(mem: seq<Byte>, start: nat, steps: nat) {
    forall j :: 0 <= j < steps ==> !SignatureAt(mem, start + 0x10 * j)
  }

  /** The loops' memcmp. */
  method HasSignature(mem: seq<Byte>, p: nat) returns (found: bool)
    requires p + 8 <= |mem|
    ensures found == SignatureAt(mem, p)
  {
    var c := MemCmp(mem[p..], SIGNATURE, 8);
    assert mem[p..][..8] == mem[p..p + 8] && SIGNATURE[..8] == SIGNATURE;
    found := c == 0;
  }

  /** The eight bytes at linear address `r` spell "RSD PTR ". */
  predicate Names(mem: seq<Byte>, r: Word) {
    0xC000_0000 <= r && r - 0xC000_0000 + 8 <= |mem| &&
    mem[r - 0xC000_0000..r - 0xC000_0000 + 8] == [0x52, 0x53, 0x44, 0x20, 0x50, 0x54, 0x52, 0x20]
  }

  /** `a` is one of the first `n` 16-byte steps from `start` on. */
  predicate InSteps(a: int, start: int, n: int) { start <= a < start + 16 * n && (a - start) % 16 == 0 }

  /** What a match on paragraph `k` means. */
  lemma Found(mem: seq<Byte>, start: nat, steps: nat, k: nat, r: Word)
    requires k < steps && r == VMA + start + 0x10 * k && SignatureAt(mem, start + 0x10 * k)
    ensures Names(mem, r) && InSteps(r - VMA, start, steps) && !NoneSigned(mem, start, steps)
  {
    DivModUnique(0x10 * k, 16, k, 0);
    assert r - VMA == start + 0x10 * k;
  }

  /** `r` is a step of the kilobyte from sixteen times the little-endian word at 0x40E on, or of
      the last 128 KiB below 1 MiB. */
  predicate InSearchedRange(mem: seq<Byte>, r: Word)
    requires LowMemory(mem)
  {
    var low: int, high: int := mem[0x40E], mem[0x40F];
    InSteps(r - 0xC000_0000, 16 * (0x100 * high + low), 64) || InSteps(r - 0xC000_0000, 0xE0000, 8192)
  }

  /** One of the two loops: the linear address of the first match, 0 when there is none. */
  method Search(mem: seq<Byte>, start: nat, end: Word, ghost steps: nat) returns (r: Word)
    requires LowMemory(mem) && start <= 0xFFFF0
    requires steps <= 8192 && start + 0x10 * steps <= 0x10_0400
    requires VMA + start + 0x10 * steps - 0x10 < end <= VMA + start + 0x10 * steps
    ensures var k := FirstParagraph(mem, start, steps, 0);
            r == if k < steps then VMA + start + 0x10 * k else 0
    ensures r == 0 <==> NoneSigned(mem, start, steps)
    ensures r != 0 ==> Names(mem, r) && InSteps(r - VMA, start, steps)
  {
    var addr: Word := VMA + start;
    ghost var k := 0;
    while addr < end
      invariant 0 <= k <= steps && addr == VMA + start + 0x10 * k
      invariant FirstParagraph(mem, start, steps, 0) == FirstParagraph(mem, start, steps, k)
      decreases steps - k
    {
      var found := HasSignature(mem, addr - VMA);
      if found {
        Found(mem, start, steps, k, addr);
        return addr;
      }
      addr := addr + 0x10;
      k := k + 1;
    }
    r := 0;
  }

  lemma EbdaSearched(mem: seq<Byte>, r: Word)
    requires LowMemory(mem) && InSteps(r - VMA, Ebda(mem), EBDA_STEPS)
    ensures InSearchedRange(mem, r)
  {
  }

  lemma BiosSearched(mem: seq<Byte>, r: Word)
    requires LowMemory(mem) && InSteps(r - VMA, BIOS_START, BIOS_STEPS)
    ensures InSearchedRange(mem, r)
  {
  }

  /** acpi_find_rsdp: the EBDA's first kilobyte, then the BIOS area; NULL exactly when neither
      has a match. */
  method FindRsdp(mem: seq<Byte>) returns (r: Word)
    requires LowMemory(mem)
    ensures var e, b := FirstParagraph(mem, Ebda(mem), EBDA_STEPS, 0), FirstParagraph(mem, BIOS_START, BIOS_STEPS, 0);
            r == if e < EBDA_STEPS then VMA + Ebda(mem) + 0x10 * e
                 else if b < BIOS_STEPS then VMA + BIOS_START + 0x10 * b
                 else 0
    ensures r == 0 <==> NoneSigned(mem, Ebda(mem), EBDA_STEPS) && NoneSigned(mem, BIOS_START, BIOS_STEPS)
    ensures r != 0 ==> Names(mem, r) && InSearchedRange(mem, r)
  {
    var ebda := Ebda(mem);
    r := Search(mem, ebda, ebda + VMA + 1024, EBDA_STEPS);
    if r != 0 {
      EbdaSearched(mem, r);
      return r;
    }
    r := Search(mem, BIOS_START, 0x000F_FFFF + VMA, BIOS_STEPS);
    if r != 0 { BiosSearched(mem, r); }
  }
}
