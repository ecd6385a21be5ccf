/**
 klib/mem.c on one flat byte memory; pointers are indices into it.
 */
module Mem {
  import opened Words

  /** A byte read as the signed `char` of the target. */
  function SignedChar(b: Byte): (n: int)
    ensures -0x80 <= n < 0x80 && (n == b || n == b - 0x100)
  {
    if b < 0x80 then b else b - 0x100
  }

  predicate Fits(size: nat, p: nat, n: nat) { p + n <= size }

  /** memset: the low byte of `c` over n bytes. */
  method MemSet(mem: array<Byte>, m1: nat, c: Word, n: nat)
    requires Fits(mem.Length, m1, n)
    modifies mem
    ensures mem[..] == old(mem[..m1]) + seq(n, i => c % 0x100) + old(mem[m1 + n..])
  {
    var left, p := n, m1;
    while left != 0
      invariant 0 <= left <= n && p == m1 + n - left
      invariant forall i :: m1 <= i < p ==> mem[i] == c % 0x100
      invariant forall i :: 0 <= i < m1 || p <= i < mem.Length ==> mem[i] == old(mem[i])
    {
      mem[p] := c % 0x100;
      p := p + 1;
      left := left - 1;
    }
  }

  /** memcmp over the bytes from two pointers on: the signed difference at the first place
      they differ, 0 when the n bytes agree. */
  method MemCmp(m1: seq<Byte>, m2: seq<Byte>, n: nat) returns (r: int)
    requires n <= |m1| && n <= |m2|
    ensures r == 0 <==> m1[..n] == m2[..n]
    ensures r != 0 ==> exists k :: 0 <= k < n && m1[..k] == m2[..k] && m1[k] != m2[k]
                                   && r == SignedChar(m1[k]) - SignedChar(m2[k])
  {
    if n == 0 { return 0; }
    var left, p := n, 0;
    left := left - 1;
    while left != 0 && m1[p] == m2[p]
      invariant 0 <= left && p + left == n - 1
      invariant m1[..p] == m2[..p]
    {
      p := p + 1;
      left := left - 1;
    }
    r := SignedChar(m1[p]) - SignedChar(m2[p]);
    if r == 0 {
      assert m1[..n] == m1[..p] + [m1[p]] && m2[..n] == m2[..p] + [m2[p]];
    } else {
      assert m1[..n][p] != m2[..n][p];
    }
  }

  /** Which byte of the old memory an ascending copy leaves at dst + k: when the destination
      overlaps from above, the first dst - src bytes repeat. */
  function CopiedFrom(dst: nat, src: nat, k: nat): (i: nat)
    ensures src <= i <= src + k
  {
    if src < dst then src + k % (dst - src) else src + k
  }

  function Copied(m: seq<Byte>, dst: nat, src: nat, n: nat): seq<Byte>
    requires Fits(|m|, dst, n) && Fits(|m|, src, n)
  {
    m[..dst] + seq(n, k requires 0 <= k < n => m[CopiedFrom(dst, src, k)]) + m[dst + n..]
  }

  /** A move: the source bytes as they were before the call. */
  function Moved(m: seq<Byte>, dst: nat, src: nat, n: nat): seq<Byte>
    requires Fits(|m|, dst, n) && Fits(|m|, src, n)
  {
    m[..dst] + m[src..src + n] + m[dst + n..]
  }

  /** memcpy, for any overlap. */
  method MemCpy(mem: array<Byte>, dst: nat, src: nat, n: nat)
    requires Fits(mem.Length, dst, n) && Fits(mem.Length, src, n)
    modifies mem
    ensures mem[..] == Copied(old(mem[..]), dst, src, n)
  {
    var i := 0;
    while i < n
      invariant 0 <= i <= n
      invariant forall k :: 0 <= k < i ==> mem[dst + k] == old(mem[CopiedFrom(dst, src, k)])
      invariant forall j :: 0 <= j < dst || dst + i <= j < mem.Length ==> mem[j] == old(mem[j])
    {
      CopyReads(dst, src, i);
      mem[dst + i] := mem[src + i];
      i := i + 1;
    }
  }

  /** The byte the copy reads at step i already went through step i - (dst - src). */
  lemma CopyReads(dst: nat, src: nat, i: nat)
    ensures src < dst <= src + i ==> CopiedFrom(dst, src, i) == CopiedFrom(dst, src, src + i - dst)
    ensures !(src < dst <= src + i) ==> CopiedFrom(dst, src, i) == src + i
  {
    if src < dst {
      var d := dst - src;
      if i < d {
        DivModUnique(i, d, 0, i);
      } else {
        var j := i - d;
        assert i == d * (j / d + 1) + j % d by {
          assert j == d * (j / d) + j % d;
          assert d * (j / d + 1) == d * (j / d) + d;
        }
        DivModUnique(i, d, j / d + 1, j % d);
      }
    }
  }

  lemma CopyIsMove(m: seq<Byte>, dst: nat, src: nat, n: nat)
    requires Fits(|m|, dst, n) && Fits(|m|, src, n) && !(src < dst < src + n)
    ensures Copied(m, dst, src, n) == Moved(m, dst, src, n)
  {
    forall k | 0 <= k < n
      ensures CopiedFrom(dst, src, k) == src + k
    {
      CopyReads(dst, src, k);
    }
  }

  lemma CopiedAt(m: seq<Byte>, dst: nat, src: nat, n: nat, k: nat)
    requires Fits(|m|, dst, n) && Fits(|m|, src, n) && k < n
    ensures Copied(m, dst, src, n)[dst + k] == m[CopiedFrom(dst, src, k)]
    ensures Moved(m, dst, src, n)[dst + k] == m[src + k]
  {
  }

  /** A memory on which the overlapping copy repeats a byte instead of moving one. */
  lemma CopyIsNotMove(size: nat, dst: nat, src: nat, n: nat) returns (m: seq<Byte>)
    requires Fits(size, dst, n) && Fits(size, src, n) && src < dst < src + n
    ensures |m| == size && Copied(m, dst, src, n) != Moved(m, dst, src, n)
  {
    m := seq(size, i => if i == src then 1 else 0);
    var d := dst - src;
    DivModUnique(d, d, 1, 0);
    CopiedAt(m, dst, src, n, d);
    assert m[src] == 1 && m[src + d] == 0;
  }

  /** memcpy is a move on all memories exactly when the destination does not start inside
      the source range. */
  lemma CopyIsMoveExactly(size: nat, dst: nat, src: nat, n: nat)
    requires Fits(size, dst, n) && Fits(size, src, n)
    ensures (forall m: seq<Byte> :: |m| == size ==> Copied(m, dst, src, n) == Moved(m, dst, src, n))
            <==> !(src < dst < src + n)
  {
    if src < dst < src + n {
      var m := CopyIsNotMove(size, dst, src, n);
    } else {
      forall m: seq<Byte> | |m| == size
        ensures Copied(m, dst, src, n) == Moved(m, dst, src, n)
      {
        CopyIsMove(m, dst, src, n);
      }
    }
  }
}
