/**
 klib/string.c: strlen and the digit printers, which count digits in a first pass and
 fill them in from the back in a second, over a raw byte buffer.
 */
module Strings {
  import opened Words

  type Text = s: seq<Byte> | 0 !in s

  const MINUS: Byte := 0x2D

  function DigitChar(d: nat): (b: Byte)
    requires d < 16
    ensures b != 0 && b != MINUS && DigitValue(b) == d
  {
    if d < 10 then d + 0x30 else d - 10 + 0x41
  }

  /** 0 to 9, then A to F. */
  lemma DigitChars(d: nat)
    requires d < 16
    ensures DigitChar(d) == [0x30, 0x31, 0x32, 0x33, 0x34, 0x35, 0x36, 0x37, 0x38, 0x39,
                             0x41, 0x42, 0x43, 0x44, 0x45, 0x46][d]
  {
  }

  function DigitValue(b: Byte): int { if b < 0x41 then b - 0x30 else b - 0x41 + 10 }

  predicate IsDigit(b: Byte, base: nat) {
    (0x30 <= b <= 0x39 || 0x41 <= b <= 0x46) && DigitValue(b) < base
  }

  /** The digits of `n`, most significant first. */
  function Digits(n: nat, base: nat): (s: Text)
    requires 2 <= base <= 16
    ensures s != [] && forall i :: 0 <= i < |s| ==> IsDigit(s[i], base)
  {
    if n < base then [DigitChar(n)] else
      DivShrinks(n, base);
      Digits(n / base, base) + [DigitChar(n % base)]
  }

  /** What a reader makes of a digit string. */
  function Parse(s: seq<Byte>, base: nat): int {
    if s == [] then 0 else Parse(s[..|s| - 1], base) * base + DigitValue(s[|s| - 1])
  }

  lemma DivShrinks(n: nat, base: nat)
    requires 2 <= base <= n
    ensures 0 < n / base < n
  {
    var q, r := n / base, n % base;
    assert n == base * q + r && 0 <= r < base;
    if q >= n { assert base * q >= 2 * q by { MulMono(base, 2, q); } }
  }

  lemma MulMono(x: int, y: int, z: int)
    requires x >= y && z >= 0
    ensures x * z >= y * z && z * x >= z * y
  {
  }

  // --- Round trips ---

  lemma ParseAppend(s: seq<Byte>, b: Byte, base: nat)
    ensures Parse(s + [b], base) == Parse(s, base) * base + DigitValue(b)
  {
    assert (s + [b])[..|s|] == s;
  }

  lemma DivMod(n: nat, base: nat)
    requires 0 < base
    ensures n / base * base + n % base == n
  {
  }

  lemma {:induction false} ParseDigits(n: nat, base: nat)
    requires 2 <= base <= 16
    ensures Parse(Digits(n, base), base) == n
  {
    if n < base {
      ParseAppend([], DigitChar(n), base);
      assert [] + [DigitChar(n)] == [DigitChar(n)];
    } else {
      DivShrinks(n, base);
      ParseDigits(n / base, base);
      ParseAppend(Digits(n / base, base), DigitChar(n % base), base);
      DivMod(n, base);
    }
  }

  /** No redundant leading zero: only the number 0 starts with '0'. */
  lemma {:induction false} NoLeadingZero(n: nat, base: nat)
    requires 2 <= base <= 16
    ensures Digits(n, base)[0] == 0x30 <==> n == 0
  {
    if n >= base {
      DivShrinks(n, base);
      NoLeadingZero(n / base, base);
    }
  }

  lemma DigitsSnoc(v: nat, d: nat, base: nat)
    requires 2 <= base <= 16 && 0 < v && d < base
    ensures v * base + d >= base && Digits(v * base + d, base) == Digits(v, base) + [DigitChar(d)]
  {
    MulMono(v, 1, base);
    DivModUnique(v * base + d, base, v, d);
  }

  /** The printed form is the only digit string without a redundant leading zero that
      parses back to the number. */
  lemma {:induction false} DigitsUnique(s: seq<Byte>, base: nat)
    requires 2 <= base <= 16 && s != []
    requires forall i :: 0 <= i < |s| ==> IsDigit(s[i], base)
    requires |s| > 1 ==> s[0] != 0x30
    ensures Parse(s, base) >= 0 && Digits(Parse(s, base), base) == s
    ensures s[0] != 0x30 ==> Parse(s, base) > 0
  {
    var init, d := s[..|s| - 1], DigitValue(s[|s| - 1]);
    if |s| == 1 {
      assert Parse(init, base) == 0;
    } else {
      DigitsUnique(init, base);
      var v := Parse(init, base);
      DigitsSnoc(v, d, base);
      assert s == init + [s[|s| - 1]];
    }
  }

  /** At most k digits below base^k. */
  lemma {:induction false} DigitsLength(n: nat, base: nat, k: nat)
    requires 2 <= base <= 16 && 1 <= k && n < Power(base, k)
    ensures |Digits(n, base)| <= k
  {
    if n >= base {
      DivShrinks(n, base);
      var q, p := n / base, Power(base, k - 1);
      assert q < p by {
        assert n == base * q + n % base;
        if q >= p { MulMono(q, p, base); }
      }
      if k > 1 { DigitsLength(q, base, k - 1); }
    }
  }

  function Power(b: nat, k: nat): nat { if k == 0 then 1 else b * Power(b, k - 1) }

  /** A 32-bit value prints as at most 10 decimal or 8 hexadecimal digits. */
  lemma WordDigits(n: Word)
    ensures |Digits(n, 10)| <= 10 && |Digits(n, 16)| <= 8
  {
    assert Power(10, 4) == 10000 && Power(16, 4) == 0x10000;
    assert Power(10, 8) == 1_0000_0000;
    assert Power(10, 10) == 100_0000_0000;
    assert Power(16, 8) == 0x1_0000_0000;
    DigitsLength(n, 10, 10);
    DigitsLength(n, 16, 8);
  }

  // --- Signed numbers ---

  /** The value of a word read as a two's-complement int. */
  function Signed(w: Word): (n: int)
    ensures -0x8000_0000 <= n < 0x8000_0000 && (n == w || n == w - 0x1_0000_0000)
  {
    if w < 0x8000_0000 then w else w - 0x1_0000_0000
  }

  /** `n *= -1` in 32 bits; the most negative int is its own negation. */
  function Negate(w: Word): Word { (0x1_0000_0000 - w) % 0x1_0000_0000 }

  function SignedDigits(w: Word): (s: Text)
    ensures s != []
  {
    if Signed(w) < 0 then [MINUS] + Digits(Negate(w), 10) else Digits(w, 10)
  }

  function ParseSigned(s: seq<Byte>): int {
    if s != [] && s[0] == MINUS then -Parse(s[1..], 10) else Parse(s, 10)
  }

  /** Decimal printing of every int, the most negative one included, reads back, in at most
      eleven characters; the negative ones, and only they, start with '-'. */
  lemma ParseSignedDigits(w: Word)
    ensures SignedDigits(w)[0] == 0x2D <==> w >= 0x8000_0000
    ensures ParseSigned(SignedDigits(w)) == Signed(w)
    ensures |SignedDigits(w)| <= 11
  {
    if Signed(w) < 0 {
      var s := Digits(Negate(w), 10);
      assert Negate(w) == -Signed(w);
      assert Parse(s, 10) == Negate(w) by { ParseDigits(Negate(w), 10); }
      assert |s| <= 10 by { WordDigits(Negate(w)); }
      assert SignedDigits(w)[0] == MINUS && SignedDigits(w)[1..] == s;
    } else {
      var s := Digits(w, 10);
      assert Parse(s, 10) == w by { ParseDigits(w, 10); }
      assert |s| <= 10 by { WordDigits(w); }
      assert IsDigit(s[0], 10);
    }
  }

  // --- The printers ---

  /** Memory `m` with the bytes of `t` written from index `s` on. */
  function Put(m: seq<Byte>, s: nat, t: seq<Byte>): (m': seq<Byte>)
    requires s + |t| <= |m|
    ensures |m'| == |m|
  {
    m[..s] + t + m[s + |t|..]
  }

  lemma Regroup(x: seq<Byte>, y: seq<Byte>, z: seq<Byte>)
    ensures (x + y) + z == x + (y + z)
  {
  }

  lemma PutAt(m: seq<Byte>, s: nat, t: seq<Byte>, k: nat)
    requires s + |t| <= |m| && k < |m|
    ensures Put(m, s, t)[k] == if s <= k < s + |t| then t[k - s] else m[k]
  {
  }

  lemma PutTwice(m: seq<Byte>, s: nat, t: seq<Byte>, u: seq<Byte>)
    requires s + |t| + |u| <= |m|
    ensures Put(Put(m, s, t), s + |t|, u) == Put(m, s, t + u)
    ensures Put(Put(m, s + |t|, u), s, t) == Put(m, s, t + u)
  {
  }

  /** strlen, from index `s` of a buffer that holds a terminator there or later. */
  method StrLen(buf: array<Byte>, s: nat) returns (n: nat)
    requires exists k :: s <= k < buf.Length && buf[k] == 0
    ensures s + n < buf.Length && buf[s + n] == 0
    ensures forall k :: s <= k < s + n ==> buf[k] != 0
  {
    var offset := s;
    while buf[offset] != 0
      invariant s <= offset < buf.Length
      invariant forall k :: s <= k < offset ==> buf[k] != 0
      decreases buf.Length - offset
    {
      offset := offset + 1;
    }
    n := offset - s;
  }

  /** Dividing once drops the last digit. */
  lemma DigitsStep(n: nat, base: nat)
    requires 2 <= base <= 16
    ensures 0 <= n / base && (n != 0 ==> n / base < n)
    ensures if n / base == 0 then Digits(n, base) == [DigitChar(n % base)]
            else Digits(n, base) == Digits(n / base, base) + [DigitChar(n % base)]
  {
    if n < base { DivModUnique(n, base, 0, n); } else { DivShrinks(n, base); }
  }

  /** First pass: how far past `s` the last digit goes. */
  method LastDigit(n: Word, base: nat, s: nat) returns (offset: nat)
    requires 2 <= base <= 16
    ensures offset == s + |Digits(n, base)| - 1
  {
    offset := s;
    DigitsStep(n, base);
    var num := n / base;
    while num != 0
      invariant num >= 0
      invariant |Digits(n, base)| - 1 == offset - s + (if num == 0 then 0 else |Digits(num, base)|)
      decreases num
    {
      DigitsStep(num, base);
      offset := offset + 1;
      num := num / base;
    }
  }

  /** Second pass: fill the digits in backwards from `last`, ending at `s`. */
  method FillDigits(buf: array<Byte>, s: nat, last: nat, n: Word, base: nat)
    requires 2 <= base <= 16 && s + |Digits(n, base)| < buf.Length && last == s + |Digits(n, base)| - 1
    modifies buf
    ensures buf[..] == Put(old(buf[..]), s, Digits(n, base))
  {
    ghost var digits := Digits(n, base);
    var offset: int, num, done := last, n, false;
    while !done
      invariant num >= 0 && s - 1 <= offset < s + |digits|
      invariant !done ==> |Digits(num, base)| == offset + 1 - s && Digits(num, base) == digits[..offset + 1 - s]
      invariant done ==> offset == s - 1
      invariant forall k :: offset < k < s + |digits| ==> buf[k] == digits[k - s]
      invariant forall k :: 0 <= k < s || s + |digits| <= k < buf.Length ==> buf[k] == old(buf[k])
      decreases !done, num
    {
      DigitsStep(num, base);
      assert digits[offset - s] == Digits(num, base)[offset - s] == DigitChar(num % base);
      buf[offset] := DigitChar(num % base);
      offset := offset - 1;
      num := num / base;
      done := num == 0;
    }
  }

  /** strlen of a text just written with its terminator. */
  method StrLenPut(buf: array<Byte>, s: nat, ghost m: seq<Byte>, ghost t: Text) returns (n: nat)
    requires s + |t| < |m| && buf[..] == Put(m, s, t + [0])
    ensures n == |t|
  {
    assert forall k :: s <= k < s + |t| ==> buf[k] == buf[..][k] == t[k - s] && t[k - s] in t;
    assert buf[s + |t|] == buf[..][s + |t|] == 0;
    n := StrLen(buf, s);
  }

  /** strfromu (base 10) and strhex (base 16): the digits of `n` and a terminator at index `s`. */
  method StrFromBase(buf: array<Byte>, s: nat, n: Word, base: nat) returns (len: nat)
    requires 2 <= base <= 16 && s + |Digits(n, base)| < buf.Length
    modifies buf
    ensures len == |Digits(n, base)|
    ensures buf[..] == Put(old(buf[..]), s, Digits(n, base) + [0])
  {
    ghost var m := buf[..];
    var offset := LastDigit(n, base, s);
    buf[offset + 1] := 0;
    assert buf[..] == Put(m, offset + 1, [0]);
    FillDigits(buf, s, offset, n, base);
    PutTwice(m, s, Digits(n, base), [0]);
    len := StrLenPut(buf, s, m, Digits(n, base));
  }

  method StrFromU(buf: array<Byte>, s: nat, n: Word) returns (len: nat)
    requires s + |Digits(n, 10)| < buf.Length
    modifies buf
    ensures len == |Digits(n, 10)|
    ensures buf[..] == Put(old(buf[..]), s, Digits(n, 10) + [0])
  {
    len := StrFromBase(buf, s, n, 10);
  }

  method StrHex(buf: array<Byte>, s: nat, n: Word) returns (len: nat)
    requires s + |Digits(n, 16)| < buf.Length
    modifies buf
    ensures len == |Digits(n, 16)|
    ensures buf[..] == Put(old(buf[..]), s, Digits(n, 16) + [0])
  {
    len := StrFromBase(buf, s, n, 16);
  }

  /** strfromd: a sign, then the magnitude as an unsigned number. */
  method StrFromD(buf: array<Byte>, s: nat, w: Word) returns (len: nat)
    requires s + |SignedDigits(w)| < buf.Length
    modifies buf
    ensures len == |SignedDigits(w)|
    ensures buf[..] == Put(old(buf[..]), s, SignedDigits(w) + [0])
  {
    ghost var m := buf[..];
    var n, tmp, inc := w, s, 0;
    if Signed(n) < 0 {
      buf[tmp] := MINUS;
      assert buf[..] == Put(m, s, [MINUS]);
      tmp := tmp + 1;
      n := Negate(n);
      inc := 1;
      PutTwice(m, s, [MINUS], Digits(n, 10) + [0]);
      assert [MINUS] + (Digits(n, 10) + [0]) == SignedDigits(w) + [0];
    }
    var digits := StrFromU(buf, tmp, n);
    len := inc + digits;
  }
}
