/**
 klib/stdio.c: vsprintf, against a reference rendering of formats.
 */
module Format {
  import opened Words
  import opened Strings

  const PERCENT: Byte := 0x25

  /** A variadic argument: a pointer to a string, or a word. */
  datatype Arg = Str(text: Text) | Num(word: Word)

  /** s, u, d, x. */
  predicate IsConversion(c: Byte) { c == 0x73 || c == 0x75 || c == 0x64 || c == 0x78 }

  /** The argument a conversion takes. */
  predicate Fits(c: Byte, arg: Arg) { if c == 0x73 then arg.Str? else arg.Num? }

  function Segment(c: Byte, arg: Arg): Text
    requires IsConversion(c) && Fits(c, arg)
  {
    if c == 0x73 then arg.text
    else if c == 0x75 then Digits(arg.word, 10)
    else if c == 0x64 then SignedDigits(arg.word)
    else Digits(arg.word, 16)
  }

  /** A format is a run of items: a byte to copy, or '%' with the byte after it. */
  datatype Item = Literal(c: Byte) | Spec(c: Byte) {
    predicate Takes() { Spec? && IsConversion(c) }

    function Source(): seq<Byte> { if Literal? then [c] else [PERCENT, c] }

    function Text(arg: Option<Arg>): Strings.Text
      requires c != 0 && (Takes() ==> arg.Some? && Fits(c, arg.value))
    {
      if Literal? then [c] else if IsConversion(c) then Segment(c, arg.value) else []
    }
  }

  /** The first item; a '%' with nothing after it is a literal. */
  function First(fmt: seq<Byte>): (i: Item)
    requires fmt != []
    ensures i.Source() <= fmt
  {
    if fmt[0] == PERCENT && |fmt| > 1 then Spec(fmt[1]) else Literal(fmt[0])
  }

  function Rest(fmt: seq<Byte>): seq<Byte>
    requires fmt != []
  {
    fmt[|First(fmt).Source()|..]
  }

  /** The arguments left after item `i`. */
  function Left(i: Item, args: seq<Arg>): seq<Arg> { if i.Takes() && args != [] then args[1..] else args }

  function Head(args: seq<Arg>): Option<Arg> { if args == [] then None else Some(args[0]) }

  /** There is an argument of the right kind for every conversion. */
  predicate Matches(fmt: seq<Byte>, args: seq<Arg>)
    decreases |fmt|
  {
    fmt == [] ||
    (var i := First(fmt);
     (i.Takes() ==> args != [] && Fits(i.c, args[0])) && Matches(Rest(fmt), Left(i, args)))
  }

  function Render(fmt: Text, args: seq<Arg>): Text
    requires Matches(fmt, args)
    decreases |fmt|
  {
    if fmt == [] then []
    else
      NonZero(fmt);
      First(fmt).Text(Head(args)) + Render(Rest(fmt), Left(First(fmt), args))
  }

  lemma NonZero(fmt: Text)
    requires fmt != []
    ensures First(fmt).c != 0 && 0 !in Rest(fmt)
  {
    assert First(fmt).c in fmt;
  }

  // --- What the rendering means ---

  function Conversions(fmt: seq<Byte>): nat
    decreases |fmt|
  {
    if fmt == [] then 0 else (if First(fmt).Takes() then 1 else 0) + Conversions(Rest(fmt))
  }

  /** The format does not end in a '%' that has no byte of its own. */
  predicate Closed(fmt: seq<Byte>)
    decreases |fmt|
  {
    fmt == [] || (fmt != [PERCENT] && Closed(Rest(fmt)))
  }

  lemma {:induction false} MatchesNeeds(fmt: seq<Byte>, args: seq<Arg>)
    requires Matches(fmt, args)
    ensures Conversions(fmt) <= |args|
    decreases |fmt|
  {
    if fmt != [] { MatchesNeeds(Rest(fmt), Left(First(fmt), args)); }
  }

  /** The first item of a closed format is not affected by what follows the format. */
  lemma FirstOfConcat(f: seq<Byte>, g: seq<Byte>)
    requires f != [] && Closed(f)
    ensures First(f + g) == First(f) && Rest(f + g) == Rest(f) + g && Closed(Rest(f))
  {
  }

  /** Rendering is a homomorphism: closed formats can be rendered piecewise, each piece
      taking exactly as many arguments as it has conversions. */
  lemma {:induction false} RenderConcat(f: Text, g: Text, a: seq<Arg>, b: seq<Arg>)
    requires Closed(f) && Matches(f, a) && |a| == Conversions(f) && Matches(g, b)
    ensures Matches(f + g, a + b) && Render(f + g, a + b) == Render(f, a) + Render(g, b)
    decreases |f|
  {
    if f == [] {
      RenderNothing(f, g, a, b);
    } else {
      RenderStep(f, a);
      FirstOfConcat(f, g);
      var i, rest: Text, left := First(f), Rest(f), Left(First(f), a);
      assert |rest| < |f| && |left| == Conversions(rest);
      RenderConcat(rest, g, left, b);
      var h: Text := f + g;
      assert Rest(h) == rest + g && First(h) == i;
      ConcatStep(f, g, h, a, b);
    }
  }

  lemma RenderNothing(f: Text, g: Text, a: seq<Arg>, b: seq<Arg>)
    requires f == [] && a == [] && Matches(g, b)
    ensures Matches(f + g, a + b) && Render(f + g, a + b) == Render(f, a) + Render(g, b)
  {
    assert f + g == g && a + b == b;
    assert [] + Render(g, b) == Render(g, b);
  }

  lemma SameText(i: Item, a: seq<Arg>, b: seq<Arg>)
    requires i.c != 0 && (i.Takes() ==> a != [] && Fits(i.c, a[0]))
    ensures i.Takes() ==> a + b != [] && Fits(i.c, (a + b)[0])
    ensures i.Text(Head(a + b)) == i.Text(Head(a)) && Left(i, a + b) == Left(i, a) + b
  {
  }

  /** Prefixing one item on both sides of a split rendering; `h` is the joined format. */
  lemma ConcatStep(f: Text, g: Text, h: Text, a: seq<Arg>, b: seq<Arg>)
    requires f != [] && h != [] && Matches(f, a) && Matches(g, b)
    requires First(h) == First(f) && 0 !in Rest(f) && 0 !in Rest(h)
    requires Matches(Rest(f), Left(First(f), a)) && Matches(Rest(h), Left(First(f), a) + b)
    requires Render(Rest(h), Left(First(f), a) + b) == Render(Rest(f), Left(First(f), a)) + Render(g, b)
    ensures Matches(h, a + b) && Render(h, a + b) == Render(f, a) + Render(g, b)
  {
    RenderStep(f, a);
    SameText(First(f), a, b);
    RenderStep(h, a + b);
    Regroup(First(f).Text(Head(a)), Render(Rest(f), Left(First(f), a)), Render(g, b));
  }

  lemma RenderStep(f: Text, args: seq<Arg>)
    requires f != [] && Matches(f, args)
    ensures First(f).c != 0 && 0 !in Rest(f) && (First(f).Takes() ==> args != [] && Fits(First(f).c, args[0]))
    ensures Matches(Rest(f), Left(First(f), args))
    ensures Render(f, args) == First(f).Text(Head(args)) + Render(Rest(f), Left(First(f), args))
  {
    NonZero(f);
  }

  /** A conversion's text reads back as its argument: the string itself, or the word as an
      unsigned decimal, a signed decimal or a hexadecimal number. */
  lemma SegmentMeans(c: Byte, arg: Arg)
    requires IsConversion(c) && Fits(c, arg)
    ensures match arg
            case Str(text) => Segment(c, arg) == text
            case Num(w) =>
              && (c == 0x75 ==> Parse(Segment(c, arg), 10) == w)
              && (c == 0x64 ==> ParseSigned(Segment(c, arg)) == Signed(w))
              && (c == 0x78 ==> Parse(Segment(c, arg), 16) == w)
  {
    if arg.Num? {
      ParseDigits(arg.word, 10);
      ParseDigits(arg.word, 16);
      ParseSignedDigits(arg.word);
    }
  }

  /** One item, in bytes.  Alone, '%' (0x25) and every other byte stay.  After '%', the bytes
      s, u, d and x (0x73, 0x75, 0x64, 0x78) and no others take an argument, a string for s and
      a word for the rest, and are replaced by its text; any other byte, '%' included, is
      dropped with the '%'. */
  lemma RenderItems(c: Byte, arg: Arg)
    requires c != 0
    ensures Render([c], []) == [c] && (Closed([c]) <==> c != 0x25)
    ensures c !in {0x73, 0x75, 0x64, 0x78} ==> Matches([0x25, c], []) && Render([0x25, c], []) == []
    ensures c in {0x73, 0x75, 0x64, 0x78} ==>
              !Matches([0x25, c], []) && (Matches([0x25, c], [arg]) <==> if c == 0x73 then arg.Str? else arg.Num?)
    ensures arg.Str? && c == 0x73 ==> Render([0x25, c], [arg]) == arg.text
    ensures arg.Num? && c == 0x75 ==> Render([0x25, c], [arg]) == Digits(arg.word, 10)
    ensures arg.Num? && c == 0x64 ==> Render([0x25, c], [arg]) == SignedDigits(arg.word)
    ensures arg.Num? && c == 0x78 ==> Render([0x25, c], [arg]) == Digits(arg.word, 16)
    ensures Closed([0x25, c]) && Conversions([0x25, c]) == if c in {0x73, 0x75, 0x64, 0x78} then 1 else 0
  {
    assert Rest([c]) == [] && First([c]) == Literal(c);
    assert Rest([0x25, c]) == [] && First([0x25, c]) == Spec(c);
    assert IsConversion(c) <==> c in {0x73, 0x75, 0x64, 0x78};
    assert Left(Spec(c), []) == [] && (IsConversion(c) ==> Left(Spec(c), [arg]) == []);
  }

  lemma {:induction false} ClosedConcat(f: seq<Byte>, g: seq<Byte>)
    requires Closed(f) && Closed(g)
    ensures Closed(f + g) && Conversions(f + g) == Conversions(f) + Conversions(g)
    decreases |f|
  {
    if f == [] {
      assert f + g == g;
    } else {
      FirstOfConcat(f, g);
      ClosedConcat(Rest(f), g);
    }
  }

  lemma {:induction false} RenderPlain(fmt: Text)
    requires 0x25 !in fmt
    ensures Matches(fmt, []) && Render(fmt, []) == fmt
    decreases |fmt|
  {
    if fmt != [] {
      assert First(fmt) == Literal(fmt[0]) && Rest(fmt) == fmt[1..];
      RenderPlain(fmt[1..]);
    }
  }

  // --- How much of the destination a call touches ---

  /** Bytes from the cursor on that the call writes or looks at: the text, its terminator,
      and the byte a final `%s` looks at behind its own terminator. */
  function Touched(fmt: Text, args: seq<Arg>): (n: nat)
    requires Matches(fmt, args)
    ensures 1 <= n && |Render(fmt, args)| < n
    decreases |fmt|
  {
    if fmt == [] then 1
    else
      NonZero(fmt);
      var i := First(fmt);
      var rest := Touched(Rest(fmt), Left(i, args));
      |i.Text(Head(args))| + (if i == Spec(0x73) then Max(2, rest) else rest)
  }

  /** One byte more than the rendered text, or two. */
  lemma {:induction false} TouchedBound(fmt: Text, args: seq<Arg>)
    requires Matches(fmt, args)
    ensures |Render(fmt, args)| + 1 <= Touched(fmt, args) <= |Render(fmt, args)| + 2
    decreases |fmt|
  {
    if fmt != [] {
      NonZero(fmt);
      TouchedBound(Rest(fmt), Left(First(fmt), args));
    }
  }

  // --- vsprintf ---

  /** Copy a string and its terminator to index `p`; the result is one past the terminator. */
  method CopyString(buf: array<Byte>, p: nat, src: Text) returns (q: nat)
    requires p + |src| < buf.Length
    modifies buf
    ensures q == p + |src| + 1
    ensures buf[..] == Put(old(buf[..]), p, src + [0])
  {
    q := p;
    var i := 0;
    var more := true;
    while more
      invariant 0 <= i <= |src| + 1 && q == p + i
      invariant !more ==> i == |src| + 1
      invariant more ==> i <= |src|
      invariant forall k :: 0 <= k < i ==> buf[p + k] == (src + [0])[k]
      invariant forall k :: 0 <= k < p || q <= k < buf.Length ==> buf[k] == old(buf[k])
      decreases more, |src| - i
    {
      var c := if i < |src| then src[i] else 0;
      assert i < |src| ==> c in src;
      buf[q] := c;
      q := q + 1;
      i := i + 1;
      more := c != 0;
    }
  }

  /** The `%s` case.  The cursor steps back onto the terminator only when the byte behind it
      is zero; on any other byte the terminator would stay inside the output. */
  method FormatString(buf: array<Byte>, p: nat, src: Text) returns (q: nat)
    requires p + |src| + 1 < buf.Length
    modifies buf
    ensures buf[..] == Put(old(buf[..]), p, src + [0])
    ensures q == p + |src| + (if old(buf[p + |src| + 1]) == 0 then 0 else 1)
  {
    q := CopyString(buf, p, src);
    assert buf[q] == buf[..][q] == old(buf[..])[q];
    if buf[q] == 0 { q := q - 1; }
  }

  ghost predicate ZeroFrom(m: seq<Byte>, lo: nat, hi: nat) { forall k :: lo <= k < hi && k < |m| ==> m[k] == 0 }

  /** Over zero bytes a written terminator changes nothing. */
  lemma PutTerminated(m: seq<Byte>, p: nat, t: seq<Byte>)
    requires p + |t| < |m| && m[p + |t|] == 0
    ensures Put(m, p, t + [0]) == Put(m, p, t)
  {
  }

  /** One conversion or literal at the cursor, given that all bytes it can see are zero. */
  method FormatItem(buf: array<Byte>, p: nat, i: Item, arg: Option<Arg>) returns (q: nat)
    requires i.c != 0 && (i.Takes() ==> arg.Some? && Fits(i.c, arg.value))
    requires p + |i.Text(arg)| + (if i == Spec(0x73) then 1 else 0) < buf.Length
    requires ZeroFrom(buf[..], p, p + |i.Text(arg)| + (if i == Spec(0x73) then 2 else 1))
    modifies buf
    ensures q == p + |i.Text(arg)|
    ensures buf[..] == Put(old(buf[..]), p, i.Text(arg))
  {
    ghost var m, t := buf[..], i.Text(arg);
    q := p;
    if i.Literal? {
      buf[q] := i.c;
      q := q + 1;
    } else if IsConversion(i.c) {
      var len;
      PutTerminated(m, p, t);
      if i.c == 0x73 {
        q := FormatString(buf, p, arg.value.text);
      } else if i.c == 0x75 {
        len := StrFromU(buf, p, arg.value.word);
        q := p + len;
      } else if i.c == 0x64 {
        len := StrFromD(buf, p, arg.value.word);
        q := p + len;
      } else {
        len := StrHex(buf, p, arg.value.word);
        q := p + len;
      }
    }
  }

  lemma TouchedStep(f: Text, args: seq<Arg>)
    requires f != [] && Matches(f, args)
    ensures First(f).c != 0 && 0 !in Rest(f) && (First(f).Takes() ==> args != [] && Fits(First(f).c, args[0]))
    ensures Matches(Rest(f), Left(First(f), args))
    ensures var i, t := First(f), |First(f).Text(Head(args))|;
            && t + Touched(Rest(f), Left(i, args)) <= Touched(f, args)
            && t + (if i == Spec(0x73) then 2 else 1) <= Touched(f, args)
  {
    NonZero(f);
  }

  /** `out` is rendered, `f` with arguments `ap` is still to come. */
  ghost predicate Progress(fmt: Text, args: seq<Arg>, out: seq<Byte>, f: Text, ap: seq<Arg>)
    requires Matches(fmt, args)
  {
    Matches(f, ap) && Render(fmt, args) == out + Render(f, ap)
  }

  lemma ProgressStep(fmt: Text, args: seq<Arg>, out: seq<Byte>, f: Text, ap: seq<Arg>)
    requires Matches(fmt, args) && Progress(fmt, args, out, f, ap) && f != []
    ensures First(f).c != 0 && 0 !in Rest(f) && (First(f).Takes() ==> ap != [] && Fits(First(f).c, ap[0]))
    ensures Progress(fmt, args, out + First(f).Text(Head(ap)), Rest(f), Left(First(f), ap))
  {
    RenderStep(f, ap);
    Regroup(out, First(f).Text(Head(ap)), Render(Rest(f), Left(First(f), ap)));
  }

  /** One turn of vsprintf's loop, at cursor `p`. */
  method FormatNext(buf: array<Byte>, p: nat, f: Text, args: seq<Arg>,
                    ghost dst: nat, ghost m: seq<Byte>, ghost out: seq<Byte>, ghost end: nat)
    returns (q: nat)
    requires f != [] && Matches(f, args) && |m| == buf.Length
    requires p == dst + |out| && p + Touched(f, args) <= end <= buf.Length
    requires buf[..] == Put(m, dst, out) && ZeroFrom(m, dst, end)
    modifies buf
    ensures First(f).c != 0 && 0 !in Rest(f) && (First(f).Takes() ==> args != [] && Fits(First(f).c, args[0]))
    ensures Matches(Rest(f), Left(First(f), args))
    ensures q == dst + |out + First(f).Text(Head(args))|
    ensures q + Touched(Rest(f), Left(First(f), args)) <= end
    ensures buf[..] == Put(m, dst, out + First(f).Text(Head(args)))
  {
    TouchedStep(f, args);
    var i := First(f);
    q := FormatItem(buf, p, i, Head(args));
    PutTwice(m, dst, out, i.Text(Head(args)));
  }

  /** The final terminator. */
  method Terminate(buf: array<Byte>, p: nat, ghost dst: nat, ghost m: seq<Byte>, ghost out: seq<Byte>)
    requires p == dst + |out| < |m| == buf.Length && m[p] == 0
    requires buf[..] == Put(m, dst, out)
    modifies buf
    ensures buf[..] == Put(m, dst, out + [0])
  {
    assert buf[p] == buf[..][p] == 0;
    PutTerminated(m, dst, out);
    buf[p] := 0;
    assert buf[..] == Put(m, dst, out);
  }

  /** vsprintf into a destination that is zero as far as the call touches it: the rendered
      text and a terminator, and the length of the text. */
  method VSPrintf(buf: array<Byte>, dst: nat, fmt: Text, args: seq<Arg>) returns (n: nat)
    requires Matches(fmt, args) && dst + Touched(fmt, args) <= buf.Length
    requires ZeroFrom(buf[..], dst, dst + Touched(fmt, args))
    modifies buf
    ensures n == |Render(fmt, args)|
    ensures buf[..] == Put(old(buf[..]), dst, Render(fmt, args) + [0])
  {
    ghost var m, end := buf[..], dst + Touched(fmt, args);
    ghost var out: seq<Byte> := [];
    var tmp, f: Text, ap := dst, fmt, args;
    while f != []
      invariant Progress(fmt, args, out, f, ap)
      invariant tmp == dst + |out| && tmp + Touched(f, ap) <= end
      invariant buf[..] == Put(m, dst, out)
      decreases |f|
    {
      ProgressStep(fmt, args, out, f, ap);
      tmp := FormatNext(buf, tmp, f, ap, dst, m, out, end);
      out := out + First(f).Text(Head(ap));
      f, ap := Rest(f), Left(First(f), ap);
    }
    assert out == Render(fmt, args);
    Terminate(buf, tmp, dst, m, out);
    n := tmp - dst;
  }
}
