/**
 The abstract terminal behind ksrc/printk.c: a list of lines that only grows, wrapped
 lazily at C columns, and the bytes its last rows occupy in video memory.
 */
module Terminal {
  import opened Words
  import opened Strings

  const NEWLINE: Byte := 0x0A

  type Line = seq<Byte>

  /** All lines so far, the current one last. */
  predicate Wrapped(t: seq<Line>, C: nat) { t != [] && forall i :: 0 <= i < |t| ==> |t[i]| <= C }

  function Current(t: seq<Line>): Line
    requires t != []
  {
    t[|t| - 1]
  }

  /** Lazy wrap: a full line is left only when the next character arrives. */
  function Wrap(t: seq<Line>, C: nat): seq<Line>
    requires t != []
  {
    if |Current(t)| >= C then t + [[]] else t
  }

  function Append(t: seq<Line>, c: Byte): seq<Line>
    requires t != []
  {
    t[..|t| - 1] + [Current(t) + [c]]
  }

  function Feed(t: seq<Line>, C: nat, c: Byte): (t': seq<Line>)
    requires t != []
    ensures t' != []
  {
    if c == NEWLINE then Wrap(t, C) + [[]] else Append(Wrap(t, C), c)
  }

  function FeedAll(t: seq<Line>, C: nat, s: seq<Byte>): (t': seq<Line>)
    requires t != []
    ensures t' != []
    decreases |s|
  {
    if s == [] then t else FeedAll(Feed(t, C, s[0]), C, s[1..])
  }

  // --- What the lines mean ---

  /** In bytes: 0x0A starts a new line, every other byte goes to the end of the current one; a
      line that is full is left first in both cases. */
  lemma FeedBytes(t: seq<Line>, C: nat, c: Byte)
    requires t != []
    ensures var full := |Current(t)| >= C;
            var l := if full then [] else Current(t);
            var above := if full then t else t[..|t| - 1];
            Feed(t, C, c) == if c == 0x0A then above + [l, []] else above + [l + [c]]
  {
    assert t == t[..|t| - 1] + [Current(t)];
    assert Wrap(t, C) == if |Current(t)| >= C then t + [[]] else t[..|t| - 1] + [Current(t)];
  }

  /** Every line but the last is full. */
  ghost predicate Filled(t: seq<Line>, C: nat) {
    t != [] && |Current(t)| <= C && forall i :: 0 <= i < |t| - 1 ==> |t[i]| == C
  }

  lemma FeedFills(t: seq<Line>, C: nat, c: Byte)
    requires 1 <= C && Filled(t, C) && c != 0x0A
    ensures Filled(Feed(t, C, c), C) && Current(Feed(t, C, c)) != []
  {
    FeedBytes(t, C, c);
  }

  /** Text without 0x0A, from one empty line: every line but the last is full, and the last is
      not empty unless the text is. */
  lemma {:induction false} LongTextWraps(C: nat, s: seq<Byte>)
    requires 1 <= C && 0x0A !in s
    ensures Filled(FeedAll([[]], C, s), C) && (s != [] ==> Current(FeedAll([[]], C, s)) != [])
  {
    if s != [] {
      var init, c := s[..|s| - 1], s[|s| - 1];
      LongTextWraps(C, init);
      FeedLast([[]], C, init, c);
      assert init + [c] == s;
      FeedFills(FeedAll([[]], C, init), C, c);
    }
  }

  lemma {:induction false} FeedLast(t: seq<Line>, C: nat, s: seq<Byte>, c: Byte)
    requires t != []
    ensures FeedAll(t, C, s + [c]) == Feed(FeedAll(t, C, s), C, c)
    decreases |s|
  {
    if s == [] {
      assert s + [c] == [c] && [c][1..] == [];
    } else {
      assert (s + [c])[0] == s[0] && (s + [c])[1..] == s[1..] + [c];
      FeedLast(Feed(t, C, s[0]), C, s[1..], c);
    }
  }

  function Joined(t: seq<Line>): seq<Byte> { if t == [] then [] else Joined(t[..|t| - 1]) + t[|t| - 1] }

  function Printable(s: seq<Byte>): seq<Byte> {
    if s == [] then [] else (if s[0] == NEWLINE then [] else [s[0]]) + Printable(s[1..])
  }

  lemma JoinedSnoc(t: seq<Line>, l: Line)
    ensures Joined(t + [l]) == Joined(t) + l
  {
    assert (t + [l])[..|t|] == t;
  }

  lemma WrapJoined(t: seq<Line>, C: nat)
    requires t != []
    ensures Joined(Wrap(t, C)) == Joined(t)
  {
    JoinedSnoc(t, []);
    assert Joined(t) + [] == Joined(t);
  }

  lemma AppendJoined(t: seq<Line>, c: Byte)
    requires t != []
    ensures Joined(Append(t, c)) == Joined(t) + [c]
  {
    var init, l := t[..|t| - 1], Current(t);
    JoinedSnoc(init, l + [c]);
    Regroup(Joined(init), l, [c]);
  }

  lemma FeedJoined(t: seq<Line>, C: nat, c: Byte)
    requires t != []
    ensures Joined(Feed(t, C, c)) == Joined(t) + (if c == NEWLINE then [] else [c])
  {
    WrapJoined(t, C);
    if c == NEWLINE {
      JoinedSnoc(Wrap(t, C), []);
    } else {
      AppendJoined(Wrap(t, C), c);
    }
  }

  /** Conservation: the lines hold exactly the characters fed, in order, newlines apart. */
  lemma {:induction false} NothingLost(t: seq<Line>, C: nat, s: seq<Byte>)
    requires t != []
    ensures Joined(FeedAll(t, C, s)) == Joined(t) + Printable(s)
    decreases |s|
  {
    if s == [] {
      assert Joined(t) + [] == Joined(t);
    } else {
      FeedJoined(t, C, s[0]);
      NothingLost(Feed(t, C, s[0]), C, s[1..]);
      Regroup(Joined(t), if s[0] == NEWLINE then [] else [s[0]], Printable(s[1..]));
    }
  }

  // --- Bytes in video memory ---

  function Zeros(n: nat): (z: seq<Byte>)
    ensures |z| == n && forall i :: 0 <= i < n ==> z[i] == 0
  {
    seq(n, i => 0)
  }

  /** The attribute byte a character ends up with: the source or-s a sign-extended `char`
      into 0xF100, which turns every bit on for characters of 0x80 and above. */
  function Attribute(c: Byte): Byte { if c < 0x80 then 0xF1 else 0xFF }

  /** Character and attribute, low byte first. */
  function Cell(c: Byte): seq<Byte> { [c, Attribute(c)] }

  function LineBytes(l: Line): (b: seq<Byte>)
    ensures |b| == 2 * |l|
  {
    if l == [] then [] else LineBytes(l[..|l| - 1]) + Cell(l[|l| - 1])
  }

  /** A line as a screen row: its cells, then blank cells. */
  function RowBytes(l: Line, C: nat): (b: seq<Byte>)
    ensures |l| <= C ==> |b| == 2 * C
  {
    LineBytes(l) + Zeros(2 * Max(0, C - |l|))
  }

  function Image(t: seq<Line>, C: nat): seq<Byte> {
    if t == [] then [] else Image(t[..|t| - 1], C) + RowBytes(t[|t| - 1], C)
  }

  /** Where row n starts, in bytes. */
  function RowAt(C: nat, n: nat): nat { if n == 0 then 0 else RowAt(C, n - 1) + 2 * C }

  lemma {:induction false} RowAtProduct(C: nat, n: nat)
    ensures RowAt(C, n) == 2 * (n * C)
  {
    if n != 0 {
      RowAtProduct(C, n - 1);
      assert n * C == (n - 1) * C + C;
    }
  }

  lemma {:induction false} RowAtMonotone(C: nat, m: nat, n: nat)
    requires m <= n
    ensures RowAt(C, m) <= RowAt(C, n)
  {
    if m < n { RowAtMonotone(C, m, n - 1); }
  }

  lemma {:induction false} ImageLength(t: seq<Line>, C: nat)
    requires forall i :: 0 <= i < |t| ==> |t[i]| <= C
    ensures |Image(t, C)| == RowAt(C, |t|)
    decreases |t|
  {
    if t != [] {
      ImageLength(t[..|t| - 1], C);
    }
  }

  lemma ImageSnoc(t: seq<Line>, l: Line, C: nat)
    ensures Image(t + [l], C) == Image(t, C) + RowBytes(l, C)
  {
    assert (t + [l])[..|t|] == t;
  }

  /** Row i of an image is line i. */
  lemma {:induction false} ImageRow(t: seq<Line>, C: nat, i: nat)
    requires (forall i :: 0 <= i < |t| ==> |t[i]| <= C) && i < |t|
    ensures RowAt(C, i) + 2 * C <= |Image(t, C)|
    ensures Image(t, C)[RowAt(C, i)..RowAt(C, i) + 2 * C] == RowBytes(t[i], C)
    decreases |t|
  {
    var init := t[..|t| - 1];
    ImageLength(init, C);
    if i == |t| - 1 {
      assert Image(t, C)[|Image(init, C)|..] == RowBytes(t[i], C);
    } else {
      ImageRow(init, C, i);
      var img := Image(init, C);
      assert (img + RowBytes(t[|t| - 1], C))[RowAt(C, i)..RowAt(C, i) + 2 * C] == img[RowAt(C, i)..RowAt(C, i) + 2 * C];
    }
  }

  lemma SliceRest(x: seq<Byte>, y: seq<Byte>, lo: nat)
    requires lo <= |x|
    ensures (x + y)[lo..] == x[lo..] + y
  {
  }

  /** Dropping the first line drops the first row. */
  lemma {:induction false} ImageTail(t: seq<Line>, C: nat)
    requires (forall i :: 0 <= i < |t| ==> |t[i]| <= C) && t != []
    ensures 2 * C <= |Image(t, C)| && Image(t, C)[2 * C..] == Image(t[1..], C)
    decreases |t|
  {
    if |t| == 1 {
      assert t[..0] == [] && t[1..] == [];
      assert Image(t, C) == [] + RowBytes(t[0], C);
    } else {
      var init := t[..|t| - 1];
      ImageTail(init, C);
      assert init[1..] == t[1..][..|t| - 2];
      SliceRest(Image(init, C), RowBytes(t[|t| - 1], C), 2 * C);
    }
  }

  // --- The screen as a function of the lines ---

  /** The row the cursor is on: rows fill from the top, the screen scrolls only when a
      character is about to land below row R. */
  function CursorRow(t: seq<Line>, R: nat): nat
    requires t != []
  {
    Min(|t| - 1, if Current(t) == [] then R + 1 else R)
  }

  /** Rows 0..row of video memory `v` show the last lines of `t`; all below is blank. */
  ghost predicate Shows(v: seq<Byte>, C: nat, t: seq<Line>, row: nat)
    requires Wrapped(t, C)
  {
    && row < |t| && RowAt(C, row + 1) <= |v|
    && v == Image(t[|t| - 1 - row..], C) + Zeros(|v| - RowAt(C, row + 1))
  }

  /** Starting a new line at the bottom costs nothing: the row below is blank already. */
  lemma NewLineShows(v: seq<Byte>, C: nat, t: seq<Line>, row: nat)
    requires Wrapped(t, C) && Shows(v, C, t, row) && RowAt(C, row + 2) <= |v|
    ensures Wrapped(t + [[]], C) && Shows(v, C, t + [[]], row + 1)
  {
    var win := t[|t| - 1 - row..];
    assert (t + [[]])[|t| - 1 - row..] == win + [[]];
    ImageSnoc(win, [], C);
    var rest := |v| - RowAt(C, row + 1);
    assert Zeros(rest) == RowBytes([], C) + Zeros(rest - 2 * C);
  }

  /** On an empty line everything from the cursor's row on is blank. */
  lemma BlankFromCursor(v: seq<Byte>, C: nat, t: seq<Line>, row: nat)
    requires Wrapped(t, C) && Shows(v, C, t, row) && Current(t) == []
    ensures forall j :: 0 <= j && RowAt(C, row) <= j < |v| ==> v[j] == 0
  {
    var win := t[|t| - 1 - row..];
    var init := win[..row];
    assert win == init + [[]];
    ImageSnoc(init, [], C);
    ImageLength(init, C);
    var rest := Zeros(|v| - RowAt(C, row + 1));
    assert v == Image(init, C) + RowBytes([], C) + rest;
  }

  /** A one-row move up turns the picture with row R + 1 blank into the one a row higher. */
  lemma ScrollShows(v: seq<Byte>, v': seq<Byte>, C: nat, t: seq<Line>, R: nat)
    requires Wrapped(t, C) && Current(t) == [] && Shows(v, C, t, R + 1)
    requires RowAt(C, R + 1) + 2 * C <= |v|
    requires v' == v[2 * C..RowAt(C, R + 1) + 2 * C] + v[RowAt(C, R + 1)..]
    ensures Shows(v', C, t, R)
  {
    var win := t[|t| - 2 - R..];
    ImageLength(win, C);
    var k := RowAt(C, R + 1);
    assert v[2 * C..k + 2 * C] == Image(win, C)[2 * C..] by { assert v[..k + 2 * C] == Image(win, C); }
    ImageTail(win, C);
    assert win[1..] == t[|t| - 1 - R..];
    assert v[k..] == Zeros(|v| - k) by { BlankFromCursor(v, C, t, R + 1); }
  }

  lemma PutMiddle(x: seq<Byte>, y: seq<Byte>, z: seq<Byte>, gap: nat, rest: seq<Byte>)
    requires |z| <= gap
    ensures Put(x + (y + Zeros(gap)) + rest, |x| + |y|, z) == x + (y + z + Zeros(gap - |z|)) + rest
  {
  }

  lemma LastLineShows(v: seq<Byte>, C: nat, t: seq<Line>, init: seq<Line>, l: Line, row: nat)
    requires Wrapped(t, C) && row < |t| && t[|t| - 1 - row..] == init + [l] && RowAt(C, row + 1) <= |v|
    ensures |Image(init, C)| == RowAt(C, row)
    ensures Shows(v, C, t, row) <==> v == Image(init, C) + RowBytes(l, C) + Zeros(|v| - RowAt(C, row + 1))
  {
    assert forall i :: 0 <= i < |init| ==> init[i] == (init + [l])[i];
    assert (init + [l])[|init|] == l;
    ImageSnoc(init, l, C);
    ImageLength(init, C);
  }

  lemma AppendEnd(t: seq<Line>, c: Byte, row: nat)
    requires row < |t|
    ensures t[|t| - 1 - row..] == t[|t| - 1 - row..|t| - 1] + [Current(t)]
    ensures |Append(t, c)| == |t|
    ensures Append(t, c)[|t| - 1 - row..] == t[|t| - 1 - row..|t| - 1] + [Current(t) + [c]]
  {
  }

  /** Writing a cell at the cursor appends the character to the current line. */
  lemma WriteShows(v: seq<Byte>, v': seq<Byte>, C: nat, t: seq<Line>, row: nat, c: Byte)
    requires Wrapped(t, C) && Shows(v, C, t, row) && |Current(t)| < C
    requires var at := RowAt(C, row) + 2 * |Current(t)|; at + 2 <= |v| && v' == Put(v, at, Cell(c))
    ensures Wrapped(Append(t, c), C)
    ensures Shows(v', C, Append(t, c), row)
  {
    var l, t' := Current(t), Append(t, c);
    AppendWrapped(t, C, c);
    var init := t[|t| - 1 - row..|t| - 1];
    AppendEnd(t, c, row);
    var below := Zeros(|v| - RowAt(C, row + 1));
    assert |Image(init, C)| == RowAt(C, row) && v == Image(init, C) + RowBytes(l, C) + below by {
      LastLineShows(v, C, t, init, l, row);
    }
    assert RowAt(C, row + 1) == RowAt(C, row) + 2 * C;
    assert v' == Image(init, C) + RowBytes(l + [c], C) + below by { WriteCell(v, Image(init, C), l, c, C, below); }
    LastLineShows(v', C, t', init, l + [c], row);
  }

  lemma WriteCell(v: seq<Byte>, above: seq<Byte>, l: Line, c: Byte, C: nat, below: seq<Byte>)
    requires |l| < C && v == above + RowBytes(l, C) + below
    ensures Put(v, |above| + 2 * |l|, Cell(c)) == above + RowBytes(l + [c], C) + below
  {
    var gap := 2 * (C - |l|);
    assert RowBytes(l, C) == LineBytes(l) + Zeros(gap);
    PutMiddle(above, LineBytes(l), Cell(c), gap, below);
    var l' := l + [c];
    assert l'[..|l|] == l && l'[|l|] == c;
    RowEnd(l', C);
  }

  lemma AppendWrapped(t: seq<Line>, C: nat, c: Byte)
    requires Wrapped(t, C) && |Current(t)| < C
    ensures Wrapped(Append(t, c), C)
  {
  }

  /** The last cell of a row and the blanks behind it. */
  lemma RowEnd(l: Line, C: nat)
    requires l != [] && |l| <= C
    ensures RowBytes(l, C) == LineBytes(l[..|l| - 1]) + Cell(l[|l| - 1]) + Zeros(2 * (C - |l|))
  {
  }

  lemma SliceFirst(x: seq<Byte>, y: seq<Byte>, lo: nat, hi: nat)
    requires lo <= hi <= |x|
    ensures (x + y)[lo..hi] == x[lo..hi]
  {
  }

  lemma SliceZeros(x: seq<Byte>, n: nat, lo: nat, hi: nat)
    requires |x| <= lo <= hi <= |x| + n
    ensures (x + Zeros(n))[lo..hi] == Zeros(hi - lo)
  {
  }

  lemma TextRow(v: seq<Byte>, C: nat, t: seq<Line>, row: nat, i: nat)
    requires Wrapped(t, C) && Shows(v, C, t, row) && i <= row && RowAt(C, i) + 2 * C <= |v|
    ensures v[RowAt(C, i)..RowAt(C, i) + 2 * C] == RowBytes(t[|t| - 1 - row + i], C)
  {
    var win := t[|t| - 1 - row..];
    var image, lo := Image(win, C), RowAt(C, i);
    ImageRow(win, C, i);
    assert image[lo..lo + 2 * C] == RowBytes(win[i], C);
    SliceFirst(image, Zeros(|v| - RowAt(C, row + 1)), lo, lo + 2 * C);
  }

  lemma BlankRow(v: seq<Byte>, C: nat, t: seq<Line>, row: nat, i: nat)
    requires Wrapped(t, C) && Shows(v, C, t, row) && row < i && RowAt(C, i) + 2 * C <= |v|
    ensures v[RowAt(C, i)..RowAt(C, i) + 2 * C] == Zeros(2 * C)
  {
    var win := t[|t| - 1 - row..];
    ImageLength(win, C);
    RowAtMonotone(C, row + 1, i);
    SliceZeros(Image(win, C), |v| - RowAt(C, row + 1), RowAt(C, i), RowAt(C, i) + 2 * C);
  }

  /** The line visible row i shows: the screen is the last lines up to the cursor's. */
  function VisibleLine(t: seq<Line>, R: nat, i: nat): Line
    requires t != []
  {
    var first := |t| - 1 - CursorRow(t, R);
    if first + i < |t| then t[first + i] else []
  }

  /** What is on the screen: each row shows its line, or is blank. */
  lemma VisibleRow(v: seq<Byte>, C: nat, t: seq<Line>, R: nat, i: nat)
    requires Wrapped(t, C) && Shows(v, C, t, CursorRow(t, R)) && RowAt(C, i) + 2 * C <= |v|
    ensures v[RowAt(C, i)..RowAt(C, i) + 2 * C] == RowBytes(VisibleLine(t, R, i), C)
  {
    if i <= CursorRow(t, R) {
      TextRow(v, C, t, CursorRow(t, R), i);
    } else {
      BlankRow(v, C, t, CursorRow(t, R), i);
      assert RowBytes([], C) == Zeros(2 * C);
    }
  }

  lemma BlankShows(v: seq<Byte>, C: nat, t: seq<Line>)
    requires t == [[]] && 2 * C <= |v| && forall i :: 0 <= i < |v| ==> v[i] == 0
    ensures Shows(v, C, t, 0)
  {
    assert t[0..] == t && t[..0] == [];
    assert Image(t, C) == Image(t[..0], C) + RowBytes(t[0], C);
    assert v == Zeros(2 * C) + Zeros(|v| - 2 * C);
    assert RowBytes([], C) == Zeros(2 * C);
  }
}
