/**
 ksrc/printk.c: the console's static row and column over video memory, bytes at a time.
 The methods are the source's; `View` and its steps say what each does to the state, and
 the lemmas show that the state always pictures the abstract terminal.
 */
module Console {
  import opened Words
  import opened Strings
  import Mem
  import opened Format
  import opened Terminal

  const PRINTK_BUFFER: nat := 4096

  /** Bytes of video memory the console can touch on a screen of R + 1 rows and C columns. */
  function VideoBytes(C: nat, R: nat): nat { Max(RowAt(C, R) + RowAt(C, R), RowAt(C, R + 2)) }

  /** In cells: max(2RC, (R + 2)C). */
  lemma VideoBytesCells(C: nat, R: nat)
    ensures VideoBytes(C, R) == 2 * Max(2 * (R * C), (R + 2) * C)
  {
    RowAtProduct(C, R);
    RowAtProduct(C, R + 2);
  }

  /** Video memory and cursor of a screen with rows 0..R and C columns. */
  datatype View = View(v: seq<Byte>, row: nat, column: nat, C: nat, R: nat) {
    /** Every reachable state. */
    predicate Ok() {
      && 1 <= C < 0x10000 && R < 0x100 && VideoBytes(C, R) <= |v|
      && row <= R + 1 && column <= C && (row == R + 1 ==> column == 0)
    }

    function Wrapped(): View { if column >= C then this.(row := row + 1, column := 0) else this }

    function Scrolled(): View
      requires Ok()
    {
      if row < R + 1 then this
      else
        RowAtMonotone(C, row + 1, R + 2);
        View(Mem.Copied(v, 0, 2 * C, RowAt(C, row)), R, 0, C, R)
    }

    function NextRow(): View { this.(row := row + 1, column := 0) }

    /** The clear at column 0: as many bytes again as lie above the row. */
    function Cleared(): View
      requires Ok() && row <= R
    {
      RowAtMonotone(C, row, R);
      if column == 0 then this.(v := Put(v, RowAt(C, row), Zeros(RowAt(C, row)))) else this
    }

    function Written(c: Byte): View
      requires Ok() && row <= R && column < C
    {
      RowAtMonotone(C, row + 1, R + 2);
      this.(v := Put(v, RowAt(C, row) + 2 * column, Cell(c)), column := column + 1)
    }

    /** console_putc as a whole. */
    function Putc(c: Byte): (r: View)
      requires Ok()
      ensures r.Ok() && r.C == C && r.R == R && |r.v| == |v|
    {
      var s := Wrapped().Scrolled();
      if c == NEWLINE then s.NextRow() else s.Cleared().Written(c)
    }

    function Puts(s: seq<Byte>): (r: View)
      requires Ok()
      ensures r.Ok() && r.C == C && r.R == R && |r.v| == |v|
      decreases |s|
    {
      if s == [] then this else Putc(s[0]).Puts(s[1..])
    }
  }

  // --- One character, in bytes ---

  /** The cursor: past the last column it moves to the next row, past the last row it stays on
      it; then 0x0A takes it to column 0 of the row below, every other byte one column on. */
  lemma PutcCursor(w: View, c: Byte)
    requires w.Ok()
    ensures var row, column := if w.column >= w.C then w.row + 1 else w.row, if w.column >= w.C then 0 else w.column;
            var r, onScreen := w.Putc(c), Min(row, w.R);
            if c == 0x0A then r.row == onScreen + 1 && r.column == 0
            else r.row == onScreen && r.column == column + 1
  {
  }

  /** Where nothing wraps or scrolls: 0x0A leaves every byte alone; every other byte is stored
      at the cursor with attribute 0xF1, or 0xFF from 0x80 on, and away from column 0 no other
      byte changes. */
  lemma PutcBytes(w: View, c: Byte)
    requires w.Ok() && w.row <= w.R && w.column < w.C
    ensures var v, v', at := w.v, w.Putc(c).v, RowAt(w.C, w.row) + 2 * w.column;
            && |v'| == |v| && at + 2 <= |v|
            && (c == 0x0A ==> v' == v)
            && (c != 0x0A ==> v'[at] == c && v'[at + 1] == if c < 0x80 then 0xF1 else 0xFF)
            && (w.column != 0 ==> forall k :: 0 <= k < |v| && k != at && k != at + 1 ==> v'[k] == v[k])
  {
    CellFits(w);
    if c != 0x0A {
      var x, at := w.Cleared().v, RowAt(w.C, w.row) + 2 * w.column;
      assert w.Putc(c).v == Put(x, at, Cell(c));
      PutAt(x, at, Cell(c), at);
      PutAt(x, at, Cell(c), at + 1);
    }
  }

  // --- The state pictures the terminal ---

  /** The cursor is where the lines end. */
  ghost predicate At(w: View, t: seq<Line>) {
    w.Ok() && Terminal.Wrapped(t, w.C) && w.row == CursorRow(t, w.R) && w.column == |Current(t)|
  }

  /** The same between the scroll and the character: the cursor is on a visible row. */
  ghost predicate OnScreen(w: View, t: seq<Line>) {
    w.Ok() && Terminal.Wrapped(t, w.C) && w.row == Min(|t| - 1, w.R) && w.column == |Current(t)|
  }

  /** Video memory shows the last lines of `t`, the cursor where they end. */
  ghost predicate Pictures(w: View, t: seq<Line>) { At(w, t) && Shows(w.v, w.C, t, w.row) }

  ghost predicate PicturesOnScreen(w: View, t: seq<Line>) { OnScreen(w, t) && Shows(w.v, w.C, t, w.row) }

  lemma NewLineCursor(t: seq<Line>, R: nat)
    ensures CursorRow(t + [[]], R) == Min(|t|, R + 1) && Current(t + [[]]) == []
  {
  }

  lemma AppendCursor(t: seq<Line>, c: Byte, R: nat)
    requires t != []
    ensures CursorRow(Append(t, c), R) == Min(|t| - 1, R) && |Current(Append(t, c))| == |Current(t)| + 1
  {
  }

  lemma NewLineAt(w: View, t: seq<Line>)
    requires OnScreen(w, t)
    ensures At(w.NextRow(), t + [[]])
  {
    NewLineCursor(t, w.R);
  }

  lemma WrapAt(w: View, t: seq<Line>)
    requires At(w, t)
    ensures At(w.Wrapped(), Wrap(t, w.C))
  {
    if w.column >= w.C { NewLineCursor(t, w.R); }
  }

  lemma ScrollAt(w: View, t: seq<Line>)
    requires At(w, t)
    ensures OnScreen(w.Scrolled(), t)
  {
  }

  lemma WriteAt(w: View, t: seq<Line>, c: Byte)
    requires OnScreen(w, t) && w.column < w.C
    ensures At(w.Written(c), Append(t, c))
  {
    WrittenOk(w, c);
    AppendWrapped(t, w.C, c);
    AppendCursor(t, c, w.R);
  }

  lemma CellFits(w: View)
    requires w.Ok() && w.row <= w.R && w.column < w.C
    ensures RowAt(w.C, w.row) + 2 * w.column + 2 <= |w.v|
  {
    RowAtMonotone(w.C, w.row + 1, w.R + 2);
  }

  lemma WrittenOk(w: View, c: Byte)
    requires w.Ok() && w.row <= w.R && w.column < w.C
    ensures w.Written(c).Ok()
  {
    RowAtMonotone(w.C, w.row + 1, w.R + 2);
  }

  lemma NewLinePictures(w: View, t: seq<Line>)
    requires w.Ok() && w.row <= w.R && Terminal.Wrapped(t, w.C) && Shows(w.v, w.C, t, w.row)
    requires At(w.NextRow(), t + [[]])
    ensures Pictures(w.NextRow(), t + [[]])
  {
    RoomBelow(w);
    NewLineShows(w.v, w.C, t, w.row);
  }

  lemma RoomBelow(w: View)
    requires w.Ok() && w.row <= w.R
    ensures RowAt(w.C, w.row + 2) <= |w.v|
  {
    RowAtMonotone(w.C, w.row + 2, w.R + 2);
  }

  lemma WrapPictures(w: View, t: seq<Line>)
    requires Pictures(w, t)
    ensures Pictures(w.Wrapped(), Wrap(t, w.C))
  {
    WrapAt(w, t);
    if w.column >= w.C {
      assert w.Wrapped() == w.NextRow();
      NewLinePictures(w, t);
    }
  }

  /** The scroll: an overlapping copy that moves every row up and pulls in the blank one. */
  lemma ScrollPictures(w: View, t: seq<Line>)
    requires Pictures(w, t)
    ensures PicturesOnScreen(w.Scrolled(), t)
  {
    ScrollAt(w, t);
    if w.row == w.R + 1 {
      var k := RowAt(w.C, w.row);
      RowAtMonotone(w.C, w.row + 1, w.R + 2);
      Mem.CopyIsMove(w.v, 0, 2 * w.C, k);
      assert Mem.Moved(w.v, 0, 2 * w.C, k) == w.v[2 * w.C..k + 2 * w.C] + w.v[k..];
      ScrollShows(w.v, w.Scrolled().v, w.C, t, w.R);
    }
  }

  lemma NextRowPictures(w: View, t: seq<Line>)
    requires PicturesOnScreen(w, t)
    ensures Pictures(w.NextRow(), t + [[]])
  {
    NewLineAt(w, t);
    NewLinePictures(w, t);
  }

  /** Whether the bytes of the cursor's row are blank. */
  ghost predicate RowBlank(v: seq<Byte>, C: nat, row: nat) {
    forall j :: RowAt(C, row) <= j < RowAt(C, row) + 2 * C && j < |v| ==> v[j] == 0
  }

  /** The clear at column 0 does its job on every row but row 0, where its length is zero:
      old contents there survive. */
  lemma ClearReachesRow(w: View)
    requires w.Ok() && w.row <= w.R && w.column == 0
    ensures RowBlank(w.Cleared().v, w.C, w.row) <==> w.row >= 1 || RowBlank(w.v, w.C, w.row)
  {
    var k := RowAt(w.C, w.row);
    RowAtMonotone(w.C, w.row, w.R);
    if w.row >= 1 {
      RowAtMonotone(w.C, 1, w.row);
      forall j | k <= j < k + 2 * w.C && j < |w.v|
        ensures w.Cleared().v[j] == 0
      {
        PutAt(w.v, k, Zeros(k), j);
      }
    } else {
      assert Put(w.v, 0, Zeros(0)) == w.v;
    }
  }

  /** The over-wide clear finds blank cells only. */
  lemma ClearChangesNothing(w: View, t: seq<Line>)
    requires PicturesOnScreen(w, t)
    ensures w.Cleared() == w
  {
    if w.column == 0 {
      RowAtMonotone(w.C, w.row, w.R);
      BlankFromCursor(w.v, w.C, t, w.row);
      var k := RowAt(w.C, w.row);
      assert Put(w.v, k, Zeros(k)) == w.v;
    }
  }

  lemma WrittenShows(w: View, t: seq<Line>, c: Byte)
    requires PicturesOnScreen(w, t) && w.column < w.C
    ensures Terminal.Wrapped(Append(t, c), w.C)
    ensures Shows(w.Written(c).v, w.C, Append(t, c), w.row)
  {
    CellFits(w);
    WriteShows(w.v, w.Written(c).v, w.C, t, w.row, c);
  }

  lemma WritePictures(w: View, t: seq<Line>, c: Byte)
    requires PicturesOnScreen(w, t) && w.column < w.C
    ensures Pictures(w.Written(c), Append(t, c))
  {
    WriteAt(w, t, c);
    WrittenShows(w, t, c);
  }

  /** Console refinement, one character. */
  lemma PutcPictures(w: View, t: seq<Line>, c: Byte)
    requires Pictures(w, t)
    ensures Pictures(w.Putc(c), Feed(t, w.C, c))
  {
    var t1, w1 := Wrap(t, w.C), w.Wrapped();
    WrapPictures(w, t);
    ScrollPictures(w1, t1);
    var w2 := w1.Scrolled();
    if c == NEWLINE {
      NextRowPictures(w2, t1);
    } else {
      ClearChangesNothing(w2, t1);
      WritePictures(w2, t1, c);
    }
  }

  /** Console refinement: after any text, video memory pictures the terminal fed with it. */
  lemma {:induction false} PutsPictures(w: View, t: seq<Line>, s: seq<Byte>)
    requires Pictures(w, t)
    ensures Pictures(w.Puts(s), FeedAll(t, w.C, s))
    decreases |s|
  {
    if s != [] {
      PutcPictures(w, t, s[0]);
      PutsPictures(w.Putc(s[0]), Feed(t, w.C, s[0]), s[1..]);
    }
  }

  function Blank(n: nat, C: nat, R: nat): View { View(Zeros(n), 0, 0, C, R) }

  lemma BlankPictures(n: nat, C: nat, R: nat)
    requires Blank(n, C, R).Ok()
    ensures Pictures(Blank(n, C, R), [[]])
  {
    RowAtMonotone(C, 1, R + 2);
    BlankShows(Zeros(n), C, [[]]);
  }

  /** The cursor is where the lines end, and row i shows its line or is blank. */
  ghost predicate Displays(w: View, t: seq<Line>, i: nat)
    requires t != [] && RowAt(w.C, i) + 2 * w.C <= |w.v|
  {
    && w.row == CursorRow(t, w.R) && w.column == |Current(t)|
    && w.v[RowAt(w.C, i)..RowAt(w.C, i) + 2 * w.C] == RowBytes(VisibleLine(t, w.R, i), w.C)
  }

  lemma PicturesDisplay(w: View, t: seq<Line>, i: nat)
    requires Pictures(w, t) && RowAt(w.C, i) + 2 * w.C <= |w.v|
    ensures Displays(w, t, i)
  {
    VisibleRow(w.v, w.C, t, w.R, i);
  }

  /** From blank memory, whatever was printed: every visible row, and every row below the
      cursor's, is exactly what the terminal says. */
  lemma ScreenShowsLastLines(n: nat, C: nat, R: nat, s: seq<Byte>, i: nat)
    requires Blank(n, C, R).Ok() && RowAt(C, i) + 2 * C <= n
    ensures Displays(Blank(n, C, R).Puts(s), FeedAll([[]], C, s), i)
  {
    BlankPictures(n, C, R);
    PutsPictures(Blank(n, C, R), [[]], s);
    PicturesDisplay(Blank(n, C, R).Puts(s), FeedAll([[]], C, s), i);
  }

  lemma PutsStep(w: View, s: seq<Byte>, k: nat)
    requires w.Ok() && k < |s|
    ensures w.Puts(s[k..]) == w.Putc(s[k]).Puts(s[k + 1..])
  {
    assert s[k..][0] == s[k] && s[k..][1..] == s[k + 1..];
  }

  // --- The code ---

  /** The scroll's source and destination lie in video memory. */
  lemma ScrollFits(w: View)
    requires w.Ok() && w.row == w.R + 1
    ensures 2 * (w.row * w.C + w.column) == RowAt(w.C, w.row)
    ensures Mem.Fits(|w.v|, 0, RowAt(w.C, w.row)) && Mem.Fits(|w.v|, 2 * w.C, RowAt(w.C, w.row))
  {
    RowAtProduct(w.C, w.row);
    RowAtMonotone(w.C, w.row + 1, w.R + 2);
  }

  /** A `char` promoted to 32 bits. */
  function Promoted(c: Byte): (w: Word)
    ensures w == if c < 0x80 then c else 0xFFFFFF * 0x100 + c
  {
    Mem.SignedChar(c) % 0x1_0000_0000
  }

  lemma OrByte(h: nat, g: nat, b: Byte)
    ensures Or(h * 0x100, g * 0x100 + b) == Or(h, g) * 0x100 + b
  {
    Pow2Values();
    OrAbove(h, g, b, 8, 0x100);
  }

  lemma HighOr(c: Byte)
    ensures Or(0xF1, if c < 0x80 then 0 else 0xFFFFFF) == if c < 0x80 then 0xF1 else 0xFFFFFF
  {
    if c >= 0x80 {
      assert Pow2(24) == 0x1000000 by { Pow2Values(); Pow2Add(12, 12); }
      assert 0xF1 < Pow2(24);
      OrOnes(0xF1, 24);
    }
  }

  /** The low 16 bits of 0xF100 | c are the cell. */
  lemma CellValue(c: Byte)
    ensures Or(0xF100, Promoted(c)) % 0x10000 == Attribute(c) * 0x100 + c
  {
    var high, all := if c < 0x80 then 0 else 0xFFFFFF, if c < 0x80 then 0xF1 else 0xFFFFFF;
    assert Or(0xF1 * 0x100, high * 0x100 + c) == all * 0x100 + c by {
      OrByte(0xF1, high, c);
      HighOr(c);
    }
    assert Promoted(c) == high * 0x100 + c;
    DivModUnique(all * 0x100 + c, 0x10000, if c < 0x80 then 0 else 0xFFFF, Attribute(c) * 0x100 + c);
  }

  /** A terminated text at index `s`. */
  ghost predicate Holds(buf: array<Byte>, s: nat, text: Text)
    reads buf
  {
    && s + |text| < buf.Length && buf[s + |text|] == 0
    && forall i :: 0 <= i < |text| ==> buf[s + i] == text[i]
  }

  lemma Slices(s: seq<Byte>)
    ensures s[0..] == s && s[|s|..] == []
  {
  }

  lemma HoldsAt(buf: array<Byte>, s: nat, text: Text, k: nat)
    requires Holds(buf, s, text) && k <= |text|
    ensures buf[s + k] == 0 <==> k == |text|
    ensures k < |text| ==> buf[s + k] == text[k]
  {
    if k < |text| { assert text[k] in text; }
  }

  /** A call of printk. */
  datatype Call = Call(fmt: Text, args: seq<Arg>) {
    /** Its arguments match, and printk's buffer holds all that vsprintf touches. */
    predicate Ok() { Matches(fmt, args) && Touched(fmt, args) <= PRINTK_BUFFER }

    function Text(): Strings.Text
      requires Ok()
    {
      Render(fmt, args)
    }
  }

  class Screen {
    const video: array<Byte>
    const C: nat
    const R: nat
    var row: nat
    var column: nat

    /** The state as a value. */
    function Now(): View
      reads this, video
    {
      View(video[..], row, column, C, R)
    }

    constructor (video: array<Byte>, C: nat, R: nat)
      requires 1 <= C < 0x10000 && R < 0x100 && VideoBytes(C, R) <= video.Length
      ensures Now() == View(video[..], 0, 0, C, R) && Now().Ok() && this.video == video
    {
      this.video, this.C, this.R := video, C, R;
      row, column := 0, 0;
    }

    /** One 16-bit store at row and column. */
    method StoreCell(c: Byte)
      requires RowAt(C, row) + 2 * column + 2 <= video.Length
      modifies video
      ensures video[..] == Put(old(video[..]), RowAt(C, row) + 2 * column, Cell(c))
    {
      RowAtProduct(C, row);
      CellValue(c);
      var cell, at := Or(0xF100, Promoted(c)) % 0x10000, 2 * (row * C + column);
      assert cell % 0x100 == c && cell / 0x100 == Attribute(c) by { DivModUnique(cell, 0x100, Attribute(c), c); }
      video[at] := cell % 0x100;
      video[at + 1] := cell / 0x100;
    }

    /** The length the scroll copies, in bytes. */
    method ScrollBytes() returns (bytes: nat)
      requires Now().Ok() && row == R + 1
      ensures bytes == RowAt(C, row) && Mem.Fits(video.Length, 2 * C, bytes)
    {
      ScrollFits(Now());
      bytes := 2 * (row * C + column);
    }

    /** The second `if` of console_putc. */
    method ScrollUp()
      requires Now().Ok()
      modifies this`row, this`column, video
      ensures Now() == old(Now()).Scrolled()
    {
      if row >= R + 1 {
        var bytes := ScrollBytes();
        Mem.MemCpy(video, 0, 2 * C, bytes);
        row := R;
        column := 0;
      }
    }

    method ClearRow()
      requires Now().Ok() && row <= R
      modifies video
      ensures Now() == old(Now()).Cleared()
    {
      if column == 0 {
        RowAtMonotone(C, row, R);
        RowAtProduct(C, row);
        Mem.MemSet(video, 2 * (row * C), 0x00, 2 * (row * C));
      }
    }

    method WriteCell(c: Byte)
      requires Now().Ok() && row <= R && column < C
      modifies this`column, video
      ensures Now() == old(Now()).Written(c)
    {
      CellFits(Now());
      StoreCell(c);
      column := column + 1;
    }

    /** The rest of console_putc for a printable character. */
    method WriteChar(c: Byte)
      requires Now().Ok() && row <= R && column < C
      modifies this`column, video
      ensures Now() == old(Now()).Cleared().Written(c)
    {
      ClearRow();
      WriteCell(c);
    }

    /** console_putc. */
    method Putc(c: Byte)
      requires Now().Ok()
      modifies this`row, this`column, video
      ensures Now() == old(Now()).Putc(c)
    {
      ghost var w := Now();
      if column >= C {
        column := 0;
        row := row + 1;
      }
      assert Now() == w.Wrapped();
      ScrollUp();
      if c == NEWLINE {
        column := 0;
        row := row + 1;
        assert Now() == w.Wrapped().Scrolled().NextRow();
      } else {
        WriteChar(c);
      }
    }

    /** The loop body of console_puts. */
    method PutsNext(c: Byte, ghost text: Text, ghost k: nat)
      requires Now().Ok() && k < |text| && c == text[k]
      modifies this`row, this`column, video
      ensures Now().Ok() && Now().Puts(text[k + 1..]) == old(Now()).Puts(text[k..])
    {
      PutsStep(Now(), text, k);
      Putc(c);
    }

    /** console_puts, up to the terminator. */
    method Puts(buf: array<Byte>, s: nat, ghost text: Text)
      requires Now().Ok() && buf != video && Holds(buf, s, text)
      modifies this`row, this`column, video
      ensures Now() == old(Now()).Puts(text)
    {
      var tmp := s;
      ghost var k, end := 0, Now().Puts(text);
      Slices(text);
      while buf[tmp] != 0
        invariant 0 <= k <= |text| && tmp == s + k && Holds(buf, s, text)
        invariant Now().Ok() && Now().Puts(text[k..]) == end
        decreases |text| - k
      {
        HoldsAt(buf, s, text, k);
        PutsNext(buf[tmp], text, k);
        tmp := tmp + 1;
        k := k + 1;
      }
      HoldsAt(buf, s, text, k);
    }

    /** printk: a fresh zeroed buffer, vsprintf, console_puts. */
    method Printk(fmt: Text, args: seq<Arg>)
      requires Now().Ok() && Matches(fmt, args) && Touched(fmt, args) <= PRINTK_BUFFER
      modifies this`row, this`column, video
      ensures Now() == old(Now()).Puts(Render(fmt, args))
    {
      var buf := RenderBuffer(fmt, args);
      Puts(buf, 0, Render(fmt, args));
    }

    /** A sequence of printk calls. */
    method PrintCalls(calls: seq<Call>)
      requires Now().Ok() && forall i :: 0 <= i < |calls| ==> calls[i].Ok()
      modifies this`row, this`column, video
      ensures Now() == AfterCalls(old(Now()), calls)
    {
      ghost var w := Now();
      for i := 0 to |calls|
        invariant Now() == AfterCalls(w, calls[..i])
      {
        assert calls[..i + 1][..i] == calls[..i];
        Printk(calls[i].fmt, calls[i].args);
      }
      assert calls[..|calls|] == calls;
    }
  }

  /** printk's local buffer after vsprintf. */
  method RenderBuffer(fmt: Text, args: seq<Arg>) returns (buf: array<Byte>)
    requires Matches(fmt, args) && Touched(fmt, args) <= PRINTK_BUFFER
    ensures fresh(buf) && buf.Length == 4096 && |Render(fmt, args)| < 4096
    ensures Holds(buf, 0, Render(fmt, args))
  {
    buf := new Byte[PRINTK_BUFFER];
    Mem.MemSet(buf, 0, 0x00, PRINTK_BUFFER);
    ghost var zero, text := buf[..], Render(fmt, args);
    var n := VSPrintf(buf, 0, fmt, args);
    forall i | 0 <= i <= |text|
      ensures buf[i] == (text + [0])[i]
    {
      assert buf[i] == buf[..][i] == Put(zero, 0, text + [0])[i];
    }
  }

  // --- End to end ---

  /** All text the calls render. */
  function Printed(calls: seq<Call>): seq<Byte>
    requires forall i :: 0 <= i < |calls| ==> calls[i].Ok()
  {
    if calls == [] then [] else Printed(calls[..|calls| - 1]) + calls[|calls| - 1].Text()
  }

  /** The state after a sequence of printk calls, as Screen.Printk's contract gives it. */
  function AfterCalls(w: View, calls: seq<Call>): (r: View)
    requires w.Ok() && forall i :: 0 <= i < |calls| ==> calls[i].Ok()
    ensures r.Ok() && r.C == w.C && r.R == w.R && |r.v| == |w.v|
  {
    if calls == [] then w else AfterCalls(w, calls[..|calls| - 1]).Puts(calls[|calls| - 1].Text())
  }

  lemma {:induction false} PutsConcat(w: View, s: seq<Byte>, u: seq<Byte>)
    requires w.Ok()
    ensures w.Puts(s + u) == w.Puts(s).Puts(u)
    decreases |s|
  {
    if s == [] {
      assert s + u == u;
    } else {
      assert (s + u)[0] == s[0] && (s + u)[1..] == s[1..] + u;
      PutsConcat(w.Putc(s[0]), s[1..], u);
    }
  }

  lemma {:induction false} CallsPrint(w: View, calls: seq<Call>)
    requires w.Ok() && forall i :: 0 <= i < |calls| ==> calls[i].Ok()
    ensures AfterCalls(w, calls) == w.Puts(Printed(calls))
    decreases |calls|
  {
    if calls != [] {
      var init, last := calls[..|calls| - 1], calls[|calls| - 1];
      CallsPrint(w, init);
      PutsConcat(w, Printed(init), last.Text());
    }
  }

  /** End to end: from blank memory, after any printk calls that fit its buffer the screen
      shows the last lines of all the rendered text. */
  lemma PrintkShowsLastLines(n: nat, C: nat, R: nat, calls: seq<Call>, i: nat)
    requires Blank(n, C, R).Ok() && RowAt(C, i) + 2 * C <= n
    requires forall i :: 0 <= i < |calls| ==> calls[i].Ok()
    ensures Displays(AfterCalls(Blank(n, C, R), calls), FeedAll([[]], C, Printed(calls)), i)
  {
    CallsPrint(Blank(n, C, R), calls);
    ScreenShowsLastLines(n, C, R, Printed(calls), i);
  }
}
