/**
 ksrc/printk.c over video memory that held something before: which cells a row shows
 behind its line.  The console clears a row when its first character arrives, but never
 row 0 and never for an empty line, so what was in memory can stay visible and scroll.
 */
module OldContents {
  import opened Words
  import opened Strings
  import Mem
  import opened Terminal
  import opened Console

  /** What lies behind the characters of a row: blanks, or row `n` of the memory at the start. */
  datatype Ground = Clean | Old(n: nat)

  /** The rows the console can touch. */
  function Rows(R: nat): nat { Max(2 * R, R + 2) }

  // --- What the code does to the ground, as a function of the lines alone ---

  /** Every row as it was. */
  function Untouched(R: nat): (g: seq<Ground>)
    ensures |g| == Rows(R)
  {
    seq(Rows(R), i requires 0 <= i => Old(i))
  }

  /** The scroll moves rows 1 to R + 1 up by one and leaves row R + 1 as it is. */
  function ScrollGround(g: seq<Ground>, t: seq<Line>, R: nat): (g': seq<Ground>)
    requires t != [] && |g| == Rows(R)
    ensures |g'| == |g|
  {
    if CursorRow(t, R) == R + 1 then g[1..R + 2] + g[R + 1..] else g
  }

  lemma ScrolledGroundAt(g: seq<Ground>, R: nat, i: nat)
    requires |g| == Rows(R) && i < |g|
    ensures (g[1..R + 2] + g[R + 1..])[i] == g[if i <= R then i + 1 else i]
  {
  }

  /** The clear at column 0: as many rows from the cursor's on as lie above it. */
  function ClearGround(g: seq<Ground>, t: seq<Line>, R: nat): (g': seq<Ground>)
    requires t != [] && |g| == Rows(R)
    ensures |g'| == |g|
  {
    var row := Min(|t| - 1, R);
    if Current(t) == [] then g[..row] + seq(row, i => Clean) + g[2 * row..] else g
  }

  lemma ClearedGroundAt(g: seq<Ground>, row: nat, i: nat)
    requires 2 * row <= |g| && i < |g|
    ensures |g[..row] + seq(row, i => Clean) + g[2 * row..]| == |g|
    ensures (g[..row] + seq(row, i => Clean) + g[2 * row..])[i] == if row <= i < 2 * row then Clean else g[i]
  {
  }

  function FeedGround(g: seq<Ground>, t: seq<Line>, C: nat, R: nat, c: Byte): (g': seq<Ground>)
    requires t != [] && |g| == Rows(R)
    ensures |g'| == |g|
  {
    var t1 := Wrap(t, C);
    var g1 := ScrollGround(g, t1, R);
    if c == NEWLINE then g1 else ClearGround(g1, t1, R)
  }

  function GroundAfter(g: seq<Ground>, t: seq<Line>, C: nat, R: nat, s: seq<Byte>): (g': seq<Ground>)
    requires t != [] && |g| == Rows(R)
    ensures |g'| == |g|
    decreases |s|
  {
    if s == [] then g else GroundAfter(FeedGround(g, t, C, R, s[0]), Feed(t, C, s[0]), C, R, s[1..])
  }

  // --- Memory as lines over the ground ---

  predicate RowIn(v: seq<Byte>, C: nat, i: nat) { RowAt(C, i) + 2 * C <= |v| }

  function ByteAt(v: seq<Byte>, C: nat, i: nat, j: nat): Byte
    requires RowIn(v, C, i) && j < 2 * C
  {
    v[RowAt(C, i) + j]
  }

  /** Byte `j` of a row that shows line `l` over ground `g`. */
  function Layered(v0: seq<Byte>, C: nat, l: Line, g: Ground, j: nat): Byte
    requires j < 2 * C && (g.Old? ==> RowIn(v0, C, g.n))
  {
    if j < 2 * |l| then LineBytes(l)[j] else if g.Clean? then 0 else ByteAt(v0, C, g.n, j)
  }

  ghost predicate RowOver(v: seq<Byte>, v0: seq<Byte>, C: nat, i: nat, l: Line, g: Ground) {
    && RowIn(v, C, i) && (g.Old? ==> RowIn(v0, C, g.n))
    && forall j :: 0 <= j < 2 * C ==> ByteAt(v, C, i, j) == Layered(v0, C, l, g, j)
  }

  /** The line on row `i` when the cursor's line is on row `row`. */
  function LineAt(t: seq<Line>, row: nat, i: nat): Line
    requires row < |t|
  {
    if i <= row then t[|t| - 1 - row + i] else []
  }

  ghost predicate Over(v: seq<Byte>, v0: seq<Byte>, C: nat, t: seq<Line>, row: nat, g: seq<Ground>)
    requires row < |t|
  {
    forall i :: 0 <= i < |g| ==> RowOver(v, v0, C, i, LineAt(t, row, i), g[i])
  }

  // --- One step ---

  /** A row whose bytes did not change. */
  lemma RowKept(v: seq<Byte>, v': seq<Byte>, v0: seq<Byte>, C: nat, i: nat, i': nat, l: Line, g: Ground)
    requires RowOver(v, v0, C, i, l, g) && RowIn(v', C, i')
    requires forall j :: 0 <= j < 2 * C ==> ByteAt(v', C, i', j) == ByteAt(v, C, i, j)
    ensures RowOver(v', v0, C, i', l, g)
  {
  }

  /** An empty line below the last costs nothing. */
  lemma NewLineOver(v: seq<Byte>, v0: seq<Byte>, C: nat, t: seq<Line>, row: nat, g: seq<Ground>)
    requires row < |t| && Over(v, v0, C, t, row, g)
    ensures Over(v, v0, C, t + [[]], row + 1, g)
  {
    forall i | 0 <= i < |g|
      ensures RowOver(v, v0, C, i, LineAt(t + [[]], row + 1, i), g[i])
    {
      assert LineAt(t + [[]], row + 1, i) == LineAt(t, row, i);
    }
  }

  lemma RowBefore(C: nat, i: nat, k: nat, j: nat)
    requires i < k && j < 2 * C
    ensures RowAt(C, i) + j < RowAt(C, k)
  {
    RowAtMonotone(C, i + 1, k);
  }

  lemma RowAtSum(C: nat, a: nat, b: nat)
    ensures RowAt(C, a + b) == RowAt(C, a) + RowAt(C, b)
  {
    RowAtProduct(C, a);
    RowAtProduct(C, b);
    RowAtProduct(C, a + b);
    assert (a + b) * C == a * C + b * C;
  }

  /** The scroll as a move. */
  lemma ScrollMoves(v: seq<Byte>, C: nat, R: nat, x: nat)
    requires RowAt(C, R + 2) <= |v| && x < |v|
    ensures Mem.Fits(|v|, 0, RowAt(C, R + 1)) && Mem.Fits(|v|, 2 * C, RowAt(C, R + 1))
    ensures var v' := Mem.Copied(v, 0, 2 * C, RowAt(C, R + 1));
            |v'| == |v| && v'[x] == v[if x < RowAt(C, R + 1) then x + 2 * C else x]
  {
    Mem.CopyIsMove(v, 0, 2 * C, RowAt(C, R + 1));
  }

  /** One byte of a row across the scroll. */
  lemma ScrolledByte(v: seq<Byte>, C: nat, R: nat, i: nat, j: nat)
    requires RowAt(C, R + 2) <= |v| && j < 2 * C && RowIn(v, C, i)
    ensures Mem.Fits(|v|, 0, RowAt(C, R + 1)) && Mem.Fits(|v|, 2 * C, RowAt(C, R + 1))
    ensures i <= R ==> RowIn(v, C, i + 1)
    ensures var v' := Mem.Copied(v, 0, 2 * C, RowAt(C, R + 1));
            |v'| == |v| && ByteAt(v', C, i, j) == ByteAt(v, C, if i <= R then i + 1 else i, j)
  {
    ScrollMoves(v, C, R, RowAt(C, i) + j);
    if i <= R {
      RowBefore(C, i, R + 1, j);
      RowAtMonotone(C, i + 2, R + 2);
    } else {
      RowAtMonotone(C, R + 1, i);
    }
  }

  lemma ScrollOver(v: seq<Byte>, v0: seq<Byte>, C: nat, t: seq<Line>, R: nat, g: seq<Ground>)
    requires R + 1 < |t| && Current(t) == [] && |g| == Rows(R) && RowAt(C, R + 2) <= |v|
    requires Over(v, v0, C, t, R + 1, g)
    ensures Mem.Fits(|v|, 0, RowAt(C, R + 1)) && Mem.Fits(|v|, 2 * C, RowAt(C, R + 1))
    ensures Over(Mem.Copied(v, 0, 2 * C, RowAt(C, R + 1)), v0, C, t, R, g[1..R + 2] + g[R + 1..])
  {
    RowAtMonotone(C, R + 1, R + 2);
    var v', g' := Mem.Copied(v, 0, 2 * C, RowAt(C, R + 1)), g[1..R + 2] + g[R + 1..];
    forall i | 0 <= i < |g'|
      ensures RowOver(v', v0, C, i, LineAt(t, R, i), g'[i])
    {
      var from := if i <= R then i + 1 else i;
      ScrolledGroundAt(g, R, i);
      assert LineAt(t, R, i) == LineAt(t, R + 1, from);
      assert RowOver(v, v0, C, from, LineAt(t, R + 1, from), g[from]);
      assert RowOver(v, v0, C, i, LineAt(t, R + 1, i), g[i]);
      forall j | 0 <= j < 2 * C
        ensures |v'| == |v| && ByteAt(v', C, i, j) == ByteAt(v, C, from, j)
      {
        ScrolledByte(v, C, R, i, j);
      }
      RowKept(v, v', v0, C, from, i, LineAt(t, R, i), g'[i]);
    }
  }

  lemma ClearedByte(v: seq<Byte>, C: nat, row: nat, i: nat, j: nat)
    requires RowAt(C, row) + RowAt(C, row) <= |v| && j < 2 * C && RowIn(v, C, i)
    ensures var v' := Put(v, RowAt(C, row), Zeros(RowAt(C, row)));
            |v'| == |v| && ByteAt(v', C, i, j) == if row <= i < 2 * row then 0 else ByteAt(v, C, i, j)
  {
    var k, x := RowAt(C, row), RowAt(C, i) + j;
    RowAtSum(C, row, row);
    PutAt(v, k, Zeros(k), x);
    if i < row {
      RowBefore(C, i, row, j);
    } else if i < 2 * row {
      RowAtMonotone(C, row, i);
      RowBefore(C, i, row + row, j);
    } else {
      RowAtMonotone(C, row + row, i);
    }
  }

  lemma ClearedRow(v: seq<Byte>, v0: seq<Byte>, C: nat, row: nat, i: nat, l: Line, g: Ground)
    requires RowAt(C, row) + RowAt(C, row) <= |v| && RowOver(v, v0, C, i, l, g)
    requires row <= i < 2 * row ==> l == []
    ensures RowOver(Put(v, RowAt(C, row), Zeros(RowAt(C, row))), v0, C, i, l, if row <= i < 2 * row then Clean else g)
  {
    var v', g' := Put(v, RowAt(C, row), Zeros(RowAt(C, row))), if row <= i < 2 * row then Clean else g;
    forall j | 0 <= j < 2 * C
      ensures |v'| == |v| && ByteAt(v', C, i, j) == Layered(v0, C, l, g', j)
    {
      ClearedByte(v, C, row, i, j);
      assert ByteAt(v, C, i, j) == Layered(v0, C, l, g, j);
    }
  }

  /** The clear: row `row` and those below it show no characters, so they become blank. */
  lemma ClearOver(v: seq<Byte>, v0: seq<Byte>, C: nat, t: seq<Line>, row: nat, g: seq<Ground>)
    requires row < |t| && Current(t) == [] && 2 * row <= |g| && RowAt(C, row) + RowAt(C, row) <= |v|
    requires Over(v, v0, C, t, row, g)
    ensures Over(Put(v, RowAt(C, row), Zeros(RowAt(C, row))), v0, C, t, row,
                 g[..row] + seq(row, i => Clean) + g[2 * row..])
  {
    var v', g' := Put(v, RowAt(C, row), Zeros(RowAt(C, row))), g[..row] + seq(row, i => Clean) + g[2 * row..];
    forall i | 0 <= i < |g'|
      ensures RowOver(v', v0, C, i, LineAt(t, row, i), g'[i])
    {
      ClearedGroundAt(g, row, i);
      ClearedRow(v, v0, C, row, i, LineAt(t, row, i), g[i]);
    }
  }

  lemma LayeredAppend(v0: seq<Byte>, C: nat, l: Line, c: Byte, g: Ground, j: nat)
    requires j < 2 * C && (g.Old? ==> RowIn(v0, C, g.n))
    ensures Layered(v0, C, l + [c], g, j) ==
            if 2 * |l| <= j < 2 * |l| + 2 then Cell(c)[j - 2 * |l|] else Layered(v0, C, l, g, j)
  {
    var l' := l + [c];
    assert l'[..|l|] == l && LineBytes(l') == LineBytes(l) + Cell(c);
  }

  lemma WrittenByte(v: seq<Byte>, C: nat, row: nat, k: nat, c: Byte, j: nat)
    requires RowIn(v, C, row) && k < C && j < 2 * C
    ensures var v' := Put(v, RowAt(C, row) + 2 * k, Cell(c));
            && |v'| == |v|
            && ByteAt(v', C, row, j) ==
               if 2 * k <= j < 2 * k + 2 then Cell(c)[j - 2 * k] else ByteAt(v, C, row, j)
  {
    PutAt(v, RowAt(C, row) + 2 * k, Cell(c), RowAt(C, row) + j);
  }

  /** The character lands right behind the line it is appended to. */
  lemma WrittenRow(v: seq<Byte>, v0: seq<Byte>, C: nat, row: nat, l: Line, c: Byte, g: Ground)
    requires RowOver(v, v0, C, row, l, g) && |l| < C
    ensures RowOver(Put(v, RowAt(C, row) + 2 * |l|, Cell(c)), v0, C, row, l + [c], g)
  {
    var v' := Put(v, RowAt(C, row) + 2 * |l|, Cell(c));
    forall j | 0 <= j < 2 * C
      ensures ByteAt(v', C, row, j) == Layered(v0, C, l + [c], g, j)
    {
      WrittenByte(v, C, row, |l|, c, j);
      assert ByteAt(v, C, row, j) == Layered(v0, C, l, g, j);
      LayeredAppend(v0, C, l, c, g, j);
    }
  }

  lemma OtherRow(v: seq<Byte>, C: nat, row: nat, k: nat, c: Byte, i: nat, j: nat)
    requires k < C && i != row && j < 2 * C && RowIn(v, C, row) && RowIn(v, C, i)
    ensures ByteAt(Put(v, RowAt(C, row) + 2 * k, Cell(c)), C, i, j) == ByteAt(v, C, i, j)
  {
    PutAt(v, RowAt(C, row) + 2 * k, Cell(c), RowAt(C, i) + j);
    if i < row { RowBefore(C, i, row, j); } else { RowBefore(C, row, i, 2 * k + 1); }
  }

  lemma AppendLineAt(t: seq<Line>, row: nat, c: Byte, i: nat)
    requires row < |t|
    ensures LineAt(Append(t, c), row, i) == if i == row then Current(t) + [c] else LineAt(t, row, i)
  {
  }

  lemma WriteRow(v: seq<Byte>, v0: seq<Byte>, C: nat, row: nat, k: nat, c: Byte, i: nat, l: Line, g: Ground)
    requires k < C && RowIn(v, C, row) && RowOver(v, v0, C, i, l, g) && (i == row ==> |l| == k)
    ensures RowOver(Put(v, RowAt(C, row) + 2 * k, Cell(c)), v0, C, i, if i == row then l + [c] else l, g)
  {
    if i == row {
      WrittenRow(v, v0, C, row, l, c, g);
    } else {
      var v' := Put(v, RowAt(C, row) + 2 * k, Cell(c));
      forall j | 0 <= j < 2 * C
        ensures ByteAt(v', C, i, j) == ByteAt(v, C, i, j)
      {
        OtherRow(v, C, row, k, c, i, j);
      }
      RowKept(v, v', v0, C, i, i, l, g);
    }
  }

  lemma WriteOver(v: seq<Byte>, v0: seq<Byte>, C: nat, t: seq<Line>, row: nat, g: seq<Ground>, k: nat, c: Byte)
    requires row < |t| && row < |g| && k == |Current(t)| < C && Over(v, v0, C, t, row, g)
    ensures RowAt(C, row) + 2 * k + 2 <= |v|
    ensures Over(Put(v, RowAt(C, row) + 2 * k, Cell(c)), v0, C, Append(t, c), row, g)
  {
    assert RowOver(v, v0, C, row, LineAt(t, row, row), g[row]);
    var v' := Put(v, RowAt(C, row) + 2 * k, Cell(c));
    forall i | 0 <= i < |g|
      ensures RowOver(v', v0, C, i, LineAt(Append(t, c), row, i), g[i])
    {
      AppendLineAt(t, row, c, i);
      WriteRow(v, v0, C, row, k, c, i, LineAt(t, row, i), g[i]);
    }
  }

  // --- One character, then any text ---

  /** Video memory is the lines over the ground, the cursor where the lines end. */
  ghost predicate Layers(w: View, v0: seq<Byte>, t: seq<Line>, g: seq<Ground>) {
    At(w, t) && |g| == Rows(w.R) && Over(w.v, v0, w.C, t, w.row, g)
  }

  ghost predicate LayersOnScreen(w: View, v0: seq<Byte>, t: seq<Line>, g: seq<Ground>) {
    OnScreen(w, t) && |g| == Rows(w.R) && Over(w.v, v0, w.C, t, w.row, g)
  }

  lemma NewLineLayers(w: View, v0: seq<Byte>, t: seq<Line>, g: seq<Ground>)
    requires w.row < |t| && |g| == Rows(w.R) && Over(w.v, v0, w.C, t, w.row, g) && At(w.NextRow(), t + [[]])
    ensures Layers(w.NextRow(), v0, t + [[]], g)
  {
    NewLineOver(w.v, v0, w.C, t, w.row, g);
  }

  lemma WrapLayers(w: View, v0: seq<Byte>, t: seq<Line>, g: seq<Ground>)
    requires Layers(w, v0, t, g)
    ensures Layers(w.Wrapped(), v0, Wrap(t, w.C), g)
  {
    WrapAt(w, t);
    if w.column >= w.C {
      assert w.Wrapped() == w.NextRow();
      NewLineLayers(w, v0, t, g);
    }
  }

  lemma ScrollLayers(w: View, v0: seq<Byte>, t: seq<Line>, g: seq<Ground>)
    requires Layers(w, v0, t, g)
    ensures LayersOnScreen(w.Scrolled(), v0, t, ScrollGround(g, t, w.R))
  {
    ScrollAt(w, t);
    if w.row == w.R + 1 { ScrollOver(w.v, v0, w.C, t, w.R, g); }
  }

  lemma NextRowLayers(w: View, v0: seq<Byte>, t: seq<Line>, g: seq<Ground>)
    requires LayersOnScreen(w, v0, t, g)
    ensures Layers(w.NextRow(), v0, t + [[]], g)
  {
    NewLineAt(w, t);
    NewLineLayers(w, v0, t, g);
  }

  lemma ClearLayers(w: View, v0: seq<Byte>, t: seq<Line>, g: seq<Ground>)
    requires LayersOnScreen(w, v0, t, g)
    ensures LayersOnScreen(w.Cleared(), v0, t, ClearGround(g, t, w.R))
  {
    RowAtMonotone(w.C, w.row, w.R);
    if w.column == 0 { ClearOver(w.v, v0, w.C, t, w.row, g); }
  }

  lemma WriteLayers(w: View, v0: seq<Byte>, t: seq<Line>, g: seq<Ground>, c: Byte)
    requires LayersOnScreen(w, v0, t, g) && w.column < w.C
    ensures Layers(w.Written(c), v0, Append(t, c), g)
  {
    WriteAt(w, t, c);
    WrittenOver(w, v0, t, g, c);
  }

  lemma WrittenOver(w: View, v0: seq<Byte>, t: seq<Line>, g: seq<Ground>, c: Byte)
    requires w.Ok() && w.row <= w.R && w.row < |t| && w.row < |g| && w.column == |Current(t)| < w.C
    requires Over(w.v, v0, w.C, t, w.row, g)
    ensures Over(w.Written(c).v, v0, w.C, Append(t, c), w.row, g)
  {
    WriteOver(w.v, v0, w.C, t, w.row, g, w.column, c);
  }

  lemma PutcLayers(w: View, v0: seq<Byte>, t: seq<Line>, g: seq<Ground>, c: Byte)
    requires Layers(w, v0, t, g)
    ensures Layers(w.Putc(c), v0, Feed(t, w.C, c), FeedGround(g, t, w.C, w.R, c))
  {
    var t1, w1 := Wrap(t, w.C), w.Wrapped();
    WrapLayers(w, v0, t, g);
    ScrollLayers(w1, v0, t1, g);
    var w2, g2 := w1.Scrolled(), ScrollGround(g, t1, w.R);
    if c == NEWLINE {
      NextRowLayers(w2, v0, t1, g2);
    } else {
      ClearLayers(w2, v0, t1, g2);
      WriteLayers(w2.Cleared(), v0, t1, ClearGround(g2, t1, w.R), c);
    }
  }

  lemma {:induction false} PutsLayers(w: View, v0: seq<Byte>, t: seq<Line>, g: seq<Ground>, s: seq<Byte>)
    requires Layers(w, v0, t, g)
    ensures Layers(w.Puts(s), v0, FeedAll(t, w.C, s), GroundAfter(g, t, w.C, w.R, s))
    decreases |s|
  {
    if s != [] {
      PutcLayers(w, v0, t, g, s[0]);
      PutsLayers(w.Putc(s[0]), v0, Feed(t, w.C, s[0]), FeedGround(g, t, w.C, w.R, s[0]), s[1..]);
    }
  }

  // --- From arbitrary old contents ---

  function Over0(v0: seq<Byte>, C: nat, R: nat): View { View(v0, 0, 0, C, R) }

  lemma StartLayers(v0: seq<Byte>, C: nat, R: nat)
    requires Over0(v0, C, R).Ok()
    ensures Layers(Over0(v0, C, R), v0, [[]], Untouched(R))
  {
    forall i | 0 <= i < Rows(R)
      ensures RowOver(v0, v0, C, i, [], Old(i))
    {
      TouchedRow(v0, C, R, i);
    }
  }

  /** The rows the console can touch are all of its memory. */
  lemma TouchedRow(v: seq<Byte>, C: nat, R: nat, i: nat)
    requires VideoBytes(C, R) <= |v| && i < Rows(R)
    ensures RowIn(v, C, i)
  {
    RowAtSum(C, R, R);
    RowAtMonotone(C, i + 1, if i < R + 2 then R + 2 else R + R);
  }

  /** The ground after a text from the start. */
  function GroundOf(C: nat, R: nat, s: seq<Byte>): (g: seq<Ground>)
    ensures |g| == Rows(R)
  {
    GroundAfter(Untouched(R), [[]], C, R, s)
  }

  lemma VisibleIsLineAt(t: seq<Line>, R: nat, i: nat)
    requires t != []
    ensures VisibleLine(t, R, i) == LineAt(t, CursorRow(t, R), i)
  {
  }

  /** Whatever was in memory before, after any text the cursor is where the lines end, and row
      i shows its line over its ground. */
  lemma ScreenOverOldContents(v0: seq<Byte>, C: nat, R: nat, s: seq<Byte>, i: nat)
    requires Over0(v0, C, R).Ok() && i < Rows(R)
    ensures var w, t := Over0(v0, C, R).Puts(s), FeedAll([[]], C, s);
            && At(w, t) && RowOver(w.v, v0, C, i, VisibleLine(t, R, i), GroundOf(C, R, s)[i])
  {
    StartLayers(v0, C, R);
    PutsLayers(Over0(v0, C, R), v0, [[]], Untouched(R), s);
    var w, t := Over0(v0, C, R).Puts(s), FeedAll([[]], C, s);
    VisibleIsLineAt(t, R, i);
  }

  /** Row i holds the line and blanks. */
  ghost predicate RowShows(v: seq<Byte>, C: nat, i: nat, l: Line) {
    RowIn(v, C, i) && v[RowAt(C, i)..RowAt(C, i) + 2 * C] == RowBytes(l, C)
  }

  lemma CleanShows(v: seq<Byte>, v0: seq<Byte>, C: nat, i: nat, l: Line, g: Ground)
    requires RowOver(v, v0, C, i, l, g) && |l| <= C && (g.Clean? || |l| == C)
    ensures RowShows(v, C, i, l)
  {
    forall j | 0 <= j < 2 * C
      ensures v[RowAt(C, i)..RowAt(C, i) + 2 * C][j] == RowBytes(l, C)[j]
    {
      assert ByteAt(v, C, i, j) == Layered(v0, C, l, g, j);
    }
  }

  lemma OldShines(v: seq<Byte>, v0: seq<Byte>, C: nat, i: nat, l: Line, g: Ground)
    requires RowOver(v, v0, C, i, l, g) && |l| < C && g.Old? && forall x :: 0 <= x < |v0| ==> v0[x] == 1
    ensures !RowShows(v, C, i, l)
  {
    var j := 2 * |l|;
    assert ByteAt(v, C, i, j) == Layered(v0, C, l, g, j) == 1;
    assert RowBytes(l, C)[j] == 0;
    assert v[RowAt(C, i)..RowAt(C, i) + 2 * C][j] == 1;
  }

  /** A row is sure to show its line, and nothing else, exactly when its ground is clean or the
      line fills it. */
  lemma ShowsLineExactly(n: nat, C: nat, R: nat, s: seq<Byte>, i: nat)
    requires Blank(n, C, R).Ok() && i < Rows(R)
    ensures var l := VisibleLine(FeedAll([[]], C, s), R, i);
            (forall v0: seq<Byte> :: |v0| == n ==> RowShows(Over0(v0, C, R).Puts(s).v, C, i, l)) <==>
            GroundOf(C, R, s)[i].Clean? || |l| == C
  {
    var t, g := FeedAll([[]], C, s), GroundOf(C, R, s)[i];
    var l := VisibleLine(t, R, i);
    ScreenOverOldContents(Zeros(n), C, R, s, i);
    assert |l| <= C;
    if g.Clean? || |l| == C {
      forall v0: seq<Byte> | |v0| == n
        ensures RowShows(Over0(v0, C, R).Puts(s).v, C, i, l)
      {
        ScreenOverOldContents(v0, C, R, s, i);
        CleanShows(Over0(v0, C, R).Puts(s).v, v0, C, i, l, g);
      }
    } else {
      var ones: seq<Byte> := seq(n, x => 1);
      ScreenOverOldContents(ones, C, R, s, i);
      OldShines(Over0(ones, C, R).Puts(s).v, ones, C, i, l, g);
      assert |ones| == n;
    }
  }

  // --- Which rows have a clean ground ---

  /** Line `n` with a character lies on a clean ground, but for the very first line, which lies
      on row 0 as it was. */
  predicate SettledLine(t: seq<Line>, n: nat, g: Ground)
    requires n < |t|
  {
    (n >= 1 && t[n] != [] ==> g == Clean) && (n == 0 ==> g == Old(0))
  }

  /** So do all lines from row 0 to row `row`. */
  ghost predicate Settled(t: seq<Line>, row: nat, g: seq<Ground>)
    requires row < |t|
  {
    forall i :: 0 <= i <= row && i < |g| ==> SettledLine(t, |t| - 1 - row + i, g[i])
  }

  lemma SettledNewLine(t: seq<Line>, row: nat, g: seq<Ground>)
    requires row < |t| && Settled(t, row, g)
    ensures Settled(t + [[]], row + 1, g)
  {
    var t' := t + [[]];
    forall i | 0 <= i <= row + 1 && i < |g|
      ensures SettledLine(t', |t'| - 1 - (row + 1) + i, g[i])
    {
      if i <= row { assert SettledLine(t, |t| - 1 - row + i, g[i]); }
    }
  }

  lemma SettledShift(t: seq<Line>, R: nat, g: seq<Ground>)
    requires R + 1 < |t| && |g| == Rows(R) && Settled(t, R + 1, g)
    ensures Settled(t, R, g[1..R + 2] + g[R + 1..])
  {
    var g' := g[1..R + 2] + g[R + 1..];
    forall i | 0 <= i <= R && i < |g'|
      ensures SettledLine(t, |t| - 1 - R + i, g'[i])
    {
      ScrolledGroundAt(g, R, i);
      assert SettledLine(t, |t| - 1 - (R + 1) + (i + 1), g[i + 1]);
    }
  }

  lemma SettledScroll(t: seq<Line>, R: nat, g: seq<Ground>)
    requires t != [] && |g| == Rows(R) && Settled(t, CursorRow(t, R), g)
    ensures Settled(t, Min(|t| - 1, R), ScrollGround(g, t, R))
  {
    if CursorRow(t, R) == R + 1 { SettledShift(t, R, g); }
  }

  lemma SettledWrap(t: seq<Line>, C: nat, R: nat, g: seq<Ground>)
    requires t != [] && 1 <= C && Settled(t, CursorRow(t, R), g)
    ensures Settled(Wrap(t, C), CursorRow(Wrap(t, C), R), g)
  {
    if |Current(t)| >= C {
      SettledNewLine(t, CursorRow(t, R), g);
      NewLineCursor(t, R);
    }
  }

  lemma SettledWrite(t: seq<Line>, R: nat, g: seq<Ground>, c: Byte)
    requires t != [] && 1 <= R && |g| == Rows(R) && Settled(t, Min(|t| - 1, R), g)
    ensures Settled(Append(t, c), Min(|t| - 1, R), ClearGround(g, t, R))
  {
    var row, g', t' := Min(|t| - 1, R), ClearGround(g, t, R), Append(t, c);
    forall i | 0 <= i <= row && i < |g'|
      ensures SettledLine(t', |t'| - 1 - row + i, g'[i])
    {
      assert SettledLine(t, |t| - 1 - row + i, g[i]);
      if Current(t) == [] { ClearedGroundAt(g, row, i); }
    }
  }

  lemma SettledFeed(t: seq<Line>, C: nat, R: nat, g: seq<Ground>, c: Byte)
    requires t != [] && 1 <= C && 1 <= R && |g| == Rows(R) && Settled(t, CursorRow(t, R), g)
    ensures var t' := Feed(t, C, c); Settled(t', CursorRow(t', R), FeedGround(g, t, C, R, c))
  {
    var t1 := Wrap(t, C);
    SettledWrap(t, C, R, g);
    SettledScroll(t1, R, g);
    var g1 := ScrollGround(g, t1, R);
    if c == NEWLINE {
      SettledNewLine(t1, Min(|t1| - 1, R), g1);
      NewLineCursor(t1, R);
    } else {
      SettledWrite(t1, R, g1, c);
      AppendCursor(t1, c, R);
    }
  }

  /** After any text every visible row whose line has a character, but for the first line of
      all, was cleared; the first line still lies on the old row 0 for as long as it is seen. */
  lemma {:induction false} CharactersClear(t: seq<Line>, C: nat, R: nat, g: seq<Ground>, s: seq<Byte>)
    requires t != [] && 1 <= C && 1 <= R && |g| == Rows(R) && Settled(t, CursorRow(t, R), g)
    ensures var t' := FeedAll(t, C, s); Settled(t', CursorRow(t', R), GroundAfter(g, t, C, R, s))
    decreases |s|
  {
    if s != [] {
      SettledFeed(t, C, R, g, s[0]);
      CharactersClear(Feed(t, C, s[0]), C, R, FeedGround(g, t, C, R, s[0]), s[1..]);
    }
  }

  /** Empty lines clear nothing: after newlines alone no row is clean, however much scrolled. */
  lemma {:induction false} NewlinesClearNothing(t: seq<Line>, C: nat, R: nat, g: seq<Ground>, s: seq<Byte>)
    requires t != [] && |g| == Rows(R) && (forall i :: 0 <= i < |g| ==> g[i].Old?)
    requires forall k :: 0 <= k < |s| ==> s[k] == NEWLINE
    ensures forall i :: 0 <= i < |g| ==> GroundAfter(g, t, C, R, s)[i].Old?
    decreases |s|
  {
    if s != [] {
      var g' := FeedGround(g, t, C, R, s[0]);
      assert forall i :: 0 <= i < |g'| ==> g'[i] in g;
      NewlinesClearNothing(Feed(t, C, s[0]), C, R, g', s[1..]);
    }
  }

  /** Row i shows a line with a character that is not the first line of all. */
  predicate HasCharacters(t: seq<Line>, R: nat, i: nat)
    requires t != []
  {
    i <= CursorRow(t, R) && |t| - 1 - CursorRow(t, R) + i >= 1 && VisibleLine(t, R, i) != []
  }

  lemma SettledStart(R: nat)
    ensures Settled([[]], CursorRow([[]], R), Untouched(R))
  {
  }

  lemma SettledClean(t: seq<Line>, R: nat, g: seq<Ground>, i: nat)
    requires t != [] && |g| == Rows(R) && Settled(t, CursorRow(t, R), g) && HasCharacters(t, R, i)
    ensures i < |g| && g[i] == Clean
  {
    assert SettledLine(t, |t| - 1 - CursorRow(t, R) + i, g[i]);
  }

  lemma CharactersOnClean(C: nat, R: nat, s: seq<Byte>, i: nat)
    requires 1 <= C && 1 <= R && HasCharacters(FeedAll([[]], C, s), R, i)
    ensures i < Rows(R) && GroundOf(C, R, s)[i] == Clean
  {
    SettledStart(R);
    CharactersClear([[]], C, R, Untouched(R), s);
    SettledClean(FeedAll([[]], C, s), R, GroundOf(C, R, s), i);
  }

  /** From the start: every visible line with a character, but for the first line of all, is
      shown whatever was in memory before. */
  lemma WrittenLinesShow(v0: seq<Byte>, C: nat, R: nat, s: seq<Byte>, i: nat)
    requires Over0(v0, C, R).Ok() && 1 <= R && HasCharacters(FeedAll([[]], C, s), R, i)
    ensures RowShows(Over0(v0, C, R).Puts(s).v, C, i, VisibleLine(FeedAll([[]], C, s), R, i))
  {
    CharactersOnClean(C, R, s, i);
    ScreenOverOldContents(v0, C, R, s, i);
    CleanShows(Over0(v0, C, R).Puts(s).v, v0, C, i, VisibleLine(FeedAll([[]], C, s), R, i), Clean);
  }
}
