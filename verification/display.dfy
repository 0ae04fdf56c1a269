/** The text console of trunk/kernel/display.c: the cursor/attribute state, the
    video memory it writes, and the operations Putc, Puts, SetColor, GotoXY and
    ClrScr, as pure state transformers. */
module Display {
  import opened Bytes

  const Cols: nat := 80
  const Rows: nat := 25
  /** 80 x 25 cells */
  const ScreenCells: nat := 2000

  const BS: u8 := 0x08
  const TAB: u8 := 0x09
  const LF: u8 := 0x0A
  const CR: u8 := 0x0D
  const Space: u8 := 0x20

  /** The memory behind `video_memory`, by raw cell index. Writes are not
      bounds checked in the source, so any index the cursor can name is a key. */
  type Video = map<int, u16>

  /** The driver's globals: `cursor_x`, `cursor_y`, `_color` (all `uint8_t`)
      and the video memory. */
  datatype Console = Console(x: u8, y: u8, color: u8, video: Video)

  /** The cell `c | (color << 8)`; see Bits.CellIsOr for the bitwise form. */
  function Cell(c: u8, color: u8): (cell: u16)
    ensures cell % 0x100 == c
    ensures cell / 0x100 == color
  {
    color * 0x100 + c
  }

  /** `cursor_y*80 + cursor_x` */
  function Index(x: u8, y: u8): nat
  {
    y * Cols + x
  }

  /** The content of one cell of memory, if it was ever written. */
  function At(v: Video, k: int): Option<u16>
  {
    if k in v then Some(v[k]) else None
  }

  /** `++` on a `uint8_t`. */
  function Inc8(v: u8): (r: u8)
    ensures v < 255 ==> r == v + 1
    ensures v == 255 ==> r == 0
  {
    Trunc8(v + 1)
  }

  /** `cursor_x = (cursor_x + 8) & ~(8 - 1)`, truncated to the `uint8_t`
      column (Bits.TabMaskIsRoundDown justifies the arithmetic form). */
  function TabStop(x: u8): (r: u8)
    ensures x < 248 ==> r % 8 == 0 && x < r <= x + 8
    ensures x >= 248 ==> r == 0
  {
    Trunc8((x + 8) - (x + 8) % 8)
  }

  /** The column/row after one character: the action for the byte, then the
      edge-of-row check. */
  function Putc(st: Console, c: u8): (r: Console)
    // the column is on screen after every character
    ensures r.x < Cols
    ensures r.color == st.color
    // control bytes never write; a printable byte writes exactly one cell
    ensures c < Space ==> r.video == st.video
    ensures c >= Space ==> r.video == st.video[Index(st.x, st.y) := Cell(c, st.color)]
    // printable: one column right, or the start of the next row from column 79
    // on; column 255 wraps to 0 by itself, so the row stays
    ensures c >= Space && st.x < Cols - 1 ==> r.x == st.x + 1 && r.y == st.y
    ensures c >= Space && Cols - 1 <= st.x < 255 ==> r.x == 0 && r.y == Inc8(st.y)
    ensures c >= Space && st.x == 255 ==> r.x == 0 && r.y == st.y
    // tab: the next multiple of 8, wrapping to the next row from columns 72-79;
    // from column 248 on the byte-wide stop itself truncates to 0
    ensures c == TAB && st.x < 72 ==> r.x % 8 == 0 && st.x < r.x <= st.x + 8 && r.y == st.y
    ensures c == TAB && 72 <= st.x < 248 ==> r.x == 0 && r.y == Inc8(st.y)
    ensures c == TAB && st.x >= 248 ==> r.x == 0 && r.y == st.y
    ensures c == CR ==> r.x == 0 && r.y == st.y
    ensures c == LF ==> r.x == 0 && r.y == Inc8(st.y)
    ensures c == BS && 0 < st.x <= Cols ==> r.x == st.x - 1 && r.y == st.y
    ensures c == BS && st.x > Cols ==> r.x == 0 && r.y == Inc8(st.y)
    // backspace at column 0 and the other control bytes do nothing on screen;
    // from a column past the row (only `GotoXY` can put it there) the
    // edge-of-row check still moves to the next row
    ensures c < Space && c != TAB && c != CR && c != LF && (c != BS || st.x == 0)
            ==> r == (if st.x < Cols then st else st.(x := 0, y := Inc8(st.y)))
  {
    var moved :=
      if c == BS && st.x != 0 then st.(x := st.x - 1)
      else if c == TAB then st.(x := TabStop(st.x))
      else if c == CR then st.(x := 0)
      else if c == LF then st.(x := 0, y := Inc8(st.y))
      else if c >= Space then
        st.(video := st.video[Index(st.x, st.y) := Cell(c, st.color)], x := Inc8(st.x))
      else st;
    if moved.x >= Cols then moved.(x := 0, y := Inc8(moved.y)) else moved
  }

  /** `Putc` applied to each byte in order. */
  function PutcAll(st: Console, s: seq<u8>): (r: Console)
    ensures r.color == st.color
    ensures |s| > 0 || st.x < Cols ==> r.x < Cols
    ensures (forall k | 0 <= k < |s| :: s[k] < Space) ==> r.video == st.video
    decreases |s|
  {
    if s == [] then st else PutcAll(Putc(st, s[0]), s[1..])
  }

  /** `Puts(str)`: every byte up to the terminator through `Putc`; a null
      pointer does nothing. */
  function Puts(st: Console, s: Option<seq<u8>>): (r: Console)
    ensures s.None? ==> r == st
    ensures r.color == st.color
    ensures st.x < Cols ==> r.x < Cols
  {
    match s
    case None => st
    case Some(str) => PutcAll(st, Text(str))
  }

  /** `SetColor(c)`: installs `c` (truncated to the `uint8_t` attribute) and
      returns the previous attribute. */
  function SetColor(st: Console, c: u32): (r: (u32, Console))
    ensures r.0 == st.color
    ensures r.1.color == c % 0x100
    ensures r.1.x == st.x && r.1.y == st.y && r.1.video == st.video
  {
    (st.color, st.(color := Trunc8(c)))
  }

  /** `GotoXY(x, y)`: each coordinate is assigned (truncated to `uint8_t`) only
      when the CURRENT value of that coordinate is in range. */
  function GotoXY(st: Console, x: u32, y: u32): (r: Console)
    ensures st.x <= Cols ==> r.x == x % 0x100
    ensures st.x > Cols ==> r.x == st.x
    ensures st.y <= Rows ==> r.y == y % 0x100
    ensures st.y > Rows ==> r.y == st.y
    ensures r.color == st.color && r.video == st.video
  {
    var st1 := if st.x <= Cols then st.(x := Trunc8(x)) else st;
    if st1.y <= Rows then st1.(y := Trunc8(y)) else st1
  }

  /** `ClrScr(c)`: blanks all 2000 cells with attribute `c`, leaves memory past
      the screen alone, then calls `GotoXY(0, 0)`. */
  function ClrScr(st: Console, c: u8): (r: Console)
    ensures forall k | 0 <= k < ScreenCells :: At(r.video, k) == Some(Cell(Space, c))
    ensures forall k | k < 0 || k >= ScreenCells :: At(r.video, k) == At(st.video, k)
    ensures r.color == st.color
    ensures st.x <= Cols ==> r.x == 0
    ensures st.x > Cols ==> r.x == st.x
    ensures st.y <= Rows ==> r.y == 0
    ensures st.y > Rows ==> r.y == st.y
  {
    GotoXY(st.(video := Fill(st.video, ScreenCells, Cell(Space, c))), 0, 0)
  }

  /** The clearing loop: `video_memory[i] = cell` for every `i < n`. */
  function Fill(v: Video, n: nat, cell: u16): (r: Video)
    ensures forall k | 0 <= k < n :: k in r && r[k] == cell
    ensures forall k | k < 0 || k >= n :: (k in r <==> k in v) && (k in v ==> r[k] == v[k])
  {
    if n == 0 then v else Fill(v, n - 1, cell)[n - 1 := cell]
  }

  // ---------------------------------------------------------------------------
  // Composition

  /** Rendering two texts one after the other is rendering their concatenation. */
  lemma {:induction false} PutcAllConcat(st: Console, a: seq<u8>, b: seq<u8>)
    ensures PutcAll(st, a + b) == PutcAll(PutcAll(st, a), b)
    decreases |a|
  {
    if a == [] {
      assert a + b == b;
    } else {
      assert (a + b)[0] == a[0];
      assert (a + b)[1..] == a[1..] + b;
      PutcAllConcat(Putc(st, a[0]), a[1..], b);
    }
  }

  /** `Puts` stops at the first NUL: whatever follows it is never shown. */
  lemma PutsStopsAtNul(st: Console, a: seq<u8>, b: seq<u8>)
    requires NoNul(a)
    ensures Puts(st, Some(a + [0] + b)) == PutcAll(st, a)
  {
    var s := a + [0] + b;
    StrLenAt(s, |a|);
    assert s[..|a|] == a;
  }

  lemma StrLenAt(s: seq<u8>, n: nat)
    requires n < |s| && s[n] == 0
    requires forall k | 0 <= k < n :: s[k] != 0
    ensures StrLen(s) == n
    ensures Text(s) == s[..n]
  {
  }

  /** The cells a run of printable bytes writes from index `i` on, in order. */
  function WriteRun(v: Video, i: int, s: seq<u8>, color: u8): Video
    decreases |s|
  {
    if s == [] then v else WriteRun(v[i := Cell(s[0], color)], i + 1, s[1..], color)
  }

  /** `WriteRun` puts `s[k]` at index `i + k` and leaves every other index as
      it was. */
  lemma {:induction false} WriteRunCells(v: Video, i: int, s: seq<u8>, color: u8)
    ensures forall k | 0 <= k < |s| :: At(WriteRun(v, i, s, color), i + k) == Some(Cell(s[k], color))
    ensures forall j | j < i || j >= i + |s| :: At(WriteRun(v, i, s, color), j) == At(v, j)
    decreases |s|
  {
    if s != [] {
      var v1 := v[i := Cell(s[0], color)];
      var rest := s[1..];
      var w := WriteRun(v1, i + 1, rest, color);
      assert WriteRun(v, i, s, color) == w;
      WriteRunCells(v1, i + 1, rest, color);
      forall k | 0 <= k < |s|
        ensures At(w, i + k) == Some(Cell(s[k], color))
      {
        if k > 0 {
          assert rest[k - 1] == s[k] && i + k == (i + 1) + (k - 1);
        }
      }
    }
  }

  /** A run of printable bytes that stays inside the row moves the cursor right
      by its length, keeps it on the row and writes the run's cells from the
      cursor on. */
  lemma {:induction false} PrintableRunWrites(st: Console, s: seq<u8>)
    requires forall k | 0 <= k < |s| :: s[k] >= Space
    requires st.x + |s| < Cols
    ensures PutcAll(st, s)
            == st.(x := st.x + |s|, video := WriteRun(st.video, Index(st.x, st.y), s, st.color))
    decreases |s|
  {
    if s != [] {
      var i0 := Index(st.x, st.y);
      var st1 := st.(x := st.x + 1, video := st.video[i0 := Cell(s[0], st.color)]);
      var rest := s[1..];
      assert PutcAll(st, s) == PutcAll(st1, rest) by {
        PrintableStep(st, s[0]);
      }
      assert Index(st1.x, st1.y) == i0 + 1;
      assert PutcAll(st1, rest)
             == st1.(x := st1.x + |rest|, video := WriteRun(st1.video, i0 + 1, rest, st.color)) by {
        forall k | 0 <= k < |rest| ensures rest[k] >= Space {
          assert rest[k] == s[k + 1];
        }
        PrintableRunWrites(st1, rest);
      }
    }
  }

  /** One printable byte before the last column: the cell at the cursor and the
      next column. */
  lemma PrintableStep(st: Console, c: u8)
    requires c >= Space && st.x < Cols - 1
    ensures Putc(st, c)
            == st.(x := st.x + 1, video := st.video[Index(st.x, st.y) := Cell(c, st.color)])
  {
  }

  /** A printable byte at column 79 followed by another leaves the cursor at
      column 1 of the next row, the second byte at the start of that row. */
  lemma PrintableWrap(st: Console, a: u8, b: u8)
    requires st.x == Cols - 1
    requires a >= Space && b >= Space
    ensures PutcAll(st, [a, b]).x == 1
    ensures PutcAll(st, [a, b]).y == Inc8(st.y)
    ensures At(PutcAll(st, [a, b]).video, Index(0, Inc8(st.y))) == Some(Cell(b, st.color))
  {
    var st1 := Putc(st, a);
    assert [a, b][1..] == [b];
    assert [b][1..] == [];
    assert PutcAll(st, [a, b]) == PutcAll(st1, [b]);
    assert PutcAll(st1, [b]) == Putc(st1, b);
  }

  // ---------------------------------------------------------------------------
  // Screen control

  /** Repeating a move changes nothing more. */
  lemma GotoXYIdempotent(st: Console, x: u32, y: u32)
    ensures GotoXY(GotoXY(st, x, y), x, y) == GotoXY(st, x, y)
  {
  }

  /** Restoring the attribute `SetColor` returned gives back the original state. */
  lemma SetColorRestore(st: Console, c: u32)
    ensures SetColor(SetColor(st, c).1, SetColor(st, c).0).1 == st
  {
  }

  /** Once the row has run past 25 (there is no scrolling), neither `ClrScr`
      nor `GotoXY` can bring it back: every later row stays where it is. */
  lemma ClrScrKeepsRunawayRow(st: Console, c: u8, x: u32, y: u32)
    requires st.y > Rows
    ensures ClrScr(st, c).y == st.y
    ensures GotoXY(ClrScr(st, c), x, y).y == st.y
  {
  }

  /** From a cursor on screen: clear, move to (5, 5), clear again — the cursor
      is home and every screen cell is blank. */
  lemma ClearMoveClear(st: Console, c: u8)
    requires st.x <= Cols && st.y <= Rows
    ensures GotoXY(ClrScr(st, c), 5, 5).x == 5 && GotoXY(ClrScr(st, c), 5, 5).y == 5
    ensures ClrScr(GotoXY(ClrScr(st, c), 5, 5), c).x == 0
    ensures ClrScr(GotoXY(ClrScr(st, c), 5, 5), c).y == 0
  {
  }
}
