/** The text screen of drivers/vga/vga.c on values: video memory and the byte offset of the next cell. */
module Screen {
  import opened CTypes

  const COLS := 80
  const SCREEN_SIZE := 4000   // 80 columns, 25 rows, 2 bytes a cell
  const APERTURE := 0x8000    // 0xb8000 to 0xbffff
  const PAGE := 2000          // cells on the screen

  const NUL: uint8 := 0
  const TAB: uint8 := 9
  const NEWLINE: uint8 := 10
  const SPACE: uint8 := 32
  const ATTR_BLANK: uint8 := 0x00
  const ATTR_TEXT: uint8 := 0x07

  datatype View = View(memory: seq<uint8>, ptr: int) {
    ghost predicate Valid() {
      |memory| == APERTURE && ptr >= 0
    }
  }

  /** The start of the row after the one `ptr` is in. */
  function NextLine(ptr: int): (r: int)
    ensures r % (2 * COLS) == 0 && ptr < r <= ptr + 2 * COLS
  {
    2 * ((ptr / (2 * COLS) + 1) * COLS)
  }

  /** Both branches of __kstd_vga_tab. */
  function TabStop(ptr: int): int {
    var offset := COLS * 2 - ptr % COLS;
    if offset < 4 then NextLine(ptr) + (4 - offset) else ptr + 4
  }

  /** The branch of __kstd_vga_tab that starts a new line is never taken: the distance it measures
      against is two rows' worth of columns. */
  lemma TabNeverWraps(ptr: int)
    ensures TabStop(ptr) == ptr + 4
  {}

  function Blank(j: int): uint8 {
    if j % 2 == 0 then SPACE else ATTR_BLANK
  }

  /** `v` with the screen's cells blanked and the pointer home. */
  function Cleared(v: View): View {
    View(seq(|v.memory|, j requires 0 <= j < |v.memory| => if j < SCREEN_SIZE then Blank(j) else v.memory[j]), 0)
  }

  function Cell(v: View, c: uint8, attr: uint8): View
    requires v.Valid() && v.ptr < SCREEN_SIZE
  {
    View(v.memory[v.ptr := c][v.ptr + 1 := attr], v.ptr + 2)
  }

  /** __kstd_vga_putchar: a full page is cleared by the next character that is not a NUL. */
  function Put(v: View, c: uint8, attr: uint8): (w: View)
    requires v.Valid()
    ensures w.Valid()
  {
    if c == NUL then v
    else
      var p := if v.ptr >= SCREEN_SIZE then Cleared(v) else v;
      if c == NEWLINE then p.(ptr := NextLine(p.ptr))
      else if c == TAB then p.(ptr := TabStop(p.ptr))
      else Cell(p, c, attr)
  }

  function PutAll(v: View, s: seq<uint8>, attr: uint8): (w: View)
    requires v.Valid()
    ensures w.Valid()
  {
    if s == [] then v else Put(PutAll(v, s[..|s| - 1], attr), s[|s| - 1], attr)
  }

  lemma {:induction false} PutAllThen(v: View, s: seq<uint8>, t: seq<uint8>, attr: uint8)
    requires v.Valid()
    ensures PutAll(v, s + t, attr) == PutAll(PutAll(v, s, attr), t, attr)
  {
    if t == [] {
      assert s + t == s;
    } else {
      assert (s + t)[..|s + t| - 1] == s + t[..|t| - 1];
      PutAllThen(v, s, t[..|t| - 1], attr);
    }
  }

  /** The screen's cells are blank and the memory behind them is as in `was`. */
  ghost predicate Wiped(was: seq<uint8>, now: seq<uint8>) {
    && |now| == |was|
    && forall j :: 0 <= j < |now| ==> now[j] == if j >= 4000 then was[j] else if j % 2 == 0 then 32 else 0
  }

  /** What the characters that are not printed do. On a page with room '\n' (10) moves to the start of
      the next row and '\t' (9) four bytes on; on a full page both blank it first. A NUL does nothing. */
  lemma ControlExact(v: View, attr: uint8)
    requires v.Valid()
    ensures Put(v, 0, attr) == v
    ensures var w := Put(v, 10, attr);
            if v.ptr < 4000 then w.memory == v.memory && w.ptr % 160 == 0 && v.ptr < w.ptr <= v.ptr + 160
            else Wiped(v.memory, w.memory) && w.ptr == 160
    ensures var w := Put(v, 9, attr);
            if v.ptr < 4000 then w.memory == v.memory && w.ptr == v.ptr + 4
            else Wiped(v.memory, w.memory) && w.ptr == 4
  {}

  /** What every other character does: it and its attribute go to the cell at the pointer, on a full page
      to the first cell of a blank one, and nothing else changes. */
  lemma PrintedExact(v: View, c: uint8, attr: uint8)
    requires v.Valid() && c != 0 && c != 9 && c != 10
    ensures var (w, at) := (Put(v, c, attr), if v.ptr < 4000 then v.ptr else 0);
            && w.ptr == at + 2 && w.memory[at] == c && w.memory[at + 1] == attr
            && if v.ptr < 4000 then w.memory == v.memory[at := c][at + 1 := attr]
               else exists blank: seq<uint8> :: Wiped(v.memory, blank) && w.memory == blank[at := c][at + 1 := attr]
  {
    if v.ptr >= 4000 {
      assert Wiped(v.memory, Cleared(v).memory);
    }
  }

  function Backspaced(v: View): View
    requires v.Valid() && 2 <= v.ptr <= APERTURE
  {
    View(v.memory[v.ptr - 2 := SPACE][v.ptr - 1 := ATTR_BLANK], v.ptr - 2)
  }

  // ---- the paged screen shows the text ------------------------------------------------------------

  predicate Printable(s: seq<uint8>) {
    forall i :: 0 <= i < |s| ==> s[i] != NUL && s[i] != NEWLINE && s[i] != TAB
  }

  /** How many of `n` characters written from a cleared screen are still on it. */
  function OnPage(n: nat): (m: nat)
    ensures m <= n
  {
    if n == 0 then 0 else (n - 1) % PAGE + 1
  }

  /** The screen shows exactly the last `m` characters of `s`, from the top, and blanks. */
  ghost predicate ShowsLast(v: View, s: seq<uint8>, m: nat, attr: uint8)
    requires m <= |s|
  {
    && v.Valid() && v.ptr == 2 * m <= SCREEN_SIZE
    && (forall i :: 0 <= i < m ==> v.memory[2 * i] == s[|s| - m + i] && v.memory[2 * i + 1] == attr)
    && (forall j :: 2 * m <= j < SCREEN_SIZE ==> v.memory[j] == Blank(j))
  }

  ghost predicate Shows(v: View, s: seq<uint8>, attr: uint8) {
    ShowsLast(v, s, OnPage(|s|), attr)
  }

  lemma CellShows(v: View, s: seq<uint8>, m: nat, c: uint8, attr: uint8)
    requires m <= |s| && ShowsLast(v, s, m, attr) && v.ptr < SCREEN_SIZE
    ensures ShowsLast(Cell(v, c, attr), s + [c], m + 1, attr)
  {}

  lemma ClearedShows(v: View, s: seq<uint8>, attr: uint8)
    requires v.Valid()
    ensures ShowsLast(Cleared(v), s, 0, attr)
  {}

  lemma OnPageNext(n: nat)
    ensures OnPage(n + 1) == if OnPage(n) == PAGE then 1 else OnPage(n) + 1
  {}

  /** One more character, on a page with room or on a fresh one. */
  lemma ShowsStep(v: View, s: seq<uint8>, c: uint8, attr: uint8)
    requires Shows(v, s, attr) && Printable([c])
    ensures Shows(Put(v, c, attr), s + [c], attr)
  {
    assert [c][0] == c;
    var m := OnPage(|s|);
    OnPageNext(|s|);
    assert v.ptr == 2 * m && m <= PAGE;
    hide Cell, Cleared, Blank, OnPage, ShowsLast;
    if m == PAGE {
      ClearedShows(v, s, attr);
      CellShows(Cleared(v), s, 0, c, attr);
    } else {
      CellShows(v, s, m, c, attr);
    }
  }

  /** Writing printable characters from a cleared screen: pages of 2000 cells, the last one shown. */
  lemma {:induction false} PagedText(v: View, s: seq<uint8>, attr: uint8)
    requires v.Valid() && Printable(s)
    ensures Shows(PutAll(Cleared(v), s, attr), s, attr)
  {
    if s != [] {
      var n := |s| - 1;
      assert s == s[..n] + [s[n]];
      PagedText(v, s[..n], attr);
      ShowsStep(PutAll(Cleared(v), s[..n], attr), s[..n], s[n], attr);
    }
  }

  // ---- rows ---------------------------------------------------------------------------------------

  /** Lines short enough for a row each. */
  predicate Rows(lines: seq<seq<uint8>>) {
    |lines| <= 25 && forall k :: 0 <= k < |lines| ==> |lines[k]| < 80 && Printable(lines[k])
  }

  /** The lines, each with its new line. */
  function Written(lines: seq<seq<uint8>>): seq<uint8> {
    if lines == [] then [] else Written(lines[..|lines| - 1]) + lines[|lines| - 1] + [10]
  }

  /** Byte `j` of a row that shows a line. */
  function RowByte(line: seq<uint8>, j: nat, attr: uint8): uint8 {
    if j < 2 * |line| then (if j % 2 == 0 then line[j / 2] else attr)
    else if j % 2 == 0 then 32 else 0
  }

  /** Row `k` shows line `k`, the rows below are blank, and the pointer is at the start of the first of
      them. */
  ghost predicate ShowsRows(v: View, lines: seq<seq<uint8>>, attr: uint8) {
    && v.Valid() && v.ptr == 160 * |lines| <= 4000
    && (forall k, j :: 0 <= k < |lines| && 0 <= j < 160 ==> v.memory[160 * k + j] == RowByte(lines[k], j, attr))
    && (forall j :: v.ptr <= j < 4000 ==> v.memory[j] == if j % 2 == 0 then 32 else 0)
  }

  /** The screen `v` with a short line printed from the start of the row at its pointer. */
  ghost predicate LinePut(v: View, w: View, line: seq<uint8>, attr: uint8) {
    && w.Valid() && v.Valid() && w.ptr == v.ptr + 2 * |line| <= 4000
    && (forall j :: 0 <= j < APERTURE && !(v.ptr <= j < w.ptr) ==> w.memory[j] == v.memory[j])
    && (forall j :: v.ptr <= j < w.ptr ==> w.memory[j] == if (j - v.ptr) % 2 == 0 then line[(j - v.ptr) / 2] else attr)
  }

  lemma {:induction false} PrintsLine(v: View, line: seq<uint8>, attr: uint8)
    requires v.Valid() && Printable(line) && v.ptr + 2 * |line| <= 4000
    ensures LinePut(v, PutAll(v, line, attr), line, attr)
  {
    if line != [] {
      var n := |line| - 1;
      PrintsLine(v, line[..n], attr);
      PrintedExact(PutAll(v, line[..n], attr), line[n], attr);
    }
  }

  /** Text of several lines, on a blank page it fits: row k shows line k. */
  lemma {:induction false} LinesShow(v: View, lines: seq<seq<uint8>>, attr: uint8)
    requires v.Valid() && Rows(lines)
    ensures ShowsRows(PutAll(Cleared(v), Written(lines), attr), lines, attr)
  {
    if lines != [] {
      var n := |lines| - 1;
      var (front, line) := (lines[..n], lines[n]);
      var w := PutAll(Cleared(v), Written(front), attr);
      LinesShow(v, front, attr);
      PutAllThen(Cleared(v), Written(front), line, attr);
      PutAllThen(Cleared(v), Written(front) + line, [10], attr);
      PrintsLine(w, line, attr);
      var x := PutAll(w, line, attr);
      PutOne(x, 10, attr);
      ControlExact(x, attr);
      RowShown(w, x, Put(x, 10, attr), front, line, attr);
      assert front + [line] == lines;
    }
  }

  lemma PutOne(v: View, c: uint8, attr: uint8)
    requires v.Valid()
    ensures PutAll(v, [c], attr) == Put(v, c, attr)
  {
    assert [c][..0] == [];
  }

  lemma RowShown(v: View, w: View, x: View, lines: seq<seq<uint8>>, line: seq<uint8>, attr: uint8)
    requires ShowsRows(v, lines, attr) && LinePut(v, w, line, attr) && |lines| < 25 && |line| < 80
    requires x.memory == w.memory && x.ptr % 160 == 0 && w.ptr < x.ptr <= w.ptr + 160
    ensures ShowsRows(x, lines + [line], attr)
  {
    assert x.ptr == v.ptr + 160;
    forall k, j | 0 <= k < |lines| + 1 && 0 <= j < 160
      ensures x.memory[160 * k + j] == RowByte((lines + [line])[k], j, attr)
    {
      if k < |lines| {
        assert 160 * k + j < v.ptr;
      }
    }
  }
}
