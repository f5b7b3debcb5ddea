/** The HDMI text console as a function of the bytes it is fed: a grid of 67 rows of 240
    cells, a cursor, a pen, and the state of the escape-sequence parser.  The line operations
    are those of ECMA-48, sections 8.3.26 (DCH), 8.3.39 (ED), 8.3.41 (EL) and 8.3.64
    (ICH). */
module Screen {
  import opened Words

  const ROWS := 67
  const COLS := 240
  const CELLS := 16080

  datatype Escape = Plain | Esc | Csi

  datatype Term = Term(
    text: seq<u8>, attr: seq<u8>, row: u32, col: u32, pen: u8,
    esc: Escape, params: seq<u32>, count: nat, value: u32, have: bool)
  {
    /** The cursor is on the grid and every attribute is a colour index. */
    predicate Valid() {
      && |text| == CELLS && |attr| == CELLS && row < ROWS && col < COLS && pen < 16
      && |params| == 4 && count <= 4
      && forall i :: 0 <= i < CELLS ==> attr[i] < 16
    }

    predicate Shaped() { |text| == CELLS && |attr| == CELLS && |params| == 4 }
  }

  function Cell(row: int, col: int): int { row * COLS + col }

  // ---------------------------------------------------------------- cell functions

  function Filled(t: seq<u8>, lo: int, hi: int, v: u8): (r: seq<u8>)
    ensures |r| == |t|
    ensures forall i :: 0 <= i < |t| ==> r[i] == if lo <= i < hi then v else t[i]
  {
    seq<u8>(|t|, i requires 0 <= i < |t| => if lo <= i < hi then v else t[i])
  }

  /** Row `row` from `col` on moved right by n, with n cells of v put in: ICH. */
  function Inserted(t: seq<u8>, row: nat, col: nat, n: nat, v: u8): (r: seq<u8>)
    requires |t| == CELLS && row < ROWS && col + n <= COLS
    ensures |r| == |t|
    ensures forall i :: 0 <= i < CELLS ==>
              r[i] == if i < row * COLS + col || row * COLS + COLS <= i then t[i]
                      else if i < row * COLS + col + n then v
                      else t[i - n]
  {
    seq<u8>(CELLS, i requires 0 <= i < CELLS =>
      if i < row * COLS + col || row * COLS + COLS <= i then t[i]
      else if i < row * COLS + col + n then v
      else t[i - n])
  }

  /** Row `row` from `col` on moved left by n, with n cells of v at its end: DCH. */
  function Deleted(t: seq<u8>, row: nat, col: nat, n: nat, v: u8): (r: seq<u8>)
    requires |t| == CELLS && row < ROWS && col + n <= COLS
    ensures |r| == |t|
    ensures forall i :: 0 <= i < CELLS ==>
              r[i] == if i < row * COLS + col || row * COLS + COLS <= i then t[i]
                      else if i < row * COLS + COLS - n then t[i + n]
                      else v
  {
    seq<u8>(CELLS, i requires 0 <= i < CELLS =>
      if i < row * COLS + col || row * COLS + COLS <= i then t[i]
      else if i < row * COLS + COLS - n then t[i + n]
      else v)
  }

  /** Every row moved up by one, with v in the last. */
  function Scrolled(t: seq<u8>, v: u8): (r: seq<u8>)
    requires |t| == CELLS
    ensures |r| == |t|
    ensures forall i :: 0 <= i < CELLS ==> r[i] == if i < CELLS - COLS then t[i + COLS] else v
  {
    seq<u8>(CELLS, i requires 0 <= i < CELLS => if i < CELLS - COLS then t[i + COLS] else v)
  }

  // ---------------------------------------------------------------- rows

  /** The 240 cells of a row. */
  function Row(t: seq<u8>, r: nat): seq<u8>
    requires |t| == CELLS && r < ROWS
  {
    t[r * COLS..r * COLS + COLS]
  }

  function Run(n: nat, v: u8): seq<u8> { seq<u8>(n, _ => v) }

  /** ICH on rows: what stands before the cursor, n cells of v, and what stood from the
      cursor on but for the last n cells.  Every other row is as it was. */
  lemma InsertedRows(t: seq<u8>, row: nat, col: nat, n: nat, v: u8, r: nat)
    requires |t| == CELLS && row < ROWS && r < ROWS && col + n <= COLS
    ensures Row(Inserted(t, row, col, n, v), r) ==
              if r == row then Row(t, row)[..col] + Run(n, v) + Row(t, row)[col..COLS - n] else Row(t, r)
  {
    OtherRow(row, r);
    if r == row {
      var was := Row(t, row);
      var z, put := Row(Inserted(t, row, col, n, v), r), was[..col] + Run(n, v) + was[col..COLS - n];
      forall k | 0 <= k < COLS ensures z[k] == put[k] {
        assert z[k] == Inserted(t, row, col, n, v)[row * COLS + k];
        assert col + n <= k ==> was[k - n] == t[row * COLS + (k - n)] && put[k] == was[k - n];
      }
    }
  }

  /** DCH on rows: the n cells at the cursor drop out and n cells of v come in at the end. */
  lemma DeletedRows(t: seq<u8>, row: nat, col: nat, n: nat, v: u8, r: nat)
    requires |t| == CELLS && row < ROWS && r < ROWS && col + n <= COLS
    ensures Row(Deleted(t, row, col, n, v), r) ==
              if r == row then Row(t, row)[..col] + Row(t, row)[col + n..] + Run(n, v) else Row(t, r)
  {
    OtherRow(row, r);
  }

  /** Scrolling drops the first row and adds a blank one. */
  lemma ScrolledRows(t: seq<u8>, v: u8, r: nat)
    requires |t| == CELLS && r < ROWS
    ensures Row(Scrolled(t, v), r) == if r < ROWS - 1 then Row(t, r + 1) else Run(COLS, v)
  {
  }

  /** EL and ED on rows: a stretch of one row, and whole rows. */
  lemma FilledRows(t: seq<u8>, row: nat, from: nat, to: nat, v: u8, r: nat)
    requires |t| == CELLS && row < ROWS && r < ROWS && from <= to <= COLS
    ensures Row(Filled(t, row * COLS + from, row * COLS + to, v), r) ==
              if r == row then Row(t, row)[..from] + Run(to - from, v) + Row(t, row)[to..] else Row(t, r)
    ensures r != row ==> Row(Filled(t, row * COLS + from, CELLS, v), r) == if r < row then Row(t, r) else Run(COLS, v)
    ensures r != row ==> Row(Filled(t, 0, row * COLS + to, v), r) == if r < row then Run(COLS, v) else Row(t, r)
  {
    OtherRow(row, r);
  }

  lemma OtherRow(row: nat, r: nat)
    ensures r < row ==> r * COLS + COLS <= row * COLS
    ensures row < r ==> row * COLS + COLS <= r * COLS
  {
  }

  /** Inserting n cells and deleting n cells at the same place restores the row but
      for its last n cells, which come back blank, and leaves every other row alone. */
  lemma InsertThenDelete(t: seq<u8>, row: nat, col: nat, n: nat, v: u8)
    requires |t| == CELLS && row < ROWS && col + n <= COLS
    ensures Deleted(Inserted(t, row, col, n, v), row, col, n, v) ==
              Filled(t, row * COLS + Max(col, COLS - n), row * COLS + COLS, v)
  {
    var z := Deleted(Inserted(t, row, col, n, v), row, col, n, v);
    var f := Filled(t, row * COLS + Max(col, COLS - n), row * COLS + COLS, v);
    forall i | 0 <= i < CELLS ensures z[i] == f[i] {
    }
  }

  /** Deleting first loses the n cells at the cursor instead. */
  lemma DeleteThenInsert(t: seq<u8>, row: nat, col: nat, n: nat, v: u8)
    requires |t| == CELLS && row < ROWS && col + n <= COLS
    ensures Inserted(Deleted(t, row, col, n, v), row, col, n, v) ==
              Filled(t, row * COLS + col, row * COLS + col + n, v)
  {
    var at := row * COLS + col;
    var d := Deleted(t, row, col, n, v);
    var z, f := Inserted(d, row, col, n, v), Filled(t, at, at + n, v);
    forall i | 0 <= i < CELLS ensures z[i] == f[i] {
      if at + n <= i < row * COLS + COLS {
        assert z[i] == d[i - n] == t[i - n + n];
      }
    }
  }

  // ---------------------------------------------------------------- operations

  function ClearAll(t: Term): Term {
    t.(text := seq<u8>(CELLS, _ => 32), attr := seq<u8>(CELLS, _ => 7), row := 0, col := 0, pen := 7, esc := Plain)
  }

  function ClearRange(t: Term, lo: int, hi: int): Term {
    t.(text := Filled(t.text, lo, hi, 32), attr := Filled(t.attr, lo, hi, t.pen))
  }

  function Newline(t: Term): Term
    requires t.Shaped()
  {
    if t.row + 1 >= ROWS then
      t.(text := Scrolled(t.text, 32), attr := Scrolled(t.attr, t.pen), row := ROWS - 1, col := 0)
    else t.(row := t.row + 1, col := 0)
  }

  function PutCell(t: Term, ch: u8): Term
    requires t.Shaped() && t.row < ROWS && t.col < COLS
  {
    t.(text := t.text[Cell(t.row, t.col) := ch], attr := t.attr[Cell(t.row, t.col) := t.pen])
  }

  /** A cell count of a request, at least one and at most the rest of the row. */
  function Clamp(t: Term, n: u32): nat
    requires t.col < COLS
  {
    Min(if n == 0 then 1 else n, COLS - t.col)
  }

  /** Off the grid, the three row operations do nothing. */
  function Insert(t: Term, n: u32): Term
    requires t.Shaped()
  {
    if t.row >= ROWS || t.col >= COLS then t
    else t.(text := Inserted(t.text, t.row, t.col, Clamp(t, n), 32),
            attr := Inserted(t.attr, t.row, t.col, Clamp(t, n), t.pen))
  }

  function Delete(t: Term, n: u32): Term
    requires t.Shaped()
  {
    if t.row >= ROWS || t.col >= COLS then t
    else t.(text := Deleted(t.text, t.row, t.col, Clamp(t, n), 32),
            attr := Deleted(t.attr, t.row, t.col, Clamp(t, n), t.pen))
  }

  /** `col + count` is a 32-bit sum: a count that wraps it erases nothing. */
  function Erase(t: Term, n: u32): Term
    requires t.Shaped()
  {
    if t.row >= ROWS || t.col >= COLS then t
    else
      var end := Min(W(t.col + if n == 0 then 1 else n), COLS);
      ClearRange(t, Cell(t.row, t.col), Cell(t.row, end))
  }

  function SetCursor(t: Term, row: u32, col: u32): Term {
    t.(row := if row >= ROWS then ROWS - 1 else row, col := if col >= COLS then 239 else col)
  }

  function ParamOr(t: Term, i: nat, default: u32): u32
    requires |t.params| == 4 && t.count <= 4
  {
    if i >= t.count || t.params[i] == 0 then default else t.params[i]
  }

  function PushParam(t: Term): Term
    requires |t.params| == 4
  {
    var u := if t.count < 4 then t.(params := t.params[t.count := if t.have then t.value else 0], count := t.count + 1) else t;
    u.(value := 0, have := false)
  }

  function SgrColor(p: u32): int {
    if 30 <= p <= 37 then p - 30 else if 90 <= p <= 97 then 8 + p - 90 else -1
  }

  /** The pen and the bold flag after one SGR parameter. */
  function SgrStep(pen: u8, bright: bool, p: u32): (u8, bool) {
    if p == 0 then (7, false)
    else if p == 1 then (pen % 8 + 8, true)
    else if p == 22 then (With(pen, 8, false) % 0x100, false)
    else if p == 39 then (7, bright)
    else
      var color := SgrColor(p);
      if color < 0 then (pen, bright)
      else (if bright && color < 8 then color + 8 else color, bright)
  }

  function SgrAfter(t: Term, i: nat): (u8, bool)
    requires |t.params| == 4 && i <= t.count <= 4
  {
    if i == 0 then (t.pen, false)
    else
      var s := SgrAfter(t, i - 1);
      SgrStep(s.0, s.1, t.params[i - 1])
  }

  function Sgr(t: Term): Term
    requires |t.params| == 4 && t.count <= 4
  {
    if t.count == 0 then t.(pen := 7) else t.(pen := SgrAfter(t, t.count).0)
  }

  /** The action of a control sequence's final byte. */
  function Apply(t: Term, ch: u32): Term
    requires t.Valid()
  {
    var p0 := if t.count > 0 then t.params[0] else 0;
    var n := ParamOr(t, 0, 1);
    var here := Cell(t.row, t.col);
    if ch == 0x40 then Insert(t, n)
    else if ch == 0x4A then
      if p0 == 2 || p0 == 3 then ClearAll(t)
      else if p0 == 1 then ClearRange(t, 0, here + 1)
      else ClearRange(t, here, CELLS)
    else if ch == 0x4B then
      if p0 == 2 then ClearRange(t, Cell(t.row, 0), Cell(t.row, 0) + COLS)
      else if p0 == 1 then ClearRange(t, Cell(t.row, 0), here + 1)
      else ClearRange(t, here, Cell(t.row, 239) + 1)
    else if ch == 0x58 then Erase(t, n)
    else if ch == 0x50 then Delete(t, n)
    else if ch == 0x48 || ch == 0x66 then SetCursor(t, n - 1, ParamOr(t, 1, 1) - 1)
    else if ch == 0x47 then SetCursor(t, t.row, n - 1)
    else if ch == 0x41 then t.(row := if n > t.row then 0 else t.row - n)
    else if ch == 0x42 then SetCursor(t, W(t.row + n), t.col)
    else if ch == 0x45 then SetCursor(t, W(t.row + n), 0)
    else if ch == 0x46 then SetCursor(t, if n > t.row then 0 else t.row - n, 0)
    else if ch == 0x43 then SetCursor(t, t.row, W(t.col + n))
    else if ch == 0x44 then t.(col := if n > t.col then 0 else t.col - n)
    else if ch == 0x64 then SetCursor(t, n - 1, t.col)
    else if ch == 0x6D then Sgr(t)
    else t
  }

  /** A byte inside an escape sequence. */
  function Sequence(t: Term, ch: u32): Term
    requires t.Valid() && t.esc != Plain
  {
    if t.esc == Esc then
      if ch == 0x5B then t.(params := [0, 0, 0, 0], count := 0, value := 0, have := false, esc := Csi)
      else if ch == 0x1B then t
      else t.(esc := Plain)
    else if 0x30 <= ch <= 0x39 then t.(value := W(t.value * 10 + (ch - 0x30)), have := true)
    else if ch == 0x3B then PushParam(t)
    else if ch == 0x3F || ch == 0x20 || ch == 0x3D then t
    else if 0x40 <= ch <= 0x7E then
      var u := if t.have || t.count == 0 then PushParam(t) else t;
      Apply(u, ch).(esc := Plain)
    else t.(esc := Plain)
  }

  /** A printed byte: stored, then the cursor moves on, wrapping and scrolling. */
  function Print(t: Term, ch: u32): Term
    requires t.Valid()
  {
    var u := PutCell(t, if ch < 32 || ch > 126 then 46 else ch);
    if u.col + 1 >= COLS then Newline(u.(col := u.col + 1)) else u.(col := u.col + 1)
  }

  /** `hdmi_console_putc1` for one byte. */
  function Feed(t: Term, ch: u32): Term
    requires t.Valid()
  {
    if t.esc != Plain then Sequence(t, ch)
    else if ch == 0x1B then t.(esc := Esc)
    else if ch == 13 then t.(col := 0)
    else if ch == 10 then Newline(t)
    else if ch == 9 then Tab(t)
    else if ch == 8 || ch == 127 then
      if t.col > 0 then PutCell(t.(col := t.col - 1), 32) else t
    else Print(t, ch)
  }

  lemma PrintKeeps(t: Term, ch: u32)
    requires t.Valid()
    ensures Print(t, ch).Valid()
    ensures Print(t, ch).col == (t.col + 1) % COLS && Print(t, ch).esc == t.esc
    ensures Print(t, ch).row == if t.col == 239 && t.row < ROWS - 1 then t.row + 1 else t.row
  {
  }

  /** Blanks up to the next multiple of eight columns. */
  function Tab(t: Term): Term
    requires t.Valid()
    decreases 8 - t.col % 8
  {
    PrintKeeps(t, 32);
    var u := Print(t, 32);
    TabCloser(t.col);
    if u.col % 8 != 0 then Tab(u) else u
  }

  lemma TabCloser(c: u32)
    requires c < COLS
    ensures (c + 1) % COLS % 8 == (c + 1) % 8
    ensures (c + 1) % 8 != 0 ==> (c + 1) % 8 == c % 8 + 1
  {
  }

  lemma NextStop(c: u32)
    requires c < COLS
    ensures (c + 1) % 8 != 0 ==> (c + 1) % COLS == c + 1 && (c + 1) / 8 == c / 8
    ensures (c + 1) % 8 == 0 ==> (c + 1) % COLS == (c / 8 + 1) * 8 % COLS
  {
  }

  /** A tab ends at the next tab stop, or at the start of the next row. */
  lemma {:induction false} TabStops(t: Term)
    requires t.Valid()
    ensures Tab(t).Valid() && Tab(t).esc == t.esc
    ensures Tab(t).col == (t.col / 8 + 1) * 8 % COLS
    decreases 8 - t.col % 8
  {
    hide Print;
    PrintKeeps(t, 32);
    TabCloser(t.col);
    NextStop(t.col);
    var u := Print(t, 32);
    if u.col % 8 != 0 {
      TabStops(u);
    }
  }

  function Remaining(c: u32): nat { (8 - c % 8) % 8 }

  /** One blank of a tab: the tab is over, or goes on from there. */
  lemma BlankStep(t: Term)
    requires t.Valid() && t.esc == Plain
    ensures var u := Feed(t, 32);
            && u.Valid() && u.esc == Plain && Tab(t) == (if u.col % 8 != 0 then Tab(u) else u)
            && (t.col % 8 != 0 ==> Remaining(u.col) < Remaining(t.col))
  {
    hide Print;
    PrintKeeps(t, 32);
    TabCloser(t.col);
  }

  // ---------------------------------------------------------------- over byte streams

  lemma PenKeeps(pen: u8, bright: bool, p: u32)
    requires pen < 16
    ensures SgrStep(pen, bright, p).0 < 16
  {
    assert pen / 8 % 2 == pen / 8;
  }

  lemma {:induction false} SgrKeeps(t: Term, i: nat)
    requires |t.params| == 4 && i <= t.count <= 4 && t.pen < 16
    ensures SgrAfter(t, i).0 < 16
  {
    hide SgrStep;
    if i > 0 {
      SgrKeeps(t, i - 1);
      PenKeeps(SgrAfter(t, i - 1).0, SgrAfter(t, i - 1).1, t.params[i - 1]);
    }
  }

  lemma CursorKeeps(t: Term, row: u32, col: u32)
    requires t.Valid()
    ensures SetCursor(t, row, col).Valid()
  {
  }

  /** A line operation keeps the screen well formed. */
  lemma EditKeeps(t: Term, n: u32, lo: int, hi: int)
    requires t.Valid()
    ensures Insert(t, n).Valid() && Delete(t, n).Valid() && Erase(t, n).Valid()
    ensures ClearRange(t, lo, hi).Valid() && ClearAll(t).Valid()
  {
  }

  lemma ApplyKeeps(t: Term, ch: u32)
    requires t.Valid()
    ensures Apply(t, ch).Valid()
  {
    hide Insert, Delete, Erase, ClearRange, ClearAll, Sgr, SetCursor;
    var n := ParamOr(t, 0, 1);
    var here := Cell(t.row, t.col);
    if ch == 0x4A || ch == 0x4B {
      EditKeeps(t, n, 0, here + 1);
      EditKeeps(t, n, here, CELLS);
      EditKeeps(t, n, Cell(t.row, 0), Cell(t.row, 0) + COLS);
      EditKeeps(t, n, Cell(t.row, 0), here + 1);
      EditKeeps(t, n, here, Cell(t.row, 239) + 1);
    } else if ch == 0x40 || ch == 0x58 || ch == 0x50 {
      EditKeeps(t, n, 0, 0);
    } else if ch == 0x6D {
      SgrOk(t);
    } else {
      MovesKeep(t, ch);
    }
  }

  lemma SgrOk(t: Term)
    requires t.Valid()
    ensures Sgr(t).Valid()
  {
    hide SgrAfter;
    SgrKeeps(t, t.count);
  }

  lemma MovesKeep(t: Term, ch: u32)
    requires t.Valid() && ch !in {0x4A, 0x4B, 0x40, 0x58, 0x50, 0x6D}
    ensures Apply(t, ch).Valid()
  {
    hide SetCursor;
    var n := ParamOr(t, 0, 1);
    CursorKeeps(t, n - 1, ParamOr(t, 1, 1) - 1);
    CursorKeeps(t, t.row, n - 1);
    CursorKeeps(t, W(t.row + n), t.col);
    CursorKeeps(t, W(t.row + n), 0);
    CursorKeeps(t, if n > t.row then 0 else t.row - n, 0);
    CursorKeeps(t, t.row, W(t.col + n));
    CursorKeeps(t, n - 1, t.col);
  }

  /** Every byte, in every parser state, leaves the cursor on the grid and every
      attribute a colour index. */
  lemma FeedKeeps(t: Term, ch: u32)
    requires t.Valid()
    ensures Feed(t, ch).Valid()
  {
    hide Apply, Tab, Print;
    if t.esc != Plain {
      var u := if t.have || t.count == 0 then PushParam(t) else t;
      ApplyKeeps(u, ch);
    } else {
      TabStops(t);
      PrintKeeps(t, ch);
    }
  }

  /** The screen after a stream of bytes. */
  function Shown(t: Term, bytes: seq<u32>): (r: Term)
    requires t.Valid()
    ensures r.Valid()
  {
    if bytes == [] then t
    else
      var u := Shown(t, bytes[..|bytes| - 1]);
      FeedKeeps(u, bytes[|bytes| - 1]);
      Feed(u, bytes[|bytes| - 1])
  }

  lemma {:induction false} ShownConcat(t: Term, a: seq<u32>, b: seq<u32>)
    requires t.Valid()
    ensures Shown(t, a + b) == Shown(Shown(t, a), b)
  {
    hide Feed, Term.Valid;
    if b == [] {
      assert a + b == a;
    } else {
      var n := |b| - 1;
      assert (a + b)[..|a + b| - 1] == a + b[..n] && (a + b)[|a + b| - 1] == b[n];
      ShownConcat(t, a, b[..n]);
    }
  }

  /** n in decimal, most significant digit first. */
  function Digits(n: u32): seq<u32> {
    if n < 10 then [0x30 + n] else Digits(n / 10) + [0x30 + n % 10]
  }

  lemma DigitStep(t: Term, v: u32, d: nat, seen: bool)
    requires t.Valid() && t.esc == Csi && d < 10 && v * 10 + d < 0x1_0000_0000
    ensures Feed(t.(value := v, have := seen), 0x30 + d) == t.(value := v * 10 + d, have := true)
  {
    hide Apply;
    WId(v * 10 + d);
  }

  /** The parser reads every 32-bit number back from its decimal digits. */
  lemma {:induction false} DigitsRead(t: Term, n: u32)
    requires t.Valid() && t.esc == Csi && t.value == 0
    ensures Shown(t, Digits(n)) == t.(value := n, have := true)
  {
    hide Feed, Term.Valid;
    if n < 10 {
      assert Digits(n)[..0] == [];
      DigitStep(t, 0, n, t.have);
    } else {
      DigitsRead(t, n / 10);
      DigitStep(t, n / 10, n % 10, true);
      assert Digits(n)[..|Digits(n)| - 1] == Digits(n / 10);
    }
  }

  function Sequenced(n: u32, ch: u32): seq<u32> { [0x1B, 0x5B] + Digits(n) + [ch] }

  /** A control sequence of one parameter, sent as bytes, does its final byte's action
      with that parameter, and leaves the parser ready for text. */
  lemma ControlSequence(t: Term, n: u32, ch: u32)
    requires t.Valid() && t.esc == Plain && 0x40 <= ch <= 0x7E
    ensures Shown(t, Sequenced(n, ch)) ==
              Apply(t.(params := [n, 0, 0, 0], count := 1, value := 0, have := false, esc := Csi), ch).(esc := Plain)
  {
    hide Feed, Apply, Term.Valid, Digits;
    var open := t.(params := [0, 0, 0, 0], count := 0, value := 0, have := false, esc := Csi);
    SequenceOpens(t);
    ShownConcat(t, [0x1B, 0x5B], Digits(n));
    DigitsRead(open, n);
    ShownConcat(t, [0x1B, 0x5B] + Digits(n), [ch]);
    SequenceEnds(open.(value := n, have := true), ch);
    assert [0, 0, 0, 0][0 := n] == [n, 0, 0, 0];
  }

  lemma SequenceOpens(t: Term)
    requires t.Valid() && t.esc == Plain
    ensures var u := t.(params := [0, 0, 0, 0], count := 0, value := 0, have := false, esc := Csi);
            u.Valid() && Shown(t, [0x1B, 0x5B]) == u
  {
    hide Apply, Tab, Print;
    assert [0x1B, 0x5B][..1] == [0x1B] && [0x1B][..0] == [];
    assert Shown(t, [0x1B]) == t.(esc := Esc);
  }

  lemma SequenceEnds(t: Term, ch: u32)
    requires t.Valid() && t.esc == Csi && t.count == 0 && 0x40 <= ch <= 0x7E
    ensures PushParam(t).Valid() && Shown(t, [ch]) == Apply(PushParam(t), ch).(esc := Plain)
  {
    hide Apply;
    assert [ch][..0] == [];
  }

  lemma InsertSent(t: Term, n: u32)
    requires t.Valid() && t.esc == Plain
    ensures var u := Shown(t, Sequenced(n, 0x40));
            && u.text == Inserted(t.text, t.row, t.col, Clamp(t, n), 32)
            && u.attr == Inserted(t.attr, t.row, t.col, Clamp(t, n), t.pen)
            && u.row == t.row && u.col == t.col && u.pen == t.pen && u.esc == Plain
  {
    hide Inserted, Sequenced, Shown;
    ControlSequence(t, n, 0x40);
  }

  lemma DeleteSent(t: Term, n: u32)
    requires t.Valid() && t.esc == Plain
    ensures var u := Shown(t, Sequenced(n, 0x50));
            && u.text == Deleted(t.text, t.row, t.col, Clamp(t, n), 32)
            && u.attr == Deleted(t.attr, t.row, t.col, Clamp(t, n), t.pen)
            && u.row == t.row && u.col == t.col && u.pen == t.pen && u.esc == Plain
  {
    hide Deleted, Sequenced, Shown;
    ControlSequence(t, n, 0x50);
  }

  /** Insert n cells, then delete n cells, as byte sequences: the cursor stays, and the
      screen changes only in the last cells of the cursor's row, which turn blank. */
  lemma InsertThenDeleteSent(t: Term, n: u32)
    requires t.Valid() && t.esc == Plain
    ensures var u := Shown(t, Sequenced(n, 0x40) + Sequenced(n, 0x50));
            var lo := Cell(t.row, Max(t.col, COLS - Clamp(t, n)));
            && u.text == Filled(t.text, lo, Cell(t.row, COLS), 32) && u.attr == Filled(t.attr, lo, Cell(t.row, COLS), t.pen)
            && u.row == t.row && u.col == t.col && u.pen == t.pen && u.esc == Plain
  {
    hide Inserted, Deleted, Filled, Sequenced, Shown;
    ShownConcat(t, Sequenced(n, 0x40), Sequenced(n, 0x50));
    InsertSent(t, n);
    DeleteSent(Shown(t, Sequenced(n, 0x40)), n);
    InsertThenDelete(t.text, t.row, t.col, Clamp(t, n), 32);
    InsertThenDelete(t.attr, t.row, t.col, Clamp(t, n), t.pen);
  }
}
