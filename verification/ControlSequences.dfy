/** What the console's byte sequences do to the screen, row by row: ECMA-48 sections 8.3.39
    (ED), 8.3.41 (EL), 8.3.38 (ECH), the cursor movements, SGR, and plain text. */
module ControlSequences {
  import opened Words
  import opened Screen

  // ---------------------------------------------------------------- parameters

  /** Parameters in decimal with semicolons between them. */
  function Joined(ps: seq<u32>): seq<u32>
    requires |ps| > 0
  {
    if |ps| == 1 then Digits(ps[0]) else Joined(ps[..|ps| - 1]) + [0x3B] + Digits(ps[|ps| - 1])
  }

  /** The bytes ESC [ p1 ; p2 ; ... ch, or ESC [ ch. */
  function Sent(ps: seq<u32>, ch: u32): seq<u32> {
    [0x1B, 0x5B] + (if ps == [] then [] else Joined(ps)) + [ch]
  }

  /** The four parameters the parser keeps. */
  function Padded(ps: seq<u32>): (r: seq<u32>)
    ensures |r| == 4
  {
    seq(4, i requires 0 <= i < 4 => if i < |ps| then ps[i] else 0)
  }

  /** The parser, after the bracket, with these parameters behind it. */
  function Reading(t: Term, ps: seq<u32>, value: u32, have: bool): Term {
    t.(params := Padded(ps), count := Min(|ps|, 4), value := value, have := have, esc := Csi)
  }

  lemma ReadingValid(t: Term, ps: seq<u32>, value: u32, have: bool)
    requires t.Valid()
    ensures Reading(t, ps, value, have).Valid()
  {
  }

  lemma Pushed(t: Term, ps: seq<u32>, p: u32)
    requires t.Valid()
    ensures PushParam(Reading(t, ps, p, true)) == Reading(t, ps + [p], 0, false)
  {
    assert Padded(ps + [p]) == if |ps| < 4 then Padded(ps)[|ps| := p] else Padded(ps);
  }

  lemma {:induction false} ParametersRead(t: Term, ps: seq<u32>)
    requires t.Valid() && |ps| > 0
    ensures Shown(Reading(t, [], 0, false), Joined(ps)) == Reading(t, ps[..|ps| - 1], ps[|ps| - 1], true)
    ensures Reading(t, [], 0, false).Valid()
    decreases |ps|
  {
    hide Feed, Term.Valid, Digits, Padded;
    var open, last := Reading(t, [], 0, false), ps[|ps| - 1];
    ReadingValid(t, [], 0, false);
    if |ps| == 1 {
      DigitsRead(open, last);
      assert ps[..0] == [];
    } else {
      var before := ps[..|ps| - 1];
      ParametersRead(t, before);
      var seen := Reading(t, before[..|before| - 1], before[|before| - 1], true);
      ReadingValid(t, before[..|before| - 1], before[|before| - 1], true);
      ShownConcat(open, Joined(before), [0x3B]);
      Pushed(t, before[..|before| - 1], before[|before| - 1]);
      assert before[..|before| - 1] + [before[|before| - 1]] == before;
      Semicolon(seen);
      ReadingValid(t, before, 0, false);
      ShownConcat(open, Joined(before) + [0x3B], Digits(last));
      DigitsRead(Reading(t, before, 0, false), last);
    }
  }

  lemma Semicolon(t: Term)
    requires t.Valid() && t.esc == Csi
    ensures PushParam(t).Valid() && Shown(t, [0x3B]) == PushParam(t)
  {
    hide Apply;
    assert [0x3B][..0] == [];
  }

  /** What a whole sequence does: its final byte's action on the parameters sent.  None sent
      is a single 0; those after the fourth are dropped. */
  lemma SequenceDoes(t: Term, ps: seq<u32>, ch: u32)
    requires t.Valid() && t.esc == Plain && 0x40 <= ch <= 0x7E
    ensures var u := Reading(t, if ps == [] then [0] else ps, 0, false);
            u.Valid() && Shown(t, Sent(ps, ch)) == Apply(u, ch).(esc := Plain)
  {
    hide Feed, Apply, Term.Valid, Digits, Padded, PushParam, Joined;
    var open := Reading(t, [], 0, false);
    OpensReading(t);
    ReadingValid(t, if ps == [] then [0] else ps, 0, false);
    if ps == [] {
      Ends(open, ch);
      PushedNone(t);
      assert [0x1B, 0x5B] + [] + [ch] == [0x1B, 0x5B] + [ch];
      ShownConcat(t, [0x1B, 0x5B], [ch]);
    } else {
      var last := ps[|ps| - 1];
      ParametersRead(t, ps);
      ReadingValid(t, ps[..|ps| - 1], last, true);
      Ends(Reading(t, ps[..|ps| - 1], last, true), ch);
      Pushed(t, ps[..|ps| - 1], last);
      assert ps[..|ps| - 1] + [last] == ps;
      ShownConcat(t, [0x1B, 0x5B], Joined(ps));
      ShownConcat(t, [0x1B, 0x5B] + Joined(ps), [ch]);
    }
  }

  lemma OpensReading(t: Term)
    requires t.Valid() && t.esc == Plain
    ensures Reading(t, [], 0, false).Valid() && Shown(t, [0x1B, 0x5B]) == Reading(t, [], 0, false)
  {
    SequenceOpens(t);
    assert Padded([]) == [0, 0, 0, 0];
  }

  lemma PushedNone(t: Term)
    requires t.Valid()
    ensures PushParam(Reading(t, [], 0, false)) == Reading(t, [0], 0, false)
  {
    assert Padded([0]) == Padded([])[0 := 0];
  }

  lemma Ends(t: Term, ch: u32)
    requires t.Valid() && t.esc == Csi && (t.have || t.count == 0) && 0x40 <= ch <= 0x7E
    ensures PushParam(t).Valid() && Shown(t, [ch]) == Apply(PushParam(t), ch).(esc := Plain)
  {
    hide Apply;
    assert [ch][..0] == [];
  }

  // ---------------------------------------------------------------- erasing

  /** The screen t with another text and attributes, and u's parameter registers. */
  function Redrawn(t: Term, u: Term): Term {
    t.(text := u.text, attr := u.attr, params := u.params, count := u.count, value := u.value, have := u.have)
  }

  function First(ps: seq<u32>): u32 { if ps == [] then 0 else ps[0] }

  /** A count: a missing one and 0 are 1. */
  function Count(ps: seq<u32>, i: nat): u32 { if i >= |ps| || ps[i] == 0 then 1 else ps[i] }

  /** Row r of z is row r of t, blank from column a up to column b. */
  predicate BlankedRow(t: seq<u8>, z: seq<u8>, v: u8, r: nat, a: nat, b: nat)
    requires |t| == |z| == CELLS && r < ROWS && a <= b <= COLS
  {
    Row(z, r) == Row(t, r)[..a] + Run(b - a, v) + Row(t, r)[b..]
  }

  /** An empty stretch leaves the row, wherever it is; a full one leaves nothing of it. */
  lemma Stretches(t: seq<u8>, z: seq<u8>, v: u8, r: nat, a: nat)
    requires |t| == |z| == CELLS && r < ROWS && a <= COLS
    ensures BlankedRow(t, z, v, r, a, a) <==> Row(z, r) == Row(t, r)
    ensures BlankedRow(t, z, v, r, 0, COLS) <==> Row(z, r) == Run(COLS, v)
  {
    assert Row(t, r)[..a] + Run(0, v) + Row(t, r)[a..] == Row(t, r);
    assert Row(t, r)[..0] + Run(COLS, v) + Row(t, r)[COLS..] == Run(COLS, v);
  }

  /** What ED leaves blank in row r, as the columns from the first up to the second. */
  function EraseDisplay(p: u32, row: u32, col: u32, r: nat): (nat, nat)
    requires col < COLS
  {
    if p in {2, 3} then (0, COLS)
    else if p == 1 then if r < row then (0, COLS) else if r == row then (0, col + 1) else (0, 0)
    else if r < row then (0, 0) else if r == row then (col, COLS) else (0, COLS)
  }

  /** What EL leaves blank. */
  function EraseLine(p: u32, row: u32, col: u32, r: nat): (nat, nat)
    requires col < COLS
  {
    if r != row then (0, 0)
    else if p == 2 then (0, COLS) else if p == 1 then (0, col + 1) else (col, COLS)
  }

  /** What ECH leaves blank: n cells, or to the end of the row; none when the 32-bit sum of
      column and count wraps. */
  function EraseCharacters(n: u32, row: u32, col: u32, r: nat): (nat, nat)
    requires col < COLS
  {
    if r != row || col + n >= 0x1_0000_0000 then (0, 0) else (col, Min(col + n, COLS))
  }

  ghost predicate Blanks(t: Term, u: Term, pen: u8, stretch: nat -> (nat, nat))
    requires |t.text| == |t.attr| == |u.text| == |u.attr| == CELLS
  {
    forall r: nat :: r < ROWS ==>
      stretch(r).0 <= stretch(r).1 <= COLS &&
      BlankedRow(t.text, u.text, 32, r, stretch(r).0, stretch(r).1) &&
      BlankedRow(t.attr, u.attr, pen, r, stretch(r).0, stretch(r).1)
  }

  /** How much of a row lies before a point x columns from its start. */
  function Clip(x: int): nat { if x < 0 then 0 else Min(x, COLS) }

  /** Any filled range of cells, seen in one row. */
  lemma RowFilled(t: seq<u8>, lo: int, hi: int, v: u8, r: nat)
    requires |t| == CELLS && r < ROWS && lo <= hi
    ensures BlankedRow(t, Filled(t, lo, hi, v), v, r, Clip(lo - r * COLS), Clip(hi - r * COLS))
  {
    var a, b := Clip(lo - r * COLS), Clip(hi - r * COLS);
    var z, was := Row(Filled(t, lo, hi, v), r), Row(t, r);
    var put := was[..a] + Run(b - a, v) + was[b..];
    forall k | 0 <= k < COLS ensures z[k] == put[k] {
      assert z[k] == Filled(t, lo, hi, v)[r * COLS + k] && was[k] == t[r * COLS + k];
    }
  }

  lemma ClipCell(row: nat, col: nat, r: nat)
    requires col <= COLS
    ensures Clip(Cell(row, col) - r * COLS) == if r < row then COLS else if r == row then col else 0
    ensures r < ROWS ==> Clip(CELLS - r * COLS) == COLS && Clip(0 - r * COLS) == 0
  {
    OtherRow(row, r);
  }

  lemma NothingFilled(t: seq<u8>, lo: int, hi: int, v: u8)
    ensures hi <= lo ==> Filled(t, lo, hi, v) == t
  {
  }

  /** Clearing a range of cells, in one row; a stretch that is empty may be named anywhere. */
  lemma ClearedRow(t: Term, lo: int, hi: int, r: nat, a: nat, b: nat)
    requires t.Shaped() && r < ROWS && lo <= hi && a <= b <= COLS
    requires var x, y := Clip(lo - r * COLS), Clip(hi - r * COLS);
             (a, b) == (x, y) || (a == b && x == y)
    ensures var u := ClearRange(t, lo, hi);
            BlankedRow(t.text, u.text, 32, r, a, b) && BlankedRow(t.attr, u.attr, t.pen, r, a, b)
  {
    hide BlankedRow, Filled;
    RowFilled(t.text, lo, hi, 32, r);
    RowFilled(t.attr, lo, hi, t.pen, r);
    var u := ClearRange(t, lo, hi);
    Stretches(t.text, u.text, 32, r, a);
    Stretches(t.attr, u.attr, t.pen, r, a);
    Stretches(t.text, u.text, 32, r, Clip(lo - r * COLS));
    Stretches(t.attr, u.attr, t.pen, r, Clip(lo - r * COLS));
  }

  /** Main result: ED by rows.  With 0, or anything but 1, 2 and 3, from the cursor to the end
      of the screen; with 1 from the start to the cursor; the cursor and the pen stay. */
  lemma EraseDisplaySent(t: Term, ps: seq<u32>)
    requires t.Valid() && t.esc == Plain && First(ps) !in {2, 3}
    ensures var u := Shown(t, Sent(ps, 0x4A));
            u == Redrawn(t, u) && Blanks(t, u, t.pen, r => EraseDisplay(First(ps), t.row, t.col, r))
  {
    hide Shown, Filled, Sent, BlankedRow, Clip;
    SequenceDoes(t, ps, 0x4A);
    var v := Reading(t, if ps == [] then [0] else ps, 0, false);
    var u := Shown(t, Sent(ps, 0x4A));
    var here := Cell(t.row, t.col);
    var (lo, hi) := if First(ps) == 1 then (0, here + 1) else (here, CELLS);
    assert u == ClearRange(v, lo, hi).(esc := Plain);
    forall r: nat | r < ROWS
      ensures var (a, b) := EraseDisplay(First(ps), t.row, t.col, r);
              a <= b <= COLS && BlankedRow(t.text, u.text, 32, r, a, b) && BlankedRow(t.attr, u.attr, t.pen, r, a, b)
    {
      ClipCell(t.row, t.col, r);
      ClipCell(t.row, t.col + 1, r);
      var (a, b) := EraseDisplay(First(ps), t.row, t.col, r);
      ClearedRow(v, lo, hi, r, a, b);
    }
  }

  /** ED with 2 or 3: the screen as after start, the cursor home. */
  lemma ClearScreenSent(t: Term, ps: seq<u32>)
    requires t.Valid() && t.esc == Plain && First(ps) in {2, 3}
    ensures var u := Shown(t, Sent(ps, 0x4A));
            && u == Redrawn(t, u).(row := 0, col := 0, pen := 7)
            && forall r: nat :: r < ROWS ==> Row(u.text, r) == Run(COLS, 32) && Row(u.attr, r) == Run(COLS, 7)
  {
    hide Shown, Sent;
    SequenceDoes(t, ps, 0x4A);
  }

  /** EL by rows: only the cursor's row, from the cursor, to the cursor, or all of it. */
  lemma EraseLineSent(t: Term, ps: seq<u32>)
    requires t.Valid() && t.esc == Plain
    ensures var u := Shown(t, Sent(ps, 0x4B));
            u == Redrawn(t, u) && Blanks(t, u, t.pen, r => EraseLine(First(ps), t.row, t.col, r))
  {
    hide Shown, Filled, Sent, BlankedRow, Clip;
    SequenceDoes(t, ps, 0x4B);
    var v := Reading(t, if ps == [] then [0] else ps, 0, false);
    var u := Shown(t, Sent(ps, 0x4B));
    var p := First(ps);
    var from, to := if p in {1, 2} then 0 else t.col, if p == 1 then t.col + 1 else COLS;
    var lo, hi := Cell(t.row, from), Cell(t.row, to);
    assert u == ClearRange(v, lo, hi).(esc := Plain);
    forall r: nat | r < ROWS
      ensures var (a, b) := EraseLine(p, t.row, t.col, r);
              a <= b <= COLS && BlankedRow(t.text, u.text, 32, r, a, b) && BlankedRow(t.attr, u.attr, t.pen, r, a, b)
    {
      ClipCell(t.row, from, r);
      ClipCell(t.row, to, r);
      var (a, b) := EraseLine(p, t.row, t.col, r);
      ClearedRow(v, lo, hi, r, a, b);
    }
  }

  /** ECH by rows. */
  lemma EraseCharactersSent(t: Term, ps: seq<u32>)
    requires t.Valid() && t.esc == Plain
    ensures var u := Shown(t, Sent(ps, 0x58));
            u == Redrawn(t, u) && Blanks(t, u, t.pen, r => EraseCharacters(Count(ps, 0), t.row, t.col, r))
  {
    hide Shown, Filled, Sent, BlankedRow, Clip, W;
    SequenceDoes(t, ps, 0x58);
    var v := Reading(t, if ps == [] then [0] else ps, 0, false);
    var u := Shown(t, Sent(ps, 0x58));
    var n := Count(ps, 0);
    WrappedSum(t.col, n);
    var to := Min(W(t.col + n), COLS);
    var lo, hi := Cell(t.row, t.col), Cell(t.row, Max(to, t.col));
    NothingFilled(t.text, lo, Cell(t.row, to), 32);
    NothingFilled(t.attr, lo, Cell(t.row, to), t.pen);
    NothingFilled(t.text, lo, lo, 32);
    NothingFilled(t.attr, lo, lo, t.pen);
    assert u == ClearRange(v, lo, hi).(esc := Plain);
    forall r: nat | r < ROWS
      ensures var (a, b) := EraseCharacters(n, t.row, t.col, r);
              a <= b <= COLS && BlankedRow(t.text, u.text, 32, r, a, b) && BlankedRow(t.attr, u.attr, t.pen, r, a, b)
    {
      ClipCell(t.row, t.col, r);
      ClipCell(t.row, Max(to, t.col), r);
      var (a, b) := EraseCharacters(n, t.row, t.col, r);
      ClearedRow(v, lo, hi, r, a, b);
    }
  }

  lemma WrappedSum(col: u32, n: u32)
    requires col < COLS
    ensures W(col + n) == if col + n < 0x1_0000_0000 then col + n else col + n - 0x1_0000_0000
  {
  }

  /** ICH by rows: only the cursor's row, and no more than what is left of it. */
  lemma InsertCellsSent(t: Term, ps: seq<u32>, r: nat)
    requires t.Valid() && t.esc == Plain && r < ROWS
    ensures var n := Min(Count(ps, 0), COLS - t.col);
            var u, was, pens := Shown(t, Sent(ps, 0x40)), Row(t.text, r), Row(t.attr, r);
            && u == Redrawn(t, u)
            && Row(u.text, r) == (if r == t.row then was[..t.col] + Run(n, 32) + was[t.col..COLS - n] else was)
            && Row(u.attr, r) == (if r == t.row then pens[..t.col] + Run(n, t.pen) + pens[t.col..COLS - n] else pens)
  {
    hide Shown, Sent, Inserted, Row, Run;
    SequenceDoes(t, ps, 0x40);
    var n := Min(Count(ps, 0), COLS - t.col);
    InsertedRows(t.text, t.row, t.col, n, 32, r);
    InsertedRows(t.attr, t.row, t.col, n, t.pen, r);
  }

  /** DCH by rows. */
  lemma DeleteCellsSent(t: Term, ps: seq<u32>, r: nat)
    requires t.Valid() && t.esc == Plain && r < ROWS
    ensures var n := Min(Count(ps, 0), COLS - t.col);
            var u, was, pens := Shown(t, Sent(ps, 0x50)), Row(t.text, r), Row(t.attr, r);
            && u == Redrawn(t, u)
            && Row(u.text, r) == (if r == t.row then was[..t.col] + was[t.col + n..] + Run(n, 32) else was)
            && Row(u.attr, r) == (if r == t.row then pens[..t.col] + pens[t.col + n..] + Run(n, t.pen) else pens)
  {
    hide Shown, Sent, Deleted, Row, Run;
    SequenceDoes(t, ps, 0x50);
    var n := Min(Count(ps, 0), COLS - t.col);
    DeletedRows(t.text, t.row, t.col, n, 32, r);
    DeletedRows(t.attr, t.row, t.col, n, t.pen, r);
  }

  // ---------------------------------------------------------------- the cursor

  /** Where a movement takes the cursor.  A count is at least one; sums wrap at 2^32; the
      result is on the grid. */
  function MovedTo(ch: u32, ps: seq<u32>, row: u32, col: u32): (int, int)
    requires row < ROWS && col < COLS
  {
    var n, m := Count(ps, 0), Count(ps, 1);
    var up, down := Max(row - n, 0), Min(W(row + n), ROWS - 1);
    if ch == 0x41 then (up, col)                                                  // CUU, A
    else if ch == 0x42 then (down, col)                                           // CUD, B
    else if ch == 0x43 then (row, Min(W(col + n), COLS - 1))                      // CUF, C
    else if ch == 0x44 then (row, Max(col - n, 0))                                // CUB, D
    else if ch == 0x45 then (down, 0)                                             // CNL, E
    else if ch == 0x46 then (up, 0)                                               // CPL, F
    else if ch == 0x47 then (row, Min(n - 1, COLS - 1))                           // CHA, G
    else if ch == 0x64 then (Min(n - 1, ROWS - 1), col)                           // VPA, d
    else (Min(n - 1, ROWS - 1), Min(m - 1, COLS - 1))                             // CUP, H and f
  }

  /** Main result: the ten movements change the cursor and nothing else. */
  lemma MovementSent(t: Term, ps: seq<u32>, ch: u32)
    requires t.Valid() && t.esc == Plain && ch in {0x41, 0x42, 0x43, 0x44, 0x45, 0x46, 0x47, 0x64, 0x48, 0x66}
    ensures var u := Shown(t, Sent(ps, ch));
            var (row, col) := MovedTo(ch, ps, t.row, t.col);
            u.text == t.text && u.attr == t.attr && u.row == row && u.col == col && u == Redrawn(t, u).(row := u.row, col := u.col)
  {
    hide Shown, Sent, Sgr, Insert, Delete, Erase, ClearRange, ClearAll, ParamOr, Count, W, Padded;
    SequenceDoes(t, ps, ch);
    Parameters(t, ps);
    CountRange(ps);
  }

  lemma CountRange(ps: seq<u32>)
    ensures Count(ps, 0) >= 1 && Count(ps, 1) >= 1
  {
  }

  lemma Parameters(t: Term, ps: seq<u32>)
    requires t.Valid()
    ensures var v := Reading(t, if ps == [] then [0] else ps, 0, false);
            ParamOr(v, 0, 1) == Count(ps, 0) && ParamOr(v, 1, 1) == Count(ps, 1)
  {
  }

  /** A final byte with no action changes nothing. */
  lemma OthersSent(t: Term, ps: seq<u32>, ch: u32)
    requires t.Valid() && t.esc == Plain && 0x40 <= ch <= 0x7E
    requires ch !in {0x40, 0x41, 0x42, 0x43, 0x44, 0x45, 0x46, 0x47, 0x48, 0x4A, 0x4B, 0x50, 0x58, 0x64, 0x66, 0x6D}
    ensures var u := Shown(t, Sent(ps, ch));
            u.text == t.text && u.attr == t.attr && u == Redrawn(t, u)
  {
    hide Shown, Sent;
    SequenceDoes(t, ps, ch);
  }

  // ---------------------------------------------------------------- the pen

  /** The pen after a list of SGR parameters, first to last: 0 and 39 are light grey, 1 makes
      bright and is remembered for the colours after it, 22 undoes that, 30 to 37 and 90 to 97
      are the eight colours and the eight bright ones. */
  function PenAfter(pen: u8, bold: bool, ps: seq<u32>): u8
    requires pen < 16
    decreases |ps|
  {
    if ps == [] then pen
    else
      var p, rest := ps[0], ps[1..];
      if p == 0 then PenAfter(7, false, rest)
      else if p == 1 then PenAfter(if pen < 8 then pen + 8 else pen, true, rest)
      else if p == 22 then PenAfter(if pen < 8 then pen else pen - 8, false, rest)
      else if p == 39 then PenAfter(7, bold, rest)
      else if 30 <= p <= 37 then PenAfter(if bold then p - 22 else p - 30, bold, rest)
      else if 90 <= p <= 97 then PenAfter(p - 82, bold, rest)
      else PenAfter(pen, bold, rest)
  }

  lemma PenStep(pen: u8, bold: bool, p: u32, rest: seq<u32>)
    requires pen < 16
    ensures var s := SgrStep(pen, bold, p);
            s.0 < 16 && PenAfter(pen, bold, [p] + rest) == PenAfter(s.0, s.1, rest)
  {
    assert ([p] + rest)[1..] == rest;
    assert pen / 8 % 2 == pen / 8;
  }

  lemma {:induction false} PenParts(t: Term, i: nat)
    requires |t.params| == 4 && i <= t.count <= 4 && t.pen < 16
    ensures SgrAfter(t, i).0 < 16
    ensures PenAfter(t.pen, false, t.params[..t.count]) == PenAfter(SgrAfter(t, i).0, SgrAfter(t, i).1, t.params[i..t.count])
  {
    hide SgrStep, PenAfter;
    if i == 0 {
      assert t.params[0..t.count] == t.params[..t.count];
    } else {
      PenParts(t, i - 1);
      var s := SgrAfter(t, i - 1);
      PenStep(s.0, s.1, t.params[i - 1], t.params[i..t.count]);
      assert t.params[i - 1..t.count] == [t.params[i - 1]] + t.params[i..t.count];
    }
  }

  /** Main result: SGR changes the pen and nothing else, by its first four parameters. */
  lemma PenSent(t: Term, ps: seq<u32>)
    requires t.Valid() && t.esc == Plain
    ensures var u := Shown(t, Sent(ps, 0x6D));
            && u.text == t.text && u.attr == t.attr && u == Redrawn(t, u).(pen := u.pen)
            && u.pen == PenAfter(t.pen, false, if ps == [] then [0] else ps[..Min(|ps|, 4)])
  {
    hide Shown, Sent, SgrAfter, PenAfter, SgrStep;
    SequenceDoes(t, ps, 0x6D);
    var qs := if ps == [] then [0] else ps;
    var v := Reading(t, qs, 0, false);
    PenParts(v, v.count);
    assert v.params[..v.count] == qs[..Min(|qs|, 4)];
    assert v.params[v.count..v.count] == [] && [0][..1] == [0];
    PenOf(SgrAfter(v, v.count).0, SgrAfter(v, v.count).1);
  }

  lemma PenOf(pen: u8, bold: bool)
    requires pen < 16
    ensures PenAfter(pen, bold, []) == pen
  {
  }

  // ---------------------------------------------------------------- text

  /** Where the cursor is after a cell is filled: the next one, or the next row's first. */
  predicate Advances(t: Term, u: Term) {
    if t.col < COLS - 1 then u.row == t.row && u.col == t.col + 1
    else u.row == Min(t.row + 1, ROWS - 1) && u.col == 0
  }

  /** Main result: a byte of text.  A printable one is itself, any other without a meaning a
      full stop; its cell and the cell's colour change, and no other, unless the last cell of
      the screen was filled: then every row moves up and the last is blank. */
  lemma TextShown(t: Term, ch: u32)
    requires t.Valid() && t.esc == Plain && ch !in {0x1B, 13, 10, 9, 8, 127}
    ensures var u := Shown(t, [ch]);
            var c: u8 := if 32 <= ch <= 126 then ch else 0x2E;
            var text, attr := t.text[t.row * COLS + t.col := c], t.attr[t.row * COLS + t.col := t.pen];
            && Advances(t, u)
            && u == Redrawn(t, u).(row := u.row, col := u.col)
            && forall r: nat :: r < ROWS ==>
                 if t.row == ROWS - 1 && t.col == COLS - 1 then
                   && Row(u.text, r) == (if r < ROWS - 1 then Row(text, r + 1) else Run(COLS, 32))
                   && Row(u.attr, r) == (if r < ROWS - 1 then Row(attr, r + 1) else Run(COLS, t.pen))
                 else Row(u.text, r) == Row(text, r) && Row(u.attr, r) == Row(attr, r)
  {
    hide Row, Scrolled, PutCell, Shown;
    FedOne(t, ch);
    var u := Feed(t, ch);
    var c: u8 := if 32 <= ch <= 126 then ch else 0x2E;
    var text, attr := t.text[t.row * COLS + t.col := c], t.attr[t.row * COLS + t.col := t.pen];
    PutOne(t, c);
    if t.row == ROWS - 1 && t.col == COLS - 1 {
      assert u.text == Scrolled(text, 32) && u.attr == Scrolled(attr, t.pen);
      forall r: nat | r < ROWS
        ensures Row(u.text, r) == if r < ROWS - 1 then Row(text, r + 1) else Run(COLS, 32)
        ensures Row(u.attr, r) == if r < ROWS - 1 then Row(attr, r + 1) else Run(COLS, t.pen)
      {
        ScrolledRows(text, 32, r);
        ScrolledRows(attr, t.pen, r);
      }
    }
  }

  lemma FedOne(t: Term, ch: u32)
    requires t.Valid()
    ensures Shown(t, [ch]) == Feed(t, ch)
  {
    hide Feed;
    assert [ch][..0] == [];
  }

  lemma PutOne(t: Term, c: u8)
    requires t.Valid()
    ensures PutCell(t, c) == t.(text := t.text[t.row * COLS + t.col := c], attr := t.attr[t.row * COLS + t.col := t.pen])
  {
  }

  /** A new row, or at the bottom every row up by one and a blank one. */
  lemma LineFeedShown(t: Term)
    requires t.Valid() && t.esc == Plain
    ensures var u := Shown(t, [10]);
            && u == Redrawn(t, u).(row := Min(t.row + 1, ROWS - 1), col := 0)
            && (t.row < ROWS - 1 ==> u.text == t.text && u.attr == t.attr)
            && (t.row == ROWS - 1 ==> forall r: nat :: r < ROWS ==>
                  && Row(u.text, r) == (if r < ROWS - 1 then Row(t.text, r + 1) else Run(COLS, 32))
                  && Row(u.attr, r) == (if r < ROWS - 1 then Row(t.attr, r + 1) else Run(COLS, t.pen)))
  {
    hide Row, Scrolled, Shown;
    FedOne(t, 10);
    if t.row == ROWS - 1 {
      forall r: nat | r < ROWS
        ensures Row(Scrolled(t.text, 32), r) == if r < ROWS - 1 then Row(t.text, r + 1) else Run(COLS, 32)
        ensures Row(Scrolled(t.attr, t.pen), r) == if r < ROWS - 1 then Row(t.attr, r + 1) else Run(COLS, t.pen)
      {
        ScrolledRows(t.text, 32, r);
        ScrolledRows(t.attr, t.pen, r);
      }
    }
  }

  /** Carriage return, and the two erasing backspaces. */
  lemma BacksShown(t: Term, ch: u32)
    requires t.Valid() && t.esc == Plain && ch in {13, 8, 127}
    ensures Shown(t, [ch]) ==
              if ch == 13 then t.(col := 0)
              else if t.col == 0 then t
              else
                var cell := t.row * COLS + t.col - 1;
                t.(col := t.col - 1, text := t.text[cell := 32], attr := t.attr[cell := t.pen])
  {
    hide Shown;
    FedOne(t, ch);
  }

  /** A tab is one to eight blanks, up to the next multiple of eight columns. */
  lemma TabShown(t: Term)
    requires t.Valid() && t.esc == Plain
    ensures Shown(t, [9]) == Shown(t, seq(8 - t.col % 8, _ => 32 as u32))
  {
    hide Shown, Tab;
    FedOne(t, 9);
    TabBlanks(t, 8 - t.col % 8);
  }

  lemma {:induction false} TabBlanks(t: Term, n: nat)
    requires t.Valid() && t.esc == Plain && n == 8 - t.col % 8
    ensures Tab(t) == Shown(t, seq(n, _ => 32 as u32))
    decreases n
  {
    hide Feed, Tab, Print, Shown;
    var u := Feed(t, 32);
    BlankStep(t);
    BlankMoves(t);
    FedOne(t, 32);
    var rest := seq(n - 1, _ => 32 as u32);
    assert seq(n, _ => 32 as u32) == [32] + rest;
    ShownConcat(t, [32], rest);
    if n > 1 {
      TabBlanks(u, n - 1);
    } else {
      ShownNothing(u);
      assert rest == [];
    }
  }

  lemma BlankMoves(t: Term)
    requires t.Valid() && t.esc == Plain
    ensures Feed(t, 32).col % 8 == (t.col + 1) % 8
  {
    hide Print;
    PrintKeeps(t, 32);
    TabCloser(t.col);
  }

  lemma ShownNothing(t: Term)
    requires t.Valid()
    ensures Shown(t, []) == t
  {
  }

  /** An escape with any other byte after it shows nothing; `?`, a blank and `=` inside a
      sequence are skipped; any other byte that cannot be part of one ends it. */
  lemma SkippedBytes(t: Term, ch: u32)
    requires t.Valid()
    ensures t.esc == Plain && ch !in {0x5B, 0x1B} ==> Shown(t, [0x1B, ch]) == t
    ensures t.esc == Plain ==> Shown(t, [0x1B, 0x1B]) == Shown(t, [0x1B])
    ensures t.esc == Csi && ch in {0x3F, 0x20, 0x3D} ==> Shown(t, [ch]) == t
    ensures t.esc == Csi && ch !in {0x3F, 0x20, 0x3D, 0x3B} && !(0x30 <= ch <= 0x39) && !(0x40 <= ch <= 0x7E) ==>
              Shown(t, [ch]) == t.(esc := Plain)
  {
    hide Apply, Tab, Print;
    FedOne(t, ch);
    FedOne(t, 0x1B);
    assert [0x1B, ch][..1] == [0x1B] && [0x1B, 0x1B][..1] == [0x1B];
  }
}
