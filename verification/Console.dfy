/** The HDMI console in place: the shadow arrays, the packed device words that mirror
    them, and the escape-sequence parser, each method against the function of Screen
    that it carries out.  Every method leaves the device words in step with the
    shadow, though each writes only the words of the cells it changed. */
module Console {
  import opened Bits
  import opened Words
  import opened Screen

  function Nibbles(a: u8, b: u8, c: u8, d: u8): u16 {
    a % 16 + 0x10 * (b % 16) + 0x100 * (c % 16) + 0x1000 * (d % 16)
  }

  /** Eight attributes of four bits, the first lowest. */
  function Pack8(a: u8, b: u8, c: u8, d: u8, e: u8, f: u8, g: u8, h: u8): u32 {
    Nibbles(a, b, c, d) + 0x1_0000 * Nibbles(e, f, g, h)
  }

  /** The attribute the display reads for cell i of its eight-cell word. */
  function Nibble(v: u32, i: nat): u8
    requires i < 8
  {
    if i < 4 then NibbleOf(v % 0x1_0000, i) else NibbleOf(v / 0x1_0000, i - 4)
  }

  function NibbleOf(half: int, k: nat): u8
    requires k < 4
  {
    if k == 0 then half % 0x10
    else if k == 1 then half / 0x10 % 0x10
    else if k == 2 then half / 0x100 % 0x10
    else half / 0x1000 % 0x10
  }

  lemma NibblesBack(a: u8, b: u8, c: u8, d: u8)
    ensures var v := Nibbles(a, b, c, d);
            && NibbleOf(v, 0) == a % 16 && NibbleOf(v, 1) == b % 16
            && NibbleOf(v, 2) == c % 16 && NibbleOf(v, 3) == d % 16
  {
    var v: int := Nibbles(a, b, c, d);
    var r3: int := d % 16;
    var r2 := c % 16 + 0x10 * r3;
    var r1 := b % 16 + 0x10 * r2;
    DivUnique(v, 0x10, r1, a % 16);
    DivUnique(r1, 0x10, r2, b % 16);
    DivUnique(r2, 0x10, r3, c % 16);
    DivDiv(v, 0x10, 0x10);
    DivDiv(v, 0x100, 0x10);
  }

  lemma Pack8Back(a: u8, b: u8, c: u8, d: u8, e: u8, f: u8, g: u8, h: u8)
    ensures var v := Pack8(a, b, c, d, e, f, g, h);
            && v % 0x1_0000 == Nibbles(a, b, c, d) && v / 0x1_0000 == Nibbles(e, f, g, h)
  {
    hide Nibbles;
    var lo: int, hi: int := Nibbles(a, b, c, d), Nibbles(e, f, g, h);
    assert (lo + 0x1_0000 * hi) % 0x1_0000 == lo && (lo + 0x1_0000 * hi) / 0x1_0000 == hi;
  }

  lemma NibbleOfPack8(a: u8, b: u8, c: u8, d: u8, e: u8, f: u8, g: u8, h: u8)
    ensures var v := Pack8(a, b, c, d, e, f, g, h);
            && Nibble(v, 0) == a % 16 && Nibble(v, 1) == b % 16 && Nibble(v, 2) == c % 16 && Nibble(v, 3) == d % 16
            && Nibble(v, 4) == e % 16 && Nibble(v, 5) == f % 16 && Nibble(v, 6) == g % 16 && Nibble(v, 7) == h % 16
  {
    hide Pack8, Nibbles, NibbleOf;
    Pack8Back(a, b, c, d, e, f, g, h);
    NibblesBack(a, b, c, d);
    NibblesBack(e, f, g, h);
  }

  function TextWord(t: array<u8>, w: int): u32
    requires 0 <= w && 4 * w + 4 <= t.Length
    reads t
  {
    Le32(t[4 * w], t[4 * w + 1], t[4 * w + 2], t[4 * w + 3])
  }

  function AttrWord(a: array<u8>, w: int): u32
    requires 0 <= w && 8 * w + 8 <= a.Length
    reads a
  {
    Pack8(a[8 * w], a[8 * w + 1], a[8 * w + 2], a[8 * w + 3],
          a[8 * w + 4], a[8 * w + 5], a[8 * w + 6], a[8 * w + 7])
  }

  /** Cells size*w to size*w+size-1 meet the cells from lo up to hi. */
  predicate Meets(w: int, size: int, lo: int, hi: int) {
    size * w < hi && lo < size * w + size && lo < hi
  }

  class HdmiConsole {
    const text: array<u8>
    const attr: array<u8>
    const devText: array<u32>
    const devAttr: array<u32>
    const params: array<u32>
    var row: u32
    var col: u32
    var pen: u8
    var esc: Escape
    var count: nat
    var value: u32
    var have: bool

    ghost predicate Shaped() {
      && text.Length == CELLS && attr.Length == CELLS && devText.Length == CELLS / 4 && devAttr.Length == CELLS / 8
      && params.Length == 4 && text != attr && devText != devAttr && devText != params && devAttr != params
    }

    ghost function View(): Term
      reads this, text, attr, params
    {
      Term(text[..], attr[..], row, col, pen, esc, params[..], count, value, have)
    }

    /** Every device word that holds no cell from lo up to hi agrees with the shadow. */
    ghost predicate Clean(lo: int, hi: int)
      requires Shaped()
      reads text, attr, devText, devAttr
    {
      && (forall w :: 0 <= w < CELLS / 4 && !Meets(w, 4, lo, hi) ==> devText[w] == TextWord(text, w))
      && (forall w :: 0 <= w < CELLS / 8 && !Meets(w, 8, lo, hi) ==> devAttr[w] == AttrWord(attr, w))
    }

    /** Every device word agrees with the shadow. */
    ghost predicate Mirrored()
      requires Shaped()
      reads text, attr, devText, devAttr
    {
      && (forall w :: 0 <= w < CELLS / 4 ==> devText[w] == TextWord(text, w))
      && (forall w :: 0 <= w < CELLS / 8 ==> devAttr[w] == AttrWord(attr, w))
    }

    ghost predicate Valid()
      reads this, text, attr, devText, devAttr, params
    {
      Shaped() && Mirrored() && View().Valid()
    }

    /** What the display reads back for a cell is the shadow's character. */
    lemma DisplayShowsText(i: nat)
      requires Shaped() && Mirrored() && i < CELLS
      ensures Byte(devText[i / 4], i % 4) == text[i]
    {
      hide Byte, Le32, AttrWord;
      var w := i / 4;
      BytesOfLe32(text[4 * w], text[4 * w + 1], text[4 * w + 2], text[4 * w + 3]);
      assert devText[w] == TextWord(text, w);
      assert i == 4 * w + i % 4;
    }

    lemma AttrAt(w: nat, k: nat)
      requires Shaped() && Mirrored() && w < CELLS / 8 && k < 8
      ensures Nibble(devAttr[w], k) == attr[8 * w + k] % 16
    {
      hide TextWord, Nibble, Pack8;
      var c := 8 * w;
      assert devAttr[w] == AttrWord(attr, w);
      NibbleOfPack8(attr[c], attr[c + 1], attr[c + 2], attr[c + 3], attr[c + 4], attr[c + 5], attr[c + 6], attr[c + 7]);
      assert k == 0 || k == 1 || k == 2 || k == 3 || k == 4 || k == 5 || k == 6 || k == 7;
    }

    /** And its attribute. */
    lemma DisplayShowsAttr(i: nat)
      requires Valid() && i < CELLS
      ensures Nibble(devAttr[i / 8], i % 8) == attr[i]
    {
      hide Nibble, Mirrored;
      AttrAt(i / 8, i % 8);
      assert View().attr[i] < 16;
    }

    /** The eight-step loop of shifts is written out. */
    method WriteAttrWord(w: nat)
      requires Shaped() && w < CELLS / 8
      modifies devAttr
      ensures devAttr[..] == old(devAttr[..])[w := AttrWord(attr, w)]
    {
      var cell := w * 8;
      var lo: int := Nibbles(attr[cell], attr[cell + 1], attr[cell + 2], attr[cell + 3]);
      var hi: int := Nibbles(attr[cell + 4], attr[cell + 5], attr[cell + 6], attr[cell + 7]);
      devAttr[w] := lo + 0x1_0000 * hi;
    }

    method WriteWord(w: nat)
      requires Shaped() && w < CELLS / 4
      modifies devText, devAttr
      ensures forall v :: 0 <= v < CELLS / 4 ==> devText[v] == if v == w then TextWord(text, w) else old(devText[v])
      ensures forall v :: 0 <= v < CELLS / 8 ==> devAttr[v] == if v == w / 2 then AttrWord(attr, w / 2) else old(devAttr[v])
    {
      hide Le32, AttrWord;
      var cell := w * 4;
      devText[w] := Le32(text[cell], text[cell + 1], text[cell + 2], text[cell + 3]);
      WriteAttrWord(cell / 8);
    }

    /** The loop the repainters share: words `first` to `last`, each with its attributes. */
    method WriteWords(first: nat, last: nat, ghost lo: int, ghost hi: int)
      requires Shaped() && first <= last < CELLS / 4 && Clean(lo, hi)
      requires 4 * first <= lo && hi <= 4 * last + 4
      modifies devText, devAttr
      ensures Mirrored()
    {
      var w := first;
      while w <= last
        invariant first <= w <= last + 1
        invariant forall v :: 0 <= v < CELLS / 4 && !(w <= v <= last) ==> devText[v] == TextWord(text, v)
        invariant forall v :: 0 <= v < CELLS / 8 && (!Meets(v, 8, lo, hi) || (first < w && v < (w + 1) / 2)) ==>
                    devAttr[v] == AttrWord(attr, v)
      {
        WriteWord(w);
        w := w + 1;
      }
    }

    method Repaint()
      requires Shaped()
      modifies devText, devAttr
      ensures Mirrored()
    {
      WriteWords(0, CELLS / 4 - 1, 0, CELLS);
    }

    method ClearShadow()
      requires Shaped()
      modifies text, attr, this`row, this`col, this`pen, this`esc
      ensures View() == ClearAll(old(View()))
    {
      var i := 0;
      while i < CELLS
        invariant 0 <= i <= CELLS
        invariant forall k :: 0 <= k < i ==> text[k] == 32 && attr[k] == 7
      {
        text[i] := 32;
        attr[i] := 7;
        i := i + 1;
      }
      row, col, pen, esc := 0, 0, 7, Plain;
      assert text[..] == ClearAll(old(View())).text && attr[..] == ClearAll(old(View())).attr;
    }

    /** What `hdmi_console_init` does to the text: the display agrees from here on. */
    method Init()
      requires Shaped()
      modifies text, attr, devText, devAttr, this`row, this`col, this`pen, this`esc
      ensures View() == ClearAll(old(View())) && Mirrored()
    {
      ClearShadow();
      Repaint();
    }

    method Scroll()
      requires Shaped()
      modifies text, attr, devText, devAttr, this`row, this`col
      ensures View() == old(View()).(text := Scrolled(old(text[..]), 32), attr := Scrolled(old(attr[..]), pen),
                                     row := ROWS - 1, col := 0)
      ensures Mirrored()
    {
      MoveRowsUp();
      var c := 0;
      while c < COLS
        invariant 0 <= c <= COLS
        invariant forall k :: 0 <= k < CELLS - COLS + c ==>
                    && text[k] == (if k < CELLS - COLS then old(text[k + COLS]) else 32)
                    && attr[k] == (if k < CELLS - COLS then old(attr[k + COLS]) else pen)
      {
        text[CELLS - COLS + c] := 32;
        attr[CELLS - COLS + c] := pen;
        c := c + 1;
      }
      row, col := ROWS - 1, 0;
      Repaint();
      assert text[..] == Scrolled(old(text[..]), 32) && attr[..] == Scrolled(old(attr[..]), pen);
    }

    /** The two nested loops of the scroll: every row but the first, one row up. */
    method MoveRowsUp()
      requires Shaped()
      modifies text, attr
      ensures forall k :: 0 <= k < CELLS - COLS ==> text[k] == old(text[k + COLS]) && attr[k] == old(attr[k + COLS])
    {
      var r := 1;
      while r < ROWS
        invariant 1 <= r <= ROWS
        invariant forall k :: 0 <= k < COLS * r - COLS ==> text[k] == old(text[k + COLS]) && attr[k] == old(attr[k + COLS])
        invariant forall k :: COLS * r - COLS <= k < CELLS ==> text[k] == old(text[k]) && attr[k] == old(attr[k])
      {
        var c := 0;
        while c < COLS
          invariant 0 <= c <= COLS
          invariant forall k :: 0 <= k < COLS * r - COLS + c ==> text[k] == old(text[k + COLS]) && attr[k] == old(attr[k + COLS])
          invariant forall k :: COLS * r - COLS + c <= k < CELLS ==> text[k] == old(text[k]) && attr[k] == old(attr[k])
        {
          text[COLS * (r - 1) + c] := text[COLS * r + c];
          attr[COLS * (r - 1) + c] := attr[COLS * r + c];
          c := c + 1;
        }
        r := r + 1;
      }
    }

    method NewLine()
      requires Shaped() && Mirrored() && row < ROWS
      modifies text, attr, devText, devAttr, this`row, this`col
      ensures View() == Newline(old(View())) && Mirrored()
    {
      col := 0;
      row := row + 1;
      if row >= ROWS {
        Scroll();
      }
    }

    /** One cell, and the words that hold it. */
    method WriteCell(r: u32, c: u32, ch: u8)
      requires Shaped() && Mirrored() && r < ROWS && c < COLS
      modifies text, attr, devText, devAttr
      ensures text[..] == old(text[..])[Cell(r, c) := ch] && attr[..] == old(attr[..])[Cell(r, c) := pen]
      ensures Mirrored()
    {
      var cell := r * COLS + c;
      StoreCell(cell, ch);
      WriteWord(cell / 4);
    }

    method StoreCell(cell: nat, ch: u8)
      requires Shaped() && Mirrored() && cell < CELLS
      modifies text, attr
      ensures text[..] == old(text[..])[cell := ch] && attr[..] == old(attr[..])[cell := pen]
      ensures Clean(cell, cell + 1)
    {
      text[cell] := ch;
      attr[cell] := pen;
    }

    /** Blanks in the cells from lo up to hi, when the cells from a up to b may be ahead
        of the display. */
    method BlankCells(lo: nat, hi: nat, ghost a: int, ghost b: int)
      requires Shaped() && a <= lo <= hi <= b && hi <= CELLS && Clean(a, b)
      modifies text, attr
      ensures Clean(a, b)
      ensures forall k :: 0 <= k < CELLS ==>
                && text[k] == (if lo <= k < hi then 32 else old(text[k]))
                && attr[k] == (if lo <= k < hi then pen else old(attr[k]))
    {
      var cell := lo;
      while cell < hi
        invariant lo <= cell <= hi
        invariant forall k :: 0 <= k < CELLS ==>
                    && text[k] == (if lo <= k < cell then 32 else old(text[k]))
                    && attr[k] == (if lo <= k < cell then pen else old(attr[k]))
      {
        text[cell] := 32;
        attr[cell] := pen;
        cell := cell + 1;
      }
    }

    method ClearCellRange(start: nat, end: nat)
      requires Shaped() && Mirrored()
      modifies text, attr, devText, devAttr
      ensures View() == ClearRange(old(View()), start, end) && Mirrored()
    {
      var stop := if end > CELLS then CELLS else end;
      if start < CELLS && start < stop {
        BlankCells(start, stop, start, stop);
        WriteWords(start / 4, (stop - 1) / 4, start, stop);
      }
      assert text[..] == Filled(old(text[..]), start, end, 32) && attr[..] == Filled(old(attr[..]), start, end, pen);
    }

    method RewriteRowWords(r: u32, start: u32, end: u32)
      requires Shaped() && (r < ROWS ==> Clean(Cell(r, start), Cell(r, Min(end, COLS)))) && (r >= ROWS ==> Mirrored())
      modifies devText, devAttr
      ensures r < ROWS && start < COLS ==> Mirrored()
      ensures r >= ROWS || start >= COLS ==> devText[..] == old(devText[..]) && devAttr[..] == old(devAttr[..])
    {
      if r >= ROWS || start >= COLS {
        return;
      }
      var stop := if end > COLS then COLS else end;
      if start >= stop {
        return;
      }
      WriteWords(Cell(r, start) / 4, Cell(r, stop - 1) / 4, Cell(r, start), Cell(r, stop));
    }

    /** ICH: the row's tail shifted right in place, last cell first. */
    method InsertCells(n: u32)
      requires Shaped() && Mirrored()
      modifies text, attr, devText, devAttr
      ensures View() == Insert(old(View()), n) && Mirrored()
    {
      if row >= ROWS || col >= COLS {
        return;
      }
      var k: nat := if n == 0 then 1 else n;
      if k > COLS - col {
        k := COLS - col;
      }
      ShiftRight(k);
      BlankCells(Cell(row, col), Cell(row, col + k), Cell(row, col), Cell(row, COLS));
      InsertedCells(old(text[..]), text[..], row, col, k, 32);
      InsertedCells(old(attr[..]), attr[..], row, col, k, pen);
      RewriteRowWords(row, col, COLS);
    }

    method ShiftRight(k: nat)
      requires Shaped() && Mirrored() && row < ROWS && 1 <= k <= COLS - col
      modifies text, attr
      ensures Clean(Cell(row, col), Cell(row, COLS))
      ensures forall i :: 0 <= i < CELLS ==>
                && text[i] == old(text[if Cell(row, col + k) <= i < Cell(row, COLS) then i - k else i])
                && attr[i] == old(attr[if Cell(row, col + k) <= i < Cell(row, COLS) then i - k else i])
    {
      var base := Cell(row, 0);
      var dst := 239;
      while dst >= col + k
        invariant col + k - 1 <= dst <= 239
        invariant forall i :: 0 <= i <= base + dst || base + COLS <= i < CELLS ==>
                    text[i] == old(text[i]) && attr[i] == old(attr[i])
        invariant forall i :: base + dst < i < base + COLS ==>
                    text[i] == old(text[i - k]) && attr[i] == old(attr[i - k])
      {
        text[base + dst] := text[base + dst - k];
        attr[base + dst] := attr[base + dst - k];
        dst := dst - 1;
      }
    }

    /** DCH: the row's tail shifted left in place, first cell first. */
    method DeleteCells(n: u32)
      requires Shaped() && Mirrored()
      modifies text, attr, devText, devAttr
      ensures View() == Delete(old(View()), n) && Mirrored()
    {
      if row >= ROWS || col >= COLS {
        return;
      }
      var k: nat := if n == 0 then 1 else n;
      if k > COLS - col {
        k := COLS - col;
      }
      ShiftLeft(k);
      BlankCells(Cell(row, COLS - k), Cell(row, COLS), Cell(row, col), Cell(row, COLS));
      DeletedCells(old(text[..]), text[..], row, col, k, 32);
      DeletedCells(old(attr[..]), attr[..], row, col, k, pen);
      RewriteRowWords(row, col, COLS);
    }

    method ShiftLeft(k: nat)
      requires Shaped() && Mirrored() && row < ROWS && 1 <= k <= COLS - col
      modifies text, attr
      ensures Clean(Cell(row, col), Cell(row, COLS))
      ensures forall i :: 0 <= i < CELLS ==>
                && text[i] == old(text[if Cell(row, col) <= i < Cell(row, COLS - k) then i + k else i])
                && attr[i] == old(attr[if Cell(row, col) <= i < Cell(row, COLS - k) then i + k else i])
    {
      var base := Cell(row, 0);
      var dst: nat := col;
      while dst + k < COLS
        invariant col <= dst <= COLS - k
        invariant forall i :: 0 <= i < base + col || base + dst <= i < CELLS ==>
                    text[i] == old(text[i]) && attr[i] == old(attr[i])
        invariant forall i :: base + col <= i < base + dst ==>
                    text[i] == old(text[i + k]) && attr[i] == old(attr[i + k])
      {
        text[base + dst] := text[base + dst + k];
        attr[base + dst] := attr[base + dst + k];
        dst := dst + 1;
      }
    }

    method EraseCells(n: u32)
      requires Shaped() && Mirrored()
      modifies text, attr, devText, devAttr
      ensures View() == Erase(old(View()), n) && Mirrored()
    {
      hide ClearRange, Mirrored;
      if row >= ROWS || col >= COLS {
        return;
      }
      var k: u32 := if n == 0 then 1 else n;
      var end := W(col + k);
      if end > COLS {
        end := COLS;
      }
      ClearCellRange(Cell(row, col), Cell(row, end));
    }

    method MoveCursor(r: u32, c: u32)
      modifies this`row, this`col
      ensures View() == SetCursor(old(View()), r, c)
    {
      row, col := r, c;
      if row >= ROWS {
        row := ROWS - 1;
      }
      if col >= COLS {
        col := 239;
      }
    }

    method Parameter(i: nat, default: u32) returns (v: u32)
      requires Shaped() && count <= 4
      ensures v == ParamOr(View(), i, default)
    {
      if i >= count {
        return default;
      }
      if params[i] == 0 {
        return default;
      }
      return params[i];
    }

    method Push()
      requires Shaped()
      modifies params, this`count, this`value, this`have
      ensures View() == PushParam(old(View()))
    {
      if count < 4 {
        params[count] := if have then value else 0;
        count := count + 1;
      }
      value := 0;
      have := false;
    }

    method Reset()
      requires Shaped()
      modifies params, this`count, this`value, this`have
      ensures View() == old(View()).(params := [0, 0, 0, 0], count := 0, value := 0, have := false)
    {
      var i := 0;
      while i < 4
        invariant 0 <= i <= 4
        invariant forall k :: 0 <= k < i ==> params[k] == 0
      {
        params[i] := 0;
        i := i + 1;
      }
      count, value, have := 0, 0, false;
      assert params[..] == [0, 0, 0, 0];
    }

    method ApplySgr()
      requires Shaped() && count <= 4 && pen < 16
      modifies this`pen
      ensures View() == Sgr(old(View()))
    {
      var bright := false;
      if count == 0 {
        pen := 7;
        return;
      }
      var i := 0;
      while i < count
        invariant 0 <= i <= count && pen < 16
        invariant (pen, bright) == SgrAfter(old(View()), i)
      {
        var p := params[i];
        if p == 0 {
          pen, bright := 7, false;
        } else if p == 1 {
          bright := true;
          pen := pen % 8 + 8;
        } else if p == 22 {
          bright := false;
          pen := With(pen, 8, false) % 0x100;
        } else if p == 39 {
          pen := 7;
        } else {
          var color := SgrColor(p);
          if color >= 0 {
            if bright && color < 8 {
              color := color + 8;
            }
            pen := color;
          }
        }
        PenKeeps(SgrAfter(old(View()), i).0, SgrAfter(old(View()), i).1, p);
        i := i + 1;
      }
    }

    method ApplyCsi(ch: u32)
      requires Valid()
      modifies this`row, this`col, this`pen, this`esc, text, attr, devText, devAttr
      ensures View() == Apply(old(View()), ch) && Mirrored()
    {
      var n := Parameter(0, 1);
      if ch == 0x40 {
        InsertCells(n);
      } else if ch == 0x4A {
        EraseDisplay();
      } else if ch == 0x4B {
        EraseLine();
      } else if ch == 0x58 {
        EraseCells(n);
      } else if ch == 0x50 {
        DeleteCells(n);
      } else if ch == 0x6D {
        ApplySgr();
      } else {
        Move(ch, n);
      }
    }

    method EraseDisplay()
      requires Valid()
      modifies this`row, this`col, this`pen, this`esc, text, attr, devText, devAttr
      ensures View() == Apply(old(View()), 0x4A) && Mirrored()
    {
      var p0: u32 := if count > 0 then params[0] else 0;
      if p0 == 2 || p0 == 3 {
        ClearShadow();
        Repaint();
      } else if p0 == 1 {
        ClearCellRange(0, Cell(row, col) + 1);
      } else {
        ClearCellRange(Cell(row, col), CELLS);
      }
    }

    method EraseLine()
      requires Valid()
      modifies text, attr, devText, devAttr
      ensures View() == Apply(old(View()), 0x4B) && Mirrored()
    {
      var p0: u32 := if count > 0 then params[0] else 0;
      if p0 == 2 {
        ClearCellRange(Cell(row, 0), Cell(row, 0) + COLS);
      } else if p0 == 1 {
        ClearCellRange(Cell(row, 0), Cell(row, col) + 1);
      } else {
        ClearCellRange(Cell(row, col), Cell(row, 239) + 1);
      }
    }

    /** The cursor movements: the final bytes that touch no cell. */
    method Move(ch: u32, n: u32)
      requires Valid() && ch !in {0x40, 0x4A, 0x4B, 0x58, 0x50, 0x6D} && n == ParamOr(View(), 0, 1)
      modifies this`row, this`col
      ensures View() == Apply(old(View()), ch)
    {
      if ch == 0x48 || ch == 0x66 {
        var m := Parameter(1, 1);
        MoveCursor(n - 1, m - 1);
      } else if ch == 0x47 {
        MoveCursor(row, n - 1);
      } else if ch == 0x41 {
        row := if n > row then 0 else row - n;
      } else if ch == 0x42 {
        MoveCursor(W(row + n), col);
      } else if ch == 0x45 {
        MoveCursor(W(row + n), 0);
      } else if ch == 0x46 {
        MoveCursor(if n > row then 0 else row - n, 0);
      } else if ch == 0x43 {
        MoveCursor(row, W(col + n));
      } else if ch == 0x44 {
        col := if n > col then 0 else col - n;
      } else if ch == 0x64 {
        MoveCursor(n - 1, col);
      }
    }

    /** Whether the escape-sequence parser took the byte. */
    method ConsumeAnsi(ch: u32) returns (taken: bool)
      requires Valid()
      modifies this, text, attr, devText, devAttr, params
      ensures Mirrored() && taken == (old(esc) != Plain || ch == 0x1B)
      ensures View() == if taken then Feed(old(View()), ch) else old(View())
    {
      if esc == Plain {
        if ch == 0x1B {
          esc := Esc;
          return true;
        }
        return false;
      }
      if esc == Esc {
        if ch == 0x5B {
          Reset();
          esc := Csi;
        } else if ch == 0x1B {
          esc := Esc;
        } else {
          esc := Plain;
        }
        return true;
      }
      CsiByte(ch);
      return true;
    }

    method CsiByte(ch: u32)
      requires Valid() && esc == Csi
      modifies this, text, attr, devText, devAttr, params
      ensures Mirrored() && View() == Sequence(old(View()), ch)
    {
      if 0x30 <= ch <= 0x39 {
        value := W(value * 10 + (ch - 0x30));
        have := true;
      } else if ch == 0x3B {
        Push();
      } else if ch == 0x3F || ch == 0x20 || ch == 0x3D {
      } else if 0x40 <= ch <= 0x7E {
        if have || count == 0 {
          Push();
        }
        ApplyCsi(ch);
        esc := Plain;
      } else {
        esc := Plain;
      }
    }

    /** One byte: the screen becomes what Feed says, and the display shows it. */
    method Putc1(ch: u32)
      requires Valid()
      modifies this, text, attr, devText, devAttr, params
      ensures Valid() && View() == Feed(old(View()), ch)
      decreases ch == 9
    {
      FeedKeeps(View(), ch);
      var taken := ConsumeAnsi(ch);
      if taken {
      } else if ch == 13 {
        col := 0;
      } else if ch == 10 {
        NewLine();
      } else if ch == 9 {
        PutTab();
      } else if ch == 8 || ch == 127 {
        if col > 0 {
          col := col - 1;
          WriteCell(row, col, 32);
        }
      } else {
        PutPrinted(ch);
      }
    }

    /** The do-while of the tab, which re-enters the console with a blank. */
    method PutTab()
      requires Valid() && esc == Plain
      modifies this, text, attr, devText, devAttr, params
      ensures Valid() && View() == Tab(old(View()))
      decreases true, 0
    {
      hide Feed, Tab, Print, Term.Valid;
      BlankStep(View());
      Putc1(32);
      while col % 8 != 0
        invariant Valid() && esc == Plain
        invariant Tab(old(View())) == if col % 8 != 0 then Tab(View()) else View()
        decreases Remaining(col)
      {
        BlankStep(View());
        Putc1(32);
      }
    }

    method PutPrinted(ch: u32)
      requires Valid() && esc == Plain
      modifies this`row, this`col, text, attr, devText, devAttr
      ensures Mirrored() && View() == Print(old(View()), ch)
    {
      var shown: u8 := if ch < 32 || ch > 126 then 46 else ch;
      WriteCell(row, col, shown);
      col := col + 1;
      if col >= COLS {
        NewLine();
      }
    }

    /** After any stream of bytes the screen is the one Shown gives, the cursor is on the
        grid, and the display agrees with the shadow. */
    method Puts(bytes: seq<u32>)
      requires Valid()
      modifies this, text, attr, devText, devAttr, params
      ensures Valid() && View() == Shown(old(View()), bytes)
    {
      var i := 0;
      while i < |bytes|
        invariant 0 <= i <= |bytes|
        invariant Valid() && View() == Shown(old(View()), bytes[..i])
      {
        Putc1(bytes[i]);
        assert bytes[..i + 1][..|bytes[..i + 1]| - 1] == bytes[..i];
        i := i + 1;
      }
      assert bytes[..i] == bytes;
    }
  }

  /** Cells shifted right by k, and k blanks at the cursor, are the row function's. */
  lemma InsertedCells(was: seq<u8>, now: seq<u8>, row: nat, col: nat, k: nat, v: u8)
    requires |was| == CELLS == |now| && row < ROWS && col + k <= COLS
    requires forall i :: 0 <= i < CELLS ==>
               now[i] == if Cell(row, col) <= i < Cell(row, col + k) then v
                         else was[if Cell(row, col + k) <= i < Cell(row, COLS) then i - k else i]
    ensures now == Inserted(was, row, col, k, v)
  {
    var z := Inserted(was, row, col, k, v);
    forall i | 0 <= i < CELLS ensures now[i] == z[i] {
    }
  }

  lemma DeletedCells(was: seq<u8>, now: seq<u8>, row: nat, col: nat, k: nat, v: u8)
    requires |was| == CELLS == |now| && row < ROWS && col + k <= COLS
    requires forall i :: 0 <= i < CELLS ==>
               now[i] == if Cell(row, COLS - k) <= i < Cell(row, COLS) then v
                         else was[if Cell(row, col) <= i < Cell(row, COLS - k) then i + k else i]
    ensures now == Deleted(was, row, col, k, v)
  {
    var z := Deleted(was, row, col, k, v);
    forall i | 0 <= i < CELLS ensures now[i] == z[i] {
    }
  }
}
