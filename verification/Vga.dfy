/** The screen driver: 4000 bytes of text memory changed in place, cursor and
    attribute (kernel/src/drivers/vga.c). */
module Vga {
  import opened Arithmetic
  import opened Ascii
  import opened Machine
  import opened LibcString
  import opened Terminal
  import opened Numerals

  /** The cells of a little-endian memory. */
  function Words(bytes: seq<bv8>): (cells: seq<Cell>)
    ensures |cells| == |bytes| / 2
  {
    seq(|bytes| / 2, k requires 0 <= k < |bytes| / 2 => Cell(bytes[2 * k], bytes[2 * k + 1]))
  }

  function Low(w: bv16): bv8 {
    (w & 0xFF) as bv8
  }

  function High(w: bv16): bv8 {
    (w >> 8) as bv8
  }

  /** A 16-bit value stored as a cell. */
  function CellOf(w: bv16): Cell {
    Cell(Low(w), High(w))
  }

  /** The value `vga_put` and `vga_scroll` store. */
  function Word(c: bv8, attr: bv8): bv16 {
    (c as bv16) | ((attr as bv16) << 8)
  }

  lemma WordIsCell(c: bv8, attr: bv8)
    ensures CellOf(Word(c, attr)) == Cell(c, attr)
  {
  }

  /** `(uint8_t)((fg & 0x0F) | (bg << 4))`. */
  function Attribute(fg: bv32, bg: bv32): bv8 {
    (((fg & 0x0F) | (bg << 4)) & 0xFF) as bv8
  }

  /** The attribute holds the low four bits of each color, the foreground's below. */
  lemma AttributeFields(fg: bv32, bg: bv32)
    ensures (Attribute(fg, bg) & 0x0F) as bv32 == fg & 0x0F
    ensures (Attribute(fg, bg) >> 4) as bv32 == bg & 0x0F
  {
  }

  /** The value `vga_clear` stores: the attribute is not shifted into the high byte. */
  function ClearWord(attr: bv8): bv16 {
    0x20 | (attr as bv16)
  }

  function ClearedScreen(attr: bv8): (s: Screen)
    ensures s.Valid()
  {
    Screen(seq(CELLS, _ => CellOf(ClearWord(attr))), 0, 0, attr)
  }

  /** Clearing gives blanks in the current attribute only if the attribute is 0, and
      shows no glyph only if it has no bit but that of a space. */
  lemma ClearIsBlankIff(attr: bv8)
    ensures CellOf(ClearWord(attr)) == Cell(SPACE, attr) <==> attr == 0
    ensures CellOf(ClearWord(attr)).character == SPACE <==> attr & !SPACE == 0
    ensures CellOf(ClearWord(attr)).attr == 0
  {
  }

  /** In light grey on black, the color `Init` selects, a cleared cell is not a
      space: it is the character 0x27 in black on black. */
  lemma ClearInInitColor()
    ensures CellOf(ClearWord(Attribute(7, 0))) == Cell(0x27, 0) != Cell(SPACE, Attribute(7, 0))
  {
  }

  lemma BlankedRow(cells: seq<Cell>, attr: bv8)
    requires |cells| == CELLS
    requires forall k :: CELLS - WIDTH <= k < CELLS ==> cells[k] == Cell(SPACE, attr)
    ensures cells == cells[..CELLS - WIDTH] + BlankRow(attr)
  {
  }

  /** Copying all but the first row's bytes to the front moves every cell up by a row. */
  lemma CopiedRows(bytes: seq<bv8>)
    requires |bytes| == 2 * CELLS
    ensures var n := 2 * (CELLS - WIDTH);
            var copied := ForwardCopy(bytes, 0, 2 * WIDTH, n);
            Words(copied)[..CELLS - WIDTH] == Words(bytes)[WIDTH..]
  {
    CopyIsSnapshot(bytes, 0, 2 * WIDTH, 2 * (CELLS - WIDTH));
  }

  lemma WordsInjective(a: seq<bv8>, b: seq<bv8>)
    requires |a| == |b| && |a| % 2 == 0 && Words(a) == Words(b)
    ensures a == b
  {
    forall i | 0 <= i < |a| ensures a[i] == b[i] {
      assert Words(a)[i / 2] == Words(b)[i / 2];
    }
  }

  /** The bytes of a blank row. */
  function BlankBytes(attr: bv8): (row: seq<bv8>)
    ensures |row| == 160
    ensures forall k :: 0 <= k < 80 ==> row[2 * k] == 0x20 && row[2 * k + 1] == attr
  {
    seq(160, i => if i % 2 == 0 then SPACE else attr)
  }

  lemma ScrollInBytes(bytes: seq<bv8>, x: nat, attr: bv8, after: seq<bv8>)
    requires |bytes| == |after| == 4000 && x < 80
    requires Words(after) == ScrollUp(Screen(Words(bytes), x, 25, attr)).cells
    ensures after == bytes[160..] + BlankBytes(attr)
  {
    var expected := bytes[160..] + BlankBytes(attr);
    assert Words(expected) == Words(bytes)[80..] + BlankRow(attr);
    WordsInjective(after, expected);
  }

  /** A byte put on the screen, in bytes of the memory: a printable one is stored with
      the attribute after it, and when the cursor goes down from the last row, every row
      moves up and a blank one comes in. */
  lemma PutInBytes(bytes: seq<bv8>, x: nat, y: nat, attr: bv8, c: bv8, after: seq<bv8>)
    requires |bytes| == |after| == 4000 && x < 80 && y < 25
    requires Words(after) == Terminal.Put(Screen(Words(bytes), x, y, attr), c).cells
    ensures var p := 2 * (80 * y + x);
            var written := if c >= 0x20 then bytes[p := c][p + 1 := attr] else bytes;
            var down := c == 0x0A || (c == 0x09 && x >= 72) || (c >= 0x20 && x == 79);
            after == if down && y == 24 then written[160..] + BlankBytes(attr) else written
  {
    var s := Screen(Words(bytes), x, y, attr);
    var p := 2 * (80 * y + x);
    var written := if c >= 0x20 then bytes[p := c][p + 1 := attr] else bytes;
    assert Words(written) == Terminal.Type(s, c).cells;
    if Terminal.Type(s, c).y == 25 {
      ScrollInBytes(written, Terminal.Type(s, c).x, attr, after);
    } else {
      WordsInjective(after, written);
    }
  }

  /** The cursor after a byte: backspace 0x08, tab 0x09, line feed 0x0A, return 0x0D,
      and the bytes from 0x20 on; no other byte moves it. */
  lemma PutMovesCursor(s: Screen, c: bv8)
    requires s.Valid()
    ensures var down := c == 0x0A || (c == 0x09 && s.x >= 72) || (c >= 0x20 && s.x == 79);
            && Terminal.Put(s, c).y == (if !down then s.y else if s.y < 24 then s.y + 1 else 24)
            && Terminal.Put(s, c).x
            == if down || c == 0x0D then 0
               else if c == 0x08 then if s.x == 0 then 0 else s.x - 1
               else if c == 0x09 then 8 * (s.x / 8 + 1)
               else if c >= 0x20 then s.x + 1
               else s.x
  {
  }

  lemma ClearedBytes(attr: bv8)
    ensures CellOf(ClearWord(attr)) == Cell(0x20 | attr, 0)
  {
  }

  class TextMode {
    const memory: array<bv8>
    var x: uint8
    var y: uint8
    var attr: bv8
    // The two bytes sent to the cursor registers of the CRT controller.
    var cursorHigh: uint8
    var cursorLow: uint8

    ghost predicate Valid()
      reads this
    {
      memory.Length == 2 * CELLS && x < WIDTH && y < HEIGHT
    }

    ghost predicate CursorShown()
      reads this
    {
      cursorHigh * 0x100 + cursorLow == y * WIDTH + x
    }

    ghost function View(): Screen
      reads this, memory
    {
      Screen(Words(memory[..]), x, y, attr)
    }

    /** The static data before `Init`; the memory holds anything. */
    constructor (memory: array<bv8>)
      requires memory.Length == 2 * CELLS
      ensures this.memory == memory && Valid() && x == y == 0 && attr == 0
    {
      this.memory := memory;
      x, y, attr := 0, 0, 0;
      cursorHigh, cursorLow := 0, 0;
    }

    method StoreWord(k: nat, w: bv16)
      requires 2 * k + 1 < memory.Length
      modifies memory
      ensures Words(memory[..]) == Words(old(memory[..]))[k := CellOf(w)]
    {
      memory[2 * k] := Low(w);
      memory[2 * k + 1] := High(w);
    }

    method Scroll()
      requires memory.Length == 2 * CELLS && x < WIDTH && y <= HEIGHT
      modifies memory, `y
      ensures View() == ScrollUp(old(View()))
      ensures old(y) < 25 ==> memory[..] == old(memory[..]) && y == old(y)
      ensures old(y) == 25 ==> memory[..] == old(memory[..])[160..] + BlankBytes(attr) && y == 24
    {
      var blank := Word(SPACE, attr);
      WordIsCell(SPACE, attr);
      if y >= HEIGHT {
        var temp := y - HEIGHT + 1;
        ghost var before := memory[..];
        Memcpy(memory, 0, temp * WIDTH * 2, (HEIGHT - temp) * WIDTH * 2);
        CopiedRows(before);
        for i := 0 to WIDTH
          invariant Words(memory[..])[..CELLS - WIDTH] == Words(before)[WIDTH..]
          invariant forall k :: CELLS - WIDTH <= k < CELLS - WIDTH + i ==> Words(memory[..])[k] == CellOf(blank)
        {
          StoreWord((HEIGHT - temp) * WIDTH + i, blank);
        }
        BlankedRow(Words(memory[..]), attr);
        y := HEIGHT - 1;
        ScrollInBytes(before, x, attr, memory[..]);
      }
    }

    method MoveCursor()
      requires x < WIDTH && y < HEIGHT
      modifies `cursorHigh, `cursorLow
      ensures CursorShown()
      ensures 0x100 * cursorHigh + cursorLow == 80 * y + x
    {
      var temp := y * WIDTH + x;
      cursorHigh := (temp / 0x100) % 0x100;
      cursorLow := temp % 0x100;
    }

    method SetColor(fg: bv32, bg: bv32)
      requires Valid()
      modifies `attr
      ensures Valid()
      ensures View() == Do(old(View()), Color(Attribute(fg, bg)))
      ensures attr == Attribute(fg, bg)
    {
      attr := Attribute(fg, bg);
    }

    method Clear()
      requires memory.Length == 2 * CELLS
      modifies memory, `x, `y, `cursorHigh, `cursorLow
      ensures Valid() && CursorShown()
      ensures View() == ClearedScreen(old(attr))
      ensures x == y == cursorHigh == cursorLow == 0
      ensures forall k :: 0 <= k < 2000 ==> memory[2 * k] == 0x20 | attr && memory[2 * k + 1] == 0
    {
      for i := 0 to HEIGHT
        invariant forall k :: 0 <= k < i * WIDTH ==> Words(memory[..])[k] == CellOf(ClearWord(attr))
      {
        for j := 0 to WIDTH
          invariant forall k :: 0 <= k < i * WIDTH + j ==> Words(memory[..])[k] == CellOf(ClearWord(attr))
        {
          StoreWord(i * WIDTH + j, ClearWord(attr));
        }
      }
      assert Words(memory[..]) == ClearedScreen(attr).cells;
      x := 0;
      y := 0;
      MoveCursor();
      ClearedBytes(attr);
      forall k | 0 <= k < 2000 ensures memory[2 * k] == 0x20 | attr && memory[2 * k + 1] == 0 {
        assert Words(memory[..])[k] == Cell(0x20 | attr, 0);
      }
    }

    /** The first part of `vga_put`: cell and cursor, up to the row below the last. */
    method Type(c: bv8)
      requires Valid()
      modifies memory, `x, `y
      ensures memory.Length == 2 * CELLS
      ensures View() == Terminal.Type(old(View()), c)
    {
      ghost var s := View();
      if c == BACKSPACE {
        if x != 0 {
          x := x - 1;
        }
      } else if c == TAB {
        x := (x + 8) / 8 * 8;
      } else if c == CR {
        x := 0;
      } else if c == LF {
        x := 0;
        y := y + 1;
      } else if c >= SPACE {
        StoreWord(y * WIDTH + x, Word(c, attr));
        WordIsCell(c, attr);
        x := x + 1;
      }
      assert Words(memory[..]) == if c >= SPACE then s.cells[s.Position() := Cell(c, s.attr)] else s.cells;
      if x >= WIDTH {
        x := 0;
        y := y + 1;
      }
    }

    method Put(c: bv8)
      requires Valid()
      modifies memory, `x, `y, `cursorHigh, `cursorLow
      ensures Valid() && CursorShown()
      ensures View() == Terminal.Put(old(View()), c)
      ensures var p := 2 * (80 * old(y) + old(x));
              var written := if c >= 0x20 then old(memory[..])[p := c][p + 1 := attr] else old(memory[..]);
              var down := c == 0x0A || (c == 0x09 && old(x) >= 72) || (c >= 0x20 && old(x) == 79);
              memory[..] == if down && old(y) == 24 then written[160..] + BlankBytes(attr) else written
      ensures var down := c == 0x0A || (c == 0x09 && old(x) >= 72) || (c >= 0x20 && old(x) == 79);
              && y == (if !down then old(y) else if old(y) < 24 then old(y) + 1 else 24)
              && x == if down || c == 0x0D then 0
                      else if c == 0x08 then if old(x) == 0 then 0 else old(x) - 1
                      else if c == 0x09 then 8 * (old(x) / 8 + 1)
                      else if c >= 0x20 then old(x) + 1
                      else old(x)
      ensures 0x100 * cursorHigh + cursorLow == 80 * y + x
    {
      ghost var before, s := memory[..], View();
      Type(c);
      Scroll();
      MoveCursor();
      PutInBytes(before, s.x, s.y, attr, c, memory[..]);
      PutMovesCursor(s, c);
    }

    method WriteNb(nb: uint32, base: uint8)
      requires Valid() && CanPrint(nb, base)
      modifies memory, `x, `y, `cursorHigh, `cursorLow
      ensures Valid() && CursorShown()
      ensures View() == PutAll(old(View()), Digits(nb, base))
      decreases nb
    {
      ghost var front := if nb > base then Digits(nb / base, base) else [];
      PutAfter(View(), front, DIGITS[nb % base]);
      if nb > base {
        DivSmaller(nb, base);
        WriteNb(nb / base, base);
      }
      Put(DIGITS[nb % base]);
    }

    method WriteNbSigned(nb: int32, base: uint8)
      requires Valid() && base == 10
      requires nb != INT32_MIN  // the negation overflows there
      modifies memory, `x, `y, `cursorHigh, `cursorLow
      ensures Valid() && CursorShown()
      ensures View() == PutAll(old(View()), SignedDigits(nb))
    {
      ghost var start := View();
      ghost var digits := Digits(Magnitude(nb), 10);
      ghost var sign: seq<bv8> := if nb < 0 then [MINUS] else [];
      assert SignedDigits(nb) == sign + digits;
      PutAllConcat(start, sign, digits);
      var magnitude: int := nb;
      if nb < 0 {
        PutAfter(start, [], MINUS);
        assert [] + [MINUS] == sign;
        Put(MINUS);
        magnitude := magnitude * -1;
      }
      assert View() == PutAll(start, sign);
      WriteNb(magnitude, base);
    }

    method Init()
      requires memory.Length == 2 * CELLS
      modifies memory, `x, `y, `attr, `cursorHigh, `cursorLow
      ensures Valid() && CursorShown()
      ensures View() == ClearedScreen(old(attr)).(attr := 0x07)
      ensures x == y == cursorHigh == cursorLow == 0 && attr == 0x07
      ensures forall k :: 0 <= k < 2000 ==> memory[2 * k] == 0x20 | old(attr) && memory[2 * k + 1] == 0
    {
      Clear();
      SetColor(7, 0);
      assert Attribute(7, 0) == 0x07;
    }

    method WriteStr(str: seq<bv8>)
      requires Valid() && IsCString(str)
      modifies memory, `x, `y, `cursorHigh, `cursorLow
      ensures Valid() && (old(CursorShown()) ==> CursorShown())
      ensures View() == PutAll(old(View()), Text(str))
    {
      var i := 0;
      while str[i] != 0
        invariant 0 <= i <= StrLen(str)
        invariant Valid() && (old(CursorShown()) ==> CursorShown())
        invariant View() == PutAll(old(View()), str[..i])
        decreases StrLen(str) - i
      {
        PutAfter(old(View()), str[..i], str[i]);
        assert str[..i + 1] == str[..i] + [str[i]];
        Put(str[i]);
        i := i + 1;
      }
    }
  }
}
