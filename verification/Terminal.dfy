/** The text screen as a value, its step for one byte, and the unbounded terminal
    it is a window on (kernel/src/drivers/vga.c). */
module Terminal {
  import opened Arithmetic
  import opened Ascii

  const WIDTH: nat := 80
  const HEIGHT: nat := 25
  const CELLS: nat := HEIGHT * WIDTH

  /** A 16-bit cell: the character in the low byte, its attribute in the high one. */
  datatype Cell = Cell(character: bv8, attr: bv8)

  function BlankRow(attr: bv8): (row: seq<Cell>)
    ensures |row| == WIDTH
  {
    seq(WIDTH, _ => Cell(SPACE, attr))
  }

  // The fixed screen

  datatype Screen = Screen(cells: seq<Cell>, x: nat, y: nat, attr: bv8) {

    predicate Valid() {
      |cells| == CELLS && x < WIDTH && y < HEIGHT
    }

    function Position(): nat {
      y * WIDTH + x
    }
  }

  /** `(x + 8) & ~(8 - 1)`; see `TabStopIsMask`. */
  function TabStop(x: nat): nat {
    (x + 8) / 8 * 8
  }

  /** Clearing the low three bits is rounding down to a multiple of eight. */
  lemma TabStopIsMask(x: bv8)
    requires x < 80
    ensures (x + 8) & !7 == (x + 8) / 8 * 8
  {
  }

  /** The effect of a byte on cell and cursor, before any scrolling: the cursor
      may come to stand one row below the screen. */
  function Type(s: Screen, c: bv8): (r: Screen)
    requires s.Valid()
    ensures |r.cells| == CELLS && r.x < WIDTH && r.y <= HEIGHT && r.attr == s.attr
  {
    var r :=
      if c == BACKSPACE then if s.x != 0 then s.(x := s.x - 1) else s
      else if c == TAB then s.(x := TabStop(s.x))
      else if c == CR then s.(x := 0)
      else if c == LF then s.(x := 0, y := s.y + 1)
      else if c >= SPACE then s.(cells := s.cells[s.Position() := Cell(c, s.attr)], x := s.x + 1)
      else s;
    if r.x >= WIDTH then r.(x := 0, y := r.y + 1) else r
  }

  /** Rows move up by one and a blank row in the current attribute comes in below. */
  function ScrollUp(s: Screen): (r: Screen)
    requires |s.cells| == CELLS && s.x < WIDTH && s.y <= HEIGHT
    ensures r.Valid()
  {
    if s.y < HEIGHT then s
    else s.(cells := s.cells[WIDTH..] + BlankRow(s.attr), y := HEIGHT - 1)
  }

  function Put(s: Screen, c: bv8): (r: Screen)
    requires s.Valid()
    ensures r.Valid()
  {
    ScrollUp(Type(s, c))
  }

  predicate Scrolls(s: Screen, c: bv8)
    requires s.Valid()
  {
    Type(s, c).y == HEIGHT
  }

  function PutAll(s: Screen, text: seq<bv8>): (r: Screen)
    requires s.Valid()
    ensures r.Valid()
  {
    if text == [] then s else Put(PutAll(s, text[..|text| - 1]), text[|text| - 1])
  }

  function ScrollCount(s: Screen, text: seq<bv8>): nat
    requires s.Valid()
  {
    if text == [] then 0 else
      var before := text[..|text| - 1];
      ScrollCount(s, before) + if Scrolls(PutAll(s, before), text[|text| - 1]) then 1 else 0
  }

  lemma PutAfter(s: Screen, text: seq<bv8>, c: bv8)
    requires s.Valid()
    ensures PutAll(s, text + [c]) == Put(PutAll(s, text), c)
  {
    assert (text + [c])[..|text|] == text;
  }

  lemma PutOne(s: Screen, c: bv8)
    requires s.Valid()
    ensures PutAll(s, [c]) == Put(s, c)
  {
    PutAfter(s, [], c);
    assert [] + [c] == [c];
  }

  lemma {:induction false} PutAllConcat(s: Screen, a: seq<bv8>, b: seq<bv8>)
    requires s.Valid()
    ensures PutAll(s, a + b) == PutAll(PutAll(s, a), b)
    decreases |b|
  {
    if b == [] {
      assert a + b == a;
    } else {
      PutAllConcat(s, a, b[..|b| - 1]);
      assert (a + b)[..|a + b| - 1] == a + b[..|b| - 1];
    }
  }

  // The unbounded terminal

  /** A tape of cells that only grows, and a position on it. It has no rows to wrap
      at, no last row and no scrolling: a printed byte goes to the next cell. */
  datatype Tape = Tape(cells: seq<Cell>, position: nat, attr: bv8)

  function Move(t: Tape, c: bv8): (p: nat) {
    if c == BACKSPACE then if t.position % WIDTH == 0 then t.position else t.position - 1
    else if c == TAB then t.position + 8 - t.position % 8
    else if c == CR then t.position - t.position % WIDTH
    else if c == LF then t.position - t.position % WIDTH + WIDTH
    else if c >= SPACE then t.position + 1
    else t.position
  }

  function Written(t: Tape, c: bv8): seq<Cell>
    requires t.position < |t.cells|
  {
    if c >= SPACE then t.cells[t.position := Cell(c, t.attr)] else t.cells
  }

  function TapePut(t: Tape, c: bv8): Tape
    requires t.position < |t.cells|
  {
    var cells := if Move(t, c) < |t.cells| then Written(t, c) else Written(t, c) + BlankRow(t.attr);
    Tape(cells, Move(t, c), t.attr)
  }

  /** The screen shows the last 25 rows of the tape, with the cursor at its position. */
  predicate Shows(s: Screen, t: Tape) {
    && s.Valid()
    && |t.cells| % WIDTH == 0 && CELLS <= |t.cells|
    && s.cells == t.cells[|t.cells| - CELLS..]
    && s.Position() == t.position - (|t.cells| - CELLS)
    && s.attr == t.attr
  }

  /** A screen is itself a tape on which nothing has scrolled off. */
  lemma ShowsItself(s: Screen)
    requires s.Valid()
    ensures Shows(s, Tape(s.cells, s.Position(), s.attr))
  {
  }

  datatype Event = Byte(c: bv8) | Color(attr: bv8)

  function Do(s: Screen, e: Event): (r: Screen)
    requires s.Valid()
    ensures r.Valid()
  {
    match e
    case Byte(c) => Put(s, c)
    case Color(attr) => s.(attr := attr)
  }

  function DoAll(s: Screen, events: seq<Event>): (r: Screen)
    requires s.Valid()
    ensures r.Valid()
    decreases |events|
  {
    if events == [] then s else DoAll(Do(s, events[0]), events[1..])
  }

  lemma TapeStaysOn(t: Tape, c: bv8)
    requires t.position < |t.cells|
    ensures TapePut(t, c).position < |TapePut(t, c).cells|
  {
  }

  /** The run of the unbounded terminal; every position it reaches is on the tape. */
  function TapeAll(t: Tape, events: seq<Event>): (r: Tape)
    requires t.position < |t.cells|
    decreases |events|
  {
    if events == [] then t else
      match events[0]
      case Byte(c) =>
        TapeStaysOn(t, c);
        TapeAll(TapePut(t, c), events[1..])
      case Color(attr) => TapeAll(t.(attr := attr), events[1..])
  }

  /** Where the cursor comes to stand on the screen is where the tape moves to. */
  lemma CursorFollows(s: Screen, c: bv8, base: nat, t: Tape)
    requires s.Valid() && base % WIDTH == 0
    requires t.position == base + s.Position()
    ensures Type(s, c).Position() == Move(t, c) - base
  {
    var row := base / WIDTH + s.y;
    DivModUnique(t.position, WIDTH, row, s.x);
    assert t.position % 8 == s.x % 8;
  }

  /** The same cell is written on the screen and on the tape. */
  lemma CellFollows(s: Screen, c: bv8, t: Tape)
    requires Shows(s, t)
    ensures Type(s, c).cells == Written(t, c)[|t.cells| - CELLS..]
  {
  }

  lemma DropTwice<T>(a: seq<T>, n: nat, k: nat, b: seq<T>)
    requires n + k <= |a|
    ensures a[n..][k..] + b == (a + b)[n + k..]
  {
  }

  /** One byte: the screen keeps showing the end of the tape. */
  lemma PutRefines(s: Screen, t: Tape, c: bv8)
    requires Shows(s, t)
    ensures Shows(Put(s, c), TapePut(t, c))
  {
    var base := |t.cells| - CELLS;
    CursorFollows(s, c, base, t);
    CellFollows(s, c, t);
    var u := Type(s, c);
    if u.y < HEIGHT {
      assert u.Position() < CELLS;
    } else {
      assert CELLS <= u.Position();
      DropTwice(Written(t, c), base, WIDTH, BlankRow(t.attr));
    }
  }

  /** Any stream of bytes and color changes: the buffer and cursor are the last 25
      rows and the position of the terminal that never scrolls. */
  lemma {:induction false} StreamRefines(s: Screen, t: Tape, events: seq<Event>)
    requires Shows(s, t)
    ensures Shows(DoAll(s, events), TapeAll(t, events))
    decreases |events|
  {
    if events != [] {
      match events[0]
      case Byte(c) =>
        PutRefines(s, t, c);
        StreamRefines(Put(s, c), TapePut(t, c), events[1..]);
      case Color(attr) =>
        StreamRefines(s.(attr := attr), t.(attr := attr), events[1..]);
    }
  }

  /** A byte changes nothing in the rows that have scrolled off. */
  lemma PutKeepsScrolled(s: Screen, t: Tape, c: bv8, k: nat)
    requires Shows(s, t) && k < |t.cells| - CELLS
    ensures |t.cells| <= |TapePut(t, c).cells| && TapePut(t, c).cells[k] == t.cells[k]
  {
    assert k < t.position;
  }

  /** Rows that have scrolled off keep their content whatever is printed after. */
  lemma {:induction false} StreamKeepsScrolled(s: Screen, t: Tape, events: seq<Event>, k: nat)
    requires Shows(s, t) && k < |t.cells| - CELLS
    ensures |t.cells| <= |TapeAll(t, events).cells| && TapeAll(t, events).cells[k] == t.cells[k]
    decreases |events|
  {
    if events != [] {
      match events[0]
      case Byte(c) =>
        PutKeepsScrolled(s, t, c, k);
        PutRefines(s, t, c);
        StreamKeepsScrolled(Put(s, c), TapePut(t, c), events[1..], k);
      case Color(attr) =>
        StreamKeepsScrolled(s.(attr := attr), t.(attr := attr), events[1..], k);
    }
  }

  function Bytes(text: seq<bv8>): (events: seq<Event>)
    ensures |events| == |text|
  {
    seq(|text|, i requires 0 <= i < |text| => Byte(text[i]))
  }

  lemma {:induction false} PutAllIsDoAll(s: Screen, text: seq<bv8>)
    requires s.Valid()
    ensures PutAll(s, text) == DoAll(s, Bytes(text))
    decreases |text|
  {
    if text != [] {
      PutAllConcat(s, text[..1], text[1..]);
      assert text == text[..1] + text[1..];
      assert text[..1][..0] == [];
      assert PutAll(s, text[..1]) == Put(s, text[0]);
      PutAllIsDoAll(Put(s, text[0]), text[1..]);
      assert Bytes(text)[1..] == Bytes(text[1..]);
    }
  }

  /** From a cleared screen on, the tape begins as the 25 cleared rows; after any stream
      the screen holds its last 2000 cells and the cursor is at its position. */
  lemma StreamFromStart(cells: seq<Cell>, attr: bv8, events: seq<Event>)
    requires |cells| == 2000
    ensures var s, t := DoAll(Screen(cells, 0, 0, attr), events), TapeAll(Tape(cells, 0, attr), events);
            && 2000 <= |t.cells| && s.cells == t.cells[|t.cells| - 2000..]
            && s.x < 80 && s.y < 25 && 80 * s.y + s.x == t.position - (|t.cells| - 2000)
            && s.attr == t.attr
  {
    ShowsItself(Screen(cells, 0, 0, attr));
    StreamRefines(Screen(cells, 0, 0, attr), Tape(cells, 0, attr), events);
  }

  // Runs of printable bytes

  predicate Printable(text: seq<bv8>) {
    forall i :: 0 <= i < |text| ==> text[i] >= SPACE
  }

  /** Row and column after `n` printable bytes, with the rows that scrolled off
      counted in, are those of the linear position. */
  lemma {:induction false} PrintableRunPosition(s: Screen, text: seq<bv8>)
    requires s.Valid() && Printable(text)
    ensures PutAll(s, text).Position() + WIDTH * ScrollCount(s, text) == s.Position() + |text|
    ensures 0 < ScrollCount(s, text) ==> PutAll(s, text).y == HEIGHT - 1
    ensures PutAll(s, text).attr == s.attr
    decreases |text|
  {
    if text != [] {
      PrintableRunPosition(s, text[..|text| - 1]);
    }
  }

  lemma RowsOfRun(total: nat, row: nat, gone: nat, column: nat)
    requires total == row * WIDTH + column + WIDTH * gone
    requires column < WIDTH && row < HEIGHT && (0 < gone ==> row == HEIGHT - 1)
    ensures column == total % WIDTH
    ensures row == if total / WIDTH < HEIGHT then total / WIDTH else HEIGHT - 1
    ensures gone == if total / WIDTH < HEIGHT then 0 else total / WIDTH - (HEIGHT - 1)
  {
    DivModUnique(total, WIDTH, row + gone, column);
  }

  /** A run of `n` printable bytes from position `p` ends in column `(p + n) % 80` of
      row `min(24, (p + n) / 80)` after `max(0, (p + n) / 80 - 24)` scrolls. */
  lemma PrintableRun(s: Screen, text: seq<bv8>)
    requires s.Valid() && Printable(text)
    ensures var q := 80 * s.y + s.x + |text|;
            && PutAll(s, text).x == q % 80
            && PutAll(s, text).y == (if q / 80 < 25 then q / 80 else 24)
            && ScrollCount(s, text) == if q / 80 < 25 then 0 else q / 80 - 24
  {
    PrintableRunPosition(s, text);
    var r, gone := PutAll(s, text), ScrollCount(s, text);
    RowsOfRun(s.Position() + |text|, r.y, gone, r.x);
  }

  /** The cells before the cursor. */
  function Before(s: Screen): seq<Cell>
    requires s.Valid()
  {
    s.cells[..s.Position()]
  }

  function Cells(text: seq<bv8>, attr: bv8): (r: seq<Cell>)
    ensures |r| == |text|
  {
    seq(|text|, i requires 0 <= i < |text| => Cell(text[i], attr))
  }

  /** A printable byte is added to the cells before the cursor; a scroll drops a row of them. */
  lemma PutPrintable(s: Screen, c: bv8)
    requires s.Valid() && c >= SPACE
    ensures Before(Put(s, c)) == (Before(s) + [Cell(c, s.attr)])[if Scrolls(s, c) then WIDTH else 0..]
  {
    var u := Type(s, c);
    assert u.cells[..s.Position() + 1] == Before(s) + [Cell(c, s.attr)];
  }

  lemma CellsAppended(text: seq<bv8>, c: bv8, attr: bv8)
    ensures Cells(text + [c], attr) == Cells(text, attr) + [Cell(c, attr)]
  {
  }

  /** Adding `last` to what is left of `start + run`, and dropping `more` of it. */
  lemma ExtendRun<T>(start: seq<T>, run: seq<T>, gone: nat, last: T, more: nat)
    requires gone <= |start + run| && gone + more <= |start + run| + 1
    ensures ((start + run)[gone..] + [last])[more..] == (start + (run + [last]))[gone + more..]
  {
    assert start + (run + [last]) == (start + run) + [last];
    assert (start + run)[gone..] + [last] == (start + run + [last])[gone..];
  }

  /** One more printable byte at the end of a run. */
  lemma RunContentsStep(s: Screen, before: seq<bv8>, u: Screen, gone: nat, c: bv8)
    requires s.Valid() && u.Valid() && u.attr == s.attr && c >= SPACE
    requires gone <= s.Position() + |before|
    requires Before(u) == (Before(s) + Cells(before, s.attr))[gone..]
    ensures var more := if Scrolls(u, c) then WIDTH else 0;
            && gone + more <= s.Position() + |before| + 1
            && Before(Put(u, c)) == (Before(s) + Cells(before + [c], s.attr))[gone + more..]
  {
    PutPrintable(u, c);
    CellsAppended(before, c, s.attr);
    ExtendRun(Before(s), Cells(before, s.attr), gone, Cell(c, s.attr), if Scrolls(u, c) then WIDTH else 0);
  }

  /** After a run of printable bytes the cells before the cursor are those that were
      there before, followed by the whole run in the current attribute, less the rows
      that scrolled off the top. */
  lemma {:induction false} PrintableRunContents(s: Screen, text: seq<bv8>)
    requires s.Valid() && Printable(text)
    ensures WIDTH * ScrollCount(s, text) <= s.Position() + |text|
    ensures Before(PutAll(s, text)) == (Before(s) + Cells(text, s.attr))[WIDTH * ScrollCount(s, text)..]
    decreases |text|
  {
    if text == [] {
      assert Before(s) + Cells(text, s.attr) == Before(s);
    } else {
      var before, c := text[..|text| - 1], text[|text| - 1];
      PrintableRunPosition(s, before);
      PrintableRunContents(s, before);
      RunContentsStep(s, before, PutAll(s, before), WIDTH * ScrollCount(s, before), c);
      assert text == before + [c];
    }
  }
}
