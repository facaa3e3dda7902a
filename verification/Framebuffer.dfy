/** kernel/lib/string.c: the two block operations that the console relies on. */
module ByteBlocks {
  /** memmove: the old contents of the source, even where the two ranges overlap. */
  method MemMove(mem: array<bv8>, dest: nat, src: nat, n: nat)
    requires dest + n <= mem.Length && src + n <= mem.Length
    modifies mem
    ensures forall k :: dest <= k < dest + n ==> mem[k] == old(mem[k - dest + src])
    ensures forall k :: 0 <= k < mem.Length && !(dest <= k < dest + n) ==> mem[k] == old(mem[k])
  {
    if dest == src || n == 0 {
      return;
    }
    if dest < src {
      for i := 0 to n
        invariant forall k :: dest <= k < dest + i ==> mem[k] == old(mem[k - dest + src])
        invariant forall k :: 0 <= k < mem.Length && !(dest <= k < dest + i) ==> mem[k] == old(mem[k])
      {
        mem[dest + i] := mem[src + i];
      }
    } else {
      for i := n downto 0
        invariant forall k :: dest + i <= k < dest + n ==> mem[k] == old(mem[k - dest + src])
        invariant forall k :: 0 <= k < mem.Length && !(dest + i <= k < dest + n) ==> mem[k] == old(mem[k])
      {
        mem[dest + i] := mem[src + i];
      }
    }
  }

  method MemSet(mem: array<bv8>, dest: nat, value: bv8, n: nat)
    requires dest + n <= mem.Length
    modifies mem
    ensures forall k :: dest <= k < dest + n ==> mem[k] == value
    ensures forall k :: 0 <= k < mem.Length && !(dest <= k < dest + n) ==> mem[k] == old(mem[k])
  {
    for i := 0 to n
      invariant forall k :: dest <= k < dest + i ==> mem[k] == value
      invariant forall k :: 0 <= k < mem.Length && !(dest <= k < dest + i) ==> mem[k] == old(mem[k])
    {
      mem[dest + i] := value;
    }
  }
}

/** The screen as characters: what fb_console_putc should show. */
module CharacterScreen {
  import opened Words

  const NEWLINE: bv8 := 10

  /** A cell that was never written, or a character with its colours in the format of the mode. */
  datatype Cell = Blank | Glyph(c: bv8, fg: bv32, bg: bv32)

  type Line = seq<Cell>

  function BlankLine(cols: nat): (l: Line)
    ensures |l| == cols && forall k :: 0 <= k < cols ==> l[k] == Blank
  {
    seq(cols, _ => Blank)
  }

  /** What fb_console_putc works on: the visible lines and the cursor. */
  datatype Screen = Screen(grid: seq<Line>, col: nat, row: nat)
  {
    predicate Valid(cols: nat, rows: nat) {
      && |grid| == rows && (forall k :: 0 <= k < rows ==> |grid[k]| == cols)
      && col < cols && row < rows
    }

    function Drawn(cell: Cell): Screen
      requires row < |grid| && col < |grid[row]|
    {
      this.(grid := grid[row := grid[row][col := cell]])
    }

    /** The cursor at the start of the next line, the screen scrolled up when there is none. */
    function NextLine(cols: nat): Screen
      requires |grid| > 0
    {
      if row + 1 >= |grid| then Screen(grid[1..] + [BlankLine(cols)], 0, |grid| - 1)
      else Screen(grid, 0, row + 1)
    }

    function Put(c: bv8, fg: bv32, bg: bv32, cols: nat): Screen
      requires row < |grid| && col < |grid[row]|
    {
      if c == NEWLINE then NextLine(cols)
      else
        var drawn := Drawn(Glyph(c, fg, bg));
        if col + 1 >= cols then drawn.NextLine(cols) else drawn.(col := col + 1)
    }

    function PutAll(strokes: seq<Stroke>, cols: nat, rows: nat): (s: Screen)
      requires Valid(cols, rows)
      ensures s.Valid(cols, rows)
      decreases |strokes|
    {
      if strokes == [] then this
      else
        var k := |strokes| - 1;
        PutAll(strokes[..k], cols, rows).Put(strokes[k].c, strokes[k].fg, strokes[k].bg, cols)
    }
  }

  /** A character as it is written, in its own colours. */
  datatype Stroke = Stroke(c: bv8, fg: bv32, bg: bv32)

  function Strokes(str: seq<bv8>, fg: bv32, bg: bv32): (s: seq<Stroke>)
    ensures |s| == |str| && forall k :: 0 <= k < |str| ==> s[k] == Stroke(str[k], fg, bg)
  {
    seq(|str|, k requires 0 <= k < |str| => Stroke(str[k], fg, bg))
  }

  /** An endless roll of paper of the same width, written on its last line. */
  datatype Paper = Paper(lines: seq<Line>, col: nat)
  {
    predicate Valid(cols: nat) {
      |lines| > 0 && (forall k :: 0 <= k < |lines| ==> |lines[k]| == cols) && col < cols
    }

    function Written(cell: Cell): Paper
      requires |lines| > 0 && col < |lines[|lines| - 1]|
    {
      var last := |lines| - 1;
      this.(lines := lines[last := lines[last][col := cell]])
    }

    function NextLine(cols: nat): Paper {
      Paper(lines + [BlankLine(cols)], 0)
    }

    function Type(c: bv8, fg: bv32, bg: bv32, cols: nat): Paper
      requires Valid(cols)
    {
      if c == NEWLINE then NextLine(cols)
      else if col + 1 == cols then Written(Glyph(c, fg, bg)).NextLine(cols)
      else Written(Glyph(c, fg, bg)).(col := col + 1)
    }

    /** The first line seen through a window of so many lines at the end. */
    function Top(rows: nat): nat { if |lines| > rows then |lines| - rows else 0 }

    function SeenLine(k: nat, cols: nat, rows: nat): Line {
      if Top(rows) + k < |lines| then lines[Top(rows) + k] else BlankLine(cols)
    }

    /** The end of the paper through a window of so many lines. */
    ghost predicate SeenOn(s: Screen, cols: nat, rows: nat) {
      && s.Valid(cols, rows) && s.col == col && s.row == |lines| - 1 - Top(rows)
      && forall k :: 0 <= k < rows ==> s.grid[k] == SeenLine(k, cols, rows)
    }
  }

  lemma WritingIsSeen(p: Paper, s: Screen, cell: Cell, cols: nat, rows: nat)
    requires p.Valid(cols) && p.SeenOn(s, cols, rows)
    ensures p.Written(cell).Valid(cols) && p.Written(cell).SeenOn(s.Drawn(cell), cols, rows)
  {
    var q := p.Written(cell);
    forall k | 0 <= k < rows ensures s.Drawn(cell).grid[k] == q.SeenLine(k, cols, rows) {
      assert s.grid[k] == p.SeenLine(k, cols, rows);
    }
  }

  lemma NextLineIsSeen(p: Paper, s: Screen, cols: nat, rows: nat)
    requires p.Valid(cols) && p.SeenOn(s, cols, rows)
    ensures p.NextLine(cols).Valid(cols) && p.NextLine(cols).SeenOn(s.NextLine(cols), cols, rows)
  {
    var q, t := p.NextLine(cols), s.NextLine(cols);
    forall k | 0 <= k < rows ensures t.grid[k] == q.SeenLine(k, cols, rows) {
      if k + 1 < rows {
        assert s.grid[k + 1] == p.SeenLine(k + 1, cols, rows);
      }
      assert s.grid[k] == p.SeenLine(k, cols, rows);
    }
  }

  /** The screen always shows the end of what was typed. */
  lemma TypingIsSeen(p: Paper, s: Screen, c: bv8, fg: bv32, bg: bv32, cols: nat, rows: nat)
    requires p.Valid(cols) && p.SeenOn(s, cols, rows)
    ensures p.Type(c, fg, bg, cols).Valid(cols)
    ensures p.Type(c, fg, bg, cols).SeenOn(s.Put(c, fg, bg, cols), cols, rows)
  {
    if c == NEWLINE {
      NextLineIsSeen(p, s, cols, rows);
    } else {
      WritingIsSeen(p, s, Glyph(c, fg, bg), cols, rows);
      if p.col + 1 == cols {
        NextLineIsSeen(p.Written(Glyph(c, fg, bg)), s.Drawn(Glyph(c, fg, bg)), cols, rows);
      }
    }
  }

  function TypeAll(p: Paper, strokes: seq<Stroke>, cols: nat): (q: Paper)
    requires p.Valid(cols)
    ensures q.Valid(cols)
    decreases |strokes|
  {
    if strokes == [] then p
    else
      var k := |strokes| - 1;
      TypeAll(p, strokes[..k], cols).Type(strokes[k].c, strokes[k].fg, strokes[k].bg, cols)
  }

  lemma NextPlace(n: nat, cols: nat)
    requires cols > 0
    ensures (n + 1) / cols == (if n % cols + 1 == cols then n / cols + 1 else n / cols)
    ensures (n + 1) % cols == (if n % cols + 1 == cols then 0 else n % cols + 1)
  {
    if n % cols + 1 == cols {
      DivModUnique(n + 1, cols, n / cols + 1, 0);
    } else {
      DivModUnique(n + 1, cols, n / cols, n % cols + 1);
    }
  }

  /** The character is in its colours k / cols lines down, in column k % cols. */
  ghost predicate CharacterAt(q: Paper, first: nat, stroke: Stroke, k: nat, cols: nat)
    requires cols > 0
  {
    var line, column := first + k / cols, k % cols;
    && line < |q.lines| && column < |q.lines[line]|
    && q.lines[line][column] == Glyph(stroke.c, stroke.fg, stroke.bg)
  }

  lemma PlacesDiffer(k: nat, n: nat, cols: nat)
    requires cols > 0 && k != n
    ensures k / cols != n / cols || k % cols != n % cols
  {
  }

  lemma OneTyped(p: Paper, first: nat, n: nat, stroke: Stroke, cols: nat)
    requires p.Valid(cols) && stroke.c != 10 && p.col == n % cols && |p.lines| == first + 1 + n / cols
    ensures var q := p.Type(stroke.c, stroke.fg, stroke.bg, cols);
            && q.col == (n + 1) % cols && |q.lines| == first + 1 + (n + 1) / cols
            && CharacterAt(q, first, stroke, n, cols)
            && forall k: nat :: k < first ==> q.lines[k] == p.lines[k]
  {
    NextPlace(n, cols);
  }

  lemma EarlierStays(p: Paper, first: nat, n: nat, stroke: Stroke, cols: nat, earlier: Stroke, k: nat)
    requires p.Valid(cols) && stroke.c != 10 && p.col == n % cols && |p.lines| == first + 1 + n / cols && k < n
    requires CharacterAt(p, first, earlier, k, cols)
    ensures CharacterAt(p.Type(stroke.c, stroke.fg, stroke.bg, cols), first, earlier, k, cols)
  {
    PlacesDiffer(k, n, cols);
  }

  /** The text goes from left to right, and from the end of a line on to the next: its character k is k / cols
      lines down, in column k % cols. */
  ghost predicate RunsOn(q: Paper, first: nat, text: seq<Stroke>, cols: nat)
    requires cols > 0
  {
    && q.col == |text| % cols && |q.lines| == first + 1 + |text| / cols
    && forall k: nat {:trigger text[k]} :: k < |text| ==> CharacterAt(q, first, text[k], k, cols)
  }

  lemma RunsOnMore(p: Paper, first: nat, text: seq<Stroke>, stroke: Stroke, cols: nat)
    requires p.Valid(cols) && RunsOn(p, first, text, cols) && stroke.c != 10
    ensures RunsOn(p.Type(stroke.c, stroke.fg, stroke.bg, cols), first, text + [stroke], cols)
    ensures var q := p.Type(stroke.c, stroke.fg, stroke.bg, cols);
            first < |q.lines| && forall n: nat :: n < first ==> q.lines[n] == p.lines[n]
  {
    hide CharacterAt, Paper.Type;
    OneTyped(p, first, |text|, stroke, cols);
    var q, all := p.Type(stroke.c, stroke.fg, stroke.bg, cols), text + [stroke];
    forall k: nat {:trigger all[k]} | k < |all| ensures CharacterAt(q, first, all[k], k, cols) {
      if k < |text| {
        assert all[k] == text[k];
        EarlierStays(p, first, |text|, stroke, cols, text[k], k);
      }
    }
  }

  lemma NoTextYet(p: Paper, cols: nat)
    requires p.Valid(cols) && p.col == 0
    ensures TypeAll(p, [], cols) == p && RunsOn(p, |p.lines| - 1, [], cols)
  {
    DivModUnique(0, cols, 0, 0);
  }

  lemma TypedLast(p: Paper, text: seq<Stroke>, cols: nat)
    requires p.Valid(cols) && text != []
    ensures var n := |text| - 1;
            TypeAll(p, text, cols)
            == TypeAll(p, text[..n], cols).Type(text[n].c, text[n].fg, text[n].bg, cols)
  {
  }

  /** Text without a newline (10), begun at the start of a line, runs on from there, and leaves the lines above
      as they are. */
  lemma {:induction false} TextRunsOn(p: Paper, text: seq<Stroke>, cols: nat)
    requires p.Valid(cols) && p.col == 0 && forall n :: 0 <= n < |text| ==> text[n].c != 10
    ensures var q := TypeAll(p, text, cols);
            && RunsOn(q, |p.lines| - 1, text, cols)
            && (forall n: nat :: n < |p.lines| - 1 ==> n < |q.lines| && q.lines[n] == p.lines[n])
    decreases |text|
  {
    hide Paper.Type, CharacterAt, RunsOn, TypeAll;
    if text == [] {
      NoTextYet(p, cols);
    } else {
      var n := |text| - 1;
      TextRunsOn(p, text[..n], cols);
      TypedLast(p, text, cols);
      RunsOnMore(TypeAll(p, text[..n], cols), |p.lines| - 1, text[..n], text[n], cols);
      assert text[..n] + [text[n]] == text;
    }
  }

  /** A newline is byte 10.  It leaves all lines as they are and starts a new one. */
  lemma NewlineStartsLine(p: Paper, fg: bv32, bg: bv32, cols: nat)
    requires p.Valid(cols)
    ensures p.Type(10, fg, bg, cols) == Paper(p.lines + [BlankLine(cols)], 0)
  {
  }

  /** From an empty screen on, the screen shows the end of all that was ever written, each character
      in its own colours, wrapped at the right edge. */
  lemma {:induction false} ScreenShowsTheEnd(strokes: seq<Stroke>, cols: nat, rows: nat)
    requires cols > 0 && rows > 0
    ensures var blank := Screen(seq(rows, _ => BlankLine(cols)), 0, 0);
            var paper := Paper([BlankLine(cols)], 0);
            TypeAll(paper, strokes, cols).SeenOn(blank.PutAll(strokes, cols, rows), cols, rows)
    decreases |strokes|
  {
    if strokes != [] {
      var k := |strokes| - 1;
      var blank, paper := Screen(seq(rows, _ => BlankLine(cols)), 0, 0), Paper([BlankLine(cols)], 0);
      ScreenShowsTheEnd(strokes[..k], cols, rows);
      TypingIsSeen(TypeAll(paper, strokes[..k], cols), blank.PutAll(strokes[..k], cols, rows),
                   strokes[k].c, strokes[k].fg, strokes[k].bg, cols, rows);
    }
  }
}

/** kernel/drivers/framebuffer/framebuffer.c: pixels as bytes in memory, and the text console on them. */
module Framebuffer {
  import opened Words
  import opened ByteBlocks
  import opened CharacterScreen

  const CELL: nat := 8

  /** The colour masks of the mode: widths and shifts. */
  datatype Mode = Mode(redSize: bv32, redShift: bv32, greenSize: bv32, greenShift: bv32, blueSize: bv32,
                       blueShift: bv32)
  {
    predicate Valid() { redShift < 32 && greenShift < 32 && blueShift < 32 }
  }

  function Scale(v: bv32, size: bv32): bv32 { if size < 8 then v >> (8 - size) else v }

  function Together(x: bv32, y: bv32, z: bv32): bv32 { x | y | z }

  /** A component scaled to its field and put there. */
  function InPlace(v: bv32, size: bv32, shift: bv32): bv32
    requires shift < 32
  {
    Scale(v, size) << shift
  }

  /** pack_color */
  function PackColor(mode: Mode, rgb: bv32): bv32
    requires mode.Valid()
  {
    var r, g, b := (rgb >> 16) & 0xff, (rgb >> 8) & 0xff, rgb & 0xff;
    Together(InPlace(r, mode.redSize, mode.redShift), InPlace(g, mode.greenSize, mode.greenShift),
             InPlace(b, mode.blueSize, mode.blueShift))
  }

  /** Black is stored as zero bytes in every mode. */
  lemma BlackIsZero(mode: Mode)
    requires mode.Valid()
    ensures PackColor(mode, 0) == 0
  {
  }

  // ----- Colours can be read back

  function Left(v: bv32, s: bv32): bv32 { if s < 32 then v << s else 0 }

  function Right(v: bv32, s: bv32): bv32 { if s < 32 then v >> s else 0 }

  /** size ones */
  function Ones(size: bv32): bv32 { if size < 32 then ((1 as bv32) << size) - 1 else 0xffff_ffff }

  predicate InWord(size: bv32, shift: bv32) { size < 32 && shift < 32 && size + shift <= 32 }

  predicate Within(v: bv32, m: bv32) { v & m == v }

  predicate Apart(m: bv32, n: bv32) { m & n == 0 }

  function Common(v: bv32, m: bv32): bv32 { v & m }

  /** The bits of a field. */
  function Bits(size: bv32, shift: bv32): bv32 { Left(Ones(size), shift) }

  /** What a pixel has in a field. */
  function Field(native: bv32, size: bv32, shift: bv32): bv32 { Right(Common(native, Bits(size, shift)), shift) }

  lemma LeftStaysWithin(v: bv32, m: bv32, s: bv32)
    requires Within(v, m)
    ensures Within(Left(v, s), Left(m, s))
  {
  }

  lemma OnesComeBack(size: bv32, shift: bv32)
    requires InWord(size, shift)
    ensures Right(Left(Ones(size), shift), shift) == Ones(size)
  {
  }

  lemma PartComesBack(v: bv32, m: bv32, s: bv32)
    requires s < 32 && Within(v, m) && Right(Left(m, s), s) == m
    ensures Right(Left(v, s), s) == v
  {
  }

  lemma ValueComesBack(v: bv32, size: bv32, shift: bv32)
    requires InWord(size, shift) && Within(v, Ones(size))
    ensures Right(Left(v, shift), shift) == v
  {
    hide Left, Right, Ones, Within;
    OnesComeBack(size, shift);
    PartComesBack(v, Ones(size), shift);
  }

  lemma OneOfThree(x: bv32, y: bv32, z: bv32, m: bv32, n: bv32, o: bv32)
    requires Within(x, m) && Within(y, n) && Within(z, o) && Apart(m, n) && Apart(m, o)
    ensures Common(Together(x, y, z), m) == x
  {
    assert y & m == y & (n & m) && z & m == z & (o & m);
  }

  /** A value reads back from its field, whatever is in two fields apart from it. */
  lemma FieldComesBack(x: bv32, xs: bv32, xt: bv32, y: bv32, ys: bv32, yt: bv32, z: bv32, zs: bv32, zt: bv32)
    requires InWord(xs, xt) && Within(x, Ones(xs)) && Within(y, Ones(ys)) && Within(z, Ones(zs))
    requires Apart(Bits(xs, xt), Bits(ys, yt)) && Apart(Bits(xs, xt), Bits(zs, zt))
    ensures Field(Together(Left(x, xt), Left(y, yt), Left(z, zt)), xs, xt) == x
  {
    hide Left, Right, Ones, Within, InWord, Apart, Common, Together;
    LeftStaysWithin(x, Ones(xs), xt);
    LeftStaysWithin(y, Ones(ys), yt);
    LeftStaysWithin(z, Ones(zs), zt);
    OneOfThree(Left(x, xt), Left(y, yt), Left(z, zt), Bits(xs, xt), Bits(ys, yt), Bits(zs, zt));
    ValueComesBack(x, xs, xt);
  }

  /** The three fields of the mode lie in 32 bits and do not overlap. */
  predicate Separate(mode: Mode) {
    && InWord(mode.redSize, mode.redShift) && InWord(mode.greenSize, mode.greenShift)
    && InWord(mode.blueSize, mode.blueShift)
    && Apart(Bits(mode.redSize, mode.redShift), Bits(mode.greenSize, mode.greenShift))
    && Apart(Bits(mode.redSize, mode.redShift), Bits(mode.blueSize, mode.blueShift))
    && Apart(Bits(mode.greenSize, mode.greenShift), Bits(mode.blueSize, mode.blueShift))
  }

  lemma ApartBothWays(m: bv32, n: bv32)
    requires Apart(m, n)
    ensures Apart(n, m)
  {
  }

  lemma TogetherInAnyOrder(x: bv32, y: bv32, z: bv32)
    ensures Together(x, y, z) == Together(y, x, z) == Together(z, x, y)
  {
  }

  lemma FieldsComeBack(mode: Mode, r: bv32, g: bv32, b: bv32)
    requires Separate(mode)
    requires Within(r, Ones(mode.redSize)) && Within(g, Ones(mode.greenSize)) && Within(b, Ones(mode.blueSize))
    ensures var native := Together(Left(r, mode.redShift), Left(g, mode.greenShift), Left(b, mode.blueShift));
            && Field(native, mode.redSize, mode.redShift) == r && Field(native, mode.greenSize, mode.greenShift) == g
            && Field(native, mode.blueSize, mode.blueShift) == b
  {
    hide Left, Ones, Within, InWord, Apart, Together, Bits, Field;
    ApartBothWays(Bits(mode.redSize, mode.redShift), Bits(mode.greenSize, mode.greenShift));
    ApartBothWays(Bits(mode.redSize, mode.redShift), Bits(mode.blueSize, mode.blueShift));
    ApartBothWays(Bits(mode.greenSize, mode.greenShift), Bits(mode.blueSize, mode.blueShift));
    TogetherInAnyOrder(Left(r, mode.redShift), Left(g, mode.greenShift), Left(b, mode.blueShift));
    FieldComesBack(r, mode.redSize, mode.redShift, g, mode.greenSize, mode.greenShift,
                   b, mode.blueSize, mode.blueShift);
    FieldComesBack(g, mode.greenSize, mode.greenShift, r, mode.redSize, mode.redShift,
                   b, mode.blueSize, mode.blueShift);
    FieldComesBack(b, mode.blueSize, mode.blueShift, r, mode.redSize, mode.redShift,
                   g, mode.greenSize, mode.greenShift);
  }

  lemma ScaledFits(v: bv32, size: bv32)
    requires v <= 0xff
    ensures Within(Scale(v, size), Ones(size))
  {
  }

  lemma InPlaceIsLeft(v: bv32, size: bv32, shift: bv32)
    requires shift < 32
    ensures InPlace(v, size, shift) == Left(Scale(v, size), shift)
  {
    hide Scale;
  }

  /** The topmost bits of a byte, as many as fit: the byte halved for each bit that does not. */
  function TopBits(v: bv32, size: bv32): bv32
    decreases 8 - size
  {
    if size >= 8 then v else TopBits(v, size + 1) / 2
  }

  lemma ScaleIsRight(v: bv32, size: bv32)
    requires size <= 8
    ensures Scale(v, size) == Right(v, 8 - size)
  {
  }

  lemma RightOneMore(v: bv32, n: bv32)
    requires 0 < n <= 8
    ensures Right(v, n) == Right(v, n - 1) >> 1
  {
  }

  lemma OneBitLess(v: bv32, size: bv32)
    requires size < 8
    ensures Scale(v, size) == Scale(v, size + 1) >> 1
  {
    hide Scale, Right;
    ScaleIsRight(v, size);
    ScaleIsRight(v, size + 1);
    RightOneMore(v, 8 - size);
    assert 8 - size - 1 == 8 - (size + 1);
  }

  lemma HalfIsShift(v: bv32)
    ensures v >> 1 == v / 2
  {
  }

  lemma ScaleAbove(v: bv32, size: bv32)
    requires size < 8
    ensures Scale(v, size) == Scale(v, size + 1) / 2
  {
    hide Scale;
    OneBitLess(v, size);
    HalfIsShift(Scale(v, size + 1));
  }

  lemma WholeByte(v: bv32, size: bv32)
    requires size >= 8
    ensures Scale(v, size) == v
  {
  }

  lemma {:induction false} ScaleKeepsTop(v: bv32, size: bv32)
    ensures Scale(v, size) == TopBits(v, size)
    decreases 8 - size
  {
    hide Scale;
    if size < 8 {
      ScaleAbove(v, size);
      ScaleKeepsTop(v, size + 1);
    } else {
      WholeByte(v, size);
    }
  }

  lemma Components(rgb: bv32)
    ensures (rgb >> 16) & 0xff == rgb / 0x10000 % 0x100 && (rgb >> 8) & 0xff == rgb / 0x100 % 0x100
    ensures rgb & 0xff == rgb % 0x100
    ensures rgb / 0x10000 % 0x100 <= 0xff && rgb / 0x100 % 0x100 <= 0xff && rgb % 0x100 <= 0xff
  {
  }

  /** The colour that is stored has, field by field, as many of the top bits of red, green and blue as fit. */
  lemma ColorComesBack(mode: Mode, rgb: bv32)
    requires Separate(mode) && mode.Valid()
    ensures var native := PackColor(mode, rgb);
            && Field(native, mode.redSize, mode.redShift) == TopBits(rgb / 0x10000 % 0x100, mode.redSize)
            && Field(native, mode.greenSize, mode.greenShift) == TopBits(rgb / 0x100 % 0x100, mode.greenSize)
            && Field(native, mode.blueSize, mode.blueShift) == TopBits(rgb % 0x100, mode.blueSize)
  {
    hide Separate, Left, Ones, Within, Together, Field, Scale, TopBits, PackColor;
    Components(rgb);
    ComponentsComeBack(mode, rgb, rgb / 0x10000 % 0x100, rgb / 0x100 % 0x100, rgb % 0x100);
  }

  lemma ComponentsComeBack(mode: Mode, rgb: bv32, r: bv32, g: bv32, b: bv32)
    requires Separate(mode) && mode.Valid() && r <= 0xff && g <= 0xff && b <= 0xff
    requires (rgb >> 16) & 0xff == r && (rgb >> 8) & 0xff == g && rgb & 0xff == b
    ensures var native := PackColor(mode, rgb);
            && Field(native, mode.redSize, mode.redShift) == TopBits(r, mode.redSize)
            && Field(native, mode.greenSize, mode.greenShift) == TopBits(g, mode.greenSize)
            && Field(native, mode.blueSize, mode.blueShift) == TopBits(b, mode.blueSize)
  {
    hide Separate, Left, Ones, Within, Together, Field, Scale, TopBits, InPlace;
    var x, y, z := Scale(r, mode.redSize), Scale(g, mode.greenSize), Scale(b, mode.blueSize);
    ScaledFits(r, mode.redSize);
    ScaledFits(g, mode.greenSize);
    ScaledFits(b, mode.blueSize);
    InPlaceIsLeft(r, mode.redSize, mode.redShift);
    InPlaceIsLeft(g, mode.greenSize, mode.greenShift);
    InPlaceIsLeft(b, mode.blueSize, mode.blueShift);
    FieldsComeBack(mode, x, y, z);
    ScaleKeepsTop(r, mode.redSize);
    ScaleKeepsTop(g, mode.greenSize);
    ScaleKeepsTop(b, mode.blueSize);
  }

  /** Byte i of a colour, the lowest first. */
  function ByteOf(native: bv32, i: nat): bv8 {
    if i == 0 then (native & 0xff) as bv8 else ByteOf(native >> 8, i - 1)
  }

  lemma {:induction false} ZeroBytes(i: nat)
    ensures ByteOf(0, i) == 0
  {
    if i > 0 {
      ZeroBytes(i - 1);
    }
  }

  /** (uint8_t)(native >> (8 * i)) */
  method ShiftedByte(native: bv32, i: nat) returns (b: bv8)
    requires i < 4
    ensures b == ByteOf(native, i)
  {
    var shift: bv32 := if i == 0 then 0 else if i == 1 then 8 else if i == 2 then 16 else 24;
    b := ((native >> shift) & 0xff) as bv8;
    FourBytes(native);
  }

  lemma FourBytes(n: bv32)
    ensures ByteOf(n, 0) == (n & 0xff) as bv8 && ByteOf(n, 1) == ((n >> 8) & 0xff) as bv8
    ensures ByteOf(n, 2) == ((n >> 16) & 0xff) as bv8 && ByteOf(n, 3) == ((n >> 24) & 0xff) as bv8
  {
    assert ByteOf(n, 3) == ByteOf(n >> 8, 2) == ByteOf(n >> 8 >> 8, 1) == ByteOf(n >> 8 >> 8 >> 8, 0);
    assert ByteOf(n, 2) == ByteOf(n >> 8, 1) == ByteOf(n >> 8 >> 8, 0);
    assert n >> 8 >> 8 == n >> 16 && n >> 16 >> 8 == n >> 24;
  }

  /** Where pixels are in memory. */
  datatype Layout = Layout(width: nat, height: nat, pitch: nat, bytesPerPixel: nat)
  {
    /** At least one character fits. */
    predicate Valid() {
      CELL <= width && CELL <= height && bytesPerPixel <= 4 && width * bytesPerPixel <= pitch
    }

    /** Byte i of the pixel at (x, y), as put_pixel_raw computes it. */
    function At(x: nat, y: nat, i: nat): nat { y * pitch + x * bytesPerPixel + i }
  }

  lemma Distribute(a: nat, b: nat, c: nat)
    ensures (a + b) * c == a * c + b * c
  {
  }

  lemma InRow(l: Layout, x: nat, i: nat)
    requires l.Valid() && x < l.width && i < l.bytesPerPixel
    ensures x * l.bytesPerPixel + i < l.pitch
  {
    Distribute(x, 1, l.bytesPerPixel);
    Distribute(x + 1, l.width - x - 1, l.bytesPerPixel);
  }

  /** The bytes of a line of pixels lie between the starts of that line and the next. */
  lemma InLine(l: Layout, x: nat, y: nat, i: nat, end: nat)
    requires l.Valid() && x < l.width && y < end && i < l.bytesPerPixel
    ensures y * l.pitch <= l.At(x, y, i) < end * l.pitch
  {
    InRow(l, x, i);
    Distribute(y, 1, l.pitch);
    Distribute(y + 1, end - y - 1, l.pitch);
  }

  lemma PixelFits(l: Layout, x: nat, y: nat)
    requires l.Valid() && x < l.width && y < l.height
    ensures l.At(x, y, 0) + l.bytesPerPixel <= l.height * l.pitch
  {
    if l.bytesPerPixel > 0 {
      InLine(l, x, y, l.bytesPerPixel - 1, l.height);
    } else {
      Distribute(y, l.height - y, l.pitch);
    }
  }

  lemma AfterLine(l: Layout, x: nat, y: nat, i: nat, start: nat)
    requires start <= y
    ensures start * l.pitch <= l.At(x, y, i)
  {
    Distribute(start, y - start, l.pitch);
  }

  /** No two pixels share a byte. */
  lemma PixelsApart(l: Layout, x: nat, y: nat, i: nat, x': nat, y': nat, i': nat)
    requires l.Valid() && x < l.width && i < l.bytesPerPixel && x' < l.width && i' < l.bytesPerPixel
    requires x != x' || y != y' || i != i'
    ensures l.At(x, y, i) != l.At(x', y', i')
  {
    if y < y' {
      InLine(l, x, y, i, y');
      AfterLine(l, x', y', i', y');
    } else if y' < y {
      InLine(l, x', y', i', y);
      AfterLine(l, x, y, i, y);
    } else if x < x' {
      Distribute(x, x' - x, l.bytesPerPixel);
      Distribute(1, x' - x - 1, l.bytesPerPixel);
    } else if x' < x {
      Distribute(x', x - x', l.bytesPerPixel);
      Distribute(1, x - x' - 1, l.bytesPerPixel);
    }
  }

  type Picture = seq<seq<bv32>>

  predicate Sized(p: Picture, l: Layout) {
    |p| == l.height && forall y :: 0 <= y < l.height ==> |p[y]| == l.width
  }

  /** The bytes of memory are those of the picture; the padding at the end of each line may be anything. */
  ghost predicate Holds(bytes: seq<bv8>, l: Layout, p: Picture)
    requires l.Valid() && Sized(p, l) && |bytes| == l.height * l.pitch
  {
    forall x: nat, y: nat, i: nat {:trigger l.At(x, y, i)} ::
      x < l.width && y < l.height && i < l.bytesPerPixel ==>
        l.At(x, y, i) < |bytes| && bytes[l.At(x, y, i)] == ByteOf(p[y][x], i)
  }

  /** The picture of a grid of characters; what is right of the last column and below the last row is black. */
  function GridColor(font: seq<seq<bv8>>, grid: seq<Line>, x: nat, y: nat): bv32
    requires ValidFont(font)
  {
    if y / CELL < |grid| && x / CELL < |grid[y / CELL]| then
      CellColor(font, grid[y / CELL][x / CELL], x % CELL, y % CELL)
    else 0
  }

  predicate ValidFont(font: seq<seq<bv8>>) {
    |font| == 128 && forall c :: 0 <= c < 128 ==> |font[c]| == CELL
  }

  function CellColor(font: seq<seq<bv8>>, cell: Cell, gx: nat, gy: nat): bv32
    requires ValidFont(font) && gx < CELL && gy < CELL
  {
    match cell
    case Blank => 0
    case Glyph(c, fg, bg) =>
      if BitOf(font[(c & 0x7f) as int][gy], gx) then fg else bg
  }

  /** Bit k of a line of a glyph; the lowest bit is the leftmost pixel. */
  predicate BitOf(bits: bv8, k: nat) {
    if k == 0 then bits & 1 != 0 else BitOf(bits >> 1, k - 1)
  }

  lemma LowestBit(bits: bv8)
    ensures (bits >> 1) as nat == bits as nat / 2 && (bits & 1 != 0 <==> bits as nat % 2 == 1)
  {
  }

  lemma {:induction false} BitIsDigit(bits: bv8, k: nat)
    ensures BitOf(bits, k) <==> bits as nat / Pow2(k) % 2 == 1
  {
    LowestBit(bits);
    if k > 0 {
      BitIsDigit(bits >> 1, k - 1);
      HalveThenDivide(bits as nat, Pow2(k - 1));
    }
  }

  lemma MaskTestsBit(bits: bv8, k: nat)
    requires k < CELL
    ensures (bits & ((1 as bv8) << k) != 0) == BitOf(bits, k)
  {
    assert BitOf(bits, 7) == BitOf(bits >> 1, 6) && BitOf(bits >> 1, 6) == BitOf(bits >> 2, 5);
  }

  method BitIsSet(bits: bv8, gx: nat) returns (isSet: bool)
    requires gx < CELL
    ensures isSet == BitOf(bits, gx)
  {
    isSet := bits & ((1 as bv8) << gx) != 0;
    MaskTestsBit(bits, gx);
  }

  ghost predicate Shows(p: Picture, l: Layout, font: seq<seq<bv8>>, grid: seq<Line>)
    requires Sized(p, l) && ValidFont(font)
  {
    forall x: nat, y: nat :: x < l.width && y < l.height ==> p[y][x] == GridColor(font, grid, x, y)
  }

  function BlankPixels(width: nat): (line: seq<bv32>)
    ensures |line| == width && forall x :: 0 <= x < width ==> line[x] == 0
  {
    seq(width, _ => 0)
  }

  /** The picture moved up by one row of characters, the bottom one black. */
  function ScrolledUp(p: Picture, l: Layout): Picture
    requires l.Valid() && Sized(p, l)
  {
    p[CELL..] + seq(CELL, _ => BlankPixels(l.width))
  }

  lemma ScrollMovesLines(p: Picture, l: Layout, y: nat)
    requires l.Valid() && Sized(p, l) && y < l.height
    ensures Sized(ScrolledUp(p, l), l)
    ensures ScrolledUp(p, l)[y] == if y < l.height - CELL then p[y + CELL] else BlankPixels(l.width)
  {
  }

  /** A pixel of the scrolled grid is the one a row below; in the last row it is blank. */
  lemma ScrolledColor(l: Layout, font: seq<seq<bv8>>, grid: seq<Line>, x: nat, y: nat)
    requires l.Valid() && ValidFont(font) && x < l.width && y < l.height && |grid| == l.height / CELL
    requires |grid| > 0 && |grid[|grid| - 1]| == l.width / CELL
    ensures GridColor(font, grid[1..] + [BlankLine(l.width / CELL)], x, y) ==
            if y < l.height - CELL then GridColor(font, grid, x, y + CELL) else 0
  {
    hide BitOf;
    assert (y + CELL) / CELL == y / CELL + 1 && (y + CELL) % CELL == y % CELL;
  }

  /** Moving the picture up scrolls the characters, because nothing is drawn below the last row. */
  lemma ScrollShows(p: Picture, l: Layout, font: seq<seq<bv8>>, grid: seq<Line>)
    requires l.Valid() && Sized(p, l) && ValidFont(font) && Shows(p, l, font, grid)
    requires |grid| == l.height / CELL && forall k :: 0 <= k < |grid| ==> |grid[k]| == l.width / CELL
    ensures Sized(ScrolledUp(p, l), l)
    ensures Shows(ScrolledUp(p, l), l, font, grid[1..] + [BlankLine(l.width / CELL)])
  {
    hide GridColor, ScrolledUp;
    var q, grid' := ScrolledUp(p, l), grid[1..] + [BlankLine(l.width / CELL)];
    ScrollMovesLines(p, l, 0);
    forall x: nat, y: nat | x < l.width && y < l.height ensures q[y][x] == GridColor(font, grid', x, y) {
      ScrollMovesLines(p, l, y);
      ScrolledColor(l, font, grid, x, y);
      if y < l.height - CELL {
        assert p[y + CELL][x] == GridColor(font, grid, x, y + CELL);
      }
    }
  }

  /** The pixels of one character before the given one, in the order in which they are drawn. */
  predicate DrawnBefore(x: nat, y: nat, col: nat, row: nat, gx: nat, gy: nat) {
    x / CELL == col && y / CELL == row && (y % CELL < gy || (y % CELL == gy && x % CELL < gx))
  }

  /** A pixel of a character has the first colour where the bit of its glyph is set, else the second. */
  lemma GlyphPixel(p: Picture, l: Layout, font: seq<seq<bv8>>, grid: seq<Line>, col: nat, row: nat, gx: nat, gy: nat)
    requires l.Valid() && Sized(p, l) && ValidFont(font) && Shows(p, l, font, grid) && gx < 8 && gy < 8
    requires row < |grid| == l.height / CELL && col < |grid[row]| == l.width / CELL && grid[row][col].Glyph?
    ensures 8 * row + gy < |p| && 8 * col + gx < |p[8 * row + gy]|
    ensures p[8 * row + gy][8 * col + gx]
         == if font[(grid[row][col].c & 0x7f) as int][gy] as nat / Pow2(gx) % 2 == 1 then grid[row][col].fg
            else grid[row][col].bg
  {
    hide BitOf, Pow2;
    var x, y := 8 * col + gx, 8 * row + gy;
    DivModUnique(x, 8, col, gx);
    DivModUnique(y, 8, row, gy);
    BitIsDigit(font[(grid[row][col].c & 0x7f) as int][gy], gx);
    assert p[y][x] == GridColor(font, grid, x, y);
  }

  lemma GlyphPixels(p: Picture, l: Layout, font: seq<seq<bv8>>, grid: seq<Line>, col: nat, row: nat)
    requires l.Valid() && Sized(p, l) && ValidFont(font) && Shows(p, l, font, grid)
    requires row < |grid| == l.height / CELL && col < |grid[row]| == l.width / CELL && grid[row][col].Glyph?
    ensures forall gx: nat, gy: nat {:trigger font[(grid[row][col].c & 0x7f) as int][gy], Pow2(gx)} ::
              gx < 8 && gy < 8 ==>
                && 8 * row + gy < |p| && 8 * col + gx < |p[8 * row + gy]|
                && p[8 * row + gy][8 * col + gx]
                   == if font[(grid[row][col].c & 0x7f) as int][gy] as nat / Pow2(gx) % 2 == 1 then grid[row][col].fg
                      else grid[row][col].bg
  {
    hide Shows, Pow2, GridColor;
    forall gx: nat, gy: nat {:trigger font[(grid[row][col].c & 0x7f) as int][gy], Pow2(gx)} | gx < 8 && gy < 8
      ensures 8 * row + gy < |p| && 8 * col + gx < |p[8 * row + gy]|
      ensures p[8 * row + gy][8 * col + gx]
           == if font[(grid[row][col].c & 0x7f) as int][gy] as nat / Pow2(gx) % 2 == 1 then grid[row][col].fg
              else grid[row][col].bg
    {
      GlyphPixel(p, l, font, grid, col, row, gx, gy);
    }
  }

  class Console {
    const mem: array<bv8>
    const layout: Layout
    const mode: Mode
    const font: seq<seq<bv8>>
    const cols: nat
    const rows: nat
    var cursorCol: nat
    var cursorRow: nat
    ghost var picture: Picture
    ghost var grid: seq<Line>

    /** Memory holds the picture. */
    ghost predicate Drawable()
      reads this, mem
    {
      && layout.Valid() && mem.Length == layout.height * layout.pitch && mode.Valid() && ValidFont(font)
      && cols == layout.width / CELL && rows == layout.height / CELL
      && Sized(picture, layout) && Holds(mem[..], layout, picture)
    }

    /** The characters on the screen, with the cursor. */
    ghost function Content(): Screen
      reads this
    {
      Screen(grid, cursorCol, cursorRow)
    }

    ghost predicate Valid()
      reads this, mem
    {
      Drawable() && Content().Valid(cols, rows) && Shows(picture, layout, font, grid)
    }

    /** fb_init, for a framebuffer that the boot loader reported.  It accepts any; drawing needs room
        for one character and at most four bytes for each pixel. */
    constructor (mem: array<bv8>, layout: Layout, mode: Mode, font: seq<seq<bv8>>)
      ensures this.mem == mem && this.layout == layout && this.mode == mode && this.font == font
      ensures cols == layout.width / CELL && rows == layout.height / CELL && cursorCol == cursorRow == 0
      ensures layout.Valid() && mem.Length == layout.height * layout.pitch && mode.Valid() && ValidFont(font) ==>
                Drawable()
    {
      this.mem, this.layout, this.mode, this.font := mem, layout, mode, font;
      cols, rows := layout.width / CELL, layout.height / CELL;
      cursorCol, cursorRow := 0, 0;
      picture, grid := if layout.Valid() then Decoded(mem[..], layout) else [], [];
      new;
      if layout.Valid() && mem.Length == layout.height * layout.pitch {
        DecodedHolds(mem[..], layout);
      }
    }

    /** put_pixel_raw: one pixel changes. */
    method PutPixelRaw(x: nat, y: nat, native: bv32)
      requires Drawable() && x < layout.width && y < layout.height
      modifies mem, `picture
      ensures Drawable() && picture == old(picture)[y := old(picture)[y][x := native]]
    {
      hide Holds, StoresPixel, Layout.At;
      ghost var before := mem[..];
      WriteBytes(layout.At(x, y, 0), native, x, y);
      PixelWritten(before, mem[..], layout, picture, x, y, native);
      picture := picture[y := picture[y][x := native]];
    }

    method WriteBytes(pixel: nat, native: bv32, ghost x: nat, ghost y: nat)
      requires layout.Valid() && mem.Length == layout.height * layout.pitch && x < layout.width && y < layout.height
      requires pixel == layout.At(x, y, 0)
      modifies mem
      ensures StoresPixel(old(mem[..]), mem[..], pixel, layout.bytesPerPixel, native)
    {
      hide Layout.At;
      PixelFits(layout, x, y);
      for i := 0 to layout.bytesPerPixel
        invariant forall j :: 0 <= j < i ==> mem[pixel + j] == ByteOf(native, j)
        invariant forall k :: 0 <= k < mem.Length && !(pixel <= k < pixel + i) ==> mem[k] == old(mem[k])
      {
        var b := ShiftedByte(native, i);
        mem[pixel + i] := b;
      }
    }

    /** fb_clear */
    method Clear(rgb: bv32)
      requires Drawable()
      modifies mem, `picture, `grid
      ensures Drawable()
      ensures forall x, y :: 0 <= x < layout.width && 0 <= y < layout.height ==> picture[y][x] == PackColor(mode, rgb)
      ensures grid == seq(rows, _ => BlankLine(cols))
      ensures PackColor(mode, rgb) == 0 && cursorCol < cols && cursorRow < rows ==> Valid()
    {
      hide PackColor, Holds;
      var native := PackColor(mode, rgb);
      for y := 0 to layout.height
        invariant Drawable()
        invariant forall x', y' :: 0 <= x' < layout.width && 0 <= y' < y ==> picture[y'][x'] == native
      {
        for x := 0 to layout.width
          invariant Drawable()
          invariant forall x', y' :: 0 <= x' < layout.width && 0 <= y' < y ==> picture[y'][x'] == native
          invariant forall x' :: 0 <= x' < x ==> picture[y][x'] == native
        {
          PutPixelRaw(x, y, native);
        }
      }
      grid := seq(rows, _ => BlankLine(cols));
    }

    /** draw_glyph: the pixels of one character change. */
    method DrawGlyph(col: nat, row: nat, c: bv8, fgRgb: bv32, bgRgb: bv32)
      requires Valid() && col < cols && row < rows
      modifies mem, `picture, `grid
      ensures Valid()
      ensures grid == old(grid)[row := old(grid)[row][col := Glyph(c, PackColor(mode, fgRgb), PackColor(mode, bgRgb))]]
      ensures forall gx: nat, gy: nat {:trigger font[(c & 0x7f) as int][gy], Pow2(gx)} :: gx < 8 && gy < 8 ==>
                picture[8 * row + gy][8 * col + gx]
                == if font[(c & 0x7f) as int][gy] as nat / Pow2(gx) % 2 == 1 then PackColor(mode, fgRgb)
                   else PackColor(mode, bgRgb)
      ensures forall x: nat, y: nat :: x < layout.width && y < layout.height && (x / 8 != col || y / 8 != row) ==>
                picture[y][x] == old(picture)[y][x]
    {
      hide PackColor, Holds, Shows, DrawnUpTo, Pow2;
      ghost var cell := Glyph(c, PackColor(mode, fgRgb), PackColor(mode, bgRgb));
      ghost var before := picture;
      DrawGlyphPixels(col, row, c, fgRgb, bgRgb, cell);
      GlyphShows(before, picture, layout, font, grid, cell, col, row);
      NothingElseDrawn(before, picture, layout, font, cell, col, row);
      grid := grid[row := grid[row][col := cell]];
      GlyphPixels(picture, layout, font, grid, col, row);
    }

    /** The loops of draw_glyph. */
    method DrawGlyphPixels(col: nat, row: nat, c: bv8, fgRgb: bv32, bgRgb: bv32, ghost cell: Cell)
      requires Drawable() && col < cols && row < rows
      requires cell == Glyph(c, PackColor(mode, fgRgb), PackColor(mode, bgRgb))
      modifies mem, `picture
      ensures Drawable() && DrawnUpTo(old(picture), picture, layout, font, cell, col, row, 0, CELL)
    {
      hide PackColor, Holds, CellColor, DrawnBefore, DrawnUpTo;
      var fg := PackColor(mode, fgRgb);
      var bg := PackColor(mode, bgRgb);
      var glyph := font[(c & 0x7f) as int];
      var originX, originY := col * CELL, row * CELL;
      ghost var before := picture;
      NothingDrawn(before, layout, font, cell, col, row);
      for gy := 0 to CELL
        invariant Drawable() && DrawnUpTo(before, picture, layout, font, cell, col, row, 0, gy)
      {
        DrawGlyphLine(originX, originY, gy, glyph[gy], fg, bg, before, cell, col, row);
      }
    }

    /** The inner loop of draw_glyph. */
    method DrawGlyphLine(originX: nat, originY: nat, gy: nat, bits: bv8, fg: bv32, bg: bv32,
                         ghost before: Picture, ghost cell: Cell, ghost col: nat, ghost row: nat)
      requires Drawable() && Sized(before, layout) && gy < CELL && cell.Glyph? &&
               bits == font[(cell.c & 0x7f) as int][gy]
      requires fg == cell.fg && bg == cell.bg
      requires originX == col * CELL && col < cols && originY == row * CELL && row < rows
      requires DrawnUpTo(before, picture, layout, font, cell, col, row, 0, gy)
      modifies mem, `picture
      ensures Drawable() && DrawnUpTo(before, picture, layout, font, cell, col, row, 0, gy + 1)
    {
      hide Holds, DrawnUpTo, PackColor;
      for gx := 0 to CELL
        invariant Drawable() && DrawnUpTo(before, picture, layout, font, cell, col, row, gx, gy)
      {
        var isSet := BitIsSet(bits, gx);
        ghost var sofar := picture;
        PutPixelRaw(originX + gx, originY + gy, if isSet then fg else bg);
        OnePixelMore(before, sofar, picture, layout, font, cell, col, row, gx, gy);
      }
      LineDrawn(before, picture, layout, font, cell, col, row, gy);
    }

    /** scroll_one_row */
    method ScrollOneRow()
      requires Drawable() && Shows(picture, layout, font, grid)
      requires |grid| == rows && forall k :: 0 <= k < rows ==> |grid[k]| == cols
      modifies mem, `picture, `grid
      ensures Drawable() && Shows(picture, layout, font, grid)
      ensures grid == old(grid)[1..] + [BlankLine(cols)]
    {
      hide Holds, Shows, GridColor, ScrolledUp;
      var rowBytes := CELL * layout.pitch;
      var remainingBytes := (layout.height - CELL) * layout.pitch;
      Distribute(layout.height - CELL, CELL, layout.pitch);
      ghost var before := mem[..];
      MemMove(mem, 0, rowBytes, remainingBytes);
      ghost var moved := mem[..];
      MemSet(mem, remainingBytes, 0, rowBytes);
      BytesMoved(before, mem[..], layout, picture);
      ScrollShows(picture, layout, font, grid);
      picture := ScrolledUp(picture, layout);
      grid := grid[1..] + [BlankLine(cols)];
    }

    /** fb_console_putc */
    method Putc(c: bv8, fgRgb: bv32, bgRgb: bv32)
      requires Valid()
      modifies mem, `picture, `grid, `cursorCol, `cursorRow
      ensures Valid() && Content() == old(Content()).Put(c, PackColor(mode, fgRgb), PackColor(mode, bgRgb), cols)
    {
      hide PackColor, Holds, GridColor;
      if c == NEWLINE {
        cursorCol := 0;
        cursorRow := cursorRow + 1;
      } else {
        DrawGlyph(cursorCol, cursorRow, c, fgRgb, bgRgb);
        cursorCol := cursorCol + 1;
        if cursorCol >= cols {
          cursorCol := 0;
          cursorRow := cursorRow + 1;
        }
      }
      KeepCursorOnScreen();
    }

    /** The end of fb_console_putc. */
    method KeepCursorOnScreen()
      requires Drawable() && Shows(picture, layout, font, grid)
      requires |grid| == rows && (forall k :: 0 <= k < rows ==> |grid[k]| == cols)
      requires cursorCol < cols && cursorRow <= rows
      modifies mem, `picture, `grid, `cursorRow
      ensures Valid()
      ensures Content() == if old(cursorRow) < rows then old(Content())
                           else Screen(old(grid)[1..] + [BlankLine(cols)], cursorCol, rows - 1)
    {
      if cursorRow >= rows {
        ScrollOneRow();
        cursorRow := rows - 1;
      }
    }

    /** fb_console_write: the characters before the terminating zero byte. */
    method Write(str: seq<bv8>, fgRgb: bv32, bgRgb: bv32)
      requires Valid() && 0 in str
      modifies mem, `picture, `grid, `cursorCol, `cursorRow
      ensures Valid()
      ensures exists n :: 0 <= n < |str| && str[n] == 0 && 0 !in str[..n]
                && Content() == old(Content())
                                .PutAll(Strokes(str[..n], PackColor(mode, fgRgb), PackColor(mode, bgRgb)), cols, rows)
    {
      hide PackColor, Holds, Shows, Screen.PutAll, Strokes, Layout.Valid;
      ghost var start, fg, bg := Content(), PackColor(mode, fgRgb), PackColor(mode, bgRgb);
      NoStroke(start, str, fg, bg, cols, rows);
      var n := 0;
      while str[n] != 0
        invariant Valid() && 0 <= n < |str| && 0 !in str[..n] && 0 in str[n..]
        invariant Content() == start.PutAll(Strokes(str[..n], fg, bg), cols, rows)
        decreases |str| - n
      {
        Putc(str[n], fgRgb, bgRgb);
        OneStrokeMore(start, str, n, fg, bg, cols, rows);
        assert str[n..] == [str[n]] + str[n + 1..];
        n := n + 1;
      }
    }

    /** What a console shows that was cleared to black and then written to, character by character, is the
        end of everything written, wrapped at its width. */
    method ClearAndWrite(strokes: seq<Stroke>)
      requires Drawable() && cursorCol == cursorRow == 0
      modifies mem, `picture, `grid, `cursorCol, `cursorRow
      ensures Valid()
      ensures TypeAll(Paper([BlankLine(cols)], 0), Packed(mode, strokes), cols).SeenOn(Content(), cols, rows)
    {
      hide PackColor, Holds, Shows, GridColor, Screen.PutAll, TypeAll, Paper.SeenOn;
      BlackIsZero(mode);
      Clear(0);
      ghost var start := Content();
      NothingPut(start, mode, strokes, cols, rows);
      for n := 0 to |strokes|
        invariant Valid() && start.Valid(cols, rows)
        invariant Content() == start.PutAll(Packed(mode, strokes[..n]), cols, rows)
      {
        Putc(strokes[n].c, strokes[n].fg, strokes[n].bg);
        OneMorePut(start, mode, strokes, n, cols, rows);
      }
      assert strokes[..|strokes|] == strokes;
      ScreenShowsTheEnd(Packed(mode, strokes), cols, rows);
    }
  }

  /** The strokes in the colours that are stored. */
  function Packed(mode: Mode, strokes: seq<Stroke>): (s: seq<Stroke>)
    requires mode.Valid()
    ensures |s| == |strokes|
    ensures forall k :: 0 <= k < |s| ==>
              s[k] == Stroke(strokes[k].c, PackColor(mode, strokes[k].fg), PackColor(mode, strokes[k].bg))
  {
    seq(|strokes|, k requires 0 <= k < |strokes| =>
      Stroke(strokes[k].c, PackColor(mode, strokes[k].fg), PackColor(mode, strokes[k].bg)))
  }

  lemma NothingPut(start: Screen, mode: Mode, strokes: seq<Stroke>, cols: nat, rows: nat)
    requires start.Valid(cols, rows) && mode.Valid()
    ensures start.PutAll(Packed(mode, strokes[..0]), cols, rows) == start
  {
  }

  lemma OneMorePut(start: Screen, mode: Mode, strokes: seq<Stroke>, n: nat, cols: nat, rows: nat)
    requires start.Valid(cols, rows) && mode.Valid() && n < |strokes|
    ensures start.PutAll(Packed(mode, strokes[..n + 1]), cols, rows)
            == start.PutAll(Packed(mode, strokes[..n]), cols, rows)
               .Put(strokes[n].c, PackColor(mode, strokes[n].fg), PackColor(mode, strokes[n].bg), cols)
  {
    hide PackColor;
    assert Packed(mode, strokes[..n + 1])[..n] == Packed(mode, strokes[..n]);
  }

  lemma NoStroke(start: Screen, str: seq<bv8>, fg: bv32, bg: bv32, cols: nat, rows: nat)
    requires start.Valid(cols, rows)
    ensures start.PutAll(Strokes(str[..0], fg, bg), cols, rows) == start
  {
  }

  lemma OneStrokeMore(start: Screen, str: seq<bv8>, n: nat, fg: bv32, bg: bv32, cols: nat, rows: nat)
    requires start.Valid(cols, rows) && n < |str|
    ensures start.PutAll(Strokes(str[..n + 1], fg, bg), cols, rows)
            == start.PutAll(Strokes(str[..n], fg, bg), cols, rows).Put(str[n], fg, bg, cols)
  {
    assert Strokes(str[..n + 1], fg, bg)[..n] == Strokes(str[..n], fg, bg);
  }

  /** The picture that memory holds, whatever is in it. */
  function Decoded(bytes: seq<bv8>, l: Layout): (p: Picture)
    requires l.Valid()
    ensures Sized(p, l)
  {
    seq(l.height, (y: nat) => seq(l.width, (x: nat) => DecodedPixel(bytes, l, x, y)))
  }

  function DecodedPixel(bytes: seq<bv8>, l: Layout, x: nat, y: nat): bv32 {
    FromBytes(ByteAt(bytes, l.At(x, y, 0)), ByteAt(bytes, l.At(x, y, 1)),
              ByteAt(bytes, l.At(x, y, 2)), ByteAt(bytes, l.At(x, y, 3)))
  }

  function ByteAt(bytes: seq<bv8>, k: nat): bv8 { if k < |bytes| then bytes[k] else 0 }

  function FromBytes(b0: bv8, b1: bv8, b2: bv8, b3: bv8): bv32 {
    (b0 as bv32) | ((b1 as bv32) << 8) | ((b2 as bv32) << 16) | ((b3 as bv32) << 24)
  }

  lemma WordsOfBytes(a: bv32, b: bv32, c: bv32, d: bv32)
    requires a < 256 && b < 256 && c < 256 && d < 256
    ensures (a | (b << 8) | (c << 16) | (d << 24)) & 0xff == a
    ensures ((a | (b << 8) | (c << 16) | (d << 24)) >> 8) & 0xff == b
    ensures ((a | (b << 8) | (c << 16) | (d << 24)) >> 16) & 0xff == c
    ensures ((a | (b << 8) | (c << 16) | (d << 24)) >> 24) & 0xff == d
  {
  }

  lemma WideByte(b: bv8)
    ensures (b as bv32) < 256 && (b as bv32) as bv8 == b
  {
  }

  lemma BytesComeBack(b0: bv8, b1: bv8, b2: bv8, b3: bv8, i: nat)
    requires i < 4
    ensures ByteOf(FromBytes(b0, b1, b2, b3), i) ==
            if i == 0 then b0 else if i == 1 then b1 else if i == 2 then b2 else b3
  {
    FourBytes(FromBytes(b0, b1, b2, b3));
    WideByte(b0);
    WideByte(b1);
    WideByte(b2);
    WideByte(b3);
    WordsOfBytes(b0 as bv32, b1 as bv32, b2 as bv32, b3 as bv32);
  }

  lemma DecodedHolds(bytes: seq<bv8>, l: Layout)
    requires l.Valid() && |bytes| == l.height * l.pitch
    ensures Holds(bytes, l, Decoded(bytes, l))
  {
    forall x: nat, y: nat, i: nat {:trigger l.At(x, y, i)} | x < l.width && y < l.height && i < l.bytesPerPixel
      ensures l.At(x, y, i) < |bytes| && bytes[l.At(x, y, i)] == ByteOf(Decoded(bytes, l)[y][x], i)
    {
      InLine(l, x, y, i, l.height);
      var b0, b1 := ByteAt(bytes, l.At(x, y, 0)), ByteAt(bytes, l.At(x, y, 1));
      var b2, b3 := ByteAt(bytes, l.At(x, y, 2)), ByteAt(bytes, l.At(x, y, 3));
      BytesComeBack(b0, b1, b2, b3, i);
      assert Decoded(bytes, l)[y][x] == DecodedPixel(bytes, l, x, y);
    }
  }

  /** The n bytes from at on are now those of the colour, and no other byte has changed. */
  ghost predicate StoresPixel(before: seq<bv8>, after: seq<bv8>, at: nat, n: nat, native: bv32) {
    && |after| == |before| && at + n <= |after|
    && (forall i :: 0 <= i < n ==> after[at + i] == ByteOf(native, i))
    && forall k :: 0 <= k < |after| && !(at <= k < at + n) ==> after[k] == before[k]
  }

  lemma PixelWritten(before: seq<bv8>, after: seq<bv8>, l: Layout, p: Picture, x: nat, y: nat, native: bv32)
    requires l.Valid() && Sized(p, l) && |before| == |after| == l.height * l.pitch && Holds(before, l, p)
    requires x < l.width && y < l.height
    requires StoresPixel(before, after, l.At(x, y, 0), l.bytesPerPixel, native)
    ensures Holds(after, l, p[y := p[y][x := native]])
  {
    var q := p[y := p[y][x := native]];
    forall x': nat, y': nat, i: nat {:trigger l.At(x', y', i)} | x' < l.width && y' < l.height && i < l.bytesPerPixel
      ensures l.At(x', y', i) < |after| && after[l.At(x', y', i)] == ByteOf(q[y'][x'], i)
    {
      assert l.At(x', y', i) < |before| && before[l.At(x', y', i)] == ByteOf(p[y'][x'], i);
      if x' == x && y' == y {
        assert l.At(x, y, i) == l.At(x, y, 0) + i;
      } else {
        var k := l.At(x', y', i) - l.At(x, y, 0);
        if 0 <= k < l.bytesPerPixel {
          PixelsApart(l, x, y, k, x', y', i);
        }
      }
    }
  }

  lemma BytesMoved(before: seq<bv8>, after: seq<bv8>, l: Layout, p: Picture)
    requires l.Valid() && Sized(p, l) && |before| == |after| == l.height * l.pitch && Holds(before, l, p)
    requires (l.height - CELL) * l.pitch + CELL * l.pitch == |after|
    requires forall k :: 0 <= k < (l.height - CELL) * l.pitch ==> after[k] == before[k + CELL * l.pitch]
    requires forall k :: (l.height - CELL) * l.pitch <= k < |after| ==> after[k] == 0
    ensures Sized(ScrolledUp(p, l), l) && Holds(after, l, ScrolledUp(p, l))
  {
    var q := ScrolledUp(p, l);
    ScrollMovesLines(p, l, 0);
    forall x: nat, y: nat, i: nat {:trigger l.At(x, y, i)} | x < l.width && y < l.height && i < l.bytesPerPixel
      ensures l.At(x, y, i) < |after| && after[l.At(x, y, i)] == ByteOf(q[y][x], i)
    {
      InLine(l, x, y, i, l.height);
      ScrollMovesLines(p, l, y);
      if y < l.height - CELL {
        InLine(l, x, y, i, l.height - CELL);
        Distribute(y, CELL, l.pitch);
        assert l.At(x, y + CELL, i) == l.At(x, y, i) + CELL * l.pitch;
      } else {
        AfterLine(l, x, y, i, l.height - CELL);
        ZeroBytes(i);
      }
    }
  }

  /** The pixels of the character before (gx, gy) are drawn, and the others are as before. */
  ghost predicate DrawnUpTo(before: Picture, p: Picture, l: Layout, font: seq<seq<bv8>>, cell: Cell,
                            col: nat, row: nat, gx: nat, gy: nat)
    requires Sized(before, l) && Sized(p, l) && ValidFont(font)
  {
    forall x: nat, y: nat :: x < l.width && y < l.height ==>
      p[y][x] == if DrawnBefore(x, y, col, row, gx, gy) then CellColor(font, cell, x % CELL, y % CELL) else before[y][x]
  }

  lemma NothingDrawn(p: Picture, l: Layout, font: seq<seq<bv8>>, cell: Cell, col: nat, row: nat)
    requires Sized(p, l) && ValidFont(font)
    ensures DrawnUpTo(p, p, l, font, cell, col, row, 0, 0)
  {
  }

  lemma LineDrawn(before: Picture, p: Picture, l: Layout, font: seq<seq<bv8>>, cell: Cell, col: nat, row: nat, gy: nat)
    requires Sized(before, l) && Sized(p, l) && ValidFont(font)
    requires DrawnUpTo(before, p, l, font, cell, col, row, CELL, gy)
    ensures DrawnUpTo(before, p, l, font, cell, col, row, 0, gy + 1)
  {
  }

  lemma OnePixelMore(before: Picture, p: Picture, q: Picture, l: Layout, font: seq<seq<bv8>>, cell: Cell,
                     col: nat, row: nat, gx: nat, gy: nat)
    requires Sized(before, l) && Sized(p, l) && Sized(q, l) && ValidFont(font) && gx < CELL && gy < CELL
    requires col * CELL + gx < l.width && row * CELL + gy < l.height
    requires DrawnUpTo(before, p, l, font, cell, col, row, gx, gy)
    requires q == p[row * CELL + gy := p[row * CELL + gy][col * CELL + gx := CellColor(font, cell, gx, gy)]]
    ensures DrawnUpTo(before, q, l, font, cell, col, row, gx + 1, gy)
  {
  }

  lemma NothingElseDrawn(before: Picture, p: Picture, l: Layout, font: seq<seq<bv8>>, cell: Cell, col: nat, row: nat)
    requires Sized(before, l) && Sized(p, l) && ValidFont(font)
    requires DrawnUpTo(before, p, l, font, cell, col, row, 0, CELL)
    ensures forall x: nat, y: nat :: x < l.width && y < l.height && (x / 8 != col || y / 8 != row) ==>
              p[y][x] == before[y][x]
  {
  }

  lemma GlyphShows(before: Picture, p: Picture, l: Layout, font: seq<seq<bv8>>, grid: seq<Line>, cell: Cell,
                   col: nat, row: nat)
    requires Sized(before, l) && Sized(p, l) && ValidFont(font) && Shows(before, l, font, grid)
    requires row < |grid| && col < |grid[row]|
    requires DrawnUpTo(before, p, l, font, cell, col, row, 0, CELL)
    ensures Shows(p, l, font, grid[row := grid[row][col := cell]])
  {
  }
}
