/**
 The line painter of mpd-show.c: a progress highlight counted down in an unsigned
 integer that wraps, and a line that scrolls when it is too long.
 */
module ShowPainter {
  import opened Arithmetic
  import opened Common

  datatype Mode = Grey | Hilit | Normal

  datatype Cell = Cell(ch: char, mode: Mode)

  const UINT_RANGE := 0x1_0000_0000
  const HALF_RANGE := 0x8000_0000

  /** The cells of one terminal line and the colour in force. */
  class Terminal {
    var cells: seq<Cell>
    var mode: Mode

    constructor ()
      ensures cells == [] && mode == Normal
    {
      cells, mode := [], Normal;
    }

    method BeginLine(mode: Mode)
      modifies this
      ensures cells == [] && this.mode == mode
    {
      cells, this.mode := [], mode;
    }

    method SetNormal()
      modifies this`mode
      ensures mode == Normal
    {
      mode := Normal;
    }

    method Put(str: string)
      modifies this`cells
      ensures cells == old(cells) + InMode(str, mode)
    {
      cells := cells + InMode(str, mode);
    }
  }

  function InMode(str: string, mode: Mode): (r: seq<Cell>)
    ensures |r| == |str| && forall i | 0 <= i < |str| :: r[i] == Cell(str[i], mode)
  {
    seq(|str|, i requires 0 <= i < |str| => Cell(str[i], mode))
  }

  /** A line whose first `pos` cells are highlighted. */
  function Painted(text: string, pos: nat, rest: Mode): (r: seq<Cell>)
    ensures |r| == |text|
    ensures forall i | 0 <= i < |text| :: r[i] == Cell(text[i], if i < pos then Hilit else rest)
  {
    seq(|text|, i requires 0 <= i < |text| => Cell(text[i], if i < pos then Hilit else rest))
  }

  /** Text on one side of the end of the highlight is painted in one colour. */
  lemma PaintedAppends(text: string, str: string, pos: nat, rest: Mode)
    ensures |text| + |str| <= pos ==> Painted(text, pos, rest) + InMode(str, Hilit) == Painted(text + str, pos, rest)
    ensures pos <= |text| ==> Painted(text, pos, rest) + InMode(str, rest) == Painted(text + str, pos, rest)
  {
  }

  // ---------- scrolling ----------

  const SEPARATOR := " * * * "

  function Loop(line: string): string {
    line + SEPARATOR
  }

  function Period(line: string): nat {
    |line| + 7
  }

  /** Cell `k` of the endlessly repeated line and separator. */
  function Endless(line: string, k: nat): char
    decreases k
  {
    if k < Period(line) then Loop(line)[k] else Endless(line, k - Period(line))
  }

  /** `n` of those cells, from `scroll` on. */
  function Window(line: string, scroll: nat, n: nat): (r: string)
    ensures |r| == n
    ensures forall j | 0 <= j < n :: r[j] == Endless(line, scroll + j)
  {
    seq(n, j requires 0 <= j < n => Endless(line, scroll + j))
  }

  /** The end of the line, as far as `n` characters go. */
  function LineEnd(line: string, scroll: nat, n: nat): string {
    if |line| <= scroll then "" else if |line| - scroll < n then line[scroll..] else line[scroll..scroll + n]
  }

  function Skipped(line: string, scroll: nat): nat {
    if scroll > |line| then scroll - |line| else 0
  }

  /** The separator, less what has scrolled out of sight. */
  function Gap(line: string, scroll: nat, n: nat): string
    requires scroll < Period(line)
  {
    var skip := Skipped(line, scroll);
    if 7 - skip < n then SEPARATOR[skip..] else SEPARATOR[skip..skip + n]
  }

  /** Cell `j` of the window, in each of the three pieces. */
  lemma CellOfPieces(line: string, scroll: nat, n: nat, a: string, b: string, j: nat)
    requires scroll < Period(line) && n <= |line| && j < n
    requires a == LineEnd(line, scroll, n) && b == Gap(line, scroll, n - |a|)
    ensures Endless(line, scroll + j) ==
            if j < |a| then a[j] else if j < |a| + |b| then b[j - |a|] else line[j - |a| - |b|]
  {
    if j < |a| {
      assert a[j] == line[scroll + j];
    } else if j < |a| + |b| {
      var k := Skipped(line, scroll) + j - |a|;
      assert b[j - |a|] == SEPARATOR[k];
      assert scroll + j == |line| + k && Loop(line)[|line| + k] == SEPARATOR[k];
    } else {
      var k := j - |a| - |b|;
      assert scroll + j == Period(line) + k && Endless(line, k) == Loop(line)[k] == line[k];
    }
  }

  /** What outputScrolled prints is the window: end of the line, separator, start again. */
  lemma WindowPieces(line: string, scroll: nat, n: nat)
    requires scroll < Period(line) && n <= |line|
    ensures var a := LineEnd(line, scroll, n); var b := Gap(line, scroll, n - |a|);
            Window(line, scroll, n) == a + b + line[..n - |a| - |b|]
  {
    var a := LineEnd(line, scroll, n);
    var b := Gap(line, scroll, n - |a|);
    var all := a + b + line[..n - |a| - |b|];
    forall j | 0 <= j < n
      ensures Window(line, scroll, n)[j] == all[j]
    {
      CellOfPieces(line, scroll, n, a, b, j);
    }
    assert |all| == n;
  }

  lemma Prefixed(text: string, line: string, scroll: nat, n: nat)
    requires scroll < Period(line) && n <= |line|
    ensures var a := LineEnd(line, scroll, n); var b := Gap(line, scroll, n - |a|);
            text + a + b + line[..n - |a| - |b|] == text + Window(line, scroll, n)
  {
    var a := LineEnd(line, scroll, n);
    var b := Gap(line, scroll, n - |a|);
    var c := line[..n - |a| - |b|];
    WindowPieces(line, scroll, n);
    Associative(text, a, b);
    Associative(text, a + b, c);
  }

  /** The cells repeat with period |line| + 7. */
  lemma {:induction false} EndlessRepeats(line: string, k: nat)
    ensures Endless(line, k) == (line + " * * * ")[k % (|line| + 7)]
    decreases k
  {
    var p := Period(line);
    if k < p {
      DivModUnique(k, p, 0, k);
    } else {
      EndlessRepeats(line, k - p);
      ModAdd(k - p, 1, p);
    }
  }

  /** After one more call the same text has moved by one cell. */
  lemma RotatesByOne(line: string, scroll: nat, n: nat)
    requires scroll < Period(line)
    ensures var next := (scroll + 1) % Period(line);
            next < Period(line) &&
            forall j | 0 <= j < n - 1 :: Window(line, next, n)[j] == Window(line, scroll, n)[j + 1]
  {
    if scroll + 1 == Period(line) {
      DivModUnique(scroll + 1, Period(line), 1, 0);
    } else {
      DivModUnique(scroll + 1, Period(line), 0, scroll + 1);
    }
  }

  /** `scroll` after `k` calls on an unchanged line. */
  function ScrollAfter(line: string, scroll: nat, k: nat): nat {
    if k == 0 then scroll else (ScrollAfter(line, scroll, k - 1) + 1) % Period(line)
  }

  lemma {:induction false} ScrollAfterIs(line: string, scroll: nat, k: nat)
    requires scroll < Period(line)
    ensures ScrollAfter(line, scroll, k) == (scroll + k) % Period(line)
  {
    if k > 0 {
      ScrollAfterIs(line, scroll, k - 1);
      NextMod(scroll + k - 1, Period(line));
    }
  }

  /** The offset returns exactly after every |line| + 7 calls. */
  lemma ScrollPeriod(line: string, scroll: nat, k: nat)
    requires scroll < Period(line)
    ensures ScrollAfter(line, scroll, k) == scroll <==> k % Period(line) == 0
  {
    var p := Period(line);
    ScrollAfterIs(line, scroll, k);
    var r := scroll + k % p;
    SumMod(scroll, k, p);
    DivModUnique(r, p, if r < p then 0 else 1, if r < p then r else r - p);
  }

  // ---------- painting ----------

  /** An int as an unsigned one. */
  function Unsigned(i: int): (u: nat)
    requires -HALF_RANGE <= i < HALF_RANGE
    ensures u < UINT_RANGE && (u == 0 <==> i == 0)
  {
    if i < 0 then i + UINT_RANGE else i
  }

  function Over(x: nat, u: nat): nat
    requires 0 < u
  {
    x / u
  }

  /** The part of `columns` that `pos` is of `len`, in unsigned arithmetic. */
  function HilightPosOf(pos: int, columns: nat, len: int): nat
    requires -HALF_RANGE <= len < HALF_RANGE
  {
    if len == 0 then 0 else Over((pos * columns) % UINT_RANGE, Unsigned(len))
  }

  /** It is not clamped: it is within the columns as long as the song is not longer than it says. */
  lemma HilightIsWithinIff(pos: nat, columns: nat, len: nat)
    requires 0 < len < HALF_RANGE && pos * columns < UINT_RANGE
    ensures var h := HilightPosOf(pos, columns, len); h * len <= pos * columns < (h + 1) * len
    ensures HilightPosOf(pos, columns, len) <= columns <==> pos * columns < columns * len + len
    ensures pos <= len ==> HilightPosOf(pos, columns, len) <= columns
    ensures HilightPosOf(pos, columns, 0) == 0
  {
    var x := pos * columns;
    var q := x / len;
    assert HilightPosOf(pos, columns, len) == q && q * len <= x < q * len + len == (q + 1) * len;
    if q <= columns {
      Times(q, columns, len);
    } else {
      Times(columns + 1, q, len);
    }
    if pos <= len {
      Times(pos, len, columns);
    }
  }

  lemma Times(a: nat, b: nat, n: nat)
    requires a <= b
    ensures a * n <= b * n
  {
  }

  class Painter {
    const term: Terminal
    var error: bool
    var state: char
    var columns: nat
    var hilightPos: nat
    var line: string
    var scroll: nat
    var hilightLeft: nat

    constructor (term: Terminal)
      ensures this.term == term && columns == 80 && scroll == 0 && line == ""
    {
      this.term := term;
      error, state, columns, hilightPos, line, scroll, hilightLeft := false, '?', 80, 0, "", 0, 0;
    }

    /** How many cells of the line are to be highlighted. */
    ghost function Pos(): nat
      reads this`error, this`hilightPos
    {
      if error then 0 else hilightPos
    }

    ghost function Rest(): Mode
      reads this`error
    {
      if error then Grey else Normal
    }

    /** `text` stands on the line, and counter and colour are right for what follows. */
    ghost predicate Showing(text: string)
      reads this`error, this`hilightPos, this`hilightLeft, term
    {
      && term.cells == Painted(text, Pos(), Rest())
      && Pos() < UINT_RANGE && |text| < HALF_RANGE
      && hilightLeft == (if |text| <= Pos() then Pos() - |text| else UINT_RANGE + Pos() - |text|)
      && term.mode == if |text| < Pos() then Hilit else Rest()
    }

    /** outs: switches the highlight off inside `str` if it ends there. */
    method Outs(str: string, ghost text: string)
      requires Showing(text) && |text| + |str| < HALF_RANGE
      modifies this`hilightLeft, term
      ensures Showing(text + str)
    {
      var rest := str;
      ghost var shown := text;
      if hilightLeft != 0 && |str| >= hilightLeft {
        shown := text + str[..hilightLeft];
        rest := str[hilightLeft..];
        OutsHilit(str[..hilightLeft], text);
      }
      assert shown + rest == text + str;
      if rest != "" {
        OutsRest(rest, shown);
      }
    }

    /** The highlighted part, and the end of the highlight. */
    method OutsHilit(str: string, ghost text: string)
      requires Showing(text) && hilightLeft == |str| != 0 && |text| + |str| < HALF_RANGE
      modifies this`hilightLeft, term
      ensures Showing(text + str) && hilightLeft == 0
    {
      PaintedAppends(text, str, Pos(), Rest());
      term.Put(str);
      hilightLeft := 0;
      term.SetNormal();
    }

    /** Text in one colour. */
    method OutsRest(str: string, ghost text: string)
      requires Showing(text) && (hilightLeft == 0 || |str| < hilightLeft) && |text| + |str| < HALF_RANGE
      modifies this`hilightLeft, term
      ensures Showing(text + str)
    {
      PaintedAppends(text, str, Pos(), Rest());
      term.Put(str);
      hilightLeft := (hilightLeft - |str|) % UINT_RANGE;
    }

    /** outputScrolled: a window of the line, and the next one next time. */
    method OutputScrolled(columnsLeft: nat, ghost text: string)
      requires 2 <= columnsLeft <= |line| && scroll < Period(line)
      requires Showing(text) && |text| + columnsLeft < HALF_RANGE
      modifies this`hilightLeft, this`scroll, term
      ensures Showing(text + Window(line, old(scroll), columnsLeft - 1))
      ensures scroll == (old(scroll) + 1) % Period(line)
    {
      ghost var n, was := columnsLeft - 1, scroll;
      OutputPieces(columnsLeft, text);
      scroll := (scroll + 1) % (|line| + 7);
      Prefixed(text, line, was, n);
    }

    /** Its three steps: the end of the line, the separator, and the line again. */
    method OutputPieces(columnsLeft: nat, ghost text: string)
      requires 2 <= columnsLeft <= |line| && scroll < Period(line)
      requires Showing(text) && |text| + columnsLeft < HALF_RANGE
      modifies this`hilightLeft, term
      ensures var n := columnsLeft - 1; var a := LineEnd(line, scroll, n); var b := Gap(line, scroll, n - |a|);
              Showing(text + a + b + line[..n - |a| - |b|])
    {
      ghost var a := LineEnd(line, scroll, columnsLeft - 1);
      ghost var b := Gap(line, scroll, columnsLeft - 1 - |a|);
      var cols := columnsLeft;
      cols := OutputLineEnd(cols, text);
      ghost var shown := text + a;
      cols := OutputGap(cols, shown);
      cols := OutputStart(cols, shown + b);
    }

    /** The last step of outputScrolled. */
    method OutputStart(columnsLeft: nat, ghost text: string) returns (cols: nat)
      requires 1 <= columnsLeft <= |line| + 1 && Showing(text) && |text| + columnsLeft < HALF_RANGE
      modifies this`hilightLeft, term
      ensures cols == 1 && Showing(text + line[..columnsLeft - 1])
    {
      cols := columnsLeft;
      assert text + "" == text;
      if cols != 1 {
        Outs(line[..cols - 1], text);
        cols := 1;
      }
    }

    /** The first step of outputScrolled. */
    method OutputLineEnd(columnsLeft: nat, ghost text: string) returns (cols: nat)
      requires 1 <= columnsLeft && Showing(text) && |text| + columnsLeft < HALF_RANGE
      modifies this`hilightLeft, term
      ensures var a := LineEnd(line, scroll, columnsLeft - 1); cols == columnsLeft - |a| && Showing(text + a)
    {
      cols := columnsLeft;
      assert text + "" == text;
      if scroll < |line| {
        var len := |line| - scroll;
        if len >= cols {
          len := cols - 1;
        }
        Outs(line[scroll..scroll + len], text);
        cols := cols - len;
      }
    }

    /** The second step of outputScrolled. */
    method OutputGap(columnsLeft: nat, ghost text: string) returns (cols: nat)
      requires 1 <= columnsLeft && scroll < Period(line) && Showing(text) && |text| + columnsLeft < HALF_RANGE
      modifies this`hilightLeft, term
      ensures var b := Gap(line, scroll, columnsLeft - 1); cols == columnsLeft - |b| && Showing(text + b)
    {
      cols := columnsLeft;
      assert text + "" == text;
      if cols != 1 {
        var skip, len := 0, 7;
        if scroll > |line| {
          skip := scroll - |line|;
          len := len - skip;
        }
        if len >= cols {
          len := cols - 1;
        }
        var part := SEPARATOR[skip..skip + len];
        assert part == Gap(line, scroll, columnsLeft - 1);
        Outs(part, text);
        cols := cols - len;
      }
    }

    /** The last step of output: blanks under a highlight that is not used up. */
    method Pad(cols: nat, ghost text: string)
      requires Showing(text) && cols < HALF_RANGE
      modifies term
      ensures var n := if |text| < Pos() && Pos() - |text| < cols then Pos() - |text| else 0;
              term.cells == Painted(text + seq(n, i => ' '), Pos(), Rest())
    {
      assert text + seq(0, i => ' ') == text;
      if hilightLeft != 0 && hilightLeft < cols {
        ghost var blanks := seq(hilightLeft, i => ' ');
        term.Put(seq(hilightLeft, i => ' '));
        term.SetNormal();
        assert term.cells == Painted(text + blanks, Pos(), Rest());
      }
    }

    /** The text of a whole line before the padding. */
    ghost function Text(): string
      reads this
      requires scroll < Period(line)
    {
      if columns == 1 then [state]
      else if columns <= 3 then [state, ' ']
      else [state, ' '] + if |line| < columns - 2 then line else Window(line, scroll, columns - 3)
    }

    /** Cell by cell: state, blank, and the line or what of its endless repetition comes now. */
    lemma LineCells(j: nat)
      requires 1 <= columns && scroll < Period(line) && j < |Text()|
      ensures |Text()| == if columns <= 3 then (if columns == 1 then 1 else 2)
                          else if |line| + 2 < columns then |line| + 2 else columns - 1
      ensures Text()[j] == if j == 0 then state
                           else if j == 1 then ' '
                           else if |line| + 2 < columns then line[j - 2]
                           else Endless(line, scroll + j - 2)
    {
    }

    /** Blanks that carry the highlight on, when it does not end in the text. */
    ghost function Padding(): nat
      reads this
      requires scroll < Period(line)
    {
      if columns > 3 && |Text()| < Pos() && Pos() - |Text()| < columns - 2 then Pos() - |Text()| else 0
    }

    /** The line fits the terminal unless a highlight that is too long is carried on by blanks. */
    lemma FitsIff()
      requires 1 <= columns && scroll < Period(line)
      ensures |Text()| + Padding() <= columns <==>
              columns <= 3 || Pos() <= columns || Pos() - |Text()| >= columns - 2
    {
    }

    /** Such a line: 88 cells on a terminal of 80, when 330 of 300 seconds have passed. */
    lemma LineTooWide()
      requires !error && columns == 80 && |line| == 60 && scroll < Period(line)
      requires hilightPos == HilightPosOf(330, columns, 300)
      ensures |Text()| + Padding() == 88
    {
    }

    /** calculateHilightPos */
    method CalculateHilightPos(pos: int, len: int)
      requires -HALF_RANGE <= len < HALF_RANGE
      modifies this`hilightPos
      ensures hilightPos == if error then old(hilightPos) else HilightPosOf(pos, columns, len)
    {
      if !error {
        hilightPos := if len != 0 then Over((pos * columns) % UINT_RANGE, Unsigned(len)) else 0;
      }
    }

    /** The start of output: the state character and a blank, if there is room. */
    method OutputState() returns (cols: nat)
      requires 1 <= columns < HALF_RANGE && hilightPos < UINT_RANGE
      modifies this`hilightLeft, term
      ensures cols == (if columns <= 3 then 0 else columns - 2)
      ensures Showing(if columns == 1 then [state] else [state, ' '])
    {
      hilightLeft := if error then 0 else hilightPos;
      term.BeginLine(if error then Grey else if hilightLeft != 0 then Hilit else Normal);
      assert Showing("");
      assert "" + [state] == [state] && [state] + [' '] == [state, ' '];
      Outs([state], "");
      cols := columns - 1;
      if cols == 0 {
        return;
      }
      Outs([' '], [state]);
      cols := cols - 1;
      if cols == 1 {
        cols := 0;
      }
    }

    /** output: cell i is highlighted exactly when i < hilightPos, and never after an error. */
    method Output()
      requires 1 <= columns < HALF_RANGE && hilightPos < UINT_RANGE && scroll < Period(line)
      modifies this`hilightLeft, this`scroll, term
      ensures term.cells == Painted(old(Text()) + seq(old(Padding()), i => ' '), Pos(), Rest())
      ensures scroll ==
              if old(columns) > 3 && |line| >= columns - 2 then (old(scroll) + 1) % Period(line) else old(scroll)
      ensures |term.cells| <= columns <==>
              columns <= 3 || Pos() <= columns || Pos() - |old(Text())| >= columns - 2
    {
      ghost var text := Text();
      assert text + seq(0, i => ' ') == text;
      var cols := OutputState();
      if cols == 0 {
        return;
      }
      if |line| < cols {
        Outs(line, [state, ' ']);
      } else {
        OutputScrolled(cols, [state, ' ']);
      }
      Pad(cols, text);
    }
  }
}
