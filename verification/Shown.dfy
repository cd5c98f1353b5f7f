/** What the bytes written to a console do to the screen, told by row and column. */
module Shown {
  import opened Ring
  import opened Words
  import opened Screen
  import opened Video
  import opened Vt102

  /** Where a row and column are on the flat screen. */
  function Address(g: Geometry, row: nat, col: nat): (i: nat)
    requires row < g.lines && col < g.cols
    ensures i < Span(g.lines, g.cols)
  {
    RowFits(row, g.lines, g.cols);
    Span(row, g.cols) + col
  }

  /** The cell shown in this row and column. */
  function At(g: Geometry, t: Term, row: nat, col: nat): Cell
    requires Fits(g, t) && row < g.lines && col < g.cols
  {
    t.cells[Address(g, row, col)]
  }

  // ----- Lines moved -----

  /** Where a cell lies between two lines. */
  lemma RowOrder(row: nat, col: nat, line: nat, cols: nat)
    requires col < cols
    ensures row < line ==> Span(row, cols) + col < Span(line, cols)
    ensures row >= line ==> Span(row, cols) + col >= Span(line, cols)
  {
    if row < line {
      RowFits(row, line, cols);
    } else {
      SpanMono(line, row, cols);
    }
  }

  /** The lines from top to bottom moved n lines up. */
  lemma LinesUp(g: Geometry, cells: seq<Cell>, top: nat, bottom: nat, n: nat, blank: Cell, row: nat, col: nat)
    requires |cells| == Span(g.lines, g.cols) && top + n <= bottom <= g.lines && row < g.lines && col < g.cols
    ensures Span(top, g.cols) + Span(n, g.cols) <= Span(bottom, g.cols) <= |cells|
    ensures Span(row, g.cols) + col < |cells|
    ensures top <= row < bottom - n ==> Span(row + n, g.cols) + col < |cells|
    ensures MovedUp(cells, Span(top, g.cols), Span(bottom, g.cols), Span(n, g.cols), blank)[Span(row, g.cols) + col]
            == if top <= row < bottom - n then cells[Span(row + n, g.cols) + col]
               else if bottom - n <= row < bottom then blank
               else cells[Span(row, g.cols) + col]
  {
    hide Span, MovedUp;
    SpanSum(top, n, g.cols);
    SpanSum(bottom - n, n, g.cols);
    SpanSum(row, n, g.cols);
    SpanMono(top + n, bottom, g.cols);
    SpanMono(bottom, g.lines, g.cols);
    RowOrder(row, col, g.lines, g.cols);
    RowOrder(row, col, top, g.cols);
    RowOrder(row, col, bottom, g.cols);
    RowOrder(row, col, bottom - n, g.cols);
    RowOrder(row + n, col, g.lines, g.cols);
    MovedUpIndex(cells, Span(top, g.cols), Span(bottom, g.cols), Span(n, g.cols), blank, Span(row, g.cols) + col);
  }

  /** The lines from top to bottom moved n lines down. */
  lemma LinesDown(g: Geometry, cells: seq<Cell>, top: nat, bottom: nat, n: nat, blank: Cell, row: nat, col: nat)
    requires |cells| == Span(g.lines, g.cols) && top + n <= bottom <= g.lines && row < g.lines && col < g.cols
    ensures Span(top, g.cols) + Span(n, g.cols) <= Span(bottom, g.cols) <= |cells|
    ensures Span(row, g.cols) + col < |cells|
    ensures top + n <= row ==> Span(row - n, g.cols) + col < |cells|
    ensures MovedDown(cells, Span(top, g.cols), Span(bottom, g.cols), Span(n, g.cols), blank)[Span(row, g.cols) + col]
            == if top + n <= row < bottom then cells[Span(row - n, g.cols) + col]
               else if top <= row < top + n then blank
               else cells[Span(row, g.cols) + col]
  {
    hide Span, MovedDown;
    SpanSum(top, n, g.cols);
    SpanMono(top + n, bottom, g.cols);
    SpanMono(bottom, g.lines, g.cols);
    RowOrder(row, col, g.lines, g.cols);
    RowOrder(row, col, top, g.cols);
    RowOrder(row, col, bottom, g.cols);
    RowOrder(row, col, top + n, g.cols);
    if row >= n {
      SpanSum(row - n, n, g.cols);
    }
    MovedDownIndex(cells, Span(top, g.cols), Span(bottom, g.cols), Span(n, g.cols), blank, Span(row, g.cols) + col);
  }

  /** t shows the scrolling region of s one line up, its last line blank, and the rest as it was. */
  ghost predicate RegionUp(g: Geometry, s: Term, t: Term) {
    && Fits(g, s) && Fits(g, t)
    && forall row, col {:trigger At(g, t, row, col)} :: 0 <= row < g.lines && 0 <= col < g.cols ==>
      At(g, t, row, col) == if s.top <= row < s.bottom - 1 then At(g, s, row + 1, col)
                            else if row == s.bottom - 1 then s.blank
                            else At(g, s, row, col)
  }

  /** t shows the scrolling region of s one line down, its first line blank. */
  ghost predicate RegionDown(g: Geometry, s: Term, t: Term) {
    && Fits(g, s) && Fits(g, t)
    && forall row, col {:trigger At(g, t, row, col)} :: 0 <= row < g.lines && 0 <= col < g.cols ==>
      At(g, t, row, col) == if s.top < row < s.bottom then At(g, s, row - 1, col)
                            else if row == s.top then s.blank
                            else At(g, s, row, col)
  }

  lemma OneLine(cols: nat)
    ensures Span(0, cols) == 0 && Span(1, cols) == cols
  {}

  lemma Up(g: Geometry, s: Term, t: Term)
    requires Fits(g, s) && Fits(g, t)
    requires forall row, col {:trigger At(g, t, row, col)} :: 0 <= row < g.lines && 0 <= col < g.cols ==>
      At(g, t, row, col) == if s.top <= row < s.bottom - 1 then At(g, s, row + 1, col)
                            else if row == s.bottom - 1 then s.blank
                            else At(g, s, row, col)
    ensures RegionUp(g, s, t)
  {}

  lemma Down(g: Geometry, s: Term, t: Term)
    requires Fits(g, s) && Fits(g, t)
    requires forall row, col {:trigger At(g, t, row, col)} :: 0 <= row < g.lines && 0 <= col < g.cols ==>
      At(g, t, row, col) == if s.top < row < s.bottom then At(g, s, row - 1, col)
                            else if row == s.top then s.blank
                            else At(g, s, row, col)
    ensures RegionDown(g, s, t)
  {}

  lemma FromUp(g: Geometry, s: Term, t: Term)
    requires RegionUp(g, s, t)
    ensures Fits(g, s) && Fits(g, t)
    ensures forall row, col {:trigger At(g, t, row, col)} :: 0 <= row < g.lines && 0 <= col < g.cols ==>
      At(g, t, row, col) == if s.top <= row < s.bottom - 1 then At(g, s, row + 1, col)
                            else if row == s.bottom - 1 then s.blank
                            else At(g, s, row, col)
  {}

  lemma ScrollsUp(g: Geometry, t: Term)
    requires Fits(g, t)
    ensures RegionUp(g, t, t.(cells := ScrolledUp(g, t.cells, t.top, t.bottom, t.blank)))
  {
    OneLine(g.cols);
    hide MovedUp, Span;
    var u := t.(cells := ScrolledUp(g, t.cells, t.top, t.bottom, t.blank));
    forall row: nat, col: nat | row < g.lines && col < g.cols
      ensures At(g, u, row, col) == if t.top <= row < t.bottom - 1 then At(g, t, row + 1, col)
                                    else if row == t.bottom - 1 then t.blank
                                    else At(g, t, row, col)
    {
      LinesUp(g, t.cells, t.top, t.bottom, 1, t.blank, row, col);
    }
    Up(g, t, u);
  }

  lemma ScrollsDown(g: Geometry, t: Term)
    requires Fits(g, t)
    ensures RegionDown(g, t, t.(cells := ScrolledDown(g, t.cells, t.top, t.bottom, t.blank)))
  {
    OneLine(g.cols);
    hide MovedDown, Span;
    var u := t.(cells := ScrolledDown(g, t.cells, t.top, t.bottom, t.blank));
    forall row: nat, col: nat | row < g.lines && col < g.cols
      ensures At(g, u, row, col) == if t.top < row < t.bottom then At(g, t, row - 1, col)
                                    else if row == t.top then t.blank
                                    else At(g, t, row, col)
    {
      LinesDown(g, t.cells, t.top, t.bottom, 1, t.blank, row, col);
    }
    Down(g, t, u);
  }

  // ----- Line feeds, carriage returns and tabs -----

  lemma RunTwo(g: Geometry, t: Term, c: char8, d: char8)
    requires Fits(g, t) && Proper(g)
    ensures Run(g, t, [c, d]) == Put(g, Put(g, t, c), d)
  {
    hide Put;
    RunFirst(g, t, c, [d]);
    RunOne(g, Put(g, t, c), d);
    assert [c] + [d] == [c, d];
  }

  lemma RunThree(g: Geometry, t: Term, c: char8, d: char8, e: char8)
    requires Fits(g, t) && Proper(g)
    ensures Run(g, t, [c, d, e]) == Put(g, Put(g, Put(g, t, c), d), e)
  {
    hide Put;
    RunFirst(g, t, c, [d, e]);
    RunTwo(g, Put(g, t, c), d, e);
    assert [c] + [d, e] == [c, d, e];
  }

  /** LF, VT and FF, and ESC D: the cursor goes down a line, except that on the last line of the
      region, or below it, the region scrolls instead. */
  lemma LineFeed(g: Geometry, t: Term, c: char8)
    requires Fits(g, t) && Proper(g) && t.state == Normal && 10 <= c <= 12
    ensures var r := Run(g, t, [c]);
            if t.y + 1 < t.bottom then r == t.(y := t.y + 1) else RegionUp(g, t, r) && r == t.(cells := r.cells)
    ensures Run(g, t, [27, 68]) == Run(g, t, [c])
  {
    hide RegionUp, ScrolledUp, Put;
    RunOne(g, t, c);
    RunTwo(g, t, 27, 68);
    InNormal(g, t);
    AfterEsc(g, t);
    ScrollsUp(g, t);
  }

  lemma AfterEsc(g: Geometry, t: Term)
    requires Fits(g, t) && Proper(g) && t.state == Normal
    ensures forall c :: c != 24 && c != 26 ==> Put(g, t.(state := Esc), c) == PutEscape(g, t, c)
  {
    hide PutEscape, Fits;
    assert t.(state := Esc).(state := Normal) == t;
  }

  /** ESC M: up a line, or the region scrolls down on its first line or above it. */
  lemma ReverseLineFeed(g: Geometry, t: Term)
    requires Fits(g, t) && Proper(g) && t.state == Normal
    ensures var r := Run(g, t, [27, 77]);
            if t.y > t.top then r == t.(y := t.y - 1) else RegionDown(g, t, r) && r == t.(cells := r.cells)
  {
    hide RegionDown, ScrolledDown, Put;
    RunTwo(g, t, 27, 77);
    InNormal(g, t);
    AfterEsc(g, t);
    ScrollsDown(g, t);
  }

  lemma CursorHome(g: Geometry, t: Term)
    requires Fits(g, t)
    ensures Fits(g, t.(x := 0))
  {}

  lemma TabIs(g: Geometry, t: Term)
    requires Fits(g, t) && Proper(g)
    ensures Fits(g, t.(x := 0))
    ensures var stop := t.x + 8 - t.x % 8;
            Tab(g, t) == if stop <= g.cols then t.(x := stop) else Lf(g, t.(x := 0)).(x := stop - g.cols)
  {
    hide ScrolledUp;
  }

  /** A tab goes to the next multiple of eight, at most one place past the right edge; beyond that
      it goes on in the next line as after a carriage return and a line feed. */
  lemma TabStops(g: Geometry, t: Term)
    requires Fits(g, t) && Proper(g) && t.state == Normal && t.erase != 9
    ensures var r, stop := Run(g, t, [9]), t.x + 8 - t.x % 8;
            r == if stop <= g.cols then t.(x := stop) else Run(g, t, [13, 10]).(x := stop - g.cols)
  {
    hide Lf, Put, Run, Fits;
    RunOne(g, t, 9);
    RunTwo(g, t, 13, 10);
    InNormal(g, t);
    InNormal(g, t.(x := 0)) by { CursorHome(g, t); }
    TabIs(g, t);
  }

  // ----- Printing -----

  /** What the two character sets show for a printable character. */
  function Glyph(graf: bool, c: char8): nat
    requires 31 < c < 127
  {
    if graf && c == 95 then 32 else if graf && c > 95 then GRAPHICS[c - 96] else c
  }

  /** A printable character on the line is stored at the cursor, which steps on. */
  lemma PrintsHere(g: Geometry, t: Term, c: char8)
    requires Fits(g, t) && Proper(g) && t.state == Normal && 31 < c < 127 && t.x < g.cols
    ensures Span(t.y, g.cols) + t.x < |t.cells|
    ensures Run(g, t, [c]) == t.(cells := t.cells[Span(t.y, g.cols) + t.x := Cell(Glyph(t.graf, c), t.attr)],
                                 x := t.x + 1)
  {
    hide Span;
    RowFits(t.y, g.lines, g.cols);
    RunOne(g, t, c);
  }

  /** Past the right edge it goes where it would after a carriage return and a line feed. */
  lemma PrintWraps(g: Geometry, t: Term, c: char8)
    requires Fits(g, t) && Proper(g) && t.state == Normal && 31 < c < 127 && t.x == g.cols
    ensures Run(g, t, [c]) == Run(g, t, [13, 10, c])
  {
    hide Span, Lf, Translate, Put, Placed;
    RunOne(g, t, c);
    RunThree(g, t, 13, 10, c);
    InNormal(g, t);
    InNormal(g, t.(x := 0));
    FeedKeeps(g, t.(x := 0));
    InNormal(g, Lf(g, t.(x := 0)));
  }

  lemma FeedKeeps(g: Geometry, t: Term)
    requires Fits(g, t)
    ensures var r := Lf(g, t);
            r == t.(cells := r.cells, y := r.y)
  {
    hide ScrolledUp;
  }

  /** The bytes that need no state, as functions of Screen. */
  lemma InNormal(g: Geometry, t: Term)
    requires Fits(g, t) && Proper(g) && t.state == Normal
    ensures Put(g, t, 13) == t.(x := 0)
    ensures forall c :: 10 <= c <= 12 ==> Put(g, t, c) == Lf(g, t)
    ensures forall c :: 31 < c < 127 ==> Put(g, t, c) == Print(g, t, c)
    ensures t.erase != 9 ==> Put(g, t, 9) == Tab(g, t)
    ensures Put(g, t, 27) == t.(state := Esc)
  {
    hide Lf, Print, Tab, Fits;
    assert t.(state := Normal) == t;
  }

  /** At the end of the region's last line the region scrolls, and the character is the first of a
      line that is blank otherwise. */
  lemma PrintScrolls(g: Geometry, t: Term, c: char8)
    requires Fits(g, t) && Proper(g) && t.state == Normal && 31 < c < 127
    requires t.x == g.cols && t.y + 1 == t.bottom
    ensures var r := Run(g, t, [c]);
            && r == t.(cells := r.cells, x := 1)
            && forall row, col :: 0 <= row < g.lines && 0 <= col < g.cols ==>
                 At(g, r, row, col) == if t.top <= row < t.bottom - 1 then At(g, t, row + 1, col)
                                       else if row == t.bottom - 1 then
                                         (if col == 0 then Cell(Glyph(t.graf, c), t.attr) else t.blank)
                                       else At(g, t, row, col)
  {
    hide Span, Run, Put;
    PrintWraps(g, t, c);
    var t1 := t.(x := 0);
    RunFirst(g, t, 13, [10, c]);
    CarriageReturn(g, t);
    RunFirst(g, t1, 10, [c]);
    assert [13] + [10, c] == [13, 10, c] && [10] + [c] == [10, c];
    RunOne(g, t1, 10);
    LineFeed(g, t1, 10);
    var t2 := Run(g, t1, [10]);
    PrintsHere(g, t2, c);
    var r := Run(g, t2, [c]);
    hide RegionUp, Proper, Fits;
    StoredAt(g, t2, r, 0, Cell(Glyph(t.graf, c), t.attr));
    UpThere(g, t, t1, t2);
    FromUp(g, t, t2);
  }

  /** A cell stored in the cursor's line, and no other changed. */
  lemma StoredAt(g: Geometry, s: Term, t: Term, x: nat, cell: Cell)
    requires Fits(g, s) && Fits(g, t) && x < g.cols && Span(s.y, g.cols) + x < |s.cells|
    requires t.cells == s.cells[Span(s.y, g.cols) + x := cell]
    ensures forall row, col :: 0 <= row < g.lines && 0 <= col < g.cols ==>
              At(g, t, row, col) == if row == s.y && col == x then cell else At(g, s, row, col)
  {
    hide Span;
    forall row: nat, col: nat | row < g.lines && col < g.cols
      ensures At(g, t, row, col) == if row == s.y && col == x then cell else At(g, s, row, col)
    {
      RowOrder(row, col, s.y, g.cols);
      RowOrder(row, col, s.y + 1, g.cols);
      RowOrder(row, col, g.lines, g.cols);
      RowFits(s.y, g.lines, g.cols);
      var i := Span(row, g.cols) + col;
      assert i < |s.cells|;
      assert i == Span(s.y, g.cols) + x ==> row == s.y && col == x;
    }
  }

  lemma UpThere(g: Geometry, s: Term, s1: Term, t: Term)
    requires Fits(g, s) && RegionUp(g, s1, t) && s1 == s.(x := 0)
    ensures RegionUp(g, s, t)
  {
    FromUp(g, s1, t);
    forall row: nat, col: nat | row < g.lines && col < g.cols ensures At(g, s1, row, col) == At(g, s, row, col) {}
    Up(g, s, t);
  }

  lemma CarriageReturn(g: Geometry, t: Term)
    requires Fits(g, t) && Proper(g) && t.state == Normal
    ensures Run(g, t, [13]) == Put(g, t, 13) == t.(x := 0)
  {
    RunOne(g, t, 13);
  }

  // ----- Text -----

  predicate Printable(text: seq<char8>) {
    forall i :: 0 <= i < |text| ==> 31 < text[i] < 127
  }

  /** s with text written from address a on, in the attribute and character set of s. */
  ghost predicate Written(s: Term, t: Term, a: nat, text: seq<char8>)
    requires Printable(text)
  {
    && |t.cells| == |s.cells|
    && forall i {:trigger t.cells[i]} :: 0 <= i < |s.cells| ==>
         t.cells[i] == if a <= i < a + |text| then Cell(Glyph(s.graf, text[i - a]), s.attr) else s.cells[i]
  }

  /** The lines that n cells fill from the left edge on, and the column of the next cell. */
  function Lines(n: nat, cols: nat): (l: nat)
    requires cols > 0
  {
    DivMono(0, n, cols);
    n / cols
  }

  function Column(n: nat, cols: nat): (c: nat)
    requires cols > 0
    ensures c < cols
  {
    n % cols
  }

  lemma InLine(n: nat, cols: nat)
    requires n < cols
    ensures Lines(n, cols) == 0 && Column(n, cols) == n
  {
    DivUnique(n, cols, 0, n);
  }

  lemma NextLine(n: nat, cols: nat)
    requires cols > 0
    ensures Lines(cols + n, cols) == 1 + Lines(n, cols) && Column(cols + n, cols) == Column(n, cols)
  {
    DivMod(n, cols);
    Distribute(n / cols, 1, cols);
    DivUnique(cols + n, cols, 1 + n / cols, n % cols);
  }

  lemma LinesMono(m: nat, n: nat, cols: nat)
    requires m <= n && cols > 0
    ensures Lines(m, cols) <= Lines(n, cols)
  {
    DivMono(m, n, cols);
  }

  lemma LinesAndColumn(n: nat, cols: nat)
    requires cols > 0
    ensures n == Span(Lines(n, cols), cols) + Column(n, cols)
  {
    DivMod(n, cols);
  }

  lemma WrittenMore(s: Term, m: Term, t: Term, a: nat, c: char8, rest: seq<char8>)
    requires 31 < c < 127 && Printable(rest) && a < |s.cells|
    requires m.cells == s.cells[a := Cell(Glyph(s.graf, c), s.attr)] && m.graf == s.graf && m.attr == s.attr
    requires Written(m, t, a + 1, rest)
    ensures Printable([c] + rest) && Written(s, t, a, [c] + rest)
  {
    hide Glyph;
    var text := [c] + rest;
    forall i: nat | i < |s.cells|
      ensures t.cells[i] == if a <= i < a + |text| then Cell(Glyph(s.graf, text[i - a]), s.attr) else s.cells[i]
    {
      if a < i < a + |text| {
        assert text[i - a] == rest[i - a - 1];
      }
    }
  }

  /** Text written without reaching past the region's last line fills the screen in reading order
      from the cursor on, and leaves the cursor behind its last character. */
  lemma {:induction false} TextFlows(g: Geometry, t: Term, text: seq<char8>)
    requires Fits(g, t) && Proper(g) && t.state == Normal && Printable(text) && text != []
    requires t.y + Lines(t.x + |text| - 1, g.cols) < t.bottom
    ensures var r, last := Run(g, t, text), t.x + |text| - 1;
            && r == t.(cells := r.cells, x := Column(last, g.cols) + 1, y := t.y + Lines(last, g.cols))
            && Written(t, r, Span(t.y, g.cols) + t.x, text)
    decreases |text|
  {
    hide Run, Span, Glyph, Lines, Column, Written;
    var c, rest := text[0], text[1..];
    assert [c] + rest == text;
    RunAppend(g, t, [c], rest);
    if t.x == g.cols {
      NextLine(|text| - 1, g.cols);
    }
    PrintsOne(g, t, c);
    var m := Run(g, t, [c]);
    if rest == [] {
      RunNothing(g, m);
      if t.x < g.cols {
        InLine(t.x, g.cols);
      } else {
        InLine(0, g.cols);
      }
      NoneWritten(m, Span(t.y, g.cols) + t.x + 1);
      WrittenMore(t, m, m, Span(t.y, g.cols) + t.x, c, rest);
    } else {
      TextFlows(g, m, rest);
      RowFits(t.y, t.y + 1, g.cols);
      WrittenMore(t, m, Run(g, m, rest), Span(t.y, g.cols) + t.x, c, rest);
    }
  }

  lemma NoneWritten(s: Term, a: nat)
    ensures Written(s, s, a, [])
  {}

  /** One character, in this line or, past its edge, at the front of the next. */
  lemma PrintsOne(g: Geometry, t: Term, c: char8)
    requires Fits(g, t) && Proper(g) && t.state == Normal && 31 < c < 127
    requires t.x < g.cols || t.y + 1 < t.bottom
    ensures var r, a := Run(g, t, [c]), Span(t.y, g.cols) + t.x;
            && a < |t.cells| && r.cells == t.cells[a := Cell(Glyph(t.graf, c), t.attr)]
            && r == t.(cells := r.cells, x := if t.x < g.cols then t.x + 1 else 1,
                       y := if t.x < g.cols then t.y else t.y + 1)
  {
    hide Run, Span, Put, Glyph;
    if t.x < g.cols {
      PrintsHere(g, t, c);
    } else {
      PrintWraps(g, t, c);
      RunFirst(g, t, 13, [10, c]);
      CarriageReturn(g, t);
      RunFirst(g, t.(x := 0), 10, [c]);
      assert [13] + [10, c] == [13, 10, c] && [10] + [c] == [10, c];
      RunOne(g, t.(x := 0), 10);
      LineFeed(g, t.(x := 0), 10);
      RowFits(t.y, t.y + 1, g.cols);
      PrintsHere(g, t.(x := 0, y := t.y + 1), c);
    }
  }

  /** So n characters from column 0 of line y stand at row y + k / cols and column k % cols, and no
      other cell changes. */
  lemma TextByRows(g: Geometry, t: Term, text: seq<char8>) returns (r: Term)
    requires Fits(g, t) && Proper(g) && t.state == Normal && Printable(text) && text != []
    requires t.x == 0 && !t.graf && t.y + Lines(|text| - 1, g.cols) < t.bottom
    ensures r == Run(g, t, text)
    ensures var last := |text| - 1;
            r == t.(cells := r.cells, x := Column(last, g.cols) + 1, y := t.y + Lines(last, g.cols))
    ensures forall k :: 0 <= k < |text| ==>
              && t.y + Lines(k, g.cols) < g.lines
              && At(g, r, t.y + Lines(k, g.cols), Column(k, g.cols)) == Cell(text[k], t.attr)
    ensures forall row, col {:trigger At(g, r, row, col)} ::
              0 <= row < g.lines && 0 <= col < g.cols
              && !(0 <= Span(row, g.cols) + col - Span(t.y, g.cols) < |text|) ==>
              At(g, r, row, col) == At(g, t, row, col)
  {
    hide Run, Span, Lines, Column, Glyph, At;
    TextFlows(g, t, text);
    r := Run(g, t, text);
    forall k: nat | k < |text|
      ensures t.y + Lines(k, g.cols) < g.lines
      ensures At(g, r, t.y + Lines(k, g.cols), Column(k, g.cols)) == Cell(text[k], t.attr)
    {
      LinesMono(k, |text| - 1, g.cols);
      WrittenAt(g, t, r, text, k);
    }
    forall row: nat, col: nat | row < g.lines && col < g.cols
      && !(0 <= Span(row, g.cols) + col - Span(t.y, g.cols) < |text|)
      ensures At(g, r, row, col) == At(g, t, row, col)
    {
      NotWrittenAt(g, t, r, text, row, col);
    }
  }

  lemma WrittenAt(g: Geometry, t: Term, r: Term, text: seq<char8>, k: nat)
    requires Fits(g, t) && Fits(g, r) && g.cols > 0 && k < |text| && t.y + Lines(k, g.cols) < g.lines && !t.graf
    requires Printable(text) && Written(t, r, Span(t.y, g.cols), text)
    ensures At(g, r, t.y + Lines(k, g.cols), Column(k, g.cols)) == Cell(text[k], t.attr)
  {
    hide Span, Lines, Column;
    LinesAndColumn(k, g.cols);
    SpanSum(t.y, Lines(k, g.cols), g.cols);
  }

  lemma NotWrittenAt(g: Geometry, t: Term, r: Term, text: seq<char8>, row: nat, col: nat)
    requires Fits(g, t) && Fits(g, r) && row < g.lines && col < g.cols
    requires Printable(text) && Written(t, r, Span(t.y, g.cols), text)
    requires !(0 <= Span(row, g.cols) + col - Span(t.y, g.cols) < |text|)
    ensures At(g, r, row, col) == At(g, t, row, col)
  {
    hide Span, Glyph;
  }

  /** On a console as con_init leaves it, the first text stands from the top left corner on, light grey
      on black, and the rest of the screen as it was. */
  lemma FirstText(g: Geometry, cells: seq<Cell>, text: seq<char8>) returns (r: Term)
    requires Proper(g) && |cells| == Span(g.lines, g.cols) && Printable(text) && text != []
    requires Lines(|text| - 1, g.cols) < g.lines
    ensures r == Run(g, PowerOn(g, cells), text) && r.x == Column(|text| - 1, g.cols) + 1
    ensures r.y == Lines(|text| - 1, g.cols) && |r.cells| == |cells|
    ensures forall i {:trigger r.cells[i]} :: 0 <= i < |cells| ==>
              r.cells[i] == if i < |text| then Cell(text[i], 0x07) else cells[i]
  {
    hide Run, Span, Lines, Column, Glyph, PowerOn;
    var t := PowerOn(g, cells);
    FreshConsole(g, cells);
    TextFlows(g, t, text);
    GlyphIs();
    r := Run(g, t, text);
  }

  lemma GlyphIs()
    ensures forall c :: 31 < c < 127 ==> Glyph(false, c) == c
  {}

  lemma FreshConsole(g: Geometry, cells: seq<Cell>)
    requires Proper(g) && |cells| == Span(g.lines, g.cols)
    ensures var t := PowerOn(g, cells);
            && Fits(g, t) && t.state == Normal && t.cells == cells && t.x == 0 && t.y == 0 && t.bottom == g.lines
            && !t.graf && t.attr == 0x07 && Span(t.y, g.cols) == 0
  {}
}
