/** What the escape sequences that are not cursor movements do to the screen, from the bytes to the
    rows and columns shown. */
module Escapes {
  import opened Ring
  import opened Words
  import opened Screen
  import opened Video
  import opened Vt102
  import opened Shown

  // ----- Parameters -----

  /** Numbers with semicolons between them. */
  function Params(ps: seq<nat>): (s: seq<char8>)
    requires ps != []
  {
    var last := |ps| - 1;
    if last == 0 then Decimal(ps[0]) else Params(ps[..last]) + [59] + Decimal(ps[last])
  }

  /** The parameters as ESgetpars keeps them: 32 bits of each, and zeros. */
  function Kept(ps: seq<nat>): (par: seq<u32>)
    requires |ps| <= NPAR
  {
    seq(NPAR, i requires 0 <= i < NPAR => if i < |ps| then ps[i] % WORD else 0)
  }

  /** The state when the final byte comes. */
  function Collected(t: Term, ps: seq<nat>): (u: Term)
    requires 0 < |ps| <= NPAR
  {
    t.(state := Normal, par := Kept(ps), npar := |ps| - 1, ques := false)
  }

  lemma {:induction false} ParamsStart(ps: seq<nat>)
    requires ps != []
    ensures Params(ps) != [] && 48 <= Params(ps)[0] <= 57
  {
    if |ps| > 1 {
      ParamsStart(ps[..|ps| - 1]);
    }
  }

  lemma NextParam(g: Geometry, t: Term)
    requires Fits(g, t) && Proper(g) && t.state == GetPars && t.npar < NPAR - 1
    ensures Put(g, t, 59) == t.(npar := t.npar + 1)
  {
    hide Final;
  }

  /** From Opened on, the parameters are collected in order. */
  lemma {:induction false} Collects(g: Geometry, t: Term, ps: seq<nat>)
    requires Fits(g, t) && Proper(g) && 0 < |ps| <= NPAR
    ensures Run(g, Opened(t), Params(ps)) == Collected(t, ps).(state := GetPars)
    decreases |ps|
  {
    hide Put, Run, Decimal;
    var last := |ps| - 1;
    if last == 0 {
      DigitsRead(g, Opened(t), ps[0]);
      assert Opened(t).par[0 := ps[0] % WORD] == Kept(ps);
    } else {
      var front := ps[..last];
      var u := Collected(t, front).(state := GetPars);
      Collects(g, t, front);
      RunAppend(g, Opened(t), Params(front), [59] + Decimal(ps[last]));
      RunFirst(g, u, 59, Decimal(ps[last]));
      NextParam(g, u);
      DigitsRead(g, u.(npar := last), ps[last]);
      assert Kept(front)[last := ps[last] % WORD] == Kept(ps);
      assert Params(front) + [59] + Decimal(ps[last]) == Params(front) + ([59] + Decimal(ps[last]));
    }
  }

  /** ESC [ p ; ... ; p c */
  function Sequence(ps: seq<nat>, c: char8): (s: seq<char8>)
    requires ps != []
  {
    [27, 91] + Params(ps) + [c]
  }

  /** A byte that ends a control sequence. */
  predicate Ends(c: char8) {
    c > 31 && c != 59 && !(48 <= c <= 57)
  }

  lemma Ending(g: Geometry, t: Term, ps: seq<nat>, c: char8)
    requires Fits(g, t) && Proper(g) && t.state == Normal && 0 < |ps| <= NPAR && Ends(c)
    ensures Run(g, t, Sequence(ps, c)) == Final(g, Collected(t, ps), c)
  {
    hide Put, Run, Params, Final, Kept;
    ParamsStart(ps);
    OpensWith(g, t, Params(ps) + [c]);
    RunAppend(g, Opened(t), Params(ps), [c]);
    Collects(g, t, ps);
    var u := Collected(t, ps).(state := GetPars);
    RunOne(g, u, c);
    LastByte(g, u, c);
    assert [27, 91] + Params(ps) + [c] == [27, 91] + (Params(ps) + [c]);
  }

  lemma LastByte(g: Geometry, t: Term, c: char8)
    requires Fits(g, t) && Proper(g) && t.state == GetPars && Ends(c)
    ensures Put(g, t, c) == Final(g, t.(state := Normal), c)
  {
    hide Final;
  }

  /** Without parameters it is as with a single zero. */
  lemma NoParameter(g: Geometry, t: Term, c: char8)
    requires Fits(g, t) && Proper(g) && t.state == Normal && Ends(c) && c != 63 && c != 91
    ensures Run(g, t, [27, 91, c]) == Run(g, t, Sequence([0], c))
  {
    hide Put, Run, Final;
    Ending(g, t, [0], c);
    RunThree(g, t, 27, 91, c);
    EscBracket(g, t);
    BareByte(g, t, c);
    assert Opened(t).par == Kept([0]);
  }

  lemma BareByte(g: Geometry, t: Term, c: char8)
    requires Fits(g, t) && Proper(g) && t.state == Normal && Ends(c) && c != 63 && c != 91
    ensures Put(g, t.(state := Square), c) == Final(g, Opened(t).(state := Normal), c)
  {
    hide Final;
    assert Opened(t) == t.(state := Square).(par := seq(NPAR, _ => 0), npar := 0, state := GetPars).(ques := false);
  }

  // ----- Erasing -----

  lemma Before(g: Geometry, t: Term, row: nat, col: nat)
    requires Fits(g, t) && row < g.lines && col < g.cols
    ensures Address(g, row, col) < Here(g, t) <==> row < t.y || (row == t.y && col < t.x)
  {
    hide Span;
    RowOrder(row, col, t.y, g.cols);
    RowOrder(row, col, t.y + 1, g.cols);
    RowFits(t.y, g.lines, g.cols);
  }

  /** A stretch of one line. */
  lemma InRow(g: Geometry, y: nat, from: nat, to: nat, row: nat, col: nat)
    requires y < g.lines && from <= to <= g.cols && row < g.lines && col < g.cols
    ensures Span(y, g.cols) + to <= Span(g.lines, g.cols)
    ensures Span(y, g.cols) + from <= Address(g, row, col) < Span(y, g.cols) + to <==> row == y && from <= col < to
    ensures row == y ==> Address(g, row, col) == Span(y, g.cols) + col
  {
    hide Span;
    RowOrder(row, col, y, g.cols);
    RowOrder(row, col, y + 1, g.cols);
    RowFits(y, g.lines, g.cols);
  }

  lemma FilledIndex(s: seq<Cell>, a: nat, n: nat, v: Cell, j: nat)
    requires a + n <= |s| && j < |s|
    ensures Filled(s, a, n, v)[j] == if a <= j < a + n then v else s[j]
  {}

  lemma DisplayAt(g: Geometry, t: Term, p: u32, row: nat, col: nat)
    requires Fits(g, t) && row < g.lines && col < g.cols
    ensures var before := row < t.y || (row == t.y && col < t.x);
            At(g, EraseDisplay(g, t, p), row, col) ==
            if (p == 0 && !before) || (p == 1 && before) || p == 2 then t.blank else At(g, t, row, col)
  {
    hide Filled, Address, Span;
    Before(g, t, row, col);
    var here, i := Here(g, t), Address(g, row, col);
    FilledIndex(t.cells, here, |t.cells| - here, t.blank, i);
    FilledIndex(t.cells, 0, here, t.blank, i);
    FilledIndex(t.cells, 0, |t.cells|, t.blank, i);
  }

  lemma LineAt(g: Geometry, t: Term, p: u32, row: nat, col: nat)
    requires Fits(g, t) && row < g.lines && col < g.cols
    ensures At(g, EraseLine(g, t, p), row, col) ==
            if row == t.y && ((p == 0 && col >= t.x) || (p == 1 && col < t.x) || p == 2) then t.blank
            else At(g, t, row, col)
  {
    hide Filled, Address, Span;
    var left, i := Here(g, t) - t.x, Address(g, row, col);
    assert left == Span(t.y, g.cols);
    InRow(g, t.y, t.x, g.cols, row, col);
    InRow(g, t.y, 0, t.x, row, col);
    InRow(g, t.y, 0, g.cols, row, col);
    FilledIndex(t.cells, left + t.x, g.cols - t.x, t.blank, i);
    FilledIndex(t.cells, left, t.x, t.blank, i);
    FilledIndex(t.cells, left, g.cols, t.blank, i);
  }

  lemma SameShown(g: Geometry, s: Term, t: Term, row: nat, col: nat)
    requires Fits(g, s) && Fits(g, t) && s.cells == t.cells && row < g.lines && col < g.cols
    ensures At(g, s, row, col) == At(g, t, row, col)
  {}

  /** ESC [ n J blanks the screen from the cursor on, before it, or all of it, for n = 0, 1 and 2. */
  lemma ErasesDisplay(g: Geometry, t: Term, n: nat) returns (r: Term)
    requires Fits(g, t) && Proper(g) && t.state == Normal
    ensures r == Run(g, t, Sequence([n], 74))
    ensures Fits(g, r) && r == t.(cells := r.cells, par := r.par, npar := 0, ques := false)
    ensures forall row, col {:trigger At(g, r, row, col)} :: 0 <= row < g.lines && 0 <= col < g.cols ==>
              var before := row < t.y || (row == t.y && col < t.x);
              At(g, r, row, col) ==
              if (n % WORD == 0 && !before) || (n % WORD == 1 && before) || n % WORD == 2 then t.blank
              else At(g, t, row, col)
  {
    hide Run, At, Filled, Fits;
    Ending(g, t, [n], 74);
    r := Run(g, t, Sequence([n], 74));
    var u := Collected(t, [n]);
    AsCollected(g, t, [n]);
    assert r == EraseDisplay(g, u, n % WORD);
    forall row: nat, col: nat {:trigger At(g, r, row, col)} | row < g.lines && col < g.cols
      ensures var before := row < t.y || (row == t.y && col < t.x);
              At(g, r, row, col) ==
              if (n % WORD == 0 && !before) || (n % WORD == 1 && before) || n % WORD == 2 then t.blank
              else At(g, t, row, col)
    {
      DisplayAt(g, u, n % WORD, row, col);
      SameShown(g, t, u, row, col);
    }
  }

  lemma AsCollected(g: Geometry, t: Term, ps: seq<nat>)
    requires Fits(g, t) && 0 < |ps| <= NPAR
    ensures Fits(g, Collected(t, ps)) && |Collected(t, ps).par| == NPAR
    ensures forall i :: 0 <= i < |ps| ==> Collected(t, ps).par[i] == ps[i] % WORD
    ensures forall i :: |ps| <= i < NPAR ==> Collected(t, ps).par[i] == 0
  {}

  /** ESC [ n K blanks the cursor's line from the cursor on, before it, or all of it. */
  lemma ErasesLine(g: Geometry, t: Term, n: nat) returns (r: Term)
    requires Fits(g, t) && Proper(g) && t.state == Normal
    ensures r == Run(g, t, Sequence([n], 75))
    ensures Fits(g, r) && r == t.(cells := r.cells, par := r.par, npar := 0, ques := false)
    ensures forall row, col {:trigger At(g, r, row, col)} :: 0 <= row < g.lines && 0 <= col < g.cols ==>
              var m := n % WORD;
              At(g, r, row, col) ==
              if row == t.y && ((m == 0 && col >= t.x) || (m == 1 && col < t.x) || m == 2) then t.blank
              else At(g, t, row, col)
  {
    hide Run, At, Filled, Fits;
    Ending(g, t, [n], 75);
    r := Run(g, t, Sequence([n], 75));
    var u := Collected(t, [n]);
    AsCollected(g, t, [n]);
    assert r == EraseLine(g, u, n % WORD);
    forall row: nat, col: nat {:trigger At(g, r, row, col)} | row < g.lines && col < g.cols
      ensures var m := n % WORD;
              At(g, r, row, col) ==
              if row == t.y && ((m == 0 && col >= t.x) || (m == 1 && col < t.x) || m == 2) then t.blank
              else At(g, t, row, col)
    {
      LineAt(g, u, n % WORD, row, col);
      SameShown(g, t, u, row, col);
    }
  }

  // ----- Inserting and deleting -----

  /** A count of zero means one, and 32 bits are kept. */
  function Times(n: nat, limit: nat): nat {
    Min(Distance(n), limit)
  }

  lemma TimesIs(n: nat, limit: nat)
    requires limit > 0
    ensures Count(n % WORD, limit) == Times(n, limit)
  {}

  /** ESC [ n L: the lines from the cursor's down move n lines down, and blank ones take their place. */
  lemma InsertsLines(g: Geometry, t: Term, n: nat) returns (r: Term)
    requires Fits(g, t) && Proper(g) && t.state == Normal
    ensures r == Run(g, t, Sequence([n], 76))
    ensures Fits(g, r) && r == t.(cells := r.cells, par := r.par, npar := 0, ques := false)
    ensures forall row, col {:trigger At(g, r, row, col)} :: 0 <= row < g.lines && 0 <= col < g.cols ==>
              At(g, r, row, col) == if row < t.y then At(g, t, row, col)
                                    else if row < t.y + Distance(n) then t.blank
                                    else At(g, t, row - Distance(n), col)
  {
    hide Run, At, MovedDown, Span;
    var u := Editing(g, t, n, 76, InsertLine, g.lines);
    r := Run(g, t, Sequence([n], 76));
    var k := Min(Times(n, g.lines), g.lines - t.y);
    forall row: nat, col: nat {:trigger At(g, r, row, col)} | row < g.lines && col < g.cols
      ensures At(g, r, row, col) == if row < t.y then At(g, t, row, col)
                                    else if row < t.y + Distance(n) then t.blank
                                    else At(g, t, row - Distance(n), col)
    {
      LinesDown(g, t.cells, t.y, g.lines, k, t.blank, row, col);
      AtIs(g, t, row, col);
      AtIs(g, r, row, col);
      if row >= t.y + Distance(n) {
        AtIs(g, t, row - k, col);
      }
    }
  }

  /** ESC [ n M: the n lines from the cursor's down go, those below move up, and blank ones follow. */
  lemma DeletesLines(g: Geometry, t: Term, n: nat) returns (r: Term)
    requires Fits(g, t) && Proper(g) && t.state == Normal
    ensures r == Run(g, t, Sequence([n], 77))
    ensures Fits(g, r) && r == t.(cells := r.cells, par := r.par, npar := 0, ques := false)
    ensures forall row, col {:trigger At(g, r, row, col)} :: 0 <= row < g.lines && 0 <= col < g.cols ==>
              At(g, r, row, col) == if row < t.y then At(g, t, row, col)
                                    else if row + Distance(n) < g.lines then At(g, t, row + Distance(n), col)
                                    else t.blank
  {
    hide Run, At, MovedUp, Span;
    var u := Editing(g, t, n, 77, DeleteLine, g.lines);
    r := Run(g, t, Sequence([n], 77));
    var k := Min(Times(n, g.lines), g.lines - t.y);
    forall row: nat, col: nat {:trigger At(g, r, row, col)} | row < g.lines && col < g.cols
      ensures At(g, r, row, col) == if row < t.y then At(g, t, row, col)
                                    else if row + Distance(n) < g.lines then At(g, t, row + Distance(n), col)
                                    else t.blank
    {
      LinesUp(g, t.cells, t.y, g.lines, k, t.blank, row, col);
      AtIs(g, t, row, col);
      AtIs(g, r, row, col);
      if t.y <= row && row + Distance(n) < g.lines {
        AtIs(g, t, row + k, col);
      }
    }
  }

  /** ESC [ n @: the cursor's line moves n columns right from the cursor on, and blanks come in. */
  lemma InsertsChars(g: Geometry, t: Term, n: nat) returns (r: Term)
    requires Fits(g, t) && Proper(g) && t.state == Normal
    ensures r == Run(g, t, Sequence([n], 64))
    ensures Fits(g, r) && r == t.(cells := r.cells, par := r.par, npar := 0, ques := false)
    ensures forall row, col {:trigger At(g, r, row, col)} :: 0 <= row < g.lines && 0 <= col < g.cols ==>
              At(g, r, row, col) == if row != t.y || col < t.x then At(g, t, row, col)
                                    else if col < t.x + Distance(n) then t.blank
                                    else At(g, t, row, col - Distance(n))
  {
    hide Run, At, MovedDown, Span;
    var u := Editing(g, t, n, 64, InsertChar, g.cols);
    r := Run(g, t, Sequence([n], 64));
    forall row: nat, col: nat {:trigger At(g, r, row, col)} | row < g.lines && col < g.cols
      ensures At(g, r, row, col) == if row != t.y || col < t.x then At(g, t, row, col)
                                    else if col < t.x + Distance(n) then t.blank
                                    else At(g, t, row, col - Distance(n))
    {
      AtIs(g, t, row, col);
      AtIs(g, r, row, col);
      if t.x < g.cols {
        var k := Min(Times(n, g.cols), g.cols - t.x);
        InRow(g, t.y, t.x, g.cols, row, col);
        InRow(g, t.y, t.x, t.x + k, row, col);
        var from := Span(t.y, g.cols) + t.x;
        MovedDownIndex(t.cells, from, Span(t.y, g.cols) + g.cols, k, t.blank, Span(row, g.cols) + col);
        if row == t.y && col >= t.x + Distance(n) {
          AtIs(g, t, row, col - k);
        }
      }
    }
  }

  /** ESC [ n P: n characters from the cursor on go, and blanks come in at the right edge. */
  lemma DeletesChars(g: Geometry, t: Term, n: nat) returns (r: Term)
    requires Fits(g, t) && Proper(g) && t.state == Normal
    ensures r == Run(g, t, Sequence([n], 80))
    ensures Fits(g, r) && r == t.(cells := r.cells, par := r.par, npar := 0, ques := false)
    ensures forall row, col {:trigger At(g, r, row, col)} :: 0 <= row < g.lines && 0 <= col < g.cols ==>
              At(g, r, row, col) == if row != t.y || col < t.x then At(g, t, row, col)
                                    else if col + Distance(n) < g.cols then At(g, t, row, col + Distance(n))
                                    else t.blank
  {
    hide Run, At, MovedUp, Span;
    var u := Editing(g, t, n, 80, DeleteChar, g.cols);
    r := Run(g, t, Sequence([n], 80));
    forall row: nat, col: nat {:trigger At(g, r, row, col)} | row < g.lines && col < g.cols
      ensures At(g, r, row, col) == if row != t.y || col < t.x then At(g, t, row, col)
                                    else if col + Distance(n) < g.cols then At(g, t, row, col + Distance(n))
                                    else t.blank
    {
      AtIs(g, t, row, col);
      AtIs(g, r, row, col);
      if t.x < g.cols {
        var k := Min(Times(n, g.cols), g.cols - t.x);
        InRow(g, t.y, t.x, g.cols, row, col);
        InRow(g, t.y, t.x, g.cols - k, row, col);
        var from := Span(t.y, g.cols) + t.x;
        MovedUpIndex(t.cells, from, Span(t.y, g.cols) + g.cols, k, t.blank, Span(row, g.cols) + col);
        if row == t.y && col >= t.x && col + Distance(n) < g.cols {
          AtIs(g, t, row, col + k);
        }
      }
    }
  }

  lemma AtIs(g: Geometry, t: Term, row: nat, col: nat)
    requires Fits(g, t) && row < g.lines && col < g.cols
    ensures Span(row, g.cols) + col < |t.cells| && At(g, t, row, col) == t.cells[Span(row, g.cols) + col]
  {
    hide Span;
    RowOrder(row, col, g.lines, g.cols);
  }

  /** The edit that a final byte asks for, done at once. */
  lemma Editing(g: Geometry, t: Term, n: nat, c: char8, e: Edit, limit: nat) returns (u: Term)
    requires Fits(g, t) && Proper(g) && t.state == Normal
    requires (c, e) in {(76 as char8, InsertLine), (77, DeleteLine), (80, DeleteChar), (64, InsertChar)}
    requires limit == if e.InsertChar? || e.DeleteChar? then g.cols else g.lines
    ensures u == Collected(t, [n]) && Fits(g, u)
    ensures var r := Run(g, t, Sequence([n], c));
            && r == EditedAtOnce(g, u, e, Times(n, limit)) && Fits(g, r)
            && r == t.(cells := r.cells, par := r.par, npar := 0, ques := false)
  {
    hide Run, Fits, EditedTimes, EditedAtOnce;
    Ending(g, t, [n], c);
    u := Collected(t, [n]);
    AsCollected(g, t, [n]);
    TimesIs(n, limit);
    EditsInOneStep(g, u, e, Times(n, limit));
    assert Run(g, t, Sequence([n], c)) == EditedTimes(g, u, e, Times(n, limit));
  }

  // ----- The attribute -----

  lemma {:induction false} OneMoreRendition(g: Geometry, u: Term, v: Term, i: nat)
    requires |u.par| == NPAR == |v.par| && u.npar == v.npar + 1 < NPAR && i <= v.npar + 1
    requires u.attr == v.attr && u.iscolor == v.iscolor && u.defAttr == v.defAttr && u.boldAttr == v.boldAttr
    requires forall j :: i <= j <= v.npar ==> u.par[j] == v.par[j]
    ensures var r, s := Renditions(g, u, i), Renditions(g, v, i);
            (r.attr, r.iscolor) == Shade(g.colour, s.iscolor, s.attr, s.defAttr, s.boldAttr, u.par[u.npar])
    decreases NPAR - i
  {
    hide Shade;
    if i <= v.npar {
      OneMoreRendition(g, Rendition(g, u, u.par[i]), Rendition(g, v, v.par[i]), i + 1);
    }
  }

  lemma OneRendition(g: Geometry, t: Term, n: nat)
    requires Fits(g, t) && Proper(g) && t.state == Normal
    ensures var r := Run(g, t, Sequence([n], 109));
            && (r.attr, r.iscolor) == Shade(g.colour, t.iscolor, t.attr, t.defAttr, t.boldAttr, n % WORD)
            && r == t.(attr := r.attr, iscolor := r.iscolor, par := r.par, npar := 0, ques := false)
  {
    hide Shade, Run, Fits;
    Ending(g, t, [n], 109);
    var u := Collected(t, [n]);
    AsCollected(g, t, [n]);
    var v := Rendition(g, u, u.par[0]);
    assert Renditions(g, v, 1) == v;
    assert Renditions(g, u, 0) == v;
  }

  /** Several parameters do what they do one after the other. */
  lemma RenditionsInTurn(g: Geometry, t: Term, ps: seq<nat>, n: nat)
    requires Fits(g, t) && Proper(g) && t.state == Normal && 0 < |ps| < NPAR
    ensures var r, s := Run(g, t, Sequence(ps + [n], 109)), Run(g, Run(g, t, Sequence(ps, 109)), Sequence([n], 109));
            r.attr == s.attr && r.iscolor == s.iscolor && r == s.(par := r.par, npar := |ps|)
  {
    hide Shade, Run, Kept;
    var u, v := Collected(t, ps + [n]), Collected(t, ps);
    Ending(g, t, ps + [n], 109);
    Ending(g, t, ps, 109);
    AsCollected(g, t, ps);
    AsCollected(g, t, ps + [n]);
    OneMoreRendition(g, u, v, 0);
    var m := Run(g, t, Sequence(ps, 109));
    assert m == Renditions(g, v, 0);
    OneRendition(g, m, n);
  }

  /** The low and the high half of an attribute: foreground, and background with blinking. */
  function Low(a: bv8): bv8 {
    a & 0x0f
  }

  function High(a: bv8): bv8 {
    a >> 4
  }

  predicate Sets(r: bv8, a: bv8, mask: bv8) {
    r & mask == mask && r & !mask == a & !mask
  }

  predicate Clears(r: bv8, a: bv8, mask: bv8) {
    r & mask == 0 && r & !mask == a & !mask
  }

  /** The parameters that m knows beside the colours. */
  predicate Styles(p: u32) {
    p == 0 || p == 1 || p == 4 || p == 5 || p == 7 || p == 22 || p == 24 || p == 25 || p == 27 || p == 39 || p == 49
  }

  lemma ShadeBits(a: bv8, def: bv8)
    ensures Sets(a | 0x01, a, 0x01) && Sets(a | 0x08, a, 0x08) && Sets(a | 0x0f, a, 0x0f) && Sets(a | 0x80, a, 0x80)
    ensures Clears(a & 0xf7, a, 0x08) && Clears(a & 0xfe, a, 0x01) && Clears(a & 0x7f, a, 0x80)
    ensures Low((a << 4) | (a >> 4)) == High(a) && High((a << 4) | (a >> 4)) == Low(a)
    ensures Low((a & 0xf0) | (def & 0x0f)) == Low(def) && High((a & 0xf0) | (def & 0x0f)) == High(a)
    ensures Low((a & 0x0f) | (def & 0xf0)) == Low(a) && High((a & 0x0f) | (def & 0xf0)) == High(def)
  {}

  /** What each parameter of m but a colour does to the bits of the attribute, and whether colour is
      in use afterwards. */
  lemma StyleShades(colour: bool, iscolor: bool, a: bv8, def: bv8, bold: u32, p: u32)
    requires !(30 <= p <= 38 || 40 <= p <= 48)
    ensures var (r, c) := Shade(colour, iscolor, a, def, bold, p);
            && (p == 0 || p == 27 ==> r == def)
            && (p == 1 ==> Sets(r, a, if iscolor then 0x08 else 0x0f))
            && (p == 4 && !iscolor ==> Sets(r, a, 0x01))
            && (p == 5 ==> Sets(r, a, 0x80))
            && (p == 7 ==> Low(r) == High(a) && High(r) == Low(a))
            && (p == 22 ==> Clears(r, a, 0x08))
            && (p == 24 ==> Clears(r, a, 0x01))
            && (p == 25 ==> Clears(r, a, 0x80))
            && (p == 39 ==> Low(r) == Low(def) && High(r) == High(a))
            && (p == 49 ==> Low(r) == Low(a) && High(r) == High(def))
            && (!Styles(p) ==> r == a)
            && (c <==> iscolor || (colour && !Styles(p)))
  {
    hide Sets, Clears, Low, High, Shade, Bold;
    DefaultShades(colour, iscolor, a, def, bold);
    if Styles(p) {
      StylesKeepColour(colour, iscolor, a, def, bold, p);
      StyleBits(colour, iscolor, a, def, bold, p);
    } else {
      NoShade(colour, iscolor, a, def, bold, p);
    }
  }

  lemma StyleBits(colour: bool, iscolor: bool, a: bv8, def: bv8, bold: u32, p: u32)
    requires Styles(p)
    ensures var r := Shade(colour, iscolor, a, def, bold, p).0;
            && (p == 1 ==> Sets(r, a, if iscolor then 0x08 else 0x0f))
            && (p == 4 && !iscolor ==> Sets(r, a, 0x01))
            && (p == 5 ==> Sets(r, a, 0x80))
            && (p == 7 ==> Low(r) == High(a) && High(r) == Low(a))
            && (p == 22 ==> Clears(r, a, 0x08))
            && (p == 24 ==> Clears(r, a, 0x01))
            && (p == 25 ==> Clears(r, a, 0x80))
            && (p == 39 ==> Low(r) == Low(def) && High(r) == High(a))
            && (p == 49 ==> Low(r) == Low(a) && High(r) == High(def))
  {
    hide Sets, Clears, Low, High, Shade, Bold;
    ShadeBits(a, def);
    BoldShades(colour, iscolor, a, def, bold, p);
    BitShades(colour, iscolor, a, def, bold, p);
    HalfShades(colour, iscolor, a, def, bold, p);
  }

  lemma BoldShades(colour: bool, iscolor: bool, a: bv8, def: bv8, bold: u32, p: u32)
    requires !(30 <= p <= 38 || 40 <= p <= 48)
    ensures var (r, c) := Shade(colour, iscolor, a, def, bold, p);
            && (p == 1 ==> r == if iscolor then a | 0x08 else a | 0x0f)
            && (p == 4 && !iscolor ==> r == a | 0x01)
  {}

  lemma BitShades(colour: bool, iscolor: bool, a: bv8, def: bv8, bold: u32, p: u32)
    requires !(30 <= p <= 38 || 40 <= p <= 48)
    ensures var (r, c) := Shade(colour, iscolor, a, def, bold, p);
            && (p == 5 ==> r == a | 0x80)
            && (p == 22 ==> r == a & 0xf7)
            && (p == 24 ==> r == a & 0xfe)
            && (p == 25 ==> r == a & 0x7f)
  {
    hide Bold;
  }

  lemma HalfShades(colour: bool, iscolor: bool, a: bv8, def: bv8, bold: u32, p: u32)
    requires !(30 <= p <= 38 || 40 <= p <= 48)
    ensures var (r, c) := Shade(colour, iscolor, a, def, bold, p);
            && (p == 7 ==> r == (a << 4) | (a >> 4))
            && (p == 39 ==> r == (a & 0xf0) | (def & 0x0f))
            && (p == 49 ==> r == (a & 0x0f) | (def & 0xf0))
  {
    hide Bold;
  }

  lemma DefaultShades(colour: bool, iscolor: bool, a: bv8, def: bv8, bold: u32)
    ensures Shade(colour, iscolor, a, def, bold, 0) == Shade(colour, iscolor, a, def, bold, 27) == (def, iscolor)
  {}

  lemma NoShade(colour: bool, iscolor: bool, a: bv8, def: bv8, bold: u32, p: u32)
    requires !(30 <= p <= 38 || 40 <= p <= 48) && !Styles(p)
    ensures Shade(colour, iscolor, a, def, bold, p) == (a, iscolor || colour)
  {
    hide Bold;
  }

  lemma StylesKeepColour(colour: bool, iscolor: bool, a: bv8, def: bv8, bold: u32, p: u32)
    requires Styles(p)
    ensures Shade(colour, iscolor, a, def, bold, p).1 == iscolor
  {
    hide Bold;
  }

  lemma ColourBits(a: bv8, k: nat)
    requires k <= 8
    ensures Low((a & 0xf0) | (k as bv8)) == k as bv8 && High((a & 0xf0) | (k as bv8)) == High(a)
    ensures Low((a & 0x0f) | ((k as bv8) << 4)) == Low(a) && High((a & 0x0f) | ((k as bv8) << 4)) == k as bv8
  {
    SmallBits(k);
    HalfBits(a, k as bv8);
  }

  lemma SmallBits(k: nat)
    requires k <= 8
    ensures (k as bv8) & 0xf0 == 0
  {
    assert k == 0 || k == 1 || k == 2 || k == 3 || k == 4 || k == 5 || k == 6 || k == 7 || k == 8;
  }

  lemma HalfBits(a: bv8, k: bv8)
    requires k & 0xf0 == 0
    ensures Low((a & 0xf0) | k) == k && High((a & 0xf0) | k) == High(a)
    ensures Low((a & 0x0f) | (k << 4)) == Low(a) && High((a & 0x0f) | (k << 4)) == k
  {}

  lemma ForegroundIs(iscolor: bool, a: bv8, def: bv8, bold: u32, k: nat)
    requires k <= 8
    ensures Shade(true, iscolor, a, def, bold, 30 + k) == ((a & 0xf0) | (k as bv8), true)
    ensures Shade(false, iscolor, a, def, bold, 30 + k) == (a, iscolor)
  {
    hide Bold;
  }

  lemma BackgroundIs(iscolor: bool, a: bv8, def: bv8, bold: u32, k: nat)
    requires k <= 8
    ensures Shade(true, iscolor, a, def, bold, 40 + k) == ((a & 0x0f) | ((k as bv8) << 4), true)
    ensures Shade(false, iscolor, a, def, bold, 40 + k) == (a, iscolor)
  {
    hide Bold;
  }

  /** 30 to 38 set the foreground and 40 to 48 the background, on a card with colour. */
  lemma ColourShades(colour: bool, iscolor: bool, a: bv8, def: bv8, bold: u32, k: nat)
    requires k <= 8
    ensures var (r, c) := Shade(colour, iscolor, a, def, bold, 30 + k);
            if !colour then r == a && c == iscolor else c && Low(r) == k as bv8 && High(r) == High(a)
    ensures var (r, c) := Shade(colour, iscolor, a, def, bold, 40 + k);
            if !colour then r == a && c == iscolor else c && Low(r) == Low(a) && High(r) == k as bv8
  {
    ColourBits(a, k);
    ForegroundIs(iscolor, a, def, bold, k);
    BackgroundIs(iscolor, a, def, bold, k);
    hide Low, High, Shade;
  }

  /** Underlining in colour keeps the background and takes the foreground of the setting, or else
      looks for one that shows against the background; it finds one unless the attribute is 0x87. */
  lemma UnderlineShows(colour: bool, a: bv8, def: bv8, bold: u32)
    ensures var (r, c) := Shade(colour, true, a, def, bold, 4);
            && c && High(r) == High(a)
            && (bold != NO_BOLD ==> Low(r) == (bold % 16) as bv8)
            && (bold == NO_BOLD ==> (Low(r) != High(r) <==> a != 0x87))
  {
    hide Low, High;
    var k := bold % 16;
    NibbleBits(k);
    HalfBits(a, k as bv8);
    HalvesSwap(a, k as bv8);
    Contrast(a);
  }

  lemma NibbleBits(k: nat)
    requires k < 16
    ensures (k as bv8) & 0xf0 == 0
  {
    if k > 8 {
      assert k == 9 || k == 10 || k == 11 || k == 12 || k == 13 || k == 14 || k == 15;
    } else {
      SmallBits(k);
    }
  }

  lemma HalvesSwap(a: bv8, k: bv8)
    ensures k | (0xf0 & a) == (a & 0xf0) | k
  {}

  lemma Contrast(a: bv8)
    ensures var r := Bold(true, a, NO_BOLD);
            High(r) == High(a) && (Low(r) != High(r) <==> a != 0x87)
  {}

  // ----- The scrolling region, the cursor kept, and the rest -----

  /** ESC [ a ; b r sets the region to lines a to b, counted from one, a missing b meaning the last
      line, if that is at least one line of the screen. The cursor stays. */
  lemma SetsRegion(g: Geometry, t: Term, a: nat, b: nat)
    requires Fits(g, t) && Proper(g) && t.state == Normal && a < WORD && b < WORD
    ensures var r := Run(g, t, Sequence([a, b], 114));
            var top, bottom := if a == 0 then 0 else a - 1, if b == 0 then g.lines else b;
            var good := top < bottom <= g.lines;
            r == t.(top := if good then top else t.top, bottom := if good then bottom else t.bottom,
                    par := r.par, npar := 1, ques := false)
  {
    hide Run, Kept, Fits;
    Ending(g, t, [a, b], 114);
    var u := Collected(t, [a, b]);
    AsCollected(g, t, [a, b]);
    InWord(a);
    InWord(b);
    RegionIs(g, u);
    assert Run(g, t, Sequence([a, b], 114)) == Region(g, u);
  }

  lemma InWord(n: nat)
    requires n < WORD
    ensures n % WORD == n
  {}

  lemma RegionIs(g: Geometry, t: Term)
    requires Fits(g, t) && Proper(g)
    ensures var r := Region(g, t);
            var top, bottom := if t.par[0] == 0 then 0 else t.par[0] - 1, if t.par[1] == 0 then g.lines else t.par[1];
            var good := top < bottom <= g.lines;
            r == t.(top := if good then top else t.top, bottom := if good then bottom else t.bottom, par := r.par)
  {}

  /** ESC 7 and ESC [ s keep the cursor's place, and ESC 8 and ESC [ u bring it back. */
  lemma SavesCursor(g: Geometry, t: Term)
    requires Fits(g, t) && Proper(g) && t.state == Normal
    ensures Run(g, t, [27, 55]) == t.(savedX := t.x, savedY := t.y)
    ensures var back := if t.savedX <= g.cols && t.savedY < g.lines then t.(x := t.savedX, y := t.savedY) else t;
            && Run(g, t, [27, 56]) == back
            && var u := Run(g, t, [27, 91, 117]); u == back.(par := u.par, npar := 0, ques := false)
    ensures var s := Run(g, t, [27, 91, 115]);
            s == t.(savedX := t.x, savedY := t.y, par := s.par, npar := 0, ques := false)
  {
    hide Run, Put, Fits, Kept;
    RunTwo(g, t, 27, 55);
    RunTwo(g, t, 27, 56);
    InNormal(g, t);
    AfterEsc(g, t);
    NoParameter(g, t, 115);
    NoParameter(g, t, 117);
    Ending(g, t, [0], 115);
    Ending(g, t, [0], 117);
    AsCollected(g, t, [0]);
  }

  /** ESC [ b ; b + 13 ; b + 17 b sets the colour that stands for underlining, modulo 2^32. */
  lemma SetsBoldColour(g: Geometry, t: Term, b: nat)
    requires Fits(g, t) && Proper(g) && t.state == Normal && b + 17 < WORD
    ensures var r := Run(g, t, Sequence([b, b + 13, b + 17], 98));
            r == t.(boldAttr := b, par := r.par, npar := 2, ques := false)
  {
    hide Run, Kept, Fits;
    var ps := [b, b + 13, b + 17];
    Ending(g, t, ps, 98);
    AsCollected(g, t, ps);
    InWord(b);
    InWord(b + 13);
    InWord(b + 17);
    var u := Collected(t, ps);
    assert u.par[0] == b && u.par[1] == ps[1] && u.par[2] == ps[2];
    assert Run(g, t, Sequence(ps, 98)) == BoldColour(u);
  }

  /** After ESC [ ? the parameters are read and the final byte does nothing. */
  lemma PrivateIgnored(g: Geometry, t: Term, n: nat, c: char8)
    requires Fits(g, t) && Proper(g) && t.state == Normal && Ends(c)
    ensures var r := Run(g, t, [27, 91, 63] + Decimal(n) + [c]);
            r == t.(par := r.par, npar := 0, ques := false)
  {
    hide Run, Put, Decimal, Fits;
    var d := Decimal(n) + [c];
    RunAppend(g, t, [27, 91, 63], d);
    assert [27, 91, 63] + Decimal(n) + [c] == [27, 91, 63] + d;
    RunThree(g, t, 27, 91, 63);
    EscBracket(g, t);
    var u := Opened(t).(ques := true);
    Question(g, t);
    RunAppend(g, u, Decimal(n), [c]);
    DigitsRead(g, u, n);
    var v := u.(par := u.par[0 := n % WORD]);
    RunOne(g, v, c);
    LastByte(g, v, c);
  }

  lemma Question(g: Geometry, t: Term)
    requires Fits(g, t) && Proper(g) && t.state == Normal
    ensures Put(g, t.(state := Square), 63) == Opened(t).(ques := true)
    ensures Fits(g, Opened(t).(ques := true))
  {
    hide Parameter;
  }

  /** The single control bytes that do not move lines. BS and the erase character stop at the left
      edge, SO and SI choose the character set, and whatever else is not printable does nothing. */
  lemma ControlBytes(g: Geometry, t: Term, c: char8)
    requires Fits(g, t) && Proper(g) && t.state == Normal && !(31 < c < 127) && !(10 <= c <= 12) && c != 27
    requires c == t.erase ==> c != 13
    ensures var r, left := Run(g, t, [c]), if t.x > 0 then t.x - 1 else 0;
            if c == 13 then r == t.(x := 0)
            else if c == t.erase then
              r == t.(x := left, cells := r.cells)
              && forall row, col {:trigger At(g, r, row, col)} :: 0 <= row < g.lines && 0 <= col < g.cols ==>
                   At(g, r, row, col) == if row == t.y && t.x > 0 && col == t.x - 1 then t.blank else At(g, t, row, col)
            else if c == 8 then r == t.(x := left)
            else if c == 14 || c == 15 then r == t.(graf := c == 14)
            else c == 9 || r == t
  {
    hide Run, At, Span, Filled, Tab;
    RunOne(g, t, c);
    Alone(g, t, c);
    var r := Run(g, t, [c]);
    if c == t.erase && c != 13 {
      forall row: nat, col: nat {:trigger At(g, r, row, col)} | row < g.lines && col < g.cols
        ensures At(g, r, row, col) == if row == t.y && t.x > 0 && col == t.x - 1 then t.blank else At(g, t, row, col)
      {
        Rubbed(g, t, row, col);
      }
    }
  }

  lemma Alone(g: Geometry, t: Term, c: char8)
    requires Fits(g, t) && Proper(g) && t.state == Normal
    ensures Put(g, t, c) == PutNormal(g, t, c)
  {
    hide PutNormal, Fits;
    assert t.(state := Normal) == t;
  }

  lemma Rubbed(g: Geometry, t: Term, row: nat, col: nat)
    requires Fits(g, t) && row < g.lines && col < g.cols
    ensures At(g, Del(g, t), row, col)
            == if row == t.y && t.x > 0 && col == t.x - 1 then t.blank else At(g, t, row, col)
  {
    hide Span, Filled, Address;
    if t.x > 0 {
      InRow(g, t.y, t.x - 1, t.x, row, col);
      FilledIndex(t.cells, Span(t.y, g.cols) + t.x - 1, 1, t.blank, Address(g, row, col));
    }
  }

  /** CAN and SUB break off any sequence. */
  lemma BreaksOff(g: Geometry, t: Term, c: char8)
    requires Fits(g, t) && Proper(g) && (c == 24 || c == 26) && c != t.erase
    ensures Run(g, t, [c]) == t.(state := Normal)
  {
    hide Print, Lf, Del, Tab;
    RunOne(g, t, c);
  }

  /** ESC E goes to the front of the next line and stays put on the last; ESC c takes back the region
      and the erase character; ESC ( or ) and 0 or B choose the character set; ESC P S takes the
      attribute as the default, for blanks too; ESC # and a byte do nothing. */
  lemma OtherEscapes(g: Geometry, t: Term, c: char8)
    requires Fits(g, t) && Proper(g) && t.state == Normal && c != 24 && c != 26
    ensures Run(g, t, [27, 69]) == if t.y + 1 < g.lines then t.(x := 0, y := t.y + 1) else t
    ensures Run(g, t, [27, 99]) == t.(erase := 127, top := 0, bottom := g.lines)
    ensures Run(g, t, [27, 40, c]) == Run(g, t, [27, 41, c])
            == if c == 48 then t.(graf := true) else if c == 66 then t.(graf := false) else t
    ensures Run(g, t, [27, 80, c])
            == if c == 83 then t.(defAttr := t.attr, blank := Cell(t.blank.glyph, t.attr)) else t
    ensures Run(g, t, [27, 35, c]) == t
  {
    hide Put, Run, Fits;
    RunTwo(g, t, 27, 69);
    RunTwo(g, t, 27, 99);
    RunThree(g, t, 27, 40, c);
    RunThree(g, t, 27, 41, c);
    RunThree(g, t, 27, 80, c);
    RunThree(g, t, 27, 35, c);
    InNormal(g, t);
    SecondByte(g, t);
    ThirdByte(g, t, c);
  }

  lemma SecondByte(g: Geometry, t: Term)
    requires Fits(g, t) && Proper(g) && t.state == Normal
    ensures Put(g, t.(state := Esc), 69) == if t.y + 1 < g.lines then t.(x := 0, y := t.y + 1) else t
    ensures Put(g, t.(state := Esc), 99) == t.(erase := 127, top := 0, bottom := g.lines)
    ensures Put(g, t.(state := Esc), 40) == Put(g, t.(state := Esc), 41) == t.(state := SetGraph)
    ensures Put(g, t.(state := Esc), 80) == t.(state := SetTerm)
    ensures Put(g, t.(state := Esc), 35) == t.(state := Ignore)
  {
    hide Put, Ri, Lf;
    AfterEsc(g, t);
  }

  lemma ThirdByte(g: Geometry, t: Term, c: char8)
    requires Fits(g, t) && Proper(g) && t.state == Normal && c != 24 && c != 26
    ensures Put(g, t.(state := SetGraph), c)
            == if c == 48 then t.(graf := true) else if c == 66 then t.(graf := false) else t
    ensures Put(g, t.(state := SetTerm), c)
            == if c == 83 then t.(defAttr := t.attr, blank := Cell(t.blank.glyph, t.attr)) else t
    ensures Put(g, t.(state := Ignore), c) == t
  {
    hide Fits;
    assert t.(state := SetGraph).(state := Normal) == t;
    assert t.(state := SetTerm).(state := Normal) == t;
    assert t.(state := Ignore).(state := Normal) == t;
  }

  /** ESC [ n G or ` goes to column n and ESC [ n d to line n, counted from one, if that is on the
      screen; ESC [ a ; b f is ESC [ a ; b H. */
  lemma GoesTo(g: Geometry, t: Term, n: nat, m: nat)
    requires Fits(g, t) && Proper(g) && t.state == Normal
    ensures var r := Run(g, t, Sequence([n], 71));
            r == t.(x := if Place(n) <= g.cols then Place(n) else t.x, par := r.par, npar := 0, ques := false)
    ensures Run(g, t, Sequence([n], 96)) == Run(g, t, Sequence([n], 71))
    ensures var r := Run(g, t, Sequence([n], 100));
            r == t.(y := if Place(n) < g.lines then Place(n) else t.y, par := r.par, npar := 0, ques := false)
    ensures Run(g, t, Sequence([n, m], 102)) == Run(g, t, Sequence([n, m], 72))
  {
    hide Run, Kept, Fits;
    Ending(g, t, [n], 71);
    Ending(g, t, [n], 96);
    Ending(g, t, [n], 100);
    Ending(g, t, [n, m], 102);
    Ending(g, t, [n, m], 72);
    AsCollected(g, t, [n]);
    AsCollected(g, t, [n, m]);
    MovesTo(g, Collected(t, [n]));
    MovesTo(g, Collected(t, [n, m]));
  }

  lemma MovesTo(g: Geometry, t: Term)
    requires Fits(g, t) && Proper(g) && !t.ques
    ensures var to := if t.par[0] > 0 then t.par[0] - 1 else 0;
            && Final(g, t, 71) == t.(x := if to <= g.cols then to else t.x, par := Final(g, t, 71).par)
            && Final(g, t, 100) == t.(y := if to < g.lines then to else t.y, par := Final(g, t, 100).par)
    ensures Final(g, t, 96) == Final(g, t, 71) && Final(g, t, 102) == Final(g, t, 72)
  {
    Dispatch(g, t);
    hide Final, AtLeastOne, Plus, Minus;
  }

  lemma Dispatch(g: Geometry, t: Term)
    requires Fits(g, t) && Proper(g) && !t.ques
    ensures forall c :: c == 71 || c == 72 || c == 96 || c == 100 || c == 102 ==> Final(g, t, c) == Moved(g, t, c)
  {
    hide EraseDisplay, EraseLine, EditedBy, Renditions, Region, BoldColour, Moved, Fits;
  }

  /** The final bytes that ask for something. */
  predicate Known(c: char8) {
    64 <= c <= 72 || 74 <= c <= 77 || c == 80 || 96 <= c <= 98 || 100 <= c <= 102 || c == 109 || c == 114
    || c == 115 || c == 117
  }

  /** Any other final byte does nothing. */
  lemma UnknownIgnored(g: Geometry, t: Term, ps: seq<nat>, c: char8)
    requires Fits(g, t) && Proper(g) && t.state == Normal && 0 < |ps| <= NPAR && Ends(c) && !Known(c)
    ensures var r := Run(g, t, Sequence(ps, c));
            r == t.(par := r.par, npar := |ps| - 1, ques := false)
  {
    hide Run, Kept, Fits;
    Ending(g, t, ps, c);
    AsCollected(g, t, ps);
    var u := Collected(t, ps);
    assert Final(g, u, c) == u;
  }
}
