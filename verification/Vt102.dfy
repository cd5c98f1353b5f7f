/** What the escape sequences of kernel/chr_drv/console.c mean to whoever writes them. */
module Vt102 {
  import opened Ring
  import opened Words
  import opened Screen
  import opened Video

  // ----- Repeated editing, in one step -----

  function Min(a: nat, b: nat): nat {
    if a < b then a else b
  }

  /** Two moves are one longer move, which can at most empty the stretch. */
  lemma UpTwice(s: seq<Cell>, a: nat, e: nat, k: nat, m: nat, v: Cell)
    requires a + k <= e <= |s| && a + m <= e
    ensures MovedUp(MovedUp(s, a, e, k, v), a, e, m, v) == MovedUp(s, a, e, Min(k + m, e - a), v)
  {
    hide MovedUp;
    var t := MovedUp(s, a, e, k, v);
    forall j | 0 <= j < |s|
      ensures MovedUp(t, a, e, m, v)[j] == MovedUp(s, a, e, Min(k + m, e - a), v)[j]
    {
      MovedUpIndex(t, a, e, m, v, j);
      MovedUpIndex(s, a, e, Min(k + m, e - a), v, j);
      if a <= j < e - m {
        MovedUpIndex(s, a, e, k, v, j + m);
      } else {
        MovedUpIndex(s, a, e, k, v, j);
      }
    }
  }

  lemma DownTwice(s: seq<Cell>, a: nat, e: nat, k: nat, m: nat, v: Cell)
    requires a + k <= e <= |s| && a + m <= e
    ensures MovedDown(MovedDown(s, a, e, k, v), a, e, m, v) == MovedDown(s, a, e, Min(k + m, e - a), v)
  {
    hide MovedDown;
    var t := MovedDown(s, a, e, k, v);
    forall j | 0 <= j < |s|
      ensures MovedDown(t, a, e, m, v)[j] == MovedDown(s, a, e, Min(k + m, e - a), v)[j]
    {
      MovedDownIndex(t, a, e, m, v, j);
      MovedDownIndex(s, a, e, Min(k + m, e - a), v, j);
      if a + m <= j < e {
        MovedDownIndex(s, a, e, k, v, j - m);
      } else {
        MovedDownIndex(s, a, e, k, v, j);
      }
    }
  }

  /** Inserting and then deleting loses what was pushed off the end, and nothing else. */
  lemma DownThenUp(s: seq<Cell>, a: nat, e: nat, k: nat, v: Cell)
    requires a + k <= e <= |s|
    ensures MovedUp(MovedDown(s, a, e, k, v), a, e, k, v) == Filled(s, e - k, k, v)
  {
    hide MovedUp, MovedDown;
    var t := MovedDown(s, a, e, k, v);
    forall j | 0 <= j < |s| ensures MovedUp(t, a, e, k, v)[j] == Filled(s, e - k, k, v)[j] {
      MovedUpIndex(t, a, e, k, v, j);
      MovedDownIndex(s, a, e, k, v, if a <= j < e - k then j + k else j);
    }
  }

  /** The lines from the cursor to the bottom of the screen. */
  lemma LinesBelow(g: Geometry, y: nat, n: nat)
    requires y < g.lines
    ensures Span(y, g.cols) + Span(Min(n, g.lines - y), g.cols) <= Span(g.lines, g.cols)
    ensures Min(g.cols + Span(Min(n, g.lines - y), g.cols), Span(g.lines, g.cols) - Span(y, g.cols))
            == Span(Min(n + 1, g.lines - y), g.cols)
  {
    hide Span;
    SpanSum(y, g.lines - y, g.cols);
    SpanMono(Min(n, g.lines - y), g.lines - y, g.cols);
    if n < g.lines - y {
      RowFits(n, g.lines - y, g.cols);
    }
  }

  lemma SpanSum(a: nat, b: nat, cols: nat)
    ensures Span(a + b, cols) == Span(a, cols) + Span(b, cols)
  {
    Distribute(a, b, cols);
  }

  /** n characters or lines inserted or deleted at once; what exceeds the line or the screen has
      no further effect. */
  function EditedAtOnce(g: Geometry, t: Term, e: Edit, n: nat): (r: Term)
    requires Fits(g, t)
  {
    var here := Here(g, t);
    var chars := if t.x < g.cols then Min(n, g.cols - t.x) else 0;
    var right := here - t.x + g.cols;
    var lines := Span(Min(n, g.lines - t.y), g.cols);
    LinesBelow(g, t.y, n);
    match e
    case InsertChar => if t.x >= g.cols then t else t.(cells := MovedDown(t.cells, here, right, chars, t.blank))
    case DeleteChar => if t.x >= g.cols then t else t.(cells := MovedUp(t.cells, here, right, chars, t.blank))
    case InsertLine => t.(cells := MovedDown(t.cells, Span(t.y, g.cols), |t.cells|, lines, t.blank))
    case DeleteLine => t.(cells := MovedUp(t.cells, Span(t.y, g.cols), |t.cells|, lines, t.blank))
  }

  lemma NothingEdited(g: Geometry, t: Term, e: Edit)
    requires Fits(g, t)
    ensures EditedAtOnce(g, t, e, 0) == t
  {
    var here := Here(g, t);
    assert Span(0, g.cols) == 0;
    Still(t.cells, Span(t.y, g.cols), |t.cells|, t.blank) by { RowFits(t.y, g.lines, g.cols); }
    if t.x < g.cols {
      Still(t.cells, here, here - t.x + g.cols, t.blank);
    }
  }

  lemma Still(s: seq<Cell>, a: nat, e: nat, v: Cell)
    requires a <= e <= |s|
    ensures MovedUp(s, a, e, 0, v) == s && MovedDown(s, a, e, 0, v) == s
  {}

  lemma EditedOnceMore(g: Geometry, t: Term, e: Edit, n: nat)
    requires Fits(g, t)
    ensures EditedAtOnce(g, Edited(g, t, e), e, n) == EditedAtOnce(g, t, e, n + 1)
  {
    hide MovedUp, MovedDown, Span;
    var here := Here(g, t);
    RowFits(t.y, g.lines, g.cols);
    LinesBelow(g, t.y, n);
    var lines := Span(Min(n, g.lines - t.y), g.cols);
    match e
    case InsertChar =>
      if t.x < g.cols {
        DownTwice(t.cells, here, here - t.x + g.cols, 1, Min(n, g.cols - t.x), t.blank);
      }
    case DeleteChar =>
      if t.x < g.cols {
        UpTwice(t.cells, here, here - t.x + g.cols, 1, Min(n, g.cols - t.x), t.blank);
      }
    case InsertLine => DownTwice(t.cells, Span(t.y, g.cols), |t.cells|, g.cols, lines, t.blank);
    case DeleteLine => UpTwice(t.cells, Span(t.y, g.cols), |t.cells|, g.cols, lines, t.blank);
  }

  /** CSI n L, M, P and @: repeating the single edit moves everything exactly n places. */
  lemma {:induction false} EditsInOneStep(g: Geometry, t: Term, e: Edit, n: nat)
    requires Fits(g, t)
    ensures EditedTimes(g, t, e, n) == EditedAtOnce(g, t, e, n)
    decreases n
  {
    hide Edited, EditedAtOnce, Fits;
    if n == 0 {
      NothingEdited(g, t, e);
    } else {
      EditedOnceMore(g, t, e, n - 1);
      EditsInOneStep(g, Edited(g, t, e), e, n - 1);
    }
  }

  // ----- Parameters and cursor addressing -----

  const WORD := 0x1_0000_0000

  function Decimal(n: nat): (s: seq<char8>)
    ensures s != [] && forall i :: 0 <= i < |s| ==> 48 <= s[i] <= 57
  {
    if n < 10 then [48 + n] else Decimal(n / 10) + [48 + n % 10]
  }

  lemma DigitWraps(n: nat)
    ensures Digit((n / 10) % WORD, n % 10) == n % WORD
  {
    var q, d := n / 10, n % 10;
    var k := q / WORD;
    DivMod(q, WORD);
    DivMod(n, 10);
    MulAssoc(10, k, WORD);
    assert n == 10 * k * WORD + (10 * (q % WORD) + d);
    WrapsAround(10 * k, 10 * (q % WORD) + d);
  }

  lemma WrapsAround(k: int, r: nat)
    ensures (k * WORD + r) % WORD == r % WORD
  {
    DivMod(r, WORD);
    Distribute(k, r / WORD, WORD);
    DivUnique(k * WORD + r, WORD, k + r / WORD, r % WORD);
  }

  /** In ESgetpars, decimal digits read as the number they spell, kept in 32 bits. */
  lemma {:induction false} DigitsRead(g: Geometry, t: Term, n: nat)
    requires Fits(g, t) && Proper(g) && t.state == GetPars && t.par[t.npar] == 0
    ensures Run(g, t, Decimal(n)) == t.(par := t.par[t.npar := n % WORD])
    decreases n
  {
    hide Digit, Run;
    if n < 10 {
      OneDigit(g, t, n);
      assert Digit(0, n) == n % WORD by { DigitWraps(n); }
    } else {
      DigitsRead(g, t, n / 10);
      var t1 := t.(par := t.par[t.npar := (n / 10) % WORD]);
      RunAppend(g, t, Decimal(n / 10), [48 + n % 10]);
      OneDigit(g, t1, n % 10);
      DigitWraps(n);
      assert t1.par[t.npar := n % WORD] == t.par[t.npar := n % WORD];
    }
  }

  lemma OneDigit(g: Geometry, t: Term, d: nat)
    requires Fits(g, t) && Proper(g) && t.state == GetPars && d < 10
    ensures Run(g, t, [48 + d]) == t.(par := t.par[t.npar := Digit(t.par[t.npar], d)])
  {
    hide Digit, Final;
    RunOne(g, t, 48 + d);
  }

  lemma RunOne(g: Geometry, t: Term, c: char8)
    requires Fits(g, t) && Proper(g)
    ensures Run(g, t, [c]) == Put(g, t, c)
  {
    hide Put;
    RunNothing(g, Put(g, t, c));
    assert [c][1..] == [];
  }

  /** The state after ESC [ and before the first parameter. */
  function Opened(t: Term): Term {
    t.(state := GetPars, par := seq(NPAR, _ => 0), npar := 0, ques := false)
  }

  lemma RunFirst(g: Geometry, t: Term, c: char8, rest: seq<char8>)
    requires Fits(g, t) && Proper(g)
    ensures Run(g, t, [c] + rest) == Run(g, Put(g, t, c), rest)
  {
    hide Put;
    assert ([c] + rest)[1..] == rest;
  }

  lemma EscBracket(g: Geometry, t: Term)
    requires Fits(g, t) && Proper(g) && t.state == Normal
    ensures Put(g, t, 27) == t.(state := Esc)
    ensures Put(g, t.(state := Esc), 91) == t.(state := Square)
  {
    hide Fits, Proper;
  }

  lemma FirstDigit(g: Geometry, t: Term, c: char8)
    requires Fits(g, t) && Proper(g) && 48 <= c <= 57
    ensures Put(g, t.(state := Square), c) == Put(g, Opened(t), c)
  {
    hide Parameter;
  }

  lemma OpensWith(g: Geometry, t: Term, input: seq<char8>)
    requires Fits(g, t) && Proper(g) && t.state == Normal && input != []
    requires 48 <= input[0] <= 57
    ensures Run(g, t, [27, 91] + input) == Run(g, Opened(t), input)
  {
    hide Put, Run;
    EscBracket(g, t);
    RunFirst(g, t, 27, [91] + input);
    RunFirst(g, t.(state := Esc), 91, input);
    FirstDigit(g, t, input[0]);
    RunFirst(g, t.(state := Square), input[0], input[1..]);
    RunFirst(g, Opened(t), input[0], input[1..]);
    assert [27, 91] + input == [27] + ([91] + input);
    assert [input[0]] + input[1..] == input;
  }

  /** if (n) n--, on what the parameter kept of n */
  function Place(n: nat): nat {
    if n % WORD == 0 then 0 else n % WORD - 1
  }

  /** ESC [ row ; column H: from any screen, the cursor goes to that place, counted from one, if
      it is on the screen (one place past the right edge is), and stays where it is if it is not.
      Nothing else that shows changes. */
  lemma CursorAddress(g: Geometry, t: Term, row: nat, column: nat)
    requires Fits(g, t) && Proper(g) && t.state == Normal
    ensures var r := Run(g, t, [27, 91] + Decimal(row) + [59] + Decimal(column) + [72]);
            var there := Place(column) <= g.cols && Place(row) < g.lines;
            r.x == (if there then Place(column) else t.x) && r.y == (if there then Place(row) else t.y)
              && r == t.(x := r.x, y := r.y, par := r.par, npar := 1, ques := false)
  {
    hide Put, Run, Decimal;
    var a, b := Decimal(row), Decimal(column);
    var t1 := Opened(t);
    var t2 := t1.(par := t1.par[0 := row % WORD]);
    var t3 := t2.(npar := 1);
    var t4 := t3.(par := t3.par[1 := column % WORD]);
    OpensWith(g, t, a + ([59] + (b + [72])));
    RunAppend(g, t1, a, [59] + (b + [72]));
    DigitsRead(g, t1, row);
    RunFirst(g, t2, 59, b + [72]);
    Semicolon(g, t2);
    RunAppend(g, t3, b, [72]);
    DigitsRead(g, t3, column);
    RunOne(g, t4, 72);
    Home(g, t4);
    assert [27, 91] + a + [59] + b + [72] == [27, 91] + (a + ([59] + (b + [72])));
  }

  lemma Semicolon(g: Geometry, t: Term)
    requires Fits(g, t) && Proper(g) && t.state == GetPars && t.npar == 0
    ensures Put(g, t, 59) == t.(npar := 1)
  {
    hide Final;
  }

  lemma Home(g: Geometry, t: Term)
    requires Fits(g, t) && Proper(g) && t.state == GetPars && !t.ques
    ensures var x, y := if t.par[1] > 0 then t.par[1] - 1 else 0, if t.par[0] > 0 then t.par[0] - 1 else 0;
            Put(g, t, 72) == GotoXY(g, t.(state := Normal, par := Put(g, t, 72).par), x, y)
  {
    hide EraseDisplay, EraseLine, EditedBy, Renditions, Region, BoldColour;
  }

  // ----- Moving by a distance -----

  /** CSI A to F, a and e. */
  predicate Moves(c: char8) {
    65 <= c <= 70 || c == 97 || c == 101
  }

  /** The distance a parameter stands for: zero means one, and 32 bits are kept. */
  function Distance(n: nat): nat {
    if n % WORD == 0 then 1 else n % WORD
  }

  /** The place n columns or lines away, on the screen or not. */
  function Aim(t: Term, c: char8, n: nat): (int, int)
    requires Moves(c)
  {
    match c
    case 65 => (t.x, t.y - n)
    case 66 | 101 => (t.x, t.y + n)
    case 67 | 97 => (t.x + n, t.y)
    case 68 => (t.x - n, t.y)
    case 69 => (0, t.y + n)
    case _ => (0, t.y - n)
  }

  /** Where the cursor should end up: there, if that is on the screen, and else where it was. */
  function Landing(g: Geometry, t: Term, c: char8, n: nat): (int, int)
    requires Moves(c)
  {
    var (x, y) := Aim(t, c, n);
    if 0 <= x <= g.cols && 0 <= y < g.lines then (x, y) else (t.x, t.y)
  }

  /** The 32-bit sum or difference comes round to a place on the screen. */
  predicate Wraps(g: Geometry, t: Term, c: char8, n: nat)
    requires Moves(c)
  {
    match c
    case 65 | 70 => n > WORD + t.y - g.lines
    case 66 | 101 | 69 => t.y + n >= WORD
    case 67 | 97 => t.x + n >= WORD
    case _ => n >= WORD + t.x - g.cols
  }

  lemma MoveLands(g: Geometry, t: Term, c: char8)
    requires Fits(g, t) && Proper(g) && Moves(c)
    ensures var n := AtLeastOne(t).par[0];
            var r := Moved(g, t, c);
            && ((r.x, r.y) == Landing(g, t, c, n) <==> !Wraps(g, t, c, n))
            && r == AtLeastOne(t).(x := r.x, y := r.y)
  {
    Positive(t);
    hide FromZero, AtLeastOne, GotoXY, Plus, Minus, Landing, Wraps;
    var n := AtLeastOne(t).par[0];
    ReachedLands(g, t, c, n);
    var (x, y) := Reached(t, c, n);
    assert Moved(g, t, c) == GotoXY(g, AtLeastOne(t), x, y);
    Goes(g, AtLeastOne(t), x, y);
  }

  lemma Positive(t: Term)
    requires |t.par| == NPAR
    ensures AtLeastOne(t).par[0] > 0
  {}

  lemma Goes(g: Geometry, t: Term, x: nat, y: nat)
    ensures GotoXY(g, t, x, y) == if x > g.cols || y >= g.lines then t else t.(x := x, y := y)
  {}

  /** The same place as the 32-bit arithmetic finds it. */
  function Reached(t: Term, c: char8, n: u32): (nat, nat)
    requires Moves(c) && t.x < 256 && t.y < 256
  {
    match c
    case 65 => (t.x, Minus(t.y, n))
    case 66 | 101 => (t.x, Plus(t.y, n))
    case 67 | 97 => (Plus(t.x, n), t.y)
    case 68 => (Minus(t.x, n), t.y)
    case 69 => (0, Plus(t.y, n))
    case _ => (0, Minus(t.y, n))
  }

  lemma ReachedLands(g: Geometry, t: Term, c: char8, n: u32)
    requires Proper(g) && t.x <= g.cols && t.y < g.lines && Moves(c) && n > 0
    ensures var (x, y) := Reached(t, c, n);
            var r := if x > g.cols || y >= g.lines then (t.x, t.y) else (x, y);
            r == Landing(g, t, c, n) <==> !Wraps(g, t, c, n)
  {}

  /** ESC [ n and A, B, C, D, E, F, a or e: from any screen the cursor lands where it should,
      exactly unless the unsigned arithmetic wraps round. Nothing else that shows changes. */
  lemma CursorMoves(g: Geometry, t: Term, c: char8, n: nat)
    requires Fits(g, t) && Proper(g) && t.state == Normal && Moves(c)
    ensures var r := Run(g, t, [27, 91] + Decimal(n) + [c]);
            && ((r.x, r.y) == Landing(g, t, c, Distance(n)) <==> !Wraps(g, t, c, Distance(n)))
            && r == t.(x := r.x, y := r.y, par := r.par, npar := 0, ques := false)
  {
    hide Put, Run, Decimal, Moved, Landing, Wraps;
    var t1 := Opened(t);
    var t2 := t1.(par := t1.par[0 := n % WORD]);
    StreamMoves(g, t, c, n);
    var t3 := t2.(state := Normal);
    MoveLands(g, t3, c);
    SameAim(g, t, t3, c, Distance(n));
  }

  lemma SameAim(g: Geometry, t: Term, u: Term, c: char8, n: nat)
    requires Moves(c) && t.x == u.x && t.y == u.y
    ensures Landing(g, t, c, n) == Landing(g, u, c, n) && Wraps(g, t, c, n) == Wraps(g, u, c, n)
  {}

  lemma StreamMoves(g: Geometry, t: Term, c: char8, n: nat)
    requires Fits(g, t) && Proper(g) && t.state == Normal && Moves(c)
    ensures var u := Opened(t).(state := Normal, par := Opened(t).par[0 := n % WORD]);
            Run(g, t, [27, 91] + Decimal(n) + [c]) == Moved(g, u, c)
  {
    hide Put, Run, Decimal, Moved;
    var t1 := Opened(t);
    var t2 := t1.(par := t1.par[0 := n % WORD]);
    OpensWith(g, t, Decimal(n) + [c]);
    RunAppend(g, t1, Decimal(n), [c]);
    DigitsRead(g, t1, n);
    RunOne(g, t2, c);
    Letter(g, t2, c);
    assert [27, 91] + Decimal(n) + [c] == [27, 91] + (Decimal(n) + [c]);
  }

  lemma Letter(g: Geometry, t: Term, c: char8)
    requires Fits(g, t) && Proper(g) && t.state == GetPars && !t.ques && Moves(c)
    ensures Put(g, t, c) == Moved(g, t.(state := Normal), c)
  {
    hide Moved, EraseDisplay, EraseLine, EditedBy, Renditions, Region, BoldColour;
  }

  /** It does wrap: from any line but the last, ESC [ 4294967295 A moves the cursor down. */
  lemma CursorUpWraps(g: Geometry, t: Term)
    requires Fits(g, t) && Proper(g) && t.state == Normal && t.y + 1 < g.lines
    ensures var r := Run(g, t, [27, 91] + Decimal(0xFFFF_FFFF) + [65]);
            r == t.(y := t.y + 1, par := r.par, npar := 0, ques := false)
  {
    hide Put, Run, Decimal, FromZero;
    StreamMoves(g, t, 65, 0xFFFF_FFFF);
  }
}
