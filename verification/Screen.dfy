/** A VT102 as the user sees it: a flat screen of rows and columns, a cursor and the escape
    sequence state machine of kernel/chr_drv/console.c. There is no video memory here: this is
    what a console must show, whatever card it scrolls on. */
module Screen {
  import opened Ring
  import opened Words

  datatype Cell = Cell(glyph: nat, attr: bv8)

  /** The text mode, and whether the card has colour. */
  datatype Geometry = Geometry(cols: nat, lines: nat, colour: bool)

  /** What the boot loader can report, in byte-sized fields, for a usable text mode. */
  predicate Proper(g: Geometry) {
    8 <= g.cols < 256 && g.cols % 2 == 0 && 0 < g.lines < 256
  }

  const NPAR := 16

  /** vc_bold_attr of -1 */
  const NO_BOLD: u32 := 0xFFFF_FFFF

  datatype State = Normal | Esc | Square | GetPars | FuncKey | SetTerm | SetGraph | Ignore

  datatype Term = Term(
    cells: seq<Cell>, x: nat, y: nat, top: nat, bottom: nat,
    state: State, par: seq<u32>, npar: nat, ques: bool,
    attr: bv8, defAttr: bv8, boldAttr: u32, iscolor: bool, blank: Cell, graf: bool,
    savedX: nat, savedY: nat, erase: int)

  predicate Fits(g: Geometry, t: Term) {
    && |t.cells| == Span(g.lines, g.cols)
    && t.x <= g.cols && t.y < g.lines && t.top < t.bottom <= g.lines
    && |t.par| == NPAR && t.npar < NPAR
  }

  /** The state con_init starts a console in; it does not clear the screen. */
  function PowerOn(g: Geometry, cells: seq<Cell>): (t: Term)
    requires Proper(g) && |cells| == Span(g.lines, g.cols)
    ensures Fits(g, t)
  {
    Term(cells, 0, 0, 0, g.lines, Normal, seq(NPAR, _ => 0), 0, false, 0x07, 0x07, NO_BOLD, false,
         Cell(32, 0x07), false, 0, 0, 127)
  }

  // ----- Cells -----

  function Blanks(n: nat, blank: Cell): (s: seq<Cell>)
    ensures |s| == n
    ensures forall i :: 0 <= i < n ==> s[i] == blank
  {
    seq(n, i => blank)
  }

  /** n cells blanked, from address a on. */
  function Filled(cells: seq<Cell>, a: nat, n: nat, blank: Cell): (r: seq<Cell>)
    requires a + n <= |cells|
    ensures |r| == |cells|
  {
    cells[..a] + Blanks(n, blank) + cells[a + n..]
  }

  /** The cells from a to e moved k places towards a, and k blanks. */
  function MovedUp(cells: seq<Cell>, a: nat, e: nat, k: nat, blank: Cell): (r: seq<Cell>)
    requires a + k <= e <= |cells|
    ensures |r| == |cells|
  {
    cells[..a] + cells[a + k..e] + Blanks(k, blank) + cells[e..]
  }

  /** The cells from a to e moved k places towards e, and k blanks. */
  function MovedDown(cells: seq<Cell>, a: nat, e: nat, k: nat, blank: Cell): (r: seq<Cell>)
    requires a + k <= e <= |cells|
    ensures |r| == |cells|
  {
    cells[..a] + Blanks(k, blank) + cells[a..e - k] + cells[e..]
  }

  /** The cells in n lines. */
  function Span(n: nat, cols: nat): nat {
    n * cols
  }

  lemma RowFits(a: nat, b: nat, cols: nat)
    requires a < b
    ensures Span(a + 1, cols) == Span(a, cols) + cols <= Span(b, cols)
  {
    MulMono(a + 1, b, cols);
    Distribute(a, 1, cols);
  }

  lemma SpanMono(a: nat, b: nat, cols: nat)
    requires a <= b
    ensures Span(a, cols) <= Span(b, cols)
  {
    MulMono(a, b, cols);
  }

  function ScrolledUp(g: Geometry, cells: seq<Cell>, top: nat, bottom: nat, blank: Cell): (r: seq<Cell>)
    requires |cells| == Span(g.lines, g.cols) && top < bottom <= g.lines
    ensures |r| == |cells|
  {
    RowFits(top, bottom, g.cols);
    SpanMono(bottom, g.lines, g.cols);
    MovedUp(cells, Span(top, g.cols), Span(bottom, g.cols), g.cols, blank)
  }

  /** The whole screen, one line up. */
  function PannedUp(g: Geometry, cells: seq<Cell>, blank: Cell): (r: seq<Cell>)
    requires |cells| == Span(g.lines, g.cols) && g.lines > 0
    ensures r == ScrolledUp(g, cells, 0, g.lines, blank)
  {
    RowFits(0, g.lines, g.cols);
    assert Span(0, g.cols) == 0;
    MovedUp(cells, 0, |cells|, g.cols, blank)
  }

  function ScrolledDown(g: Geometry, cells: seq<Cell>, top: nat, bottom: nat, blank: Cell): (r: seq<Cell>)
    requires |cells| == Span(g.lines, g.cols) && top < bottom <= g.lines
    ensures |r| == |cells|
  {
    RowFits(top, bottom, g.cols);
    SpanMono(bottom, g.lines, g.cols);
    MovedDown(cells, Span(top, g.cols), Span(bottom, g.cols), g.cols, blank)
  }

  // ----- Moving the cursor -----

  /** The cursor's address on the flat screen. */
  function Here(g: Geometry, t: Term): (a: nat)
    requires Fits(g, t)
    ensures a <= |t.cells| && Span(t.y, g.cols) <= a <= Span(t.y, g.cols) + g.cols <= |t.cells|
    ensures t.x < g.cols ==> a < |t.cells|
  {
    RowFits(t.y, g.lines, g.cols);
    Span(t.y, g.cols) + t.x
  }

  function GotoXY(g: Geometry, t: Term, x: nat, y: nat): (r: Term)
    ensures Fits(g, t) ==> Fits(g, r)
  {
    if x > g.cols || y >= g.lines then t else t.(x := x, y := y)
  }

  function Lf(g: Geometry, t: Term): (r: Term)
    requires Fits(g, t)
    ensures Fits(g, r)
  {
    if t.y + 1 < t.bottom then t.(y := t.y + 1)
    else t.(cells := ScrolledUp(g, t.cells, t.top, t.bottom, t.blank))
  }

  function Ri(g: Geometry, t: Term): (r: Term)
    requires Fits(g, t)
    ensures Fits(g, r)
  {
    if t.y > t.top then t.(y := t.y - 1)
    else t.(cells := ScrolledDown(g, t.cells, t.top, t.bottom, t.blank))
  }

  function Cr(t: Term): (r: Term) {
    t.(x := 0)
  }

  function Del(g: Geometry, t: Term): (r: Term)
    requires Fits(g, t)
    ensures Fits(g, r)
  {
    if t.x == 0 then t
    else
      var t1 := t.(x := t.x - 1);
      t1.(cells := Filled(t.cells, Here(g, t1), 1, t.blank))
  }

  /** A character or tab that goes over the right edge continues in the next line. */
  function Overflowed(g: Geometry, t: Term, x: nat): (r: Term)
    requires Fits(g, t) && x <= g.cols
    ensures Fits(g, r) && r.x == x
  {
    Lf(g, t.(x := x))
  }

  /** The two character sets, as the table in the source spells them: an escaped backslash leaves
      the last three places of the graphics set holding a backslash and two zeros. */
  const GRAPHICS: seq<nat> := [
    4, 177, 7, 7, 7, 7, 248, 241, 7, 7, 189, 183, 214, 211, 215, 196,
    196, 196, 196, 196, 199, 182, 208, 210, 186, 243, 242, 227, 92, 48, 48]

  function Translate(graf: bool, c: char8): nat
    requires 31 < c < 127
  {
    if !graf || c < 95 then c else if c == 95 then 32 else GRAPHICS[c - 96]
  }

  /** A cell written at the cursor, which steps on. */
  function Placed(g: Geometry, t: Term, cell: Cell): (r: Term)
    requires Fits(g, t) && t.x < g.cols
    ensures Fits(g, r)
  {
    t.(cells := t.cells[Here(g, t) := cell], x := t.x + 1)
  }

  function Print(g: Geometry, t: Term, c: char8): (r: Term)
    requires Fits(g, t) && Proper(g) && 31 < c < 127
    ensures Fits(g, r)
  {
    hide Lf, Translate;
    var t1 := if t.x >= g.cols then Overflowed(g, t, t.x - g.cols) else t;
    Placed(g, t1, Cell(Translate(t.graf, c), t.attr))
  }

  function Tab(g: Geometry, t: Term): (r: Term)
    requires Fits(g, t) && Proper(g)
    ensures Fits(g, r)
  {
    var x := t.x + 8 - t.x % 8;
    if x > g.cols then Overflowed(g, t, x - g.cols) else t.(x := x)
  }

  // ----- Erasing, inserting and deleting -----

  function EraseDisplay(g: Geometry, t: Term, p: u32): (r: Term)
    requires Fits(g, t)
    ensures Fits(g, r)
  {
    var here := Here(g, t);
    if p == 0 then t.(cells := Filled(t.cells, here, |t.cells| - here, t.blank))
    else if p == 1 then t.(cells := Filled(t.cells, 0, here, t.blank))
    else if p == 2 then t.(cells := Filled(t.cells, 0, |t.cells|, t.blank))
    else t
  }

  function EraseLine(g: Geometry, t: Term, p: u32): (r: Term)
    requires Fits(g, t)
    ensures Fits(g, r)
  {
    var left := Here(g, t) - t.x;
    if p == 0 && t.x < g.cols then t.(cells := Filled(t.cells, left + t.x, g.cols - t.x, t.blank))
    else if p == 1 then t.(cells := Filled(t.cells, left, t.x, t.blank))
    else if p == 2 then t.(cells := Filled(t.cells, left, g.cols, t.blank))
    else t
  }

  datatype Edit = InsertChar | DeleteChar | InsertLine | DeleteLine

  /** One character or line inserted or deleted at the cursor. Lines move to the bottom of the
      screen, whatever the scrolling region. */
  function Edited(g: Geometry, t: Term, e: Edit): (r: Term)
    requires Fits(g, t)
    ensures Fits(g, r) && r == t.(cells := r.cells)
  {
    var here := Here(g, t);
    match e
    case InsertChar =>
      if t.x >= g.cols then t else t.(cells := MovedDown(t.cells, here, here - t.x + g.cols, 1, t.blank))
    case DeleteChar =>
      if t.x >= g.cols then t else t.(cells := MovedUp(t.cells, here, here - t.x + g.cols, 1, t.blank))
    case InsertLine => t.(cells := ScrolledDown(g, t.cells, t.y, g.lines, t.blank))
    case DeleteLine => t.(cells := ScrolledUp(g, t.cells, t.y, g.lines, t.blank))
  }

  function EditedTimes(g: Geometry, t: Term, e: Edit, n: nat): (r: Term)
    requires Fits(g, t)
    ensures Fits(g, r) && r == t.(cells := r.cells)
    decreases n
  {
    hide Edited, Fits;
    if n == 0 then t else EditedTimes(g, Edited(g, t, e), e, n - 1)
  }

  /** A count of zero means one, and no count exceeds the size of the screen. */
  function Count(p: u32, limit: nat): nat {
    if p > limit then limit else if p == 0 then 1 else p
  }

  function EditedBy(g: Geometry, t: Term, e: Edit, p: u32): (r: Term)
    requires Fits(g, t)
    ensures Fits(g, r)
  {
    EditedTimes(g, t, e, Count(p, if e.InsertChar? || e.DeleteChar? then g.cols else g.lines))
  }

  // ----- Attributes -----

  function Bold(iscolor: bool, attr: bv8, boldAttr: u32): bv8 {
    if !iscolor then attr | 0x01
    else if boldAttr != NO_BOLD then ((boldAttr % 16) as bv8) | (0xf0 & attr)
    else
      var flipped := (attr & 0xf0) | (0x0f & !attr);
      if flipped & 0x0f == (attr >> 4) & 0x0f then (attr & 0xf0) | (((attr & 0x0f) + 1) % 0x0f) else flipped
  }

  /** One parameter of the m sequence: the new attribute, and whether colour is in use. */
  function Shade(colour: bool, iscolor: bool, attr: bv8, def: bv8, boldAttr: u32, p: u32): (bv8, bool) {
    match p
    case 0 => (def, iscolor)
    case 1 => (if iscolor then attr | 0x08 else attr | 0x0f, iscolor)
    case 4 => (Bold(iscolor, attr, boldAttr), iscolor)
    case 5 => (attr | 0x80, iscolor)
    case 7 => ((attr << 4) | (attr >> 4), iscolor)
    case 22 => (attr & 0xf7, iscolor)
    case 24 => (attr & 0xfe, iscolor)
    case 25 => (attr & 0x7f, iscolor)
    case 27 => (def, iscolor)
    case 39 => ((attr & 0xf0) | (def & 0x0f), iscolor)
    case 49 => ((attr & 0x0f) | (def & 0xf0), iscolor)
    case _ =>
      if !colour then (attr, iscolor)
      else if 30 <= p <= 38 then ((attr & 0xf0) | ((p - 30) as bv8), true)
      else if 40 <= p <= 48 then ((attr & 0x0f) | (((p - 40) as bv8) << 4), true)
      else (attr, true)
  }

  function Rendition(g: Geometry, t: Term, p: u32): (r: Term) {
    var shade := Shade(g.colour, t.iscolor, t.attr, t.defAttr, t.boldAttr, p);
    t.(attr := shade.0, iscolor := shade.1)
  }

  function Renditions(g: Geometry, t: Term, i: nat): (r: Term)
    requires |t.par| == NPAR && t.npar < NPAR
    ensures r == t.(attr := r.attr, iscolor := r.iscolor)
    decreases NPAR - i
  {
    hide Shade;
    if i > t.npar then t else Renditions(g, Rendition(g, t, t.par[i]), i + 1)
  }

  // ----- Control sequences -----

  /** Unsigned 32-bit sum and difference. */
  function Plus(a: u32, b: u32): u32 {
    if a + b < 0x1_0000_0000 then a + b else a + b - 0x1_0000_0000
  }

  function Minus(a: u32, b: u32): u32 {
    if a >= b then a - b else a - b + 0x1_0000_0000
  }

  /** if (!par[0]) par[0]++ */
  function AtLeastOne(t: Term): (r: Term)
    requires |t.par| == NPAR
    ensures r == t.(par := r.par) && |r.par| == NPAR
  {
    if t.par[0] == 0 then t.(par := t.par[0 := 1]) else t
  }

  /** if (par[i]) par[i]-- */
  function FromZero(t: Term, i: nat): (r: Term)
    requires |t.par| == NPAR && i < NPAR
    ensures r == t.(par := r.par) && |r.par| == NPAR
  {
    if t.par[i] > 0 then t.(par := t.par[i := t.par[i] - 1]) else t
  }

  function Saved(t: Term): Term {
    t.(savedX := t.x, savedY := t.y)
  }

  /** if (!par[1]) par[1] = video_num_lines */
  function ToBottom(g: Geometry, t: Term): (r: Term)
    requires |t.par| == NPAR && Proper(g)
    ensures r == t.(par := r.par) && |r.par| == NPAR
  {
    if t.par[1] == 0 then t.(par := t.par[1 := g.lines]) else t
  }

  function Region(g: Geometry, t: Term): (r: Term)
    requires Fits(g, t) && Proper(g)
    ensures Fits(g, r)
  {
    var t1 := ToBottom(g, FromZero(t, 0));
    if t1.par[0] < t1.par[1] <= g.lines then t1.(top := t1.par[0], bottom := t1.par[1]) else t1
  }

  function BoldColour(t: Term): (r: Term)
    requires |t.par| == NPAR
    ensures r == t.(boldAttr := r.boldAttr)
  {
    if t.npar >= 2 && Minus(t.par[1], 13) == t.par[0] && Minus(t.par[2], 17) == t.par[0]
    then t.(boldAttr := t.par[0])
    else t
  }

  /** Cursor movements: CSI A to H, d, f and their synonyms. */
  function Moved(g: Geometry, t: Term, c: char8): (r: Term)
    requires Fits(g, t) && Proper(g)
    ensures Fits(g, r)
  {
    hide GotoXY, AtLeastOne, FromZero, Plus, Minus;
    var up := AtLeastOne(t);
    var from0 := FromZero(t, 0);
    match c
    case 71 | 96 => GotoXY(g, from0, from0.par[0], t.y)                    // G `
    case 65 => GotoXY(g, up, t.x, Minus(t.y, up.par[0]))                   // A
    case 66 | 101 => GotoXY(g, up, t.x, Plus(t.y, up.par[0]))              // B e
    case 67 | 97 => GotoXY(g, up, Plus(t.x, up.par[0]), t.y)               // C a
    case 68 => GotoXY(g, up, Minus(t.x, up.par[0]), t.y)                   // D
    case 69 => GotoXY(g, up, 0, Plus(t.y, up.par[0]))                      // E
    case 70 => GotoXY(g, up, 0, Minus(t.y, up.par[0]))                     // F
    case 100 => GotoXY(g, from0, t.x, from0.par[0])                        // d
    case 72 | 102 =>                                                       // H f
      var both := FromZero(from0, 1);
      GotoXY(g, both, both.par[1], both.par[0])
    case _ => t
  }

  function Final(g: Geometry, t: Term, c: char8): (r: Term)
    requires Fits(g, t) && Proper(g)
    ensures Fits(g, r)
  {
    hide GotoXY, EraseDisplay, EraseLine, EditedBy, Renditions, Region, BoldColour, Moved;
    if t.ques then t.(ques := false)
    else
      match c
      case 74 => EraseDisplay(g, t, t.par[0])                              // J
      case 75 => EraseLine(g, t, t.par[0])                                 // K
      case 76 => EditedBy(g, t, InsertLine, t.par[0])                      // L
      case 77 => EditedBy(g, t, DeleteLine, t.par[0])                      // M
      case 80 => EditedBy(g, t, DeleteChar, t.par[0])                      // P
      case 64 => EditedBy(g, t, InsertChar, t.par[0])                      // @
      case 109 => Renditions(g, t, 0)                                      // m
      case 114 => Region(g, t)                                             // r
      case 115 => Saved(t)                                                 // s
      case 117 => GotoXY(g, t, t.savedX, t.savedY)                         // u
      case 98 => BoldColour(t)                                             // b
      case _ => Moved(g, t, c)
  }

  function Parameter(g: Geometry, t: Term, c: char8): (r: Term)
    requires Fits(g, t) && Proper(g)
    ensures Fits(g, r)
  {
    hide Final, Digit;
    if c == 59 && t.npar < NPAR - 1 then t.(npar := t.npar + 1)
    else if 48 <= c <= 57 then t.(par := t.par[t.npar := Digit(t.par[t.npar], c - 48)])
    else Final(g, t.(state := Normal), c)
  }

  /** 10*par+d, kept in 32 bits. */
  function Digit(p: u32, d: nat): u32 {
    (10 * p + d) % 0x1_0000_0000
  }

  function Bracket(g: Geometry, t: Term, c: char8): (r: Term)
    requires Fits(g, t) && Proper(g)
    ensures Fits(g, r)
  {
    hide Parameter;
    var t1 := t.(par := seq(NPAR, _ => 0), npar := 0, state := GetPars);
    if c == 91 then t1.(state := FuncKey)
    else if c == 63 then t1.(ques := true)
    else Parameter(g, t1.(ques := false), c)
  }

  // ----- One character -----

  function PutNormal(g: Geometry, t: Term, c: char8): (r: Term)
    requires Fits(g, t) && Proper(g)
    ensures Fits(g, r)
  {
    hide Print, Lf, Del, Tab;
    if 31 < c < 127 then Print(g, t, c)
    else if c == 27 then t.(state := Esc)
    else if c == 10 || c == 11 || c == 12 then Lf(g, t)
    else if c == 13 then Cr(t)
    else if c == t.erase then Del(g, t)
    else if c == 8 then (if t.x > 0 then t.(x := t.x - 1) else t)
    else if c == 9 then Tab(g, t)
    else if c == 14 then t.(graf := true)
    else if c == 15 then t.(graf := false)
    else t
  }

  function PutEscape(g: Geometry, t: Term, c: char8): (r: Term)
    requires Fits(g, t)
    ensures Fits(g, r)
  {
    hide GotoXY, Ri, Lf;
    match c
    case 91 => t.(state := Square)                                         // [
    case 69 => GotoXY(g, t, 0, t.y + 1)                                    // E
    case 77 => Ri(g, t)                                                    // M
    case 68 => Lf(g, t)                                                    // D
    case 55 => Saved(t)                                                    // 7
    case 56 => GotoXY(g, t, t.savedX, t.savedY)                            // 8
    case 40 | 41 => t.(state := SetGraph)                                  // ( )
    case 80 => t.(state := SetTerm)                                        // P
    case 35 => t.(state := Ignore)                                         // #
    case 99 => t.(erase := 127, top := 0, bottom := g.lines)               // c
    case _ => t
  }

  function Put(g: Geometry, t: Term, c: char8): (r: Term)
    requires Fits(g, t) && Proper(g)
    ensures Fits(g, r)
  {
    hide PutNormal, PutEscape, Bracket, Parameter;
    var idle := t.(state := Normal);
    match if c == 24 || c == 26 then Normal else t.state
    case Normal => PutNormal(g, idle, c)
    case Esc => PutEscape(g, idle, c)
    case Square => Bracket(g, t, c)
    case GetPars => Parameter(g, t, c)
    case SetTerm =>
      if c == 83 then idle.(defAttr := t.attr, blank := t.blank.(attr := t.attr)) else idle   // S
    case SetGraph =>
      if c == 48 then idle.(graf := true) else if c == 66 then idle.(graf := false) else idle // 0 B
    case _ => idle
  }

  /** Every byte keeps the cursor on the screen, the region sound and npar in range. */
  function Run(g: Geometry, t: Term, input: seq<char8>): (r: Term)
    requires Fits(g, t) && Proper(g)
    ensures Fits(g, r)
    decreases |input|
  {
    if input == [] then t
    else Run(g, Put(g, t, input[0]), input[1..])
  }

  lemma RunNothing(g: Geometry, t: Term)
    requires Fits(g, t) && Proper(g)
    ensures Run(g, t, []) == t
  {}

  /** The bytes may arrive in any pieces. */
  lemma {:induction false} RunAppend(g: Geometry, t: Term, input: seq<char8>, more: seq<char8>)
    requires Fits(g, t) && Proper(g)
    ensures Run(g, t, input + more) == Run(g, Run(g, t, input), more)
    decreases |input|
  {
    hide Put, Fits;
    if input == [] {
      assert input + more == more;
    } else {
      assert (input + more)[1..] == input[1..] + more;
      RunAppend(g, Put(g, t, input[0]), input[1..], more);
    }
  }
}
