/** The consoles of kernel/chr_drv/console.c. Each drives its own slice of video memory, and
    addresses count 16-bit cells from video_mem_base. */
module Console {
  import opened Ring
  import opened Words
  import opened Screen
  import opened Video

  class VirtualConsole {
    const g: Geometry

    /** An EGA or VGA, which scrolls the whole screen by moving its origin. */
    const pan: bool

    const mem: array<Cell>
    const memStart: nat
    const memEnd: nat

    var origin: nat
    var scrEnd: nat
    var pos: nat
    var x: nat
    var y: nat
    var top: nat
    var bottom: nat
    var state: State
    var par: seq<u32>
    var npar: nat
    var ques: bool
    var attr: bv8
    var defAttr: bv8
    var boldAttr: u32
    var iscolor: bool
    var blank: Cell
    var graf: bool
    var savedX: nat
    var savedY: nat

    /** ERASE_CHAR of the terminal. */
    var erase: int

    /** One console as con_init leaves it, on a slice that holds its screen. */
    constructor (geometry: Geometry, panning: bool, memory: array<Cell>, start: nat, end: nat)
      requires Proper(geometry) && start + Span(geometry.lines, geometry.cols) <= end <= memory.Length
      ensures Valid() && g == geometry && pan == panning && mem == memory
      ensures memStart == start == origin && memEnd == end
      ensures View() == PowerOn(geometry, mem[..][start..start + Span(geometry.lines, geometry.cols)])
    {
      g, pan, mem, memStart, memEnd := geometry, panning, memory, start, end;
      origin, scrEnd, pos := start, start + Span(geometry.lines, geometry.cols), start;
      x, y, top, bottom := 0, 0, 0, geometry.lines;
      state, par, npar, ques := Normal, seq(NPAR, _ => 0), 0, false;
      attr, defAttr, boldAttr, iscolor := 0x07, 0x07, NO_BOLD, false;
      blank, graf, savedX, savedY, erase := Cell(32, 0x07), false, 0, 0, 127;
    }

    ghost predicate Valid()
      reads this
    {
      && Proper(g) && |par| == NPAR && npar < NPAR
      && x <= g.cols && y < g.lines && top < bottom <= g.lines
      && memStart <= origin && scrEnd == origin + Span(g.lines, g.cols) && scrEnd <= memEnd <= mem.Length
      && pos == origin + Span(y, g.cols) + x
    }

    ghost predicate Drives(geometry: Geometry, panning: bool, memory: array<Cell>)
      reads this
    {
      Valid() && g == geometry && pan == panning && mem == memory
    }

    /** As con_init starts it, on what its slice holds; the first console takes over a cursor. */
    ghost predicate Started(first: bool, origX: nat, origY: nat)
      reads this, mem
    {
      Valid() && origin == memStart &&
      var t := PowerOn(g, View().cells);
      View() == if first then Screen.GotoXY(g, t, origX, origY) else t
    }

    /** What the monitor shows, and the rest of the terminal's state. */
    ghost function View(): (t: Term)
      requires Valid()
      reads this, mem
      ensures Fits(g, t)
    {
      Term(mem[..][origin..scrEnd], x, y, top, bottom, state, par, npar, ques, attr, defAttr, boldAttr,
           iscolor, blank, graf, savedX, savedY, erase)
    }

    // ----- Cursor and scrolling -----

    lemma Position()
      requires Valid()
      ensures pos == origin + Here(g, View()) && pos - x + g.cols <= scrEnd && origin <= pos - x
    {
      RowFits(y, g.lines, g.cols);
    }

    /** gotoxy, whose comparisons are unsigned. */
    method GotoXY(newX: nat, newY: nat)
      requires Valid()
      modifies this`x, this`y, this`pos
      ensures Valid() && View() == Screen.GotoXY(g, old(View()), newX, newY)
    {
      if newX > g.cols || newY >= g.lines {
        return;
      }
      x := newX;
      y := newY;
      pos := origin + Span(y, g.cols) + x;
    }

    lemma RegionSpans(top: nat, bottom: nat)
      requires Valid() && top < bottom <= g.lines
      ensures Span(top, g.cols) + g.cols == Span(top + 1, g.cols)
      ensures Span(bottom - 1, g.cols) + g.cols == Span(bottom, g.cols) <= Span(g.lines, g.cols)
      ensures Span(top, g.cols) + Span(bottom - top - 1, g.cols) + g.cols == Span(bottom, g.cols)
      ensures 2 * (Span(bottom - top - 1, g.cols) / 2) == Span(bottom - top - 1, g.cols)
    {
      RowFits(top, bottom, g.cols);
      RowFits(bottom - 1, bottom, g.cols);
      SpanMono(bottom, g.lines, g.cols);
      Distribute(bottom - top - 1, top + 1, g.cols);
      EvenRows(bottom - top - 1, g.cols);
    }

    /** The copying scroll: a region of lines, in place. */
    method CopyUp()
      requires Valid()
      modifies mem
      ensures View() == old(View()).(cells := ScrolledUp(g, old(View()).cells, top, bottom, blank))
      ensures Beyond(old(mem[..]), mem[..], memStart, memEnd)
    {
      hide Copied, Filled, MovedUp, Beyond, Span;
      RegionSpans(top, bottom);
      ghost var a, e, n := Span(top, g.cols), Span(bottom, g.cols), Span(g.lines, g.cols);
      CopiedUp(mem[..], origin + a, origin + e, g.cols, blank);
      MovedUpInside(mem[..], origin, n, a, e, g.cols, blank, memStart, memEnd);
      var longs := Span(bottom - top - 1, g.cols) / 2;
      Movsl(mem, origin + Span(top, g.cols), origin + Span(top + 1, g.cols), longs);
      Stosw(mem, origin + Span(top, g.cols) + 2 * longs, g.cols, blank);
    }

    /** The panning scroll of a whole screen, and the copy back to the start of the slice when it
        would run out at the end. */
    method Pan()
      requires Valid() && top == 0 && bottom == g.lines
      modifies mem, this`origin, this`pos, this`scrEnd
      ensures Valid()
      ensures mem[..][origin..scrEnd] == PannedUp(g, old(View()).cells, blank)
      ensures Beyond(old(mem[..]), mem[..], memStart, memEnd)
    {
      hide Copied, Filled, MovedUp, Beyond, Span;
      RegionSpans(0, g.lines);
      origin := origin + g.cols;
      pos := pos + g.cols;
      scrEnd := scrEnd + g.cols;
      if scrEnd > memEnd {
        CopyBack();
        pos := pos - (origin - memStart);
        origin := memStart;
      } else {
        BlankLast();
      }
    }

    /** The screen has just panned by one line: what it gained is blanked. */
    method BlankLast()
      requires g.cols <= origin - memStart && g.cols <= Span(g.lines, g.cols)
      requires scrEnd == origin + Span(g.lines, g.cols) && scrEnd <= memEnd <= mem.Length
      modifies mem
      ensures mem[..][origin..scrEnd] ==
              MovedUp(old(mem[..])[origin - g.cols..scrEnd - g.cols], 0, scrEnd - origin, g.cols, blank)
      ensures Beyond(old(mem[..]), mem[..], memStart, memEnd)
    {
      hide Filled, MovedUp, Beyond, Span;
      PanInside(mem[..], origin - g.cols, Span(g.lines, g.cols), g.cols, blank, memStart, memEnd);
      Stosw(mem, scrEnd - g.cols, g.cols, blank);
    }

    /** It has panned past the end of its slice: the lines it keeps are copied to the start. */
    method CopyBack()
      requires Proper(g) && g.cols <= origin - memStart && g.cols <= Span(g.lines, g.cols)
      requires scrEnd == origin + Span(g.lines, g.cols) && scrEnd - g.cols <= memEnd <= mem.Length
      modifies mem, this`scrEnd
      ensures scrEnd == memStart + Span(g.lines, g.cols) <= memEnd
      ensures mem[..][memStart..scrEnd] ==
              MovedUp(old(mem[..][origin - g.cols..scrEnd - g.cols]), 0, Span(g.lines, g.cols), g.cols, blank)
      ensures Beyond(old(mem[..]), mem[..], memStart, memEnd)
    {
      hide Copied, Filled, MovedUp, Beyond, Span;
      LastLine();
      WrapInside(mem[..], origin - g.cols, Span(g.lines, g.cols), g.cols, blank, memStart, memEnd);
      var longs := Span(g.lines - 1, g.cols) / 2;
      Movsl(mem, memStart, origin, longs);
      Stosw(mem, memStart + 2 * longs, g.cols, blank);
      scrEnd := scrEnd - (origin - memStart);
    }

    lemma LastLine()
      requires Proper(g)
      ensures Span(g.lines - 1, g.cols) + g.cols == Span(g.lines, g.cols)
      ensures 2 * (Span(g.lines - 1, g.cols) / 2) == Span(g.lines - 1, g.cols)
    {
      RowFits(g.lines - 1, g.lines, g.cols);
      EvenRows(g.lines - 1, g.cols);
    }

    /** scrup; its first test never succeeds, because top < bottom always. */
    method ScrUp()
      requires Valid()
      modifies mem, this`origin, this`pos, this`scrEnd
      ensures Valid()
      ensures View() == old(View()).(cells := ScrolledUp(g, old(View()).cells, top, bottom, blank))
      ensures Beyond(old(mem[..]), mem[..], memStart, memEnd)
    {
      hide ScrolledUp, PannedUp, Beyond, Span;
      if pan && top == 0 && bottom == g.lines {
        Pan();
      } else {
        CopyUp();
      }
    }

    /** scrdown, the same on every card. */
    method ScrDown()
      requires Valid()
      modifies mem
      ensures View() == old(View()).(cells := ScrolledDown(g, old(View()).cells, top, bottom, blank))
      ensures Beyond(old(mem[..]), mem[..], memStart, memEnd)
    {
      hide Copied, Filled, MovedDown, Beyond, Span;
      RegionSpans(top, bottom);
      ghost var a, e, n := Span(top, g.cols), Span(bottom, g.cols), Span(g.lines, g.cols);
      CopiedDown(mem[..], origin + a, origin + e, g.cols, blank);
      MovedDownInside(mem[..], origin, n, a, e, g.cols, blank, memStart, memEnd);
      var longs := Span(bottom - top - 1, g.cols) / 2;
      var last := origin + Span(bottom, g.cols) - 2;
      MovslDown(mem, last, origin + Span(bottom - 1, g.cols) - 2, longs);
      StoswDown(mem, last - 2 * longs + 1, g.cols, blank);
    }

    method Lf()
      requires Valid()
      modifies mem, this`origin, this`pos, this`scrEnd, this`y
      ensures Valid() && View() == Screen.Lf(g, old(View()))
      ensures Beyond(old(mem[..]), mem[..], memStart, memEnd)
    {
      hide ScrolledUp, Beyond, Span;
      if y + 1 < bottom {
        RowFits(y, g.lines, g.cols);
        y := y + 1;
        pos := pos + g.cols;
        Untouched(mem[..], memStart, memEnd);
      } else {
        ScrUp();
      }
    }

    method Ri()
      requires Valid()
      modifies mem, this`pos, this`y
      ensures Valid() && View() == Screen.Ri(g, old(View()))
      ensures Beyond(old(mem[..]), mem[..], memStart, memEnd)
    {
      hide ScrolledDown, Beyond, Span;
      if y > top {
        RowFits(y - 1, g.lines, g.cols);
        y := y - 1;
        pos := pos - g.cols;
        Untouched(mem[..], memStart, memEnd);
      } else {
        ScrDown();
      }
    }

    method Cr()
      requires Valid()
      modifies this`pos, this`x
      ensures Valid() && View() == Screen.Cr(old(View()))
    {
      hide Span;
      pos := pos - x;
      x := 0;
    }

    /** Blanks n cells of the screen, the first at its address a. */
    method Erase(a: nat, n: nat)
      requires Valid() && origin <= a && a + n <= scrEnd
      modifies mem
      ensures View() == old(View()).(cells := Filled(old(View()).cells, a - origin, n, blank))
      ensures Beyond(old(mem[..]), mem[..], memStart, memEnd)
    {
      hide Filled, Beyond, Span;
      FilledInside(mem[..], origin, scrEnd - origin, a - origin, n, blank, memStart, memEnd);
      Stosw(mem, a, n, blank);
    }

    method Del()
      requires Valid()
      modifies mem, this`pos, this`x
      ensures Valid() && View() == Screen.Del(g, old(View()))
      ensures Beyond(old(mem[..]), mem[..], memStart, memEnd)
    {
      hide Filled, Beyond, Span;
      Position();
      if x > 0 {
        pos := pos - 1;
        x := x - 1;
        Erase(pos, 1);
      } else {
        Untouched(mem[..], memStart, memEnd);
      }
    }

    // ----- Characters -----

    method Overflow(newX: nat)
      requires Valid() && newX <= g.cols && x <= g.cols
      modifies mem, this`origin, this`pos, this`scrEnd, this`y, this`x
      ensures Valid() && View() == Overflowed(g, old(View()), newX)
      ensures Beyond(old(mem[..]), mem[..], memStart, memEnd)
    {
      hide Screen.Lf, Beyond, Span;
      pos := pos - x + newX;
      x := newX;
      Lf();
    }

    method Place(cell: Cell)
      requires Valid() && x < g.cols
      modifies mem, this`pos, this`x
      ensures Valid() && View() == Placed(g, old(View()), cell)
      ensures Beyond(old(mem[..]), mem[..], memStart, memEnd)
    {
      hide Beyond, Span;
      Position();
      StoreInside(mem[..], origin, scrEnd, pos, cell, memStart, memEnd);
      mem[pos] := cell;
      pos := pos + 1;
      x := x + 1;
    }

    method Print(c: char8)
      requires Valid() && 31 < c < 127
      modifies mem, this`origin, this`pos, this`scrEnd, this`y, this`x
      ensures Valid() && View() == Screen.Print(g, old(View()), c)
      ensures Beyond(old(mem[..]), mem[..], memStart, memEnd)
    {
      hide Overflowed, Placed, Translate, Beyond, Span;
      ghost var was := mem[..];
      if x >= g.cols {
        Overflow(x - g.cols);
      } else {
        Untouched(was, memStart, memEnd);
      }
      ghost var between := mem[..];
      Place(Cell(Translate(graf, c), attr));
      BeyondTrans(was, between, mem[..], memStart, memEnd);
    }

    method Tab()
      requires Valid()
      modifies mem, this`origin, this`pos, this`scrEnd, this`y, this`x
      ensures Valid() && View() == Screen.Tab(g, old(View()))
      ensures Beyond(old(mem[..]), mem[..], memStart, memEnd)
    {
      hide Overflowed, Beyond, Span;
      var c := 8 - x % 8;
      if x + c > g.cols {
        Overflow(x + c - g.cols);
      } else {
        x := x + c;
        pos := pos + c;
        Untouched(mem[..], memStart, memEnd);
      }
    }

    // ----- Erasing, inserting and deleting -----

    method CsiJ(vpar: u32)
      requires Valid()
      modifies mem
      ensures View() == EraseDisplay(g, old(View()), vpar)
      ensures Beyond(old(mem[..]), mem[..], memStart, memEnd)
    {
      hide Filled, Beyond, Span;
      Position();
      Untouched(mem[..], memStart, memEnd);
      if vpar == 0 {
        Erase(pos, scrEnd - pos);
      } else if vpar == 1 {
        Erase(origin, pos - origin);
      } else if vpar == 2 {
        Erase(origin, Span(g.lines, g.cols));
      }
    }

    method CsiK(vpar: u32)
      requires Valid()
      modifies mem
      ensures View() == EraseLine(g, old(View()), vpar)
      ensures Beyond(old(mem[..]), mem[..], memStart, memEnd)
    {
      hide Filled, Beyond, Span;
      Position();
      Untouched(mem[..], memStart, memEnd);
      if vpar == 0 {
        if x >= g.cols {
          return;
        }
        Erase(pos, g.cols - x);
      } else if vpar == 1 {
        Erase(pos - x, if x < g.cols then x else g.cols);
      } else if vpar == 2 {
        Erase(pos - x, g.cols);
      }
    }

    method InsertCharacter()
      requires Valid()
      modifies mem
      ensures View() == Edited(g, old(View()), InsertChar)
      ensures Beyond(old(mem[..]), mem[..], memStart, memEnd)
    {
      hide MovedDown, Beyond, Span;
      Position();
      Untouched(mem[..], memStart, memEnd);
      if x < g.cols {
        MovedDownInside(mem[..], origin, scrEnd - origin, pos - origin, pos - origin + (g.cols - x), 1, blank,
                        memStart, memEnd);
        InsertCell(mem, pos, x, g.cols, blank);
      }
    }

    method DeleteCharacter()
      requires Valid()
      modifies mem
      ensures View() == Edited(g, old(View()), DeleteChar)
      ensures Beyond(old(mem[..]), mem[..], memStart, memEnd)
    {
      hide MovedUp, Beyond, Span;
      Position();
      Untouched(mem[..], memStart, memEnd);
      if x >= g.cols {
        return;
      }
      MovedUpInside(mem[..], origin, scrEnd - origin, pos - origin, pos - origin + (g.cols - x), 1, blank,
                    memStart, memEnd);
      DeleteCell(mem, pos, x, g.cols, blank);
    }

    method InsertOneLine()
      requires Valid()
      modifies mem, this`top, this`bottom
      ensures Valid() && View() == Edited(g, old(View()), InsertLine)
      ensures Beyond(old(mem[..]), mem[..], memStart, memEnd)
    {
      hide ScrolledUp, ScrolledDown, Beyond, Span;
      var oldTop, oldBottom := top, bottom;
      top, bottom := y, g.lines;
      ScrDown();
      top, bottom := oldTop, oldBottom;
    }

    /** At the first line the region is the whole screen, so an EGA or VGA pans. */
    method DeleteOneLine()
      requires Valid()
      modifies mem, this`top, this`bottom, this`origin, this`pos, this`scrEnd
      ensures Valid() && View() == Edited(g, old(View()), DeleteLine)
      ensures Beyond(old(mem[..]), mem[..], memStart, memEnd)
    {
      hide ScrolledUp, ScrolledDown, Beyond, Span;
      var oldTop, oldBottom := top, bottom;
      top, bottom := y, g.lines;
      ScrUp();
      top, bottom := oldTop, oldBottom;
    }

    method EditOnce(e: Edit)
      requires Valid()
      modifies mem, this`top, this`bottom, this`origin, this`pos, this`scrEnd
      ensures Valid() && View() == Edited(g, old(View()), e)
      ensures Beyond(old(mem[..]), mem[..], memStart, memEnd)
    {
      hide Edited, Beyond, Span;
      match e
      case InsertChar => InsertCharacter();
      case DeleteChar => DeleteCharacter();
      case InsertLine => InsertOneLine();
      case DeleteLine => DeleteOneLine();
    }

    /** csi_at, csi_L, csi_P and csi_M, which differ only in what they repeat. */
    method EditBy(e: Edit, p: u32)
      requires Valid()
      modifies mem, this`top, this`bottom, this`origin, this`pos, this`scrEnd
      ensures Valid() && View() == EditedBy(g, old(View()), e, p)
      ensures Beyond(old(mem[..]), mem[..], memStart, memEnd)
    {
      hide Edited, Beyond, Span, Valid, View;
      var limit := if e == InsertChar || e == DeleteChar then g.cols else g.lines;
      var nr: nat := p;
      if nr > limit {
        nr := limit;
      } else if nr == 0 {
        nr := 1;
      }
      ghost var was, start := mem[..], View();
      ghost var total := nr;
      Untouched(was, memStart, memEnd) by { Slice(); }
      while nr > 0
        invariant Valid() && EditedTimes(g, View(), e, nr) == EditedTimes(g, start, e, total)
        invariant Beyond(was, mem[..], memStart, memEnd)
      {
        ghost var before := mem[..];
        EditOnce(e);
        BeyondTrans(was, before, mem[..], memStart, memEnd);
        nr := nr - 1;
      }
    }

    lemma Slice()
      requires Valid()
      ensures memStart <= memEnd <= mem.Length && Proper(g)
    {}

    // ----- Control sequences -----

    method CsiM()
      requires Valid()
      modifies this`attr, this`iscolor
      ensures Valid() && View() == Renditions(g, old(View()), 0)
    {
      hide Shade, Span;
      var i := 0;
      while i <= npar
        invariant i <= npar + 1
        invariant Renditions(g, View(), i) == Renditions(g, old(View()), 0)
      {
        var shade := Shade(g.colour, iscolor, attr, defAttr, boldAttr, par[i]);
        attr, iscolor := shade.0, shade.1;
        i := i + 1;
      }
    }

    /** if (!par[0]) par[0]++ */
    method RaisePar()
      requires Valid()
      modifies this`par
      ensures Valid() && View() == AtLeastOne(old(View()))
    {
      hide Span;
      if par[0] == 0 {
        par := par[0 := 1];
      }
    }

    /** if (par[i]) par[i]-- */
    method LowerPar(i: nat)
      requires Valid() && i < NPAR
      modifies this`par
      ensures Valid() && View() == FromZero(old(View()), i)
    {
      hide Span;
      if par[i] > 0 {
        par := par[i := par[i] - 1];
      }
    }

    /** The cursor movements that take a distance. */
    method MoveBy(c: char8)
      requires Valid() && (65 <= c <= 70 || c == 97 || c == 101)
      modifies this`par, this`x, this`y, this`pos
      ensures Valid() && View() == Screen.Moved(g, old(View()), c)
    {
      hide Screen.GotoXY, AtLeastOne, FromZero, Plus, Minus, Span;
      RaisePar();
      match c {
        case 65 => GotoXY(x, Minus(y, par[0]));
        case 66 | 101 => GotoXY(x, Plus(y, par[0]));
        case 67 | 97 => GotoXY(Plus(x, par[0]), y);
        case 68 => GotoXY(Minus(x, par[0]), y);
        case 69 => GotoXY(0, Plus(y, par[0]));
        case _ => GotoXY(0, Minus(y, par[0]));
      }
    }

    /** The cursor movements that take a place. */
    method MoveTo(c: char8)
      requires Valid() && !(65 <= c <= 70 || c == 97 || c == 101)
      modifies this`par, this`x, this`y, this`pos
      ensures Valid() && View() == Screen.Moved(g, old(View()), c)
    {
      hide Screen.GotoXY, AtLeastOne, FromZero, Plus, Minus, Span;
      match c {
        case 71 | 96 =>
          LowerPar(0);
          GotoXY(par[0], y);
        case 100 =>
          LowerPar(0);
          GotoXY(x, par[0]);
        case 72 | 102 =>
          LowerPar(0);
          LowerPar(1);
          GotoXY(par[1], par[0]);
        case _ =>
      }
    }

    method DefaultBottom()
      requires Valid()
      modifies this`par
      ensures Valid() && View() == ToBottom(g, old(View()))
    {
      hide Span;
      if par[1] == 0 {
        par := par[1 := g.lines];
      }
    }

    method SetRegion()
      requires Valid()
      modifies this`par, this`top, this`bottom
      ensures Valid() && View() == Screen.Region(g, old(View()))
    {
      hide FromZero, ToBottom, Span;
      LowerPar(0);
      DefaultBottom();
      if par[0] < par[1] && par[1] <= g.lines {
        top := par[0];
        bottom := par[1];
      }
    }

    method SaveCur()
      requires Valid()
      modifies this`savedX, this`savedY
      ensures Valid() && View() == Saved(old(View()))
    {
      hide Span;
      savedX := x;
      savedY := y;
    }

    method SetBold()
      requires Valid()
      modifies this`boldAttr
      ensures Valid() && View() == BoldColour(old(View()))
    {
      hide Minus, Span;
      if npar >= 2 && Minus(par[1], 13) == par[0] && Minus(par[2], 17) == par[0] {
        boldAttr := par[0];
      }
    }

    /** The end of a control sequence. */
    method Final(c: char8)
      requires Valid()
      modifies this, mem
      ensures Valid() && View() == Screen.Final(g, old(View()), c)
      ensures Beyond(old(mem[..]), mem[..], memStart, memEnd)
    {
      hide Screen.GotoXY, EraseDisplay, EraseLine, EditedBy, Renditions, Screen.Region, BoldColour, Moved, Saved;
      hide Beyond, Span;
      Untouched(mem[..], memStart, memEnd);
      if ques {
        ques := false;
        return;
      }
      match c {
        case 74 => CsiJ(par[0]);
        case 75 => CsiK(par[0]);
        case 76 => EditBy(InsertLine, par[0]);
        case 77 => EditBy(DeleteLine, par[0]);
        case 80 => EditBy(DeleteChar, par[0]);
        case 64 => EditBy(InsertChar, par[0]);
        case 109 => CsiM();
        case 114 => SetRegion();
        case 115 => SaveCur();
        case 117 => GotoXY(savedX, savedY);
        case 98 => SetBold();
        case _ =>
          if 65 <= c <= 70 || c == 97 || c == 101 {
            MoveBy(c);
          } else {
            MoveTo(c);
          }
      }
    }

    method Digit(c: char8)
      requires Valid() && 48 <= c <= 57
      modifies this`par
      ensures Valid()
      ensures View() == old(View()).(par := old(par)[npar := Screen.Digit(old(par)[npar], c - 48)])
    {
      hide Screen.Digit, Span;
      par := par[npar := Screen.Digit(par[npar], c - 48)];
    }

    /** ESgetpars, and ESgotpars where it falls through. */
    method Parameter(c: char8)
      requires Valid()
      modifies this, mem
      ensures Valid() && View() == Screen.Parameter(g, old(View()), c)
      ensures Beyond(old(mem[..]), mem[..], memStart, memEnd)
    {
      hide Screen.Final, Screen.Digit, Beyond, Span;
      Untouched(mem[..], memStart, memEnd);
      if c == 59 && npar < NPAR - 1 {
        npar := npar + 1;
      } else if 48 <= c <= 57 {
        Digit(c);
      } else {
        state := Normal;
        Final(c);
      }
    }

    method Clear()
      requires Valid()
      modifies this`par, this`npar, this`state
      ensures Valid()
      ensures View() == old(View()).(par := seq(NPAR, _ => 0), npar := 0, state := GetPars)
    {
      hide Span;
      par := seq(NPAR, _ => 0);
      npar := 0;
      state := GetPars;
      assert par == seq(NPAR, _ => 0);
    }

    /** ESsquare, which falls through to ESgetpars. */
    method Bracket(c: char8)
      requires Valid()
      modifies this, mem
      ensures Valid() && View() == Screen.Bracket(g, old(View()), c)
      ensures Beyond(old(mem[..]), mem[..], memStart, memEnd)
    {
      hide Screen.Parameter, Beyond, Span;
      Untouched(mem[..], memStart, memEnd);
      Clear();
      if c == 91 {
        state := FuncKey;
        return;
      }
      ques := c == 63;
      if !ques {
        Parameter(c);
      }
    }

    method PutNormal(c: char8)
      requires Valid()
      modifies this, mem
      ensures Valid() && View() == Screen.PutNormal(g, old(View()), c)
      ensures Beyond(old(mem[..]), mem[..], memStart, memEnd)
    {
      hide Screen.Print, Screen.Lf, Screen.Del, Screen.Tab, Beyond, Span;
      Untouched(mem[..], memStart, memEnd);
      if 31 < c < 127 {
        Print(c);
      } else if c == 27 {
        state := Esc;
      } else if c == 10 || c == 11 || c == 12 {
        Lf();
      } else if c == 13 {
        Cr();
      } else if c == erase {
        Del();
      } else if c == 8 {
        if x > 0 {
          x := x - 1;
          pos := pos - 1;
        }
      } else if c == 9 {
        Tab();
      } else if c == 14 {
        graf := true;
      } else if c == 15 {
        graf := false;
      }
    }

    method Reset()
      requires Valid()
      modifies this`erase, this`top, this`bottom
      ensures Valid() && View() == old(View()).(erase := 127, top := 0, bottom := g.lines)
    {
      hide Span;
      erase := 127;
      top := 0;
      bottom := g.lines;
    }

    /** ESesc; the answer to ESC Z goes to the terminal's input, not to the screen. */
    method PutEscape(c: char8)
      requires Valid()
      modifies this, mem
      ensures Valid() && View() == Screen.PutEscape(g, old(View()), c)
      ensures Beyond(old(mem[..]), mem[..], memStart, memEnd)
    {
      hide Screen.GotoXY, Screen.Ri, Screen.Lf, Saved, Beyond, Span;
      Untouched(mem[..], memStart, memEnd);
      match c {
        case 91 => state := Square;
        case 69 => GotoXY(0, y + 1);
        case 77 => Ri();
        case 68 => Lf();
        case 55 => SaveCur();
        case 56 => GotoXY(savedX, savedY);
        case 40 | 41 => state := SetGraph;
        case 80 => state := SetTerm;
        case 35 => state := Ignore;
        case 99 => Reset();
        case _ =>
      }
    }

    method SetNormal()
      requires Valid()
      modifies this`state
      ensures Valid() && View() == old(View()).(state := Normal)
    {
      state := Normal;
    }

    /** ESsetterm */
    method PutSetTerm(c: char8)
      requires Valid() && state == SetTerm && c != 24 && c != 26
      modifies this`state, this`defAttr, this`blank
      ensures Valid() && View() == Screen.Put(g, old(View()), c)
    {
      hide Span, Proper;
      state := Normal;
      if c == 83 {
        defAttr := attr;
        blank := blank.(attr := defAttr);
      }
    }

    /** ESsetgraph */
    method PutSetGraph(c: char8)
      requires Valid() && state == SetGraph && c != 24 && c != 26
      modifies this`state, this`graf
      ensures Valid() && View() == Screen.Put(g, old(View()), c)
    {
      hide Span, Proper;
      state := Normal;
      if c == 48 {
        graf := true;
      } else if c == 66 {
        graf := false;
      }
    }

    /** The loop body of con_write. */
    method Put(c: char8)
      requires Valid()
      modifies this, mem
      ensures Valid() && View() == Screen.Put(g, old(View()), c)
      ensures Beyond(old(mem[..]), mem[..], memStart, memEnd)
    {
      hide Screen.PutNormal, Screen.PutEscape, Screen.Bracket, Screen.Parameter, Beyond, Valid;
      Untouched(mem[..], memStart, memEnd) by { Slice(); }
      if c == 24 || c == 26 {
        SetNormal();
      }
      match state {
        case Normal => PutNormal(c);
        case Esc =>
          SetNormal();
          PutEscape(c);
        case Square => Bracket(c);
        case GetPars => Parameter(c);
        case SetTerm => PutSetTerm(c);
        case SetGraph => PutSetGraph(c);
        case _ => SetNormal();
      }
    }

    // ----- Runs -----

    /** con_write: takes what is queued when it starts, unless output is stopped. */
    method ConWrite(queue: TtyQueue, stopped: bool)
      requires Valid() && queue.Valid()
      modifies this, mem, queue`tail
      ensures Valid() && queue.Valid()
      ensures queue.Contents() == if stopped then old(queue.Contents()) else []
      ensures View() == if stopped then old(View()) else Run(g, old(View()), old(queue.Contents()))
      ensures Beyond(old(mem[..]), mem[..], memStart, memEnd)
    {
      hide TtyQueue.Contents, Screen.Put, Beyond, Valid, View;
      ghost var was := mem[..];
      Slice();
      Untouched(was, memStart, memEnd);
      var nr := queue.Chars();
      while nr > 0 && !stopped
        invariant Valid() && Proper(g) && queue.Valid() && nr == |queue.Contents()|
        invariant Run(g, View(), queue.Contents()) == Run(g, old(View()), old(queue.Contents()))
        invariant stopped ==> View() == old(View()) && queue.Contents() == old(queue.Contents())
        invariant Beyond(was, mem[..], memStart, memEnd)
      {
        ghost var before, input := mem[..], queue.Contents();
        var c := queue.GetCh();
        assert input[0] == c && input[1..] == queue.Contents();
        Put(c);
        BeyondTrans(was, before, mem[..], memStart, memEnd);
        nr := nr - 1;
      }
    }

    method Write(bytes: seq<char8>)
      requires Valid()
      modifies this, mem
      ensures Valid() && View() == Run(g, old(View()), bytes)
      ensures Beyond(old(mem[..]), mem[..], memStart, memEnd)
    {
      hide Screen.Put, Beyond, Valid, View;
      ghost var was := mem[..];
      Slice();
      Untouched(was, memStart, memEnd);
      var i := 0;
      assert bytes[0..] == bytes;
      while i < |bytes|
        invariant i <= |bytes| && Valid() && Proper(g)
        invariant Run(g, View(), bytes[i..]) == Run(g, old(View()), bytes)
        invariant Beyond(was, mem[..], memStart, memEnd)
      {
        ghost var before := mem[..];
        assert bytes[i..][1..] == bytes[i + 1..];
        Put(bytes[i]);
        BeyondTrans(was, before, mem[..], memStart, memEnd);
        i := i + 1;
      }
    }

    /** A stream of bytes, delivered in any pieces. */
    method Feed(pieces: seq<seq<char8>>)
      requires Valid()
      modifies this, mem
      ensures Valid() && View() == Run(g, old(View()), Flat(pieces))
      ensures Beyond(old(mem[..]), mem[..], memStart, memEnd)
    {
      hide Screen.Put, Run, Beyond, Valid, View;
      ghost var was := mem[..];
      Slice();
      Untouched(was, memStart, memEnd);
      var i := 0;
      assert pieces[0..] == pieces;
      while i < |pieces|
        invariant i <= |pieces| && Valid() && Proper(g)
        invariant Run(g, View(), Flat(pieces[i..])) == Run(g, old(View()), Flat(pieces))
        invariant Beyond(was, mem[..], memStart, memEnd)
      {
        ghost var before := mem[..];
        assert pieces[i..][1..] == pieces[i + 1..];
        RunAppend(g, View(), pieces[i], Flat(pieces[i + 1..]));
        Write(pieces[i]);
        BeyondTrans(was, before, mem[..], memStart, memEnd);
        i := i + 1;
      }
      RunNothing(g, View());
    }
  }

  function Flat(pieces: seq<seq<char8>>): seq<char8> {
    if pieces == [] then [] else pieces[0] + Flat(pieces[1..])
  }

  /** The fast form refines the simple one: a card that pans and a card that copies show the same
      screen and cursor after every stream of bytes, however each receives it. */
  method PanShowsTheSame(panning: VirtualConsole, copying: VirtualConsole, p: seq<seq<char8>>, q: seq<seq<char8>>)
    requires panning.pan && !copying.pan && panning.g == copying.g
    requires panning != copying && panning.mem != copying.mem
    requires panning.Valid() && copying.Valid() && panning.View() == copying.View()
    requires Flat(p) == Flat(q)
    modifies panning, panning.mem, copying, copying.mem
    ensures panning.Valid() && copying.Valid() && panning.View() == copying.View()
  {
    hide Run, Flat, Beyond;
    panning.Feed(p);
    copying.Feed(q);
  }

  method Start(g: Geometry, panning: bool, mem: array<Cell>, start: nat, end: nat, first: bool, origX: nat, origY: nat)
    returns (console: VirtualConsole)
    requires Proper(g) && start + Span(g.lines, g.cols) <= end <= mem.Length
    ensures fresh(console) && console.Drives(g, panning, mem) && console.Started(first, origX, origY)
    ensures console.memStart == start && console.memEnd == end
  {
    hide Span, Screen.GotoXY;
    console := new VirtualConsole(g, panning, mem, start, end);
    if first {
      console.GotoXY(origX, origY);
    }
  }

  /** con_init: video memory is shared out evenly among up to eight consoles, each starting at the
      front of its slice; the first takes over the cursor the boot loader left. A share is assumed
      to be a whole number of cells. */
  method ConInit(g: Geometry, panning: bool, mem: array<Cell>, origX: nat, origY: nat)
    returns (consoles: seq<VirtualConsole>)
    requires Proper(g) && Span(g.lines, g.cols) <= mem.Length
    requires (2 * mem.Length / Shares(mem.Length, Span(g.lines, g.cols))) % 2 == 0
    ensures MostThatFit(|consoles|, mem.Length, Span(g.lines, g.cols))
    ensures forall i :: 0 <= i < |consoles| ==> fresh(consoles[i]) && consoles[i].Drives(g, panning, mem)
    ensures forall i :: 0 <= i < |consoles| ==> consoles[i].Started(i == 0, origX, origY)
    ensures forall i, j :: 0 <= i < j < |consoles| ==>
              consoles[i] != consoles[j] && consoles[i].memEnd <= consoles[j].memStart
  {
    hide Span, Shares, MostThatFit, VirtualConsole.Drives, VirtualConsole.Started, VirtualConsole.Valid;
    var n := Shares(mem.Length, Span(g.lines, g.cols));
    var share := 2 * mem.Length / n / 2;
    RowFits(0, g.lines, g.cols);
    ShareFits(mem.Length, Span(g.lines, g.cols), share);
    SharesMost(mem.Length, Span(g.lines, g.cols));
    consoles := [];
    var base := 0;
    for i := 0 to n
      invariant |consoles| == i && base == i * share
      invariant forall k :: 0 <= k < i ==> fresh(consoles[k]) && consoles[k].Drives(g, panning, mem)
      invariant forall k :: 0 <= k < i ==> consoles[k].Started(k == 0, origX, origY)
      invariant forall k :: 0 <= k < i ==> consoles[k].memEnd <= base
      invariant forall j, k :: 0 <= j < k < i ==>
                  consoles[j] != consoles[k] && consoles[j].memEnd <= consoles[k].memStart
    {
      MulMono(i + 1, n, share);
      Distribute(i, 1, share);
      var console := Start(g, panning, mem, base, base + share, i == 0, origX, origY);
      consoles := consoles + [console];
      base := base + share;
    }
  }

  /** As many screens as fit the memory, up to eight. */
  ghost predicate MostThatFit(n: nat, memory: nat, screen: nat) {
    1 <= n <= 8 && n * screen <= memory && (n < 8 ==> memory < (n + 1) * screen)
  }

  lemma SharesMost(memory: nat, screen: nat)
    requires 0 < screen <= memory
    ensures MostThatFit(Shares(memory, screen), memory, screen)
  {
    EnoughForAll(memory, screen);
    DivMod(memory, screen);
    Distribute(memory / screen, 1, screen);
  }

  /** NR_CONSOLES, for a memory of so many cells and a screen of so many. */
  function Shares(memory: nat, screen: nat): (n: nat)
    ensures 1 <= n <= 8
  {
    if screen == 0 || memory / screen > 8 then 8 else if memory / screen == 0 then 1 else memory / screen
  }

  lemma ShareFits(memory: nat, screen: nat, share: nat)
    requires 0 < screen <= memory && share == 2 * memory / Shares(memory, screen) / 2
    ensures screen <= share && Shares(memory, screen) * share <= memory
  {
    EnoughForAll(memory, screen);
    hide Shares;
    ShareSize(memory, screen, Shares(memory, screen));
  }

  lemma EnoughForAll(memory: nat, screen: nat)
    requires 0 < screen <= memory
    ensures Shares(memory, screen) * screen <= memory
  {
    DivMod(memory, screen);
    DivMono(screen, memory, screen);
    DivUnique(screen, screen, 1, 0);
    MulMono(Shares(memory, screen), memory / screen, screen);
  }

  lemma ShareSize(memory: nat, screen: nat, n: nat)
    requires n > 0 && n * screen <= memory
    ensures screen <= 2 * memory / n / 2 && n * (2 * memory / n / 2) <= memory
  {
    var b := 2 * memory / n;
    DivMod(2 * memory, n);
    MulAssoc(2, n, screen);
    Cancel(2 * screen, b + 1, n);
    MulMono(2 * (b / 2), b, n);
  }

  /** Writing to one console changes nothing that another one, on a slice of its own, shows. */
  method WriteBeside(console: VirtualConsole, other: VirtualConsole, bytes: seq<char8>)
    requires console.Valid() && other.Valid() && console != other && console.mem == other.mem
    requires console.memEnd <= other.memStart || other.memEnd <= console.memStart
    modifies console, console.mem
    ensures console.Valid() && console.View() == Run(console.g, old(console.View()), bytes)
    ensures other.Valid() && other.View() == old(other.View())
  {
    hide Run, Span;
    ghost var was := console.mem[..];
    console.Write(bytes);
    OtherSlice(was, console.mem[..], console.memStart, console.memEnd, other.origin, other.scrEnd);
  }

  lemma EvenRows(n: nat, cols: nat)
    requires cols % 2 == 0
    ensures 2 * (Span(n, cols) / 2) == Span(n, cols)
  {
    MulAssoc(n, cols / 2, 2);
    assert cols == cols / 2 * 2;
    DivMod(n * (cols / 2) * 2, 2);
  }
}
