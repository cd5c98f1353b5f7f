/** Echo agrees with the edit buffer (kernel/chr_drv/tty_io.c). */
module Echo {
  import opened Ring
  import opened LineDiscipline

  // ----- A terminal: the cells to the left of its cursor -----

  function Blanks(n: nat): seq<char8> {
    if n == 0 then [] else Blanks(n - 1) + [32]
  }

  /** Newline moves straight down, carriage return to the left edge, 127 rubs out one cell. */
  function Shown(row: seq<char8>, c: char8): seq<char8> {
    if c == NL then Blanks(|row|)
    else if c == CR then []
    else if c == DEL then (if row == [] then [] else row[..|row| - 1])
    else if 32 <= c < 127 then row + [c]
    else row
  }

  function Display(bytes: seq<char8>): seq<char8> {
    if bytes == [] then [] else Shown(Display(bytes[..|bytes| - 1]), bytes[|bytes| - 1])
  }

  // ----- How the edit buffer should look -----

  function Cells(c: char8): seq<char8> {
    if c < 32 then [CARET, Control(c)] else [c]
  }

  /** The rendering of what was entered since the last newline. */
  function Rendered(hist: seq<char8>): seq<char8> {
    if hist == [] || hist[|hist| - 1] == NL then []
    else Rendered(hist[..|hist| - 1]) + Cells(hist[|hist| - 1])
  }

  /** Everything echoed so far, whether or not the device has it yet, shows the edit buffer. */
  ghost predicate Faithful(s: Line) {
    Display(s.out + s.pending) == Rendered(s.hist)
  }

  predicate SevenBit(s: seq<char8>) {
    forall i :: 0 <= i < |s| ==> 0 <= s[i] < 127
  }

  /** The terminal settings the theorem is about. */
  predicate Cooking(io: Termios) {
    io.icanon && io.echo && io.echoctl && io.erase == 127
  }

  lemma DisplayMore(bytes: seq<char8>, c: char8)
    ensures Display(bytes + [c]) == Shown(Display(bytes), c)
  {
    assert (bytes + [c])[..|bytes|] == bytes;
  }

  lemma RenderedMore(hist: seq<char8>, c: char8)
    ensures Rendered(hist + [c]) == if c == NL then [] else Rendered(hist) + Cells(c)
  {
    assert (hist + [c])[..|hist|] == hist;
  }

  lemma EmitShows(s: Line, c: char8)
    requires !Emit(s, c).lost
    ensures !s.lost && Display(Emit(s, c).out + Emit(s, c).pending) == Shown(Display(s.out + s.pending), c)
  {
    DisplayMore(s.out + s.pending, c);
    assert s.out + (s.pending + [c]) == s.out + s.pending + [c];
  }

  lemma FlushShows(s: Line)
    ensures Flush(s).lost == s.lost && Flush(s).hist == s.hist
    ensures Flush(s).out + Flush(s).pending == s.out + s.pending
  {
    if !s.stopped {
      assert s.out + s.pending + [] == s.out + s.pending;
    }
  }

  /** An erased character disappears from the screen, whichever width it had. */
  lemma EraseShows(io: Termios, s: Line, c: char8)
    requires io.echo && 0 <= c < 127 && !EchoErase(io, s, c).lost
    ensures !s.lost
    ensures forall row :: Display(s.out + s.pending) == row + Cells(c) ==>
              Display(EchoErase(io, s, c).out + EchoErase(io, s, c).pending) == row
  {
    hide Display, Flush, Emit;
    var s1 := Emit(s, DEL);
    var d := Display(s.out + s.pending);
    if c < 32 {
      var s2 := Emit(s1, DEL);
      FlushShows(s2);
      EmitShows(s1, DEL);
      EmitShows(s, DEL);
      forall row | d == row + Cells(c) ensures Shown(Shown(d, DEL), DEL) == row {
        assert Shown(d, DEL) == row + [CARET];
      }
    } else {
      FlushShows(s1);
      EmitShows(s, DEL);
      forall row | d == row + Cells(c) ensures Shown(d, DEL) == row {
        assert d[..|d| - 1] == row;
      }
    }
  }

  lemma RubOutFaithful(io: Termios, s: Line)
    requires Cooking(io) && SevenBit(s.hist) && !AtBoundary(io, s) && Faithful(s)
    requires !RubOut(io, s).lost
    ensures !s.lost && Faithful(RubOut(io, s)) && SevenBit(RubOut(io, s).hist)
  {
    hide Display, EchoErase, EchoInsert;
    var n := |s.hist| - 1;
    var c := s.hist[n];
    EchoKeeps(io, s, c);
    EraseShows(io, s, c);
    assert Rendered(s.hist) == Rendered(s.hist[..n]) + Cells(c);
  }

  lemma {:induction false} KillFaithful(io: Termios, s: Line)
    requires Cooking(io) && SevenBit(s.hist) && Faithful(s)
    requires !KillLine(io, s).lost
    ensures !s.lost && Faithful(KillLine(io, s)) && SevenBit(KillLine(io, s).hist)
    decreases |s.hist|
  {
    hide Faithful, RubOut;
    if !AtBoundary(io, s) {
      assert !RubOut(io, s).lost by { KillLoses(io, RubOut(io, s)); }
      RubOutFaithful(io, s);
      KillFaithful(io, RubOut(io, s));
    }
  }

  /** What has been lost stays lost. */
  lemma {:induction false} KillLoses(io: Termios, s: Line)
    ensures s.lost ==> KillLine(io, s).lost
    decreases |s.hist|
  {
    if !AtBoundary(io, s) {
      KillLoses(io, RubOut(io, s));
    }
  }

  lemma InsertFaithful(io: Termios, s: Line, c: char8)
    requires Cooking(io) && SevenBit(s.hist) && Faithful(s) && 0 <= c < 127
    requires !InsertChar(io, s, c).lost
    ensures !s.lost && Faithful(InsertChar(io, s, c)) && SevenBit(InsertChar(io, s, c).hist)
  {
    hide Display, Rendered, Flush, Emit;
    var s1 := if Mark(io, c) then s.(data := s.data + 1) else s;
    InsertHist(io, s, c);
    RenderedMore(s.hist, c);
    var d := Display(s.out + s.pending);
    if c == NL {
      FlushShows(Emit(Emit(s1, NL), CR));
      EmitShows(Emit(s1, NL), CR);
      EmitShows(s1, NL);
    } else if c >= 32 {
      FlushShows(Emit(s1, c));
      EmitShows(s1, c);
    } else {
      FlushShows(Emit(Emit(s1, CARET), Control(c)));
      EmitShows(Emit(s1, CARET), Control(c));
      EmitShows(s1, CARET);
      assert d + [CARET] + [Control(c)] == d + Cells(c);
    }
  }

  lemma StepFaithful(io: Termios, s: Line, c: char8)
    requires Cooking(io) && SevenBit(s.hist) && Faithful(s) && 0 <= c < 128
    requires !Step(io, s, c).lost
    ensures !s.lost && Faithful(Step(io, s, c)) && SevenBit(Step(io, s, c).hist)
  {
    hide KillLine, RubOut, InsertChar, Flush, Display, Rendered;
    match Classify(io, c)
    case Kill => KillFaithful(io, s);
    case Erase =>
      if !AtBoundary(io, s) {
        RubOutFaithful(io, s);
      }
    case Stop => FlushShows(s.(stopped := true));
    case Start => FlushShows(s.(stopped := false));
    case Insert(d) =>
      assert 0 <= d < 127;
      InsertFaithful(io, s, d);
    case _ =>
  }

  lemma StepLoses(io: Termios, s: Line, c: char8)
    ensures s.lost ==> Step(io, s, c).lost
  {
    KillLoses(io, s);
  }

  lemma {:induction false} RunLoses(io: Termios, s: Line, input: seq<char8>)
    ensures s.lost ==> Run(io, s, input).0.lost
    decreases |input|
  {
    hide Step;
    if input != [] && |s.hist| - s.taken < CAPACITY {
      StepLoses(io, s, input[0]);
      RunLoses(io, Step(io, s, input[0]), input[1..]);
    }
  }

  lemma {:induction false} RunShows(io: Termios, s: Line, input: seq<char8>)
    requires Cooking(io) && SevenBit(s.hist) && Faithful(s)
    requires forall i :: 0 <= i < |input| ==> 0 <= input[i] < 128
    requires !Run(io, s, input).0.lost
    ensures Faithful(Run(io, s, input).0) && SevenBit(Run(io, s, input).0.hist)
    decreases |input|
  {
    hide Step, Faithful, Cooking;
    if input != [] && |s.hist| - s.taken < CAPACITY {
      RunLoses(io, Step(io, s, input[0]), input[1..]);
      StepFaithful(io, s, input[0]);
      RunShows(io, Step(io, s, input[0]), input[1..]);
    }
  }

  // ----- When the echo overruns its queue -----

  /** How many rub-outs erasing c echoes. */
  function EraseSize(c: char8): nat {
    if c < 32 then 2 else 1
  }

  function InsertSize(io: Termios, c: char8): nat {
    if c == NL then 2 else if c >= 32 then 1 else if io.echoctl then 2 else 0
  }

  function KillSize(cur: seq<char8>): nat {
    if cur == [] then 0 else EraseSize(cur[|cur| - 1]) + KillSize(cur[..|cur| - 1])
  }

  /** How many characters typing this one echoes, with e on the line. */
  function EchoSize(io: Termios, e: Edit, input: char8): nat {
    if !io.echo then 0
    else
      match Classify(io, input)
      case Insert(c) => InsertSize(io, c)
      case Erase => if e.cur == [] then 0 else EraseSize(e.cur[|e.cur| - 1])
      case Kill => KillSize(e.cur)
      case _ => 0
  }

  /** Told from the typing alone: at some point more echo waits for a stopped device than the
      output queue holds. Typing ends where the secondary queue is full. */
  predicate Overruns(io: Termios, e: Edit, taken: nat, stopped: bool, waiting: nat, input: seq<char8>)
    decreases |input|
  {
    if input == [] || |e.done| + |e.cur| - taken >= CAPACITY then false
    else
      match Classify(io, input[0])
      case Stop => Overruns(io, e, taken, true, waiting, input[1..])
      case Start => Overruns(io, e, taken, false, 0, input[1..])
      case _ =>
        var n := if stopped then waiting + EchoSize(io, e, input[0]) else 0;
        n > CAPACITY || Overruns(io, EditStep(io, e, input[0]), taken, stopped, n, input[1..])
  }

  /** Nothing has been lost, and a device that is not stopped has been given everything. */
  predicate Drained(s: Line) {
    !s.lost && |s.pending| <= CAPACITY && (!s.stopped ==> s.pending == [])
  }

  /** What is left after an echo of so many characters. */
  predicate After(s: Line, size: nat, t: Line) {
    && t.stopped == s.stopped
    && (if s.stopped then t.lost == (|s.pending| + size > CAPACITY) else !t.lost)
    && (!t.lost ==> |t.pending| == if s.stopped then |s.pending| + size else 0)
  }

  lemma EchoAfter(io: Termios, s: Line, c: char8)
    requires Drained(s)
    ensures After(s, if io.echo then EraseSize(c) else 0, EchoErase(io, s, c))
    ensures After(s, if io.echo then InsertSize(io, c) else 0, EchoInsert(io, s, c))
  {}

  lemma RubOutAfter(io: Termios, s: Line)
    requires Drained(s) && !AtBoundary(io, s)
    ensures After(s, if io.echo then EraseSize(s.hist[|s.hist| - 1]) else 0, RubOut(io, s))
  {
    hide EchoErase, EchoInsert;
    EchoAfter(io, s, s.hist[|s.hist| - 1]);
  }

  lemma {:induction false} KillAfter(io: Termios, s: Line)
    requires Drained(s)
    ensures After(s, if io.echo then KillSize(EditOf(io, s).cur) else 0, KillLine(io, s))
    decreases |s.hist|
  {
    hide RubOut, EditOf, AtBoundary, EraseSize;
    BoundaryEdits(io, s);
    if !AtBoundary(io, s) {
      RubOutEdits(io, s);
      RubOutAfter(io, s);
      LastOfLine(io, s);
      if RubOut(io, s).lost {
        KillLoses(io, RubOut(io, s));
        KillKeepsStop(io, RubOut(io, s));
      } else {
        KillAfter(io, RubOut(io, s));
      }
    }
  }

  lemma LastOfLine(io: Termios, s: Line)
    requires !AtBoundary(io, s)
    ensures var cur := EditOf(io, s).cur;
            cur != [] && cur[|cur| - 1] == s.hist[|s.hist| - 1]
  {}

  lemma {:induction false} KillKeepsStop(io: Termios, s: Line)
    ensures KillLine(io, s).stopped == s.stopped
    decreases |s.hist|
  {
    if !AtBoundary(io, s) {
      KillKeepsStop(io, RubOut(io, s));
    }
  }

  lemma InsertAfter(io: Termios, s: Line, c: char8)
    requires Drained(s)
    ensures After(s, if io.echo then InsertSize(io, c) else 0, InsertChar(io, s, c))
  {
    hide EchoErase, EchoInsert, InsertSize;
    EchoAfter(io, if Mark(io, c) then s.(data := s.data + 1) else s, c);
  }

  /** One character of ordinary typing, against its echo's size. */
  lemma StepAfter(io: Termios, s: Line, c: char8)
    requires Drained(s) && !Classify(io, c).Stop? && !Classify(io, c).Start?
    ensures After(s, EchoSize(io, EditOf(io, s), c), Step(io, s, c))
  {
    hide EditOf, RubOut, KillLine, InsertChar, Classify, AtBoundary, EraseSize, InsertSize, KillSize;
    match Classify(io, c)
    case Kill => KillAfter(io, s);
    case Erase =>
      BoundaryEdits(io, s);
      if !AtBoundary(io, s) {
        LastOfLine(io, s);
        RubOutAfter(io, s);
      }
    case Insert(d) => InsertAfter(io, s, d);
    case _ =>
  }

  lemma StepSwitches(io: Termios, s: Line, c: char8)
    requires Drained(s)
    ensures var t := Step(io, s, c);
            && (Classify(io, c).Stop? ==> Drained(t) && t.stopped && t.pending == s.pending)
            && (Classify(io, c).Start? ==> Drained(t) && !t.stopped && t.pending == [])
  {
    hide Classify, KillLine, RubOut, InsertChar;
  }

  lemma WholeHistory(io: Termios, s: Line)
    ensures var e := EditOf(io, s);
            |e.done| + |e.cur| == |s.hist|
  {}

  /** For every input and every settings: echo is lost if and only if the typing overruns. */
  lemma {:induction false} LostExactly(io: Termios, s: Line, input: seq<char8>)
    requires Valid(io, s) && Drained(s)
    ensures Run(io, s, input).0.lost
            <==> Overruns(io, EditOf(io, s), s.taken, s.stopped, |s.pending|, input)
    ensures !Run(io, s, input).0.lost ==> Drained(Run(io, s, input).0)
    decreases |input|
  {
    hide Step, EditStep, EditOf, Valid, EchoSize, Classify;
    WholeHistory(io, s);
    if input != [] && |s.hist| - s.taken < CAPACITY {
      var t := Step(io, s, input[0]);
      ValidFits(io, s);
      StepKeeps(io, s, input[0]);
      StepEdits(io, s, input[0]);
      SwitchEdits(io, EditOf(io, s), input[0]);
      if Classify(io, input[0]).Stop? || Classify(io, input[0]).Start? {
        StepSwitches(io, s, input[0]);
        LostExactly(io, t, input[1..]);
      } else {
        StepAfter(io, s, input[0]);
        if t.lost {
          RunLoses(io, t, input[1..]);
        } else {
          LostExactly(io, t, input[1..]);
        }
      }
    }
  }

  lemma SwitchEdits(io: Termios, e: Edit, c: char8)
    ensures Classify(io, c).Stop? || Classify(io, c).Start? ==> EditStep(io, e, c) == e
  {}

  // ----- The echo shows the line -----

  /** For every 7-bit input: unless the typing overruns the output queue, the screen shows exactly
      the edit buffer, control characters two cells wide. */
  lemma RunFaithful(io: Termios, s: Line, input: seq<char8>)
    requires Cooking(io) && Valid(io, s) && SevenBit(s.hist) && Faithful(s) && Drained(s)
    requires forall i :: 0 <= i < |input| ==> 0 <= input[i] < 128
    requires !Overruns(io, EditOf(io, s), s.taken, s.stopped, |s.pending|, input)
    ensures var t := Run(io, s, input).0;
            Faithful(t) && SevenBit(t.hist) && Drained(t)
  {
    hide Run, Overruns, Faithful, Valid, EditOf;
    LostExactly(io, s, input);
    RunShows(io, s, input);
  }

  /** A new terminal. */
  function Fresh(): Line {
    Line([], 0, 0, false, [], [], false)
  }

  /** From a new terminal the screen shows the edit buffer after every such input; the device has
      shown all of it already unless it is stopped. */
  lemma EchoExact(io: Termios, input: seq<char8>)
    requires Cooking(io)
    requires forall i :: 0 <= i < |input| ==> 0 <= input[i] < 128
    requires !Overruns(io, Edit([], []), 0, false, 0, input)
    ensures var s := Run(io, Fresh(), input).0;
            && Display(s.out + s.pending) == Rendered(s.hist)
            && (!s.stopped ==> Display(s.out) == Rendered(s.hist))
  {
    hide Run, Overruns;
    assert EditOf(io, Fresh()) == Edit([], []);
    RunFaithful(io, Fresh(), input);
    var s := Run(io, Fresh(), input).0;
    assert s.out + [] == s.out;
  }

  /** Without a STOP character nothing overruns, and the device is never stopped. */
  lemma {:induction false} RunFlows(io: Termios, s: Line, input: seq<char8>)
    requires !s.stopped && forall i :: 0 <= i < |input| ==> !Classify(io, input[i]).Stop?
    ensures forall e, taken, waiting :: !Overruns(io, e, taken, false, waiting, input)
    ensures !Run(io, s, input).0.stopped
    decreases |input|
  {
    hide Step, Classify;
    forall e, taken, waiting ensures !Overruns(io, e, taken, false, waiting, input) {
      NeverOverruns(io, e, taken, waiting, input);
    }
    if input != [] && |s.hist| - s.taken < CAPACITY {
      StepFlows(io, s, input[0]);
      RunFlows(io, Step(io, s, input[0]), input[1..]);
    }
  }

  lemma {:induction false} NeverOverruns(io: Termios, e: Edit, taken: nat, waiting: nat, input: seq<char8>)
    requires forall i :: 0 <= i < |input| ==> !Classify(io, input[i]).Stop?
    ensures !Overruns(io, e, taken, false, waiting, input)
    decreases |input|
  {
    hide Classify, EditStep;
    if input != [] && |e.done| + |e.cur| - taken < CAPACITY {
      NeverOverruns(io, e, taken, 0, input[1..]);
      NeverOverruns(io, EditStep(io, e, input[0]), taken, 0, input[1..]);
    }
  }

  lemma StepFlows(io: Termios, s: Line, c: char8)
    requires !s.stopped && !Classify(io, c).Stop?
    ensures !Step(io, s, c).stopped
  {
    hide KillLine;
    KillKeepsStop(io, s);
  }

  /** The settings consoles are given at boot: as the flag words are read, without IXON, so every
      7-bit input is shown at once. */
  lemma BootEcho(input: seq<char8>)
    requires forall i :: 0 <= i < |input| ==> 0 <= input[i] < 128
    ensures var s := Run(CONSOLE, Fresh(), input).0;
            Display(s.out) == Rendered(s.hist)
  {
    hide Run, Display, Rendered, Overruns;
    RunFlows(CONSOLE, Fresh(), input);
    EchoExact(CONSOLE, input);
  }

  lemma {:induction false} KillBound(cur: seq<char8>)
    ensures KillSize(cur) <= 2 * |cur|
    decreases |cur|
  {
    if cur != [] {
      KillBound(cur[..|cur| - 1]);
    }
  }

  lemma StepBound(io: Termios, e: Edit, c: char8)
    ensures EchoSize(io, e, c) + 2 * |EditStep(io, e, c).cur| <= 2 * |e.cur| + 4
  {
    hide Classify;
    KillBound(e.cur);
  }

  /** A bound that can be told by counting: what waits, two for each character on the line and four
      for each one typed. */
  lemma {:induction false} EchoFits(io: Termios, e: Edit, taken: nat, stopped: bool, waiting: nat, input: seq<char8>)
    requires waiting + 2 * |e.cur| + 4 * |input| <= CAPACITY
    ensures !Overruns(io, e, taken, stopped, waiting, input)
    decreases |input|
  {
    hide Classify, EditStep, EchoSize;
    if input != [] && |e.done| + |e.cur| - taken < CAPACITY {
      var n := if stopped then waiting + EchoSize(io, e, input[0]) else 0;
      StepBound(io, e, input[0]);
      EchoFits(io, e, taken, true, waiting, input[1..]);
      EchoFits(io, e, taken, false, 0, input[1..]);
      EchoFits(io, EditStep(io, e, input[0]), taken, stopped, n, input[1..]);
    }
  }

  // ----- An input that goes wrong -----

  function Repeated(cells: seq<char8>, n: nat): (r: seq<char8>)
    ensures |r| == n * |cells|
  {
    if n == 0 then [] else Repeated(cells, n - 1) + cells
  }

  /** Settings in which ^A is an ordinary character and ^S stops output. */
  predicate Usual(io: Termios) {
    Cooking(io) && Classify(io, 1) == Insert(1) && !Mark(io, 1) && Classify(io, 19) == Stop
  }

  lemma BootIsUsualWithFlowControl()
    ensures Usual(CONSOLE.(ixon := true))
  {}

  /** After ^S, n times ^A. */
  function Waiting(n: nat): Line {
    Line(Repeated([1], n), 0, 0, true, Repeated([CARET, 65], n), [], false)
  }

  lemma {:induction false} TypedWaits(io: Termios, n: nat)
    requires Usual(io) && n <= 511
    ensures Run(io, Waiting(0), Repeated([1], n)) == (Waiting(n), [])
  {
    if n > 0 {
      TypedWaits(io, n - 1);
      RunAppend(io, Waiting(0), Repeated([1], n - 1), [1]);
      OneTyped(io, n - 1);
    }
  }

  lemma OneTyped(io: Termios, n: nat)
    requires Usual(io) && n <= 511
    ensures var (s, rest) := Run(io, Waiting(n), [] + [1]);
            rest == [] && if n < 511 then s == Waiting(n + 1)
                          else s.lost && s.pending == [] && s.out == [] && s.hist == Repeated([1], 512)
  {
    var s := Waiting(n);
    var first := Emit(s, CARET);
    assert Repeated([CARET, 65], n + 1) == s.pending + [CARET] + [65];
    assert Step(io, s, 1) == InsertChar(io, s, 1);
    assert ([] + [1])[1..] == [];
  }

  /** ^S and then 512 times ^A: the echo fills the output queue, whose next PUTCH empties it, and
      nothing is left to show for what was typed. */
  lemma EchoOverruns(io: Termios)
    requires Usual(io)
    ensures var s := Run(io, Fresh(), [19] + Repeated([1], 512)).0;
            s.lost && !Faithful(s)
  {
    hide Step;
    var ones := Repeated([1], 511);
    assert Step(io, Fresh(), 19) == Waiting(0) by { StopsNow(io); }
    assert ([19] + Repeated([1], 512))[1..] == ones + [1];
    TypedWaits(io, 511);
    RunAppend(io, Waiting(0), ones, [1]);
    OneTyped(io, 511);
    ShowsSomething(512);
  }

  lemma StopsNow(io: Termios)
    requires Usual(io)
    ensures Step(io, Fresh(), 19) == Waiting(0)
  {}

  lemma ShowsSomething(n: nat)
    requires n > 0
    ensures Rendered(Repeated([1], n)) != []
  {
    RenderedMore(Repeated([1], n - 1), 1);
  }
}
