/** What the line discipline of kernel/chr_drv/tty_io.c does, as functions on values: the
    specification of module Tty, and what follows from it for every input. */
module LineDiscipline {
  import opened Ring

  type cc = c: int | 0 <= c < 256 witness 0

  datatype Termios = Termios(
    icrnl: bool, igncr: bool, inlcr: bool, iuclc: bool, ixon: bool,
    icanon: bool, echo: bool, echoctl: bool, isig: bool,
    intr: cc, quit: cc, erase: cc, kill: cc, eof: cc, start: cc, stop: cc, susp: cc)

  /** What tty_init gives the consoles. IXON stands in its word of local flags, where that bit
      means something else, and is missing from its word of input flags. */
  const CONSOLE := Termios(true, false, false, false, false, true, true, true, true,
                           3, 28, 127, 21, 4, 17, 19, 26)

  const NL: char8 := 10
  const CR: char8 := 13
  const DEL: char8 := 127
  const CARET: char8 := 94

  /** A control character that is set (not _POSIX_VDISABLE) and equals c. */
  predicate Is(special: cc, c: char8) {
    special != 0 && c == special
  }

  /** The characters that end a line: newline and EOF. */
  predicate Mark(io: Termios, c: char8) {
    c == NL || Is(io.eof, c)
  }

  function ToLower(c: char8): (r: char8) {
    if 65 <= c <= 90 then c + 32 else c
  }

  // ----- What one input character asks for -----

  datatype Action = Drop | Kill | Erase | Stop | Start | Signal | Insert(c: char8)

  /** Carriage return, newline and case mapping; a lone CR may be ignored altogether. */
  predicate Ignored(io: Termios, c: char8) {
    c == CR && !io.icrnl && io.igncr
  }

  function Mapped(io: Termios, c: char8): char8 {
    var c1 := if c == CR then (if io.icrnl then NL else c) else if c == NL && io.inlcr then CR else c;
    if io.iuclc then ToLower(c1) else c1
  }

  predicate Edits(io: Termios, c: char8) {
    io.icanon && (Is(io.kill, c) || Is(io.erase, c))
  }

  function Classify(io: Termios, input: char8): Action {
    if Ignored(io, input) then Drop else ClassifyMapped(io, Mapped(io, input))
  }

  function ClassifyMapped(io: Termios, c: char8): Action {
    if Edits(io, c) then (if Is(io.kill, c) then Kill else Erase)
    else if io.ixon && Is(io.stop, c) then Stop
    else if io.ixon && Is(io.start, c) then Start
    else if io.isig && (Is(io.intr, c) || Is(io.quit, c) || Is(io.susp, c)) then Signal
    else Insert(c)
  }

  // ----- The state of one terminal -----

  /** hist is everything that was ever put into the secondary queue and not erased again, and
      the first taken characters of it have been read. pending is the output queue, out what
      the device has been given, and lost records that an unchecked PUTCH found the output
      queue full. */
  datatype Line = Line(hist: seq<char8>, taken: nat, data: int, stopped: bool,
                       pending: seq<char8>, out: seq<char8>, lost: bool)

  predicate Fits(s: Line) {
    s.taken <= |s.hist| && |s.hist| - s.taken <= CAPACITY && |s.pending| <= CAPACITY
  }

  /** The contents of the secondary queue. */
  function Cooked(s: Line): seq<char8>
    requires Fits(s)
  {
    s.hist[s.taken..]
  }

  function Marks(io: Termios, s: seq<char8>): nat {
    if s == [] then 0 else Marks(io, s[..|s| - 1]) + if Mark(io, s[|s| - 1]) then 1 else 0
  }

  /** What holds between any two operations. */
  predicate Valid(io: Termios, s: Line) {
    Fits(s) && s.data == Marks(io, Cooked(s))
  }

  /** PUTCH(c, tty->write_q) */
  function Emit(s: Line, c: char8): Line {
    s.(pending := Pushed(s.pending, c), lost := s.lost || |s.pending| == CAPACITY)
  }

  /** tty->write(tty) */
  function Flush(s: Line): Line {
    if s.stopped then s else s.(out := s.out + s.pending, pending := [])
  }

  /** Echo of an erased character: one rub-out, and another where it was shown as ^X. */
  function EchoErase(io: Termios, s: Line, c: char8): Line {
    if !io.echo then s else if c < 32 then Flush(Emit(Emit(s, DEL), DEL)) else Flush(Emit(s, DEL))
  }

  function EchoInsert(io: Termios, s: Line, c: char8): Line {
    if !io.echo then s
    else if c == NL then Flush(Emit(Emit(s, NL), CR))
    else if c >= 32 then Flush(Emit(s, c))
    else if io.echoctl then Flush(Emit(Emit(s, CARET), Control(c)))
    else Flush(s)
  }

  /** c+64, in a char */
  function Control(c: char8): char8
    requires c < 32
  {
    c + 64
  }

  /** Nothing can be erased: the queue is empty or its last character ends a line. */
  predicate AtBoundary(io: Termios, s: Line) {
    |s.hist| <= s.taken || Mark(io, s.hist[|s.hist| - 1])
  }

  function RubOut(io: Termios, s: Line): (s': Line)
    requires !AtBoundary(io, s)
    ensures |s'.hist| < |s.hist|
  {
    var n := |s.hist| - 1;
    EchoErase(io, s, s.hist[n]).(hist := s.hist[..n])
  }

  function KillLine(io: Termios, s: Line): Line
    decreases |s.hist|
  {
    if AtBoundary(io, s) then s else KillLine(io, RubOut(io, s))
  }

  function InsertChar(io: Termios, s: Line, c: char8): Line {
    var s1 := if Mark(io, c) then s.(data := s.data + 1) else s;
    var s2 := EchoInsert(io, s1, c);
    s2.(hist := s2.hist + [c])
  }

  function Step(io: Termios, s: Line, input: char8): Line {
    Act(io, s, Classify(io, input))
  }

  function Act(io: Termios, s: Line, action: Action): Line {
    match action
    case Kill => KillLine(io, s)
    case Erase => if AtBoundary(io, s) then s else RubOut(io, s)
    case Stop => Flush(s.(stopped := true))
    case Start => Flush(s.(stopped := false))
    case Insert(c) => InsertChar(io, s, c)
    case _ => s
  }

  /** copy_to_cooked: characters are taken while there are any and the secondary queue has
      room; the second component is what stays in the read queue. */
  function Run(io: Termios, s: Line, input: seq<char8>): (Line, seq<char8>)
    decreases |input|
  {
    if input == [] || |s.hist| - s.taken >= CAPACITY then (s, input)
    else Run(io, Step(io, s, input[0]), input[1..])
  }

  // ----- Every step keeps the counts -----

  lemma EchoKeeps(io: Termios, s: Line, c: char8)
    ensures var e := EchoErase(io, s, c);
            e == s.(out := e.out, pending := e.pending, lost := e.lost)
    ensures var i := EchoInsert(io, s, c);
            i == s.(out := i.out, pending := i.pending, lost := i.lost)
    ensures |s.pending| <= CAPACITY ==> |EchoErase(io, s, c).pending| <= CAPACITY
    ensures |s.pending| <= CAPACITY ==> |EchoInsert(io, s, c).pending| <= CAPACITY
  {}

  lemma RubOutKeeps(io: Termios, s: Line)
    requires Valid(io, s) && !AtBoundary(io, s)
    ensures Valid(io, RubOut(io, s))
  {
    hide EchoErase, EchoInsert;
    var n := |s.hist| - 1;
    EchoKeeps(io, s, s.hist[n]);
    assert Cooked(RubOut(io, s)) == Cooked(s)[..|Cooked(s)| - 1];
  }

  lemma {:induction false} KillKeeps(io: Termios, s: Line)
    requires Valid(io, s)
    ensures Valid(io, KillLine(io, s))
    ensures KillLine(io, s).taken == s.taken
    decreases |s.hist|
  {
    hide Valid, EchoErase, EchoInsert;
    if !AtBoundary(io, s) {
      RubOutKeeps(io, s);
      EchoKeeps(io, s, s.hist[|s.hist| - 1]);
      KillKeeps(io, RubOut(io, s));
    }
  }

  lemma InsertKeeps(io: Termios, s: Line, c: char8)
    requires Valid(io, s) && |Cooked(s)| < CAPACITY
    ensures Valid(io, InsertChar(io, s, c))
    ensures InsertChar(io, s, c).taken == s.taken
  {
    hide EchoErase, EchoInsert;
    EchoKeeps(io, if Mark(io, c) then s.(data := s.data + 1) else s, c);
    var s' := InsertChar(io, s, c);
    assert Cooked(s') == Cooked(s) + [c];
    assert Cooked(s')[..|Cooked(s')| - 1] == Cooked(s);
  }

  /** One character never overflows the secondary queue, and data stays the number of line ends
      in it. */
  lemma StepKeeps(io: Termios, s: Line, c: char8)
    requires Valid(io, s) && |Cooked(s)| < CAPACITY
    ensures Valid(io, Step(io, s, c)) && Step(io, s, c).taken == s.taken
  {
    hide EchoErase, EchoInsert, KillLine, InsertChar, Classify;
    match Classify(io, c)
    case Kill => KillKeeps(io, s);
    case Erase =>
      if !AtBoundary(io, s) {
        RubOutKeeps(io, s);
        EchoKeeps(io, s, s.hist[|s.hist| - 1]);
      }
    case Insert(d) => InsertKeeps(io, s, d);
    case _ =>
  }

  /** For every input: the counts hold, and what is left in the read queue is left because the
      secondary queue is full. */
  lemma {:induction false} RunKeeps(io: Termios, s: Line, input: seq<char8>)
    requires Valid(io, s)
    ensures var (s', rest) := Run(io, s, input);
            Valid(io, s') && s'.taken == s.taken && |rest| <= |input|
              && rest == input[|input| - |rest|..] && (rest == [] || |Cooked(s')| == CAPACITY)
    decreases |input|
  {
    hide Step, Marks;
    if input != [] && |s.hist| - s.taken < CAPACITY {
      StepKeeps(io, s, input[0]);
      RunKeeps(io, Step(io, s, input[0]), input[1..]);
    }
  }

  /** Where there is input and room, some of the input is taken; where there is no room, none. */
  lemma RunTakes(io: Termios, s: Line, input: seq<char8>)
    requires Valid(io, s) && input != []
    ensures |Cooked(s)| < CAPACITY ==> |Run(io, s, input).1| < |input|
    ensures |Cooked(s)| == CAPACITY ==> Run(io, s, input) == (s, input)
  {
    hide Step, Marks;
    if |Cooked(s)| < CAPACITY {
      StepKeeps(io, s, input[0]);
      RunKeeps(io, Step(io, s, input[0]), input[1..]);
    }
  }

  lemma RunNothing(io: Termios, s: Line)
    ensures Run(io, s, []) == (s, [])
  {}

  /** Handing the input over in pieces makes no difference. */
  lemma {:induction false} RunAppend(io: Termios, s: Line, input: seq<char8>, more: seq<char8>)
    ensures var (s', rest) := Run(io, s, input);
            Run(io, s, input + more) == Run(io, s', rest + more)
    decreases |input|
  {
    hide Step;
    if input == [] {
      assert input + more == more;
    } else if |s.hist| - s.taken < CAPACITY {
      assert (input + more)[1..] == input[1..] + more;
      RunAppend(io, Step(io, s, input[0]), input[1..], more);
    }
  }

  // ----- Canonical editing, said directly -----

  /** What can no longer be edited, and the rest of the current line. */
  datatype Edit = Edit(done: seq<char8>, cur: seq<char8>)

  function EditStep(io: Termios, e: Edit, input: char8): Edit {
    match Classify(io, input)
    case Insert(c) => if Mark(io, c) then Edit(e.done + e.cur + [c], []) else e.(cur := e.cur + [c])
    case Erase => if e.cur == [] then e else e.(cur := e.cur[..|e.cur| - 1])
    case Kill => e.(cur := [])
    case _ => e
  }

  function EditRun(io: Termios, e: Edit, input: seq<char8>): Edit
    decreases |input|
  {
    if input == [] then e else EditRun(io, EditStep(io, e, input[0]), input[1..])
  }

  /** Where the editable part of the history starts: after the last line end, or where reading
      has got to. */
  function Fence(io: Termios, hist: seq<char8>, taken: nat): (n: nat)
    ensures n <= |hist|
    ensures taken <= |hist| ==> taken <= n
    ensures forall i :: n <= i < |hist| ==> !Mark(io, hist[i])
    ensures n == 0 || n <= taken || Mark(io, hist[n - 1])
    decreases |hist|
  {
    if |hist| <= taken || Mark(io, hist[|hist| - 1]) then |hist| else Fence(io, hist[..|hist| - 1], taken)
  }

  function EditOf(io: Termios, s: Line): Edit {
    var n := Fence(io, s.hist, s.taken);
    Edit(s.hist[..n], s.hist[n..])
  }

  lemma RubOutEdits(io: Termios, s: Line)
    requires !AtBoundary(io, s)
    ensures RubOut(io, s).taken == s.taken
    ensures var e := EditOf(io, s);
            e.cur != [] && EditOf(io, RubOut(io, s)) == e.(cur := e.cur[..|e.cur| - 1])
  {
    hide EchoErase, EchoInsert;
    var n := |s.hist| - 1;
    EchoKeeps(io, s, s.hist[n]);
    var f := Fence(io, s.hist, s.taken);
    assert s.hist[..n][..f] == s.hist[..f];
    assert s.hist[..n][f..] == s.hist[f..][..n - f];
  }

  lemma {:induction false} KillEdits(io: Termios, s: Line)
    ensures EditOf(io, KillLine(io, s)) == EditOf(io, s).(cur := [])
    decreases |s.hist|
  {
    hide RubOut, EditOf;
    if AtBoundary(io, s) {
      BoundaryEdits(io, s);
    } else {
      RubOutEdits(io, s);
      KillEdits(io, RubOut(io, s));
    }
  }

  lemma BoundaryEdits(io: Termios, s: Line)
    ensures AtBoundary(io, s) <==> EditOf(io, s).cur == []
  {}

  lemma FenceInsert(io: Termios, hist: seq<char8>, taken: nat, c: char8)
    requires taken <= |hist|
    ensures Fence(io, hist + [c], taken) == if Mark(io, c) then |hist| + 1 else Fence(io, hist, taken)
  {
    assert (hist + [c])[..|hist|] == hist;
  }

  lemma InsertHist(io: Termios, s: Line, c: char8)
    ensures InsertChar(io, s, c).hist == s.hist + [c] && InsertChar(io, s, c).taken == s.taken
  {
    EchoKeeps(io, if Mark(io, c) then s.(data := s.data + 1) else s, c);
  }

  lemma InsertEdits(io: Termios, s: Line, c: char8)
    requires s.taken <= |s.hist|
    ensures var e := EditOf(io, s);
            EditOf(io, InsertChar(io, s, c)) ==
            if Mark(io, c) then Edit(e.done + e.cur + [c], []) else e.(cur := e.cur + [c])
  {
    hide EchoErase, EchoInsert, InsertChar, Fence, Mark;
    InsertHist(io, s, c);
    FenceInsert(io, s.hist, s.taken, c);
    var f := Fence(io, s.hist, s.taken);
    var h := s.hist + [c];
    if Mark(io, c) {
      assert h[..|h|] == h && h[|h|..] == [];
      assert s.hist[..f] + s.hist[f..] == s.hist;
    } else {
      assert h[..f] == s.hist[..f];
      assert h[f..] == s.hist[f..] + [c];
    }
  }

  /** One step of the ring and its echo is one step of the editor. */
  lemma StepEdits(io: Termios, s: Line, c: char8)
    requires s.taken <= |s.hist|
    ensures EditOf(io, Step(io, s, c)) == EditStep(io, EditOf(io, s), c)
  {
    hide EditOf, RubOut, KillLine, InsertChar, Classify, AtBoundary;
    match Classify(io, c)
    case Kill => KillEdits(io, s);
    case Erase =>
      BoundaryEdits(io, s);
      if !AtBoundary(io, s) {
        RubOutEdits(io, s);
      }
    case Insert(d) => InsertEdits(io, s, d);
    case Stop => SameEdit(io, s, Flush(s.(stopped := true)));
    case Start => SameEdit(io, s, Flush(s.(stopped := false)));
    case _ =>
  }

  lemma SameEdit(io: Termios, s: Line, t: Line)
    requires s.hist == t.hist && s.taken == t.taken
    ensures EditOf(io, s) == EditOf(io, t)
  {}

  /** For every input, the cooked queue is the fold of the editor over the characters taken. */
  lemma {:induction false} RunEdits(io: Termios, s: Line, input: seq<char8>)
    requires Valid(io, s)
    ensures var (s', rest) := Run(io, s, input);
            |rest| <= |input|
              && EditOf(io, s') == EditRun(io, EditOf(io, s), input[..|input| - |rest|])
    decreases |input|
  {
    hide Step, EditStep, EditOf, Valid;
    var (s', rest) := Run(io, s, input);
    RunKeeps(io, s, input);
    if input != [] && |s.hist| - s.taken < CAPACITY {
      ValidFits(io, s);
      StepKeeps(io, s, input[0]);
      StepEdits(io, s, input[0]);
      RunKeeps(io, Step(io, s, input[0]), input[1..]);
      RunEdits(io, Step(io, s, input[0]), input[1..]);
      assert input[..|input| - |rest|][1..] == input[1..][..|input| - 1 - |rest|];
    } else {
      assert input[..|input| - |rest|] == [];
    }
  }

  lemma ValidFits(io: Termios, s: Line)
    requires Valid(io, s)
    ensures Fits(s)
  {}

  /** No input ever changes a character at or before the last line end, or one that has been
      read. */
  lemma {:induction false} EditKeepsLines(io: Termios, e: Edit, input: seq<char8>)
    ensures e.done <= EditRun(io, e, input).done
    decreases |input|
  {
    hide Classify;
    if input != [] {
      EditKeepsLines(io, EditStep(io, e, input[0]), input[1..]);
    }
  }

  lemma RunKeepsLines(io: Termios, s: Line, input: seq<char8>, i: nat)
    requires Valid(io, s) && i < |s.hist|
    requires i < s.taken || exists j :: i <= j < |s.hist| && Mark(io, s.hist[j])
    ensures var s' := Run(io, s, input).0;
            i < |s'.hist| && s'.hist[i] == s.hist[i]
  {
    hide Run, EditRun;
    var (s', rest) := Run(io, s, input);
    RunEdits(io, s, input);
    EditKeepsLines(io, EditOf(io, s), input[..|input| - |rest|]);
    var f := Fence(io, s.hist, s.taken);
    assert i < f by {
      if s.taken <= i {
        var j :| i <= j < |s.hist| && Mark(io, s.hist[j]);
        assert j < f;
      }
    }
    assert EditOf(io, s).done[i] == s.hist[i];
  }

  // ----- Reading -----

  /** tty_read would sleep: nothing is queued or, in canonical mode, no line end is queued and
      the read queue is not full. */
  predicate Blocked(io: Termios, s: Line, readFull: bool)
    requires Fits(s)
  {
    Cooked(s) == [] || (io.icanon && !readFull && s.data == 0)
  }

  /** How many characters one burst of tty_read takes from the secondary queue. In canonical
      mode it never goes past a line end, and it stops for no other reason than a line end, an
      empty queue or a full buffer. */
  function Taken(io: Termios, cooked: seq<char8>, nr: nat): (k: nat)
    requires cooked != [] && nr > 0
    ensures 1 <= k <= |cooked| && k <= nr
    ensures io.icanon ==> forall i :: 0 <= i < k - 1 ==> !Mark(io, cooked[i])
    ensures k == nr || k == |cooked| || (io.icanon && Mark(io, cooked[k - 1]))
    decreases nr
  {
    if nr == 1 || |cooked| == 1 || (io.icanon && Mark(io, cooked[0])) then 1
    else
      var k' := Taken(io, cooked[1..], nr - 1);
      assert forall i :: 0 < i < k' ==> cooked[i] == cooked[1..][i - 1];
      k' + 1
  }

  /** What a burst hands to the caller: EOF is taken but not returned. */
  function Returned(io: Termios, chars: seq<char8>): seq<char8> {
    if io.icanon && chars != [] && Is(io.eof, chars[|chars| - 1]) then chars[..|chars| - 1] else chars
  }

  function Consume(io: Termios, s: Line, k: nat): Line
    requires Fits(s) && k <= |Cooked(s)|
  {
    s.(taken := s.taken + k, data := s.data - Marks(io, Cooked(s)[..k]))
  }

  lemma {:induction false} MarksAppend(io: Termios, a: seq<char8>, b: seq<char8>)
    ensures Marks(io, a + b) == Marks(io, a) + Marks(io, b)
    decreases |b|
  {
    if b == [] {
      assert a + b == a;
    } else {
      MarksAppend(io, a, b[..|b| - 1]);
      assert (a + b)[..|a + b| - 1] == a + b[..|b| - 1];
    }
  }

  /** Reading keeps data equal to the number of line ends queued. */
  lemma ConsumeKeeps(io: Termios, s: Line, k: nat)
    requires Valid(io, s) && k <= |Cooked(s)|
    ensures Valid(io, Consume(io, s, k))
    ensures Cooked(Consume(io, s, k)) == Cooked(s)[k..]
  {
    hide Marks;
    MarksAppend(io, Cooked(s)[..k], Cooked(s)[k..]);
    assert Cooked(s)[..k] + Cooked(s)[k..] == Cooked(s);
    assert Cooked(Consume(io, s, k)) == Cooked(s)[k..];
  }

  lemma ConsumeCooked(io: Termios, s: Line, k: nat)
    requires Fits(s) && k <= |Cooked(s)|
    ensures Cooked(Consume(io, s, k)) == Cooked(s)[k..]
  {}

  lemma ConsumeMore(io: Termios, s: Line, k: nat)
    requires Fits(s) && k < |Cooked(s)|
    ensures Fits(Consume(io, s, k)) && |Cooked(Consume(io, s, k))| >= 1
    ensures Consume(io, Consume(io, s, k), 1) == Consume(io, s, k + 1)
  {
    hide Marks;
    var c := Cooked(s);
    MarksAppend(io, c[..k], c[k..][..1]);
    assert c[..k] + c[k..][..1] == c[..k + 1];
    ConsumeCooked(io, s, k);
  }

  lemma ConsumeNone(io: Termios, s: Line)
    requires Fits(s)
    ensures Consume(io, s, 0) == s
  {}

  lemma ConsumeOne(io: Termios, s: Line)
    requires Fits(s) && Cooked(s) != []
    ensures var m := if Mark(io, Cooked(s)[0]) then 1 else 0;
            Consume(io, s, 1) == s.(taken := s.taken + 1, data := s.data - m)
  {
    var first := Cooked(s)[..1];
    assert first[..|first| - 1] == [] && first[|first| - 1] == Cooked(s)[0];
    assert Marks(io, first) == Marks(io, first[..|first| - 1]) + if Mark(io, Cooked(s)[0]) then 1 else 0;
  }

  /** One more character of a burst, the one at n. */
  lemma TakenMore(io: Termios, c: seq<char8>, n: nat, nr: nat)
    requires n < |c| && nr > 0
    ensures c[..n] + [c[n]] == c[..n + 1]
    ensures var last := nr == 1 || n + 1 == |c| || (io.icanon && Mark(io, c[n]));
            Taken(io, c[n..], nr) == if last then 1 else 1 + Taken(io, c[n + 1..], nr - 1)
    ensures Returned(io, c[..n + 1]) == if io.icanon && Is(io.eof, c[n]) then c[..n] else c[..n + 1]
  {
    hide Mark;
    assert c[..n + 1][..n] == c[..n];
    if n + 1 < |c| {
      assert c[n..][1..] == c[n + 1..];
    }
  }

  lemma {:induction false} SomeMark(io: Termios, s: seq<char8>) returns (i: nat)
    requires Marks(io, s) > 0
    ensures i < |s| && Mark(io, s[i])
    decreases |s|
  {
    i := |s| - 1;
    if !Mark(io, s[i]) {
      i := SomeMark(io, s[..i]);
    }
  }

  /** A canonical read that was let through because a line is waiting returns exactly that line,
      or as much of it as was asked for: no newline but as the last character, and no EOF. */
  lemma CanonicalRead(io: Termios, s: Line, nr: nat)
    requires Valid(io, s) && io.icanon && nr > 0 && !Blocked(io, s, false)
    ensures var k := Taken(io, Cooked(s), nr);
            k == nr || Mark(io, Cooked(s)[k - 1])
    ensures var r := Returned(io, Cooked(s)[..Taken(io, Cooked(s), nr)]);
            r <= Cooked(s) && |r| <= nr
              && forall i :: 0 <= i < |r| ==> !Is(io.eof, r[i]) && (r[i] == NL ==> i == |r| - 1)
  {
    hide Marks, Taken;
    var i := SomeMark(io, Cooked(s));
    var k := Taken(io, Cooked(s), nr);
    var c := Cooked(s)[..k];
    assert forall j :: 0 <= j < k - 1 ==> !Mark(io, c[j]) by {
      forall j | 0 <= j < k - 1 ensures !Mark(io, c[j]) {
        assert c[j] == Cooked(s)[j];
      }
    }
  }
}
