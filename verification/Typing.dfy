/** What typing does, told from the bytes and the terminal settings alone: the mappings of carriage
    return, newline and case, the editing characters, and a line typed at boot. */
module Typing {
  import opened Ring
  import opened LineDiscipline

  // ----- The mappings -----

  /** The settings without any mapping. */
  function Unmapped(io: Termios): Termios {
    io.(icrnl := false, igncr := false, inlcr := false, iuclc := false)
  }

  /** Past the mappings, they make no difference. */
  lemma {:induction false} KillUnmapped(io: Termios, s: Line)
    ensures KillLine(io, s) == KillLine(Unmapped(io), s)
    decreases |s.hist|
  {
    hide EchoErase;
    if !AtBoundary(io, s) {
      assert RubOut(io, s) == RubOut(Unmapped(io), s) by { EraseUnmapped(io, s, s.hist[|s.hist| - 1]); }
      KillUnmapped(io, RubOut(io, s));
    }
  }

  lemma EraseUnmapped(io: Termios, s: Line, c: char8)
    ensures EchoErase(io, s, c) == EchoErase(Unmapped(io), s, c)
    ensures EchoInsert(io, s, c) == EchoInsert(Unmapped(io), s, c)
  {}

  lemma ActUnmapped(io: Termios, s: Line, action: Action)
    ensures Act(io, s, action) == Act(Unmapped(io), s, action)
  {
    hide EchoErase, EchoInsert, KillLine;
    match action
    case Kill => KillUnmapped(io, s);
    case Erase =>
      if !AtBoundary(io, s) {
        EraseUnmapped(io, s, s.hist[|s.hist| - 1]);
      }
    case Insert(c) => EraseUnmapped(io, if Mark(io, c) then s.(data := s.data + 1) else s, c);
    case _ =>
  }

  lemma {:induction false} EditUnmapped(io: Termios, hist: seq<char8>, taken: nat)
    ensures Fence(io, hist, taken) == Fence(Unmapped(io), hist, taken)
    decreases |hist|
  {
    if |hist| > taken && !Mark(io, hist[|hist| - 1]) {
      EditUnmapped(io, hist[..|hist| - 1], taken);
    }
  }

  /** For all settings: what each byte does is what the byte it is mapped to does without mappings.
      With ICRNL a carriage return is a newline, and otherwise IGNCR drops it; with INLCR a newline
      typed as such is a carriage return; with IUCLC capitals are small; nothing else is mapped. */
  lemma ByteMapped(io: Termios, s: Line, c: char8)
    ensures c == 13 && io.icrnl ==> Step(io, s, c) == Step(Unmapped(io), s, 10)
    ensures c == 13 && !io.icrnl && io.igncr ==> Step(io, s, c) == s
    ensures c == 13 && !io.icrnl && !io.igncr ==> Step(io, s, c) == Step(Unmapped(io), s, 13)
    ensures c == 10 ==> Step(io, s, c) == Step(Unmapped(io), s, if io.inlcr then 13 else 10)
    ensures 65 <= c <= 90 ==> Step(io, s, c) == Step(Unmapped(io), s, if io.iuclc then c + 32 else c)
    ensures c != 10 && c != 13 && !(65 <= c <= 90) ==> Step(io, s, c) == Step(Unmapped(io), s, c)
  {
    hide Act;
    if !(c == 13 && !io.icrnl && io.igncr) {
      ActUnmapped(io, s, Classify(io, c));
    } else {
      assert Step(io, s, c) == s by { DropKeeps(io, s); }
    }
  }

  lemma DropKeeps(io: Termios, s: Line)
    ensures Act(io, s, Drop) == s
  {}

  /** So under ICRNL a carriage return does exactly what a newline does where INLCR is off. */
  lemma ReturnIsNewline(io: Termios, s: Line)
    requires io.icrnl
    ensures Step(io, s, 13) == Step(io.(inlcr := false), s, 10)
  {
    hide Step;
    ByteMapped(io, s, 13);
    ByteMapped(io.(inlcr := false), s, 10);
  }

  // ----- The characters of the settings -----

  /** An editing, flow control or signal character in force under these settings. */
  predicate Special(io: Termios, c: char8) {
    || (io.icanon && ((io.kill != 0 && c == io.kill) || (io.erase != 0 && c == io.erase)))
    || (io.ixon && ((io.stop != 0 && c == io.stop) || (io.start != 0 && c == io.start)))
    || (io.isig && ((io.intr != 0 && c == io.intr) || (io.quit != 0 && c == io.quit)
                    || (io.susp != 0 && c == io.susp)))
  }

  /** Without mappings, for every byte and all settings. KILL empties the line being typed, and
      ERASE takes its last character; of the rest, flow control and signal characters leave the
      queue alone, and every other byte joins it, counted where it ends a line. */
  lemma ByteDoes(io: Termios, s: Line, c: char8)
    requires io == Unmapped(io) && s.taken <= |s.hist|
    ensures var e, t := EditOf(io, s), Step(io, s, c);
            var kill, erase := io.kill != 0 && c == io.kill, io.erase != 0 && c == io.erase;
            && t.taken == s.taken
            && (io.icanon && kill ==> EditOf(io, t) == e.(cur := []))
            && (io.icanon && erase && !kill ==>
                  EditOf(io, t) == if e.cur == [] then e else e.(cur := e.cur[..|e.cur| - 1]))
            && (io.icanon && (kill || erase) ==> t.data == s.data && t.stopped == s.stopped)
    ensures Special(io, c) && !(io.icanon && (Is(io.kill, c) || Is(io.erase, c))) ==>
              Step(io, s, c).hist == s.hist && Step(io, s, c).data == s.data
    ensures !Special(io, c) ==>
              && Step(io, s, c).hist == s.hist + [c] && Step(io, s, c).stopped == s.stopped
              && Step(io, s, c).data == s.data + if c == 10 || (io.eof != 0 && c == io.eof) then 1 else 0
  {
    hide EditOf, InsertChar, KillLine, RubOut, AtBoundary;
    if io.icanon && (Is(io.kill, c) || Is(io.erase, c)) {
      EditKeys(io, s, c);
    } else {
      Inserted(io, s, c);
    }
  }

  lemma EditKeys(io: Termios, s: Line, c: char8)
    requires io == Unmapped(io) && s.taken <= |s.hist| && io.icanon && (Is(io.kill, c) || Is(io.erase, c))
    ensures var e, t := EditOf(io, s), Step(io, s, c);
            && EditOf(io, t) == (if Is(io.kill, c) then e.(cur := [])
                                 else if e.cur == [] then e else e.(cur := e.cur[..|e.cur| - 1]))
            && t.data == s.data && t.stopped == s.stopped && t.taken == s.taken
  {
    hide EditOf, EchoErase, EchoInsert, InsertChar, KillLine;
    StepEdits(io, s, c);
    KillCount(io, s);
    if !AtBoundary(io, s) {
      EchoKeeps(io, s, s.hist[|s.hist| - 1]);
    }
  }

  lemma Inserted(io: Termios, s: Line, c: char8)
    ensures var t := InsertChar(io, s, c);
            && t.hist == s.hist + [c] && t.stopped == s.stopped && t.taken == s.taken
            && t.data == s.data + if c == 10 || (io.eof != 0 && c == io.eof) then 1 else 0
  {
    hide EchoErase, EchoInsert;
    EchoKeeps(io, if Mark(io, c) then s.(data := s.data + 1) else s, c);
  }

  lemma {:induction false} KillCount(io: Termios, s: Line)
    ensures var t := KillLine(io, s);
            t.data == s.data && t.taken == s.taken && t.stopped == s.stopped
    decreases |s.hist|
  {
    hide EchoErase;
    if !AtBoundary(io, s) {
      EchoKeeps(io, s, s.hist[|s.hist| - 1]);
      KillCount(io, RubOut(io, s));
    }
  }

  /** STOP and START switch the output where IXON is set; signal characters change nothing. */
  lemma FlowControl(io: Termios, s: Line, c: char8)
    requires io == Unmapped(io) && !(io.icanon && (Is(io.kill, c) || Is(io.erase, c)))
    ensures io.ixon && io.stop != 0 && c == io.stop ==> Step(io, s, c) == s.(stopped := true)
    ensures io.ixon && io.start != 0 && c == io.start && c != io.stop ==>
              Step(io, s, c) == s.(stopped := false, out := s.out + s.pending, pending := [])
    ensures Special(io, c) && !(io.ixon && (Is(io.stop, c) || Is(io.start, c))) ==> Step(io, s, c) == s
  {}

  /** Without ECHO typing sends nothing to the device. */
  lemma Silent(io: Termios, s: Line, c: char8)
    requires !io.echo
    ensures var t := Step(io, s, c);
            t.out + t.pending == s.out + s.pending && t.lost == s.lost
  {
    hide KillLine, Classify;
    KillSilent(io, s);
    assert s.out + s.pending + [] == s.out + s.pending;
  }

  lemma {:induction false} KillSilent(io: Termios, s: Line)
    requires !io.echo
    ensures var t := KillLine(io, s);
            t.out == s.out && t.pending == s.pending && t.lost == s.lost
    decreases |s.hist|
  {
    if !AtBoundary(io, s) {
      KillSilent(io, RubOut(io, s));
    }
  }

  // ----- A line at boot -----

  /** Printable characters typed on a console stand in the queue as they are. */
  lemma {:induction false} Printed(s: Line, text: seq<char8>)
    requires s.taken <= |s.hist| && |s.hist| - s.taken + |text| <= CAPACITY
    requires forall i :: 0 <= i < |text| ==> 32 <= text[i] < 127
    ensures var (t, rest) := Run(CONSOLE, s, text);
            rest == [] && t.hist == s.hist + text && t.taken == s.taken && t.data == s.data
    decreases |text|
  {
    hide Step, EditOf, EditStep;
    if text != [] {
      ByteMapped(CONSOLE, s, text[0]);
      AtConsole(s, text[0]);
      Printed(Step(CONSOLE, s, text[0]), text[1..]);
      assert s.hist + [text[0]] + text[1..] == s.hist + text;
    }
  }

  lemma AtConsole(s: Line, c: char8)
    requires s.taken <= |s.hist| && (32 <= c < 127 || c == 13)
    ensures var t := Step(CONSOLE, s, c);
            && t.hist == s.hist + [if c == 13 then 10 else c] && t.taken == s.taken
            && t.data == s.data + if c == 13 then 1 else 0
  {
    hide Step, EditOf;
    ByteMapped(CONSOLE, s, c);
    ByteDoes(Unmapped(CONSOLE), s, if c == 13 then 10 else c);
  }

  /** A printable line and Enter, typed on a console where all lines have been read, wake the
      reader: it is returned as it was typed, with the newline that Enter stands for. */
  lemma LineAtBoot(s: Line, text: seq<char8>, count: nat)
    requires Valid(CONSOLE, s) && Cooked(s) == [] && |text| < CAPACITY
    requires forall i :: 0 <= i < |text| ==> 32 <= text[i] < 127
    ensures var (t, rest) := Run(CONSOLE, s, text + [13]);
            && rest == [] && Valid(CONSOLE, t) && Cooked(t) == text + [10] && t.data == 1
            && !Blocked(CONSOLE, t, false)
            && (count > |text| ==> Returned(CONSOLE, Cooked(t)[..Taken(CONSOLE, Cooked(t), count)]) == text + [10])
  {
    hide Step, Run, Taken, Marks, Returned;
    Printed(s, text);
    RunAppend(CONSOLE, s, text, [13]);
    assert [] + [13] == [13 as char8];
    var u := Run(CONSOLE, s, text).0;
    AtConsole(u, 13);
    OneStep(u, 13);
    RunKeeps(CONSOLE, s, text + [13]);
    var t := Run(CONSOLE, s, text + [13]).0;
    assert Cooked(t) == text + [10];
    NoMarks(CONSOLE, s);
    if count > |text| {
      WholeLine(text, count);
    }
  }

  lemma NoMarks(io: Termios, s: Line)
    requires Valid(io, s) && Cooked(s) == []
    ensures s.data == 0
  {}

  lemma OneStep(s: Line, c: char8)
    requires |s.hist| - s.taken < CAPACITY
    ensures Run(CONSOLE, s, [c]) == (Step(CONSOLE, s, c), [])
  {
    hide Step;
    RunNothing(CONSOLE, Step(CONSOLE, s, c));
    assert [c][1..] == [];
  }

  lemma WholeLine(text: seq<char8>, count: nat)
    requires count > |text| && forall i :: 0 <= i < |text| ==> 32 <= text[i] < 127
    ensures Returned(CONSOLE, (text + [10])[..Taken(CONSOLE, text + [10], count)]) == text + [10]
  {
    hide Taken;
    var line: seq<char8> := text + [10];
    var k := Taken(CONSOLE, line, count);
    assert forall i :: 0 <= i < |text| ==> !Mark(CONSOLE, line[i]);
    assert k == |line|;
  }

  // ----- A waiting line is returned -----

  lemma {:induction false} MarkCounts(io: Termios, s: seq<char8>, i: nat)
    requires i < |s| && Mark(io, s[i])
    ensures Marks(io, s) > 0
  {
    if i < |s| - 1 {
      MarkCounts(io, s[..|s| - 1], i);
    }
  }

  /** In canonical mode a line end in the queue is enough for a read not to sleep, whatever the
      state of the read queue, and it takes at least one character; without one it sleeps unless
      the read queue is full and something is queued. */
  lemma LineWaiting(io: Termios, s: Line, readFull: bool)
    requires Valid(io, s) && io.icanon
    ensures (exists i :: 0 <= i < |Cooked(s)| && Mark(io, Cooked(s)[i])) ==> !Blocked(io, s, readFull)
    ensures (forall i :: 0 <= i < |Cooked(s)| ==> !Mark(io, Cooked(s)[i])) ==>
              (Blocked(io, s, readFull) <==> Cooked(s) == [] || !readFull)
  {
    hide Marks, Mark;
    if i :| 0 <= i < |Cooked(s)| && Mark(io, Cooked(s)[i]) {
      MarkCounts(io, Cooked(s), i);
    } else if Marks(io, Cooked(s)) > 0 {
      var j := SomeMark(io, Cooked(s));
    }
  }
}
