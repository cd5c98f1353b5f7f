/** The terminals of kernel/chr_drv/tty_io.c: three queues and the code that moves characters
    between them. */
module Tty {
  import opened Ring
  import L = LineDiscipline
  import Typing

  class TtyStruct {
    const termios: L.Termios
    const readQ: TtyQueue
    const writeQ: TtyQueue
    const secondary: TtyQueue
    var stopped: bool

    /** What the device has been given. */
    var out: seq<char8>

    ghost var hist: seq<char8>
    ghost var taken: nat
    ghost var lost: bool

    ghost function Queues(): set<object> {
      {readQ, writeQ, secondary, readQ.buf, writeQ.buf, secondary.buf}
    }

    ghost predicate Sound()
      reads this, Queues()
    {
      && readQ.Valid() && writeQ.Valid() && secondary.Valid()
      && readQ != writeQ && readQ != secondary && writeQ != secondary
      && readQ.buf != writeQ.buf && readQ.buf != secondary.buf && writeQ.buf != secondary.buf
      && taken <= |hist| && secondary.Contents() == hist[taken..]
    }

    ghost function View(): (v: L.Line)
      requires Sound()
      reads this, Queues()
      ensures L.Fits(v) && L.Cooked(v) == secondary.Contents()
    {
      L.Line(hist, taken, secondary.data, stopped, writeQ.Contents(), out, lost)
    }

    /** The read queue: input not yet looked at. */
    ghost function Typed(): (s: seq<char8>)
      requires Sound()
      reads this, Queues()
      ensures |s| <= CAPACITY
    {
      readQ.Contents()
    }

    predicate OutputEmpty()
      requires Sound()
      reads this, Queues()
      ensures OutputEmpty() <==> View().pending == []
    {
      writeQ.Empty()
    }

    predicate OutputFull()
      requires Sound()
      reads this, Queues()
      ensures OutputFull() <==> |View().pending| == CAPACITY
    {
      writeQ.Full()
    }

    predicate InputFull()
      requires Sound()
      reads this, Queues()
      ensures InputFull() <==> |Typed()| == CAPACITY
    {
      readQ.Full()
    }

    predicate CookedFull()
      requires Sound()
      reads this, Queues()
      ensures CookedFull() <==> |L.Cooked(View())| == CAPACITY
    {
      secondary.Full()
    }

    /** secondary->data is the number of line ends queued. */
    ghost predicate Valid()
      reads this, Queues()
    {
      Sound() && L.Valid(termios, View())
    }

    constructor (io: L.Termios)
      ensures Valid() && fresh(Queues()) && termios == io
      ensures View() == L.Line([], 0, 0, false, [], [], false) && Typed() == []
    {
      hide TtyQueue.Contents;
      termios := io;
      readQ := new TtyQueue();
      writeQ := new TtyQueue();
      secondary := new TtyQueue();
      stopped, out, hist, taken, lost := false, [], [], 0, false;
    }

    // ----- Output -----

    /** PUTCH(c, tty->write_q) */
    method Emit(c: char8)
      requires Sound()
      modifies this`lost, writeQ`head, writeQ.buf
      ensures Sound() && View() == L.Emit(old(View()), c)
    {
      hide TtyQueue.Contents;
      lost := lost || writeQ.Full();
      writeQ.PutCh(c);
    }

    /** tty->write(tty): the device takes what is queued unless output is stopped. */
    method Write()
      requires Sound()
      modifies this`out, writeQ`tail
      ensures Sound() && View() == L.Flush(old(View()))
    {
      hide TtyQueue.Contents;
      var nr := writeQ.Chars();
      while nr > 0 && !stopped
        invariant Sound() && nr == |writeQ.Contents()|
        invariant out + writeQ.Contents() == old(out + writeQ.Contents())
        invariant stopped ==> View() == old(View())
      {
        var c := writeQ.GetCh();
        out := out + [c];
        nr := nr - 1;
      }
    }

    // ----- copy_to_cooked -----

    method EchoErase(c: char8)
      requires Sound()
      modifies this`out, this`lost, writeQ, writeQ.buf
      ensures Sound() && View() == L.EchoErase(termios, old(View()), c)
    {
      hide TtyQueue.Contents;
      if termios.echo {
        if c < 32 {
          Emit(L.DEL);
        }
        Emit(L.DEL);
        Write();
      }
    }

    method EchoInsert(c: char8)
      requires Sound()
      modifies this`out, this`lost, writeQ, writeQ.buf
      ensures Sound() && View() == L.EchoInsert(termios, old(View()), c)
    {
      hide TtyQueue.Contents;
      if termios.echo {
        if c == L.NL {
          Emit(L.NL);
          Emit(L.CR);
        } else if c < 32 {
          if termios.echoctl {
            Emit(L.CARET);
            Emit(c + 64);
          }
        } else {
          Emit(c);
        }
        Write();
      }
    }

    /** Whether the character before the cursor may be erased. */
    method AtBoundary() returns (b: bool)
      requires Sound()
      ensures b == L.AtBoundary(termios, View())
    {
      hide TtyQueue.Contents;
      b := true;
      if !secondary.Empty() {
        var c := secondary.Last();
        b := c == 10 || (termios.eof != 0 && c == termios.eof);
      }
    }

    method RubOut()
      requires Sound() && !L.AtBoundary(termios, View())
      modifies this`out, this`lost, this`hist, writeQ, writeQ.buf, secondary`head
      ensures Sound() && View() == L.RubOut(termios, old(View()))
    {
      hide TtyQueue.Contents;
      EchoErase(secondary.Last());
      secondary.DropLast();
      hist := hist[..|hist| - 1];
    }

    method KillLine()
      requires Sound()
      modifies this`out, this`lost, this`hist, writeQ, writeQ.buf, secondary`head
      ensures Sound() && View() == L.KillLine(termios, old(View()))
    {
      hide TtyQueue.Contents, L.RubOut, L.AtBoundary;
      var stop := AtBoundary();
      while !stop
        invariant Sound() && stop == L.AtBoundary(termios, View())
        invariant L.KillLine(termios, View()) == L.KillLine(termios, old(View()))
        decreases |hist|
      {
        RubOut();
        stop := AtBoundary();
      }
    }

    method CountMark(c: char8)
      requires Sound()
      modifies secondary`data
      ensures Sound()
      ensures View() == if L.Mark(termios, c) then old(View()).(data := old(View()).data + 1) else old(View())
    {
      hide TtyQueue.Contents;
      if c == 10 || (termios.eof != 0 && c == termios.eof) {
        secondary.data := secondary.data + 1;
      }
    }

    /** PUTCH(c, tty->secondary), where there is room. */
    method Append(c: char8)
      requires Sound() && |secondary.Contents()| < CAPACITY
      modifies this`hist, secondary`head, secondary.buf
      ensures Sound() && View() == old(View()).(hist := old(hist) + [c])
    {
      hide TtyQueue.Contents;
      secondary.PutCh(c);
      hist := hist + [c];
    }

    method InsertChar(c: char8)
      requires Sound() && |L.Cooked(View())| < CAPACITY
      modifies this`out, this`lost, this`hist, writeQ, writeQ.buf, secondary, secondary.buf
      ensures Sound() && View() == L.InsertChar(termios, old(View()), c)
    {
      hide TtyQueue.Contents, Sound, L.EchoInsert, L.Mark;
      ghost var was := View();
      L.EchoKeeps(termios, if L.Mark(termios, c) then was.(data := was.data + 1) else was, c);
      CountMark(c);
      EchoInsert(c);
      Append(c);
    }

    /** KILL and ERASE, in canonical mode. */
    method EditLine(c: char8) returns (done: bool)
      requires Sound()
      modifies this`out, this`lost, this`hist, writeQ, writeQ.buf, secondary`head
      ensures Sound() && done == L.Edits(termios, c)
      ensures View() == if done then L.Act(termios, old(View()), L.ClassifyMapped(termios, c)) else old(View())
    {
      hide TtyQueue.Contents, L.RubOut, L.KillLine, L.AtBoundary;
      done := false;
      if termios.icanon {
        if termios.kill != 0 && c == termios.kill {
          KillLine();
          return true;
        }
        if termios.erase != 0 && c == termios.erase {
          var stop := AtBoundary();
          if !stop {
            RubOut();
          }
          return true;
        }
      }
    }

    /** Output flow control; the signals of ISIG are sent elsewhere. */
    method Control(c: char8) returns (done: bool)
      requires Sound() && !L.Edits(termios, c)
      modifies this`stopped, this`out, writeQ`tail
      ensures Sound() && done == !L.ClassifyMapped(termios, c).Insert?
      ensures View() == if done then L.Act(termios, old(View()), L.ClassifyMapped(termios, c)) else old(View())
    {
      hide TtyQueue.Contents, L.Edits;
      done := true;
      if termios.ixon {
        if termios.stop != 0 && c == termios.stop {
          stopped := true;
          Write();
          return;
        }
        if termios.start != 0 && c == termios.start {
          stopped := false;
          Write();
          return;
        }
      }
      if termios.isig {
        if termios.intr != 0 && c == termios.intr {
          return;
        }
        if termios.quit != 0 && c == termios.quit {
          return;
        }
        if termios.susp != 0 && c == termios.susp {
          return;
        }
      }
      done := false;
    }

    /** The loop body of copy_to_cooked, for one character out of the read queue. */
    method Cook(input: char8)
      requires Sound() && |L.Cooked(View())| < CAPACITY
      modifies this`stopped, this`out, this`lost, this`hist, writeQ, writeQ.buf, secondary, secondary.buf
      ensures Sound() && View() == L.Step(termios, old(View()), input)
    {
      hide TtyQueue.Contents, Sound, View, L.RubOut, L.KillLine, L.InsertChar, L.AtBoundary, L.Edits;
      var c := input;
      if c == 13 {
        if termios.icrnl {
          c := 10;
        } else if termios.igncr {
          return;
        }
      } else if c == 10 && termios.inlcr {
        c := 13;
      }
      if termios.iuclc {
        c := L.ToLower(c);
      }
      assert c == L.Mapped(termios, input) && !L.Ignored(termios, input);
      var done := EditLine(c);
      if !done {
        done := Control(c);
      }
      if !done {
        InsertChar(c);
      }
    }

    method CopyToCooked()
      requires Valid()
      modifies this, Queues()
      ensures Valid() && (View(), Typed()) == L.Run(termios, old(View()), old(Typed()))
      ensures taken == old(taken)
    {
      hide TtyQueue.Contents, L.Step, L.Marks;
      while !readQ.Empty() && !secondary.Full()
        invariant Valid() && taken == old(taken)
        invariant L.Run(termios, View(), Typed()) == L.Run(termios, old(View()), old(Typed()))
        decreases |readQ.Contents()|
      {
        ghost var input := readQ.Contents();
        var c := readQ.GetCh();
        L.StepKeeps(termios, View(), c);
        assert input[0] == c && input[1..] == readQ.Contents();
        Cook(c);
      }
    }

    // ----- tty_read -----

    method TakeChar() returns (c: char8)
      requires Sound() && L.Cooked(View()) != []
      modifies this`taken, secondary`data, secondary`tail
      ensures Sound() && Typed() == old(Typed()) && c == L.Cooked(old(View()))[0]
      ensures View() == L.Consume(termios, old(View()), 1)
    {
      hide TtyQueue.Contents, L.Marks, L.Consume;
      L.ConsumeOne(termios, View());
      ghost var was := secondary.Contents();
      c := secondary.GetCh();
      assert secondary.Contents() == was[1..] == hist[taken + 1..];
      taken := taken + 1;
      if (termios.eof != 0 && c == termios.eof) || c == 10 {
        secondary.data := secondary.data - 1;
      }
    }

    predicate Queued()
      requires Sound()
      reads this, Queues()
      ensures Queued() <==> L.Cooked(View()) != []
    {
      !secondary.Empty()
    }

    /** Nothing for tty_read to return yet. */
    predicate WouldSleep()
      requires Sound()
      reads this, Queues()
      ensures WouldSleep() <==> L.Blocked(termios, View(), |Typed()| == CAPACITY)
    {
      secondary.Empty() || (termios.icanon && !readQ.Full() && secondary.data == 0)
    }

    /** A line end is queued. */
    ghost predicate Waiting()
      requires Sound()
      reads this, Queues()
    {
      exists i :: 0 <= i < |L.Cooked(View())| && L.Mark(termios, L.Cooked(View())[i])
    }

    /** One call that does not sleep: it returns empty-handed where the source would sleep. */
    method Read(count: nat) returns (b: seq<char8>)
      requires Valid()
      modifies this`taken, secondary`data, secondary`tail
      ensures Valid() && Typed() == old(Typed())
      ensures count == 0 || old(WouldSleep()) ==> b == [] && View() == old(View())
      ensures count > 0 && !old(WouldSleep()) ==>
                var k := L.Taken(termios, L.Cooked(old(View())), count);
                b == L.Returned(termios, L.Cooked(old(View()))[..k])
                  && View() == L.Consume(termios, old(View()), k)
      ensures termios.icanon && count > 0 && old(Waiting()) ==> |L.Cooked(View())| < |old(L.Cooked(View()))|
    {
      hide TtyQueue.Contents, L.Marks, L.Consume, L.Cooked, Sound, View, Typed, WouldSleep;
      b := [];
      if termios.icanon {
        Typing.LineWaiting(termios, View(), |Typed()| == CAPACITY);
      }
      if count == 0 || WouldSleep() {
        return;
      }
      b := Burst(count);
      L.ConsumeKeeps(termios, old(View()), L.Taken(termios, L.Cooked(old(View())), count));
    }

    method Burst(count: nat) returns (b: seq<char8>)
      requires Sound() && count > 0 && L.Cooked(View()) != []
      modifies this`taken, secondary`data, secondary`tail
      ensures Sound() && Typed() == old(Typed())
      ensures var k := L.Taken(termios, L.Cooked(old(View())), count);
              b == L.Returned(termios, L.Cooked(old(View()))[..k])
                && View() == L.Consume(termios, old(View()), k)
    {
      hide TtyQueue.Contents, L.Marks, L.Consume, L.Cooked, L.Taken, L.Returned, Sound, View, Typed, Queued;
      b := [];
      var nr := count;
      ghost var s, n := View(), 0;
      L.ConsumeNone(termios, s);
      assert L.Cooked(s)[0..] == L.Cooked(s);
      while true
        invariant 0 <= n < |L.Cooked(s)| && nr == count - n > 0
        invariant b == L.Cooked(s)[..n]
        invariant Sound() && View() == L.Consume(termios, s, n) && Typed() == old(Typed())
        invariant L.Cooked(View()) == L.Cooked(s)[n..]
        invariant L.Taken(termios, L.Cooked(s), count) == n + L.Taken(termios, L.Cooked(s)[n..], nr)
        decreases nr
      {
        var c := TakeChar();
        assert c == L.Cooked(s)[n];
        L.TakenMore(termios, L.Cooked(s), n, nr);
        L.ConsumeMore(termios, s, n);
        n := n + 1;
        assert View() == L.Consume(termios, s, n);
        L.ConsumeCooked(termios, s, n);
        if termios.eof != 0 && c == termios.eof && termios.icanon {
          break;
        } else {
          b := b + [c];
          nr := nr - 1;
          if nr == 0 {
            break;
          }
        }
        if c == 10 && termios.icanon {
          break;
        }
        if !(nr > 0 && Queued()) {
          break;
        }
      }
    }
  }
}
