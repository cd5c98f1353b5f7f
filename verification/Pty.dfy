/** Pseudo terminals (kernel/chr_drv/pty.c): what is written on one end is input on the other. */
module Pty {
  import opened Ring
  import opened Tty
  import L = LineDiscipline

  /** A receiving end that sends nothing back while it cooks its input. */
  predicate Quiet(io: L.Termios) {
    !io.echo && !io.ixon
  }

  /** A receiving end that passes every character through unchanged. */
  predicate Raw(io: L.Termios) {
    Quiet(io) && !io.icanon && !io.isig && !io.icrnl && !io.igncr && !io.inlcr && !io.iuclc
  }

  ghost predicate Ends(from: TtyStruct, to: TtyStruct)
    reads from, from.Queues(), to, to.Queues()
  {
    Apart(from, to) && from.Valid() && to.Valid()
  }

  ghost predicate Apart(from: TtyStruct, to: TtyStruct) {
    from != to && from !in to.Queues() && to !in from.Queues() && from.Queues() !! to.Queues()
  }

  method MoveChar(from: TtyStruct, to: TtyStruct)
    requires Ends(from, to) && from.View().pending != [] && |to.Typed()| < CAPACITY
    modifies from.writeQ`tail, to.readQ`head, to.readQ.buf
    ensures Ends(from, to) && to.View() == old(to.View())
    ensures from.View() == old(from.View()).(pending := old(from.View()).pending[1..])
    ensures to.Typed() == old(to.Typed()) + [old(from.View()).pending[0]]
  {
    hide TtyQueue.Contents;
    var c := from.writeQ.GetCh();
    to.readQ.PutCh(c);
  }

  /** PUTCH(c, tty->write_q), with room left. */
  method PutChar(from: TtyStruct, to: TtyStruct, c: char8)
    requires Ends(from, to) && |from.View().pending| < CAPACITY
    modifies from.writeQ`head, from.writeQ.buf
    ensures Ends(from, to) && to.View() == old(to.View()) && to.Typed() == old(to.Typed())
    ensures from.View() == old(from.View()).(pending := old(from.View()).pending + [c])
  {
    hide TtyQueue.Contents;
    from.writeQ.PutCh(c);
  }

  method CookInput(from: TtyStruct, to: TtyStruct)
    requires Ends(from, to) && Quiet(to.termios)
    modifies to, to.Queues()
    ensures Ends(from, to) && from.View() == old(from.View()) && from.stopped == old(from.stopped)
    ensures to.taken == old(to.taken)
    ensures (to.View(), to.Typed()) == L.Run(to.termios, old(to.View()), old(to.Typed()))
    ensures |old(to.Typed())| == CAPACITY && |L.Cooked(old(to.View()))| < CAPACITY ==> |to.Typed()| < CAPACITY
    ensures |L.Cooked(old(to.View()))| == CAPACITY ==> to.View() == old(to.View()) && to.Typed() == old(to.Typed())
  {
    hide TtyQueue.Contents, TtyStruct.View, TtyStruct.Sound, TtyStruct.Typed, L.Run, L.Valid;
    ghost var here, queued := to.View(), to.Typed();
    if queued != [] {
      L.RunTakes(to.termios, here, queued);
    } else {
      L.RunNothing(to.termios, here);
    }
    to.CopyToCooked();
  }

  /** Moves output of one end into the read queue of the other, cooking it on the way, until it
      runs out, the writer is stopped, a signal is pending or the reader has no room anywhere.
      k is the number of characters moved. */
  method PtyCopy(from: TtyStruct, to: TtyStruct, signalled: bool) returns (ghost k: nat)
    requires Ends(from, to) && Quiet(to.termios)
    modifies from.writeQ, to, to.Queues()
    ensures Ends(from, to) && to.taken == old(to.taken)
    ensures k <= |old(from.View()).pending|
    ensures from.View() == old(from.View()).(pending := old(from.View()).pending[k..])
    ensures (to.View(), to.Typed()) ==
            L.Run(to.termios, old(to.View()), old(to.Typed()) + old(from.View()).pending[..k])
    ensures k == |old(from.View()).pending| || from.stopped || (signalled && k == 1)
              || (|to.Typed()| == CAPACITY && |L.Cooked(to.View())| == CAPACITY)
  {
    hide TtyQueue.Contents, TtyStruct.View, TtyStruct.Sound, TtyStruct.Typed, L.Run, L.Valid, Apart;
    k := 0;
    ghost var s, input, pend := to.View(), to.Typed(), from.View().pending;
    assert input + pend[..0] == input;
    while !from.stopped && !from.OutputEmpty()
      invariant Ends(from, to) && k <= |pend| && to.taken == old(to.taken)
      invariant from.View() == old(from.View()).(pending := pend[k..])
      invariant L.Run(to.termios, to.View(), to.Typed()) == L.Run(to.termios, s, input + pend[..k])
      invariant signalled ==> k == 0
      decreases |from.View().pending|, if to.InputFull() then 1 else 0
    {
      ghost var here, queued := to.View(), to.Typed();
      if to.InputFull() {
        if to.CookedFull() {
          break;
        }
        CookInput(from, to);
        Again(to.termios, here, queued);
        continue;
      }
      MoveChar(from, to);
      OneMore(to.termios, here, queued, s, input, pend, k);
      k := k + 1;
      if signalled {
        break;
      }
    }
    ghost var here, queued := to.View(), to.Typed();
    CookInput(from, to);
    Again(to.termios, here, queued);
  }

  /** Cooking twice is cooking once. */
  lemma Again(io: L.Termios, s: L.Line, input: seq<char8>)
    ensures var (s', rest) := L.Run(io, s, input);
            L.Run(io, s', rest) == (s', rest)
  {
    L.RunAppend(io, s, input, []);
    assert input + [] == input;
    assert L.Run(io, s, input).1 + [] == L.Run(io, s, input).1;
  }

  lemma OneMore(io: L.Termios, here: L.Line, queued: seq<char8>, s: L.Line, input: seq<char8>, pend: seq<char8>, k: nat)
    requires k < |pend| && L.Run(io, here, queued) == L.Run(io, s, input + pend[..k])
    ensures L.Run(io, here, queued + [pend[k]]) == L.Run(io, s, input + pend[..k + 1])
  {
    hide L.Run;
    L.RunAppend(io, here, queued, [pend[k]]);
    L.RunAppend(io, s, input + pend[..k], [pend[k]]);
    assert input + pend[..k + 1] == input + pend[..k] + [pend[k]];
  }

  method ReadInput(from: TtyStruct, to: TtyStruct, count: nat) returns (b: seq<char8>)
    requires Ends(from, to) && !to.termios.icanon
    modifies to`taken, to.secondary`data, to.secondary`tail
    ensures Ends(from, to) && from.View() == old(from.View()) && from.stopped == old(from.stopped)
    ensures to.Typed() == old(to.Typed()) && |b| <= count
    ensures b + L.Cooked(to.View()) == L.Cooked(old(to.View()))
    ensures count > 0 && L.Cooked(old(to.View())) != [] ==> b != []
  {
    hide TtyQueue.Contents, TtyStruct.View, TtyStruct.Sound, TtyStruct.Typed, L.Marks;
    b := to.Read(count);
  }

  // ----- The raw pipeline -----

  lemma StepRaw(io: L.Termios, s: L.Line, c: char8)
    requires Raw(io)
    ensures var t := L.Step(io, s, c);
            t == s.(hist := s.hist + [c], data := t.data)
  {}

  /** A raw reader cooks nothing: characters only move on. */
  lemma {:induction false} RunRaw(io: L.Termios, s: L.Line, input: seq<char8>)
    requires Raw(io)
    ensures var (t, rest) := L.Run(io, s, input);
            t == s.(hist := t.hist, data := t.data) && t.hist + rest == s.hist + input && s.hist <= t.hist
    decreases |input|
  {
    hide L.Step, Raw;
    if input != [] && |s.hist| - s.taken < CAPACITY {
      var t := L.Step(io, s, input[0]);
      StepRaw(io, s, input[0]);
      RunRaw(io, t, input[1..]);
      assert t.hist + input[1..] == s.hist + input;
    }
  }

  lemma RunRawCooked(io: L.Termios, s: L.Line, input: seq<char8>)
    requires Raw(io) && L.Valid(io, s)
    ensures var (t, rest) := L.Run(io, s, input);
            L.Fits(t) && L.Cooked(t) + rest == L.Cooked(s) + input
  {
    hide L.Run, L.Marks, Raw;
    RunRaw(io, s, input);
    L.RunKeeps(io, s, input);
    var (t, rest) := L.Run(io, s, input);
    assert (t.hist + rest)[s.taken..] == t.hist[s.taken..] + rest;
    assert (s.hist + input)[s.taken..] == s.hist[s.taken..] + input;
  }

  lemma Recount(cooked: seq<char8>, cooked': seq<char8>, rest: seq<char8>, input: seq<char8>, pend: seq<char8>, k: nat)
    requires k <= |pend| && cooked' + rest == cooked + (input + pend[..k])
    ensures cooked' + rest + pend[k..] == cooked + input + pend
  {
    assert pend == pend[..k] + pend[k..];
    assert cooked + (input + pend[..k]) + pend[k..] == cooked + input + pend;
  }

  lemma ComesNext(got: seq<char8>, b: seq<char8>, left: seq<char8>, cooked: seq<char8>,
                  typed: seq<char8>, pend: seq<char8>)
    requires b + left == cooked
    ensures b <= cooked + typed + pend
    ensures got + (cooked + typed + pend) == got + b + (left + typed + pend)
  {}

  datatype Step = DoWrite(bytes: seq<char8>) | DoRead(count: nat)

  /** The count tty_write returns, or what tty_read has put into the caller's buffer. */
  datatype Reply = Accepted(n: nat) | Returned(b: seq<char8>)

  predicate Answer(step: Step, reply: Reply) {
    match step
    case DoWrite(bytes) => reply.Accepted? && reply.n <= |bytes|
    case DoRead(count) => reply.Returned? && |reply.b| <= count
  }

  predicate Answers(steps: seq<Step>, replies: seq<Reply>) {
    |steps| == |replies| && forall i :: 0 <= i < |steps| ==> Answer(steps[i], replies[i])
  }

  function TakenFrom(step: Step, reply: Reply): (s: seq<char8>)
    requires Answer(step, reply)
  {
    if step.DoWrite? then step.bytes[..reply.n] else []
  }

  function GivenBy(reply: Reply): (s: seq<char8>) {
    if reply.Returned? then reply.b else []
  }

  /** The bytes the writes accepted, one write after the other. */
  function Sent(steps: seq<Step>, replies: seq<Reply>): (s: seq<char8>)
    requires Answers(steps, replies)
  {
    if steps == [] then [] else
      var last := |steps| - 1;
      Sent(steps[..last], replies[..last]) + TakenFrom(steps[last], replies[last])
  }

  /** The bytes the reads returned, one read after the other. */
  function Got(replies: seq<Reply>): (s: seq<char8>) {
    if replies == [] then [] else
      var last := |replies| - 1;
      Got(replies[..last]) + GivenBy(replies[last])
  }

  lemma AnswersMore(steps: seq<Step>, replies: seq<Reply>, step: Step, reply: Reply)
    requires Answers(steps, replies) && Answer(step, reply)
    ensures Answers(steps + [step], replies + [reply])
    ensures Sent(steps + [step], replies + [reply]) == Sent(steps, replies) + TakenFrom(step, reply)
    ensures Got(replies + [reply]) == Got(replies) + GivenBy(reply)
  {
    hide TakenFrom, GivenBy;
    var more, answered := steps + [step], replies + [reply];
    assert more[..|steps|] == steps && answered[..|replies|] == replies;
  }

  /** One direction of a pseudo terminal pair: from is written by tty_write, to is read by
      tty_read. */
  class Pipe {
    const from: TtyStruct
    const to: TtyStruct
    ghost var accepted: seq<char8>
    ghost var returned: seq<char8>

    /** The characters on their way, the oldest first. */
    ghost function InFlight(): seq<char8>
      requires Ends(from, to)
      reads from, from.Queues(), to, to.Queues()
    {
      L.Cooked(to.View()) + to.Typed() + from.View().pending
    }

    /** Nothing is lost, duplicated or reordered. */
    ghost predicate Valid()
      reads this, from, from.Queues(), to, to.Queues()
    {
      Ends(from, to) && Raw(to.termios) && accepted == returned + InFlight()
    }

    constructor (writer: L.Termios, reader: L.Termios)
      requires Raw(reader)
      ensures Valid() && accepted == [] && returned == []
      ensures fresh(from) && fresh(to) && fresh(from.Queues()) && fresh(to.Queues())
    {
      hide TtyQueue.Contents, TtyStruct.View, TtyStruct.Sound, TtyStruct.Typed, TtyStruct.Valid;
      from := new TtyStruct(writer);
      to := new TtyStruct(reader);
      accepted, returned := [], [];
    }

    method Copy() returns (ghost k: nat)
      requires Valid()
      modifies from.writeQ, to, to.Queues()
      ensures Valid() && InFlight() == old(InFlight())
      ensures to.Typed() == [] || |L.Cooked(to.View())| == CAPACITY
      ensures from.View().pending == [] || from.stopped || |L.Cooked(to.View())| == CAPACITY
    {
      hide TtyQueue.Contents, TtyStruct.View, TtyStruct.Sound, TtyStruct.Typed, L.Run, L.Valid, L.Cooked, Apart;
      ghost var s, input, pend := to.View(), to.Typed(), from.View().pending;
      k := PtyCopy(from, to, false);
      L.RunKeeps(to.termios, s, input + pend[..k]);
      RunRawCooked(to.termios, s, input + pend[..k]);
      Recount(L.Cooked(s), L.Cooked(to.View()), to.Typed(), input, pend, k);
    }

    method Accept(c: char8)
      requires Valid() && |from.View().pending| < CAPACITY
      modifies this`accepted, from.writeQ`head, from.writeQ.buf
      ensures Valid() && accepted == old(accepted) + [c]
    {
      hide TtyQueue.Contents, TtyStruct.View, TtyStruct.Sound, TtyStruct.Typed, TtyStruct.Valid, L.Cooked;
      ghost var flight := InFlight();
      PutChar(from, to, c);
      assert InFlight() == flight + [c];
      accepted := accepted + [c];
      assert InFlight() == flight + [c];
    }

    /** The inner loop of tty_write. */
    method Fill(bytes: seq<char8>, start: nat) returns (n: nat)
      requires Valid() && start < |bytes| && |from.View().pending| < CAPACITY
      modifies this`accepted, from.writeQ`head, from.writeQ.buf
      ensures Valid() && start < n <= |bytes| && accepted == old(accepted) + bytes[start..n]
    {
      hide TtyQueue.Contents, TtyStruct.View, TtyStruct.Sound, TtyStruct.Typed, L.Valid, Apart, InFlight;
      n := start;
      while n < |bytes| && !from.OutputFull()
        invariant Valid() && start <= n <= |bytes| && accepted == old(accepted) + bytes[start..n]
        invariant n == start ==> |from.View().pending| < CAPACITY
      {
        Accept(bytes[n]);
        n := n + 1;
      }
    }

    /** tty_write without output processing: it gives up where the source would sleep. */
    method Write(bytes: seq<char8>) returns (n: nat)
      requires Valid()
      modifies this`accepted, from.writeQ, from.writeQ.buf, to, to.Queues()
      ensures Valid() && n <= |bytes|
      ensures accepted == old(accepted) + bytes[..n]
      ensures n == |bytes| || |from.View().pending| == CAPACITY
    {
      hide TtyQueue.Contents, TtyStruct.View, TtyStruct.Sound, TtyStruct.Typed, L.Valid, Apart, InFlight;
      n := 0;
      while n < |bytes| && !from.OutputFull()
        invariant Valid() && n <= |bytes| && accepted == old(accepted) + bytes[..n]
      {
        ghost var start := n;
        n := Fill(bytes, n);
        assert bytes[..n] == bytes[..start] + bytes[start..n];
        assert accepted == old(accepted) + bytes[..n];
        ghost var k := Copy();
      }
    }

    /** tty_read: what it returns comes next in the order of writing, and it returns something
        whenever anything at all is on its way. */
    method Read(count: nat) returns (b: seq<char8>)
      requires Valid()
      modifies this`returned, from.writeQ, to, to.Queues()
      ensures Valid() && returned == old(returned) + b && |b| <= count
      ensures b <= old(InFlight())
      ensures count > 0 && !from.stopped && old(InFlight()) != [] ==> b != []
    {
      hide TtyQueue.Contents, TtyStruct.View, TtyStruct.Sound, TtyStruct.Typed, L.Valid, L.Cooked, Apart;
      ghost var k := Copy();
      ghost var cooked := L.Cooked(to.View());
      b := ReadInput(from, to, count);
      ComesNext(returned, b, L.Cooked(to.View()), cooked, to.Typed(), from.View().pending);
      assert this !in from.Queues() && this !in to.Queues();
      returned := returned + b;
    }

    /** Whatever was written and read, what was returned is exactly the beginning of what was
        accepted, and at most three queues are in between. */
    lemma Fifo()
      requires Valid()
      ensures returned <= accepted && |accepted| <= |returned| + 3 * CAPACITY
    {
      hide TtyQueue.Contents;
      assert accepted[..|returned|] == returned;
    }

    /** One call. */
    method Serve(step: Step) returns (reply: Reply)
      requires Valid()
      modifies this`accepted, this`returned, from.writeQ, from.writeQ.buf, to, to.Queues()
      ensures Valid() && Answer(step, reply)
      ensures accepted == old(accepted) + TakenFrom(step, reply)
      ensures returned == old(returned) + GivenBy(reply)
    {
      hide TtyQueue.Contents, TtyStruct.View, TtyStruct.Sound, TtyStruct.Typed, L.Valid, L.Cooked, Apart, Valid;
      match step {
        case DoWrite(bytes) =>
          var n := Write(bytes);
          return Accepted(n);
        case DoRead(count) =>
          var b := Read(count);
          return Returned(b);
      }
    }

    /** Writes and reads in any order. */
    method Run(steps: seq<Step>) returns (replies: seq<Reply>)
      requires Valid()
      modifies this`accepted, this`returned, from.writeQ, from.writeQ.buf, to, to.Queues()
      ensures Valid() && Answers(steps, replies)
      ensures accepted == old(accepted) + Sent(steps, replies)
      ensures returned == old(returned) + Got(replies)
    {
      hide TtyQueue.Contents, TtyStruct.View, TtyStruct.Sound, TtyStruct.Typed, L.Valid, L.Cooked, Apart, Valid;
      hide Answer, TakenFrom, GivenBy;
      replies := [];
      for n := 0 to |steps|
        invariant Valid() && Answers(steps[..n], replies)
        invariant accepted == old(accepted) + Sent(steps[..n], replies)
        invariant returned == old(returned) + Got(replies)
      {
        var reply := Serve(steps[n]);
        AnswersMore(steps[..n], replies, steps[n], reply);
        assert steps[..n + 1] == steps[..n] + [steps[n]];
        replies := replies + [reply];
      }
      assert steps[..|steps|] == steps;
    }
  }

  /** A new pipe, written and read in any order: the bytes the reads return, one after the other,
      are the beginning of the bytes the writes accepted, one after the other. */
  method Converse(writer: L.Termios, reader: L.Termios, steps: seq<Step>) returns (replies: seq<Reply>)
    requires Raw(reader)
    ensures Answers(steps, replies) && Got(replies) <= Sent(steps, replies)
    ensures |Sent(steps, replies)| <= |Got(replies)| + 3 * CAPACITY
  {
    hide TtyQueue.Contents, TtyStruct.View, TtyStruct.Sound, TtyStruct.Typed, L.Valid, Apart, Pipe.Valid;
    var pipe := new Pipe(writer, reader);
    replies := pipe.Run(steps);
    pipe.Fifo();
    assert pipe.accepted == Sent(steps, replies) && pipe.returned == Got(replies);
  }
}
