/** The 1024-slot character queue of include/linux/tty.h. */
module Ring {
  const TTY_BUF_SIZE := 1024

  /** One slot stays unused, so that a full ring differs from an empty one. */
  const CAPACITY := TTY_BUF_SIZE - 1

  /** The i386 compiler's char is signed. */
  type char8 = c: int | -128 <= c < 128 witness 0

  /** a & (TTY_BUF_SIZE-1): the remainder, for negative values too. */
  function Mask(a: int): (r: nat)
    ensures r < TTY_BUF_SIZE
    ensures -TTY_BUF_SIZE <= a < 0 ==> r == a + TTY_BUF_SIZE
    ensures 0 <= a < TTY_BUF_SIZE ==> r == a
    ensures TTY_BUF_SIZE <= a < 2 * TTY_BUF_SIZE ==> r == a - TTY_BUF_SIZE
  {
    a % TTY_BUF_SIZE
  }

  /** What PUTCH does to the queue's contents: it never checks for room, and in a full ring the
      head runs into the tail, which empties it. */
  function Pushed(s: seq<char8>, c: char8): (t: seq<char8>) {
    if |s| == CAPACITY then [] else s + [c]
  }

  class TtyQueue {
    var data: int
    var head: nat
    var tail: nat
    const buf: array<char8>

    ghost predicate Valid()
      reads this`head, this`tail
    {
      buf.Length == TTY_BUF_SIZE && head < TTY_BUF_SIZE && tail < TTY_BUF_SIZE
    }

    constructor ()
      ensures Valid() && fresh(buf) && Contents() == [] && data == 0
    {
      data, head, tail := 0, 0, 0;
      buf := new char8[TTY_BUF_SIZE](_ => 0);
    }

    /** The queued characters, oldest first. */
    ghost function Contents(): (s: seq<char8>)
      requires Valid()
      reads this`head, this`tail, buf
      ensures |s| <= CAPACITY
    {
      if tail <= head then buf[tail..head] else buf[tail..] + buf[..head]
    }

    predicate Empty()
      requires Valid()
      reads this`head, this`tail, buf
      ensures Empty() <==> Contents() == []
    {
      head == tail
    }

    function Left(): (n: nat)
      requires Valid()
      reads this`head, this`tail, buf
      ensures n == CAPACITY - |Contents()|
    {
      Mask(tail - head - 1)
    }

    predicate Full()
      requires Valid()
      reads this`head, this`tail, buf
      ensures Full() <==> |Contents()| == CAPACITY
    {
      Left() == 0
    }

    function Chars(): (n: nat)
      requires Valid()
      reads this`head, this`tail, buf
      ensures n == |Contents()|
    {
      Mask(head - tail)
    }

    function Last(): (c: char8)
      requires Valid() && Contents() != []
      reads this`head, this`tail, buf
      ensures c == Contents()[|Contents()| - 1]
    {
      buf[Mask(head - 1)]
    }

    method GetCh() returns (c: char8)
      requires Valid() && Contents() != []
      modifies this`tail
      ensures Valid()
      ensures [c] + Contents() == old(Contents())
    {
      hide Mask;
      ghost var was := Contents();
      c := buf[tail];
      tail := Mask(tail + 1);
      assert Contents() == was[1..];
    }

    method PutCh(c: char8)
      requires Valid()
      modifies this`head, buf
      ensures Valid()
      ensures Contents() == Pushed(old(Contents()), c)
    {
      hide Mask;
      ghost var was := Contents();
      buf[head] := c;
      head := Mask(head + 1);
      if |was| < CAPACITY {
        assert Contents() == was + [c];
      } else {
        assert head == tail;
      }
    }

    /** DEC(head) */
    method DropLast()
      requires Valid() && Contents() != []
      modifies this`head
      ensures Valid()
      ensures Contents() == old(Contents()[..|Contents()| - 1])
    {
      hide Mask;
      ghost var was := Contents();
      head := Mask(head - 1);
      assert Contents() == was[..|was| - 1];
    }
  }
}
