/** The string instructions of kernel/chr_drv/console.c on video memory, as an array of 16-bit
    cells, and what they do to the slice that one console shows. */
module Video {
  import opened Screen

  // ----- The string instructions -----

  /** rep stosw */
  method Stosw(mem: array<Cell>, a: nat, n: nat, v: Cell)
    requires a + n <= mem.Length
    modifies mem
    ensures mem[..] == Filled(old(mem[..]), a, n, v)
  {
    var i := 0;
    while i < n
      invariant i <= n
      invariant forall j :: 0 <= j < mem.Length ==> mem[j] == if a <= j < a + i then v else old(mem[j])
    {
      mem[a + i] := v;
      i := i + 1;
    }
  }

  /** rep stosw with the direction flag set. */
  method StoswDown(mem: array<Cell>, a: nat, n: nat, v: Cell)
    requires a < mem.Length && n <= a + 1
    modifies mem
    ensures mem[..] == Filled(old(mem[..]), a + 1 - n, n, v)
  {
    var i := 0;
    while i < n
      invariant i <= n
      invariant forall j :: 0 <= j < mem.Length ==> mem[j] == if a - i < j <= a then v else old(mem[j])
    {
      mem[a - i] := v;
      i := i + 1;
    }
  }

  /** n cells copied from src to dst. */
  function Copied(s: seq<Cell>, dst: nat, src: nat, n: nat): (r: seq<Cell>)
    requires dst + n <= |s| && src + n <= |s|
    ensures |r| == |s|
  {
    s[..dst] + s[src..src + n] + s[dst + n..]
  }

  lemma CopiedIndex(s: seq<Cell>, dst: nat, src: nat, n: nat, j: nat)
    requires dst + n <= |s| && src + n <= |s| && j < |s|
    ensures Copied(s, dst, src, n)[j] == if dst <= j < dst + n then s[j - dst + src] else s[j]
  {}

  /** One more long at the upper end, or at the lower end, of a copy. */
  lemma CopiedMore(s: seq<Cell>, dst: nat, src: nat, n: nat, dst': nat, src': nat, up: bool)
    requires dst' == (if up then dst else dst + 2) && src' == if up then src else src + 2
    requires dst + n + 2 <= |s| && src + n + 2 <= |s|
    ensures var a := if up then n else 0;
            Copied(s, dst', src', n)[dst + a := s[src + a]][dst + a + 1 := s[src + a + 1]] == Copied(s, dst, src, n + 2)
  {
    hide Copied;
    var a := if up then n else 0;
    var t := Copied(s, dst', src', n)[dst + a := s[src + a]][dst + a + 1 := s[src + a + 1]];
    forall j | 0 <= j < |s| ensures t[j] == Copied(s, dst, src, n + 2)[j] {
      CopiedIndex(s, dst', src', n, j);
      CopiedIndex(s, dst, src, n + 2, j);
    }
  }

  method Movl(mem: array<Cell>, di: nat, si: nat)
    requires di + 2 <= mem.Length && si + 2 <= mem.Length
    modifies mem
    ensures mem[..] == old(mem[..])[di := old(mem[..])[si]][di + 1 := old(mem[..])[si + 1]]
  {
    mem[di], mem[di + 1] := mem[si], mem[si + 1];
  }

  /** rep movsl: longs of two cells each, from the lowest up. */
  method Movsl(mem: array<Cell>, dst: nat, src: nat, longs: nat)
    requires dst <= src && src + 2 * longs <= mem.Length
    modifies mem
    ensures mem[..] == Copied(old(mem[..]), dst, src, 2 * longs)
  {
    hide Copied;
    ghost var was := mem[..];
    NoneCopied(was, dst, src);
    var i, di, si := 0, dst, src;
    while i < longs
      invariant i <= longs && di == dst + 2 * i && si == src + 2 * i
      invariant mem[..] == Copied(was, dst, src, 2 * i)
    {
      CopiedIndex(was, dst, src, 2 * i, si);
      CopiedIndex(was, dst, src, 2 * i, si + 1);
      CopiedMore(was, dst, src, 2 * i, dst, src, true);
      Movl(mem, di, si);
      i, di, si := i + 1, di + 2, si + 2;
    }
  }

  lemma NoneCopied(s: seq<Cell>, dst: nat, src: nat)
    requires dst <= |s| && src <= |s|
    ensures Copied(s, dst, src, 0) == s
  {}

  /** rep movsl with the direction flag set: dst and src are the addresses of the last longs. */
  method MovslDown(mem: array<Cell>, dst: nat, src: int, longs: nat)
    requires src <= dst && dst + 2 <= mem.Length && 2 * longs <= src + 2
    modifies mem
    ensures mem[..] == Copied(old(mem[..]), dst + 2 - 2 * longs, src + 2 - 2 * longs, 2 * longs)
  {
    hide Copied;
    ghost var was := mem[..];
    NoneCopied(was, dst + 2, src + 2);
    var i, di: int, si: int := 0, dst, src;
    while i < longs
      invariant i <= longs && di == dst - 2 * i && si == src - 2 * i
      invariant mem[..] == Copied(was, di + 2, si + 2, 2 * i)
    {
      CopiedIndex(was, di + 2, si + 2, 2 * i, si);
      CopiedIndex(was, di + 2, si + 2, 2 * i, si + 1);
      CopiedMore(was, di, si, 2 * i, di + 2, si + 2, false);
      Movl(mem, di, si);
      i, di, si := i + 1, di - 2, si - 2;
    }
  }

  // ----- Scrolling a stretch of memory -----

  /** A copy down by k cells, and k blanks above it. */
  lemma CopiedUp(s: seq<Cell>, a: nat, e: nat, k: nat, v: Cell)
    requires a + k <= e <= |s|
    ensures Filled(Copied(s, a, a + k, e - a - k), e - k, k, v) == MovedUp(s, a, e, k, v)
  {
    var c := Copied(s, a, a + k, e - a - k);
    assert c[..e - k] == s[..a] + s[a + k..e];
    assert c[e..] == s[e..];
  }

  lemma CopiedDown(s: seq<Cell>, a: nat, e: nat, k: nat, v: Cell)
    requires a + k <= e <= |s|
    ensures Filled(Copied(s, a + k, a, e - a - k), a, k, v) == MovedDown(s, a, e, k, v)
  {
    var c := Copied(s, a + k, a, e - a - k);
    assert c[..a] == s[..a];
    assert c[a + k..] == s[a..e - k] + s[e..];
  }

  // ----- The slice of one screen -----

  /** Nothing changed outside lo to hi. */
  ghost predicate Beyond(s: seq<Cell>, t: seq<Cell>, lo: nat, hi: nat) {
    |s| == |t| && lo <= hi <= |s| && s[..lo] == t[..lo] && s[hi..] == t[hi..]
  }

  lemma BeyondTrans(s: seq<Cell>, t: seq<Cell>, u: seq<Cell>, lo: nat, hi: nat)
    requires Beyond(s, t, lo, hi) && Beyond(t, u, lo, hi)
    ensures Beyond(s, u, lo, hi)
  {}

  lemma OtherSlice(s: seq<Cell>, t: seq<Cell>, lo: nat, hi: nat, o: nat, e: nat)
    requires Beyond(s, t, lo, hi) && o <= e <= |s| && (e <= lo || hi <= o)
    ensures s[o..e] == t[o..e]
  {
    forall j | o <= j < e ensures s[j] == t[j] {
      if e <= lo {
        assert s[..lo][j] == t[..lo][j];
      } else {
        assert s[hi..][j - hi] == t[hi..][j - hi];
      }
    }
  }

  lemma Untouched(s: seq<Cell>, lo: nat, hi: nat)
    requires lo <= hi <= |s|
    ensures Beyond(s, s, lo, hi)
  {}

  lemma StoreInside(s: seq<Cell>, o: nat, e: nat, p: nat, c: Cell, lo: nat, hi: nat)
    requires lo <= o <= p < e <= hi <= |s|
    ensures var t := s[p := c];
            t[o..e] == s[o..e][p - o := c] && Beyond(s, t, lo, hi)
  {}

  lemma FilledInside(s: seq<Cell>, o: nat, n: nat, a: nat, k: nat, v: Cell, lo: nat, hi: nat)
    requires a + k <= n && lo <= o && o + n <= hi <= |s|
    ensures var t := Filled(s, o + a, k, v);
            t[o..o + n] == Filled(s[o..o + n], a, k, v) && Beyond(s, t, lo, hi)
  {
    var t := Filled(s, o + a, k, v);
    assert t[..lo] == s[..lo];
    assert t[hi..] == s[hi..];
    assert t[o..o + n] == Filled(s[o..o + n], a, k, v);
  }

  lemma MovedUpIndex(s: seq<Cell>, a: nat, e: nat, k: nat, v: Cell, j: nat)
    requires a + k <= e <= |s| && j < |s|
    ensures MovedUp(s, a, e, k, v)[j] ==
            if a <= j < e - k then s[j + k] else if e - k <= j < e then v else s[j]
  {}

  lemma MovedDownIndex(s: seq<Cell>, a: nat, e: nat, k: nat, v: Cell, j: nat)
    requires a + k <= e <= |s| && j < |s|
    ensures MovedDown(s, a, e, k, v)[j] ==
            if a <= j < a + k then v else if a + k <= j < e then s[j - k] else s[j]
  {}

  lemma MovedUpInside(s: seq<Cell>, o: nat, n: nat, a: nat, e: nat, k: nat, v: Cell, lo: nat, hi: nat)
    requires a + k <= e <= n && lo <= o && o + n <= hi <= |s|
    ensures var t := MovedUp(s, o + a, o + e, k, v);
            t[o..o + n] == MovedUp(s[o..o + n], a, e, k, v) && Beyond(s, t, lo, hi)
  {
    hide MovedUp;
    var t := MovedUp(s, o + a, o + e, k, v);
    forall j | 0 <= j < lo || hi <= j < |s| ensures t[j] == s[j] {
      MovedUpIndex(s, o + a, o + e, k, v, j);
    }
    assert t[..lo] == s[..lo];
    assert t[hi..] == s[hi..];
    var r := MovedUp(s[o..o + n], a, e, k, v);
    forall j | 0 <= j < n ensures t[o..o + n][j] == r[j] {
      MovedUpIndex(s, o + a, o + e, k, v, o + j);
      MovedUpIndex(s[o..o + n], a, e, k, v, j);
    }
  }

  lemma MovedDownInside(s: seq<Cell>, o: nat, n: nat, a: nat, e: nat, k: nat, v: Cell, lo: nat, hi: nat)
    requires a + k <= e <= n && lo <= o && o + n <= hi <= |s|
    ensures var t := MovedDown(s, o + a, o + e, k, v);
            t[o..o + n] == MovedDown(s[o..o + n], a, e, k, v) && Beyond(s, t, lo, hi)
  {
    hide MovedDown;
    var t := MovedDown(s, o + a, o + e, k, v);
    forall j | 0 <= j < lo || hi <= j < |s| ensures t[j] == s[j] {
      MovedDownIndex(s, o + a, o + e, k, v, j);
    }
    assert t[..lo] == s[..lo];
    assert t[hi..] == s[hi..];
    var r := MovedDown(s[o..o + n], a, e, k, v);
    forall j | 0 <= j < n ensures t[o..o + n][j] == r[j] {
      MovedDownIndex(s, o + a, o + e, k, v, o + j);
      MovedDownIndex(s[o..o + n], a, e, k, v, j);
    }
  }

  /** Panning: the screen starts k cells further on, and the k cells it gains are blanked. */
  lemma PanInside(s: seq<Cell>, o: nat, n: nat, k: nat, v: Cell, lo: nat, hi: nat)
    requires k <= n && lo <= o && o + k + n <= hi <= |s|
    ensures var t := Filled(s, o + n, k, v);
            t[o + k..o + k + n] == MovedUp(s[o..o + n], 0, n, k, v) && Beyond(s, t, lo, hi)
  {
    var t := Filled(s, o + n, k, v);
    assert t[..lo] == s[..lo];
    assert t[hi..] == s[hi..];
    assert t[o + k..o + k + n] == MovedUp(s[o..o + n], 0, n, k, v);
  }

  /** Going back to the start of the slice: all but the first k cells are copied there. */
  lemma WrapInside(s: seq<Cell>, o: nat, n: nat, k: nat, v: Cell, lo: nat, hi: nat)
    requires k <= n && lo <= o && o + n <= hi <= |s|
    ensures var t := Filled(Copied(s, lo, o + k, n - k), lo + (n - k), k, v);
            t[lo..lo + n] == MovedUp(s[o..o + n], 0, n, k, v) && Beyond(s, t, lo, hi)
  {
    var c := Copied(s, lo, o + k, n - k);
    var t := Filled(c, lo + (n - k), k, v);
    assert t[..lo] == s[..lo];
    assert t[hi..] == s[hi..];
    assert c[lo..lo + (n - k)] == s[o + k..o + n];
    assert t[lo..lo + n] == MovedUp(s[o..o + n], 0, n, k, v);
  }

  // ----- Single cells of one line -----

  /** The loop of insert_char: every cell from p to the end of the line takes its neighbour's
      value. */
  method InsertCell(mem: array<Cell>, pos: nat, x: nat, cols: nat, v: Cell)
    requires x < cols && pos + (cols - x) <= mem.Length
    modifies mem
    ensures mem[..] == MovedDown(old(mem[..]), pos, pos + (cols - x), 1, v)
  {
    hide MovedDown;
    ghost var was := mem[..];
    var i, p, before := x, pos, v;
    while i < cols
      invariant x <= i <= cols && p == pos + (i - x)
      invariant before == if i == x then v else was[p - 1]
      invariant mem[..] == if i == x then was else MovedDown(was, pos, p, 1, v)
    {
      DownOneMore(was, pos, p, v);
      var tmp := mem[p];
      mem[p] := before;
      before := tmp;
      i, p := i + 1, p + 1;
    }
  }

  lemma DownOneMore(s: seq<Cell>, a: nat, p: nat, v: Cell)
    requires a <= p < |s|
    ensures a == p ==> s[p := v] == MovedDown(s, a, p + 1, 1, v)
    ensures a < p ==> MovedDown(s, a, p, 1, v)[p] == s[p]
    ensures a < p ==> MovedDown(s, a, p, 1, v)[p := s[p - 1]] == MovedDown(s, a, p + 1, 1, v)
  {
    hide MovedDown;
    var r := MovedDown(s, a, p + 1, 1, v);
    if a == p {
      forall j | 0 <= j < |s| ensures s[p := v][j] == r[j] {
        MovedDownIndex(s, a, p + 1, 1, v, j);
      }
    } else {
      var q := MovedDown(s, a, p, 1, v);
      MovedDownIndex(s, a, p, 1, v, p);
      forall j | 0 <= j < |s| ensures q[p := s[p - 1]][j] == r[j] {
        MovedDownIndex(s, a, p, 1, v, j);
        MovedDownIndex(s, a, p + 1, 1, v, j);
      }
    }
  }

  /** The loop of delete_char. */
  method DeleteCell(mem: array<Cell>, pos: nat, x: nat, cols: nat, v: Cell)
    requires x < cols && pos + (cols - x) <= mem.Length
    modifies mem
    ensures mem[..] == MovedUp(old(mem[..]), pos, pos + (cols - x), 1, v)
  {
    hide MovedUp;
    ghost var was := mem[..];
    var i, p := x + 1, pos;
    while i < cols
      invariant x < i <= cols && p == pos + (i - x - 1)
      invariant forall j :: 0 <= j < pos ==> mem[j] == was[j]
      invariant forall j :: pos <= j < p ==> mem[j] == was[j + 1]
      invariant forall j :: p <= j < mem.Length ==> mem[j] == was[j]
    {
      mem[p] := mem[p + 1];
      i, p := i + 1, p + 1;
    }
    mem[p] := v;
    forall j | 0 <= j < |was| ensures mem[..][j] == MovedUp(was, pos, pos + (cols - x), 1, v)[j] {
      MovedUpIndex(was, pos, pos + (cols - x), 1, v, j);
    }
  }
}
