/** The boot loader's system read loop (boot/bootsect.S). */
module Bootsect {
  import Words

  const SETUPLEN := 4
  const SYSSEG := 0x1000
  const ENDSEG := 0x4000
  const SECTOR := 512

  /** One int 0x13 read: where the disk is read, how much, and to which es:bx. */
  datatype Read = Read(track: nat, head: nat, sector: nat, count: nat, es: nat, bx: nat) {
    /** Position on a disk of two heads, counting sectors from the very first. */
    function Start(sectors: nat): int {
      (2 * track + head) * sectors + sector - 1
    }

    function Address(): nat {
      16 * es + bx
    }

    /** Non-empty, inside one track, and inside one 64 kB segment. */
    predicate Sound(sectors: nat) {
      && 0 < count
      && 1 <= sector && sector - 1 + count <= sectors && head < 2
      && (16 * es) % 0x1_0000 == 0 && bx + SECTOR * count <= 0x1_0000
    }
  }

  /** Sound reads of consecutive sectors from first, filling memory contiguously from base. */
  ghost predicate Contiguous(log: seq<Read>, sectors: nat, first: nat, base: nat) {
    log == [] ||
    var r := log[|log| - 1];
    && r.Sound(sectors)
    && Contiguous(log[..|log| - 1], sectors, first, base)
    && r.Start(sectors) == first + Total(log[..|log| - 1])
    && r.Address() == base + SECTOR * Total(log[..|log| - 1])
  }

  /** How many sectors have been read. */
  function Total(log: seq<Read>): nat {
    if log == [] then 0 else Total(log[..|log| - 1]) + log[|log| - 1].count
  }

  lemma Extend(log: seq<Read>, r: Read, sectors: nat, first: nat, base: nat)
    requires Contiguous(log, sectors, first, base) && r.Sound(sectors)
    requires r.Start(sectors) == first + Total(log) && r.Address() == base + SECTOR * Total(log)
    ensures Contiguous(log + [r], sectors, first, base)
    ensures Total(log + [r]) == Total(log) + r.count
  {
    assert (log + [r])[..|log|] == log;
  }

  /** Position on the disk of the next sector of the current track. */
  function Position(sectors: nat, track: nat, head: nat, sread: nat): nat {
    (2 * track + head) * sectors + sread
  }

  /** After a read of n sectors: the next head, and the next track after both heads. */
  method Advance(sectors: nat, track: nat, head: nat, sread: nat, n: nat) returns (track': nat, head': nat, sread': nat)
    requires head < 2 && sread + n <= sectors && 0 < sectors
    ensures head' < 2 && sread' < sectors
    ensures Position(sectors, track', head', sread') == Position(sectors, track, head, sread) + n
  {
    track', head' := track, head;
    var ax := n + sread;
    if ax == sectors {
      ax := 1 - head;
      if ax == 0 {
        track' := track + 1;
      }
      head' := ax;
      ax := 0;
      NextTrack(sectors, track, head);
    }
    sread' := ax;
  }

  lemma NextTrack(sectors: nat, track: nat, head: nat)
    requires head < 2
    ensures (2 * track + head) * sectors + sectors
            == (2 * (if head == 1 then track + 1 else track) + (1 - head)) * sectors
  {}

  /** How many sectors the loop asks for at once: the rest of the track, or what still fits
      below the next 64 kB boundary. 16-bit registers throughout. */
  function Chunk(sectors: nat, sread: nat, bx: nat): nat
    requires sread <= sectors && bx < 0x1_0000
  {
    var ax := sectors - sread;
    var sum := (ax * SECTOR) % 0x1_0000 + bx;
    var carry, zero := sum >= 0x1_0000, sum % 0x1_0000 == 0;
    if !carry || zero then ax else ((0x1_0000 - bx) % 0x1_0000) / SECTOR
  }

  lemma ChunkFits(sectors: nat, sread: nat, bx: nat)
    requires sread < sectors <= 127 && bx < 0x1_0000 && bx % SECTOR == 0
    ensures 0 < Chunk(sectors, sread, bx) <= sectors - sread
    ensures bx + SECTOR * Chunk(sectors, sread, bx) <= 0x1_0000
  {
    var ax, k := sectors - sread, bx / SECTOR;
    Words.DivMod(bx, SECTOR);
    Words.DivUnique(ax * SECTOR, 0x1_0000, 0, ax * SECTOR);
    var sum := ax * SECTOR + bx;
    if sum >= 0x1_0000 {
      Words.DivUnique(sum, 0x1_0000, 1, sum - 0x1_0000);
      Words.DivUnique(0x1_0000 - bx, 0x1_0000, 0, 0x1_0000 - bx);
      Words.DivUnique(0x1_0000 - bx, SECTOR, 128 - k, 0);
    }
  }

  /** read_it: loads the system at SYSSEG:0 and returns the disk reads it issued. */
  method ReadIt(sectors: nat) returns (log: seq<Read>)
    requires 6 <= sectors <= 127
    ensures Contiguous(log, sectors, 1 + SETUPLEN, 16 * SYSSEG)
    ensures SECTOR * Total(log) == 16 * ENDSEG - 16 * SYSSEG
  {
    hide Contiguous, Total, Chunk;
    var sread, head, track := 1 + SETUPLEN, 0, 0;
    var es, bx := SYSSEG, 0;
    log := [];
    StartEmpty(sectors);
    while es < ENDSEG
      invariant (es == 0x1000 || es == 0x2000 || es == 0x3000 || es == 0x4000) && 0 <= bx < 0x1_0000 && bx % SECTOR == 0
      invariant es == ENDSEG ==> bx == 0
      invariant 0 <= sread < sectors && 0 <= head < 2 && 0 <= track
      invariant Contiguous(log, sectors, 1 + SETUPLEN, 16 * SYSSEG)
      invariant Position(sectors, track, head, sread) == 1 + SETUPLEN + Total(log)
      invariant 16 * es + bx == 16 * SYSSEG + SECTOR * Total(log)
      decreases ENDSEG - es, 0x1_0000 - bx
    {
      var ax := Chunk(sectors, sread, bx);
      ChunkFits(sectors, sread, bx);
      // read_track: ch = track, dh = head & 1, cl = sread + 1, al = ax, to es:bx
      var r := Read(track, head, sread + 1, ax, es, bx);
      Extend(log, r, sectors, 1 + SETUPLEN, 16 * SYSSEG);
      log := log + [r];
      hide Position;
      track, head, sread := Advance(sectors, track, head, sread, ax);
      es, bx := NextAddress(es, bx, ax);
    }
  }

  /** shl cx,#9 ; add bx,cx ; on carry the next segment. */
  method NextAddress(es: nat, bx: nat, n: nat) returns (es': nat, bx': nat)
    requires bx % SECTOR == 0 && 0 < n <= 127 && bx + SECTOR * n <= 0x1_0000
    ensures bx' % SECTOR == 0 && bx' < 0x1_0000
    ensures 16 * es' + bx' == 16 * es + bx + SECTOR * n
    ensures (es' == es && bx' > bx) || (es' == es + 0x1000 && bx' == 0)
  {
    es' := es;
    bx' := bx + (n * SECTOR) % 0x1_0000;
    if bx' >= 0x1_0000 {
      es' := es + 0x1000;
      bx' := 0;
    }
  }

  lemma StartEmpty(sectors: nat)
    ensures Contiguous([], sectors, 1 + SETUPLEN, 16 * SYSSEG) && Total([]) == 0
  {}

  ghost predicate Reads(r: Read, sectors: nat, k: int) {
    r.Start(sectors) <= k < r.Start(sectors) + r.count
  }

  /** Read i, and no other, reads sector k. */
  ghost predicate OnlyRead(log: seq<Read>, sectors: nat, k: int, i: int) {
    0 <= i < |log| && Reads(log[i], sectors, k) && forall j :: 0 <= j < |log| && Reads(log[j], sectors, k) ==> j == i
  }

  lemma OnlyEarlier(log: seq<Read>, sectors: nat, k: int, i: int)
    requires log != [] && OnlyRead(log[..|log| - 1], sectors, k, i) && !Reads(log[|log| - 1], sectors, k)
    ensures OnlyRead(log, sectors, k, i)
  {
    forall j | 0 <= j < |log| && Reads(log[j], sectors, k) ensures j == i {
      if j < |log| - 1 {
        assert log[j] == log[..|log| - 1][j];
      }
    }
  }

  lemma OnlyLast(log: seq<Read>, sectors: nat, k: int)
    requires log != [] && Reads(log[|log| - 1], sectors, k)
    requires forall j :: 0 <= j < |log| - 1 ==> !Reads(log[j], sectors, k)
    ensures OnlyRead(log, sectors, k, |log| - 1)
  {}

  /** Each sector of the system is read by exactly one of the reads. */
  lemma {:induction false} EachSectorOnce(log: seq<Read>, sectors: nat, first: nat, base: nat, k: int)
    requires Contiguous(log, sectors, first, base) && first <= k < first + Total(log)
    ensures exists i :: OnlyRead(log, sectors, k, i)
    decreases |log|
  {
    hide OnlyRead, Reads, Read.Start, Read.Sound, Read.Address;
    var before, r := log[..|log| - 1], log[|log| - 1];
    AllBefore(before, sectors, first, base);
    ReadsRange(r, sectors, k);
    if k < first + Total(before) {
      EachSectorOnce(before, sectors, first, base, k);
      var i :| OnlyRead(before, sectors, k, i);
      OnlyEarlier(log, sectors, k, i);
    } else {
      forall j | 0 <= j < |log| - 1 ensures !Reads(log[j], sectors, k) {
        assert log[j] == before[j];
        ReadsRange(before[j], sectors, k);
      }
      OnlyLast(log, sectors, k);
    }
  }

  lemma ReadsRange(r: Read, sectors: nat, k: int)
    ensures Reads(r, sectors, k) <==> r.Start(sectors) <= k < r.Start(sectors) + r.count
  {}

  lemma {:induction false} AllBefore(log: seq<Read>, sectors: nat, first: nat, base: nat)
    requires Contiguous(log, sectors, first, base)
    ensures forall i :: 0 <= i < |log| ==> log[i].Start(sectors) + log[i].count <= first + Total(log)
    decreases |log|
  {
    if log != [] {
      var before := log[..|log| - 1];
      AllBefore(before, sectors, first, base);
      assert forall i :: 0 <= i < |before| ==> log[i] == before[i];
    }
  }
}
