/** The kernel's bucket allocator (lib/malloc.c). */
module Malloc {
  import opened Words

  const PAGE := 4096

  /** bucket_dir has nine sizes before its end marker: 16, 32, ... 4096. */
  const BUCKETS := 9

  /** Descriptors on one descriptor page. */
  const PER_PAGE := 256

  function Size(b: int): (s: int)
    requires 0 <= b
    ensures s > 0
  {
    if b == 0 then 16 else 2 * Size(b - 1)
  }

  /** obj & 0xfffff000 */
  function PageOf(obj: int): int {
    obj - obj % PAGE
  }

  // ----- Pages and their slots -----

  /** Address a starts one of the slots of a page. */
  ghost predicate IsSlot(page: int, size: int, a: int)
    requires size > 0
  {
    page <= a < page + PAGE && (a - page) % size == 0
  }

  ghost predicate Distinct<T>(s: seq<T>) {
    forall i, j :: 0 <= i < j < |s| ==> s[i] != s[j]
  }

  /** The words of the free slots thread the list, from head to a null link. */
  ghost predicate Threaded(mem: map<int, int>, free: seq<int>, head: int) {
    && head == (if free == [] then 0 else free[0])
    && forall i {:trigger free[i]} :: 0 <= i < |free| ==>
         free[i] in mem && mem[free[i]] == if i + 1 < |free| then free[i + 1] else 0
  }

  /** One page: the free list threads exactly the slots that are not live, and refcnt counts
      the others. */
  ghost predicate PageOk(page: int, size: int, free: seq<int>, head: int, refcnt: int,
                         mem: map<int, int>, live: set<int>) {
    && size > 0 && page > 0 && page % PAGE == 0
    && Threaded(mem, free, head) && Distinct(free)
    && (forall a :: a in free ==> IsSlot(page, size, a))
    && (forall a :: IsSlot(page, size, a) ==> (a in live <==> a !in free))
    && refcnt == PAGE / size - |free|
  }

  lemma Earlier(s: seq<int>, k: nat)
    requires Distinct(s) && k < |s|
    ensures forall j {:trigger s[j]} :: 0 <= j < k ==> s[j] != s[k]
  {}

  /** Slot k's word points to slot k+1. */
  ghost predicate Follows(mem: map<int, int>, s: seq<int>, k: int)
    requires 0 <= k < |s| - 1
  {
    s[k] in mem && mem[s[k]] == s[k + 1]
  }

  lemma FollowsMore(mem: map<int, int>, s: seq<int>, k: nat, mem': map<int, int>)
    requires Distinct(s) && k < |s| - 1 && mem' == mem[s[k] := s[k + 1]]
    requires forall j :: 0 <= j < k ==> Follows(mem, s, j)
    ensures forall j :: 0 <= j < k + 1 ==> Follows(mem', s, j)
  {
    Earlier(s, k);
    forall j | 0 <= j < k + 1 ensures Follows(mem', s, j) {
      assert j < k ==> Follows(mem, s, j);
    }
  }

  lemma AllThreaded(mem: map<int, int>, s: seq<int>)
    requires s != [] && Distinct(s)
    requires forall k :: 0 <= k < |s| - 1 ==> Follows(mem, s, k)
    ensures Threaded(mem[s[|s| - 1] := 0], s, s[0])
  {
    Earlier(s, |s| - 1);
    forall i {:trigger s[i]} | 0 <= i < |s|
      ensures var m := mem[s[|s| - 1] := 0];
              s[i] in m && m[s[i]] == if i + 1 < |s| then s[i + 1] else 0
    {
      assert i < |s| - 1 ==> Follows(mem, s, i);
    }
  }

  /** The slots lie size apart. */
  ghost predicate Evenly(s: seq<int>, size: int) {
    forall k {:trigger s[k]} :: 0 <= k < |s| - 1 ==> s[k + 1] == s[k] + size
  }

  lemma NextSlot(s: seq<int>, size: int, k: nat)
    requires Evenly(s, size) && k < |s| - 1
    ensures s[k + 1] == s[k] + size
  {}

  lemma SlotPage(page: int, size: int, a: int)
    requires size > 0 && page % PAGE == 0 && IsSlot(page, size, a)
    ensures PageOf(a) == page
  {}

  lemma SlotPages(page: int, size: int, other: int)
    requires size > 0 && page % PAGE == 0 && page != other
    ensures forall a :: IsSlot(page, size, a) ==> PageOf(a) != other
  {
    forall a | IsSlot(page, size, a) ensures PageOf(a) != other {
      SlotPage(page, size, a);
    }
  }

  /** A page does not notice what happens on other pages. */
  lemma PageFrame(page: int, size: int, free: seq<int>, head: int, refcnt: int,
                  mem: map<int, int>, live: set<int>, mem': map<int, int>, live': set<int>, other: int)
    requires PageOk(page, size, free, head, refcnt, mem, live) && page != other
    requires forall a :: PageOf(a) != other && a in mem ==> a in mem' && mem'[a] == mem[a]
    requires forall a :: PageOf(a) != other ==> (a in live <==> a in live')
    ensures PageOk(page, size, free, head, refcnt, mem', live')
  {
    hide PageOf, IsSlot;
    SlotPages(page, size, other);
    forall i | 0 <= i < |free|
      ensures free[i] in mem' && mem'[free[i]] == if i + 1 < |free| then free[i + 1] else 0
    {
      assert free[i] in free;
      assert IsSlot(page, size, free[i]) && PageOf(free[i]) != other;
    }
  }

  /** Taking the first free slot. */
  lemma PageTake(page: int, size: int, free: seq<int>, head: int, refcnt: int, mem: map<int, int>, live: set<int>)
    requires PageOk(page, size, free, head, refcnt, mem, live) && head != 0
    ensures free != [] && head == free[0] && head in mem && head !in live
    ensures PageOf(head) == page && IsSlot(page, size, head)
    ensures PageOk(page, size, free[1..], mem[head], refcnt + 1, mem, live + {head})
  {
    assert free[0] in free;
    SlotPage(page, size, head);
    var rest := free[1..];
    assert forall a :: a in free <==> a == free[0] || a in rest;
  }

  /** Giving a live slot back. */
  lemma PageGive(page: int, size: int, free: seq<int>, head: int, refcnt: int,
                 mem: map<int, int>, live: set<int>, obj: int)
    requires PageOk(page, size, free, head, refcnt, mem, live) && obj in live && IsSlot(page, size, obj)
    ensures PageOk(page, size, [obj] + free, obj, refcnt - 1, mem[obj := head], live - {obj})
  {
    var free', mem' := [obj] + free, mem[obj := head];
    assert forall a :: a in free' <==> a == obj || a in free;
    assert Distinct(free');
    forall i | 0 <= i < |free'|
      ensures free'[i] in mem' && mem'[free'[i]] == if i + 1 < |free'| then free'[i + 1] else 0
    {
      if i > 0 {
        assert free[i - 1] in free;
      }
    }
    assert free != [] ==> free[0] in free;
  }

  /** A word stored inside a live object is in no free slot. */
  lemma PageStore(page: int, size: int, free: seq<int>, head: int, refcnt: int, mem: map<int, int>, live: set<int>,
                  obj: int, a: int, v: int)
    requires PageOk(page, size, free, head, refcnt, mem, live) && obj in live && IsSlot(page, size, obj)
    requires obj <= a < obj + size
    ensures PageOk(page, size, free, head, refcnt, mem[a := v], live)
  {
    forall i | 0 <= i < |free| ensures free[i] != a {
      assert free[i] in free && IsSlot(page, size, free[i]);
      if free[i] == a {
        WithinSlot(page, size, obj, a);
      }
    }
  }

  /** No other slot starts inside a slot. */
  lemma WithinSlot(page: int, size: int, o: int, a: int)
    requires size > 0 && (o - page) % size == 0 && (a - page) % size == 0 && o <= a < o + size
    ensures a == o
  {
    var k, l := (o - page) / size, (a - page) / size;
    DivMod(o - page, size);
    DivMod(a - page, size);
    if l > k {
      MulMono(k + 1, l, size);
      Distribute(k, 1, size);
    } else if l < k {
      MulMono(l + 1, k, size);
      Distribute(l, 1, size);
    }
  }

  // ----- Counting slots -----

  /** The n slots from page upwards. */
  function Slots(page: int, size: int, n: nat): (s: seq<int>)
    ensures |s| == n
  {
    if n == 0 then [] else Slots(page, size, n - 1) + [page + (n - 1) * size]
  }

  /** All slots of a page of bucket b. */
  ghost function PageSlots(page: int, b: nat): seq<int>
    requires b < BUCKETS
  {
    SizeDivides(b);
    Slots(page, Size(b), PAGE / Size(b))
  }

  lemma {:induction false} SlotAt(page: int, size: int, n: nat, k: nat)
    requires k < n
    ensures Slots(page, size, n)[k] == page + k * size
  {
    if k < n - 1 {
      SlotAt(page, size, n - 1, k);
    }
  }

  /** A bucket size divides the page into whole slots. */
  ghost predicate Divides(size: int) {
    size > 0 && PAGE == (PAGE / size) * size
  }

  lemma SizeDivides(b: int)
    requires 0 <= b < BUCKETS
    ensures Divides(Size(b)) && PAGE / Size(b) >= 1 && 16 <= Size(b) <= PAGE
  {
    assert Size(2) == 64 && Size(4) == 256 && Size(6) == 1024 && Size(8) == 4096;
  }

  /** The list holds exactly the slots of the page, each once. */
  lemma SlotsAreSlots(page: int, size: int)
    requires Divides(size)
    ensures forall a :: IsSlot(page, size, a) <==> a in Slots(page, size, PAGE / size)
    ensures Distinct(Slots(page, size, PAGE / size))
  {
    hide IsSlot, Slots;
    var n := PAGE / size;
    var s := Slots(page, size, n);
    forall a | IsSlot(page, size, a) ensures a in s {
      SlotListed(page, size, a);
    }
    forall k | 0 <= k < n ensures IsSlot(page, size, s[k]) {
      SlotAt(page, size, n, k);
      SlotMultiple(page, k, size, n);
    }
    forall i, j | 0 <= i < j < n ensures s[i] != s[j] {
      SlotAt(page, size, n, i);
      SlotAt(page, size, n, j);
      SlotsGrow(i * size, j * size, i, j, size);
    }
  }

  lemma SlotsGrow(x: int, y: int, i: int, j: int, size: int)
    requires size > 0 && i < j && x == i * size && y == j * size
    ensures x < y
  {
    MulMono(i + 1, j, size);
    Distribute(i, 1, size);
  }

  lemma SlotListed(page: int, size: int, a: int)
    requires Divides(size) && IsSlot(page, size, a)
    ensures a in Slots(page, size, PAGE / size)
  {
    var n, k := PAGE / size, (a - page) / size;
    SlotIndex(a - page, size, n, k);
    SlotAt(page, size, n, k);
    assert Slots(page, size, n)[k] == a;
  }

  lemma SlotIndex(x: int, size: int, n: int, k: int)
    requires size > 0 && 0 <= x < n * size && x % size == 0 && k == x / size
    ensures 0 <= k < n && x == k * size
  {
    DivMod(x, size);
    DivMono(0, x, size);
    if k >= n {
      MulMono(n, k, size);
    }
  }

  lemma SlotMultiple(page: int, k: int, size: int, n: int)
    requires size > 0 && 0 <= k < n && n * size == PAGE
    ensures IsSlot(page, size, page + k * size)
  {
    MulMono(0, k, size);
    MulMono(k + 1, n, size);
    Distribute(k, 1, size);
    MulDivCancel(k, size);
  }

  lemma OneMorePage(pages: set<int>, p: int)
    requires p !in pages
    ensures PER_PAGE * |pages + {p}| == PER_PAGE * |pages| + PER_PAGE
  {}

  ghost function Elements<T>(s: seq<T>): set<T> {
    set x | x in s
  }

  lemma {:induction false} DistinctCount<T>(s: seq<T>)
    requires Distinct(s)
    ensures |Elements(s)| == |s|
  {
    if s != [] {
      var t, last := s[..|s| - 1], s[|s| - 1];
      DistinctCount(t);
      assert s == t + [last];
      assert last !in t;
      assert Elements(s) == Elements(t) + {last};
    } else {
      assert Elements(s) == {};
    }
  }

  lemma ElementsSubset(s: seq<int>, t: seq<int>)
    requires forall a :: a in s ==> a in t
    ensures Elements(s) <= Elements(t)
  {
    forall a | a in Elements(s) ensures a in Elements(t) {
      assert a in s && a in t;
    }
  }

  lemma SubsetSize(a: set<int>, b: set<int>)
    requires a <= b
    ensures |a| <= |b| && (|a| == |b| ==> a == b) && |b - a| == |b| - |a|
  {
    assert b == a + (b - a);
    if |a| == |b| {
      assert |b - a| == 0;
    }
  }

  lemma PageFacts(page: int, size: int, free: seq<int>, head: int, refcnt: int, mem: map<int, int>, live: set<int>)
    requires PageOk(page, size, free, head, refcnt, mem, live)
    ensures Distinct(free) && forall a :: a in free ==> IsSlot(page, size, a)
    ensures forall a :: IsSlot(page, size, a) ==> (a in live <==> a !in free)
    ensures refcnt == PAGE / size - |free|
  {}

  /** refcnt is the number of live objects on the page. */
  lemma RefcntCountsLive(page: int, size: int, free: seq<int>, head: int, refcnt: int,
                         mem: map<int, int>, live: set<int>)
    requires PageOk(page, size, free, head, refcnt, mem, live) && Divides(size)
    ensures refcnt == |set o | o in live && IsSlot(page, size, o)|
  {
    hide IsSlot, Slots, PageOk, Distinct;
    PageFacts(page, size, free, head, refcnt, mem, live);
    var slots := Slots(page, size, PAGE / size);
    SlotsAreSlots(page, size);
    DistinctCount(slots);
    DistinctCount(free);
    assert forall a :: a in free ==> IsSlot(page, size, a) && a in slots;
    ElementsSubset(free, slots);
    SubsetSize(Elements(free), Elements(slots));
    LiveIsRest((set o | o in live && IsSlot(page, size, o)), slots, free);
  }

  lemma LiveIsRest(here: set<int>, slots: seq<int>, free: seq<int>)
    requires forall o :: o in here <==> o in slots && o !in free
    ensures here == Elements(slots) - Elements(free)
  {
    forall o: int ensures o in here <==> o in Elements(slots) - Elements(free) {
      assert o in Elements(slots) <==> o in slots;
      assert o in Elements(free) <==> o in free;
    }
  }

  /** A freshly threaded page with no live object on it. */
  lemma NewPageOk(page: int, size: int, mem: map<int, int>, live: set<int>)
    requires Divides(size) && page > 0 && page % PAGE == 0
    requires Threaded(mem, Slots(page, size, PAGE / size), page)
    requires forall o :: o in live ==> PageOf(o) != page
    ensures PageOk(page, size, Slots(page, size, PAGE / size), page, 0, mem, live)
  {
    SlotsAreSlots(page, size);
    forall a | IsSlot(page, size, a) ensures PageOf(a) == page {
      SlotPage(page, size, a);
    }
  }

  lemma NoLiveSlots(page: int, size: int, free: seq<int>, head: int, refcnt: int, mem: map<int, int>, live: set<int>)
    requires PageOk(page, size, free, head, refcnt, mem, live) && Divides(size) && refcnt == 0
    ensures forall o :: IsSlot(page, size, o) ==> o !in live
  {
    RefcntCountsLive(page, size, free, head, refcnt, mem, live);
    hide PageOk, IsSlot;
    var here := set q | q in live && IsSlot(page, size, q);
    assert here == {};
    assert forall o :: IsSlot(page, size, o) && o in live ==> o in here;
  }

  // ----- Descriptors and lists -----

  class BucketDesc {
    var page: int
    var next: BucketDesc?
    var freeptr: int
    var refcnt: int
    var bucketSize: int

    // Where the descriptor is: a bucket number, or -1 in the free pool.
    ghost var home: int
    // The free slots of its page in list order, the one freeptr names first.
    ghost var free: seq<int>

    constructor ()
      ensures home == -1
    {
      home := -1;
    }
  }

  /** Bucket b is the smallest whose objects hold len bytes. */
  ghost predicate IsBucketFor(b: int, len: nat) {
    0 <= b < BUCKETS && Size(b) >= len && forall c :: 0 <= c < b ==> Size(c) < len
  }

  /** The search of bucket_dir; it reaches the end marker exactly for more than a page. */
  method FindBucket(len: nat) returns (bdir: nat)
    ensures if len <= PAGE then IsBucketFor(bdir, len) else bdir == BUCKETS
  {
    SizeDivides(8);
    assert Size(8) == PAGE;
    bdir := 0;
    while bdir < BUCKETS && Size(bdir) < len
      invariant 0 <= bdir <= BUCKETS
      invariant forall c :: 0 <= c < bdir ==> Size(c) < len
    {
      bdir := bdir + 1;
    }
    if len > PAGE {
      SizesUpTo(bdir);
    }
  }

  lemma SizesUpTo(b: nat)
    requires b <= BUCKETS
    ensures b < BUCKETS ==> Size(b) <= PAGE
  {
    if b < BUCKETS {
      SizeDivides(b);
    }
  }

  lemma OneBucket(len: nat)
    ensures forall b, c :: IsBucketFor(b, len) && IsBucketFor(c, len) ==> b == c
    ensures forall b :: IsBucketFor(b, len) ==> 0 <= b < BUCKETS && len <= PAGE
  {
    forall b | IsBucketFor(b, len) ensures 0 <= b < BUCKETS && len <= PAGE {
      SizesUpTo(b);
    }
  }

  /** A complete call made while another is interrupted, a free that may itself be interrupted, or
      a store by a holder into the object it holds. */
  datatype Call =
    | DoMalloc(len: nat)
    | DoFree(which: nat, hinted: bool, during: seq<Call>)
    | DoStore(which: nat, offset: nat, value: int)

  /** A pointer a caller holds, with the length it asked for. */
  datatype Held = Held(addr: int, len: nat)

  ghost predicate Among(held: seq<Held>, o: int) {
    exists i :: 0 <= i < |held| && held[i].addr == o
  }

  lemma AmongRest(held: seq<Held>, i: nat, o: int)
    requires i < |held| && Among(held, o) && o != held[i].addr
    ensures Among(held[..i] + held[i + 1..], o)
  {
    var rest := held[..i] + held[i + 1..];
    var j :| 0 <= j < |held| && held[j].addr == o;
    assert rest[if j < i then j else j - 1] == held[j];
  }

  lemma AmongMore(held: seq<Held>, h: Held)
    ensures Among(held + [h], h.addr)
    ensures forall o :: Among(held, o) ==> Among(held + [h], o)
  {
    var more := held + [h];
    assert more[|held|] == h;
    forall o | Among(held, o) ensures Among(more, o) {
      var j :| 0 <= j < |held| && held[j].addr == o;
      assert more[j] == held[j];
    }
  }

  /** What malloc comes back with; on panic it does not come back. */
  datatype Pointer = Panic | Pointer(addr: int)

  /** head and the next fields thread exactly the sequence s. */
  ghost predicate Linked(s: seq<BucketDesc>, head: BucketDesc?)
    reads s`next
  {
    && head == (if s == [] then null else s[0])
    && forall i {:trigger s[i].next} :: 0 <= i < |s| ==> s[i].next == if i + 1 < |s| then s[i + 1] else null
  }

  /** s[i] is the first descriptor of the chain whose page has room. */
  ghost predicate FirstWithRoom(s: seq<BucketDesc>, i: int)
    reads s`freeptr
  {
    0 <= i < |s| && s[i].freeptr != 0 && forall j :: 0 <= j < i ==> s[j].freeptr == 0
  }

  /** No page of the chain has room. */
  ghost predicate NoRoom(s: seq<BucketDesc>)
    reads s`freeptr
  {
    forall i :: 0 <= i < |s| ==> s[i].freeptr == 0
  }

  lemma NoFirst(s: seq<BucketDesc>)
    ensures NoRoom(s) ==> forall i :: !FirstWithRoom(s, i)
  {}

  lemma {:induction false} OneFirst(s: seq<BucketDesc>, n: nat) returns (i: nat)
    requires n < |s| && s[n].freeptr != 0
    ensures i <= n && FirstWithRoom(s, i)
  {
    i := 0;
    while s[i].freeptr == 0
      invariant i <= n && forall j :: 0 <= j < i ==> s[j].freeptr == 0
      decreases n - i
    {
      i := i + 1;
    }
  }

  /** A page read as 256 fresh descriptors. */
  method DescriptorPage() returns (page: seq<BucketDesc>)
    ensures |page| == PER_PAGE && Distinct(page)
    ensures forall i :: 0 <= i < |page| ==> fresh(page[i]) && page[i].home == -1
  {
    page := [];
    for i := 0 to PER_PAGE
      invariant |page| == i && Distinct(page)
      invariant forall j :: 0 <= j < i ==> fresh(page[j]) && page[j].home == -1
    {
      var d := new BucketDesc();
      page := page + [d];
    }
  }

  /** The loop that links a descriptor page, then its end to the old pool. */
  method LinkPage(page: seq<BucketDesc>, rest: BucketDesc?)
    requires |page| == PER_PAGE && Distinct(page)
    modifies page`next
    ensures forall i {:trigger page[i].next} :: 0 <= i < |page| ==>
              page[i].next == if i + 1 < |page| then page[i + 1] else rest
  {
    var j := 0;
    var i := PER_PAGE;
    while i > 1
      invariant 1 <= i <= PER_PAGE && j == PER_PAGE - i
      invariant forall k {:trigger page[k].next} :: 0 <= k < j ==> page[k].next == page[k + 1]
    {
      page[j].next := page[j + 1];
      j := j + 1;
      i := i - 1;
    }
    page[j].next := rest;
  }

  /** The list without its element k. */
  ghost function Without(s: seq<BucketDesc>, k: nat): seq<BucketDesc>
    requires k < |s|
  {
    s[..k] + s[k + 1..]
  }

  lemma WithoutMembers(s: seq<BucketDesc>, k: nat)
    requires k < |s| && Distinct(s)
    ensures Distinct(Without(s, k))
    ensures forall d :: d in Without(s, k) <==> d in s && d != s[k]
  {
    var t := Without(s, k);
    forall d | d in s && d != s[k] ensures d in t {
      var i :| 0 <= i < |s| && s[i] == d;
      assert t[if i < k then i else i - 1] == d;
    }
  }

  class Allocator {
    var chain: array<BucketDesc?>
    var freeBucketDesc: BucketDesc?
    // The words that hold the in-page free lists.
    var mem: map<int, int>
    // Pages the page source has handed out.
    var used: set<int>

    // Specification state: every descriptor, the lists, and each live object's descriptor.
    ghost var descs: set<BucketDesc>
    ghost var chains: seq<seq<BucketDesc>>
    ghost var pool: seq<BucketDesc>
    ghost var live: map<int, BucketDesc>
    ghost var descPages: set<int>

    /** Chains and pool are duplicate-free lists, disjoint, and hold every descriptor but x. */
    ghost predicate ListsBut(x: BucketDesc?)
      reads this`chain, this`freeBucketDesc, this`descs, this`chains, this`pool
      reads chain, descs`next, descs`home
    {
      && chain.Length == BUCKETS == |chains|
      && (forall b, i :: 0 <= b < BUCKETS && 0 <= i < |chains[b]| ==>
            chains[b][i] in descs && chains[b][i].home == b && chains[b][i] != x)
      && (forall i :: 0 <= i < |pool| ==> pool[i] in descs && pool[i].home == -1 && pool[i] != x)
      && (forall b :: 0 <= b < BUCKETS ==> Linked(chains[b], chain[b]) && Distinct(chains[b]))
      && Linked(pool, freeBucketDesc) && Distinct(pool)
      && (forall d :: d in descs && d != x ==>
            if d.home == -1 then d in pool else 0 <= d.home < BUCKETS && d in chains[d.home])
    }

    ghost predicate Lists()
      reads this`chain, this`freeBucketDesc, this`descs, this`chains, this`pool
      reads chain, descs`next, descs`home
    {
      ListsBut(null)
    }

    /** No two chained descriptors share a page. */
    ghost predicate Pages()
      reads this`descs, descs`home, descs`page
    {
      forall d, e :: d in descs && e in descs && d.home >= 0 && e.home >= 0 && d.page == e.page ==> d == e
    }

    ghost function BucketPages(): set<int>
      reads this`descs, descs`home, descs`page
    {
      set d | d in descs && d.home >= 0 :: d.page
    }

    /** The pages in use are the bucket pages and the descriptor pages, 256 descriptors each. */
    ghost predicate Supply()
      reads this`descs, this`used, this`descPages, descs`home, descs`page
    {
      && used == BucketPages() + descPages && BucketPages() !! descPages
      && |descs| == PER_PAGE * |descPages|
    }

    ghost predicate Good(d: BucketDesc)
      reads this`mem, this`live, d`home, d`bucketSize, d`page, d`free, d`freeptr, d`refcnt
    {
      && 0 <= d.home < BUCKETS && d.bucketSize == Size(d.home)
      && PageOk(d.page, d.bucketSize, d.free, d.freeptr, d.refcnt, mem, live.Keys)
    }

    /** Every chained descriptor describes its page, and all but x have a live object on it. */
    ghost predicate AllGood(x: BucketDesc?)
      reads this`descs, this`mem, this`live
      reads descs`home, descs`bucketSize, descs`page, descs`free, descs`freeptr, descs`refcnt
    {
      forall d :: d in descs && d.home >= 0 ==> Good(d) && d.refcnt >= (if d == x then 0 else 1)
    }

    /** Every live object is a slot of the page its descriptor describes. */
    ghost predicate LiveOwned()
      reads this`live, this`descs, descs`home, descs`page
    {
      forall o :: o in live ==> OnPage(o, live[o])
    }

    ghost predicate OnPage(o: int, d: BucketDesc)
      reads this`descs, descs`home, descs`page
    {
      d in descs && d.home >= 0 && PageOf(o) == d.page && IsSlot(d.page, Size(d.home), o)
    }

    /** The invariant, with descriptor x allowed to have no live object. */
    ghost predicate Inv(x: BucketDesc?)
      reads this, chain, descs
    {
      Lists() && Pages() && Supply() && AllGood(x) && LiveOwned()
    }

    ghost predicate Valid()
      reads this, chain, descs
    {
      Inv(null)
    }

    /** The state at boot: empty buckets, no descriptors, no pages. */
    constructor ()
      ensures Valid() && live == map[] && used == {} && descs == {} && fresh(chain)
      ensures |chains| == BUCKETS && forall b :: 0 <= b < BUCKETS ==> NoRoom(chains[b])
    {
      chain := new BucketDesc?[BUCKETS](_ => null);
      freeBucketDesc := null;
      mem, used := map[], {};
      descs, pool, live, descPages := {}, [], map[], {};
      chains := seq(BUCKETS, _ => []);
    }

    // ----- Page source -----

    /** Any page not handed out yet. */
    method GetFreePage() returns (p: int)
      modifies this`used
      ensures p > 0 && p % PAGE == 0 && p !in old(used) && used == old(used) + {p}
    {
      ghost var above := AbovePages(used);
      assert above !in used;
      p :| p > 0 && p % PAGE == 0 && p !in used;
      used := used + {p};
    }

    method FreePage(p: int)
      modifies this`used
      ensures used == old(used) - {p}
    {
      used := used - {p};
    }

    // ----- Slots -----

    /** Every other page survives a change of the words and live objects of one page. */
    lemma OthersGood(x: BucketDesc, mem': map<int, int>, live': set<int>)
      requires Pages() && AllGood(x) && x in descs && x.home >= 0
      requires forall a :: PageOf(a) != x.page && a in mem ==> a in mem' && mem'[a] == mem[a]
      requires forall a :: PageOf(a) != x.page ==> (a in live <==> a in live')
      ensures forall d :: d in descs && d.home >= 0 && d != x ==>
                d.refcnt >= 1 && 0 <= d.home < BUCKETS && d.bucketSize == Size(d.home)
                && PageOk(d.page, d.bucketSize, d.free, d.freeptr, d.refcnt, mem', live')
    {
      hide PageOk, PageOf, Size;
      forall d | d in descs && d.home >= 0 && d != x
        ensures d.refcnt >= 1 && 0 <= d.home < BUCKETS && d.bucketSize == Size(d.home)
                && PageOk(d.page, d.bucketSize, d.free, d.freeptr, d.refcnt, mem', live')
      {
        assert Good(d) && d.page != x.page;
        PageFrame(d.page, d.bucketSize, d.free, d.freeptr, d.refcnt, mem, live.Keys, mem', live', x.page);
      }
    }

    /** The words and live objects may become mem' and live' once x's own fields are updated
        to match: the other pages are unaffected. */
    ghost predicate Ready(x: BucketDesc, free: seq<int>, head: int, refcnt: int,
                          mem': map<int, int>, live': map<int, BucketDesc>)
      reads this`descs, descs`home, descs`bucketSize, descs`page, descs`free, descs`freeptr, descs`refcnt
    {
      && x in descs && 0 <= x.home < BUCKETS && x.bucketSize == Size(x.home)
      && PageOk(x.page, x.bucketSize, free, head, refcnt, mem', live'.Keys)
      && (forall d :: d in descs && d.home >= 0 && d != x ==>
            d.refcnt >= 1 && 0 <= d.home < BUCKETS && d.bucketSize == Size(d.home)
            && PageOk(d.page, d.bucketSize, d.free, d.freeptr, d.refcnt, mem', live'.Keys))
      && (forall o :: o in live' ==> OnPage(o, live'[o]))
    }

    lemma ReadyToTake(x: BucketDesc)
      requires Pages() && AllGood(x) && LiveOwned() && x in descs && x.home >= 0 && x.freeptr != 0
      ensures x.free != [] && x.freeptr in mem && x.freeptr !in live && PageOf(x.freeptr) == x.page
      ensures Ready(x, x.free[1..], mem[x.freeptr], x.refcnt + 1, mem, live[x.freeptr := x]) && x.refcnt >= 0
    {
      hide PageOk, IsSlot, PageOf, Size, Pages;
      assert Good(x);
      PageTake(x.page, x.bucketSize, x.free, x.freeptr, x.refcnt, mem, live.Keys);
      assert live[x.freeptr := x].Keys == live.Keys + {x.freeptr};
      OthersGood(x, mem, live.Keys + {x.freeptr});
    }

    lemma ReadyToGive(x: BucketDesc, obj: int)
      requires Pages() && AllGood(null) && LiveOwned() && obj in live && live[obj] == x
      ensures Ready(x, [obj] + x.free, obj, x.refcnt - 1, mem[obj := x.freeptr], live - {obj}) && x.refcnt >= 1
    {
      hide PageOk, IsSlot, PageOf, Size, Pages;
      assert OnPage(obj, x) && Good(x);
      PageGive(x.page, x.bucketSize, x.free, x.freeptr, x.refcnt, mem, live.Keys, obj);
      assert (live - {obj}).Keys == live.Keys - {obj};
      OthersGood(x, mem[obj := x.freeptr], live.Keys - {obj});
    }

    /** Making the update that Ready describes. */
    method SetPage(x: BucketDesc, ghost free: seq<int>, head: int, refcnt: int,
                   mem': map<int, int>, ghost live': map<int, BucketDesc>)
      requires Ready(x, free, head, refcnt, mem', live') && refcnt >= 0
      modifies this`live, this`mem, x`freeptr, x`refcnt, x`free
      ensures AllGood(x)
      ensures LiveOwned()
      ensures mem == mem' && live == live' && x.freeptr == head && x.refcnt == refcnt && x.free == free
    {
      hide PageOk, OnPage, Size;
      mem := mem';
      x.freeptr := head;
      x.refcnt := refcnt;
      live := live';
      x.free := free;
      forall d | d in descs && d.home >= 0 ensures Good(d) && d.refcnt >= (if d == x then 0 else 1) {}
    }

    /** The end of malloc: the first free slot of a page becomes live. */
    method TakeSlot(bdesc: BucketDesc) returns (retval: int)
      requires Lists() && Pages() && Supply() && AllGood(bdesc) && LiveOwned()
      requires bdesc in descs && bdesc.home >= 0 && bdesc.freeptr != 0
      modifies this`live, this`mem, bdesc`freeptr, bdesc`refcnt, bdesc`free
      ensures Valid()
      ensures retval !in old(live) && live == old(live)[retval := bdesc] && mem == old(mem)
      ensures retval == old(bdesc.freeptr) && old(bdesc.free) != [] && bdesc.free == old(bdesc.free)[1..]
    {
      hide Ready, Lists, Pages, Supply, Good, LiveOwned;
      ReadyToTake(bdesc);
      retval := bdesc.freeptr;
      SetPage(bdesc, bdesc.free[1..], mem[retval], bdesc.refcnt + 1, mem, live[retval := bdesc]);
    }

    lemma NotNull(obj: int)
      requires AllGood(null) && LiveOwned() && obj in live
      ensures obj > 0
    {
      hide Size;
      assert OnPage(obj, live[obj]) && Good(live[obj]);
    }

    /** The start of free_s past cli(): obj goes back on its page's list. */
    method ReleaseSlot(obj: int, bdesc: BucketDesc)
      requires Valid() && obj in live && live[obj] == bdesc
      modifies this`live, this`mem, bdesc`freeptr, bdesc`refcnt, bdesc`free
      ensures Inv(bdesc) && live == old(live) - {obj} && bdesc.refcnt == old(bdesc.refcnt) - 1
      ensures mem == old(mem)[obj := old(bdesc.freeptr)] && bdesc.freeptr == obj != 0
    {
      hide Ready, Lists, Pages, Supply, AllGood, LiveOwned;
      ReadyToGive(bdesc, obj);
      NotNull(obj);
      SetPage(bdesc, [obj] + bdesc.free, obj, bdesc.refcnt - 1, mem[obj := bdesc.freeptr], live - {obj});
    }

    /** Live objects keep their descriptors, and those their chains and pages; descriptors are
        only ever added. */
    twostate predicate Kept(objs: set<int>)
      reads this`live, this`descs, descs`home, descs`page
    {
      && old(descs) <= descs && fresh(descs - old(descs))
      && forall o :: o in objs ==>
           && o in old(live) && o in live && live[o] == old(live[o]) && live[o] in old(descs)
           && live[o].home == old(live[o].home) && live[o].page == old(live[o].page)
    }

    /** Address a lies in the live object o. */
    ghost predicate Within(o: int, a: int)
      reads this`live, this`descs, descs`home
    {
      o in live && live[o] in descs && live[o].home >= 0 && o <= a < o + Size(live[o].home)
    }

    /** What these live objects held they still hold, word for word. */
    twostate predicate Intact(objs: set<int>)
      reads this`mem
    {
      forall o, a :: o in objs && a in old(mem) && old(Within(o, a)) ==> a in mem && mem[a] == old(mem)[a]
    }

    /** Nothing was written on any page that was in use. */
    twostate predicate PagesIntact()
      reads this`mem
    {
      forall a :: a in old(mem) && PageOf(a) in old(used) ==> a in mem && mem[a] == old(mem)[a]
    }

    twostate lemma NothingChanged()
      requires Valid() && descs == old(descs) && live == old(live)
      requires forall d {:trigger d.home} :: d in descs ==> unchanged(d`home, d`page)
      ensures Kept(live.Keys)
    {
      LiveHomes();
    }

    // ----- New buckets -----

    /** New descriptors go in front of the pool. */
    method ExtendPool(page: seq<BucketDesc>)
      requires Lists() && |page| == PER_PAGE && Distinct(page)
      requires forall i :: 0 <= i < |page| ==> page[i] !in descs && page[i].home == -1
      modifies this`freeBucketDesc, this`descs, this`pool, page`next
      ensures Lists() && freeBucketDesc != null
      ensures descs == old(descs) + Elements(page) && pool == page + old(pool)
    {
      LinkPage(page, freeBucketDesc);
      freeBucketDesc := page[0];
      pool := page + pool;
      descs := descs + Elements(page);
      forall b | 0 <= b < BUCKETS ensures Linked(chains[b], chain[b]) {
        assert old(Linked(chains[b], chain[b]));
      }
    }

    /** Descriptors outside the chains change nothing for pages and objects. */
    twostate lemma PoolOnly()
      requires old(descs) <= descs && live == old(live) && mem == old(mem)
      requires old(Pages() && AllGood(null) && LiveOwned())
      requires forall d :: d in descs && d !in old(descs) ==> d.home == -1
      requires forall d {:trigger d.home} :: d in old(descs) ==>
                 unchanged(d`home, d`bucketSize, d`page, d`free, d`freeptr, d`refcnt)
      ensures Pages()
      ensures AllGood(null)
      ensures LiveOwned()
      ensures BucketPages() == old(BucketPages())
    {
      hide PageOk, IsSlot, PageOf;
      forall d | d in descs && d.home >= 0 ensures Good(d) && d.refcnt >= 1 {
        assert old(Good(d));
      }
    }

    /** 256 fresh descriptors for the pool. */
    method GrowPool()
      requires Lists() && Pages() && AllGood(null) && LiveOwned()
      modifies this`freeBucketDesc, this`descs, this`pool
      ensures Lists() && freeBucketDesc != null
      ensures Pages()
      ensures AllGood(null)
      ensures LiveOwned()
      ensures BucketPages() == old(BucketPages())
      ensures old(descs) <= descs && |descs| == |old(descs)| + PER_PAGE && |pool| == |old(pool)| + PER_PAGE
      ensures forall d :: d in descs && d !in old(descs) ==> fresh(d) && d.home == -1
    {
      var page := DescriptorPage();
      hide Lists, Pages, AllGood, LiveOwned, BucketPages;
      ExtendPool(page);
      DistinctCount(page);
      assert old(descs) !! Elements(page);
      PoolOnly();
    }

    /** init_bucket_desc: a page of descriptors joins the pool. */
    method InitBucketDesc()
      requires Valid()
      modifies this`freeBucketDesc, this`used, this`descs, this`pool, this`descPages
      ensures Lists()
      ensures Pages()
      ensures Supply()
      ensures AllGood(null)
      ensures LiveOwned()
      ensures old(used) <= used && |pool| == |old(pool)| + PER_PAGE
      ensures freeBucketDesc != null && old(descs) <= descs && |descs| == |old(descs)| + PER_PAGE
      ensures forall d :: d in descs && d !in old(descs) ==> fresh(d) && d.home == -1
    {
      hide Lists, Pages, Supply, AllGood, LiveOwned, BucketPages;
      var p := GetFreePage();
      descPages := descPages + {p};
      GrowPool();
      DescSupply(p);
    }

    lemma SlotChain(page: int, size: int)
      requires Divides(size) && page > 0 && page % PAGE == 0
      ensures var n, s := PAGE / size, Slots(page, size, PAGE / size);
              && n > 0 && |s| == n && s[0] == page && Distinct(s)
              && (forall k {:trigger s[k]} :: 0 <= k < n ==> PageOf(s[k]) == page)
              && Evenly(s, size)
    {
      var n, s := PAGE / size, Slots(page, size, PAGE / size);
      SlotsAreSlots(page, size);
      forall k | 0 <= k < n ensures s[k] == page + k * size && PageOf(s[k]) == page {
        SlotAt(page, size, n, k);
        assert s[k] in s;
        SlotPage(page, size, s[k]);
      }
      forall k {:trigger s[k]} | 0 <= k < n - 1 ensures s[k + 1] == s[k] + size {
        Distribute(k, 1, size);
      }
    }

    /** The loop that threads a new page's slots, from the first to the last. */
    method ThreadSlots(page: int, size: int, n: nat, ghost s: seq<int>)
      requires n == |s| > 0 && s[0] == page && Distinct(s)
      requires forall k {:trigger s[k]} :: 0 <= k < n ==> PageOf(s[k]) == page
      requires Evenly(s, size)
      modifies this`mem
      ensures Threaded(mem, s, page)
      ensures forall a :: a in old(mem) && PageOf(a) != page ==> a in mem && mem[a] == old(mem)[a]
    {
      hide PageOf, Distinct, Threaded, Follows, Evenly;
      var cp, i := page, n;
      ghost var done := 0;
      while i > 1
        invariant 1 <= i <= n && done == n - i && cp == s[done]
        invariant forall k :: 0 <= k < done ==> Follows(mem, s, k)
        invariant forall a :: a in old(mem) && PageOf(a) != page ==> a in mem && mem[a] == old(mem)[a]
      {
        NextSlot(s, size, done);
        FollowsMore(mem, s, done, mem[cp := cp + size]);
        mem := mem[cp := cp + size];
        cp := cp + size;
        i, done := i - 1, done + 1;
      }
      AllThreaded(mem, s);
      mem := mem[cp := 0];
    }

    method ThreadPage(page: int, size: int)
      requires size > 0 && Divides(size) && page > 0 && page % PAGE == 0
      modifies this`mem
      ensures Threaded(mem, Slots(page, size, PAGE / size), page)
      ensures forall a :: a in old(mem) && PageOf(a) != page ==> a in mem && mem[a] == old(mem)[a]
    {
      hide Slots, PageOf, Divides, Distinct, Threaded, Evenly;
      SlotChain(page, size);
      ThreadSlots(page, size, PAGE / size, Slots(page, size, PAGE / size));
    }

    /** No object is on a page the source still held. */
    lemma NewPageEmpty(p: int)
      requires LiveOwned() && p !in BucketPages()
      ensures forall o :: o in live ==> PageOf(o) != p
    {
      forall o | o in live ensures PageOf(o) != p {
        assert OnPage(o, live[o]);
      }
    }

    /** The chained descriptors survive the threading of a new page and the setting up of a
        descriptor that is not chained yet. */
    twostate lemma OthersSurvive(p: int)
      requires descs == old(descs) && live == old(live)
      requires old(Pages() && AllGood(null) && LiveOwned()) && p !in old(BucketPages())
      requires forall d {:trigger d.home} :: d in descs ==> d.home == old(d.home)
      requires forall d {:trigger d.home} :: d in descs && d.home >= 0 ==>
                 unchanged(d`bucketSize, d`page, d`free, d`freeptr, d`refcnt)
      requires forall a :: PageOf(a) != p && a in old(mem) ==> a in mem && mem[a] == old(mem)[a]
      ensures AllGood(null)
      ensures Pages()
      ensures LiveOwned()
      ensures BucketPages() == old(BucketPages())
    {
      hide PageOk, PageOf, Size, IsSlot;
      forall d | d in descs && d.home >= 0 ensures Good(d) && d.refcnt >= 1 {
        assert old(Good(d)) && d.page in old(BucketPages());
        PageFrame(d.page, d.bucketSize, d.free, d.freeptr, d.refcnt, old(mem), live.Keys, mem, live.Keys, p);
      }
    }

    /** A descriptor out of the pool gets a page, all of it free. */
    method SetupPage(bdesc: BucketDesc, bdir: nat)
      requires Pages() && Supply() && AllGood(null) && LiveOwned()
      requires bdesc in descs && bdesc.home == -1 && bdir < BUCKETS
      modifies this`used, this`mem, bdesc`page, bdesc`freeptr, bdesc`refcnt, bdesc`bucketSize, bdesc`free
      ensures AllGood(null)
      ensures Pages()
      ensures LiveOwned()
      ensures BucketPages() == old(BucketPages()) && bdesc.page !in old(used) && used == old(used) + {bdesc.page}
      ensures bdesc.bucketSize == Size(bdir) && bdesc.refcnt == 0 && bdesc.freeptr == bdesc.page != 0
      ensures bdesc.free == PageSlots(bdesc.page, bdir)
      ensures PageOk(bdesc.page, bdesc.bucketSize, bdesc.free, bdesc.freeptr, bdesc.refcnt, mem, live.Keys)
      ensures PagesIntact()
    {
      hide PageOk, PageOf, Pages, AllGood, LiveOwned, IsSlot, Size, Slots, Threaded, BucketPages;
      SizeDivides(bdir);
      bdesc.refcnt := 0;
      bdesc.bucketSize := Size(bdir);
      var cp := GetFreePage();
      NewPageEmpty(cp);
      bdesc.page := cp;
      bdesc.freeptr := cp;
      ThreadPage(cp, Size(bdir));
      NewPageOk(cp, Size(bdir), mem, live.Keys);
      bdesc.free := PageSlots(cp, bdir);
      OthersSurvive(cp);
    }

    /** A set-up descriptor joins its chain. */
    method Enlist(bdir: nat, bdesc: BucketDesc)
      requires ListsBut(bdesc) && Pages() && AllGood(null) && LiveOwned()
      requires bdesc in descs && bdesc.home == -1 && bdir < BUCKETS
      requires bdesc.page !in BucketPages() && bdesc.bucketSize == Size(bdir) && bdesc.refcnt == 0
      requires PageOk(bdesc.page, bdesc.bucketSize, bdesc.free, bdesc.freeptr, bdesc.refcnt, mem, live.Keys)
      modifies this`chains, chain, bdesc`next, bdesc`home
      ensures Lists() && bdesc.home == bdir
      ensures Pages()
      ensures AllGood(bdesc)
      ensures LiveOwned()
      ensures BucketPages() == old(BucketPages()) + {bdesc.page}
      ensures chains == old(chains)[bdir := [bdesc] + old(chains[bdir])]
    {
      hide ListsBut, Lists, PageOk, PageOf, IsSlot, Size;
      assert forall d :: d in descs && d.home >= 0 ==> d.page in BucketPages();
      PushChain(bdir, bdesc);
      forall d | d in descs && d.home >= 0 ensures Good(d) && d.refcnt >= (if d == bdesc then 0 else 1) {
        assert d != bdesc ==> old(Good(d));
      }
    }

    lemma PoolEnds()
      requires Lists()
      ensures freeBucketDesc == null <==> pool == []
    {}

    /** bdesc was the first of the pool, which was refilled with 256 descriptors if it was empty. */
    twostate predicate TookDesc(new bdesc: BucketDesc)
      reads this`pool, this`descs, this`descPages
    {
      if old(pool) == [] then
        |pool| == PER_PAGE - 1 && |descs| == |old(descs)| + PER_PAGE
      else
        old(pool) == [bdesc] + pool && descs == old(descs) && descPages == old(descPages)
    }

    /** A descriptor out of the pool, refilled first when empty. */
    method TakeDesc() returns (bdesc: BucketDesc)
      requires Valid()
      modifies this`freeBucketDesc, this`used, this`descs, this`pool, this`descPages
      ensures ListsBut(bdesc) && bdesc in descs && bdesc.home == -1
      ensures Pages()
      ensures Supply()
      ensures AllGood(null)
      ensures LiveOwned()
      ensures old(used) <= used
      ensures old(descs) <= descs && forall d :: d in descs && d !in old(descs) ==> fresh(d)
      ensures TookDesc(bdesc) && (old(pool) != [] ==> used == old(used))
    {
      hide ListsBut, Pages, Supply, AllGood, LiveOwned;
      PoolEnds();
      if freeBucketDesc == null {
        InitBucketDesc();
      }
      bdesc := PopPool();
    }

    lemma PagesInUse()
      requires Supply()
      ensures BucketPages() <= used
    {}

    /** A bucket page joins the supply. */
    twostate lemma BucketSupply(p: int)
      requires old(Supply()) && p !in old(used) && used == old(used) + {p}
      requires descs == old(descs) && descPages == old(descPages) && BucketPages() == old(BucketPages()) + {p}
      ensures Supply()
    {
      hide BucketPages;
    }

    /** A descriptor page joins the supply. */
    twostate lemma DescSupply(p: int)
      requires old(Supply()) && p !in old(used) && used == old(used) + {p}
      requires descPages == old(descPages) + {p} && BucketPages() == old(BucketPages())
      requires |descs| == |old(descs)| + PER_PAGE
      ensures Supply()
    {
      hide BucketPages;
      OneMorePage(old(descPages), p);
    }

    lemma AllOf(x: BucketDesc?)
      requires Lists() && Pages() && Supply() && AllGood(x) && LiveOwned()
      ensures Inv(x)
    {}

    /** A descriptor in no list gets a page and joins its chain. */
    method EquipDesc(bdesc: BucketDesc, bdir: nat)
      requires ListsBut(bdesc) && Pages() && Supply() && AllGood(null) && LiveOwned()
      requires bdesc in descs && bdesc.home == -1 && bdir < BUCKETS
      modifies this`used, this`mem, this`chains, chain
      modifies bdesc`page, bdesc`freeptr, bdesc`refcnt, bdesc`bucketSize, bdesc`free, bdesc`next, bdesc`home
      ensures Inv(bdesc)
      ensures bdesc.home == bdir && bdesc.refcnt == 0 && bdesc.freeptr == bdesc.page != 0
      ensures bdesc.free == PageSlots(bdesc.page, bdir)
      ensures bdesc.page !in old(used) && used == old(used) + {bdesc.page}
      ensures chains == old(chains)[bdir := [bdesc] + old(chains[bdir])]
      ensures forall o :: o in live ==> live[o] != bdesc
      ensures PagesIntact()
    {
      hide ListsBut, Lists, Pages, Supply, AllGood, LiveOwned, PageOk, Size, BucketPages, PageOf, IsSlot, Inv;
      LiveHomes();
      PagesInUse();
      SetupPage(bdesc, bdir);
      Enlist(bdir, bdesc);
      BucketSupply(bdesc.page);
      AllOf(bdesc);
    }

    lemma ChainCount()
      requires Lists()
      ensures |chains| == BUCKETS
    {}

    /** malloc's way out when no page of the bucket has room. */
    method NewBucket(bdir: nat) returns (bdesc: BucketDesc)
      requires Valid() && bdir < BUCKETS
      modifies this`freeBucketDesc, this`used, this`mem, this`descs, this`pool, this`descPages, this`chains
      modifies chain, descs
      ensures Inv(bdesc)
      ensures bdesc in descs && bdesc.home == bdir && bdesc.refcnt == 0 && bdesc.freeptr == bdesc.page != 0
      ensures bdesc.free == PageSlots(bdesc.page, bdir)
      ensures bdesc.page !in old(used) && old(used) + {bdesc.page} <= used
      ensures TookDesc(bdesc) && (old(pool) != [] ==> used == old(used) + {bdesc.page})
      ensures bdir < |old(chains)| && chains == old(chains)[bdir := [bdesc] + old(chains[bdir])]
      ensures Kept(live.Keys)
      ensures PagesIntact()
    {
      hide Lists, ListsBut, Pages, Supply, AllGood, LiveOwned;
      LiveHomes();
      ChainCount();
      bdesc := TakeDesc();
      EquipDesc(bdesc, bdir);
    }

    // ----- The unlink in free_s -----

    /** Whatever prev is by now, a prev whose next field names bdesc is its predecessor. */
    lemma PassesCheck(bdir: nat, k: nat, prev: BucketDesc)
      requires Lists() && bdir < BUCKETS && k < |chains[bdir]|
      requires prev in descs && prev.next == chains[bdir][k]
      ensures k > 0 && prev == chains[bdir][k - 1]
    {
      if prev.home != -1 {
        var i :| 0 <= i < |chains[prev.home]| && chains[prev.home][i] == prev;
        assert Linked(chains[prev.home], chain[prev.home]);
        assert i + 1 < |chains[prev.home]| && chains[prev.home][i + 1] == chains[bdir][k];
      }
    }

    /** The re-check after cli(): keep prev if it still points at bdesc, else search again. */
    method RecheckPrev(bdir: nat, ghost k: nat, bdesc: BucketDesc, prev0: BucketDesc?) returns (prev: BucketDesc?)
      requires Lists() && bdir < BUCKETS && k < |chains[bdir]| && bdesc == chains[bdir][k]
      requires prev0 == null || prev0 in descs
      ensures if k == 0 then prev == null && chain[bdir] == bdesc else prev == chains[bdir][k - 1]
    {
      assert Linked(chains[bdir], chain[bdir]) && Distinct(chains[bdir]);
      prev := prev0;
      if (prev != null && prev.next != bdesc) || (prev == null && chain[bdir] != bdesc) {
        prev := chain[bdir];
        ghost var i := 0;
        while prev != null && prev.next != bdesc
          invariant 0 <= i <= |chains[bdir]|
          invariant prev == if i < |chains[bdir]| then chains[bdir][i] else null
          invariant forall j :: 0 <= j < i ==> chains[bdir][j].next != bdesc
          decreases |chains[bdir]| - i
        {
          prev := prev.next;
          i := i + 1;
        }
      }
      if prev != null {
        PassesCheck(bdir, k, prev);
      }
    }

    /** The predecessor is in one place only. */
    lemma OnePlace(bdir: nat, k: nat)
      requires Lists() && bdir < BUCKETS && k < |chains[bdir]|
      ensures forall i :: 0 <= i < |chains[bdir]| && i != k ==> chains[bdir][i] != chains[bdir][k]
      ensures forall b, i :: 0 <= b < BUCKETS && b != bdir && 0 <= i < |chains[b]| ==> chains[b][i] != chains[bdir][k]
      ensures forall i :: 0 <= i < |pool| ==> pool[i] != chains[bdir][k]
    {}

    /** prev->next = bdesc->next */
    method BypassInside(bdir: nat, ghost k: nat, bdesc: BucketDesc, prev: BucketDesc)
      requires Lists() && bdir < BUCKETS && k < |chains[bdir]| && bdesc == chains[bdir][k]
      requires k > 0 && prev == chains[bdir][k - 1]
      modifies descs`next
      ensures Linked(Without(chains[bdir], k), chain[bdir]) && Linked(pool, freeBucketDesc)
      ensures forall b :: 0 <= b < BUCKETS && b != bdir ==> Linked(chains[b], chain[b])
    {
      ghost var s, t := chains[bdir], Without(chains[bdir], k);
      assert Linked(s, chain[bdir]) && Linked(pool, freeBucketDesc);
      OnePlace(bdir, k - 1);
      hide Distinct;
      prev.next := bdesc.next;
      forall i | 0 <= i < |t| ensures t[i].next == if i + 1 < |t| then t[i + 1] else null {
        assert t[i] == if i < k then s[i] else s[i + 1];
      }
      assert Linked(t, chain[bdir]);
      forall b | 0 <= b < BUCKETS && b != bdir ensures Linked(chains[b], chain[b]) {
        assert old(Linked(chains[b], chain[b]));
        forall i | 0 <= i < |chains[b]| ensures chains[b][i] != prev {}
      }
      forall i | 0 <= i < |pool| ensures pool[i] != prev {}
    }

    /** chain[bdir] = bdesc->next */
    method BypassHead(bdir: nat, bdesc: BucketDesc)
      requires Lists() && bdir < BUCKETS && chains[bdir] != [] && bdesc == chains[bdir][0]
      modifies chain
      ensures Linked(Without(chains[bdir], 0), chain[bdir]) && Linked(pool, freeBucketDesc)
      ensures forall b :: 0 <= b < BUCKETS && b != bdir ==> Linked(chains[b], chain[b])
    {
      ghost var s := chains[bdir];
      assert Linked(s, chain[bdir]) && Linked(pool, freeBucketDesc);
      if chain[bdir] != bdesc {
        // panic("malloc bucket chains corrupted")
        assert false;
      }
      hide Distinct;
      chain[bdir] := bdesc.next;
      assert Without(s, 0) == s[1..];
      forall b | 0 <= b < BUCKETS && b != bdir ensures Linked(chains[b], chain[b]) {
        assert old(Linked(chains[b], chain[b]));
      }
    }

    /** prev->next = bdesc->next, or the chain head when there is no prev. */
    method Bypass(bdir: nat, ghost k: nat, bdesc: BucketDesc, prev: BucketDesc?)
      requires Lists() && bdir < BUCKETS && k < |chains[bdir]| && bdesc == chains[bdir][k]
      requires if k == 0 then prev == null else prev == chains[bdir][k - 1]
      modifies chain, descs`next
      ensures Linked(Without(chains[bdir], k), chain[bdir]) && Linked(pool, freeBucketDesc)
      ensures forall b :: 0 <= b < BUCKETS && b != bdir ==> Linked(chains[b], chain[b])
    {
      hide Linked;
      if prev != null {
        BypassInside(bdir, k, bdesc, prev);
      } else {
        BypassHead(bdir, bdesc);
      }
    }

    /** bdesc is unlinked from its chain. */
    method RemoveFromChain(bdir: nat, ghost k: nat, bdesc: BucketDesc, prev: BucketDesc?)
      requires Lists() && bdir < BUCKETS && k < |chains[bdir]| && bdesc == chains[bdir][k]
      requires if k == 0 then prev == null else prev == chains[bdir][k - 1]
      modifies this`chains, chain, descs`next
      ensures ListsBut(bdesc)
      ensures chains == old(chains)[bdir := Without(old(chains[bdir]), k)]
    {
      hide Linked, Distinct;
      ghost var s, t := chains[bdir], Without(chains[bdir], k);
      WithoutMembers(s, k);
      forall i | 0 <= i < |t| ensures t[i] in descs && t[i].home == bdir && t[i] != bdesc {
        assert t[i] in t;
      }
      hide Without;
      Bypass(bdir, k, bdesc, prev);
      chains := chains[bdir := t];
    }

    /** A descriptor in no list enters the pool. */
    method PushPool(bdesc: BucketDesc)
      requires ListsBut(bdesc) && bdesc in descs
      modifies this`freeBucketDesc, this`pool, bdesc`next, bdesc`home
      ensures Lists() && bdesc.home == -1 && pool == [bdesc] + old(pool)
    {
      bdesc.next := freeBucketDesc;
      freeBucketDesc := bdesc;
      pool := [bdesc] + pool;
      bdesc.home := -1;
    }

    /** PushPool, for a descriptor that had a page. */
    method Retire(bdesc: BucketDesc)
      requires ListsBut(bdesc) && Pages() && bdesc in descs && bdesc.home >= 0
      modifies this`freeBucketDesc, this`pool, bdesc`next, bdesc`home
      ensures Lists()
      ensures Pages()
      ensures bdesc.home == -1 && pool == [bdesc] + old(pool)
      ensures BucketPages() == old(BucketPages()) - {bdesc.page} && bdesc.page in old(BucketPages())
    {
      hide ListsBut, Lists;
      PushPool(bdesc);
    }

    /** The first descriptor of the pool is taken out. */
    method PopPool() returns (bdesc: BucketDesc)
      requires Lists() && freeBucketDesc != null
      modifies this`freeBucketDesc, this`pool
      ensures bdesc in descs && bdesc.home == -1 && ListsBut(bdesc)
      ensures old(pool) == [bdesc] + pool
    {
      bdesc := freeBucketDesc;
      freeBucketDesc := bdesc.next;
      pool := pool[1..];
    }

    /** A descriptor in no list becomes the head of a chain. */
    method PushChain(bdir: nat, bdesc: BucketDesc)
      requires ListsBut(bdesc) && bdesc in descs && bdir < BUCKETS
      modifies this`chains, chain, bdesc`next, bdesc`home
      ensures Lists() && bdesc.home == bdir
      ensures chains == old(chains)[bdir := [bdesc] + old(chains[bdir])]
    {
      ghost var was := chains;
      bdesc.next := chain[bdir];
      chain[bdir] := bdesc;
      chains := chains[bdir := [bdesc] + chains[bdir]];
      bdesc.home := bdir;
      forall b | 0 <= b < BUCKETS ensures Linked(chains[b], chain[b]) && Distinct(chains[b]) {
        assert old(Linked(chains[b], chain[b])) && Distinct(was[b]);
        forall i | 0 <= i < |was[b]| ensures was[b][i] != bdesc {}
      }
    }

    /** A page whose refcnt has reached zero holds no live object. */
    lemma NoLive(x: BucketDesc)
      requires AllGood(x) && LiveOwned() && x in descs && x.home >= 0 && x.refcnt == 0
      ensures forall o :: o in live ==> live[o] != x
    {
      assert Good(x);
      SizeDivides(x.home);
      NoLiveSlots(x.page, x.bucketSize, x.free, x.freeptr, x.refcnt, mem, live.Keys);
      hide PageOk, Size, IsSlot, PageOf, AllGood, Good;
      forall o | o in live ensures live[o] != x {
        assert OnPage(o, live[o]);
      }
    }

    /** Retiring a descriptor whose page is empty leaves the other pages and all objects in order. */
    method RetireEmpty(bdesc: BucketDesc)
      requires ListsBut(bdesc) && Pages() && AllGood(bdesc) && LiveOwned()
      requires bdesc in descs && bdesc.home >= 0 && bdesc.refcnt == 0
      modifies this`freeBucketDesc, this`pool, bdesc`next, bdesc`home
      ensures Lists() && Pages()
      ensures AllGood(null)
      ensures LiveOwned()
      ensures pool == [bdesc] + old(pool)
      ensures BucketPages() == old(BucketPages()) - {bdesc.page} && bdesc.page in old(BucketPages())
    {
      hide Size, ListsBut, Lists, Pages, BucketPages, Good, PageOf, IsSlot;
      NoLive(bdesc);
      Retire(bdesc);
      forall d | d in descs && d.home >= 0 ensures Good(d) && d.refcnt >= 1 {
        assert d != bdesc && old(Good(d));
      }
    }

    /** The page goes back to its source and the descriptor, in no list now, to the pool. */
    method Recycle(bdesc: BucketDesc)
      requires ListsBut(bdesc) && Pages() && Supply() && AllGood(bdesc) && LiveOwned()
      requires bdesc in descs && bdesc.home >= 0 && bdesc.refcnt == 0
      modifies this`freeBucketDesc, this`used, this`pool, bdesc`next, bdesc`home
      ensures Inv(null)
      ensures pool == [bdesc] + old(pool) && used == old(used) - {bdesc.page}
    {
      hide ListsBut, Lists, Pages, AllGood, LiveOwned, BucketPages;
      FreePage(bdesc.page);
      RetireEmpty(bdesc);
    }

    /** free_s once refcnt is zero: unlink, free the page, recycle the descriptor. */
    method Unlink(bdir: nat, ghost k: nat, bdesc: BucketDesc, prev0: BucketDesc?)
      requires Inv(bdesc) && bdesc in descs && bdesc.home == bdir && bdesc.refcnt == 0
      requires bdir < BUCKETS == |chains| && k < |chains[bdir]| && bdesc == chains[bdir][k]
      requires prev0 == null || prev0 in descs
      modifies this`freeBucketDesc, this`used, this`chains, this`pool, chain, descs`next, bdesc`home
      ensures Valid()
      ensures chains == old(chains)[bdir := Without(old(chains[bdir]), k)] && pool == [bdesc] + old(pool)
      ensures used == old(used) - {bdesc.page}
    {
      hide Lists, ListsBut, Pages, Supply, AllGood, LiveOwned, Without;
      var prev := RecheckPrev(bdir, k, bdesc, prev0);
      RemoveFromChain(bdir, k, bdesc, prev);
      Recycle(bdesc);
    }

    // ----- malloc -----

    /** The first descriptor of a chain whose page has room. */
    method FindRoom(bdir: nat) returns (bdesc: BucketDesc?)
      requires Lists() && bdir < BUCKETS
      ensures bdesc != null ==> bdesc in descs && bdesc.home == bdir && bdesc.freeptr != 0
      ensures forall i :: FirstWithRoom(chains[bdir], i) ==> bdesc == chains[bdir][i]
      ensures bdesc == null <==> NoRoom(chains[bdir])
    {
      assert Linked(chains[bdir], chain[bdir]);
      bdesc := chain[bdir];
      ghost var k := 0;
      while bdesc != null && bdesc.freeptr == 0
        invariant 0 <= k <= |chains[bdir]|
        invariant bdesc == if k < |chains[bdir]| then chains[bdir][k] else null
        invariant forall i :: 0 <= i < k ==> chains[bdir][i].freeptr == 0
        decreases |chains[bdir]| - k
      {
        bdesc := bdesc.next;
        k := k + 1;
      }
    }

    /** No page was taken, no descriptor moved. */
    twostate predicate SamePages()
      reads this`used, this`descs, this`descPages, this`chains, this`pool
    {
      && used == old(used) && descPages == old(descPages) && descs == old(descs)
      && chains == old(chains) && pool == old(pool)
    }

    /** A page the source still held went to d, now at the head of chain b; nothing else was taken
        unless the pool had run out. */
    twostate predicate NewPage(b: nat, new d: BucketDesc)
      reads this`used, this`descs, this`descPages, this`chains, this`pool, d`page
    {
      && d.page !in old(used) && old(used) + {d.page} <= used && TookDesc(d)
      && (old(pool) != [] ==> used == old(used) + {d.page})
      && b < |old(chains)| && chains == old(chains)[b := [d] + old(chains)[b]]
    }

    /** A page of this bucket with room, a new one if need be. */
    method RoomFor(bdir: nat) returns (bdesc: BucketDesc)
      requires Valid() && bdir < BUCKETS
      modifies this`freeBucketDesc, this`used, this`mem, this`descs, this`pool, this`descPages, this`chains
      modifies chain, descs
      ensures Inv(bdesc)
      ensures bdesc in descs && bdesc.home == bdir && bdesc.freeptr != 0
      ensures Kept(live.Keys)
      ensures PagesIntact()
      ensures bdir < |old(chains)|
      ensures if old(NoRoom(chains[bdir])) then NewPage(bdir, bdesc) && bdesc.freeptr == bdesc.page
                && bdesc.free == PageSlots(bdesc.page, bdir)
              else SamePages() && unchanged(bdesc`freeptr)
      ensures forall i :: old(FirstWithRoom(chains[bdir], i)) ==> bdesc == old(chains[bdir][i])
    {
      hide Lists, Pages, Supply, AllGood, LiveOwned, NoRoom, FirstWithRoom, PageSlots, Size, PageOf, BucketPages;
      ChainCount();
      NoFirst(chains[bdir]);
      var found := FindRoom(bdir);
      if found == null {
        bdesc := NewBucket(bdir);
      } else {
        bdesc := found;
        Weaken(bdesc);
        NothingChanged();
      }
    }

    /** A slot from a page of this bucket. */
    method AllocFrom(bdir: nat) returns (retval: int)
      requires Valid() && bdir < BUCKETS
      modifies this`freeBucketDesc, this`used, this`mem, this`descs, this`pool, this`descPages, this`chains, this`live
      modifies chain, descs
      ensures Valid()
      ensures retval !in old(live) && live.Keys == old(live).Keys + {retval} && live[retval].home == bdir
      ensures retval > 0
      ensures Kept(old(live.Keys))
      ensures PagesIntact()
      ensures bdir < |old(chains)|
      ensures old(NoRoom(chains[bdir])) ==> NewPage(bdir, live[retval]) && retval == live[retval].page
      ensures old(NoRoom(chains[bdir])) ==> live[retval].free == PageSlots(retval, bdir)[1..]
      ensures forall i :: old(FirstWithRoom(chains[bdir], i)) ==>
                && live[retval] == old(chains[bdir][i]) && retval == old(chains[bdir][i].freeptr)
                && SamePages()
    {
      hide Lists, Pages, Supply, AllGood, LiveOwned, NoRoom, FirstWithRoom, PageSlots, Size, PageOf, BucketPages;
      ChainCount();
      NoFirst(chains[bdir]);
      var bdesc := RoomFor(bdir);
      retval := TakeSlot(bdesc);
      NotNull(retval);
    }

    /** malloc(len): a slot of the smallest bucket that fits, not live before. It is the first free
        slot of the first page of that bucket with room, and nothing is taken; only when no page of
        the bucket has room is it the front of a new page. */
    method Malloc(len: nat) returns (r: Pointer)
      requires Valid()
      modifies this`freeBucketDesc, this`used, this`mem, this`descs, this`pool, this`descPages, this`chains, this`live
      modifies chain, descs
      ensures Valid()
      ensures r.Panic? <==> len > PAGE
      ensures r.Panic? ==> live == old(live) && SamePages()
      ensures r.Pointer? ==> r.addr > 0 && r.addr !in old(live) && live.Keys == old(live).Keys + {r.addr}
      ensures r.Pointer? ==> IsBucketFor(live[r.addr].home, len)
      ensures Kept(old(live.Keys))
      ensures Intact(old(live.Keys))
      ensures |old(chains)| == BUCKETS
      ensures forall b, i :: IsBucketFor(b, len) && old(FirstWithRoom(chains[b], i)) ==>
                && r == Pointer(old(chains[b][i].freeptr)) && live[r.addr] == old(chains[b][i])
                && SamePages()
      ensures forall b :: IsBucketFor(b, len) && old(NoRoom(chains[b])) ==>
                && r.Pointer? && NewPage(b, live[r.addr]) && r.addr == live[r.addr].page
                && live[r.addr].freeptr == (if Size(b) < PAGE then r.addr + Size(b) else 0)
    {
      hide Inv, Valid, IsBucketFor, PageOf, Within, FirstWithRoom, NoRoom, Size, PageSlots;
      LivePagesUsed();
      ValidCount();
      var bdir := FindBucket(len);
      OneBucket(len);
      if bdir == BUCKETS {
        // panic("malloc: bad arg")
        r := Panic;
        NothingChanged();
      } else {
        var retval := AllocFrom(bdir);
        Described();
        NextFree(live[retval], retval);
        r := Pointer(retval);
      }
    }

    lemma ValidCount()
      requires Valid()
      ensures |chains| == BUCKETS
    {}

    /** What follows the front of a new page. */
    lemma NextFree(x: BucketDesc, page: int)
      requires Valid() && x in descs && 0 <= x.home < BUCKETS
      ensures x.free == PageSlots(page, x.home)[1..] ==>
                x.freeptr == if Size(x.home) < PAGE then page + Size(x.home) else 0
    {
      hide Lists, Pages, Supply, LiveOwned, Size;
      assert Good(x);
      SizeDivides(x.home);
      var size, n := Size(x.home), PAGE / Size(x.home);
      if n > 1 {
        SlotAt(page, size, n, 1);
      }
    }

    /** Live objects lie on pages in use. */
    lemma LivePagesUsed()
      requires Valid()
      ensures forall o, a :: Within(o, a) ==> PageOf(a) in used
    {
      hide Size, Lists, Pages, AllGood, PageOf, IsSlot;
      forall o, a | Within(o, a) ensures PageOf(a) in used {
        OwnSlot(o);
        SlotEnd(live[o].page, Size(live[o].home), o);
        InPage(live[o].page, a);
        assert live[o].page in BucketPages();
      }
    }

    /** No other live object contains this one's address. */
    lemma OthersElsewhere(obj: int)
      requires Valid() && obj in live
      ensures forall o, a :: Within(o, a) && Within(obj, a) ==> o == obj
      ensures Within(obj, obj)
    {
      hide Valid, Size;
      Described();
      forall o, a | Within(o, a) && Within(obj, a) ensures o == obj {
        if o != obj {
          LiveDisjoint(o, obj);
        }
      }
    }

    lemma Weaken(x: BucketDesc)
      requires AllGood(null)
      ensures AllGood(x)
    {}

    lemma LiveHomes()
      requires LiveOwned()
      ensures forall o :: o in live ==> live[o] in descs && live[o].home >= 0
    {
      forall o | o in live ensures live[o] in descs && live[o].home >= 0 {
        assert OnPage(o, live[o]);
      }
    }

    // ----- free_s -----

    /** The search in one chain, keeping the predecessor. */
    method SearchChain(bdir: nat, page: int) returns (bdesc: BucketDesc?, prev: BucketDesc?)
      requires Lists() && bdir < BUCKETS
      ensures prev == null || prev in descs
      ensures bdesc != null ==> bdesc in descs && bdesc.home == bdir && bdesc.page == page
      ensures bdesc == null ==> forall i :: 0 <= i < |chains[bdir]| ==> chains[bdir][i].page != page
    {
      assert Linked(chains[bdir], chain[bdir]);
      prev := null;
      bdesc := chain[bdir];
      ghost var k := 0;
      while bdesc != null && bdesc.page != page
        invariant 0 <= k <= |chains[bdir]|
        invariant bdesc == if k < |chains[bdir]| then chains[bdir][k] else null
        invariant prev == if k > 0 then chains[bdir][k - 1] else null
        invariant forall i :: 0 <= i < k ==> chains[bdir][i].page != page
        decreases |chains[bdir]| - k
      {
        prev := bdesc;
        bdesc := bdesc.next;
        k := k + 1;
      }
    }

    lemma InOwnChain(obj: int) returns (b: nat, k: nat)
      requires Valid() && obj in live
      ensures live[obj].home == b < BUCKETS == |chains|
      ensures k < |chains[b]| && chains[b][k] == live[obj]
      ensures forall i :: 0 <= i < |chains[b]| ==> chains[b][i] in descs
      ensures forall i :: 0 <= i < |chains[b]| && i != k ==> chains[b][i] != live[obj]
    {
      hide Pages, Supply, AllGood;
      assert OnPage(obj, live[obj]);
      InChain(live[obj]);
      b := live[obj].home;
      k :| 0 <= k < |chains[b]| && chains[b][k] == live[obj];
      OnePlace(b, k);
    }

    lemma InChain(d: BucketDesc)
      requires Lists() && d in descs && d.home >= 0
      ensures d.home < BUCKETS == |chains| && exists i :: 0 <= i < |chains[d.home]| && chains[d.home][i] == d
    {}

    /** The search that opens free_s; a size hint skips the buckets that are too small, and the
        object is found exactly when its own is not among them. */
    method Search(obj: int, size: nat) returns (bdir: nat, bdesc: BucketDesc?, prev: BucketDesc?)
      requires Valid() && obj in live
      ensures bdesc == null <==> size > Size(live[obj].home)
      ensures bdesc != null ==> bdesc == live[obj] && bdesc in descs && bdir == bdesc.home < BUCKETS
      ensures prev == null || prev in descs
    {
      hide ListsBut, Lists, Supply, AllGood, IsSlot, PageOf;
      var page := PageOf(obj);
      ghost var target := live[obj];
      assert OnPage(obj, target);
      InChain(target);
      bdir := 0;
      prev := null;
      bdesc := null;
      while bdir < BUCKETS && bdesc == null
        invariant 0 <= bdir <= BUCKETS && (prev == null || prev in descs)
        invariant bdesc == null ==> bdir <= target.home || size > Size(target.home)
        invariant bdesc != null ==> bdesc == target && bdir == target.home && size <= Size(bdir)
        decreases BUCKETS - bdir, bdesc == null
      {
        prev := null;
        if Size(bdir) >= size {
          bdesc, prev := SearchChain(bdir, page);
        }
        if bdesc == null {
          bdir := bdir + 1;
        }
      }
    }

    /** What becomes of the descriptor once an object is released. */
    method Settle(bdir: nat, bdesc: BucketDesc, prev: BucketDesc?)
      requires Inv(bdesc) && bdesc in descs && bdesc.home == bdir < BUCKETS
      requires prev == null || prev in descs
      modifies this`freeBucketDesc, this`used, this`pool, this`chains, chain, descs`next, bdesc`home
      ensures Valid()
      ensures forall o :: o in live ==> live[o].home == old(live[o].home)
      ensures if bdesc.refcnt > 0 then chains == old(chains) && pool == old(pool) && used == old(used)
              else UnlinkedFrom(bdir, bdesc) && pool == [bdesc] + old(pool) && used == old(used) - {bdesc.page}
    {
      hide ListsBut, Lists, Pages, Supply, AllGood, LiveOwned, Without;
      if bdesc.refcnt == 0 {
        InChain(bdesc);
        ghost var k :| 0 <= k < |chains[bdir]| && chains[bdir][k] == bdesc;
        NoLive(bdesc);
        Unlink(bdir, k, bdesc, prev);
      } else {
        NotEmpty(bdesc);
      }
    }

    lemma NotEmpty(x: BucketDesc)
      requires AllGood(x) && x.refcnt != 0
      ensures AllGood(null)
    {}

    /** Past cli(): release obj and, if its page is empty now, unlink the descriptor. */
    method Commit(obj: int, bdir: nat, bdesc: BucketDesc, prev: BucketDesc?)
      requires Valid() && obj in live && live[obj] == bdesc && bdesc.home == bdir < BUCKETS
      requires prev == null || prev in descs
      modifies this`freeBucketDesc, this`used, this`mem, this`pool, this`chains, this`live
      modifies chain, descs`next, bdesc`home, bdesc`freeptr, bdesc`refcnt, bdesc`free
      ensures Valid() && live == old(live) - {obj}
      ensures mem == old(mem)[obj := old(bdesc.freeptr)] && bdesc.freeptr == obj != 0
      ensures Kept(live.Keys)
      ensures if old(bdesc.refcnt) > 1 then chains == old(chains) && pool == old(pool) && used == old(used)
              else UnlinkedFrom(bdir, bdesc) && pool == [bdesc] + old(pool) && used == old(used) - {bdesc.page}
    {
      hide Lists, Pages, Supply, AllGood, LiveOwned, Without;
      LiveHomes();
      AtLeastOne(obj);
      ReleaseSlot(obj, bdesc);
      Settle(bdir, bdesc, prev);
    }

    lemma AtLeastOne(obj: int)
      requires Valid() && obj in live
      ensures live[obj] in descs && live[obj].refcnt >= 1
    {
      assert OnPage(obj, live[obj]);
    }

    /** The chain lost exactly bdesc, in place; the other chains are as they were. */
    twostate predicate UnlinkedFrom(bdir: nat, bdesc: BucketDesc)
      reads this`chains
    {
      exists k :: 0 <= bdir < |old(chains)| && 0 <= k < |old(chains)[bdir]| && old(chains)[bdir][k] == bdesc
                  && chains == old(chains)[bdir := Without(old(chains)[bdir], k)]
    }

    /** free_s(obj, size), uninterrupted; a hint above the object's own size ends in the panic. */
    method Free(obj: int, size: nat) returns (panic: bool)
      requires Valid() && obj in live
      modifies this`freeBucketDesc, this`used, this`mem, this`pool, this`chains, this`live
      modifies chain, descs
      ensures panic <==> size > Size(old(live[obj].home))
      ensures panic ==> live == old(live) && SamePages()
      ensures Valid() && (!panic ==> live == old(live) - {obj} && old(live[obj]).freeptr == obj != 0)
      ensures descs == old(descs)
      ensures forall d {:trigger d.freeptr} :: d in descs && d != old(live[obj]) ==> d.freeptr == old(d.freeptr)
      ensures !panic && old(live[obj].refcnt) > 1 ==> SamePages()
      ensures !panic && old(live[obj].refcnt) == 1 ==>
                && UnlinkedFrom(old(live[obj].home), old(live[obj])) && pool == [old(live[obj])] + old(pool)
                && used == old(used) - {old(live[obj].page)}
      ensures Kept(live.Keys)
      ensures Intact(live.Keys)
    {
      hide Inv, Valid, Size, Within;
      OthersElsewhere(obj);
      Described();
      AtLeastOne(obj);
      var bdir, bdesc, prev := Search(obj, size);
      if bdesc == null {
        // panic("Bad address passed to kernel free_s()")
        panic := true;
        NothingChanged();
      } else {
        panic := false;
        Commit(obj, bdir, bdesc, prev);
      }
    }

    /** A free that leaves its page chained, then a malloc from the same bucket: the malloc takes no
        page, and gives the object out again if the pages in front of its page are full. */
    method FreeThenMalloc(obj: int, size: nat, len: nat) returns (r: Pointer)
      requires Valid() && obj in live && size <= Size(live[obj].home)
      requires live[obj].refcnt > 1 && IsBucketFor(live[obj].home, len)
      modifies this`freeBucketDesc, this`used, this`mem, this`descs, this`pool, this`descPages, this`chains, this`live
      modifies chain, descs
      ensures Valid() && r.Pointer? && SamePages()
      ensures |old(chains)| == BUCKETS && old(live[obj].home) < BUCKETS
      ensures var s := old(chains[live[obj].home]);
              forall k :: 0 <= k < |s| && s[k] == old(live[obj]) && old(NoRoom(s[..k])) ==> r == Pointer(obj)
    {
      hide Inv, Valid, IsBucketFor, Size, Kept, Intact;
      ghost var b, k := InOwnChain(obj);
      ghost var s := chains[b];
      var panic := Free(obj, size);
      ghost var i := OneFirst(s, k);
      assert i < k ==> s[..k][i].freeptr != 0;
      r := Malloc(len);
    }

    /** Two mallocs from a bucket without room: the second takes the slot after the first. */
    method MallocTwice(len: nat) returns (r: Pointer, q: Pointer)
      requires Valid()
      modifies this`freeBucketDesc, this`used, this`mem, this`descs, this`pool, this`descPages, this`chains, this`live
      modifies chain, descs
      ensures Valid() && |old(chains)| == BUCKETS
      ensures forall b :: IsBucketFor(b, len) && Size(b) < PAGE && old(NoRoom(chains[b])) ==>
                && r.Pointer? && q == Pointer(r.addr + Size(b))
                && q.addr in live && NewPage(b, live[q.addr]) && live[q.addr].page == r.addr
    {
      hide Inv, Valid, Size, IsBucketFor, NoRoom, Intact;
      OneBucket(len);
      ValidCount();
      r := Malloc(len);
      ValidCount();
      forall b | IsBucketFor(b, len) && 0 <= b < BUCKETS && Size(b) < PAGE && old(NoRoom(chains[b]))
        ensures FirstWithRoom(chains[b], 0)
      {}
      q := Malloc(len);
    }

    // ----- Runs with interruptions -----

    /** The callers hold these pointers, all live, distinct and none of them in kept; and every live
        object is held or kept. */
    ghost predicate Holds(held: seq<Held>, kept: set<int>)
      reads this`live, this`descs, descs`home
    {
      && (forall i, j :: 0 <= i < j < |held| ==> held[i].addr != held[j].addr)
      && (forall i :: 0 <= i < |held| ==> held[i].addr !in kept && Covers(held[i].addr, held[i].len))
      && (forall o :: o in kept ==> Covers(o, 0))
      && (forall o :: o in live ==> o in kept || Among(held, o))
    }

    ghost predicate Covers(o: int, len: nat)
      reads this`live, this`descs, descs`home
    {
      o in live && live[o] in descs && 0 <= live[o].home && len <= Size(live[o].home)
    }

    /** Without one of the pointers, which is put aside. */
    lemma PutAside(held: seq<Held>, i: nat, kept: set<int>)
      requires Holds(held, kept) && i < |held|
      ensures Covers(held[i].addr, held[i].len) && held[i].addr !in kept
      ensures Holds(held[..i] + held[i + 1..], kept + {held[i].addr})
    {
      hide Covers;
      CoversLess(held[i].addr, held[i].len);
      forall o | Among(held, o) && o != held[i].addr ensures Among(held[..i] + held[i + 1..], o) {
        AmongRest(held, i, o);
      }
    }

    lemma CoversLess(o: int, len: nat)
      requires Covers(o, len)
      ensures Covers(o, 0)
    {}

    /** cli() and the rest of free_s, for the object put aside. */
    method Finish(obj: int, bdir: nat, bdesc: BucketDesc, prev: BucketDesc?, held: seq<Held>, ghost kept: set<int>)
      requires Valid() && Holds(held, kept + {obj}) && obj !in kept
      requires obj in live && live[obj] == bdesc && bdesc in descs && bdesc.home == bdir < BUCKETS
      requires prev == null || prev in descs
      modifies this`freeBucketDesc, this`used, this`mem, this`pool, this`chains, this`live, chain, descs
      ensures Valid() && obj !in live
      ensures Holds(held, kept)
      ensures Kept(kept)
      ensures Intact(kept)
    {
      hide Inv, Valid, Size, Within;
      OthersElsewhere(obj);
      Commit(obj, bdir, bdesc, prev);
    }

    /** free_s(obj, size) with any complete calls made between its search and its cli(), each of
        them a malloc, or a free_s of another object that may be interrupted in the same way.
        obj is released and the right descriptor unlinked whatever they did: see Commit. */
    method FreeInterrupted(obj: int, size: nat, during: seq<Call>, held: seq<Held>, ghost kept: set<int>)
      returns (held': seq<Held>)
      requires Valid() && Covers(obj, size) && obj !in kept && Holds(held, kept + {obj})
      modifies this`freeBucketDesc, this`used, this`mem, this`descs, this`pool, this`descPages, this`chains, this`live
      modifies chain, descs
      ensures Valid() && obj !in live
      ensures Holds(held', kept)
      ensures Kept(kept)
      ensures Intact(kept)
      decreases during, 1
    {
      hide Inv, Valid, Holds;
      var bdir, bdesc, prev := Search(obj, size);
      held' := Run(during, held, kept + {obj});
      Finish(obj, bdir, bdesc, prev, held', kept);
    }

    /** A run of complete calls. */
    method Run(calls: seq<Call>, held: seq<Held>, ghost kept: set<int>) returns (held': seq<Held>)
      requires Valid() && Holds(held, kept)
      modifies this`freeBucketDesc, this`used, this`mem, this`descs, this`pool, this`descPages, this`chains, this`live
      modifies chain, descs
      ensures Valid()
      ensures Holds(held', kept)
      ensures Kept(kept)
      ensures Intact(kept)
      decreases calls, 0
    {
      hide Inv, Valid;
      if calls == [] {
        held' := held;
      } else {
        held' := Step(calls[0], held, kept);
        held' := Run(calls[1..], held', kept);
      }
    }

    /** A store by a holder, anywhere in the object. */
    method Store(obj: int, offset: nat, value: int)
      requires Valid() && obj in live && offset < Size(live[obj].home)
      modifies this`mem
      ensures Valid() && mem == old(mem)[obj + offset := value]
    {
      hide PageOk, Size, IsSlot, PageOf, Divides, Lists, Pages, Supply, LiveOwned;
      ghost var x, a := live[obj], obj + offset;
      OwnSlot(obj);
      SlotEnd(x.page, Size(x.home), obj);
      InPage(x.page, a);
      ghost var mem' := mem[a := value];
      forall d | d in descs && d.home >= 0
        ensures Good(d) && PageOk(d.page, d.bucketSize, d.free, d.freeptr, d.refcnt, mem', live.Keys)
      {
        assert Good(d);
        if d.page == x.page {
          OneDesc(obj, d);
          PageStore(d.page, d.bucketSize, d.free, d.freeptr, d.refcnt, mem, live.Keys, obj, a, value);
        } else {
          PageFrame(d.page, d.bucketSize, d.free, d.freeptr, d.refcnt, mem, live.Keys, mem', live.Keys, x.page);
        }
      }
      mem := mem[obj + offset := value];
    }

    lemma OneDesc(obj: int, d: BucketDesc)
      requires Valid() && obj in live && d in descs && d.home >= 0 && d.page == live[obj].page
      ensures d == live[obj]
    {
      hide Lists, Supply, AllGood, IsSlot, Size;
      assert OnPage(obj, live[obj]);
    }

    lemma InPage(page: int, a: int)
      requires page % PAGE == 0 && page <= a < page + PAGE
      ensures PageOf(a) == page
    {
      DivMod(page, PAGE);
      DivUnique(a, PAGE, page / PAGE, a - page);
    }

    method Step(call: Call, held: seq<Held>, ghost kept: set<int>) returns (held': seq<Held>)
      requires Valid() && Holds(held, kept)
      modifies this`freeBucketDesc, this`used, this`mem, this`descs, this`pool, this`descPages, this`chains, this`live
      modifies chain, descs
      ensures Valid()
      ensures Holds(held', kept)
      ensures Kept(kept)
      ensures Intact(kept)
      decreases call
    {
      hide Inv, Valid;
      match call
      case DoMalloc(len) =>
        held' := StepMalloc(len, held, kept);
      case DoFree(which, hinted, during) =>
        if |held| > 0 {
          var i := which % |held|;
          PutAside(held, i, kept);
          CoversLess(held[i].addr, held[i].len);
          var size := if hinted then held[i].len else 0;
          held' := FreeInterrupted(held[i].addr, size, during, held[..i] + held[i + 1..], kept);
        } else {
          held' := held;
        }
      case DoStore(which, offset, value) =>
        held' := held;
        if |held| > 0 {
          var i := which % |held|;
          if offset < held[i].len {
            StoreHeld(held[i], offset, value, held, kept);
          }
        }
    }

    method StoreHeld(h: Held, offset: nat, value: int, held: seq<Held>, ghost kept: set<int>)
      requires Valid() && Holds(held, kept) && Covers(h.addr, h.len) && h.addr !in kept && offset < h.len
      modifies this`mem
      ensures Valid()
      ensures Holds(held, kept)
      ensures Kept(kept)
      ensures Intact(kept)
    {
      hide Inv, Valid, Size;
      OthersElsewhere(h.addr);
      assert Within(h.addr, h.addr + offset);
      Store(h.addr, offset, value);
    }

    lemma Described()
      requires Valid()
      ensures forall o :: o in live ==> live[o] in descs && live[o].home >= 0
    {
      LiveHomes();
    }

    method StepMalloc(len: nat, held: seq<Held>, ghost kept: set<int>) returns (held': seq<Held>)
      requires Valid() && Holds(held, kept)
      modifies this`freeBucketDesc, this`used, this`mem, this`descs, this`pool, this`descPages, this`chains, this`live
      modifies chain, descs
      ensures Valid()
      ensures Holds(held', kept)
      ensures Kept(kept)
      ensures Intact(kept)
    {
      hide Inv, Valid, Size;
      var r := Malloc(len);
      Described();
      held' := held;
      if r.Pointer? {
        AmongMore(held, Held(r.addr, len));
        held' := held + [Held(r.addr, len)];
      }
    }

    // ----- What the invariant means, after any run -----

    /** Live objects never overlap, and none leaves its page. */
    lemma LiveDisjoint(o: int, q: int)
      requires Valid() && o in live && q in live && o != q
      ensures o + Size(live[o].home) <= q || q + Size(live[q].home) <= o
      ensures o + Size(live[o].home) <= PageOf(o) + PAGE
    {
      hide Valid, IsSlot, Size, Divides;
      var d, e := live[o], live[q];
      OwnSlot(o);
      OwnSlot(q);
      if d.page == e.page {
        SamePage(o, q);
      }
      SlotsApart(d.page, Size(d.home), o, e.page, Size(e.home), q);
    }

    lemma OwnSlot(o: int)
      requires Valid() && o in live
      ensures var d := live[o];
              && 0 <= d.home < BUCKETS && Divides(Size(d.home)) && IsSlot(d.page, Size(d.home), o)
              && d.page % PAGE == 0 && PageOf(o) == d.page
    {
      hide Lists, Supply, Pages, PageOk, IsSlot, Size, Divides;
      var d := live[o];
      assert OnPage(o, d) && Good(d);
      SizeDivides(d.home);
      Aligned(d);
    }

    lemma SamePage(o: int, q: int)
      requires Valid() && o in live && q in live && live[o].page == live[q].page
      ensures live[o] == live[q]
    {
      hide Lists, Supply, AllGood, IsSlot, Size;
      assert OnPage(o, live[o]) && OnPage(q, live[q]);
    }

    /** A chained descriptor's refcnt is the number of live objects it describes, at least one. */
    lemma RefcntIsLiveCount(d: BucketDesc)
      requires Valid() && d in descs && d.home >= 0
      ensures d.refcnt == |set o | o in live && live[o] == d| && d.refcnt >= 1
    {
      hide Lists, Supply, PageOk, IsSlot, Size;
      assert Good(d);
      Aligned(d);
      SizeDivides(d.home);
      RefcntCountsLive(d.page, d.bucketSize, d.free, d.freeptr, d.refcnt, mem, live.Keys);
      forall o | o in live ensures live[o] == d <==> IsSlot(d.page, d.bucketSize, o) {
        assert OnPage(o, live[o]) && Good(live[o]);
        if IsSlot(d.page, d.bucketSize, o) {
          SlotPage(d.page, d.bucketSize, o);
        }
      }
      assert (set o | o in live && live[o] == d) == (set o | o in live.Keys && IsSlot(d.page, d.bucketSize, o));
    }

    lemma Aligned(d: BucketDesc)
      requires Good(d)
      ensures d.page % PAGE == 0
    {}

    lemma HasLive(d: BucketDesc)
      requires Valid() && d in descs && d.home >= 0
      ensures exists o :: o in live && live[o] == d
    {
      hide Inv, Good, AllGood;
      RefcntIsLiveCount(d);
      assert (set o | o in live && live[o] == d) != {};
      var o := Inhabitant(set o | o in live && live[o] == d);
    }

    /** When everything has been freed, every bucket page is back with the page source and every
        descriptor in the pool. */
    lemma AllFreed()
      requires Valid() && live == map[]
      ensures used == descPages
      ensures forall b :: 0 <= b < BUCKETS ==> chains[b] == []
      ensures forall d :: d in descs ==> d in pool
    {
      hide PageOk, AllGood, LiveOwned, Pages;
      forall d | d in descs ensures d.home == -1 {
        if d.home >= 0 {
          HasLive(d);
        }
      }
      forall b | 0 <= b < BUCKETS ensures chains[b] == [] {
        if chains[b] != [] {
          FirstIn(chains[b]);
        }
      }
      assert BucketPages() == {};
    }

    lemma FirstIn(s: seq<BucketDesc>)
      requires s != []
      ensures s[0] in s
    {}

    ghost function ChainedBelow(b: nat): nat
      reads this`chains
      requires b <= |chains|
    {
      if b == 0 then 0 else ChainedBelow(b - 1) + |chains[b - 1]|
    }

    /** Pool and chains together always hold 256 descriptors for each descriptor page. */
    lemma Conservation()
      requires Valid()
      ensures |pool| + ChainedBelow(BUCKETS) == PER_PAGE * |descPages|
    {
      hide PageOk, AllGood, LiveOwned, Pages;
      CountBelow(BUCKETS);
      assert descs == set d | d in descs && d.home < BUCKETS;
    }

    lemma HomeIsPool()
      requires Lists()
      ensures Distinct(pool) && forall d :: d in pool <==> d in descs && d.home < 0
    {}

    lemma HomeIsChain(b: nat)
      requires Lists() && b < BUCKETS
      ensures b < |chains| && Distinct(chains[b]) && forall d :: d in chains[b] <==> d in descs && d.home == b
    {}

    lemma {:induction false} CountBelow(b: nat)
      requires Lists() && b <= BUCKETS
      ensures b <= |chains| && |set d | d in descs && d.home < b| == |pool| + ChainedBelow(b)
    {
      hide Lists;
      if b == 0 {
        HomeIsPool();
        DistinctCount(pool);
        assert (set d | d in descs && d.home < 0) == Elements(pool);
      } else {
        CountBelow(b - 1);
        HomeIsChain(b - 1);
        DistinctCount(chains[b - 1]);
        var below := set d | d in descs && d.home < b - 1;
        assert (set d | d in descs && d.home < b) == below + Elements(chains[b - 1]);
        assert below !! Elements(chains[b - 1]);
      }
    }
  }

  lemma Inhabitant<T>(s: set<T>) returns (o: T)
    requires s != {}
    ensures o in s
  {
    o :| o in s;
  }

  lemma NothingLive(live: map<int, BucketDesc>)
    requires forall o :: o !in live
    ensures live == map[]
  {
    if live.Keys != {} {
      var o := Inhabitant(live.Keys);
    }
  }

  /** The first two objects of a size stand side by side. */
  method FirstTwo(len: nat) returns (r: Pointer, q: Pointer)
    ensures forall b :: IsBucketFor(b, len) && Size(b) < PAGE ==> r.Pointer? && q == Pointer(r.addr + Size(b))
  {
    hide Allocator.Inv, Allocator.Valid, IsBucketFor, Size, NoRoom;
    OneBucket(len);
    var allocator := new Allocator();
    r, q := allocator.MallocTwice(len);
  }

  /** Boot, then any run of calls, stores included. When everything handed out has been freed, every
      bucket page is back with its source and every descriptor in the pool. */
  method Boot(calls: seq<Call>) returns (allocator: Allocator, held: seq<Held>)
    ensures allocator.Valid() && allocator.Holds(held, {})
    ensures held == [] ==> allocator.live == map[] && allocator.used == allocator.descPages
    ensures held == [] ==> forall d :: d in allocator.descs ==> d in allocator.pool
  {
    hide Allocator.Inv, Allocator.Valid;
    allocator := new Allocator();
    held := allocator.Run(calls, [], {});
    if held == [] {
      NothingLive(allocator.live);
      allocator.AllFreed();
    }
  }

  /** Two different slots do not overlap, on one page or on two. */
  lemma SlotsApart(page: int, size: int, o: int, page': int, size': int, q: int)
    requires Divides(size) && Divides(size') && o != q && page % PAGE == 0 && page' % PAGE == 0
    requires page == page' ==> size == size'
    requires IsSlot(page, size, o) && IsSlot(page', size', q)
    ensures o + size <= q || q + size' <= o
    ensures o + size <= page + PAGE
  {
    hide IsSlot, Divides;
    SlotEnd(page, size, o);
    SlotEnd(page', size', q);
    if page != page' {
      PagesApart(page, page');
    } else {
      if o < q {
        SlotGap(page, size, o, q);
      } else {
        SlotGap(page, size, q, o);
      }
    }
  }

  lemma PagesApart(page: int, page': int)
    requires page % PAGE == 0 && page' % PAGE == 0 && page != page'
    ensures page + PAGE <= page' || page' + PAGE <= page
  {}

  lemma SlotEnd(page: int, size: int, o: int)
    requires Divides(size) && IsSlot(page, size, o)
    ensures page <= o && o + size <= page + PAGE
  {
    var n, k := PAGE / size, (o - page) / size;
    SlotIndex(o - page, size, n, k);
    MulMono(k + 1, n, size);
    Distribute(k, 1, size);
  }

  lemma SlotGap(page: int, size: int, o: int, q: int)
    requires Divides(size) && IsSlot(page, size, o) && IsSlot(page, size, q) && o < q
    ensures o + size <= q
  {
    var n, k, l := PAGE / size, (o - page) / size, (q - page) / size;
    SlotIndex(o - page, size, n, k);
    SlotIndex(q - page, size, n, l);
    if l <= k {
      MulMono(l, k, size);
    }
    MulMono(k + 1, l, size);
    Distribute(k, 1, size);
  }

  lemma AbovePages(pages: set<int>) returns (p: int)
    ensures p > 0 && p % PAGE == 0 && forall q :: q in pages ==> q < p
  {
    if q :| q in pages {
      var r := AbovePages(pages - {q});
      p := if q < r then r else q - q % PAGE + PAGE;
      assert forall x :: x in pages ==> x == q || x in pages - {q};
    } else {
      p := PAGE;
    }
  }
}
