/**
 What allocHeap and free make of the list of free blocks: the list-level specification
 that the methods of class Heap are proved against, and the laws of one step.
 */
module FreeList {
  import opened Blocks
  import opened Options

  /** Number of values of a std::size_t. */
  const WORD: nat := 0x1_0000_0000_0000_0000

  /** sizeof(memoryBlock): the `next` word and the `length` word. */
  const HEADER: nat := 16

  type Size = n: int | 0 <= n < WORD

  /** The free list in link order, and the chunks handed out and not yet freed. */
  datatype State = State(free: seq<Block>, live: seq<Block>)

  /** A null dereference is an outcome of its own: the kernel stops there. */
  datatype AllocResult = Pointer(addr: int) | MinusOne | Fault

  // ----- sizes -----

  /** Rounds to the nearest multiple; the addition wraps at 64 bits. */
  function Round(src: Size, multiple: nat): Size
    requires 0 < multiple < 256
  {
    var q := (src + multiple / 2) % WORD / multiple;
    assert q * multiple <= (src + multiple / 2) % WORD;
    q * multiple
  }

  function ChunkSize(nbytes: Size): Size {
    Round(if nbytes < HEADER then HEADER + nbytes else nbytes, HEADER)
  }

  /** The chunk is a whole number of headers and within 8 bytes of the request after padding. */
  lemma ChunkSizeBounds(nbytes: Size)
    requires 0 < nbytes < WORD - 8
    ensures var s := ChunkSize(nbytes);
            s % HEADER == 0 && s >= HEADER &&
            var padded := if nbytes < HEADER then HEADER + nbytes else nbytes;
            padded - 8 < s <= padded + 8
  {
  }

  /** The top eight requests wrap in `round` and come out as size zero; no others do. */
  lemma ChunkSizeZero(nbytes: Size)
    requires nbytes > 0
    ensures ChunkSize(nbytes) == 0 <==> nbytes >= WORD - 8
  {
  }

  lemma ChunkSizeAligned(nbytes: Size)
    ensures ChunkSize(nbytes) % HEADER == 0
  {
  }

  /** The bytes behind the header can hold the request exactly when it is 8 to 15 bytes long. */
  lemma PayloadHoldsRequest(nbytes: Size)
    requires nbytes > 0
    ensures ChunkSize(nbytes) >= HEADER + nbytes <==> 8 <= nbytes <= 15
  {
    ChunkSizeZero(nbytes);
    if nbytes < WORD - 8 {
      ChunkSizeBounds(nbytes);
    }
  }

  // ----- invariant -----

  /** Usable memory: regions in address order, cut at multiples of 16, away from null and within 64 bits. */
  ghost predicate Regions(usable: seq<Block>) {
    |usable| > 0 && Ascending(usable) &&
    forall k :: 0 <= k < |usable| ==>
      usable[k].addr > 0 && usable[k].addr % HEADER == 0 &&
      usable[k].len % HEADER == 0 && usable[k].End() < WORD
  }

  predicate Cell(b: Block) {
    b.addr % HEADER == 0 && b.len % HEADER == 0 && b.len >= HEADER
  }

  ghost predicate FreeIn(b: Block, usable: seq<Block>) {
    Cell(b) && exists k :: 0 <= k < |usable| && b.Inside(usable[k])
  }

  /** A live chunk never reaches the end of its region. */
  ghost predicate LiveIn(b: Block, usable: seq<Block>) {
    Cell(b) && exists k :: 0 <= k < |usable| && b.Inside(usable[k]) && b.End() < usable[k].End()
  }

  ghost predicate Inv(st: State, usable: seq<Block>) {
    Regions(usable) &&
    (forall i :: 0 <= i < |st.free| ==> FreeIn(st.free[i], usable)) &&
    (forall i :: 0 <= i < |st.live| ==> LiveIn(st.live[i], usable)) &&
    Tiles(st.free + st.live, usable)
  }

  ghost predicate Sorted(bs: seq<Block>) {
    forall i, j :: 0 <= i < j < |bs| ==> bs[i].addr < bs[j].addr
  }

  // ----- allocHeap -----

  /** The first free block strictly longer than `s`, or |free|. */
  function FirstFit(free: seq<Block>, s: int): (i: nat)
    ensures i <= |free|
    ensures forall j :: 0 <= j < i ==> free[j].len <= s
    ensures i < |free| ==> free[i].len > s
  {
    if free == [] || free[0].len > s then 0 else 1 + FirstFit(free[1..], s)
  }

  /** Takes `s` bytes off the front of free block `i`. */
  function Carve(st: State, i: nat, s: nat): State
    requires i < |st.free|
  {
    var b := st.free[i];
    State(st.free[i := Block(b.addr + s, b.len - s)], st.live + [Block(b.addr, s)])
  }

  function Alloc(st: State, nbytes: Size): (State, AllocResult) {
    if nbytes == 0 then (st, MinusOne) else
    var s := ChunkSize(nbytes);
    var i := FirstFit(st.free, s);
    if i == |st.free| then (st, Fault)
    else if s == 0 then (st, Pointer(st.free[i].addr + HEADER))
    else (Carve(st, i, s), Pointer(st.free[i].addr + HEADER))
  }

  // ----- free -----

  function Rest(live: seq<Block>, k: nat): seq<Block>
    requires k < |live|
  {
    live[..k] + live[k + 1..]
  }

  /** Puts chunk `c` before free block `p`, joining the two when `merge` is set and they touch. */
  function Release(free: seq<Block>, c: Block, p: nat, merge: bool): seq<Block>
    requires p <= |free|
  {
    if merge && p < |free| && c.End() == free[p].addr
    then free[..p] + [Block(c.addr, c.len + free[p].len)] + free[p + 1..]
    else free[..p] + [c] + free[p..]
  }

  /** The loop of lines 208-212: `current` stands at block `j`. */
  function WrittenWalk(free: seq<Block>, a: int, j: nat): (r: Option<nat>)
    requires j <= |free|
    ensures r.Some? ==> j < r.value < |free|
    decreases |free| - j
  {
    if j == |free| then None
    else if free[j].addr >= a && j + 1 < |free| && a <= free[j + 1].addr then Some(j + 1)
    else WrittenWalk(free, a, j + 1)
  }

  /** Before which block `free` puts a chunk at `a`; None when its walk runs into null. */
  function WrittenSpot(free: seq<Block>, a: int): (r: Option<nat>)
    ensures r.Some? ==> r.value < |free|
  {
    if free == [] then None
    else if a < free[0].addr then Some(0)
    else if 1 < |free| && a <= free[1].addr then Some(1)
    else WrittenWalk(free, a, 1)
  }

  /**
   `free` as it stands. `getHeadFn` is the address of the function getHead, which line 185
   compares with where the head of the list was meant.
   */
  function FreeWritten(getHeadFn: int, st: State, k: nat): Option<State>
    requires k < |st.live|
  {
    var c := st.live[k];
    if c.End() == getHeadFn then
      if st.free == [] then None
      else Some(State([Block(c.addr, c.len + st.free[0].len)] + st.free[1..], Rest(st.live, k)))
    else
      match WrittenSpot(st.free, c.addr)
      case None => None
      case Some(p) => Some(State(Release(st.free, c, p, p > 0), Rest(st.live, k)))
  }

  function MeantWalk(free: seq<Block>, a: int, j: nat): (r: Option<nat>)
    requires j <= |free|
    ensures r.Some? ==> j < r.value < |free|
    decreases |free| - j
  {
    if j == |free| then None
    else if free[j].addr <= a && j + 1 < |free| && a <= free[j + 1].addr then Some(j + 1)
    else MeantWalk(free, a, j + 1)
  }

  function MeantSpot(free: seq<Block>, a: int): (r: Option<nat>)
    ensures r.Some? ==> r.value < |free|
  {
    if free == [] then None
    else if a < free[0].addr then Some(0)
    else MeantWalk(free, a, 0)
  }

  /** Repair of `free`: `getHead()` in line 185 and `current <= mptr` in line 211. */
  function FreeMeant(st: State, k: nat): Option<State>
    requires k < |st.live|
  {
    match MeantSpot(st.free, st.live[k].addr)
    case None => None
    case Some(p) => Some(State(Release(st.free, st.live[k], p, true), Rest(st.live, k)))
  }

  // ----- exactly what one step does, for any list -----

  ghost predicate StopsAt(free: seq<Block>, a: int, j: nat) {
    j + 1 < |free| && a <= free[j].addr && a <= free[j + 1].addr
  }

  /** The loop as written leaves at the first pair of blocks that both start at `a` or above. */
  lemma {:induction false} WrittenWalkIsFirstStop(free: seq<Block>, a: int, j: nat, p: nat)
    requires j <= |free|
    ensures WrittenWalk(free, a, j) == Some(p) <==>
            (p > j && StopsAt(free, a, p - 1) && forall q :: j <= q < p - 1 ==> !StopsAt(free, a, q))
    decreases |free| - j
  {
    if j < |free| && !StopsAt(free, a, j) {
      WrittenWalkIsFirstStop(free, a, j + 1, p);
    } else if j < |free| && p > j + 1 {
      assert StopsAt(free, a, j);
    }
  }

  lemma {:induction false} WrittenWalkNullIff(free: seq<Block>, a: int, j: nat)
    requires j <= |free|
    ensures WrittenWalk(free, a, j) == None <==> forall q :: j <= q < |free| ==> !StopsAt(free, a, q)
    decreases |free| - j
  {
    if j < |free| && !StopsAt(free, a, j) {
      WrittenWalkNullIff(free, a, j + 1);
    }
  }

  /** The loop of the repair leaves at the first pair of blocks with `a` between their starts. */
  lemma {:induction false} MeantWalkIsFirstStop(free: seq<Block>, a: int, j: nat, p: nat)
    requires j <= |free|
    ensures MeantWalk(free, a, j) == Some(p) <==>
            (j < p < |free| && Encloses(free, a, p) && forall q :: j < q < p ==> !Encloses(free, a, q))
    decreases |free| - j
  {
    if j < |free| && !(j + 1 < |free| && Encloses(free, a, j + 1)) {
      MeantWalkIsFirstStop(free, a, j + 1, p);
    }
  }

  ghost predicate Encloses(free: seq<Block>, a: int, p: nat)
    requires 0 < p < |free|
  {
    free[p - 1].addr <= a <= free[p].addr
  }

  /**
   Before which block `free` as written puts a chunk at `a`: the first, the second, or else the
   first one such that it and the block before it both start at `a` or above.
   */
  ghost predicate WrittenPlace(free: seq<Block>, a: int, p: nat) {
    p < |free| &&
    if a < free[0].addr then p == 0
    else if 1 < |free| && a <= free[1].addr then p == 1
    else p >= 2 && StopsAt(free, a, p - 1) && forall q :: 1 <= q < p - 1 ==> !StopsAt(free, a, q)
  }

  /** Before which block the repair puts it: the first, or else the first one with `a` between it and its neighbour. */
  ghost predicate MeantPlace(free: seq<Block>, a: int, p: nat) {
    p < |free| &&
    if a < free[0].addr then p == 0
    else p >= 1 && Encloses(free, a, p) && forall q :: 1 <= q < p ==> !Encloses(free, a, q)
  }

  lemma WrittenSpotIff(free: seq<Block>, a: int, p: nat)
    ensures WrittenSpot(free, a) == Some(p) <==> WrittenPlace(free, a, p)
  {
    if free != [] {
      WrittenWalkIsFirstStop(free, a, 1, p);
    }
  }

  lemma MeantSpotIff(free: seq<Block>, a: int, p: nat)
    ensures MeantSpot(free, a) == Some(p) <==> MeantPlace(free, a, p)
  {
    MeantWalkIsFirstStop(free, a, 0, p);
  }

  /**
   Chunk `k` is back before block `p`, in one piece with it or as a block of its own. All other
   blocks and chunks are what they were, in the same order.
   */
  ghost predicate PutBack(st: State, st': State, k: nat, p: nat, joined: bool)
    requires k < |st.live| && p < |st.free|
  {
    var c, free, free', step := st.live[k], st.free, st'.free, if joined then 0 else 1;
    |st'.live| == |st.live| - 1 &&
    (forall j :: 0 <= j < k ==> st'.live[j] == st.live[j]) &&
    (forall j :: k < j < |st.live| ==> st'.live[j - 1] == st.live[j]) &&
    |free'| == |free| + step &&
    free'[p] == Block(c.addr, if joined then c.len + free[p].len else c.len) &&
    (forall i :: 0 <= i < p ==> free'[i] == free[i]) &&
    (forall i :: p < i < |free| ==> free'[i + step] == free[i]) &&
    (joined || free'[p + 1] == free[p])
  }

  lemma ReleaseIsPutBack(st: State, k: nat, p: nat, merge: bool)
    requires k < |st.live| && p < |st.free|
    ensures PutBack(st, State(Release(st.free, st.live[k], p, merge), Rest(st.live, k)), k, p,
                    merge && st.live[k].End() == st.free[p].addr)
  {
  }

  /**
   `free` as written, on any list whatever: null is dereferenced exactly when there is no place, and
   otherwise the chunk is put back there, joined exactly when it is not the new head and touches.
   */
  lemma FreeWrittenExact(getHeadFn: int, st: State, k: nat)
    requires k < |st.live| && st.live[k].End() != getHeadFn
    ensures var r, c := FreeWritten(getHeadFn, st, k), st.live[k];
            (r.Some? <==> exists p: nat :: WrittenPlace(st.free, c.addr, p)) &&
            forall p: nat :: WrittenPlace(st.free, c.addr, p) ==>
              r.Some? && PutBack(st, r.value, k, p, p > 0 && c.End() == st.free[p].addr)
  {
    var c := st.live[k];
    forall p: nat
      ensures WrittenSpot(st.free, c.addr) == Some(p) <==> WrittenPlace(st.free, c.addr, p)
      ensures WrittenPlace(st.free, c.addr, p) ==>
                PutBack(st, State(Release(st.free, c, p, p > 0), Rest(st.live, k)), k, p,
                        p > 0 && c.End() == st.free[p].addr)
    {
      WrittenSpotIff(st.free, c.addr, p);
      if p < |st.free| {
        ReleaseIsPutBack(st, k, p, p > 0);
      }
    }
  }

  /** The repaired free likewise, with its own place, and joined whenever the two touch. */
  lemma FreeMeantExact(st: State, k: nat)
    requires k < |st.live|
    ensures var r, c := FreeMeant(st, k), st.live[k];
            (r.Some? <==> exists p: nat :: MeantPlace(st.free, c.addr, p)) &&
            forall p: nat :: MeantPlace(st.free, c.addr, p) ==>
              r.Some? && PutBack(st, r.value, k, p, c.End() == st.free[p].addr)
  {
    var c := st.live[k];
    forall p: nat
      ensures MeantSpot(st.free, c.addr) == Some(p) <==> MeantPlace(st.free, c.addr, p)
      ensures MeantPlace(st.free, c.addr, p) ==>
                PutBack(st, State(Release(st.free, c, p, true), Rest(st.live, k)), k, p, c.End() == st.free[p].addr)
    {
      MeantSpotIff(st.free, c.addr, p);
      if p < |st.free| {
        ReleaseIsPutBack(st, k, p, true);
      }
    }
  }

  /** Block `i` is the first longer than `s`. */
  ghost predicate FirstLonger(free: seq<Block>, s: int, i: nat) {
    i < |free| && free[i].len > s && forall j :: 0 <= j < i ==> free[j].len <= s
  }

  /**
   allocHeap on any list: an answer without a chunk changes nothing, and so does a request that
   wraps to size zero. Otherwise the first longer block gives up its front and all else stays.
   */
  lemma AllocExact(st: State, nbytes: Size)
    ensures var (st', r) := Alloc(st, nbytes);
            var s := ChunkSize(nbytes);
            (r.Pointer? <==> nbytes != 0 && exists i: nat :: FirstLonger(st.free, s, i)) &&
            (!r.Pointer? || nbytes >= WORD - 8 ==> st' == st) &&
            forall i: nat :: FirstLonger(st.free, s, i) && nbytes != 0 ==>
              r == Pointer(st.free[i].addr + HEADER) &&
              (nbytes < WORD - 8 ==>
                st'.live == st.live + [Block(st.free[i].addr, s)] && |st'.free| == |st.free| &&
                st'.free[i] == Block(st.free[i].addr + s, st.free[i].len - s) &&
                forall j :: 0 <= j < |st.free| && j != i ==> st'.free[j] == st.free[j])
  {
    if nbytes != 0 {
      ChunkSizeZero(nbytes);
    }
    var s := ChunkSize(nbytes);
    var fit := FirstFit(st.free, s);
    assert fit < |st.free| <==> FirstLonger(st.free, s, fit);
    forall i: nat | FirstLonger(st.free, s, i)
      ensures i == fit
    {
    }
  }

  // ----- what the invariant says -----

  lemma LengthsPositive(st: State, usable: seq<Block>)
    requires Inv(st, usable)
    ensures forall i :: 0 <= i < |st.free| ==> st.free[i].len > 0
    ensures forall i :: 0 <= i < |st.live| ==> st.live[i].len > 0
  {
  }

  /** Free blocks and live chunks never overlap. */
  lemma AllApart(st: State, usable: seq<Block>)
    requires Inv(st, usable)
    ensures PairwiseApart(st.free + st.live)
  {
    forall x
      ensures Count(st.free + st.live, x) <= 1
    {
      AscendingCoversOnce(usable, x);
    }
    CoveredOnceApart(st.free + st.live);
  }

  lemma FreeApart(st: State, usable: seq<Block>, i: nat, j: nat)
    requires Inv(st, usable) && i < |st.free| && j < |st.free| && i != j
    ensures st.free[i].Apart(st.free[j])
  {
    AllApart(st, usable);
    var all := st.free + st.live;
    assert all[i] == st.free[i] && all[j] == st.free[j];
  }

  lemma FreeApartFromLive(st: State, usable: seq<Block>, i: nat, k: nat)
    requires Inv(st, usable) && i < |st.free| && k < |st.live|
    ensures st.free[i].Apart(st.live[k])
  {
    AllApart(st, usable);
    var all := st.free + st.live;
    assert all[i] == st.free[i] && all[|st.free| + k] == st.live[k];
  }

  lemma LiveApart(st: State, usable: seq<Block>, j: nat, k: nat)
    requires Inv(st, usable) && j < |st.live| && k < |st.live| && j != k
    ensures st.live[j].Apart(st.live[k])
  {
    AllApart(st, usable);
    var all := st.free + st.live;
    assert all[|st.free| + j] == st.live[j] && all[|st.free| + k] == st.live[k];
  }

  lemma LiveMissesLastByte(b: Block, usable: seq<Block>, r: nat)
    requires Regions(usable) && LiveIn(b, usable) && r < |usable|
    ensures !b.Contains(usable[r].End() - 1)
  {
    var q :| 0 <= q < |usable| && b.Inside(usable[q]) && b.End() < usable[q].End();
    assert q < r ==> usable[q].End() <= usable[r].addr;
    assert r < q ==> usable[r].End() <= usable[q].addr;
  }

  /** The last 16 bytes of every usable region lie in one free block. */
  lemma LastCellIsFree(st: State, usable: seq<Block>, r: nat) returns (i: nat)
    requires Inv(st, usable) && r < |usable|
    ensures i < |st.free|
    ensures st.free[i].addr <= usable[r].End() - HEADER && st.free[i].End() == usable[r].End()
  {
    var x := usable[r].End() - 1;
    CountedOnce(usable, r, x);
    CountConcat(st.free, st.live, x);
    if Count(st.live, x) >= 1 {
      var k := CountWitness(st.live, x);
      LiveMissesLastByte(st.live[k], usable, r);
    }
    i := CountWitness(st.free, x);
    var q :| 0 <= q < |usable| && st.free[i].Inside(usable[q]);
    assert usable[q].Contains(x) && usable[r].Contains(x);
    assert q == r;
  }

  /** Above every live chunk its own region still has a free block. */
  lemma FreeBlockAbove(st: State, usable: seq<Block>, k: nat) returns (i: nat)
    requires Inv(st, usable) && k < |st.live|
    ensures i < |st.free| && st.live[k].End() <= st.free[i].addr
  {
    var q :| 0 <= q < |usable| && st.live[k].Inside(usable[q]) && st.live[k].End() < usable[q].End();
    i := LastCellIsFree(st, usable, q);
    FreeApartFromLive(st, usable, i, k);
  }

  /** Pieces exchanged for others that cover the same bytes still tile memory. */
  lemma ExchangeKeepsTiles(st: State, st': State, usable: seq<Block>)
    requires Tiles(st.free + st.live, usable)
    requires forall x :: Count(st'.free, x) + Count(st'.live, x) == Count(st.free, x) + Count(st.live, x)
    requires Total(st'.free) + Total(st'.live) == Total(st.free) + Total(st.live)
    ensures Tiles(st'.free + st'.live, usable)
  {
    TotalConcat(st.free, st.live);
    TotalConcat(st'.free, st'.live);
    forall x
      ensures Count(st'.free + st'.live, x) == Count(usable, x)
    {
      CountConcat(st.free, st.live, x);
      CountConcat(st'.free, st'.live, x);
    }
  }

  // ----- allocHeap keeps the invariant -----

  lemma CarveKeepsTiles(st: State, usable: seq<Block>, i: nat, s: nat)
    requires Tiles(st.free + st.live, usable) && i < |st.free| && s <= st.free[i].len
    ensures Tiles(Carve(st, i, s).free + Carve(st, i, s).live, usable)
  {
    var st' := Carve(st, i, s);
    var b := st.free[i];
    var left := Block(b.addr + s, b.len - s);
    var chunk := Block(b.addr, s);
    assert st'.free == Splice(st.free, i, i + 1, [left]);
    assert st.free[i..i + 1] == [b];
    SpliceEffect(st.free, i, i + 1, [left]);
    TotalConcat(st.live, [chunk]);
    forall x
      ensures Count(st'.free, x) + Count(st'.live, x) == Count(st.free, x) + Count(st.live, x)
    {
      CountConcat(st.live, [chunk], x);
      assert Count([b], x) == Count([left], x) + Count([chunk], x);
    }
    ExchangeKeepsTiles(st, st', usable);
  }

  lemma CarvedPiecesFit(b: Block, usable: seq<Block>, s: nat)
    requires FreeIn(b, usable) && 0 < s < b.len && s % HEADER == 0
    ensures FreeIn(Block(b.addr + s, b.len - s), usable) && LiveIn(Block(b.addr, s), usable)
  {
    var q :| 0 <= q < |usable| && b.Inside(usable[q]);
    assert Block(b.addr + s, b.len - s).Inside(usable[q]) && Block(b.addr, s).Inside(usable[q]);
  }

  lemma CarveKeepsInv(st: State, usable: seq<Block>, i: nat, s: nat)
    requires Inv(st, usable) && i < |st.free|
    requires 0 < s < st.free[i].len && s % HEADER == 0
    ensures Inv(Carve(st, i, s), usable)
  {
    CarvedPiecesFit(st.free[i], usable, s);
    CarveKeepsTiles(st, usable, i, s);
  }

  lemma AllocKeepsInv(st: State, usable: seq<Block>, nbytes: Size)
    requires Inv(st, usable)
    ensures Inv(Alloc(st, nbytes).0, usable)
  {
    var s := ChunkSize(nbytes);
    var i := FirstFit(st.free, s);
    if nbytes != 0 && i < |st.free| && s != 0 {
      ChunkSizeZero(nbytes);
      ChunkSizeBounds(nbytes);
      CarveKeepsInv(st, usable, i, s);
    }
  }

  /**
   allocHeap reports failure for the empty request only. It runs into the null pointer exactly
   when no free block is strictly longer than the chunk, where its caller would expect -1.
   */
  lemma AllocOutcome(st: State, nbytes: Size)
    ensures Alloc(st, nbytes).1 == MinusOne <==> nbytes == 0
    ensures Alloc(st, nbytes).1 == Fault <==>
            nbytes != 0 && forall j :: 0 <= j < |st.free| ==> st.free[j].len <= ChunkSize(nbytes)
  {
  }

  /** The bytes handed out lie outside every free block, unless the request wraps to size zero. */
  lemma AllocFresh(st: State, usable: seq<Block>, nbytes: Size)
    requires Inv(st, usable) && Alloc(st, nbytes).1.Pointer?
    ensures var (st', r) := Alloc(st, nbytes);
            (forall i :: 0 <= i < |st'.free| ==> !st'.free[i].Contains(r.addr - HEADER)) <==>
            nbytes < WORD - 8
  {
    var (st', r) := Alloc(st, nbytes);
    var s := ChunkSize(nbytes);
    var i := FirstFit(st.free, s);
    ChunkSizeZero(nbytes);
    if nbytes < WORD - 8 {
      AllocKeepsInv(st, usable, nbytes);
      var k := |st.live|;
      assert st'.live[k] == Block(st.free[i].addr, s);
      forall j | 0 <= j < |st'.free|
        ensures !st'.free[j].Contains(r.addr - HEADER)
      {
        FreeApartFromLive(st', usable, j, k);
      }
    } else {
      assert st.free[i].Contains(r.addr - HEADER);
    }
  }

  lemma CarveKeepsSorted(st: State, usable: seq<Block>, i: nat, s: nat)
    requires Inv(st, usable) && Sorted(st.free) && i < |st.free|
    requires 0 < s < st.free[i].len
    ensures Sorted(Carve(st, i, s).free)
  {
    var free' := Carve(st, i, s).free;
    forall a, b | 0 <= a < b < |free'|
      ensures free'[a].addr < free'[b].addr
    {
      FreeApart(st, usable, a, b);
    }
  }

  lemma AllocKeepsSorted(st: State, usable: seq<Block>, nbytes: Size)
    requires Inv(st, usable) && Sorted(st.free)
    ensures Sorted(Alloc(st, nbytes).0.free)
  {
    var s := ChunkSize(nbytes);
    var i := FirstFit(st.free, s);
    if nbytes != 0 && i < |st.free| && s != 0 {
      CarveKeepsSorted(st, usable, i, s);
    }
  }

  // ----- free keeps the invariant -----

  lemma ReleaseKeepsTiles(st: State, usable: seq<Block>, k: nat, p: nat, merge: bool)
    requires Tiles(st.free + st.live, usable) && k < |st.live| && p <= |st.free|
    requires st.live[k].len > 0
    requires forall i :: 0 <= i < |st.free| ==> st.free[i].len > 0
    ensures var st' := State(Release(st.free, st.live[k], p, merge), Rest(st.live, k));
            Tiles(st'.free + st'.live, usable)
  {
    var c := st.live[k];
    var st' := State(Release(st.free, c, p, merge), Rest(st.live, k));
    var joined := merge && p < |st.free| && c.End() == st.free[p].addr;
    var q := if joined then p + 1 else p;
    var mid := if joined then Block(c.addr, c.len + st.free[p].len) else c;
    assert st'.free == Splice(st.free, p, q, [mid]);
    assert st'.live == Splice(st.live, k, k + 1, []);
    SpliceEffect(st.free, p, q, [mid]);
    SpliceEffect(st.live, k, k + 1, []);
    assert st.live[k..k + 1] == [c];
    assert st.free[p..q] == if joined then [st.free[p]] else [];
    forall x
      ensures Count([mid], x) == Count([c], x) + Count(st.free[p..q], x)
    {
    }
    ExchangeKeepsTiles(st, st', usable);
  }

  /** Putting a live chunk back, at whatever position, keeps blocks apart and memory covered. */
  lemma ReleaseKeepsInv(st: State, usable: seq<Block>, k: nat, p: nat, merge: bool)
    requires Inv(st, usable) && k < |st.live| && p <= |st.free|
    ensures Inv(State(Release(st.free, st.live[k], p, merge), Rest(st.live, k)), usable)
  {
    var c := st.live[k];
    var joined := merge && p < |st.free| && c.End() == st.free[p].addr;
    ReleasedBlockFits(st, usable, k, p, if joined then Block(c.addr, c.len + st.free[p].len) else c);
    LengthsPositive(st, usable);
    ReleaseKeepsTiles(st, usable, k, p, merge);
  }

  /** A chunk joined with the free block behind it stays inside one region. */
  lemma ReleasedBlockFits(st: State, usable: seq<Block>, k: nat, p: nat, mid: Block)
    requires Inv(st, usable) && k < |st.live| && p <= |st.free|
    requires mid == st.live[k] ||
             (p < |st.free| && st.live[k].End() == st.free[p].addr &&
              mid == Block(st.live[k].addr, st.live[k].len + st.free[p].len))
    ensures FreeIn(mid, usable)
  {
    if mid != st.live[k] {
      JoinedFits(st.live[k], st.free[p], usable);
    }
  }

  lemma JoinedFits(c: Block, b: Block, usable: seq<Block>)
    requires Regions(usable) && LiveIn(c, usable) && FreeIn(b, usable) && c.End() == b.addr
    ensures FreeIn(Block(c.addr, c.len + b.len), usable)
  {
    var q :| 0 <= q < |usable| && c.Inside(usable[q]) && c.End() < usable[q].End();
    var r :| 0 <= r < |usable| && b.Inside(usable[r]);
    SameRegion(usable, q, r, b.addr);
    assert Block(c.addr, c.len + b.len).Inside(usable[q]);
  }

  lemma SameRegion(usable: seq<Block>, q: nat, r: nat, x: int)
    requires Ascending(usable) && q < |usable| && r < |usable| && usable[q].Contains(x) && usable[r].Contains(x)
    ensures q == r
  {
  }

  /** Kernel code lies outside usable memory, so its functions do too. */
  ghost predicate OutsideUsable(fn: int, usable: seq<Block>) {
    forall k :: 0 <= k < |usable| ==> !(usable[k].addr < fn < usable[k].End())
  }

  /** The head merge of line 185 never takes place. */
  lemma HeadMergeNeverFires(getHeadFn: int, st: State, usable: seq<Block>, k: nat)
    requires Inv(st, usable) && OutsideUsable(getHeadFn, usable) && k < |st.live|
    ensures st.live[k].End() != getHeadFn
  {
    var q :| 0 <= q < |usable| && st.live[k].Inside(usable[q]) && st.live[k].End() < usable[q].End();
  }

  lemma FreeWrittenKeepsInv(getHeadFn: int, st: State, usable: seq<Block>, k: nat)
    requires Inv(st, usable) && OutsideUsable(getHeadFn, usable) && k < |st.live|
    requires FreeWritten(getHeadFn, st, k).Some?
    ensures Inv(FreeWritten(getHeadFn, st, k).value, usable)
  {
    HeadMergeNeverFires(getHeadFn, st, usable, k);
    var p := WrittenSpot(st.free, st.live[k].addr).value;
    ReleaseKeepsInv(st, usable, k, p, p > 0);
  }

  // ----- where a chunk belongs in a sorted list -----

  /** `p` is the number of blocks below `c`; the rest start at its end or later. */
  ghost predicate Between(free: seq<Block>, c: Block, p: nat) {
    p < |free| &&
    (forall i :: 0 <= i < p ==> free[i].End() <= c.addr) &&
    (forall i :: p <= i < |free| ==> c.End() <= free[i].addr)
  }

  /** In a sorted list a live chunk has its place, and never behind the last block. */
  lemma LiveChunkHasPlace(st: State, usable: seq<Block>, k: nat) returns (p: nat)
    requires Inv(st, usable) && Sorted(st.free) && k < |st.live|
    ensures Between(st.free, st.live[k], p)
  {
    var c := st.live[k];
    var top := FreeBlockAbove(st, usable, k);
    p := 0;
    while st.free[p].addr < c.addr
      invariant p <= top
      invariant forall i :: 0 <= i < p ==> st.free[i].addr < c.addr
      decreases top - p
    {
      p := p + 1;
    }
    forall i | 0 <= i < |st.free|
      ensures i < p ==> st.free[i].End() <= c.addr
      ensures i >= p ==> c.End() <= st.free[i].addr
    {
      FreeApartFromLive(st, usable, i, k);
      assert i > p ==> st.free[p].addr < st.free[i].addr;
    }
  }

  lemma {:induction false} MeantWalkFinds(free: seq<Block>, c: Block, p: nat, j: nat)
    requires Sorted(free) && Between(free, c, p) && c.len > 0 && j < p
    requires forall i :: 0 <= i < |free| ==> free[i].len > 0
    ensures MeantWalk(free, c.addr, j) == Some(p)
    decreases p - j
  {
    if j + 1 < p {
      MeantWalkFinds(free, c, p, j + 1);
    }
  }

  lemma {:induction false} WrittenWalkOvershoots(free: seq<Block>, c: Block, p: nat, j: nat)
    requires Sorted(free) && Between(free, c, p) && c.len > 0 && 1 <= j <= p && p >= 2
    requires forall i :: 0 <= i < |free| ==> free[i].len > 0
    ensures WrittenWalk(free, c.addr, j) == if p + 1 < |free| then Some(p + 1) else None
    decreases p - j
  {
    if j < p {
      WrittenWalkOvershoots(free, c, p, j + 1);
    } else if p + 1 == |free| {
      assert WrittenWalk(free, c.addr, p + 1) == None;
    }
  }

  /** The repaired walk stops at the one right place. */
  lemma MeantSpotIsPlace(free: seq<Block>, c: Block, p: nat)
    requires Sorted(free) && Between(free, c, p) && c.len > 0
    requires forall i :: 0 <= i < |free| ==> free[i].len > 0
    ensures MeantSpot(free, c.addr) == Some(p)
  {
    if p > 0 {
      MeantWalkFinds(free, c, p, 0);
    }
  }

  /**
   The walk as written finds the first two places. For any later one it goes one block too far,
   and past the last block it runs into null.
   */
  lemma WrittenSpotFromPlace(free: seq<Block>, c: Block, p: nat)
    requires Sorted(free) && Between(free, c, p) && c.len > 0
    requires forall i :: 0 <= i < |free| ==> free[i].len > 0
    ensures WrittenSpot(free, c.addr) ==
            if p <= 1 then Some(p) else if p + 1 < |free| then Some(p + 1) else None
  {
    if p >= 2 {
      assert free[1].End() <= c.addr;
      WrittenWalkOvershoots(free, c, p, 1);
    }
  }

  lemma ReleaseSortedIff(free: seq<Block>, c: Block, p: nat, at: nat, merge: bool)
    requires Sorted(free) && Between(free, c, p) && c.len > 0 && at <= |free|
    requires forall i :: 0 <= i < |free| ==> free[i].len > 0
    ensures Sorted(Release(free, c, at, merge)) <==> at == p
  {
    var free' := Release(free, c, at, merge);
    assert free'[at].addr == c.addr;
    if at > p {
      assert free'[p] == free[p];
      assert c.addr < free[p].addr;
    } else if at < p {
      assert free[at].addr < c.addr;
      assert free'[at + 1] == free[at];
    }
  }

  /** The repaired free never runs into null, and keeps the list sorted and memory tiled. */
  lemma FreeMeantCorrect(st: State, usable: seq<Block>, k: nat)
    requires Inv(st, usable) && Sorted(st.free) && k < |st.live|
    ensures FreeMeant(st, k).Some?
    ensures Inv(FreeMeant(st, k).value, usable) && Sorted(FreeMeant(st, k).value.free)
  {
    LengthsPositive(st, usable);
    var p := LiveChunkHasPlace(st, usable, k);
    MeantSpotIsPlace(st.free, st.live[k], p);
    ReleaseKeepsInv(st, usable, k, p, true);
    ReleaseSortedIff(st.free, st.live[k], p, p, true);
  }

  lemma FreeWrittenOnSorted(getHeadFn: int, st: State, usable: seq<Block>, k: nat)
    requires Inv(st, usable) && Sorted(st.free) && k < |st.live|
    requires OutsideUsable(getHeadFn, usable)
    ensures var r := FreeWritten(getHeadFn, st, k);
            (r.Some? && Sorted(r.value.free)) <==> BelowSecond(st, k)
  {
    LengthsPositive(st, usable);
    HeadMergeNeverFires(getHeadFn, st, usable, k);
    var c := st.live[k];
    var p := LiveChunkHasPlace(st, usable, k);
    WrittenSpotFromPlace(st.free, c, p);
    var at := WrittenSpot(st.free, c.addr);
    if at.Some? {
      ReleaseSortedIff(st.free, c, p, at.value, at.value > 0);
    }
  }

  /** Chunk `k` starts below the second free block, or there is no second. */
  predicate BelowSecond(st: State, k: nat)
    requires k < |st.live|
  {
    |st.free| < 2 || st.live[k].addr < st.free[1].addr
  }

  /** Putting a chunk back, at whatever place, joined or not, never brings an unsorted list into order. */
  lemma ReleaseSortedOnlyIfSorted(st: State, usable: seq<Block>, k: nat, p: nat, merge: bool)
    requires Inv(st, usable) && k < |st.live| && p <= |st.free|
    requires Sorted(Release(st.free, st.live[k], p, merge))
    ensures Sorted(st.free)
  {
    LengthsPositive(st, usable);
    forall i, j | 0 <= i < j < |st.free|
      ensures st.free[i].addr < st.free[j].addr
    {
      FreeApart(st, usable, i, j);
      FreeApartFromLive(st, usable, j, k);
      ReleaseOrderOfTwo(st.free, st.live[k], p, merge, i, j);
    }
  }

  /** Two disjoint blocks whose order survives a release were in that order before. */
  lemma ReleaseOrderOfTwo(free: seq<Block>, c: Block, p: nat, merge: bool, i: nat, j: nat)
    requires p <= |free| && i < j < |free| && Sorted(Release(free, c, p, merge))
    requires c.len > 0 && free[i].len > 0 && free[j].len > 0
    requires free[i].Apart(free[j]) && free[j].Apart(c)
    ensures free[i].addr < free[j].addr
  {
    var joined := merge && p < |free| && c.End() == free[p].addr;
    var free' := Release(free, c, p, merge);
    var i', j' := if i < p || joined then i else i + 1, if j < p || joined then j else j + 1;
    assert free'[i'].addr == if joined && i == p then c.addr else free[i].addr;
    assert free'[j'].addr == if joined && j == p then c.addr else free[j].addr;
  }

  /** Carving never does either. */
  lemma CarveSortedOnlyIfSorted(st: State, usable: seq<Block>, i: nat, s: nat)
    requires Inv(st, usable) && i < |st.free| && 0 < s < st.free[i].len
    requires Sorted(Carve(st, i, s).free)
    ensures Sorted(st.free)
  {
    LengthsPositive(st, usable);
    var free' := Carve(st, i, s).free;
    forall a, b | 0 <= a < b < |st.free|
      ensures st.free[a].addr < st.free[b].addr
    {
      FreeApart(st, usable, a, b);
      assert free'[a].addr < free'[b].addr;
    }
  }

  /** Allocation neither spoils nor restores the order of the list. */
  lemma AllocSortedIff(st: State, usable: seq<Block>, nbytes: Size)
    requires Inv(st, usable)
    ensures Sorted(Alloc(st, nbytes).0.free) <==> Sorted(st.free)
  {
    if Sorted(st.free) {
      AllocKeepsSorted(st, usable, nbytes);
    }
    var s := ChunkSize(nbytes);
    var i := FirstFit(st.free, s);
    if nbytes != 0 && i < |st.free| && s != 0 && Sorted(Alloc(st, nbytes).0.free) {
      CarveSortedOnlyIfSorted(st, usable, i, s);
    }
  }

  /**
   On every list `free` as written ends, and ends with a sorted list, exactly when the list was
   sorted and the chunk lies below its second block (or there is no second).
   */
  lemma FreeWrittenSortedIff(getHeadFn: int, st: State, usable: seq<Block>, k: nat)
    requires Inv(st, usable) && k < |st.live|
    requires OutsideUsable(getHeadFn, usable)
    ensures var r := FreeWritten(getHeadFn, st, k);
            (r.Some? && Sorted(r.value.free)) <==> (Sorted(st.free) && BelowSecond(st, k))
  {
    HeadMergeNeverFires(getHeadFn, st, usable, k);
    var r := FreeWritten(getHeadFn, st, k);
    if Sorted(st.free) {
      FreeWrittenOnSorted(getHeadFn, st, usable, k);
    } else if r.Some? && Sorted(r.value.free) {
      var p := WrittenSpot(st.free, st.live[k].addr).value;
      ReleaseSortedOnlyIfSorted(st, usable, k, p, p > 0);
    }
  }

  /** On a sorted list it runs into null exactly for a chunk just below the last of three or more blocks. */
  lemma FreeWrittenFaultIff(getHeadFn: int, st: State, usable: seq<Block>, k: nat)
    requires Inv(st, usable) && Sorted(st.free) && k < |st.live|
    requires OutsideUsable(getHeadFn, usable)
    ensures var n := |st.free|;
            FreeWritten(getHeadFn, st, k).None? <==>
            (n >= 3 && st.free[n - 2].addr < st.live[k].addr)
  {
    LengthsPositive(st, usable);
    HeadMergeNeverFires(getHeadFn, st, usable, k);
    var p := LiveChunkHasPlace(st, usable, k);
    WrittenSpotFromPlace(st.free, st.live[k], p);
  }

  /** On a sorted list the two forms of `free` agree exactly below the second block and away from the head. */
  lemma WrittenIsMeantIff(getHeadFn: int, st: State, usable: seq<Block>, k: nat)
    requires Inv(st, usable) && Sorted(st.free) && k < |st.live|
    requires OutsideUsable(getHeadFn, usable)
    ensures st.free != []
    ensures FreeWritten(getHeadFn, st, k) == FreeMeant(st, k) <==>
            (BelowSecond(st, k) && st.live[k].End() != st.free[0].addr)
  {
    LengthsPositive(st, usable);
    HeadMergeNeverFires(getHeadFn, st, usable, k);
    var c := st.live[k];
    var p := LiveChunkHasPlace(st, usable, k);
    MeantSpotIsPlace(st.free, c, p);
    WrittenSpotFromPlace(st.free, c, p);
    ReleasesAgreeIff(st.free, c, p);
  }

  /** Releasing where the written walk ends, against releasing in place. */
  lemma ReleasesAgreeIff(free: seq<Block>, c: Block, p: nat)
    requires Sorted(free) && Between(free, c, p) && c.len > 0
    requires forall i :: 0 <= i < |free| ==> free[i].len > 0
    ensures p == 0 ==> (Release(free, c, 0, false) == Release(free, c, 0, true) <==> c.End() != free[0].addr)
    ensures p + 1 < |free| ==> Release(free, c, p + 1, true) != Release(free, c, p, true)
  {
    if p == 0 {
      assert |Release(free, c, 0, false)| == |free| + 1;
    }
    if p + 1 < |free| {
      ReleaseSortedIff(free, c, p, p, true);
      ReleaseSortedIff(free, c, p, p + 1, true);
    }
  }
}
