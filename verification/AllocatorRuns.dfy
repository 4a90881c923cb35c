/** Laws over whole runs of allocHeap and free, starting from the list InitialiseHeaders builds. */
module AllocatorRuns {
  import opened Blocks
  import opened FreeList
  import opened Options

  // ----- one allocation -----

  /** First fit: one block gives up its front, every earlier block was too short. */
  lemma AllocIsFirstFit(st: State, nbytes: Size)
    requires 0 < nbytes < WORD - 8 && Alloc(st, nbytes).1.Pointer?
    ensures var (st', r) := Alloc(st, nbytes);
            var s := ChunkSize(nbytes);
            |st'.free| == |st.free| &&
            st'.live == st.live + [Block(r.addr - HEADER, s)] &&
            exists i :: 0 <= i < |st.free| &&
              (forall j :: 0 <= j < i ==> st.free[j].len <= s) &&
              st.free[i].addr == r.addr - HEADER &&
              st'.free[i] == Block(st.free[i].addr + s, st.free[i].len - s) && st'.free[i].len > 0 &&
              forall j :: 0 <= j < |st.free| && j != i ==> st'.free[j] == st.free[j]
  {
    ChunkSizeZero(nbytes);
    var i := FirstFit(st.free, ChunkSize(nbytes));
    assert st.free[i].addr == Alloc(st, nbytes).1.addr - HEADER;
  }

  // ----- free undoes allocHeap -----

  lemma TouchedBlockIsPlace(free: seq<Block>, c: Block, p: nat, i: nat)
    requires Sorted(free) && Between(free, c, p) && c.len > 0
    requires i < |free| && free[i].addr == c.End()
    requires forall j :: 0 <= j < |free| ==> free[j].len > 0
    ensures p == i
  {
    var place, touched := free[p], free[i];
  }

  /** A chunk just carved lies right in front of what is left of its block. */
  lemma CarvedChunkPlace(st: State, usable: seq<Block>, i: nat, s: nat)
    requires Inv(st, usable) && Sorted(st.free) && i < |st.free|
    requires 0 < s < st.free[i].len && s % HEADER == 0
    ensures var st' := Carve(st, i, s);
            Inv(st', usable) && Sorted(st'.free) && Between(st'.free, st'.live[|st.live|], i)
  {
    var st' := Carve(st, i, s);
    CarveKeepsInv(st, usable, i, s);
    CarveKeepsSorted(st, usable, i, s);
    var p := LiveChunkHasPlace(st', usable, |st.live|);
    LengthsPositive(st', usable);
    TouchedBlockIsPlace(st'.free, st'.live[|st.live|], p, i);
  }

  lemma JoinRestores(st: State, i: nat, s: nat)
    requires i < |st.free|
    ensures var st' := Carve(st, i, s);
            var c := st'.live[|st.live|];
            Release(st'.free, c, i, true) == st.free && Rest(st'.live, |st.live|) == st.live
  {
    var st' := Carve(st, i, s);
    var c := st'.live[|st.live|];
    assert st'.free[i].addr == c.End();
    assert Release(st'.free, c, i, true) == st'.free[..i] + [st.free[i]] + st'.free[i + 1..];
  }

  /** Repaired free: freeing the chunk just allocated gives back the very same state. */
  lemma FreeMeantUndoesAlloc(st: State, usable: seq<Block>, nbytes: Size)
    requires Inv(st, usable) && Sorted(st.free)
    requires nbytes < WORD - 8 && Alloc(st, nbytes).1.Pointer?
    ensures var st' := Alloc(st, nbytes).0;
            |st'.live| == |st.live| + 1 && FreeMeant(st', |st.live|) == Some(st)
  {
    var s := ChunkSize(nbytes);
    var i := FirstFit(st.free, s);
    ChunkSizeBounds(nbytes);
    CarvedChunkPlace(st, usable, i, s);
    var st' := Carve(st, i, s);
    LengthsPositive(st', usable);
    MeantSpotIsPlace(st'.free, st'.live[|st.live|], i);
    JoinRestores(st, i, s);
  }

  /**
   On any reachable list, sorted or not, `free` as written dereferences null exactly when the chunk
   is not before either of the first two blocks and no two later neighbours both start above it.
   */
  lemma FreeWrittenFaultIffAny(getHeadFn: int, st: State, usable: seq<Block>, k: nat)
    requires Inv(st, usable) && OutsideUsable(getHeadFn, usable) && k < |st.live|
    ensures st.free != []
    ensures var free, a := st.free, st.live[k].addr;
            FreeWritten(getHeadFn, st, k).None? <==>
            (free[0].addr <= a && (|free| == 1 || free[1].addr < a) &&
             forall q :: 1 <= q < |free| ==> !StopsAt(free, a, q))
  {
    HeadMergeNeverFires(getHeadFn, st, usable, k);
    LastCellsFree(st, usable);
    WrittenWalkNullIff(st.free, st.live[k].addr, 1);
  }

  /**
   When `free` as written finds its way back to block `i`: not the head, the head lies below,
   and, past the second block, the first two neighbours both above are blocks i-1 and i.
   */
  ghost predicate WayBack(free: seq<Block>, i: nat)
    requires i < |free|
  {
    var a := free[i].addr;
    i >= 1 && free[0].addr < a &&
    (i == 1 || (free[1].addr < a && a < free[i - 1].addr && forall q :: 1 <= q < i - 1 ==> !StopsAt(free, a, q)))
  }

  /** `free` as written, on any reachable list: it undoes the allocation exactly when it finds the way back. */
  lemma FreeWrittenUndoesAllocIff(getHeadFn: int, st: State, usable: seq<Block>, nbytes: Size)
    requires Inv(st, usable) && OutsideUsable(getHeadFn, usable)
    requires nbytes < WORD - 8 && Alloc(st, nbytes).1.Pointer?
    ensures var st' := Alloc(st, nbytes).0;
            |st'.live| == |st.live| + 1 &&
            (FreeWritten(getHeadFn, st', |st.live|) == Some(st) <==>
             WayBack(st.free, FirstFit(st.free, ChunkSize(nbytes))))
  {
    var s := ChunkSize(nbytes);
    var i := FirstFit(st.free, s);
    ChunkSizeBounds(nbytes);
    CarveKeepsInv(st, usable, i, s);
    var st' := Carve(st, i, s);
    var c := st'.live[|st.live|];
    HeadMergeNeverFires(getHeadFn, st', usable, |st.live|);
    JoinRestores(st, i, s);
    var spot := WrittenSpot(st'.free, c.addr);
    if spot.Some? {
      RestoredOnlyAtOwnPlace(st, usable, i, s, spot.value);
    }
    WrittenSpotIsWayBack(st, usable, i, s);
  }

  lemma RestoredOnlyAtOwnPlace(st: State, usable: seq<Block>, i: nat, s: nat, p: nat)
    requires i < |st.free| && 0 < s < st.free[i].len && Inv(Carve(st, i, s), usable)
    requires p < |st.free|
    ensures var st' := Carve(st, i, s);
            var c := st'.live[|st.live|];
            Release(st'.free, c, p, p > 0) == st.free <==> (p == i && p > 0)
  {
    var st' := Carve(st, i, s);
    var c := st'.live[|st.live|];
    JoinRestores(st, i, s);
    if p != i {
      FreeApart(st', usable, p, i);
      assert FreeIn(st'.free[p], usable);
      assert st'.free[p].addr != c.End();
      assert |Release(st'.free, c, p, p > 0)| == |st.free| + 1;
    } else if p == 0 {
      assert |Release(st'.free, c, p, false)| == |st.free| + 1;
    }
  }

  lemma WrittenSpotIsWayBack(st: State, usable: seq<Block>, i: nat, s: nat)
    requires i < |st.free| && 0 < s < st.free[i].len && Inv(st, usable)
    ensures (WrittenSpot(Carve(st, i, s).free, st.free[i].addr) == Some(i) && i > 0) <==> WayBack(st.free, i)
  {
    var free, free' := st.free, Carve(st, i, s).free;
    var a := free[i].addr;
    assert free'[i].addr == a + s;
    if i > 0 {
      StartsDiffer(st, usable, 0, i);
      if i > 1 {
        StartsDiffer(st, usable, 1, i);
        StartsDiffer(st, usable, i - 1, i);
        WrittenWalkIsFirstStop(free', a, 1, i);
        assert forall q :: 1 <= q < i - 1 ==> (StopsAt(free', a, q) <==> StopsAt(free, a, q));
      }
    }
  }

  lemma StartsDiffer(st: State, usable: seq<Block>, i: nat, j: nat)
    requires Inv(st, usable) && i < |st.free| && j < |st.free| && i != j
    ensures st.free[i].addr != st.free[j].addr
  {
    FreeApart(st, usable, i, j);
    LengthsPositive(st, usable);
  }

  /** On a sorted list `free` as written undoes the allocation exactly when the second block was split. */
  lemma FreeWrittenUndoesAllocSorted(getHeadFn: int, st: State, usable: seq<Block>, nbytes: Size)
    requires Inv(st, usable) && OutsideUsable(getHeadFn, usable) && Sorted(st.free)
    requires nbytes < WORD - 8 && Alloc(st, nbytes).1.Pointer?
    ensures var st' := Alloc(st, nbytes).0;
            |st'.live| == |st.live| + 1 &&
            (FreeWritten(getHeadFn, st', |st.live|) == Some(st) <==> FirstFit(st.free, ChunkSize(nbytes)) == 1)
  {
    FreeWrittenUndoesAllocIff(getHeadFn, st, usable, nbytes);
  }

  // ----- runs -----

  datatype Op = AllocOp(nbytes: Size) | FreeOp(k: nat)

  /** Which `free` a run uses: the code as it stands, or the repaired one. */
  datatype Form = AsWritten(getHeadFn: int) | Meant

  /** None when the kernel faults, or when the run frees what is not a live chunk. */
  function Step(form: Form, st: State, op: Op): Option<State> {
    match op
    case AllocOp(nbytes) =>
      var (st', r) := Alloc(st, nbytes);
      if r.Fault? then None else Some(st')
    case FreeOp(k) =>
      if k >= |st.live| then None
      else match form
        case AsWritten(fn) => FreeWritten(fn, st, k)
        case Meant => FreeMeant(st, k)
  }

  function Run(form: Form, st: State, ops: seq<Op>): Option<State>
    decreases |ops|
  {
    if ops == [] then Some(st)
    else match Step(form, st, ops[0])
      case None => None
      case Some(st') => Run(form, st', ops[1..])
  }

  /** A run of one operation is a step. */
  lemma RunOfOne(form: Form, st: State, op: Op)
    ensures Run(form, st, [op]) == Step(form, st, op)
  {
    if Step(form, st, op).Some? {
      assert Run(form, Step(form, st, op).value, []) == Step(form, st, op);
    }
  }

  /** Runs compose. */
  lemma {:induction false} RunConcat(form: Form, st: State, a: seq<Op>, b: seq<Op>)
    ensures Run(form, st, a + b) == match Run(form, st, a) case None => None case Some(st') => Run(form, st', b)
    decreases |a|
  {
    if a == [] {
      assert a + b == b;
    } else {
      assert (a + b)[1..] == a[1..] + b;
      if Step(form, st, a[0]).Some? {
        RunConcat(form, Step(form, st, a[0]).value, a[1..], b);
      }
    }
  }

  /** The getHead function is kernel code, outside usable memory. */
  ghost predicate Linked(form: Form, usable: seq<Block>) {
    form.AsWritten? ==> OutsideUsable(form.getHeadFn, usable)
  }

  lemma InitialInv(usable: seq<Block>)
    requires Regions(usable)
    ensures Inv(State(usable, []), usable) && Sorted(usable)
  {
    assert usable + [] == usable;
    forall i | 0 <= i < |usable|
      ensures FreeIn(usable[i], usable)
    {
      assert usable[i].Inside(usable[i]);
    }
  }

  lemma StepKeepsInv(form: Form, st: State, usable: seq<Block>, op: Op)
    requires Inv(st, usable) && Linked(form, usable)
    ensures Step(form, st, op).Some? ==> Inv(Step(form, st, op).value, usable)
    ensures form.Meant? && Sorted(st.free) && Step(form, st, op).Some? ==> Sorted(Step(form, st, op).value.free)
  {
    match op
    case AllocOp(nbytes) =>
      AllocKeepsInv(st, usable, nbytes);
      if Sorted(st.free) {
        AllocKeepsSorted(st, usable, nbytes);
      }
    case FreeOp(k) =>
      if Step(form, st, op).Some? {
        match form
        case AsWritten(fn) =>
          FreeWrittenKeepsInv(fn, st, usable, k);
        case Meant =>
          ReleaseKeepsInv(st, usable, k, MeantSpot(st.free, st.live[k].addr).value, true);
          if Sorted(st.free) {
            FreeMeantCorrect(st, usable, k);
          }
      }
  }

  lemma {:induction false} RunKeepsInv(form: Form, st: State, usable: seq<Block>, ops: seq<Op>)
    requires Inv(st, usable) && Linked(form, usable)
    requires Run(form, st, ops).Some?
    ensures Inv(Run(form, st, ops).value, usable)
    ensures form.Meant? && Sorted(st.free) ==> Sorted(Run(form, st, ops).value.free)
    decreases |ops|
  {
    if ops != [] {
      StepKeepsInv(form, st, usable, ops[0]);
      RunKeepsInv(form, Step(form, st, ops[0]).value, usable, ops[1..]);
    }
  }

  lemma LastCellsFree(st: State, usable: seq<Block>)
    requires Inv(st, usable)
    ensures st.free != []
    ensures forall r :: 0 <= r < |usable| ==> HoldsLastCell(st.free, usable[r])
  {
    forall r | 0 <= r < |usable|
      ensures HoldsLastCell(st.free, usable[r])
    {
      var i := LastCellIsFree(st, usable, r);
    }
    var i := LastCellIsFree(st, usable, 0);
  }

  /** Some free block holds the last 16 bytes of the region and ends with it. */
  ghost predicate HoldsLastCell(free: seq<Block>, region: Block) {
    exists i :: 0 <= i < |free| && free[i].addr <= region.End() - HEADER && free[i].End() == region.End()
  }

  /** Blocks and chunks apart, every usable byte in one of them, sizes adding up, last cells free. */
  ghost predicate Safe(st: State, usable: seq<Block>) {
    PairwiseApart(st.free + st.live) &&
    (forall x :: Count(st.free + st.live, x) == Count(usable, x) <= 1) &&
    Total(st.free) + Total(st.live) == Total(usable) &&
    st.free != [] &&
    forall r :: 0 <= r < |usable| ==> HoldsLastCell(st.free, usable[r])
  }

  lemma InvIsSafe(st: State, usable: seq<Block>)
    requires Inv(st, usable)
    ensures Safe(st, usable)
  {
    AllApart(st, usable);
    TotalConcat(st.free, st.live);
    LastCellsFree(st, usable);
    forall x
      ensures Count(usable, x) <= 1
    {
      AscendingCoversOnce(usable, x);
    }
  }

  /**
   Safety of every run, with `free` as written or repaired: free blocks and live chunks never
   overlap, together they cover exactly the usable bytes, their sizes add up to the usable
   memory, and the last 16 bytes of each usable region are in a free block.
   */
  lemma RunSafety(form: Form, usable: seq<Block>, ops: seq<Op>)
    requires Regions(usable) && Linked(form, usable)
    requires Run(form, State(usable, []), ops).Some?
    ensures Safe(Run(form, State(usable, []), ops).value, usable)
  {
    InitialInv(usable);
    RunKeepsInv(form, State(usable, []), usable, ops);
    InvIsSafe(Run(form, State(usable, []), ops).value, usable);
  }

  lemma MeantStepFailsIff(st: State, usable: seq<Block>, op: Op)
    requires Inv(st, usable) && Sorted(st.free)
    ensures Step(Meant, st, op).None? <==>
            match op
            case AllocOp(n) => n != 0 && forall j :: 0 <= j < |st.free| ==> st.free[j].len <= ChunkSize(n)
            case FreeOp(k) => k >= |st.live|
  {
    match op
    case AllocOp(n) =>
      AllocOutcome(st, n);
    case FreeOp(k) =>
      if k < |st.live| {
        FreeMeantCorrect(st, usable, k);
      }
  }

  /**
   With the repaired free every reachable list is sorted, and the next operation fails only for
   the reasons its caller can see: no free block is longer than the chunk, or nothing live is freed.
   */
  lemma MeantRunProgress(usable: seq<Block>, ops: seq<Op>, op: Op)
    requires Regions(usable)
    requires Run(Meant, State(usable, []), ops).Some?
    ensures var st := Run(Meant, State(usable, []), ops).value;
            Sorted(st.free) &&
            (Step(Meant, st, op).None? <==>
             match op
             case AllocOp(n) => n != 0 && forall j :: 0 <= j < |st.free| ==> st.free[j].len <= ChunkSize(n)
             case FreeOp(k) => k >= |st.live|)
  {
    InitialInv(usable);
    RunKeepsInv(Meant, State(usable, []), usable, ops);
    MeantStepFailsIff(Run(Meant, State(usable, []), ops).value, usable, op);
  }

  /** Every free of the run is of a chunk below the second block of the list it meets. */
  ghost predicate FreesBelowSecond(form: Form, st: State, ops: seq<Op>)
    requires Run(form, st, ops).Some?
    decreases |ops|
  {
    ops == [] ||
    ((ops[0].FreeOp? ==> BelowSecond(st, ops[0].k)) && FreesBelowSecond(form, Step(form, st, ops[0]).value, ops[1..]))
  }

  /**
   Over every completed run with `free` as written, from any list: the list ends sorted exactly
   when it began so and every free was of a chunk below the second block.
   */
  lemma {:induction false} WrittenRunSortedIff(getHeadFn: int, st: State, usable: seq<Block>, ops: seq<Op>)
    requires Inv(st, usable) && OutsideUsable(getHeadFn, usable)
    requires Run(AsWritten(getHeadFn), st, ops).Some?
    ensures Sorted(Run(AsWritten(getHeadFn), st, ops).value.free) <==>
            (Sorted(st.free) && FreesBelowSecond(AsWritten(getHeadFn), st, ops))
    decreases |ops|
  {
    if ops != [] {
      var form := AsWritten(getHeadFn);
      StepKeepsInv(form, st, usable, ops[0]);
      match ops[0] {
        case AllocOp(n) => AllocSortedIff(st, usable, n);
        case FreeOp(k) => FreeWrittenSortedIff(getHeadFn, st, usable, k);
      }
      WrittenRunSortedIff(getHeadFn, Step(form, st, ops[0]).value, usable, ops[1..]);
    }
  }

  // ----- properly nested use -----

  /** Programs that free every chunk in the reverse order of allocation. */
  datatype Nest = Skip | Then(first: Nest, second: Nest) | Scope(nbytes: Size, body: Nest)

  /** The operations of a program entered with `n` live chunks. */
  function Flatten(p: Nest, n: nat): seq<Op>
    decreases p
  {
    match p
    case Skip => []
    case Then(a, b) => Flatten(a, n) + Flatten(b, n)
    case Scope(nbytes, body) => [AllocOp(nbytes)] + Flatten(body, n + 1) + [FreeOp(n)]
  }

  /** Every allocation of the program, made from the state its scope is entered in, finds a block for a real chunk. */
  ghost predicate AllocsSucceed(st: State, p: Nest)
    decreases p
  {
    match p
    case Skip => true
    case Then(a, b) => AllocsSucceed(st, a) && AllocsSucceed(st, b)
    case Scope(n, body) =>
      0 < n < WORD - 8 &&
      (exists j :: 0 <= j < |st.free| && st.free[j].len > ChunkSize(n)) &&
      AllocsSucceed(Alloc(st, n).0, body)
  }

  lemma RunScope(st: State, nbytes: Size, body: Nest, n: nat)
    ensures Run(Meant, st, Flatten(Scope(nbytes, body), n)) ==
            match Step(Meant, st, AllocOp(nbytes))
            case None => None
            case Some(st1) =>
              match Run(Meant, st1, Flatten(body, n + 1))
              case None => None
              case Some(st2) => Step(Meant, st2, FreeOp(n))
  {
    var ops, last := Flatten(body, n + 1), [FreeOp(n)];
    assert Flatten(Scope(nbytes, body), n) == [AllocOp(nbytes)] + (ops + last);
    assert ([AllocOp(nbytes)] + (ops + last))[1..] == ops + last;
    if Step(Meant, st, AllocOp(nbytes)).Some? {
      RunConcat(Meant, Step(Meant, st, AllocOp(nbytes)).value, ops, last);
    }
  }

  /** A program that expects more live chunks than there are gets nowhere, unless it allocates nothing. */
  lemma {:induction false} ShiftedRunFails(st: State, p: Nest, n: nat)
    requires n > |st.live|
    ensures Run(Meant, st, Flatten(p, n)) in {None, Some(st)}
    decreases p
  {
    match p
    case Skip =>
    case Then(a, b) =>
      ShiftedRunFails(st, a, n);
      ShiftedRunFails(st, b, n);
      RunConcat(Meant, st, Flatten(a, n), Flatten(b, n));
    case Scope(nbytes, body) =>
      RunScope(st, nbytes, body, n);
      if Step(Meant, st, AllocOp(nbytes)).Some? {
        ShiftedRunFails(Step(Meant, st, AllocOp(nbytes)).value, body, n + 1);
      }
  }

  /**
   Repaired free: a properly nested program runs to its end exactly when its allocations succeed,
   so no free in it ever fails, and then it leaves the free list and the live chunks as they were.
   */
  lemma {:induction false} NestedRunRestores(st: State, usable: seq<Block>, p: Nest)
    requires Inv(st, usable) && Sorted(st.free)
    ensures Run(Meant, st, Flatten(p, |st.live|)) == if AllocsSucceed(st, p) then Some(st) else None
    decreases p
  {
    match p
    case Skip =>
    case Then(a, b) =>
      NestedRunRestores(st, usable, a);
      NestedRunRestores(st, usable, b);
      RunConcat(Meant, st, Flatten(a, |st.live|), Flatten(b, |st.live|));
    case Scope(n, body) =>
      RunScope(st, n, body, |st.live|);
      AllocOutcome(st, n);
      AllocExact(st, n);
      if Alloc(st, n).1.Pointer? && n < WORD - 8 {
        FreeMeantUndoesAlloc(st, usable, n);
        AllocKeepsInv(st, usable, n);
        AllocKeepsSorted(st, usable, n);
        NestedRunRestores(Alloc(st, n).0, usable, body);
      } else if !Alloc(st, n).1.Fault? {
        ShiftedRunFails(st, body, |st.live| + 1);
      }
  }

  // ----- where free as written goes wrong -----

  lemma CarveOnlyBlock(form: Form, b: Block, live: seq<Block>)
    requires b.len > 16
    ensures Step(form, State([b], live), AllocOp(16)) ==
            Some(State([Block(b.addr + 16, b.len - 16)], live + [Block(b.addr, 16)]))
  {
    assert ChunkSize(16) == 16;
    assert [b][0 := Block(b.addr + 16, b.len - 16)] == [Block(b.addr + 16, b.len - 16)];
  }

  lemma FourAllocs(form: Form)
    ensures Run(form, State([Block(4096, 4096)], []), [AllocOp(16), AllocOp(16), AllocOp(16), AllocOp(16)]) ==
            Some(State([Block(4160, 4032)], [Block(4096, 16), Block(4112, 16), Block(4128, 16), Block(4144, 16)]))
  {
    var c0, c1, c2, c3 := Block(4096, 16), Block(4112, 16), Block(4128, 16), Block(4144, 16);
    CarveOnlyBlock(form, Block(4096, 4096), []);
    CarveOnlyBlock(form, Block(4112, 4080), [c0]);
    CarveOnlyBlock(form, Block(4128, 4064), [c0, c1]);
    CarveOnlyBlock(form, Block(4144, 4048), [c0, c1, c2]);
    assert [] + [c0] == [c0] && [c0] + [c1] == [c0, c1];
    assert [c0, c1] + [c2] == [c0, c1, c2] && [c0, c1, c2] + [c3] == [c0, c1, c2, c3];
    var a := AllocOp(16);
    assert Run(form, State([Block(4144, 4048)], [c0, c1, c2]), [a]).Some?;
    assert [a, a][1..] == [a] && [a, a, a][1..] == [a, a] && [a, a, a, a][1..] == [a, a, a];
  }

  lemma TwoFrees(getHeadFn: int)
    requires getHeadFn >= 8192
    ensures Run(AsWritten(getHeadFn),
                State([Block(4160, 4032)], [Block(4096, 16), Block(4112, 16), Block(4128, 16), Block(4144, 16)]),
                [FreeOp(2), FreeOp(0)]) ==
            Some(State([Block(4096, 16), Block(4128, 16), Block(4160, 4032)], [Block(4112, 16), Block(4144, 16)]))
  {
    var form := AsWritten(getHeadFn);
    var c0, c1, c2, c3 := Block(4096, 16), Block(4112, 16), Block(4128, 16), Block(4144, 16);
    var tail := Block(4160, 4032);
    assert Rest([c0, c1, c2, c3], 2) == [c0, c1, c3] && Rest([c0, c1, c3], 0) == [c1, c3];
    assert Release([tail], c2, 0, false) == [c2, tail] && Release([c2, tail], c0, 0, false) == [c0, c2, tail];
    assert [FreeOp(2), FreeOp(0)][1..] == [FreeOp(0)];
  }

  lemma LastGapStep(getHeadFn: int)
    requires getHeadFn >= 8192
    ensures var c0, c1, c2, c3 := Block(4096, 16), Block(4112, 16), Block(4128, 16), Block(4144, 16);
            var st := State([c0, c2, Block(4160, 4032)], [c1, c3]);
            Step(AsWritten(getHeadFn), st, FreeOp(1)).None? &&
            Step(Meant, st, FreeOp(1)) == Some(State([c0, c2, Block(4144, 4048)], [c1]))
  {
    var c0, c1, c2, c3 := Block(4096, 16), Block(4112, 16), Block(4128, 16), Block(4144, 16);
    var free := [c0, c2, Block(4160, 4032)];
    assert Rest([c1, c3], 1) == [c1];
    assert Release(free, c3, 2, true) == [c0, c2, Block(4144, 4048)];
    assert MeantWalk(free, 4144, 0) == MeantWalk(free, 4144, 1) == Some(2);
    assert WrittenWalk(free, 4144, 1) == WrittenWalk(free, 4144, 2) == WrittenWalk(free, 4144, 3) == None;
  }

  /**
   Four chunks of 16 bytes on one page, the third and the first freed: freeing the fourth runs
   `free` as written into null, where the repaired one joins it with the block behind it.
   */
  lemma WrittenFreeFaultsOnLastGap(getHeadFn: int)
    requires getHeadFn >= 8192
    ensures var page := [Block(4096, 4096)];
            var a := AllocOp(16);
            var ops := [a, a, a, a] + [FreeOp(2), FreeOp(0)];
            var c0, c1, c2, c3 := Block(4096, 16), Block(4112, 16), Block(4128, 16), Block(4144, 16);
            var st := State([c0, c2, Block(4160, 4032)], [c1, c3]);
            Regions(page) && Run(AsWritten(getHeadFn), State(page, []), ops) == Some(st) &&
            Step(AsWritten(getHeadFn), st, FreeOp(1)).None? &&
            Step(Meant, st, FreeOp(1)) == Some(State([c0, c2, Block(4144, 4048)], [c1]))
  {
    var a := AllocOp(16);
    FourAllocs(AsWritten(getHeadFn));
    TwoFrees(getHeadFn);
    RunConcat(AsWritten(getHeadFn), State([Block(4096, 4096)], []), [a, a, a, a], [FreeOp(2), FreeOp(0)]);
    LastGapStep(getHeadFn);
  }
}
