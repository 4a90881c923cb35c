/** The allocator of kernel/src/memory/memorylist.cpp: lists inside the memory they manage. */
module PhysicalHeap {
  import opened Blocks
  import opened FreeList
  import opened HeapMemory
  import opened MemoryMap
  import opened Options
  import Runs = AllocatorRuns

  /** Entries of the array InitialiseHeaders collects the usable regions in. */
  const BUFFER_SIZE: nat := 20

  class Heap {
    var mem: Memory
    var head: Size          // list::head.next
    const hhdm: Size        // start of the direct map of physical memory
    const getHeadFn: Size   // address of the function list::getHead

    ghost var usable: seq<Block>
    ghost var st: State

    ghost predicate Valid()
      reads this
    {
      Ready(mem, head, usable, st)
    }

    /** A machine with arbitrary contents in its memory. */
    constructor (words: Memory, hhdm: Size, getHeadFn: Size)
      ensures mem == words && this.hhdm == hhdm && this.getHeadFn == getHeadFn
    {
      mem, head := words, 0;
      this.hhdm, this.getHeadFn := hhdm, getHeadFn;
      usable, st := [], State([], []);
    }

    /** Lines 8-47. The array bounds the number of usable regions; line 46 needs one at least. */
    method InitialiseHeaders(entries: seq<Entry>)
      requires BootMap(entries) && 1 <= |UsableBlocks(entries)| < BUFFER_SIZE
      requires hhdm > 0 && hhdm % PAGE_SIZE == 0
      requires forall k :: 0 <= k < |UsableBlocks(entries)| ==> hhdm + UsableBlocks(entries)[k].End() < WORD
      requires Mapped(mem, Shift(UsableBlocks(entries), hhdm))
      modifies this
      ensures Valid() && mem.Keys == old(mem.Keys)
      ensures st == State(Shift(UsableBlocks(entries), hhdm), []) && usable == st.free
      ensures Sorted(st.free) && Total(st.free) == Total(UsableBlocks(entries))
    {
      ghost var blocks := UsableBlocks(entries);
      ghost var virt := Shift(blocks, hhdm);
      InitialHeap(entries, hhdm);
      var buffer, index := CollectUsable(entries);
      assert forall k :: 0 <= k < index ==> buffer[k] == blocks[k];
      forall k | 0 <= k < index
        ensures HasWords(mem, virt[k])
      {
        HeaderMapped(mem, virt, virt[k]);
      }
      LinkHeaders(buffer, index, virt);
      MappedSameKeys(old(mem), mem, virt);
      head := hhdm + buffer[0].addr;
      usable, st := virt, State(virt, []);
    }

    /** Lines 15-27. */
    method CollectUsable(entries: seq<Entry>) returns (buffer: array<Block>, index: nat)
      requires |UsableBlocks(entries)| < BUFFER_SIZE
      ensures fresh(buffer) && buffer.Length == BUFFER_SIZE
      ensures index == |UsableBlocks(entries)| && buffer[..index] == UsableBlocks(entries)
    {
      buffer := new Block[BUFFER_SIZE];
      index := 0;
      for j := 0 to |entries|
        invariant index == |UsableBlocks(entries[..j])| < BUFFER_SIZE
        invariant buffer[..index] == UsableBlocks(entries[..j])
      {
        UsableNext(entries, j);
        UsablePrefix(entries, j + 1);
        if entries[j].kind == USABLE {
          buffer[index] := Block(entries[j].base, entries[j].length);
          index := index + 1;
        }
      }
      assert entries[..|entries|] == entries;
    }

    /** Lines 28-43: a header at the start of every region, linked to the next region. */
    method LinkHeaders(buffer: array<Block>, index: nat, ghost virt: seq<Block>)
      requires index < buffer.Length && index == |virt|
      requires forall k :: 0 <= k < index ==> virt[k] == Block(hhdm + buffer[k].addr, buffer[k].len)
      requires forall k :: 0 <= k < index ==> Cell(virt[k]) && HasWords(mem, virt[k])
      requires Ascending(virt) && forall k :: 0 <= k < index ==> 0 < virt[k].addr && virt[k].End() < WORD
      modifies this`mem
      ensures mem.Keys == old(mem.Keys)
      ensures forall k :: 0 <= k < index ==> LinkedAt(mem, virt, k)
    {
      for i := 0 to index
        invariant mem.Keys == old(mem.Keys)
        invariant forall k :: 0 <= k < index ==> HasWords(mem, virt[k])
        invariant forall k :: 0 <= k < i ==> LinkedAt(mem, virt, k)
      {
        var base := buffer[i].addr;
        var nextBase := buffer[i + 1].addr;
        var pmblk := hhdm + base;
        assert HasWords(mem, virt[i]);
        LinkNext(mem, virt, i);
        ghost var linked := WithHeader(mem, virt[i], Link(virt, i + 1));
        mem := mem[pmblk + 8 := buffer[i].len];
        if i == index - 1 {
          mem := mem[pmblk := 0];
        } else {
          mem := mem[pmblk := hhdm + nextBase];
        }
        assert mem == linked;
      }
    }

    /**
     Lines 74-129. Carves the chunk off the first free block that is strictly longer, and leaves
     every word of the chunks already handed out as it was.
     */
    method AllocHeap(nbytes: Size) returns (r: AllocResult)
      requires Valid()
      modifies this
      ensures Valid() && usable == old(usable) && mem.Keys == old(mem.Keys)
      ensures (st, r) == Alloc(old(st), nbytes)
      ensures SameWords(old(mem), mem, old(st.live))
      ensures Allocated(old(mem), old(head), old(st), mem, head, st, nbytes, r)
      ensures Runs.Step(Runs.Meant, old(st), Runs.AllocOp(nbytes)) == if r.Fault? then None else Some(st)
    {
      if nbytes <= 0 {
        NothingAllocated(mem, head, st, nbytes, MinusOne);
        return MinusOne;
      }
      var n := Pad(nbytes);
      var mptr, next, prev, index := Search(n);
      if mptr == 0 {
        NothingAllocated(mem, head, st, nbytes, Fault);
        return Fault;  // line 125 reads mptr->next
      }
      r := Split(n, mptr, next, prev, index);
      AllocDone(old(mem), old(head), old(st), mem, head, st, nbytes, index);
    }

    /** Lines 82-86. */
    method Pad(nbytes: Size) returns (n: Size)
      ensures n == ChunkSize(nbytes) && n % 16 == 0
    {
      n := nbytes;
      if n < 16 {
        n := 16 + n;
      }
      n := Round(n, 16);
      ChunkSizeAligned(nbytes);
    }

    /** Lines 88-127: the first block longer than `n`, or a null `mptr` when the walk runs out. */
    method Search(n: Size) returns (mptr: Size, next: Size, prev: Size, index: nat)
      requires Valid()
      ensures index == FirstFit(st.free, n) && mptr == Link(st.free, index)
      ensures mptr == 0 <==> index == |st.free|
      ensures mptr != 0 ==> next == Link(st.free, index + 1)
      ensures mptr != 0 ==> prev == if index == 0 then 0 else st.free[index - 1].addr
    {
      ListNotEmpty(mem, head, usable, st);
      BlockReady(mem, head, usable, st, 0);
      mptr := head;
      prev := 0;
      index := 0;
      var length;
      next, length := ReadHeader(mptr, 0);
      ghost var fit := FirstFit(st.free, n);
      while mptr != 0
        invariant index <= fit && index < |st.free| && mptr == st.free[index].addr
        invariant next == Link(st.free, index + 1) && (next == 0 <==> index + 1 == |st.free|)
        invariant prev == if index == 0 then 0 else st.free[index - 1].addr
        invariant length == st.free[index].len
        decreases |st.free| - index
      {
        if length > n {
          return;
        }
        prev := mptr;
        mptr := next;
        index := index + 1;
        if mptr == 0 {
          return;
        }
        next, length := ReadHeader(mptr, index);
      }
    }

    /** The two words of the header at `mptr`, the start of block `i`. */
    method ReadHeader(mptr: Size, ghost i: nat) returns (next: Size, length: Size)
      requires Valid() && i < |st.free| && mptr == st.free[i].addr
      ensures mptr != 0 && next == Link(st.free, i + 1) && length == st.free[i].len
      ensures next == 0 <==> i + 1 == |st.free|
    {
      BlockReady(mem, head, usable, st, i);
      return mem[mptr], mem[mptr + 8];
    }

    /** Lines 94-119: block `index` at `mptr` gives up its first `allocsize` bytes. */
    method Split(allocsize: Size, mptr: Size, next: Size, prev: Size, index: nat) returns (r: AllocResult)
      requires Valid() && index < |st.free| && allocsize < st.free[index].len && allocsize % 16 == 0
      requires mptr == st.free[index].addr && next == Link(st.free, index + 1)
      requires prev == if index == 0 then 0 else st.free[index - 1].addr
      modifies this
      ensures Valid() && usable == old(usable) && mem.Keys == old(mem.Keys)
      ensures st == if allocsize == 0 then old(st) else Carve(old(st), index, allocsize)
      ensures r == Pointer(mptr + 16)
      ensures if allocsize == 0 then mem == old(mem) && head == old(head)
              else Carved(old(mem), old(head), old(st.free), mem, head, index, allocsize)
      ensures SameWords(old(mem), mem, old(st.live))
    {
      SplitReady(mem, head, usable, st, index, allocsize);
      WriteSplit(allocsize, mptr, next, prev, index);
      st := if allocsize == 0 then st else Carve(st, index, allocsize);
      return Pointer(mptr + 16);
    }

    /** The stores of Split. */
    method WriteSplit(allocsize: Size, mptr: Size, next: Size, prev: Size, index: nat)
      requires mptr in mem && mptr + 8 in mem && allocsize <= mem[mptr + 8] && mptr + mem[mptr + 8] < WORD
      modifies this`mem, this`head
      ensures mem == SplitWrites(old(mem), mptr, old(mem[mptr + 8]), allocsize, prev, next)
      ensures head == if index == 0 then mptr + allocsize else old(head)
    {
      var length := mem[mptr + 8];
      var allocAddr: int := mptr;
      var rest: int := mptr + allocsize;
      mem := mem[allocAddr := rest];
      mem := mem[allocAddr + 8 := allocsize];
      if prev != 0 {
        mem := mem[prev := rest];
      }
      mem := mem[rest := next];
      mem := mem[rest + 8 := length - allocsize];
      if index == 0 {
        head := rest;
      }
    }

    /**
     Lines 166-234 as they stand. `k` says which live chunk `base` belongs to. False is a fault:
     the walk dereferences null, and nothing has been written.
     */
    method Free(base: Size, ghost k: nat) returns (ok: bool)
      requires Valid() && k < |st.live| && base == st.live[k].addr + 16
      modifies this
      ensures ok <==> FreeWritten(getHeadFn, old(st), k).Some?
      ensures !ok ==> mem == old(mem) && head == old(head) && st == old(st)
      ensures ok ==> st == FreeWritten(getHeadFn, old(st), k).value && SameWords(old(mem), mem, st.live)
      ensures Spells(mem, head, st) && usable == old(usable) && mem.Keys == old(mem.Keys)
      ensures OutsideUsable(getHeadFn, usable) ==> Valid()
      ensures Runs.Step(Runs.AsWritten(getHeadFn), old(st), Runs.FreeOp(k)) == if ok then Some(st) else None
      ensures old(st.live[k].End()) != getHeadFn ==>
                FreedAsWritten(old(mem), old(head), old(st), mem, head, st, k, ok)
    {
      ListNotEmpty(mem, head, usable, st);
      ChunkReady(mem, head, usable, st, k);
      var mptr := base - 16;
      if mptr + mem[mptr + 8] == getHeadFn {
        if OutsideUsable(getHeadFn, usable) {
          HeadMergeNeverFires(getHeadFn, st, usable, k);
        }
        MergeWithHead(mptr, k);
        return true;
      }
      if mptr < head {
        BlockReady(mem, head, usable, st, 0);
        Prepend(mptr, k);
        WrittenFreeDone(old(mem), old(head), old(st), mem, head, st, k);
        return true;
      }
      var current, next := WalkWritten(mptr);
      if current == 0 {
        FreeFaults(mem, head, st, k);
        return false;  // line 210 reads current->next
      }
      Insert(mptr, current, next, k, WrittenSpot(st.free, mptr).value - 1);
      WrittenFreeDone(old(mem), old(head), old(st), mem, head, st, k);
      return true;
    }

    /** Lines 195-212 behind the head: the two blocks to insert between, or a null `current`. */
    method WalkWritten(mptr: Size) returns (current: Size, next: Size)
      requires Valid() && st.free != [] && st.free[0].addr <= mptr
      ensures var spot := WrittenSpot(st.free, mptr);
              if spot.None? then current == 0
              else 0 < spot.value && current != 0 &&
                   current == st.free[spot.value - 1].addr && next == st.free[spot.value].addr
    {
      current := head;
      ghost var j: nat, spot: Option<nat> := 0, WrittenSpot(st.free, mptr);
      var length;
      next, length := ReadHeader(current, 0);
      var between := current <= mptr && mptr <= next;
      while !between
        invariant j < |st.free| && current == st.free[j].addr && next == Link(st.free, j + 1) && current != 0
        invariant next == 0 <==> j + 1 == |st.free|
        invariant between ==> j + 1 < |st.free|
        invariant spot == if between then Some(j + 1) else WrittenWalk(st.free, mptr, j + 1)
        decreases |st.free| - j
      {
        current := next;
        if current == 0 {
          return;
        }
        j := j + 1;
        next, length := ReadHeader(current, j);
        between := current >= mptr && mptr <= next;
      }
    }

    /** Repair of `free`: line 185 calls getHead, line 211 repeats the test of line 207. */
    method FreeRepaired(base: Size, ghost k: nat) returns (ok: bool)
      requires Valid() && k < |st.live| && base == st.live[k].addr + 16
      modifies this
      ensures Valid() && usable == old(usable) && mem.Keys == old(mem.Keys)
      ensures ok <==> FreeMeant(old(st), k).Some?
      ensures st == if ok then FreeMeant(old(st), k).value else old(st)
      ensures !ok ==> mem == old(mem) && head == old(head)
      ensures SameWords(old(mem), mem, st.live)
      ensures Runs.Step(Runs.Meant, old(st), Runs.FreeOp(k)) == if ok then Some(st) else None
      ensures FreedAsMeant(old(mem), old(head), old(st), mem, head, st, k, ok)
    {
      ListNotEmpty(mem, head, usable, st);
      ChunkReady(mem, head, usable, st, k);
      BlockReady(mem, head, usable, st, 0);
      var mptr := base - 16;
      if mptr + mem[mptr + 8] == head {
        MergeIsRelease(st, usable, k);
        MergeWithHead(mptr, k);
        MeantFreeDone(old(mem), old(head), old(st), mem, head, st, k);
        return true;
      }
      if mptr < head {
        Prepend(mptr, k);
        MeantFreeDone(old(mem), old(head), old(st), mem, head, st, k);
        return true;
      }
      var current, next := WalkRepaired(mptr);
      if current == 0 {
        FreeFaults(mem, head, st, k);
        return false;
      }
      Insert(mptr, current, next, k, MeantSpot(st.free, mptr).value - 1);
      MeantFreeDone(old(mem), old(head), old(st), mem, head, st, k);
      return true;
    }

    /** WalkWritten with the repaired test. */
    method WalkRepaired(mptr: Size) returns (current: Size, next: Size)
      requires Valid() && st.free != [] && st.free[0].addr <= mptr
      ensures var spot := MeantSpot(st.free, mptr);
              if spot.None? then current == 0
              else 0 < spot.value && current != 0 &&
                   current == st.free[spot.value - 1].addr && next == st.free[spot.value].addr
    {
      current := head;
      ghost var j: nat, spot: Option<nat> := 0, MeantSpot(st.free, mptr);
      var length;
      next, length := ReadHeader(current, 0);
      var between := current <= mptr && mptr <= next;
      while !between
        invariant j < |st.free| && current == st.free[j].addr && next == Link(st.free, j + 1) && current != 0
        invariant next == 0 <==> j + 1 == |st.free|
        invariant between ==> j + 1 < |st.free|
        invariant spot == if between then Some(j + 1) else MeantWalk(st.free, mptr, j + 1)
        decreases |st.free| - j
      {
        current := next;
        if current == 0 {
          return;
        }
        j := j + 1;
        next, length := ReadHeader(current, j);
        between := current <= mptr && mptr <= next;
      }
    }

    /** Lines 188-190: chunk `k` takes over the head of the list and its length. */
    method MergeWithHead(mptr: Size, ghost k: nat)
      requires Valid() && k < |st.live| && mptr == st.live[k].addr && st.free != []
      modifies this
      ensures usable == old(usable) && mem.Keys == old(mem.Keys) && Mapped(mem, usable) && Spells(mem, head, st)
      ensures var c := old(st.live[k]);
              st == State([Block(c.addr, c.len + old(st.free[0].len))] + old(st.free)[1..], Rest(old(st.live), k))
      ensures SameWords(old(mem), mem, st.live) && ReleaseWrites(old(mem), mem, old(st), k, 0, true)
      ensures head == mptr
    {
      MergeReady(mem, head, usable, st, k);
      WriteMerge(mptr);
      st := State([Block(st.live[k].addr, st.live[k].len + st.free[0].len)] + st.free[1..], Rest(st.live, k));
    }

    method WriteMerge(mptr: Size)
      requires mptr in mem && mptr + 8 in mem && head in mem && head + 8 in mem && head != mptr + 8
      requires mem[mptr + 8] + mem[head + 8] < WORD
      modifies this`mem, this`head
      ensures mem == WithHeader(old(mem), Block(mptr, old(mem[mptr + 8] + mem[head + 8])), old(mem[head]))
      ensures head == mptr
    {
      mem := mem[mptr + 8 := mem[mptr + 8] + mem[head + 8]];
      mem := mem[mptr := mem[head]];
      head := mptr;
    }

    /** Lines 201-202: chunk `k` becomes the new head. */
    method Prepend(mptr: Size, ghost k: nat)
      requires Valid() && k < |st.live| && mptr == st.live[k].addr
      modifies this
      ensures Valid() && usable == old(usable) && mem.Keys == old(mem.Keys)
      ensures st == State(Release(old(st.free), old(st.live[k]), 0, false), Rest(old(st.live), k))
      ensures SameWords(old(mem), mem, st.live) && ReleaseWrites(old(mem), mem, old(st), k, 0, false)
      ensures head == mptr
    {
      PrependReady(mem, head, usable, st, k);
      mem := mem[mptr := head];
      head := mptr;
      st := State(Release(st.free, st.live[k], 0, false), Rest(st.live, k));
    }

    /** Lines 218-233: puts chunk `k` between `current` and `next`, joined with `next` if they touch. */
    method Insert(mptr: Size, current: Size, next: Size, ghost k: nat, ghost j: nat)
      requires Valid() && k < |st.live| && mptr == st.live[k].addr && j + 1 < |st.free|
      requires current == st.free[j].addr && next == st.free[j + 1].addr
      modifies this
      ensures Valid() && usable == old(usable) && mem.Keys == old(mem.Keys)
      ensures st == State(Release(old(st.free), old(st.live[k]), j + 1, true), Rest(old(st.live), k))
      ensures SameWords(old(mem), mem, st.live)
      ensures ReleaseWrites(old(mem), mem, old(st), k, j + 1, old(st.live[k].End() == st.free[j + 1].addr))
      ensures head == old(head)
    {
      InsertReady(mem, head, usable, st, k, j);
      WriteInsert(mptr, current, next);
      st := State(Release(st.free, st.live[k], j + 1, true), Rest(st.live, k));
    }

    method WriteInsert(mptr: Size, current: Size, next: Size)
      requires mptr in mem && mptr + 8 in mem && next in mem && next + 8 in mem && next != mptr + 8
      requires mem[mptr + 8] + mem[next + 8] < WORD
      modifies this`mem
      ensures mem == InsertWrites(old(mem), mptr, current, next)
    {
      if mptr + mem[mptr + 8] == next {
        mem := mem[mptr + 8 := mem[mptr + 8] + mem[next + 8]];
        mem := mem[mptr := mem[next]];
        mem := mem[current := mptr];
      } else {
        mem := mem[current := mptr];
        mem := mem[mptr := next];
      }
    }

    /** What holds of every valid heap. */
    lemma ValidIsSafe()
      requires Valid()
      ensures Runs.Safe(st, usable)
    {
      Runs.InvIsSafe(st, usable);
    }

    /** The words of list and chunks: `next` at the start of a header, `length` 8 bytes on, null at the end. */
    lemma WordsOfValid(i: nat, k: nat)
      requires Valid()
      ensures st.free != [] && head == st.free[0].addr
      ensures i < |st.free| ==>
                st.free[i].addr in mem && st.free[i].addr + 8 in mem && mem[st.free[i].addr + 8] == st.free[i].len &&
                mem[st.free[i].addr] == if i + 1 == |st.free| then 0 else st.free[i + 1].addr
      ensures k < |st.live| ==> st.live[k].addr + 8 in mem && mem[st.live[k].addr + 8] == st.live[k].len
    {
      ListNotEmpty(mem, head, usable, st);
      assert i < |st.free| ==> LinkedAt(mem, st.free, i);
      assert k < |st.live| ==> HasHeader(mem, st.live[k]);
    }

    /**
     The owner of chunk `k` stores what it likes behind the header. The payload begins and ends at
     multiples of 8, so any stores of bytes in it come down to new values of whole words of it.
     */
    method ClientStore(k: nat, words: Memory)
      requires Valid() && k < |st.live| && InPayload(words, st.live[k])
      modifies this`mem
      ensures Valid() && words.Keys <= old(mem).Keys && mem == old(mem) + words
    {
      StoreReady(mem, head, usable, st, k, words);
      mem := mem + words;
    }

    /** Lines 49-61, with the printed addresses and lengths as the result. */
    method PrintEntries() returns (printed: seq<Block>)
      requires Valid()
      ensures printed == st.free
    {
      printed := [];
      var mptr := head;
      while mptr != 0
        invariant |printed| <= |st.free| && printed == st.free[..|printed|] && mptr == Link(st.free, |printed|)
        decreases |st.free| - |printed|
      {
        BlockReady(mem, head, usable, st, |printed|);
        printed := printed + [Block(mptr, mem[mptr + 8])];
        mptr := mem[mptr];
      }
      if |printed| < |st.free| {
        BlockReady(mem, head, usable, st, |printed|);
      }
    }
  }

  /** Joining the head is what a release in front of it comes to when the two touch. */
  lemma MergeIsRelease(st: State, usable: seq<Block>, k: nat)
    requires Inv(st, usable) && k < |st.live| && st.free != [] && st.live[k].End() == st.free[0].addr
    ensures var c := st.live[k];
            var free' := [Block(c.addr, c.len + st.free[0].len)] + st.free[1..];
            Release(st.free, c, 0, true) == free' && Inv(State(free', Rest(st.live, k)), usable)
    ensures MeantSpot(st.free, st.live[k].addr) == Some(0)
  {
    ReleaseKeepsInv(st, usable, k, 0, true);
    LengthsPositive(st, usable);
    var c := st.live[k];
    assert Release(st.free, c, 0, true) == st.free[..0] + [Block(c.addr, c.len + st.free[0].len)] + st.free[1..];
  }

  /** One more header in place leaves those before it linked. */
  lemma LinkNext(mem: Memory, virt: seq<Block>, i: nat)
    requires Ascending(virt) && i < |virt| && HasWords(mem, virt[i])
    requires forall k :: 0 <= k < |virt| ==> Cell(virt[k]) && 0 < virt[k].addr && virt[k].End() < WORD
    requires forall k :: 0 <= k < i ==> LinkedAt(mem, virt, k)
    ensures 0 < virt[i].addr && virt[i].End() < WORD && virt[i].len > 0 && 0 <= Link(virt, i + 1) < WORD
    ensures var mem' := WithHeader(mem, virt[i], Link(virt, i + 1));
            mem'.Keys == mem.Keys && forall k :: 0 <= k <= i ==> LinkedAt(mem', virt, k)
  {
    var mem' := WithHeader(mem, virt[i], Link(virt, i + 1));
    forall k | 0 <= k < i
      ensures LinkedAt(mem', virt, k)
    {
      assert virt[k].End() <= virt[i].addr;
      KeepsLink(mem, virt, k, virt[i], Link(virt, i + 1));
    }
  }

  lemma KeepsLink(mem: Memory, virt: seq<Block>, k: nat, b: Block, next: Size)
    requires k < |virt| && virt[k].End() <= b.addr && Cell(virt[k]) && 0 <= b.len < WORD
    requires LinkedAt(mem, virt, k)
    ensures LinkedAt(WithHeader(mem, b, next), virt, k)
  {
  }

  lemma InitialHeap(entries: seq<Entry>, hhdm: Size)
    requires BootMap(entries) && UsableBlocks(entries) != []
    requires hhdm > 0 && hhdm % PAGE_SIZE == 0
    requires forall k :: 0 <= k < |UsableBlocks(entries)| ==> hhdm + UsableBlocks(entries)[k].End() < WORD
    ensures var virt := Shift(UsableBlocks(entries), hhdm);
            Inv(State(virt, []), virt) && Sorted(virt) && Total(virt) == Total(UsableBlocks(entries)) &&
            |virt| == |UsableBlocks(entries)| &&
            forall k :: 0 <= k < |virt| ==>
              FreeIn(virt[k], virt) && 0 < virt[k].addr && virt[k].End() < WORD &&
              virt[k] == Block(hhdm + UsableBlocks(entries)[k].addr, UsableBlocks(entries)[k].len)
  {
    ShiftedRegions(entries, hhdm);
    Runs.InitialInv(Shift(UsableBlocks(entries), hhdm));
    ShiftAt(UsableBlocks(entries), hhdm);
  }

  /** The shifted usable entries are regions a heap can start from. */
  lemma ShiftedRegions(entries: seq<Entry>, hhdm: Size)
    requires BootMap(entries) && UsableBlocks(entries) != []
    requires hhdm > 0 && hhdm % PAGE_SIZE == 0
    requires forall k :: 0 <= k < |UsableBlocks(entries)| ==> hhdm + UsableBlocks(entries)[k].End() < WORD
    ensures Regions(Shift(UsableBlocks(entries), hhdm))
  {
    var bs := UsableBlocks(entries);
    var virt := Shift(bs, hhdm);
    ShiftAt(bs, hhdm);
    BasesFit(entries);
    forall k | 0 <= k < |virt|
      ensures virt[k].addr > 0 && virt[k].addr % HEADER == 0 &&
              virt[k].len % HEADER == 0 && virt[k].End() < WORD
    {
      assert virt[k] == Block(bs[k].addr + hhdm, bs[k].len);
      ShiftedAligned(bs[k].addr, hhdm);
      ShiftedAligned(bs[k].len, hhdm);
    }
    forall i, j | 0 <= i < j < |virt|
      ensures virt[i].End() <= virt[j].addr
    {
      assert virt[i] == Block(bs[i].addr + hhdm, bs[i].len) && virt[j] == Block(bs[j].addr + hhdm, bs[j].len);
      assert bs[i].End() <= bs[j].addr;
    }
  }
}
