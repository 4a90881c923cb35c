/**
 How the free list and the chunk headers lie in the memory they manage: every header is two
 64-bit words, `next` at the block's address and `length` behind it.
 */
module HeapMemory {
  import opened Blocks
  import opened FreeList
  import opened Options

  /** The 64-bit words of memory by address. */
  type Memory = map<int, Size>

  /** What a link to block `i` holds; null behind the last block. */
  function Link(free: seq<Block>, i: nat): int {
    if i < |free| then free[i].addr else 0
  }

  ghost predicate UsableWord(usable: seq<Block>, x: int) {
    x % 8 == 0 && Count(usable, x) >= 1
  }

  /** The mapped words are exactly the aligned words of usable memory. */
  ghost predicate Mapped(mem: Memory, usable: seq<Block>) {
    forall x {:trigger UsableWord(usable, x)} :: x in mem <==> UsableWord(usable, x)
  }

  ghost predicate HasWords(mem: Memory, b: Block) {
    b.addr in mem && b.addr + 8 in mem
  }

  ghost predicate HasHeader(mem: Memory, b: Block) {
    HasWords(mem, b) && mem[b.addr + 8] == b.len
  }

  function WithHeader(mem: Memory, b: Block, next: Size): Memory
    requires 0 <= b.len < WORD
  {
    mem[b.addr + 8 := b.len][b.addr := next]
  }

  /** Block `i` has its header in memory, and its `next` word leads to block `i + 1`. */
  ghost predicate LinkedAt(mem: Memory, free: seq<Block>, i: nat)
    requires i < |free|
  {
    HasHeader(mem, free[i]) && mem[free[i].addr] == Link(free, i + 1)
  }

  /** From `head` on, the words of memory spell the free list; live chunks record their size. */
  ghost predicate Spells(mem: Memory, head: int, st: State) {
    head == Link(st.free, 0) &&
    (forall i :: 0 <= i < |st.free| ==> LinkedAt(mem, st.free, i)) &&
    (forall k :: 0 <= k < |st.live| ==> HasHeader(mem, st.live[k]))
  }

  /** No word of the given chunks differs between the two memories. */
  ghost predicate SameWords(mem: Memory, mem': Memory, chunks: seq<Block>) {
    forall k, x :: 0 <= k < |chunks| && chunks[k].Contains(x) && x in mem && x in mem' ==> mem'[x] == mem[x]
  }

  lemma WordMapped(mem: Memory, usable: seq<Block>, b: Block, x: int)
    requires Mapped(mem, usable) && FreeIn(b, usable) && b.Contains(x) && x % 8 == 0
    ensures x in mem
  {
    var q :| 0 <= q < |usable| && b.Inside(usable[q]);
    CountedOnce(usable, q, x);
    assert UsableWord(usable, x);
  }

  lemma MappedSameKeys(mem: Memory, mem': Memory, usable: seq<Block>)
    requires Mapped(mem, usable) && mem'.Keys == mem.Keys
    ensures Mapped(mem', usable)
  {
    forall x
      ensures x in mem' <==> UsableWord(usable, x)
    {
      assert x in mem.Keys <==> UsableWord(usable, x);
      assert x in mem'.Keys <==> x in mem';
    }
  }

  lemma HeaderMapped(mem: Memory, usable: seq<Block>, b: Block)
    requires Mapped(mem, usable) && FreeIn(b, usable)
    ensures b.addr in mem && b.addr + 8 in mem
  {
    WordMapped(mem, usable, b, b.addr);
    WordMapped(mem, usable, b, b.addr + 8);
  }

  lemma InRange(b: Block, usable: seq<Block>)
    requires Regions(usable) && FreeIn(b, usable)
    ensures 0 < b.addr && b.End() < WORD
  {
  }

  /** Blocks and chunks are cells that do not overlap. */
  ghost predicate CellsApart(st: State) {
    (forall i, j :: 0 <= i < j < |st.free| ==> st.free[i].Apart(st.free[j])) &&
    (forall i, k :: 0 <= i < |st.free| && 0 <= k < |st.live| ==> st.free[i].Apart(st.live[k])) &&
    (forall j, k :: 0 <= j < k < |st.live| ==> st.live[j].Apart(st.live[k])) &&
    (forall i :: 0 <= i < |st.free| ==> Cell(st.free[i]) && st.free[i].addr > 0) &&
    (forall k :: 0 <= k < |st.live| ==> Cell(st.live[k]) && st.live[k].addr > 0)
  }

  lemma InvCellsApart(st: State, usable: seq<Block>)
    requires Inv(st, usable)
    ensures CellsApart(st)
  {
    forall i, j | 0 <= i < j < |st.free|
      ensures st.free[i].Apart(st.free[j])
    {
      FreeApart(st, usable, i, j);
    }
    forall i, k | 0 <= i < |st.free| && 0 <= k < |st.live|
      ensures st.free[i].Apart(st.live[k])
    {
      FreeApartFromLive(st, usable, i, k);
    }
    forall j, k | 0 <= j < k < |st.live|
      ensures st.live[j].Apart(st.live[k])
    {
      LiveApart(st, usable, j, k);
    }
  }

  ghost predicate NonNull(free: seq<Block>) {
    forall i :: 0 <= i < |free| ==> free[i].addr > 0
  }

  lemma {:induction false} SpellingAgrees(mem: Memory, head: int, st1: State, st2: State, i: nat)
    requires Spells(mem, head, st1) && Spells(mem, head, st2)
    requires NonNull(st1.free) && NonNull(st2.free)
    requires i <= |st1.free|
    ensures i <= |st2.free| && Link(st1.free, i) == Link(st2.free, i)
    ensures forall j :: 0 <= j < i ==> st1.free[j] == st2.free[j]
  {
    if i > 0 {
      SpellingAgrees(mem, head, st1, st2, i - 1);
      assert LinkedAt(mem, st1.free, i - 1) && LinkedAt(mem, st2.free, i - 1);
    }
  }

  /** Memory alone determines the free list: two lists spelled from the same head are the same. */
  lemma SpellingUnique(mem: Memory, head: int, st1: State, st2: State)
    requires Spells(mem, head, st1) && Spells(mem, head, st2)
    requires NonNull(st1.free) && NonNull(st2.free)
    ensures st1.free == st2.free
  {
    SpellingAgrees(mem, head, st1, st2, |st1.free|);
    SpellingAgrees(mem, head, st2, st1, |st2.free|);
  }

  /** The memory after lines 106-114: `s` of the `len` bytes at `a` go to a chunk, the rest stays linked. */
  function SplitWrites(mem: Memory, a: Size, len: Size, s: Size, prev: Size, next: Size): Memory
    requires s <= len && a + len < WORD
  {
    var m1 := mem[a := a + s][a + 8 := s];
    var m2 := if prev != 0 then m1[prev := a + s] else m1;
    m2[a + s := next][a + s + 8 := len - s]
  }

  /** The words allocHeap writes when it carves `s` bytes off block `i`. */
  function CarveWrites(mem: Memory, free: seq<Block>, i: nat, s: Size): Memory
    requires i < |free| && 0 < free[i].addr && s < free[i].len && free[i].End() < WORD
    requires i > 0 ==> 0 < free[i - 1].addr < WORD
    requires 0 <= Link(free, i + 1) < WORD
  {
    SplitWrites(mem, free[i].addr, free[i].len, s, if i == 0 then 0 else free[i - 1].addr, Link(free, i + 1))
  }

  /**
   Block `i` has given its first `s` bytes to a chunk: the two headers and the link to the rest are
   written, and no other word has changed.
   */
  ghost predicate Carved(mem: Memory, head: int, free: seq<Block>, mem': Memory, head': int, i: nat, s: int)
    requires i < |free|
  {
    var a, rest := free[i].addr, free[i].addr + s;
    mem'.Keys == mem.Keys && a in mem && a + 8 in mem && rest in mem && rest + 8 in mem &&
    mem'[a] == rest && mem'[a + 8] == s &&
    mem'[rest] == mem[a] && mem'[rest + 8] == mem[a + 8] - s &&
    (i > 0 ==> free[i - 1].addr in mem && mem'[free[i - 1].addr] == rest) &&
    head' == (if i == 0 then rest else head) &&
    forall x :: x in mem && x !in {a, a + 8, rest, rest + 8} && (i > 0 ==> x != free[i - 1].addr) ==> mem'[x] == mem[x]
  }

  /**
   What allocHeap does to list and memory: nothing when it hands out no chunk or one of size zero,
   and otherwise a carve of the first block that is longer.
   */
  ghost predicate Allocated(mem: Memory, head: int, st: State, mem': Memory, head': int, st': State,
                            nbytes: Size, r: AllocResult) {
    (!r.Pointer? || nbytes >= WORD - 8 ==> mem' == mem && head' == head && st' == st) &&
    forall i: nat :: FirstLonger(st.free, ChunkSize(nbytes), i) && 0 < nbytes < WORD - 8 ==>
      r == Pointer(st.free[i].addr + HEADER) && Carved(mem, head, st.free, mem', head', i, ChunkSize(nbytes))
  }

  /** Every word after lines 106-114. */
  lemma SplitExact(mem: Memory, a: Size, len: Size, s: Size, prev: Size, next: Size)
    requires 0 < s < len && a + len < WORD && len - s >= HEADER && s >= HEADER
    requires prev == 0 || prev + HEADER <= a || a + len <= prev
    ensures var mem' := SplitWrites(mem, a, len, s, prev, next);
            mem'[a] == a + s && mem'[a + 8] == s && mem'[a + s] == next && mem'[a + s + 8] == len - s &&
            (prev != 0 ==> mem'[prev] == a + s) &&
            forall x :: x in mem && x !in {a, a + 8, a + s, a + s + 8} && (prev != 0 ==> x != prev) ==>
              x in mem' && mem'[x] == mem[x]
  {
  }

  lemma CarveExact(mem: Memory, head: int, free: seq<Block>, i: nat, s: Size)
    requires i < |free| && LinkedAt(mem, free, i) && 0 < s < free[i].len && s % HEADER == 0 && Cell(free[i])
    requires 0 < free[i].addr && free[i].End() < WORD && 0 <= Link(free, i + 1) < WORD
    requires i > 0 ==> 0 < free[i - 1].addr < WORD && free[i - 1].addr in mem
    requires i > 0 ==> free[i - 1].addr + HEADER <= free[i].addr || free[i].End() <= free[i - 1].addr
    requires free[i].addr + s in mem && free[i].addr + s + 8 in mem && CarveWrites(mem, free, i, s).Keys == mem.Keys
    ensures Carved(mem, head, free, CarveWrites(mem, free, i, s), if i == 0 then free[0].addr + s else head, i, s)
  {
    assert free[i].len - s >= HEADER;
    var prev := if i == 0 then 0 else free[i - 1].addr;
    SplitExact(mem, free[i].addr, free[i].len, s, prev, Link(free, i + 1));
  }

  lemma AllocDone(mem: Memory, head: int, st: State, mem': Memory, head': int, st': State, nbytes: Size, i: nat)
    requires nbytes != 0 && i == FirstFit(st.free, ChunkSize(nbytes)) < |st.free|
    requires if ChunkSize(nbytes) == 0 then mem' == mem && head' == head && st' == st
             else Carved(mem, head, st.free, mem', head', i, ChunkSize(nbytes))
    ensures Allocated(mem, head, st, mem', head', st', nbytes, Pointer(st.free[i].addr + HEADER))
  {
    ChunkSizeZero(nbytes);
    forall j: nat | FirstLonger(st.free, ChunkSize(nbytes), j)
      ensures j == i
    {
    }
  }

  lemma NothingAllocated(mem: Memory, head: int, st: State, nbytes: Size, r: AllocResult)
    requires !r.Pointer? && (nbytes == 0 || FirstFit(st.free, ChunkSize(nbytes)) == |st.free|)
    ensures Allocated(mem, head, st, mem, head, st, nbytes, r)
  {
  }

  /** Words outside the block that is split, other than the link to it, stay. */
  lemma SplitKeepsWord(mem: Memory, a: Size, len: Size, s: Size, prev: Size, next: Size, x: int)
    requires 0 < s < len && a + len < WORD && len - s >= HEADER && s >= HEADER
    requires x in mem && !(a <= x < a + len) && (prev == 0 || x != prev)
    ensures x in SplitWrites(mem, a, len, s, prev, next) && SplitWrites(mem, a, len, s, prev, next)[x] == mem[x]
  {
  }

  /** The two headers in the block that is split, and the link to it. */
  lemma SplitHeaders(mem: Memory, a: Size, len: Size, s: Size, prev: Size, next: Size)
    requires 0 < s < len && a + len < WORD && len - s >= HEADER && s >= HEADER
    requires prev == 0 || prev + HEADER <= a || a + len <= prev
    ensures var mem' := SplitWrites(mem, a, len, s, prev, next);
            HasHeader(mem', Block(a, s)) && HasHeader(mem', Block(a + s, len - s)) && mem'[a + s] == next &&
            (prev != 0 ==> prev in mem' && mem'[prev] == a + s)
  {
  }

  /** Block `j` is neither the one that is split nor the one that links to it. */
  lemma CarveKeepsHeader(mem: Memory, st: State, i: nat, s: Size, j: nat)
    requires CellsApart(st) && i < |st.free|
    requires 0 < s < st.free[i].len && s % HEADER == 0 && st.free[i].End() < WORD
    requires i > 0 ==> st.free[i - 1].addr < WORD
    requires 0 <= Link(st.free, i + 1) < WORD
    requires j < |st.free| && j != i && LinkedAt(mem, st.free, j)
    ensures var mem' := CarveWrites(mem, st.free, i, s);
            HasHeader(mem', st.free[j]) && (j + 1 != i ==> mem'[st.free[j].addr] == mem[st.free[j].addr])
  {
    var a, b := st.free[i], st.free[j];
    var prev := if i == 0 then 0 else st.free[i - 1].addr;
    BlocksApart(st, i, j);
    assert Cell(a) && Cell(b) && (i > 0 ==> Cell(st.free[i - 1]));
    SplitKeepsWord(mem, a.addr, a.len, s, prev, Link(st.free, i + 1), b.addr + 8);
    if j + 1 != i {
      assert i > 0 ==> b.addr != st.free[i - 1].addr;
      SplitKeepsWord(mem, a.addr, a.len, s, prev, Link(st.free, i + 1), b.addr);
    } else {
      SplitHeaders(mem, a.addr, a.len, s, prev, Link(st.free, i + 1));
    }
  }

  /** The headers of other blocks lie outside the block that is split. */
  lemma BlocksApart(st: State, i: nat, j: nat)
    requires CellsApart(st) && i < |st.free| && j < |st.free| && j != i
    ensures st.free[j].addr + HEADER <= st.free[i].addr || st.free[i].End() <= st.free[j].addr
  {
    assert Cell(st.free[i]) && Cell(st.free[j]);
    assert if i < j then st.free[i].Apart(st.free[j]) else st.free[j].Apart(st.free[i]);
  }

  lemma CarveFreeHeader(mem: Memory, head: int, st: State, i: nat, s: Size, j: nat)
    requires Spells(mem, head, st) && CellsApart(st) && i < |st.free|
    requires 0 < s < st.free[i].len && s % HEADER == 0 && st.free[i].End() < WORD
    requires i > 0 ==> st.free[i - 1].addr < WORD
    requires 0 <= Link(st.free, i + 1) < WORD
    requires j < |st.free|
    ensures LinkedAt(CarveWrites(mem, st.free, i, s), Carve(st, i, s).free, j)
  {
    var free' := Carve(st, i, s).free;
    var mem' := CarveWrites(mem, st.free, i, s);
    var a := st.free[i];
    var prev := if i == 0 then 0 else st.free[i - 1].addr;
    if i > 0 {
      BlocksApart(st, i, i - 1);
    }
    assert Cell(a) && a.len - s >= HEADER;
    SplitHeaders(mem, a.addr, a.len, s, prev, Link(st.free, i + 1));
    if j == i {
      LinkedBy(mem', free', j, Block(a.addr + s, a.len - s), Link(st.free, i + 1));
    } else {
      assert LinkedAt(mem, st.free, j);
      CarveKeepsHeader(mem, st, i, s, j);
      LinkedBy(mem', free', j, st.free[j], if j + 1 == i then a.addr + s else Link(st.free, j + 1));
    }
  }

  lemma LinkedBy(mem: Memory, free: seq<Block>, i: nat, b: Block, next: int)
    requires i < |free| && free[i] == b && Link(free, i + 1) == next
    requires HasHeader(mem, b) && mem[b.addr] == next
    ensures LinkedAt(mem, free, i)
  {
  }

  /** A chunk apart from the block that is split and from the one that links to it keeps every word. */
  lemma CarveLiveHeader(mem: Memory, free: seq<Block>, i: nat, s: Size, chunk: Block)
    requires i < |free| && 0 < free[i].addr && free[i].End() < WORD && Cell(free[i]) && free[i].Apart(chunk)
    requires i > 0 ==> 0 < free[i - 1].addr < WORD && Cell(free[i - 1]) && free[i - 1].Apart(chunk)
    requires 0 < s < free[i].len && s % HEADER == 0 && 0 <= Link(free, i + 1) < WORD
    requires HasHeader(mem, chunk) && Cell(chunk)
    ensures HasHeader(CarveWrites(mem, free, i, s), chunk)
    ensures forall x :: chunk.Contains(x) && x in mem ==> CarveWrites(mem, free, i, s)[x] == mem[x]
  {
    var a := free[i];
    var prev := if i == 0 then 0 else free[i - 1].addr;
    assert a.len - s >= HEADER;
    forall x | chunk.Contains(x) && x in mem
      ensures x in CarveWrites(mem, free, i, s) && CarveWrites(mem, free, i, s)[x] == mem[x]
    {
      SplitKeepsWord(mem, a.addr, a.len, s, prev, Link(free, i + 1), x);
    }
    assert chunk.Contains(chunk.addr) && chunk.Contains(chunk.addr + 8);
  }

  lemma CarveSpelled(mem: Memory, head: int, st: State, i: nat, s: Size)
    requires Spells(mem, head, st) && CellsApart(st) && i < |st.free|
    requires 0 < s < st.free[i].len && s % HEADER == 0 && st.free[i].End() < WORD
    requires i > 0 ==> st.free[i - 1].addr < WORD
    requires 0 <= Link(st.free, i + 1) < WORD
    ensures Spells(CarveWrites(mem, st.free, i, s), if i == 0 then st.free[0].addr + s else head, Carve(st, i, s))
    ensures SameWords(mem, CarveWrites(mem, st.free, i, s), st.live)
  {
    var st' := Carve(st, i, s);
    var mem' := CarveWrites(mem, st.free, i, s);
    forall j | 0 <= j < |st'.free|
      ensures LinkedAt(mem', st'.free, j)
    {
      CarveFreeHeader(mem, head, st, i, s, j);
    }
    forall k | 0 <= k < |st.live|
      ensures HasHeader(mem', st.live[k])
      ensures forall x :: st.live[k].Contains(x) && x in mem ==> mem'[x] == mem[x]
    {
      assert HasHeader(mem, st.live[k]) && st.free[i].Apart(st.live[k]);
      assert i > 0 ==> st.free[i - 1].Apart(st.live[k]);
      CarveLiveHeader(mem, st.free, i, s, st.live[k]);
    }
    assert LinkedAt(mem, st.free, i);
    NewChunkHeader(mem, st.free, i, s);
    assert st'.live == st.live + [Block(st.free[i].addr, s)];
  }

  /** A carve of zero bytes writes back what was there. */
  lemma ZeroCarve(mem: Memory, free: seq<Block>, i: nat)
    requires i < |free| && LinkedAt(mem, free, i) && Cell(free[i])
    requires i > 0 ==> LinkedAt(mem, free, i - 1) && Cell(free[i - 1]) && 0 < free[i - 1].addr < WORD
    requires 0 < free[i].addr && free[i].End() < WORD && 0 <= Link(free, i + 1) < WORD
    ensures CarveWrites(mem, free, i, 0) == mem
  {
    var mem' := CarveWrites(mem, free, i, 0);
    assert mem'.Keys == mem.Keys;
    forall x | x in mem
      ensures mem'[x] == mem[x]
    {
    }
  }

  lemma CarvePlaces(mem: Memory, usable: seq<Block>, st: State, i: nat, s: Size)
    requires Inv(st, usable) && Mapped(mem, usable) && CellsApart(st)
    requires i < |st.free| && s < st.free[i].len && s % HEADER == 0
    ensures st.free[i].addr + s in mem && st.free[i].addr + s + 8 in mem
    ensures i > 0 ==> st.free[i - 1].addr in mem
    ensures i > 0 ==> st.free[i - 1].addr + HEADER <= st.free[i].addr || st.free[i].End() <= st.free[i - 1].addr
  {
    RestMapped(mem, usable, st.free[i], s);
    if i > 0 {
      BlocksApart(st, i, i - 1);
      HeaderMapped(mem, usable, st.free[i - 1]);
    }
  }

  /** Carving keeps all there is to keep: the tiling, the mapping and the spelling. */
  lemma CarveDone(mem: Memory, head: int, usable: seq<Block>, st: State, i: nat, s: Size)
    requires Inv(st, usable) && Mapped(mem, usable) && Spells(mem, head, st)
    requires i < |st.free| && 0 < s < st.free[i].len && s % HEADER == 0
    requires 0 < st.free[i].addr && st.free[i].End() < WORD
    requires i > 0 ==> 0 < st.free[i - 1].addr < WORD
    requires 0 <= Link(st.free, i + 1) < WORD
    ensures var mem' := CarveWrites(mem, st.free, i, s);
            var head' := if i == 0 then st.free[0].addr + s else head;
            Inv(Carve(st, i, s), usable) && Mapped(mem', usable) && mem'.Keys == mem.Keys &&
            Spells(mem', head', Carve(st, i, s)) && SameWords(mem, mem', st.live) &&
            Carved(mem, head, st.free, mem', head', i, s)
  {
    CarveKeepsInv(st, usable, i, s);
    InvCellsApart(st, usable);
    CarveSpelled(mem, head, st, i, s);
    CarveKeys(mem, usable, st, i, s);
    MappedSameKeys(mem, CarveWrites(mem, st.free, i, s), usable);
    CarvePlaces(mem, usable, st, i, s);
    CarveExact(mem, head, st.free, i, s);
  }

  lemma SplitKeys(mem: Memory, a: Size, len: Size, s: Size, prev: Size, next: Size)
    requires s <= len && a + len < WORD
    requires a in mem && a + 8 in mem && a + s in mem && a + s + 8 in mem && (prev != 0 ==> prev in mem)
    ensures SplitWrites(mem, a, len, s, prev, next).Keys == mem.Keys
  {
  }

  lemma CarveKeys(mem: Memory, usable: seq<Block>, st: State, i: nat, s: Size)
    requires Mapped(mem, usable) && i < |st.free| && FreeIn(st.free[i], usable)
    requires 0 < s < st.free[i].len && s % HEADER == 0
    requires 0 < st.free[i].addr && st.free[i].End() < WORD
    requires i > 0 ==> 0 < st.free[i - 1].addr < WORD && FreeIn(st.free[i - 1], usable)
    requires 0 <= Link(st.free, i + 1) < WORD
    ensures CarveWrites(mem, st.free, i, s).Keys == mem.Keys
  {
    var b := st.free[i];
    RestMapped(mem, usable, b, s);
    var prev := if i == 0 then 0 else st.free[i - 1].addr;
    if i > 0 {
      HeaderMapped(mem, usable, st.free[i - 1]);
    }
    SplitKeys(mem, b.addr, b.len, s, prev, Link(st.free, i + 1));
  }

  lemma RestMapped(mem: Memory, usable: seq<Block>, b: Block, s: Size)
    requires Mapped(mem, usable) && FreeIn(b, usable) && s < b.len && s % HEADER == 0
    ensures b.addr in mem && b.addr + 8 in mem && b.addr + s in mem && b.addr + s + 8 in mem
  {
    WordMapped(mem, usable, b, b.addr);
    WordMapped(mem, usable, b, b.addr + 8);
    WordMapped(mem, usable, b, b.addr + s);
    WordMapped(mem, usable, b, b.addr + s + 8);
  }

  lemma NewChunkHeader(mem: Memory, free: seq<Block>, i: nat, s: Size)
    requires i < |free| && 0 < free[i].addr && Cell(free[i]) && free[i].End() < WORD
    requires 0 < s < free[i].len && s % HEADER == 0
    requires i > 0 ==> 0 < free[i - 1].addr < WORD && Cell(free[i - 1])
    requires 0 <= Link(free, i + 1) < WORD
    ensures HasHeader(CarveWrites(mem, free, i, s), Block(free[i].addr, s))
  {
  }

  /** The words `free` leaves behind when it puts chunk `k` before block `p`. */
  ghost predicate ReleaseWrites(mem: Memory, mem': Memory, st: State, k: nat, p: nat, joined: bool)
    requires k < |st.live| && p <= |st.free| && (joined ==> p < |st.free|)
  {
    var c := st.live[k];
    var length := if joined then c.len + st.free[p].len else c.len;
    var next := Link(st.free, if joined then p + 1 else p);
    mem'.Keys == mem.Keys && c.addr in mem && c.addr + 8 in mem &&
    (p > 0 ==> st.free[p - 1].addr in mem && mem'[st.free[p - 1].addr] == c.addr) &&
    mem'[c.addr] == next && mem'[c.addr + 8] == length &&
    forall x :: x in mem && x != c.addr && x != c.addr + 8 && (p > 0 ==> x != st.free[p - 1].addr) ==> mem'[x] == mem[x]
  }

  /** Chunk `k` is back before block `p` in list and memory; it is the head if and only if `p` is 0. */
  ghost predicate Freed(mem: Memory, head: int, st: State, mem': Memory, head': int, st': State,
                        k: nat, p: nat, joined: bool)
    requires k < |st.live| && p < |st.free|
  {
    PutBack(st, st', k, p, joined) && ReleaseWrites(mem, mem', st, k, p, joined) &&
    head' == if p == 0 then st.live[k].addr else head
  }

  /** What `free` as written does to list and memory; it succeeds exactly when there is a place. */
  ghost predicate FreedAsWritten(mem: Memory, head: int, st: State, mem': Memory, head': int, st': State,
                                 k: nat, ok: bool)
    requires k < |st.live|
  {
    var c := st.live[k];
    (ok <==> exists p: nat :: WrittenPlace(st.free, c.addr, p)) &&
    forall p: nat :: WrittenPlace(st.free, c.addr, p) ==>
      Freed(mem, head, st, mem', head', st', k, p, p > 0 && c.End() == st.free[p].addr)
  }

  ghost predicate FreedAsMeant(mem: Memory, head: int, st: State, mem': Memory, head': int, st': State,
                               k: nat, ok: bool)
    requires k < |st.live|
  {
    var c := st.live[k];
    (ok <==> exists p: nat :: MeantPlace(st.free, c.addr, p)) &&
    forall p: nat :: MeantPlace(st.free, c.addr, p) ==>
      Freed(mem, head, st, mem', head', st', k, p, c.End() == st.free[p].addr)
  }

  lemma WrittenFreeDone(mem: Memory, head: int, st: State, mem': Memory, head': int, st': State, k: nat)
    requires k < |st.live| && WrittenSpot(st.free, st.live[k].addr).Some?
    requires var p := WrittenSpot(st.free, st.live[k].addr).value;
             st' == State(Release(st.free, st.live[k], p, p > 0), Rest(st.live, k)) &&
             ReleaseWrites(mem, mem', st, k, p, p > 0 && st.live[k].End() == st.free[p].addr) &&
             head' == if p == 0 then st.live[k].addr else head
    ensures FreedAsWritten(mem, head, st, mem', head', st', k, true)
  {
    var a := st.live[k].addr;
    var spot := WrittenSpot(st.free, a).value;
    ReleaseIsPutBack(st, k, spot, spot > 0);
    WrittenSpotIff(st.free, a, spot);
    forall p: nat | WrittenPlace(st.free, a, p)
      ensures p == spot
    {
      WrittenSpotIff(st.free, a, p);
    }
  }

  lemma MeantFreeDone(mem: Memory, head: int, st: State, mem': Memory, head': int, st': State, k: nat)
    requires k < |st.live| && MeantSpot(st.free, st.live[k].addr).Some?
    requires var p := MeantSpot(st.free, st.live[k].addr).value;
             st' == State(Release(st.free, st.live[k], p, true), Rest(st.live, k)) &&
             ReleaseWrites(mem, mem', st, k, p, st.live[k].End() == st.free[p].addr) &&
             head' == if p == 0 then st.live[k].addr else head
    ensures FreedAsMeant(mem, head, st, mem', head', st', k, true)
  {
    var a := st.live[k].addr;
    var spot := MeantSpot(st.free, a).value;
    ReleaseIsPutBack(st, k, spot, true);
    MeantSpotIff(st.free, a, spot);
    forall p: nat | MeantPlace(st.free, a, p)
      ensures p == spot
    {
      MeantSpotIff(st.free, a, p);
    }
  }

  /** Without a place the written walk, or the repaired one, ends at null and nothing is written. */
  lemma FreeFaults(mem: Memory, head: int, st: State, k: nat)
    requires k < |st.live|
    ensures WrittenSpot(st.free, st.live[k].addr).None? ==> FreedAsWritten(mem, head, st, mem, head, st, k, false)
    ensures MeantSpot(st.free, st.live[k].addr).None? ==> FreedAsMeant(mem, head, st, mem, head, st, k, false)
  {
    var a := st.live[k].addr;
    forall p: nat
      ensures WrittenPlace(st.free, a, p) ==> WrittenSpot(st.free, a) == Some(p)
      ensures MeantPlace(st.free, a, p) ==> MeantSpot(st.free, a) == Some(p)
    {
      WrittenSpotIff(st.free, a, p);
      MeantSpotIff(st.free, a, p);
    }
  }

  /** A block that was free before keeps its header; only block `p - 1` gets a new link. */
  lemma ReleaseOldHeader(mem: Memory, mem': Memory, head: int, st: State, k: nat, p: nat, joined: bool, j: nat)
    requires Spells(mem, head, st) && CellsApart(st) && k < |st.live| && p <= |st.free|
    requires joined ==> p < |st.free|
    requires ReleaseWrites(mem, mem', st, k, p, joined)
    requires j < |st.free|
    ensures HasHeader(mem', st.free[j])
    ensures mem'[st.free[j].addr] == if j + 1 == p then st.live[k].addr else mem[st.free[j].addr]
  {
    var b, c := st.free[j], st.live[k];
    assert LinkedAt(mem, st.free, j);
    assert Cell(b) && Cell(c) && b.Apart(c);
    assert p > 0 ==> Cell(st.free[p - 1]);
    assert b.addr + 8 != c.addr && b.addr != c.addr + 8;
  }

  /** Where the blocks of the new list were in the old one, and where their links lead. */
  lemma ReleaseShape(free: seq<Block>, c: Block, p: nat, merge: bool, i: nat)
    requires p <= |free| && i < |Release(free, c, p, merge)|
    ensures var joined := merge && p < |free| && c.End() == free[p].addr;
            var free' := Release(free, c, p, merge);
            var j := if i < p || joined then i else i - 1;
            if i == p then
              free'[i] == (if joined then Block(c.addr, c.len + free[p].len) else c) &&
              Link(free', i + 1) == Link(free, if joined then p + 1 else p)
            else
              0 <= j < |free| && free'[i] == free[j] &&
              Link(free', i + 1) == if j + 1 == p then c.addr else Link(free, j + 1)
  {
  }

  lemma ReleaseFreeHeader(mem: Memory, mem': Memory, head: int, st: State, k: nat, p: nat, merge: bool, i: nat)
    requires Spells(mem, head, st) && CellsApart(st) && k < |st.live| && p <= |st.free|
    requires ReleaseWrites(mem, mem', st, k, p, merge && p < |st.free| && st.live[k].End() == st.free[p].addr)
    requires i < |Release(st.free, st.live[k], p, merge)|
    ensures LinkedAt(mem', Release(st.free, st.live[k], p, merge), i)
  {
    var c := st.live[k];
    var joined := merge && p < |st.free| && c.End() == st.free[p].addr;
    var free' := Release(st.free, c, p, merge);
    ReleaseShape(st.free, c, p, merge, i);
    if i == p {
      var b := if joined then Block(c.addr, c.len + st.free[p].len) else c;
      LinkedBy(mem', free', i, b, Link(st.free, if joined then p + 1 else p));
    } else {
      var j := if i < p || joined then i else i - 1;
      ReleaseOldHeader(mem, mem', head, st, k, p, joined, j);
      assert LinkedAt(mem, st.free, j);
      LinkedBy(mem', free', i, st.free[j], if j + 1 == p then c.addr else Link(st.free, j + 1));
    }
  }

  lemma ReleaseLiveHeader(mem: Memory, mem': Memory, head: int, st: State, k: nat, p: nat, joined: bool, j: nat)
    requires Spells(mem, head, st) && CellsApart(st) && k < |st.live| && p <= |st.free|
    requires joined ==> p < |st.free|
    requires ReleaseWrites(mem, mem', st, k, p, joined)
    requires j < |st.live| && j != k
    ensures HasHeader(mem', st.live[j])
    ensures forall x :: st.live[j].Contains(x) && x in mem ==> mem'[x] == mem[x]
  {
    assert HasHeader(mem, st.live[j]) && Cell(st.live[j]) && Cell(st.live[k]);
    assert if j < k then st.live[j].Apart(st.live[k]) else st.live[k].Apart(st.live[j]);
    assert p > 0 ==> st.free[p - 1].Apart(st.live[j]) && Cell(st.free[p - 1]);
  }

  lemma ReleaseSpelled(mem: Memory, mem': Memory, head: int, st: State, k: nat, p: nat, merge: bool)
    requires Spells(mem, head, st) && CellsApart(st) && k < |st.live| && p <= |st.free|
    requires ReleaseWrites(mem, mem', st, k, p, merge && p < |st.free| && st.live[k].End() == st.free[p].addr)
    ensures Spells(mem', if p == 0 then st.live[k].addr else head,
                   State(Release(st.free, st.live[k], p, merge), Rest(st.live, k)))
    ensures SameWords(mem, mem', Rest(st.live, k))
  {
    var c := st.live[k];
    var joined := merge && p < |st.free| && c.End() == st.free[p].addr;
    var free', live' := Release(st.free, c, p, merge), Rest(st.live, k);
    forall i | 0 <= i < |free'|
      ensures LinkedAt(mem', free', i)
    {
      ReleaseFreeHeader(mem, mem', head, st, k, p, merge, i);
    }
    forall i | 0 <= i < |live'|
      ensures HasHeader(mem', live'[i]) &&
              forall x :: live'[i].Contains(x) && x in mem ==> mem'[x] == mem[x]
    {
      ReleaseLiveHeader(mem, mem', head, st, k, p, joined, if i < k then i else i + 1);
    }
  }

  /** What lines 188-190 leave behind: a list again, whatever the chunk and the head have to do with each other. */
  lemma HeadMergeSpelled(mem: Memory, head: int, st: State, k: nat)
    requires Spells(mem, head, st) && CellsApart(st) && k < |st.live| && st.free != []
    requires 0 <= st.live[k].len + st.free[0].len < WORD && 0 <= Link(st.free, 1) < WORD
    ensures var c := st.live[k];
            var mem' := WithHeader(mem, Block(c.addr, c.len + st.free[0].len), Link(st.free, 1));
            Spells(mem', c.addr, State([Block(c.addr, c.len + st.free[0].len)] + st.free[1..], Rest(st.live, k))) &&
            SameWords(mem, mem', Rest(st.live, k))
  {
    var c := st.live[k];
    var mem' := WithHeader(mem, Block(c.addr, c.len + st.free[0].len), Link(st.free, 1));
    var free' := [Block(c.addr, c.len + st.free[0].len)] + st.free[1..];
    var live' := Rest(st.live, k);
    forall i | 0 <= i < |free'|
      ensures LinkedAt(mem', free', i)
    {
      assert LinkedAt(mem, st.free, i);
      assert Cell(st.free[i]) && Cell(c) && st.free[i].Apart(c);
      assert Link(free', i + 1) == Link(st.free, i + 1);
    }
    forall i | 0 <= i < |live'|
      ensures HasHeader(mem', live'[i]) &&
              forall x :: live'[i].Contains(x) && x in mem ==> mem'[x] == mem[x]
    {
      var j := if i < k then i else i + 1;
      assert live'[i] == st.live[j] && HasHeader(mem, st.live[j]);
      assert if j < k then st.live[j].Apart(c) else c.Apart(st.live[j]);
    }
  }

  lemma HeadMergeDone(mem: Memory, head: int, usable: seq<Block>, st: State, k: nat)
    requires Inv(st, usable) && Mapped(mem, usable) && Spells(mem, head, st) && k < |st.live| && st.free != []
    requires 0 <= st.live[k].len + st.free[0].len < WORD && 0 <= Link(st.free, 1) < WORD
    ensures var c := st.live[k];
            var mem' := WithHeader(mem, Block(c.addr, c.len + st.free[0].len), Link(st.free, 1));
            Spells(mem', c.addr, State([Block(c.addr, c.len + st.free[0].len)] + st.free[1..], Rest(st.live, k))) &&
            SameWords(mem, mem', Rest(st.live, k)) && mem'.Keys == mem.Keys && Mapped(mem', usable)
  {
    var c := st.live[k];
    InvCellsApart(st, usable);
    HeadMergeSpelled(mem, head, st, k);
    assert HasHeader(mem, c);
    var mem' := WithHeader(mem, Block(c.addr, c.len + st.free[0].len), Link(st.free, 1));
    assert mem'.Keys == mem.Keys;
    MappedSameKeys(mem, mem', usable);
  }

  /** All the allocator knows between its operations. */
  ghost predicate Ready(mem: Memory, head: int, usable: seq<Block>, st: State) {
    Inv(st, usable) && Mapped(mem, usable) && Spells(mem, head, st)
  }

  lemma BlockReady(mem: Memory, head: int, usable: seq<Block>, st: State, i: nat)
    requires Ready(mem, head, usable, st) && i < |st.free|
    ensures 0 < st.free[i].addr && st.free[i].End() < WORD && Cell(st.free[i]) && LinkedAt(mem, st.free, i)
    ensures 0 <= Link(st.free, i + 1) < WORD && (Link(st.free, i + 1) == 0 <==> i + 1 == |st.free|)
  {
    InRange(st.free[i], usable);
    if i + 1 < |st.free| {
      InRange(st.free[i + 1], usable);
    }
  }

  lemma ChunkReady(mem: Memory, head: int, usable: seq<Block>, st: State, k: nat)
    requires Ready(mem, head, usable, st) && k < |st.live|
    ensures 0 < st.live[k].addr && st.live[k].End() < WORD && Cell(st.live[k]) && HasHeader(mem, st.live[k])
  {
    InRange(st.live[k], usable);
  }

  /** Blocks and chunks lie apart inside 64 bits, so their lengths add up without wrapping. */
  lemma LengthsAdd(mem: Memory, head: int, usable: seq<Block>, st: State, i: nat, k: nat)
    requires Ready(mem, head, usable, st) && i < |st.free| && k < |st.live|
    ensures st.free[i].len + st.live[k].len < WORD
  {
    FreeApartFromLive(st, usable, i, k);
    BlockReady(mem, head, usable, st, i);
    ChunkReady(mem, head, usable, st, k);
  }

  lemma ListNotEmpty(mem: Memory, head: int, usable: seq<Block>, st: State)
    requires Ready(mem, head, usable, st)
    ensures st.free != []
  {
    var i := LastCellIsFree(st, usable, 0);
  }

  lemma SplitReady(mem: Memory, head: int, usable: seq<Block>, st: State, i: nat, s: Size)
    requires Ready(mem, head, usable, st) && i < |st.free| && s < st.free[i].len && s % HEADER == 0
    ensures 0 < st.free[i].addr && st.free[i].End() < WORD && HasHeader(mem, st.free[i])
    ensures i > 0 ==> 0 < st.free[i - 1].addr < WORD
    ensures 0 <= Link(st.free, i + 1) < WORD
    ensures var prev := if i == 0 then 0 else st.free[i - 1].addr;
            var mem' := SplitWrites(mem, st.free[i].addr, st.free[i].len, s, prev, Link(st.free, i + 1));
            var head' := if i == 0 then st.free[0].addr + s else head;
            Ready(mem', head', usable, if s == 0 then st else Carve(st, i, s)) &&
            mem'.Keys == mem.Keys && SameWords(mem, mem', st.live) &&
            if s == 0 then mem' == mem && head' == head else Carved(mem, head, st.free, mem', head', i, s)
  {
    BlockReady(mem, head, usable, st, i);
    if i > 0 {
      BlockReady(mem, head, usable, st, i - 1);
    }
    if s == 0 {
      ZeroCarve(mem, st.free, i);
    } else {
      CarveDone(mem, head, usable, st, i, s);
    }
  }

  /** The stores that put chunk `k` before block `p` leave the allocator ready again. */
  lemma ReleaseReady(mem: Memory, mem': Memory, head: int, usable: seq<Block>, st: State, k: nat, p: nat, merge: bool)
    requires Ready(mem, head, usable, st) && k < |st.live| && p <= |st.free|
    requires ReleaseWrites(mem, mem', st, k, p, merge && p < |st.free| && st.live[k].End() == st.free[p].addr)
    ensures var st' := State(Release(st.free, st.live[k], p, merge), Rest(st.live, k));
            Ready(mem', if p == 0 then st.live[k].addr else head, usable, st') && SameWords(mem, mem', st'.live)
  {
    InvCellsApart(st, usable);
    ReleaseSpelled(mem, mem', head, st, k, p, merge);
    ReleaseKeepsInv(st, usable, k, p, merge);
    MappedSameKeys(mem, mem', usable);
  }

  lemma PrependReady(mem: Memory, head: Size, usable: seq<Block>, st: State, k: nat)
    requires Ready(mem, head, usable, st) && k < |st.live|
    ensures var a := st.live[k].addr;
            var st' := State(Release(st.free, st.live[k], 0, false), Rest(st.live, k));
            a in mem && Ready(mem[a := head], a, usable, st') && SameWords(mem, mem[a := head], st'.live) &&
            ReleaseWrites(mem, mem[a := head], st, k, 0, false)
  {
    ChunkReady(mem, head, usable, st, k);
    assert ReleaseWrites(mem, mem[st.live[k].addr := head], st, k, 0, false);
    ReleaseReady(mem, mem[st.live[k].addr := head], head, usable, st, k, 0, false);
  }

  /** The memory after lines 218-233. */
  function InsertWrites(mem: Memory, a: Size, current: Size, next: Size): Memory
    requires a in mem && a + 8 in mem && next in mem && next + 8 in mem
    requires mem[a + 8] + mem[next + 8] < WORD
  {
    if a + mem[a + 8] == next
    then mem[a + 8 := mem[a + 8] + mem[next + 8]][a := mem[next]][current := a]
    else mem[current := a][a := next]
  }

  lemma InsertFacts(mem: Memory, head: int, usable: seq<Block>, st: State, k: nat, j: nat)
    requires Ready(mem, head, usable, st) && k < |st.live| && j + 1 < |st.free|
    ensures var c, b, n := st.live[k], st.free[j], st.free[j + 1];
            0 <= c.addr < WORD && 0 <= b.addr < WORD && 0 <= n.addr < WORD &&
            LinkedAt(mem, st.free, j) && LinkedAt(mem, st.free, j + 1) && HasHeader(mem, c) &&
            c.len + n.len < WORD && Cell(c) && Cell(b) && Cell(n) && b.Apart(c)
  {
    ChunkReady(mem, head, usable, st, k);
    BlockReady(mem, head, usable, st, j);
    BlockReady(mem, head, usable, st, j + 1);
    LengthsAdd(mem, head, usable, st, j + 1, k);
    FreeApartFromLive(st, usable, j, k);
  }

  lemma InsertReady(mem: Memory, head: int, usable: seq<Block>, st: State, k: nat, j: nat)
    requires Ready(mem, head, usable, st) && k < |st.live| && j + 1 < |st.free|
    ensures var c, b, n := st.live[k], st.free[j], st.free[j + 1];
            0 <= c.addr < WORD && 0 <= b.addr < WORD && 0 <= n.addr < WORD && b.addr in mem &&
            HasHeader(mem, c) && HasHeader(mem, n) && c.len + n.len < WORD &&
            Cell(c) && Cell(b) && Cell(n) &&
            var mem' := InsertWrites(mem, c.addr, b.addr, n.addr);
            var st' := State(Release(st.free, c, j + 1, true), Rest(st.live, k));
            mem'.Keys == mem.Keys && Ready(mem', head, usable, st') && SameWords(mem, mem', st'.live) &&
            ReleaseWrites(mem, mem', st, k, j + 1, c.End() == n.addr)
  {
    InsertFacts(mem, head, usable, st, k, j);
    var c, b, n := st.live[k], st.free[j], st.free[j + 1];
    InsertIsRelease(mem, st, k, j);
    ReleaseReady(mem, InsertWrites(mem, c.addr, b.addr, n.addr), head, usable, st, k, j + 1, true);
  }

  lemma InsertIsRelease(mem: Memory, st: State, k: nat, j: nat)
    requires k < |st.live| && j + 1 < |st.free|
    requires LinkedAt(mem, st.free, j) && LinkedAt(mem, st.free, j + 1) && HasHeader(mem, st.live[k])
    requires Cell(st.live[k]) && Cell(st.free[j]) && Cell(st.free[j + 1]) && st.free[j].Apart(st.live[k])
    requires 0 <= st.live[k].addr < WORD && 0 <= st.free[j].addr < WORD && 0 <= st.free[j + 1].addr < WORD
    requires st.live[k].len + st.free[j + 1].len < WORD
    ensures var c := st.live[k];
            ReleaseWrites(mem, InsertWrites(mem, c.addr, st.free[j].addr, st.free[j + 1].addr), st, k, j + 1,
                          c.End() == st.free[j + 1].addr)
  {
    var c, b, n := st.live[k], st.free[j], st.free[j + 1];
    assert c.addr != b.addr && c.addr + 8 != b.addr && b.addr + 8 != c.addr;
    var mem' := InsertWrites(mem, c.addr, b.addr, n.addr);
    assert mem'.Keys == mem.Keys;
  }

  lemma MergeReady(mem: Memory, head: int, usable: seq<Block>, st: State, k: nat)
    requires Ready(mem, head, usable, st) && k < |st.live| && st.free != []
    ensures LinkedAt(mem, st.free, 0) && HasHeader(mem, st.live[k]) && head == st.free[0].addr
    ensures head != st.live[k].addr + 8
    ensures 0 <= st.live[k].len + st.free[0].len < WORD && 0 <= Link(st.free, 1) < WORD
    ensures var c := st.live[k];
            var mem' := WithHeader(mem, Block(c.addr, c.len + st.free[0].len), Link(st.free, 1));
            var st' := State([Block(c.addr, c.len + st.free[0].len)] + st.free[1..], Rest(st.live, k));
            Spells(mem', c.addr, st') && SameWords(mem, mem', st'.live) &&
            mem'.Keys == mem.Keys && Mapped(mem', usable) && ReleaseWrites(mem, mem', st, k, 0, true)
  {
    BlockReady(mem, head, usable, st, 0);
    ChunkReady(mem, head, usable, st, k);
    LengthsAdd(mem, head, usable, st, 0, k);
    HeadMergeDone(mem, head, usable, st, k);
  }

  /** The words lie behind the header of block `c`. */
  ghost predicate InPayload(words: Memory, c: Block) {
    forall x :: x in words ==> x % 8 == 0 && c.addr + HEADER <= x < c.End()
  }

  lemma StoreReady(mem: Memory, head: int, usable: seq<Block>, st: State, k: nat, words: Memory)
    requires Ready(mem, head, usable, st) && k < |st.live| && InPayload(words, st.live[k])
    ensures words.Keys <= mem.Keys && Ready(mem + words, head, usable, st)
  {
    forall x | x in words
      ensures x in mem
    {
      WordMapped(mem, usable, st.live[k], x);
    }
    InvCellsApart(st, usable);
    PayloadStoreSpelled(mem, head, st, k, words);
    assert (mem + words).Keys == mem.Keys;
    MappedSameKeys(mem, mem + words, usable);
  }

  lemma ShiftedAligned(a: int, hhdm: int)
    requires a % 0x1000 == 0 && hhdm % 0x1000 == 0
    ensures (a + hhdm) % HEADER == 0 && a % HEADER == 0
  {
  }

  /** Stores into a chunk's payload leave every header alone. */
  lemma PayloadStoreSpelled(mem: Memory, head: int, st: State, k: nat, words: Memory)
    requires Spells(mem, head, st) && CellsApart(st) && k < |st.live| && InPayload(words, st.live[k])
    ensures Spells(mem + words, head, st)
  {
    var mem' := mem + words;
    forall i | 0 <= i < |st.free|
      ensures LinkedAt(mem', st.free, i)
    {
      assert LinkedAt(mem, st.free, i) && st.free[i].Apart(st.live[k]);
    }
    forall j | 0 <= j < |st.live|
      ensures HasHeader(mem', st.live[j])
    {
      assert HasHeader(mem, st.live[j]);
      assert j < k ==> st.live[j].Apart(st.live[k]);
      assert k < j ==> st.live[k].Apart(st.live[j]);
    }
  }
}
