/** The page frame map of kernel/src/memory/pages.cpp, filled from the boot loader's memory map. */
module PageFrames {
  import opened Blocks
  import opened FreeList
  import opened MemoryMap
  import opened Options

  /** A page frame descriptor. */
  datatype Page = Page(base: Size, flags: int, count: int)

  /** The pages begun in a region, in order; the last one may reach past its end. */
  function PageBases(b: Block): seq<int>
    decreases b.len
  {
    if b.len <= 0 then [] else [b.addr] + PageBases(Block(b.addr + PAGE_SIZE, b.len - PAGE_SIZE))
  }

  function Frames(bs: seq<Block>): seq<int> {
    if bs == [] then [] else PageBases(bs[0]) + Frames(bs[1..])
  }

  function Region(e: Entry): Block {
    Block(e.base, e.length)
  }

  /** How many frames the first `n` entries ask for. */
  function FrameCount(entries: seq<Entry>, n: nat): nat
    requires n <= |entries|
  {
    if n == 0 then 0
    else FrameCount(entries, n - 1) + if entries[n - 1].kind == USABLE then |PageBases(Region(entries[n - 1]))| else 0
  }

  function AllFrames(entries: seq<Entry>): seq<int> {
    Frames(UsableBlocks(entries))
  }

  lemma {:induction false} PageBasesAt(b: Block)
    requires b.len >= 0
    ensures |PageBases(b)| == (b.len + PAGE_SIZE - 1) / PAGE_SIZE
    ensures forall k :: 0 <= k < |PageBases(b)| ==> PageBases(b)[k] == b.addr + PAGE_SIZE * k
    decreases b.len
  {
    var rest := Block(b.addr + PAGE_SIZE, b.len - PAGE_SIZE);
    if b.len > PAGE_SIZE {
      PageBasesAt(rest);
      assert forall k :: 0 < k < |PageBases(b)| ==> PageBases(b)[k] == PageBases(rest)[k - 1];
    } else if b.len > 0 {
      assert PageBases(rest) == [];
    }
  }

  lemma {:induction false} FramesConcat(a: seq<Block>, b: seq<Block>)
    ensures Frames(a + b) == Frames(a) + Frames(b)
  {
    if a == [] {
      assert a + b == b;
    } else {
      assert (a + b)[1..] == a[1..] + b;
      FramesConcat(a[1..], b);
    }
  }

  lemma FramesOfOne(b: Block)
    ensures Frames([b]) == PageBases(b)
  {
    assert Frames([b]) == PageBases(b) + Frames([]);
  }

  lemma FramesAppend(part: seq<Block>, b: Block)
    ensures Frames(part + [b]) == Frames(part) + PageBases(b)
  {
    FramesConcat(part, [b]);
    FramesOfOne(b);
  }

  lemma {:induction false} FrameCountIsLength(entries: seq<Entry>, n: nat)
    requires n <= |entries|
    ensures FrameCount(entries, n) == |Frames(UsableBlocks(entries[..n]))|
  {
    if n == 0 {
      assert entries[..0] == [];
    } else {
      FrameCountIsLength(entries, n - 1);
      UsableNext(entries, n - 1);
      if entries[n - 1].kind == USABLE {
        FramesAppend(UsableBlocks(entries[..n - 1]), Region(entries[n - 1]));
      }
    }
  }

  /** The frames of a region in the middle of a list. */
  lemma FramesInside(part: seq<Block>, b: Block, all: seq<Block>)
    requires part + [b] <= all
    ensures var first, mine, frames := |Frames(part)|, PageBases(b), Frames(all);
            first + |mine| <= |frames| && frames[first..first + |mine|] == mine
  {
    var rest := all[|part| + 1..];
    assert all == part + [b] + rest;
    FramesConcat(part + [b], rest);
    FramesAppend(part, b);
  }

  /** The pages of entry `i` stand in the frames behind those of the entries before it. */
  lemma FramesOfEntry(entries: seq<Entry>, i: nat)
    requires i < |entries| && entries[i].kind == USABLE
    ensures var first, mine := FrameCount(entries, i), PageBases(Region(entries[i]));
            FrameCount(entries, i + 1) == first + |mine| <= |AllFrames(entries)| &&
            AllFrames(entries)[first..first + |mine|] == mine
  {
    FrameCountIsLength(entries, i);
    UsableNext(entries, i);
    UsablePrefix(entries, i + 1);
    FramesInside(UsableBlocks(entries[..i]), Region(entries[i]), UsableBlocks(entries));
  }

  lemma {:induction false} FrameCountMonotone(entries: seq<Entry>, a: nat, b: nat)
    requires a <= b <= |entries|
    ensures FrameCount(entries, a) <= FrameCount(entries, b)
    decreases b - a
  {
    if a < b {
      FrameCountMonotone(entries, a, b - 1);
    }
  }

  lemma FrameCountAll(entries: seq<Entry>)
    ensures FrameCount(entries, |entries|) == |AllFrames(entries)|
  {
    FrameCountIsLength(entries, |entries|);
    assert entries[..|entries|] == entries;
  }

  // ----- laws of the frames -----

  /** Ceilings never fall below the floors GetBootPages adds up, and meet them exactly on aligned lengths. */
  lemma {:induction false} FramesVersusFullPages(bs: seq<Block>)
    requires forall k :: 0 <= k < |bs| ==> bs[k].len >= 0
    ensures |Frames(bs)| >= FullPages(bs) >= 0
    ensures (forall k :: 0 <= k < |bs| ==> bs[k].len % PAGE_SIZE == 0) ==> |Frames(bs)| == FullPages(bs)
  {
    if bs != [] {
      FramesVersusFullPages(bs[1..]);
      PageBasesAt(bs[0]);
      assert forall k :: 0 <= k < |bs[1..]| ==> bs[1..][k] == bs[k + 1];
    }
  }

  ghost predicate Aligned(bs: seq<Block>) {
    forall k :: 0 <= k < |bs| ==> bs[k].addr % PAGE_SIZE == 0 && bs[k].len % PAGE_SIZE == 0
  }

  ghost predicate StrictlyIncreasing(s: seq<int>) {
    forall i, j :: 0 <= i < j < |s| ==> s[i] < s[j]
  }

  lemma {:induction false} FramesAbove(bs: seq<Block>, low: int)
    requires Ascending(bs) && (forall k :: 0 <= k < |bs| ==> low <= bs[k].addr)
    ensures forall j :: 0 <= j < |Frames(bs)| ==> low <= Frames(bs)[j]
  {
    if bs != [] {
      FramesAbove(bs[1..], low);
      PageBasesAt(bs[0]);
    }
  }

  lemma ConcatIncreasing(s: seq<int>, t: seq<int>, bound: int)
    requires StrictlyIncreasing(s) && StrictlyIncreasing(t)
    requires (forall i :: 0 <= i < |s| ==> s[i] < bound) && (forall i :: 0 <= i < |t| ==> bound <= t[i])
    ensures StrictlyIncreasing(s + t)
  {
  }

  /** On a boot map the frames are page-aligned and strictly increasing. */
  lemma {:induction false} FramesIncreasing(bs: seq<Block>)
    requires Ascending(bs) && Aligned(bs)
    ensures StrictlyIncreasing(Frames(bs))
    ensures forall j :: 0 <= j < |Frames(bs)| ==> Frames(bs)[j] % PAGE_SIZE == 0
  {
    if bs != [] {
      FramesIncreasing(bs[1..]);
      PageBasesAt(bs[0]);
      FramesAbove(bs[1..], bs[0].End());
      ConcatIncreasing(PageBases(bs[0]), Frames(bs[1..]), bs[0].End());
    }
  }

  lemma PageInRegion(b: Block, x: int)
    requires b.len > 0 && b.addr % PAGE_SIZE == 0 && b.len % PAGE_SIZE == 0 && x % PAGE_SIZE == 0
    ensures x in PageBases(b) <==> b.Contains(x)
  {
    PageBasesAt(b);
    if b.Contains(x) {
      assert PageBases(b)[(x - b.addr) / PAGE_SIZE] == x;
    }
  }

  /** Every page of usable memory is in the frames, and nothing else is. */
  lemma {:induction false} FramesAreTheUsablePages(bs: seq<Block>, x: int)
    requires Ascending(bs) && Aligned(bs) && x % PAGE_SIZE == 0
    ensures x in Frames(bs) <==> Covered(bs, x)
  {
    if bs != [] {
      FramesAreTheUsablePages(bs[1..], x);
      PageInRegion(bs[0], x);
      CoveredStep(bs, x);
    }
  }

  /**
   A boot that passes CheckBootPages fills every slot. On a boot map it is the only kind that does.
   */
  lemma CheckedBootFillsMap(entries: seq<Entry>, slots: nat)
    ensures slots <= FullPages(UsableBlocks(entries)) % WORD ==> slots <= |AllFrames(entries)|
    ensures BootMap(entries) ==> (slots <= FullPages(UsableBlocks(entries)) % WORD <==> slots <= |AllFrames(entries)|)
  {
    var bs := UsableBlocks(entries);
    BasesFit(entries);
    FramesVersusFullPages(bs);
    if BootMap(entries) {
      BootPagesAreAvailableMemory(entries);
    }
  }

  // ----- which region startOfRam is taken from -----

  /** initialBlockIndex, a byte whose zero also means "not yet set", after the first `n` entries. */
  function InitialBlockIndex(entries: seq<Entry>, n: nat): nat
    requires n <= |entries|
  {
    if n == 0 then 0
    else
      var before := InitialBlockIndex(entries, n - 1);
      if entries[n - 1].kind == USABLE && before == 0 then (n - 1) % 256 else before
  }

  /** The entry startOfRam was last set from, once the first `n` entries are done. */
  function StartEntry(entries: seq<Entry>, n: nat): (r: Option<nat>)
    requires n <= |entries|
    ensures r.Some? ==> r.value < n
  {
    if n == 0 then None
    else if entries[n - 1].kind == USABLE && InitialBlockIndex(entries, n) == n - 1 then Some(n - 1)
    else StartEntry(entries, n - 1)
  }

  function StartAddress(entries: seq<Entry>, n: nat, default: Size): Size
    requires n <= |entries|
  {
    var i := StartEntry(entries, n);
    if i.Some? then entries[i.value].base else default
  }

  /** How many of the first `n` entries are done with before a map of `slots` frames is full. */
  function EntriesDone(entries: seq<Entry>, n: nat, slots: nat): (done: nat)
    requires n <= |entries|
    ensures done <= n
    ensures slots > 0 ==> FrameCount(entries, done) < slots
    ensures slots > 0 && done < n ==> FrameCount(entries, done + 1) >= slots
  {
    if n == 0 || FrameCount(entries, n) < slots then n else EntriesDone(entries, n - 1, slots)
  }

  ghost predicate FirstUsable(entries: seq<Entry>, f: nat) {
    f < |entries| && entries[f].kind == USABLE && forall i :: 0 <= i < f ==> entries[i].kind != USABLE
  }

  lemma {:induction false} NoneUsable(entries: seq<Entry>, n: nat)
    requires n <= |entries| && forall i :: 0 <= i < n ==> entries[i].kind != USABLE
    ensures InitialBlockIndex(entries, n) == 0 && StartEntry(entries, n) == None
    ensures UsableBlocks(entries[..n]) == [] && FrameCount(entries, n) == 0
  {
    if n > 0 {
      NoneUsable(entries, n - 1);
      UsableNext(entries, n - 1);
    }
  }

  /** Among the first `n` entries one with index 1 to 255 is usable. */
  ghost predicate LaterUsable(entries: seq<Entry>, n: nat)
    requires n <= |entries|
  {
    exists g :: 1 <= g < n && g <= 255 && entries[g].kind == USABLE
  }

  /** Entry `g` is the first usable one behind entry 0. */
  ghost predicate FirstBehindZero(entries: seq<Entry>, g: nat) {
    1 <= g < |entries| && entries[g].kind == USABLE && forall h :: 1 <= h < g ==> entries[h].kind != USABLE
  }

  /**
   The byte stays 0 as long as no entry from 1 to 255 is usable, except that an entry 0x101 or
   later may set it, to no effect; then it is the index of the first such entry for good.
   */
  lemma {:induction false} BlockIndexExact(entries: seq<Entry>, n: nat)
    requires n <= |entries|
    ensures InitialBlockIndex(entries, n) <= 255
    ensures LaterUsable(entries, n) ==>
              InitialBlockIndex(entries, n) < n && FirstBehindZero(entries, InitialBlockIndex(entries, n))
    ensures !LaterUsable(entries, n) && n <= 256 ==> InitialBlockIndex(entries, n) == 0
  {
    if n > 0 {
      BlockIndexExact(entries, n - 1);
      if n > 1 && n <= 256 && !LaterUsable(entries, n - 1) && entries[n - 1].kind == USABLE {
        assert FirstBehindZero(entries, n - 1);
      }
    }
  }

  /**
   The entry startOfRam comes from, exactly: the first usable one behind entry 0, if it is done and
   has index 255 at most; failing that, entry 0, if it is usable and done; failing that, none.
   */
  lemma {:induction false} StartEntryExact(entries: seq<Entry>, n: nat)
    requires n <= |entries|
    ensures LaterUsable(entries, n) ==>
              forall g: nat :: FirstBehindZero(entries, g) ==> g < n && g <= 255 && StartEntry(entries, n) == Some(g)
    ensures !LaterUsable(entries, n) ==>
              StartEntry(entries, n) == if n > 0 && entries[0].kind == USABLE then Some(0) else None
  {
    if n > 0 {
      StartEntryExact(entries, n - 1);
      BlockIndexExact(entries, n - 1);
      BlockIndexExact(entries, n);
      if LaterUsable(entries, n) {
        var g0 := InitialBlockIndex(entries, n);
        forall g: nat | FirstBehindZero(entries, g)
          ensures g == g0
        {
        }
        assert entries[g0].kind == USABLE;
        assert g0 == n - 1 || LaterUsable(entries, n - 1);
      }
    }
  }

  /** What startOfRam is once `done` entries are done, said of the entries alone. */
  ghost predicate StartsAt(entries: seq<Entry>, done: nat, before: Size, start: Size)
    requires done <= |entries|
  {
    if LaterUsable(entries, done) then forall g: nat :: FirstBehindZero(entries, g) ==> start == entries[g].base
    else start == if done > 0 && entries[0].kind == USABLE then entries[0].base else before
  }

  lemma StartAddressExact(entries: seq<Entry>, done: nat, before: Size)
    requires done <= |entries|
    ensures StartsAt(entries, done, before, StartAddress(entries, done, before))
  {
    StartEntryExact(entries, done);
  }

  /** The entry startOfRam comes from is usable. */
  lemma {:induction false} StartEntryUsable(entries: seq<Entry>, n: nat)
    requires n <= |entries|
    ensures var s := StartEntry(entries, n); s.Some? ==> entries[s.value].kind == USABLE
  {
    if n > 0 {
      StartEntryUsable(entries, n - 1);
    }
  }

  /**
   startOfRam comes from the first usable region exactly when that region is among the `done`
   entries finished before the map is full, has index 255 at most, and, if it has index 0, no other
   usable region with such an index is finished too. It is never set exactly when one of the first
   two conditions fails.
   */
  lemma StartOfRamIsFirstIff(entries: seq<Entry>, done: nat, f: nat)
    requires FirstUsable(entries, f) && done <= |entries|
    ensures StartEntry(entries, done) == Some(f) <==>
            f < done && f <= 255 && (f > 0 || !LaterUsable(entries, done))
    ensures StartEntry(entries, done) == None <==> done <= f || f > 255
  {
    StartEntryExact(entries, done);
    BlockIndexExact(entries, done);
    if f > 0 {
      assert FirstBehindZero(entries, f);
    }
  }

  lemma DoneAt(entries: seq<Entry>, slots: nat, i: nat)
    requires slots > 0 && i < |entries|
    requires FrameCount(entries, i) < slots <= FrameCount(entries, i + 1)
    ensures EntriesDone(entries, |entries|, slots) == i
  {
    var n := EntriesDone(entries, |entries|, slots);
    if n < i {
      FrameCountMonotone(entries, n + 1, i);
    } else if n > i {
      FrameCountMonotone(entries, i + 1, n);
    }
  }

  class PageMap {
    const frameMap: array<Page>
    var startOfRam: Size

    constructor (availablePages: nat, init: Page)
      ensures frameMap.Length == availablePages && fresh(frameMap) && startOfRam == 0
    {
      frameMap := new Page[availablePages](_ => init);
      startOfRam := 0;
    }

    /** The first `n` slots describe the given pages, all free. */
    ghost predicate Holds(pages: seq<int>, n: nat)
      reads frameMap
    {
      n <= frameMap.Length && n <= |pages| &&
      forall k :: 0 <= k < n ==> frameMap[k].base == pages[k] && frameMap[k].flags == 0 && frameMap[k].count == -1
    }

    /** Lines 9-48. True when the loops are left through the `goto`, with the map full. */
    method InitialisePageFrames(entries: seq<Entry>) returns (full: bool)
      requires frameMap.Length > 0
      requires forall i :: 0 <= i < |entries| && entries[i].kind == USABLE ==>
                 entries[i].base + entries[i].length + PAGE_SIZE <= WORD
      modifies this, frameMap
      ensures full <==> frameMap.Length <= |AllFrames(entries)|
      ensures Holds(AllFrames(entries), if full then frameMap.Length else |AllFrames(entries)|)
      ensures forall k :: |AllFrames(entries)| <= k < frameMap.Length ==> frameMap[k] == old(frameMap[k])
      ensures startOfRam == StartAddress(entries, EntriesDone(entries, |entries|, frameMap.Length), old(startOfRam))
      ensures StartsAt(entries, EntriesDone(entries, |entries|, frameMap.Length), old(startOfRam), startOfRam)
    {
      FrameCountAll(entries);
      StartAddressExact(entries, EntriesDone(entries, |entries|, frameMap.Length), startOfRam);
      ghost var all := AllFrames(entries);
      var initialBlockIndex := 0;
      var frameIndex := 0;
      for i := 0 to |entries|
        invariant frameIndex == FrameCount(entries, i) < frameMap.Length
        invariant Holds(all, frameIndex)
        invariant forall k :: frameIndex <= k < frameMap.Length ==> frameMap[k] == old(frameMap[k])
        invariant initialBlockIndex == InitialBlockIndex(entries, i)
        invariant startOfRam == StartAddress(entries, i, old(startOfRam))
      {
        if entries[i].kind == USABLE {
          if initialBlockIndex == 0 {
            initialBlockIndex := i % 256;
          }
          var base, length := entries[i].base, entries[i].length;
          FramesOfEntry(entries, i);
          frameIndex, full := FillRegion(base, length, frameIndex, all);
          if full {
            DoneAt(entries, frameMap.Length, i);
            return;
          }
          if i == initialBlockIndex {
            startOfRam := base;
          }
        }
      }
      return false;
    }

    /** Lines 25-37: the pages of one region, up to the end of the map. */
    method FillRegion(base: Size, length: Size, frameIndex: nat, ghost all: seq<int>) returns (next: nat, full: bool)
      requires frameIndex < frameMap.Length && base + length + PAGE_SIZE <= WORD
      requires var mine := PageBases(Block(base, length));
               frameIndex + |mine| <= |all| && all[frameIndex..frameIndex + |mine|] == mine
      requires Holds(all, frameIndex)
      modifies frameMap
      ensures var end := frameIndex + |PageBases(Block(base, length))|;
              (full <==> frameMap.Length <= end) && next == if full then frameMap.Length else end
      ensures Holds(all, next)
      ensures forall k :: next <= k < frameMap.Length ==> frameMap[k] == old(frameMap[k])
    {
      ghost var mine := PageBases(Block(base, length));
      PageBasesAt(Block(base, length));
      next := frameIndex;
      var paddr := base;
      while paddr < base + length
        invariant frameIndex <= next <= frameIndex + |mine| && next < frameMap.Length
        invariant paddr == base + PAGE_SIZE * (next - frameIndex) < WORD
        invariant Holds(all, next)
        invariant forall k :: next <= k < frameMap.Length ==> frameMap[k] == old(frameMap[k])
        decreases base + length - paddr
      {
        assert all[next] == all[frameIndex..frameIndex + |mine|][next - frameIndex] == paddr;
        frameMap[next] := Page(paddr, 0, -1);
        next := next + 1;
        if next == frameMap.Length {
          return next, true;
        }
        paddr := paddr + PAGE_SIZE;
      }
      return next, false;
    }

    /** Lines 62-67: true when the kernel halts. */
    method CheckBootPages(entries: seq<Entry>) returns (halted: bool)
      ensures halted <==> frameMap.Length > FullPages(UsableBlocks(entries)) % WORD
    {
      var bootPages := GetBootPages(entries);
      halted := frameMap.Length > bootPages;
    }

    function PageAddress(frameNumber: nat): Size
      reads frameMap
      requires frameNumber < frameMap.Length
    {
      frameMap[frameNumber].base
    }

    function PhysicalToPageN(paddr: Size): nat
      reads this
    {
      PageNumber(startOfRam, paddr)
    }

    /** The number of `paddr` is that of one of the first `n` slots, and the slot has its page. */
    ghost predicate Found(n: nat, paddr: Size)
      reads this, frameMap
      requires n <= frameMap.Length
    {
      PhysicalToPageN(paddr) < n && PageAddress(PhysicalToPageN(paddr)) == paddr - paddr % PAGE_SIZE
    }

    /**
     Whatever startOfRam is, an address in the page of frame `j` is numbered `j`, and its page found
     again, exactly when `j` pages lie between startOfRam and that page.
     */
    lemma PageNumberRightIff(entries: seq<Entry>, n: nat, j: nat, paddr: Size)
      requires BootMap(entries) && Holds(AllFrames(entries), n) && j < n && startOfRam % PAGE_SIZE == 0
      requires AllFrames(entries)[j] <= paddr < AllFrames(entries)[j] + PAGE_SIZE
      ensures PhysicalToPageN(paddr) == j <==> AllFrames(entries)[j] == startOfRam + PAGE_SIZE * j
      ensures Found(n, paddr) <==> AllFrames(entries)[j] == startOfRam + PAGE_SIZE * j
    {
      var all := AllFrames(entries);
      FramesFarEnough(entries, j);
      NumberIs(startOfRam, all[j], paddr, j);
      var m := PhysicalToPageN(paddr);
      if m < n && m != j {
        assert if m < j then all[m] < all[j] else all[j] < all[m];
      }
    }

    /** In the first usable region, as far as the map reaches, pages are found exactly if startOfRam is its base. */
    lemma FirstRegionFoundIff(entries: seq<Entry>, n: nat, f: nat, paddr: Size)
      requires BootMap(entries) && Holds(AllFrames(entries), n) && FirstUsable(entries, f)
      requires startOfRam % PAGE_SIZE == 0
      requires Region(entries[f]).Contains(paddr) && (paddr - entries[f].base) / PAGE_SIZE < n
      ensures Found(n, paddr) <==> startOfRam == entries[f].base
    {
      UsableOrder(entries, f, f);
      FirstRegionFrame(entries, f, paddr);
      PageNumberRightIff(entries, n, (paddr - entries[f].base) / PAGE_SIZE, paddr);
    }

    /**
     After InitialisePageFrames, with startOfRam initially 0, the pages of the first usable region
     that the map reaches are found exactly when startOfRam was taken from that region. The second
     case is a region at physical address 0 with startOfRam never set.
     */
    lemma FirstRegionFoundAfterBootIff(entries: seq<Entry>, n: nat, f: nat, paddr: Size)
      requires BootMap(entries) && Holds(AllFrames(entries), n) && FirstUsable(entries, f) && frameMap.Length > 0
      requires startOfRam == StartAddress(entries, EntriesDone(entries, |entries|, frameMap.Length), 0)
      requires Region(entries[f]).Contains(paddr) && (paddr - entries[f].base) / PAGE_SIZE < n
      ensures var done := EntriesDone(entries, |entries|, frameMap.Length);
              Found(n, paddr) <==>
              (f < done && f <= 255 && (f > 0 || !LaterUsable(entries, done))) ||
              ((done <= f || f > 255) && entries[f].base == 0)
    {
      StartIsFirstBaseIff(entries, EntriesDone(entries, |entries|, frameMap.Length), f);
      FirstRegionFoundIff(entries, n, f, paddr);
    }
  }

  /** The number of an address, counted from `start`; the subtraction is taken in 64 bits. */
  function PageNumber(start: Size, paddr: Size): (n: nat)
    ensures var distance := if paddr >= start then paddr - start else paddr - start + WORD;
            PAGE_SIZE * n <= distance < PAGE_SIZE * (n + 1)
  {
    assert paddr >= start ==> (paddr - start) % WORD == paddr - start;
    assert paddr < start ==> (paddr - start) % WORD == paddr - start + WORD;
    (paddr - start) % WORD / PAGE_SIZE
  }

  /** No number that wraps is met by a page at least as many pages above 0. */
  lemma NumberIs(start: Size, base: int, paddr: Size, j: nat)
    requires base <= paddr < base + PAGE_SIZE && PAGE_SIZE * j <= base
    requires start % PAGE_SIZE == 0 && base % PAGE_SIZE == 0
    ensures PageNumber(start, paddr) == j <==> base == start + PAGE_SIZE * j
    ensures paddr - paddr % PAGE_SIZE == base
  {
    var n := PageNumber(start, paddr);
  }

  /** At least `j` pages lie below frame `j`. */
  lemma FramesFarEnough(entries: seq<Entry>, j: nat)
    requires BootMap(entries) && j < |AllFrames(entries)|
    ensures StrictlyIncreasing(AllFrames(entries)) && PAGE_SIZE * j <= AllFrames(entries)[j]
    ensures AllFrames(entries)[j] % PAGE_SIZE == 0
  {
    var bs := UsableBlocks(entries);
    BasesFit(entries);
    FramesIncreasing(bs);
    FramesAbove(bs, 0);
    AlignedSteps(AllFrames(entries), j);
  }

  lemma {:induction false} AlignedSteps(s: seq<int>, j: nat)
    requires StrictlyIncreasing(s) && j < |s| && s[0] >= 0
    requires forall i :: 0 <= i < |s| ==> s[i] % PAGE_SIZE == 0
    ensures PAGE_SIZE * j <= s[j]
  {
    if j > 0 {
      AlignedSteps(s, j - 1);
      assert s[j - 1] < s[j];
    }
  }

  /** Where a usable entry stands among the usable regions. */
  lemma UsableAt(entries: seq<Entry>, i: nat)
    requires i < |entries| && entries[i].kind == USABLE
    ensures var p := |UsableBlocks(entries[..i])|;
            p < |UsableBlocks(entries)| && UsableBlocks(entries)[p] == Region(entries[i]) &&
            p + 1 == |UsableBlocks(entries[..i + 1])|
  {
    UsableNext(entries, i);
    UsablePrefix(entries, i + 1);
  }

  lemma UsablePlaces(entries: seq<Entry>, i: nat, g: nat)
    requires i < g <= |entries| && entries[i].kind == USABLE
    ensures |UsableBlocks(entries[..i])| < |UsableBlocks(entries[..g])|
  {
    UsableAt(entries[..g], i);
    assert entries[..g][..i] == entries[..i];
  }

  /** Of two usable entries of a boot map the later one lies higher. */
  lemma UsableOrder(entries: seq<Entry>, i: nat, g: nat)
    requires BootMap(entries) && i <= g < |entries| && entries[i].kind == USABLE && entries[g].kind == USABLE
    ensures entries[i].base % PAGE_SIZE == 0
    ensures i < g ==> entries[i].base < entries[g].base
  {
    UsableAt(entries, i);
    UsableAt(entries, g);
    if i < g {
      UsablePlaces(entries, i, g);
    }
  }

  /** With startOfRam initially 0: when it is the base of the first usable region after `done` entries. */
  lemma StartIsFirstBaseIff(entries: seq<Entry>, done: nat, f: nat)
    requires BootMap(entries) && FirstUsable(entries, f) && done <= |entries|
    ensures StartAddress(entries, done, 0) % PAGE_SIZE == 0
    ensures StartAddress(entries, done, 0) == entries[f].base <==>
            (f < done && f <= 255 && (f > 0 || !LaterUsable(entries, done))) ||
            ((done <= f || f > 255) && entries[f].base == 0)
  {
    StartOfRamIsFirstIff(entries, done, f);
    StartEntryUsable(entries, done);
    var s := StartEntry(entries, done);
    if s.Some? {
      assert f <= s.value;
      UsableOrder(entries, f, s.value);
      UsableOrder(entries, s.value, s.value);
    }
  }

  /**
   A map on which the numbers of the first usable region are wrong: both its regions are done, so
   startOfRam ends at the second, and all addresses of the first get a number far outside the map.
   */
  lemma FirstRegionMissed(slots: nat, paddr: Size)
    requires slots > 3 && 0x1000 <= paddr < 0x2000
    ensures var entries := [Entry(0x1000, 0x1000, USABLE), Entry(0x5000, 0x2000, USABLE)];
            BootMap(entries) && FirstUsable(entries, 0) && Region(entries[0]).Contains(paddr) &&
            StartAddress(entries, EntriesDone(entries, |entries|, slots), 0) == 0x5000 &&
            PageNumber(0x5000, paddr) == 0x10_0000_0000_0000 - 4
  {
    var first, second := Entry(0x1000, 0x1000, USABLE), Entry(0x5000, 0x2000, USABLE);
    TwoRegions(first, second);
    PageBasesAt(Region(first));
    PageBasesAt(Region(second));
  }

  lemma TwoRegions(first: Entry, second: Entry)
    requires first.kind == second.kind == USABLE
    ensures UsableBlocks([first, second]) == [Region(first), Region(second)]
    ensures FrameCount([first, second], 2) == |PageBases(Region(first))| + |PageBases(Region(second))|
    ensures StartEntry([first, second], 2) == Some(1)
  {
    var entries := [first, second];
    assert entries[..1] == [first] && [first][..0] == [];
    assert UsableBlocks([first]) == [Region(first)];
    assert FrameCount(entries, 1) == |PageBases(Region(first))|;
    assert InitialBlockIndex(entries, 1) == 0;
  }

  lemma PageIndex(start: int, len: int, paddr: int)
    requires 0 <= start <= paddr < start + len && start % PAGE_SIZE == 0
    ensures var j := (paddr - start) / PAGE_SIZE;
            0 <= j < (len + PAGE_SIZE - 1) / PAGE_SIZE && start + PAGE_SIZE * j == paddr - paddr % PAGE_SIZE
  {
  }

  /** Where the page of an address in the first usable region stands. */
  lemma FirstRegionFrame(entries: seq<Entry>, f: nat, paddr: Size)
    requires FirstUsable(entries, f) && entries[f].base % PAGE_SIZE == 0 && Region(entries[f]).Contains(paddr)
    ensures var j := (paddr - entries[f].base) / PAGE_SIZE;
            j < FrameCount(entries, f + 1) <= |AllFrames(entries)| && AllFrames(entries)[j] == paddr - paddr % PAGE_SIZE
  {
    NoneUsable(entries, f);
    FramesOfEntry(entries, f);
    PageBasesAt(Region(entries[f]));
    PageIndex(entries[f].base, entries[f].length, paddr);
    var mine := PageBases(Region(entries[f]));
    assert AllFrames(entries)[0..|mine|] == mine;
  }
}
