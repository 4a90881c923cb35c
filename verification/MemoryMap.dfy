/** The boot loader's memory map and the sums taken over it (kernel/src/memory/memory.cpp, pages.hpp). */
module MemoryMap {
  import opened Blocks
  import opened FreeList

  /** LIMINE_MEMMAP_USABLE */
  const USABLE: nat := 0

  const PAGE_SIZE: nat := 0x1000

  datatype Entry = Entry(base: Size, length: Size, kind: nat)

  /** The usable entries, in map order, as ranges of physical addresses. */
  function UsableBlocks(entries: seq<Entry>): seq<Block> {
    if entries == [] then []
    else
      var e := entries[|entries| - 1];
      UsableBlocks(entries[..|entries| - 1]) + if e.kind == USABLE then [Block(e.base, e.length)] else []
  }

  /**
   What the Limine boot protocol promises of usable entries: page-aligned, in ascending order
   and disjoint. They end a page before the 64-bit limit at the latest.
   */
  ghost predicate BootMap(entries: seq<Entry>) {
    var bs := UsableBlocks(entries);
    Ascending(bs) &&
    forall k :: 0 <= k < |bs| ==>
      bs[k].addr % PAGE_SIZE == 0 && bs[k].len % PAGE_SIZE == 0 && bs[k].End() + PAGE_SIZE <= WORD
  }

  function FullPages(bs: seq<Block>): int {
    if bs == [] then 0 else bs[0].len / PAGE_SIZE + FullPages(bs[1..])
  }

  /** The ranges seen through the direct map at `offset`. */
  function Shift(bs: seq<Block>, offset: int): seq<Block> {
    if bs == [] then [] else [Block(bs[0].addr + offset, bs[0].len)] + Shift(bs[1..], offset)
  }

  lemma {:induction false} ShiftAt(bs: seq<Block>, offset: int)
    ensures |Shift(bs, offset)| == |bs| && Total(Shift(bs, offset)) == Total(bs)
    ensures forall k :: 0 <= k < |bs| ==> Shift(bs, offset)[k] == Block(bs[k].addr + offset, bs[k].len)
  {
    if bs != [] {
      ShiftAt(bs[1..], offset);
    }
  }

  lemma {:induction false} UsablePrefix(entries: seq<Entry>, j: nat)
    requires j <= |entries|
    ensures UsableBlocks(entries[..j]) <= UsableBlocks(entries)
    decreases |entries|
  {
    if j < |entries| {
      UsablePrefix(entries[..|entries| - 1], j);
      assert entries[..|entries| - 1][..j] == entries[..j];
    } else {
      assert entries[..j] == entries;
    }
  }

  lemma UsableNext(entries: seq<Entry>, j: nat)
    requires j < |entries|
    ensures UsableBlocks(entries[..j + 1]) ==
            if entries[j].kind == USABLE
            then UsableBlocks(entries[..j]) + [Block(entries[j].base, entries[j].length)]
            else UsableBlocks(entries[..j])
  {
    assert entries[..j + 1][..j] == entries[..j];
  }

  lemma {:induction false} FullPagesConcat(a: seq<Block>, b: seq<Block>)
    ensures FullPages(a + b) == FullPages(a) + FullPages(b)
  {
    if a == [] {
      assert a + b == b;
    } else {
      assert (a + b)[1..] == a[1..] + b;
      FullPagesConcat(a[1..], b);
    }
  }

  lemma WrapAdd(a: int, b: int)
    ensures (a % WORD + b) % WORD == (a + b) % WORD
  {
    var q, r := (a % WORD + b) / WORD, (a + b) / WORD;
    assert a == a / WORD * WORD + a % WORD;
    assert (a / WORD + q - r) * WORD == (a + b) % WORD - (a % WORD + b) % WORD;
  }

  /** The sum of the usable lengths, in 64-bit arithmetic. */
  method CalculateAvailableMemory(entries: seq<Entry>) returns (available: Size)
    ensures available == Total(UsableBlocks(entries)) % WORD
  {
    available := 0;
    for i := 0 to |entries|
      invariant available == Total(UsableBlocks(entries[..i])) % WORD
    {
      UsableNext(entries, i);
      if entries[i].kind == USABLE {
        var b := Block(entries[i].base, entries[i].length);
        TotalConcat(UsableBlocks(entries[..i]), [b]);
        assert Total([b]) == entries[i].length;
        WrapAdd(Total(UsableBlocks(entries[..i])), b.len);
        available := (available + entries[i].length) % WORD;
      }
    }
    assert entries[..|entries|] == entries;
  }

  /** The number of whole pages in the usable entries. */
  method GetBootPages(entries: seq<Entry>) returns (bootpages: Size)
    ensures bootpages == FullPages(UsableBlocks(entries)) % WORD
  {
    bootpages := 0;
    for i := 0 to |entries|
      invariant bootpages == FullPages(UsableBlocks(entries[..i])) % WORD
    {
      UsableNext(entries, i);
      if entries[i].kind == USABLE {
        var b := Block(entries[i].base, entries[i].length);
        FullPagesConcat(UsableBlocks(entries[..i]), [b]);
        assert FullPages([b]) == entries[i].length / PAGE_SIZE;
        WrapAdd(FullPages(UsableBlocks(entries[..i])), b.len / PAGE_SIZE);
        bootpages := (bootpages + entries[i].length / PAGE_SIZE) % WORD;
      }
    }
    assert entries[..|entries|] == entries;
  }

  /**
   Whole pages never exceed the memory they are cut from, fall short of it by less than a page for
   each block, and make it up exactly on aligned lengths.
   */
  lemma {:induction false} PagesTimesSize(bs: seq<Block>)
    requires forall k :: 0 <= k < |bs| ==> bs[k].len >= 0
    ensures 0 <= FullPages(bs) * PAGE_SIZE <= Total(bs) <= FullPages(bs) * PAGE_SIZE + (PAGE_SIZE - 1) * |bs|
    ensures FullPages(bs) * PAGE_SIZE == Total(bs) <==> forall k :: 0 <= k < |bs| ==> bs[k].len % PAGE_SIZE == 0
  {
    if bs != [] {
      PagesTimesSize(bs[1..]);
      assert forall k :: 0 <= k < |bs[1..]| ==> bs[1..][k] == bs[k + 1];
      assert (forall k :: 0 <= k < |bs| ==> bs[k].len % PAGE_SIZE == 0) ==>
             forall k :: 0 <= k < |bs[1..]| ==> bs[1..][k].len % PAGE_SIZE == 0;
      if forall k :: 0 <= k < |bs[1..]| ==> bs[1..][k].len % PAGE_SIZE == 0 {
        forall k | 0 <= k < |bs|
          ensures k > 0 ==> bs[k].len % PAGE_SIZE == 0
        {
          assert k > 0 ==> bs[k] == bs[1..][k - 1];
        }
      }
    }
  }

  lemma {:induction false} AscendingTotal(bs: seq<Block>)
    requires Ascending(bs) && forall k :: 0 <= k < |bs| ==> 0 <= bs[k].addr && bs[k].End() < WORD
    ensures 0 <= Total(bs) < WORD
    ensures bs != [] ==> bs[0].addr + Total(bs) <= bs[|bs| - 1].End()
  {
    if bs != [] {
      AscendingTotal(bs[1..]);
    }
  }

  /** On a boot map neither sum wraps, and the pages found at boot are exactly the available memory. */
  lemma BootPagesAreAvailableMemory(entries: seq<Entry>)
    requires BootMap(entries)
    ensures var bs := UsableBlocks(entries);
            Total(bs) % WORD == Total(bs) && FullPages(bs) % WORD == FullPages(bs) &&
            FullPages(bs) * PAGE_SIZE == Total(bs)
  {
    var bs := UsableBlocks(entries);
    BasesFit(entries);
    AscendingTotal(bs);
    PagesTimesSize(bs);
  }

  /** On a boot map the available memory is the number of addresses in usable entries. */
  lemma AvailableMemoryIsByteCount(entries: seq<Entry>)
    requires BootMap(entries)
    ensures Total(UsableBlocks(entries)) % WORD == |Bytes(UsableBlocks(entries))|
  {
    BootPagesAreAvailableMemory(entries);
    TotalIsByteCount(UsableBlocks(entries));
  }

  lemma {:induction false} BasesFit(entries: seq<Entry>)
    ensures forall k :: 0 <= k < |UsableBlocks(entries)| ==>
              UsableBlocks(entries)[k].addr >= 0 && UsableBlocks(entries)[k].len >= 0
  {
    if entries != [] {
      BasesFit(entries[..|entries| - 1]);
    }
  }
}
