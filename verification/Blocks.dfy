/** Address ranges, how often a byte is covered by a list of them, and tilings. */
module Blocks {

  /** `len` bytes from `addr` on. */
  datatype Block = Block(addr: int, len: int) {
    function End(): int {
      addr + len
    }

    predicate Contains(x: int) {
      addr <= x < End()
    }

    predicate Inside(outer: Block) {
      outer.addr <= addr && End() <= outer.End()
    }

    predicate Apart(other: Block) {
      End() <= other.addr || other.End() <= addr
    }
  }

  /** How many blocks of `bs` cover byte `x`. */
  function Count(bs: seq<Block>, x: int): nat {
    if bs == [] then 0 else (if bs[0].Contains(x) then 1 else 0) + Count(bs[1..], x)
  }

  function Total(bs: seq<Block>): int {
    if bs == [] then 0 else bs[0].len + Total(bs[1..])
  }

  /** `pieces` cover every byte exactly as often as `whole` does, and have the same size in all. */
  ghost predicate Tiles(pieces: seq<Block>, whole: seq<Block>) {
    (forall x :: Count(pieces, x) == Count(whole, x)) && Total(pieces) == Total(whole)
  }

  /** In address order, non-empty and without overlap. */
  ghost predicate Ascending(bs: seq<Block>) {
    (forall i :: 0 <= i < |bs| ==> bs[i].len > 0) &&
    (forall i, j :: 0 <= i < j < |bs| ==> bs[i].End() <= bs[j].addr)
  }

  ghost predicate PairwiseApart(bs: seq<Block>) {
    forall i, j :: 0 <= i < j < |bs| ==> bs[i].Apart(bs[j])
  }

  /** `bs` with the blocks from `i` up to `j` replaced by `mid`. */
  function Splice(bs: seq<Block>, i: nat, j: nat, mid: seq<Block>): seq<Block>
    requires i <= j <= |bs|
  {
    bs[..i] + mid + bs[j..]
  }

  lemma {:induction false} CountConcat(a: seq<Block>, b: seq<Block>, x: int)
    ensures Count(a + b, x) == Count(a, x) + Count(b, x)
  {
    if a == [] {
      assert a + b == b;
    } else {
      assert (a + b)[1..] == a[1..] + b;
      CountConcat(a[1..], b, x);
    }
  }

  lemma {:induction false} TotalConcat(a: seq<Block>, b: seq<Block>)
    ensures Total(a + b) == Total(a) + Total(b)
  {
    if a == [] {
      assert a + b == b;
    } else {
      assert (a + b)[1..] == a[1..] + b;
      TotalConcat(a[1..], b);
    }
  }

  /** A splice exchanges the coverage and the size of what it takes out for those of what it puts in. */
  lemma {:induction false} SpliceEffect(bs: seq<Block>, i: nat, j: nat, mid: seq<Block>)
    requires i <= j <= |bs|
    ensures forall x :: Count(Splice(bs, i, j, mid), x) + Count(bs[i..j], x) == Count(bs, x) + Count(mid, x)
    ensures Total(Splice(bs, i, j, mid)) + Total(bs[i..j]) == Total(bs) + Total(mid)
  {
    assert bs == bs[..i] + bs[i..j] + bs[j..];
    forall x
      ensures Count(Splice(bs, i, j, mid), x) + Count(bs[i..j], x) == Count(bs, x) + Count(mid, x)
    {
      CountConcat(bs[..i] + mid, bs[j..], x);
      CountConcat(bs[..i], mid, x);
      CountConcat(bs[..i] + bs[i..j], bs[j..], x);
      CountConcat(bs[..i], bs[i..j], x);
    }
    TotalConcat(bs[..i] + mid, bs[j..]);
    TotalConcat(bs[..i], mid);
    TotalConcat(bs[..i] + bs[i..j], bs[j..]);
    TotalConcat(bs[..i], bs[i..j]);
  }

  lemma {:induction false} CountedOnce(bs: seq<Block>, i: nat, x: int)
    requires i < |bs| && bs[i].Contains(x)
    ensures Count(bs, x) >= 1
  {
    if i > 0 {
      CountedOnce(bs[1..], i - 1, x);
    }
  }

  lemma {:induction false} CountedTwice(bs: seq<Block>, i: nat, j: nat, x: int)
    requires i < j < |bs| && bs[i].Contains(x) && bs[j].Contains(x)
    ensures Count(bs, x) >= 2
  {
    if i == 0 {
      CountedOnce(bs[1..], j - 1, x);
    } else {
      CountedTwice(bs[1..], i - 1, j - 1, x);
    }
  }

  /** A covered byte lies in some block. */
  lemma {:induction false} CountWitness(bs: seq<Block>, x: int) returns (i: nat)
    requires Count(bs, x) >= 1
    ensures i < |bs| && bs[i].Contains(x)
  {
    if bs[0].Contains(x) {
      i := 0;
    } else {
      i := CountWitness(bs[1..], x);
      i := i + 1;
    }
  }

  lemma {:induction false} AscendingCoversOnce(bs: seq<Block>, x: int)
    requires Ascending(bs)
    ensures Count(bs, x) <= 1
  {
    if bs != [] {
      AscendingCoversOnce(bs[1..], x);
      if Count(bs[1..], x) >= 1 {
        var k := CountWitness(bs[1..], x);
        assert bs[0].End() <= bs[k + 1].addr;
      }
    }
  }

  ghost predicate Covered(bs: seq<Block>, x: int) {
    exists k :: 0 <= k < |bs| && bs[k].Contains(x)
  }

  lemma CoveredStep(bs: seq<Block>, x: int)
    requires bs != []
    ensures Covered(bs, x) <==> bs[0].Contains(x) || Covered(bs[1..], x)
  {
    if k :| 0 <= k < |bs| && bs[k].Contains(x) {
      assert k > 0 ==> bs[1..][k - 1].Contains(x);
    }
    if k :| 0 <= k < |bs[1..]| && bs[1..][k].Contains(x) {
      assert bs[k + 1].Contains(x);
    }
  }

  ghost function BytesOf(b: Block): set<int> {
    set x | b.addr <= x < b.End() && b.Contains(x)
  }

  /** The addresses that lie in some block. */
  ghost function Bytes(bs: seq<Block>): (bytes: set<int>)
    ensures forall x :: x in bytes <==> Covered(bs, x)
  {
    if bs == [] then {}
    else
      assert forall x :: Covered(bs, x) <==> bs[0].Contains(x) || Covered(bs[1..], x) by {
        forall x
          ensures Covered(bs, x) <==> bs[0].Contains(x) || Covered(bs[1..], x)
        {
          CoveredStep(bs, x);
        }
      }
      BytesOf(bs[0]) + Bytes(bs[1..])
  }

  lemma {:induction false} BlockSize(b: Block)
    requires b.len >= 0
    ensures |BytesOf(b)| == b.len
    decreases b.len
  {
    if b.len == 0 {
      assert BytesOf(b) == {};
    } else {
      var shorter := Block(b.addr, b.len - 1);
      BlockSize(shorter);
      assert BytesOf(b) == BytesOf(shorter) + {b.End() - 1};
    }
  }

  /** The total of disjoint blocks is the number of bytes in them. */
  lemma {:induction false} TotalIsByteCount(bs: seq<Block>)
    requires Ascending(bs)
    ensures Total(bs) == |Bytes(bs)|
  {
    if bs != [] {
      TotalIsByteCount(bs[1..]);
      BlockSize(bs[0]);
      forall x | x in BytesOf(bs[0])
        ensures x !in Bytes(bs[1..])
      {
        assert !Covered(bs[1..], x);
      }
      assert BytesOf(bs[0]) !! Bytes(bs[1..]);
    }
  }

  /** Blocks that cover no byte twice do not overlap. */
  lemma CoveredOnceApart(bs: seq<Block>)
    requires forall i :: 0 <= i < |bs| ==> bs[i].len > 0
    requires forall x :: Count(bs, x) <= 1
    ensures PairwiseApart(bs)
  {
    forall i, j | 0 <= i < j < |bs|
      ensures bs[i].Apart(bs[j])
    {
      if !bs[i].Apart(bs[j]) {
        var x := if bs[i].addr < bs[j].addr then bs[j].addr else bs[i].addr;
        CountedTwice(bs, i, j, x);
      }
    }
  }
}
