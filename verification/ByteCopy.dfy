/** memmove and memcpy of kernel/include/string.h, on ranges of one memory that may overlap. */
module ByteCopy {
  import opened Arithmetic

  type Byte = b: int | 0 <= b < 256

  ghost predicate Ranges(size: nat, dest: nat, src: nat, n: nat) {
    dest + n <= size && src + n <= size
  }

  /** The memory with the bytes of the source range in the destination range. */
  function Moved(m: seq<Byte>, dest: nat, src: nat, n: nat): seq<Byte>
    requires dest + n <= |m| && src + n <= |m|
  {
    m[..dest] + m[src..src + n] + m[dest + n..]
  }

  /** Byte `i` a forward copy delivers: from the start of the destination on it reads what it has written. */
  function CopiedByte(m: seq<Byte>, dest: nat, src: nat, i: nat): Byte
    requires src + i < |m|
    decreases i
  {
    if src < dest && dest - src <= i then CopiedByte(m, dest, src, i - (dest - src)) else m[src + i]
  }

  function Copied(m: seq<Byte>, dest: nat, src: nat, n: nat): seq<Byte>
    requires dest + n <= |m| && src + n <= |m|
  {
    m[..dest] + seq(n, i requires 0 <= i < n => CopiedByte(m, dest, src, i)) + m[dest + n..]
  }

  /** Where a forward copy takes byte `i` from: above the source it repeats what lies between the two starts. */
  function CopySource(dest: nat, src: nat, i: nat): nat {
    if src < dest then src + i % (dest - src) else src + i
  }

  lemma {:induction false} WindowByte(m: seq<Byte>, dest: nat, src: nat, i: nat, d: nat)
    requires src + i < |m| && src < dest && d == dest - src
    ensures i % d <= i && CopiedByte(m, dest, src, i) == m[src + i % d]
    decreases i
  {
    if d <= i {
      WindowByte(m, dest, src, i - d, d);
      SameRemainder(i, d);
    } else {
      QuotientUnique(i, d, 0, i);
    }
  }

  lemma CopiedByteFrom(m: seq<Byte>, dest: nat, src: nat, i: nat)
    requires src + i < |m|
    ensures CopySource(dest, src, i) <= src + i
    ensures CopiedByte(m, dest, src, i) == m[CopySource(dest, src, i)]
  {
    if src < dest {
      WindowByte(m, dest, src, i, dest - src);
    }
  }

  /** Lines 14-23: the forward copy, exactly, for every pair of ranges. */
  method Memcpy(mem: array<Byte>, dest: nat, src: nat, n: nat) returns (r: nat)
    requires Ranges(mem.Length, dest, src, n)
    modifies mem
    ensures mem[..] == Copied(old(mem[..]), dest, src, n) && r == dest
    ensures forall i :: 0 <= i < n ==>
              CopySource(dest, src, i) <= src + i && mem[dest..][i] == old(mem[..])[CopySource(dest, src, i)]
    ensures forall x :: 0 <= x < mem.Length && !(dest <= x < dest + n) ==> mem[x] == old(mem[x])
  {
    ghost var m := mem[..];
    var i := 0;
    while i < n
      invariant i <= n
      invariant forall x :: dest <= x < dest + i ==> mem[x] == CopiedByte(m, dest, src, x - dest)
      invariant forall x :: 0 <= x < mem.Length && !(dest <= x < dest + i) ==> mem[x] == m[x]
    {
      mem[dest + i] := mem[src + i];
      i := i + 1;
    }
    assert mem[..] == Copied(m, dest, src, n);
    forall i | 0 <= i < n
      ensures CopySource(dest, src, i) <= src + i && mem[dest + i] == m[CopySource(dest, src, i)]
    {
      CopiedByteFrom(m, dest, src, i);
    }
    return dest;
  }

  /** Lines 37-52: forward below the source, backward above it, nothing in place. */
  method Memmove(mem: array<Byte>, dest: nat, src: nat, n: nat) returns (r: nat)
    requires Ranges(mem.Length, dest, src, n)
    modifies mem
    ensures mem[..] == Moved(old(mem[..]), dest, src, n) && r == dest
    ensures mem[..][dest..dest + n] == old(mem[..])[src..src + n]
    ensures forall x :: 0 <= x < mem.Length && !(dest <= x < dest + n) ==> mem[x] == old(mem[x])
  {
    ghost var m := mem[..];
    if src > dest {
      var i := 0;
      while i < n
        invariant i <= n
        invariant forall x :: dest <= x < dest + i ==> mem[x] == m[x - dest + src]
        invariant forall x :: 0 <= x < mem.Length && !(dest <= x < dest + i) ==> mem[x] == m[x]
      {
        mem[dest + i] := mem[src + i];
        i := i + 1;
      }
    } else if src < dest {
      var i := n;
      while i > 0
        invariant 0 <= i <= n
        invariant forall x :: dest + i <= x < dest + n ==> mem[x] == m[x - dest + src]
        invariant forall x :: 0 <= x < mem.Length && !(dest + i <= x < dest + n) ==> mem[x] == m[x]
      {
        mem[dest + i - 1] := mem[src + i - 1];
        i := i - 1;
      }
    }
    MovedWhen(m, mem[..], dest, src, n);
    return dest;
  }

  lemma MovedWhen(m: seq<Byte>, m': seq<Byte>, dest: nat, src: nat, n: nat)
    requires Ranges(|m|, dest, src, n) && |m'| == |m|
    requires forall x :: dest <= x < dest + n ==> m'[x] == m[x - dest + src]
    requires forall x :: 0 <= x < |m| && !(dest <= x < dest + n) ==> m'[x] == m[x]
    ensures m' == Moved(m, dest, src, n) && m'[dest..dest + n] == m[src..src + n]
  {
  }

  ghost predicate RepeatsAt(m: seq<Byte>, x: nat, d: nat)
    requires x + d < |m|
  {
    m[x] == m[x + d]
  }

  /** `n` bytes from `src` on repeat themselves at distance `d`. */
  ghost predicate Repeats(m: seq<Byte>, src: nat, n: nat, d: nat)
    requires src + n <= |m|
  {
    forall x :: src <= x < src + n - d ==> RepeatsAt(m, x, d)
  }

  lemma {:induction false} RepeatedByte(m: seq<Byte>, dest: nat, src: nat, n: nat, i: nat)
    requires src < dest && src + n <= |m| && i < n && Repeats(m, src, n, dest - src)
    ensures CopiedByte(m, dest, src, i) == m[src + i]
    decreases i
  {
    var d := dest - src;
    if i >= d {
      RepeatedByte(m, dest, src, n, i - d);
      assert RepeatsAt(m, src + i - d, d);
    }
  }

  ghost predicate ByteMoved(m: seq<Byte>, dest: nat, src: nat, i: nat)
    requires src + i < |m|
  {
    CopiedByte(m, dest, src, i) == m[src + i]
  }

  /** The copied range agrees with the moved one byte by byte. */
  lemma CopiedIsMovedBytes(m: seq<Byte>, dest: nat, src: nat, n: nat)
    requires Ranges(|m|, dest, src, n)
    ensures Copied(m, dest, src, n) == Moved(m, dest, src, n) <==>
            forall i :: 0 <= i < n ==> ByteMoved(m, dest, src, i)
  {
    var c, v := Copied(m, dest, src, n), Moved(m, dest, src, n);
    forall i | 0 <= i < n
      ensures v[dest + i] == m[src + i] && (c[dest + i] == v[dest + i] <==> ByteMoved(m, dest, src, i))
    {
    }
    if forall i :: 0 <= i < n ==> ByteMoved(m, dest, src, i) {
      forall x | 0 <= x < |m|
        ensures c[x] == v[x]
      {
        if dest <= x < dest + n {
          assert ByteMoved(m, dest, src, x - dest);
        }
      }
      assert c == v;
    }
  }

  /**
   memcpy does what memmove does exactly when the destination does not begin inside the source
   behind its first byte, or the source repeats itself at the distance of the two.
   */
  lemma CopiedIsMovedIff(m: seq<Byte>, dest: nat, src: nat, n: nat)
    requires Ranges(|m|, dest, src, n)
    ensures Copied(m, dest, src, n) == Moved(m, dest, src, n) <==>
            (dest <= src || src + n <= dest || Repeats(m, src, n, dest - src))
  {
    CopiedIsMovedBytes(m, dest, src, n);
    if src < dest < src + n {
      var d := dest - src;
      if Repeats(m, src, n, d) {
        forall i | 0 <= i < n
          ensures ByteMoved(m, dest, src, i)
        {
          RepeatedByte(m, dest, src, n, i);
        }
      }
      if forall i :: 0 <= i < n ==> ByteMoved(m, dest, src, i) {
        forall x | src <= x < src + n - d
          ensures RepeatsAt(m, x, d)
        {
          assert ByteMoved(m, dest, src, x + d - src) && ByteMoved(m, dest, src, x - src);
        }
      }
    }
  }
}
