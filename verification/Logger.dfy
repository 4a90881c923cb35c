/** The number printers of kernel/include/logger.hpp: digits into a buffer, then out backwards. */
module Logger {
  import opened Arithmetic

  const DECIMAL_BUFFER: nat := 30
  const HEX_BUFFER: nat := 20
  const BIN_BUFFER: nat := 20
  const INT_BUFFER: nat := 100

  type Word64 = x: int | 0 <= x < 0x1_0000_0000_0000_0000
  type Int32 = x: int | -0x8000_0000 <= x < 0x8000_0000

  /** The digits of `x`, most significant first; none for zero. */
  function Digits(x: nat, base: nat): seq<nat>
    requires base >= 2
  {
    if x == 0 then [] else Digits(x / base, base) + [x % base]
  }

  function Value(digits: seq<nat>, base: nat): nat {
    if digits == [] then 0 else Value(digits[..|digits| - 1], base) * base + digits[|digits| - 1]
  }

  /** The character of a digit: '0' and up, and from ten on 'A' and up. */
  function Glyph(digit: nat): (g: int)
    ensures digit < 16 ==> g == "0123456789ABCDEF"[digit] as int
  {
    if digit < 10 then digit + 48 else digit + 55
  }

  function Glyphs(digits: seq<nat>): seq<int> {
    seq(|digits|, i requires 0 <= i < |digits| => Glyph(digits[i]))
  }

  /** What a printer sends out for `x`. */
  function Printed(x: nat, base: nat): seq<int>
    requires base >= 2
  {
    if x == 0 then [48] else Glyphs(Digits(x, base))
  }

  // ----- numerals, read byte by byte -----

  const DIGIT_CHARS := "0123456789ABCDEF"

  /** The place of a byte among the digit characters from `i` on; 16 for any other byte. */
  function PlaceFrom(byte: int, i: nat): (d: nat)
    requires i <= 16
    ensures i <= d <= 16 && (d < 16 ==> DIGIT_CHARS[d] as int == byte)
    decreases 16 - i
  {
    if i == 16 || DIGIT_CHARS[i] as int == byte then i else PlaceFrom(byte, i + 1)
  }

  /** The number that a row of digit characters stands for. */
  function ReadBack(bytes: seq<int>, base: nat): nat {
    if bytes == [] then 0
    else ReadBack(bytes[..|bytes| - 1], base) * base + PlaceFrom(bytes[|bytes| - 1], 0)
  }

  /** The bytes are digits in the base, stand for `x`, and begin with '0' only if that is all. */
  ghost predicate Numeral(bytes: seq<int>, x: int, base: nat) {
    bytes != [] && (forall i :: 0 <= i < |bytes| ==> PlaceFrom(bytes[i], 0) < base) &&
    ReadBack(bytes, base) == x && (bytes[0] == '0' as int ==> |bytes| == 1)
  }

  function Pow(base: nat, e: nat): nat {
    if e == 0 then 1 else base * Pow(base, e - 1)
  }

  // ----- laws -----

  lemma Remainder(x: nat, base: nat)
    requires base >= 2
    ensures x == x / base * base + x % base && 0 <= x % base < base
    ensures x > 0 ==> 0 <= x / base < x
    ensures x / base == 0 ==> x % base == x
  {
  }

  /** The digits evaluate back to the number, each is a digit, and none in front is zero. */
  lemma {:induction false} DigitsEvaluate(x: nat, base: nat)
    requires base >= 2
    ensures Value(Digits(x, base), base) == x
    ensures forall i :: 0 <= i < |Digits(x, base)| ==> Digits(x, base)[i] < base
    ensures x > 0 ==> Digits(x, base) != [] && Digits(x, base)[0] != 0
    decreases x
  {
    if x > 0 {
      Remainder(x, base);
      DigitsEvaluate(x / base, base);
      ValueAppend(Digits(x / base, base), x % base, base);
    }
  }

  lemma ValueAppend(digits: seq<nat>, d: nat, base: nat)
    ensures Value(digits + [d], base) == Value(digits, base) * base + d
  {
    assert (digits + [d])[..|digits|] == digits;
  }

  lemma {:induction false} DigitsFit(x: nat, base: nat, n: nat)
    requires base >= 2
    ensures |Digits(x, base)| <= n <==> x < Pow(base, n)
    decreases n
  {
    if n == 0 {
      assert x > 0 ==> |Digits(x, base)| >= 1;
    } else if x == 0 {
      PowPositive(base, n);
    } else {
      DigitsFit(x / base, base, n - 1);
      assert |Digits(x, base)| == |Digits(x / base, base)| + 1;
      QuotientBound(x, base, Pow(base, n - 1));
    }
  }

  lemma {:induction false} PowPositive(base: nat, n: nat)
    requires base > 0
    ensures Pow(base, n) > 0
  {
    if n > 0 {
      PowPositive(base, n - 1);
    }
  }

  lemma QuotientBound(x: nat, base: nat, p: nat)
    requires base > 0
    ensures x / base < p <==> x < base * p
  {
    var q, r := x / base, x % base;
    assert x == base * q + r;
    if q < p {
      assert base * (q + 1) <= base * p;
    } else {
      assert base * p <= base * q;
    }
  }

  lemma GlyphsEqual(a: seq<nat>, b: seq<nat>)
    requires Glyphs(a) == Glyphs(b)
    ensures a == b
  {
    assert |Glyphs(a)| == |Glyphs(b)|;
    forall i | 0 <= i < |a|
      ensures a[i] == b[i]
    {
      assert Glyphs(a)[i] == Glyphs(b)[i];
    }
  }

  lemma PrintedFirst(x: nat, base: nat)
    requires base >= 2 && x > 0
    ensures Printed(x, base) != [] && Printed(x, base)[0] != 48
  {
    DigitsEvaluate(x, base);
    assert Printed(x, base)[0] == Glyph(Digits(x, base)[0]);
  }

  lemma {:induction false} PlaceOfGlyph(d: nat, i: nat)
    requires i <= d < 16
    ensures PlaceFrom(Glyph(d), i) == d
    decreases d - i
  {
    if i < d {
      assert DIGIT_CHARS[i] as int != Glyph(d);
      PlaceOfGlyph(d, i + 1);
    }
  }

  lemma {:induction false} GlyphsReadBack(digits: seq<nat>, base: nat)
    requires base <= 16 && forall i :: 0 <= i < |digits| ==> digits[i] < base
    ensures ReadBack(Glyphs(digits), base) == Value(digits, base)
  {
    if digits != [] {
      var front, d := digits[..|digits| - 1], digits[|digits| - 1];
      assert Glyphs(digits)[..|digits| - 1] == Glyphs(front);
      GlyphsReadBack(front, base);
      PlaceOfGlyph(d, 0);
    }
  }

  lemma ZeroReadsBack(base: nat)
    ensures ReadBack([48], base) == 0
  {
    assert [48][..0] == [];
    PlaceOfGlyph(0, 0);
  }

  /** What is printed for `x` is its numeral in that base. */
  lemma PrintedIsNumeral(x: nat, base: nat)
    requires 2 <= base <= 16
    ensures Numeral(Printed(x, base), x, base)
  {
    var bytes, digits := Printed(x, base), Digits(x, base);
    if x == 0 {
      ZeroReadsBack(base);
      PlaceOfGlyph(0, 0);
    } else {
      DigitsEvaluate(x, base);
      GlyphsReadBack(digits, base);
      PrintedFirst(x, base);
      forall i | 0 <= i < |bytes|
        ensures PlaceFrom(bytes[i], 0) < base
      {
        PlaceOfGlyph(digits[i], 0);
      }
    }
  }

  lemma DigitsAppend(v: nat, d: nat, base: nat, x: nat)
    requires base >= 2 && d < base && x == v * base + d && (v > 0 || d > 0)
    ensures Digits(x, base) == Digits(v, base) + [d]
  {
    LessProduct(0, 0, v, base);
    QuotientUnique(x, base, v, d);
  }

  lemma GlyphOfPlace(byte: int)
    requires PlaceFrom(byte, 0) < 16
    ensures Glyph(PlaceFrom(byte, 0)) == byte
  {
  }

  function Places(bytes: seq<int>): seq<nat> {
    seq(|bytes|, i requires 0 <= i < |bytes| => PlaceFrom(bytes[i], 0))
  }

  lemma {:induction false} PlacesReadBack(bytes: seq<int>, base: nat)
    requires forall i :: 0 <= i < |bytes| ==> PlaceFrom(bytes[i], 0) < 16
    ensures ReadBack(bytes, base) == Value(Places(bytes), base)
  {
    if bytes != [] {
      var front := bytes[..|bytes| - 1];
      PlacesReadBack(front, base);
      assert Places(bytes)[..|bytes| - 1] == Places(front);
    }
  }

  lemma GlyphsOfPlaces(bytes: seq<int>)
    requires forall i :: 0 <= i < |bytes| ==> PlaceFrom(bytes[i], 0) < 16
    ensures Glyphs(Places(bytes)) == bytes
  {
    forall i | 0 <= i < |bytes|
      ensures Glyphs(Places(bytes))[i] == bytes[i]
    {
      GlyphOfPlace(bytes[i]);
    }
  }

  /** Digits without a leading zero are the digits of their value. */
  lemma {:induction false} DigitsOfValue(digits: seq<nat>, base: nat)
    requires base >= 2 && (forall i :: 0 <= i < |digits| ==> digits[i] < base) && (digits != [] ==> digits[0] != 0)
    ensures Digits(Value(digits, base), base) == digits
  {
    if digits != [] {
      var front, d := digits[..|digits| - 1], digits[|digits| - 1];
      DigitsOfValue(front, base);
      assert Value(front, base) == 0 ==> front == [];
      DigitsAppend(Value(front, base), d, base, Value(digits, base));
    }
  }

  /** The bytes printed for `x` are the numeral of `x` in that base, and the only one. */
  lemma PrintedIsNumeralIff(bytes: seq<int>, x: nat, base: nat)
    requires 2 <= base <= 16
    ensures bytes == Printed(x, base) <==> Numeral(bytes, x, base)
  {
    PrintedIsNumeral(x, base);
    if Numeral(bytes, x, base) {
      if bytes[0] == '0' as int {
        assert bytes == [48];
        ZeroReadsBack(base);
      } else {
        PlacesReadBack(bytes, base);
        GlyphsOfPlaces(bytes);
        GlyphOfPlace(bytes[0]);
        DigitsOfValue(Places(bytes), base);
      }
    }
  }

  /** Different numbers print differently. */
  lemma PrintedInjective(x: nat, y: nat, base: nat)
    requires base >= 2 && Printed(x, base) == Printed(y, base)
    ensures x == y
  {
    if x == 0 || y == 0 {
      if x > 0 {
        PrintedFirst(x, base);
      }
      if y > 0 {
        PrintedFirst(y, base);
      }
    } else {
      GlyphsEqual(Digits(x, base), Digits(y, base));
      SameDigits(x, y, base);
    }
  }

  lemma SameDigits(x: nat, y: nat, base: nat)
    requires base >= 2 && Digits(x, base) == Digits(y, base)
    ensures x == y
  {
    DigitsEvaluate(x, base);
    DigitsEvaluate(y, base);
  }

  /** What `log(int)` sends out: nothing at all for a negative number. */
  function PrintedInt(x: Int32): seq<int> {
    if x < 0 then [] else Printed(x, 10)
  }

  /** Signed numbers print differently exactly unless both are negative. */
  lemma PrintedIntDiffersIff(x: Int32, y: Int32)
    requires x != y
    ensures PrintedInt(x) != PrintedInt(y) <==> (x >= 0 || y >= 0)
  {
    if x >= 0 && y >= 0 {
      if PrintedInt(x) == PrintedInt(y) {
        PrintedInjective(x, y, 10);
      }
    } else if x >= 0 {
      DigitsEvaluate(x, 10);
    } else if y >= 0 {
      DigitsEvaluate(y, 10);
    }
  }

  lemma Powers()
    ensures Pow(10, 20) >= 0x1_0000_0000_0000_0000 && Pow(16, 16) == 0x1_0000_0000_0000_0000
    ensures Pow(2, 20) == 0x10_0000 && Pow(10, 10) >= 0x8000_0000
  {
    assert Pow(10, 5) == 100000;
    assert Pow(10, 10) == 10000000000;
    assert Pow(10, 15) == 1000000000000000;
    assert Pow(10, 20) == 100000000000000000000;
    assert Pow(16, 4) == 0x1_0000;
    assert Pow(16, 8) == 0x1_0000_0000;
    assert Pow(16, 12) == 0x1_0000_0000_0000;
    assert Pow(2, 5) == 32;
    assert Pow(2, 10) == 1024;
    assert Pow(2, 15) == 32768;
  }

  /** A 64-bit number has at most 20 decimal and at most 16 hexadecimal digits; 20 binary ones reach to 2^20. */
  lemma WordDigits(x: Word64)
    ensures |Digits(x, 10)| <= 20 && |Digits(x, 16)| <= 16
    ensures |Digits(x, 2)| <= BIN_BUFFER <==> x < 0x10_0000
  {
    Powers();
    DigitsFit(x, 10, 20);
    DigitsFit(x, 16, 16);
    DigitsFit(x, 2, 20);
  }

  lemma LastDigit(x: nat, base: nat, all: seq<nat>, index: nat)
    requires base >= 2 && x > 0 && index <= |all| && Digits(x, base) == all[..|all| - index]
    ensures index < |all| && x % base == all[|all| - 1 - index]
    ensures x / base < x && Digits(x / base, base) == all[..|all| - 1 - index]
  {
    Remainder(x, base);
    var before, after := Digits(x, base), Digits(x / base, base);
    assert before == after + [x % base];
    assert before[..|before| - 1] == after;
    assert all[..|all| - index][..|all| - index - 1] == all[..|all| - 1 - index];
  }

  class Logger {
    /** The bytes sent to the port so far. */
    var port: seq<int>

    constructor ()
      ensures port == []
    {
      port := [];
    }

    /** The loop of every printer: digits of `x` from the last one on. False where it would leave the buffer. */
    method FillBuffer(buffer: array<int>, x0: nat, base: nat) returns (index: nat, ok: bool)
      requires 2 <= base
      modifies buffer
      ensures ok <==> |Digits(x0, base)| <= buffer.Length
      ensures ok ==> Reversed(buffer, index, Digits(x0, base))
    {
      ghost var all := Digits(x0, base);
      var x: nat := x0;
      index := 0;
      while x > 0
        invariant index <= |all| && index <= buffer.Length
        invariant Digits(x, base) == all[..|all| - index]
        invariant forall i :: 0 <= i < index ==> buffer[i] == Glyph(all[|all| - 1 - i])
        decreases x
      {
        var digit: nat;
        digit, x := NextDigit(x, base, all, index);
        if index == buffer.Length {
          return index, false;
        }
        buffer[index] := if digit < 10 then digit + 48 else digit + 55;
        index := index + 1;
      }
      assert all[..|all| - index] == [];
      return index, true;
    }

    /** The last digit of `x`, digit `index` of `all` from behind, and the number in front of it. */
    static method NextDigit(x: nat, base: nat, ghost all: seq<nat>, ghost index: nat) returns (digit: nat, rest: nat)
      requires base >= 2 && x > 0 && index <= |all| && Digits(x, base) == all[..|all| - index]
      ensures rest < x && index < |all|
      ensures digit == all[|all| - 1 - index] && Digits(rest, base) == all[..|all| - 1 - index]
    {
      Remainder(x, base);
      LastDigit(x, base, all, index);
      digit := x % base;
      rest := x / base;
    }

    /** The buffer holds the given digits, last one first. */
    ghost predicate Reversed(buffer: array<int>, index: nat, digits: seq<nat>)
      reads buffer
    {
      index == |digits| && index <= buffer.Length &&
      forall i :: 0 <= i < index ==> buffer[i] == Glyph(digits[index - 1 - i])
    }

    /** The loop that empties the buffer backwards. */
    method Emit(buffer: array<int>, index: nat, ghost digits: seq<nat>)
      requires Reversed(buffer, index, digits)
      modifies this
      ensures |port| == |old(port)| + index && port[..|old(port)|] == old(port)
      ensures forall i :: 0 <= i < index ==> port[|old(port)|..][i] == buffer[index - 1 - i]
      ensures port == old(port) + Glyphs(digits)
    {
      var i: int := index - 1;
      ghost var sent: nat := 0;
      while i >= 0
        invariant -1 <= i < index && sent == index - 1 - i
        invariant port == old(port) + Glyphs(digits)[..sent]
        decreases i
      {
        assert Glyphs(digits)[..sent + 1] == Glyphs(digits)[..sent] + [Glyph(digits[sent])];
        port := port + [buffer[i]];
        i := i - 1;
        sent := sent + 1;
      }
      assert Glyphs(digits)[..sent] == Glyphs(digits);
    }

    /** Prints `x` in the given base through a buffer of the given size; false, and nothing out, if it does not fit. */
    method Print(x: nat, base: nat, size: nat) returns (ok: bool)
      requires base >= 2
      modifies this
      ensures ok <==> |Digits(x, base)| <= size
      ensures port == if ok then old(port) + Printed(x, base) else old(port)
    {
      if x == 0 {
        port := port + [48];
        return true;
      }
      var buffer := new int[size](_ => 0);
      var index;
      index, ok := FillBuffer(buffer, x, base);
      if ok {
        Emit(buffer, index, Digits(x, base));
      }
    }

    /** Lines 25-40. The loop does not start for a negative number. */
    method LogInt(x: Int32)
      modifies this
      ensures port == old(port) + PrintedInt(x)
      ensures old(port) <= port
      ensures if x < 0 then port == old(port) else Numeral(port[|old(port)|..], x, 10)
    {
      if x >= 0 {
        PrintedIsNumeral(x, 10);
        Powers();
        DigitsFit(x, 10, 10);
        var ok := Print(x, 10, INT_BUFFER);
      }
    }

    /** Lines 42-59, for the widest type it is used at. */
    method LogUnsigned(x: Word64)
      modifies this
      ensures port == old(port) + Printed(x, 10)
      ensures old(port) <= port && Numeral(port[|old(port)|..], x, 10)
    {
      PrintedIsNumeral(x, 10);
      WordDigits(x);
      var ok := Print(x, 10, DECIMAL_BUFFER);
    }

    /** Lines 61-82. */
    method LogHex(x: Word64)
      modifies this
      ensures port == old(port) + Printed(x, 16)
      ensures old(port) <= port && Numeral(port[|old(port)|..], x, 16)
    {
      PrintedIsNumeral(x, 16);
      WordDigits(x);
      var ok := Print(x, 16, HEX_BUFFER);
    }

    /** Lines 85-106. False is a write past the end of the buffer. */
    method LogBin(x: Word64) returns (ok: bool)
      modifies this
      ensures ok <==> x < 0x10_0000
      ensures port == if ok then old(port) + Printed(x, 2) else old(port)
      ensures old(port) <= port && (ok ==> Numeral(port[|old(port)|..], x, 2))
    {
      PrintedIsNumeral(x, 2);
      WordDigits(x);
      ok := Print(x, 2, BIN_BUFFER);
    }
  }
}
