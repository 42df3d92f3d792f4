/** Integers as text: `itoa` of libc/stdio/stdio.cpp and `int_to_string` of src/utils.cpp. */
module Printing {
  import opened Machine
  import opened CString

  const MINUS: byte := 45

  type Base = b: int | b == 10 || b == 16 witness 10

  function DigitChar(d: nat): (c: byte)
    requires d < 16
    ensures c != 0 && c != MINUS
  {
    if d < 10 then 48 + d else 55 + d
  }

  /** The numeral of `n`, most significant digit first. */
  function Numeral(n: nat, base: Base): (s: seq<byte>)
    ensures s != [] && 0 !in s && MINUS !in s
  {
    if n < base then [DigitChar(n)] else Numeral(n / base, base) + [DigitChar(n % base)]
  }

  /** The text of an integer: a sign for negative ones. */
  function Printed(v: int, base: Base): seq<byte> {
    if v < 0 then [MINUS] + Numeral(-v, base) else Numeral(v, base)
  }

  // ---------------------------------------------------------------- reading back

  function DigitValue(c: byte): int {
    if c <= 57 then c - 48 else c - 55
  }

  function Value(s: seq<byte>, base: Base): int {
    if s == [] then 0 else Value(s[..|s| - 1], base) * base + DigitValue(s[|s| - 1])
  }

  function Parse(s: seq<byte>, base: Base): int {
    if s != [] && s[0] == MINUS then -Value(s[1..], base) else Value(s, base)
  }

  lemma {:induction false} ValueOfNumeral(n: nat, base: Base)
    ensures Value(Numeral(n, base), base) == n
    decreases n
  {
    var s := Numeral(n, base);
    if n < base {
      assert s[..0] == [];
    } else {
      ValueOfNumeral(n / base, base);
      assert s[..|s| - 1] == Numeral(n / base, base);
    }
  }

  /** Reading a printed integer gives it back. */
  lemma ParseOfPrinted(v: int, base: Base)
    ensures Parse(Printed(v, base), base) == v
  {
    if v < 0 {
      ValueOfNumeral(-v, base);
      assert Printed(v, base)[1..] == Numeral(-v, base);
    } else {
      ValueOfNumeral(v, base);
    }
  }

  // ---------------------------------------------------------------- the characters printed

  /** '0' to '9', and 'A' to 'F' in base 16. */
  predicate IsDigit(c: byte, base: Base) {
    48 <= c <= 57 || (base == 16 && 65 <= c <= 70)
  }

  /** A text of digits without leading zeros. */
  ghost predicate IsNumeral(s: seq<byte>, base: Base) {
    s != [] && (forall i :: 0 <= i < |s| ==> IsDigit(s[i], base)) && (|s| > 1 ==> s[0] != 48)
  }

  lemma {:induction false} NumeralIsOne(n: nat, base: Base)
    ensures IsNumeral(Numeral(n, base), base) && (n > 0 ==> Numeral(n, base)[0] != 48)
    decreases n
  {
    if n >= base { NumeralIsOne(n / base, base); }
  }

  /** The numeral is the only text of digits without leading zeros that reads as its number. */
  lemma {:induction false} NumeralUnique(s: seq<byte>, base: Base)
    requires IsNumeral(s, base)
    ensures Value(s, base) >= 0 && s == Numeral(Value(s, base), base)
    decreases |s|
  {
    var front, c := s[..|s| - 1], s[|s| - 1];
    assert IsDigit(c, base);
    assert DigitChar(DigitValue(c)) == c;
    if front == [] {
      assert Value(s, base) == DigitValue(c);
    } else {
      assert IsNumeral(front, base) && front[0] != 48;
      NumeralUnique(front, base);
      LeadingDigit(front, base);
      NumeralSnoc(front, c, Value(front, base), base);
    }
  }

  lemma NumeralSnoc(front: seq<byte>, c: byte, v: nat, base: Base)
    requires v > 0 && front == Numeral(v, base) && IsDigit(c, base)
    ensures DigitValue(c) >= 0 && front + [c] == Numeral(v * base + DigitValue(c), base)
  {
    assert DigitChar(DigitValue(c)) == c;
    Horner(v, DigitValue(c), base);
  }

  lemma Horner(v: nat, d: nat, base: Base)
    requires d < base && v > 0
    ensures (v * base + d) / base == v && (v * base + d) % base == d && v * base + d >= base
  {
    assert if base == 10 then (v * 10 + d) / 10 == v else (v * 16 + d) / 16 == v;
  }

  /** Without a leading zero the value is not 0. */
  lemma LeadingDigit(s: seq<byte>, base: Base)
    requires IsNumeral(s, base) && s[0] != 48 && Value(s, base) >= 0 && s == Numeral(Value(s, base), base)
    ensures Value(s, base) > 0
  {
  }

  /** The text of `v`: a minus sign before a negative number only, then its numeral. */
  ghost predicate Shows(s: seq<byte>, v: int, base: Base) {
    && Parse(s, base) == v
    && if v < 0 then s != [] && s[0] == 45 && IsNumeral(s[1..], base) else IsNumeral(s, base)
  }

  lemma PrintedShows(v: int, base: Base)
    ensures Shows(Printed(v, base), v, base)
  {
    ParseOfPrinted(v, base);
    NumeralIsOne(if v < 0 then -v else v, base);
    if v < 0 { assert Printed(v, base)[1..] == Numeral(-v, base); }
  }

  function Power(base: Base, k: nat): nat {
    if k == 0 then 1 else base * Power(base, k - 1)
  }

  lemma {:induction false} NumeralLength(n: nat, base: Base, k: nat)
    requires 0 < k && n < Power(base, k)
    ensures |Numeral(n, base)| <= k
    decreases k
  {
    if n >= base {
      assert Power(base, 1) == base;
      assert n / base < Power(base, k - 1);
      NumeralLength(n / base, base, k - 1);
    }
  }

  /** Every 32-bit value prints within 11 characters. */
  lemma PrintedLength(v: int, base: Base)
    requires -0x8000_0000 <= v < 0x8000_0000
    ensures |Printed(v, base)| <= 11
  {
    assert Power(base, 5) >= 100000;
    assert Power(base, 10) >= 10000000000;
    NumeralLength(if v < 0 then -v else v, base, 10);
  }

  // ---------------------------------------------------------------- the two printers

  function Reversed<T>(s: seq<T>): (r: seq<T>)
    ensures |r| == |s|
  {
    if s == [] then [] else [s[|s| - 1]] + Reversed(s[..|s| - 1])
  }

  lemma ReversedSnoc<T>(s: seq<T>, c: T)
    ensures Reversed(s + [c]) == [c] + Reversed(s)
  {
    assert (s + [c])[..|s|] == s;
  }

  lemma {:induction false} ReversedAt<T>(s: seq<T>, i: nat)
    requires i < |s|
    ensures Reversed(s)[i] == s[|s| - 1 - i]
  {
    if i > 0 { ReversedAt(s[..|s| - 1], i - 1); }
  }

  /** Digits still to be produced: none for 0. */
  function Pending(n: nat, base: Base): seq<byte> {
    if n == 0 then [] else Numeral(n, base)
  }

  /** Every numeral ends with the digit the loops produce first. */
  lemma NumeralSplit(n: nat, base: Base)
    ensures Numeral(n, base) == Pending(n / base, base) + [DigitChar(n % base)]
  {
  }

  /** One digit more: least significant first in the buffer, so reversed in the numeral. */
  lemma PendingStep(n: nat, base: Base, done: seq<byte>, done': seq<byte>)
    requires n > 0 && done' == done + [DigitChar(n % base)]
    ensures Pending(n, base) + Reversed(done) == Pending(n / base, base) + Reversed(done')
    ensures |Pending(n, base)| == |Pending(n / base, base)| + 1
  {
    NumeralSplit(n, base);
    ReversedSnoc(done, DigitChar(n % base));
  }

  /** `itoa`: digits into a temporary, least significant first, then copied backwards. */
  method Itoa(value: int, buffer: array<byte>, base: Base)
    requires -0x8000_0000 < value < 0x8000_0000 && (base == 16 ==> value >= 0)
    requires buffer.Length >= 32
    modifies buffer
    ensures IsString(buffer[..], 0) && Text(buffer[..], 0) == Printed(value, base)
    ensures Shows(Text(buffer[..], 0), value, base)
  {
    hide Numeral, Reversed, Text, IsString, Shows;
    PrintedLength(value, base);
    PrintedShows(value, base);
    var temp := new byte[32];
    var i := 0;
    var isNegative := false;
    var v := value;
    if base == 10 && v < 0 {
      isNegative := true;
      v := -v;
    }
    i := FillDigits(v, temp, base);
    if isNegative {
      ReversedSnoc(temp[..i], MINUS);
      temp[i] := MINUS;
      i := i + 1;
      assert temp[..i] == temp[..i - 1] + [MINUS];
    }
    CopyBackwards(temp, i, buffer);
  }

  /** The do-while loop of `itoa`. */
  method FillDigits(value: nat, temp: array<byte>, base: Base) returns (i: nat)
    requires temp.Length == 32 && |Numeral(value, base)| <= 11
    modifies temp
    ensures i == |Numeral(value, base)| && Reversed(temp[..i]) == Numeral(value, base)
  {
    hide Numeral, Reversed;
    temp[0] := DigitChar(value % base);
    i := 1;
    NumeralSplit(value, base);
    var v: nat := value / base;
    ReversedSnoc([], temp[0]);
    assert temp[..1] == [] + [temp[0]];
    while v > 0
      invariant 0 < i <= 11 && i + |Pending(v, base)| == |Numeral(value, base)|
      invariant Pending(v, base) + Reversed(temp[..i]) == Numeral(value, base)
      decreases v
    {
      ghost var before := temp[..i];
      PendingStep(v, base, before, before + [DigitChar(v % base)]);
      temp[i] := DigitChar(v % base);
      i := i + 1;
      assert temp[..i] == before + [DigitChar(v % base)];
      v := v / base;
    }
  }

  method CopyBackwards(temp: array<byte>, n: nat, buffer: array<byte>)
    requires temp != buffer && n <= temp.Length && n < buffer.Length && 0 !in Reversed(temp[..n])
    modifies buffer
    ensures IsString(buffer[..], 0) && Text(buffer[..], 0) == Reversed(temp[..n])
  {
    var i: nat, j: nat := n, 0;
    while i > 0
      invariant i + j == n
      invariant buffer[..j] + Reversed(temp[..i]) == Reversed(temp[..n])
      decreases i
    {
      ghost var before := buffer[..j];
      i := i - 1;
      ReversedSnoc(temp[..i], temp[i]);
      assert temp[..i + 1] == temp[..i] + [temp[i]];
      buffer[j] := temp[i];
      j := j + 1;
      assert buffer[..j] == before + [temp[i]];
    }
    buffer[j] := 0;
    TextIs(buffer[..], n, Reversed(temp[..n]));
  }

  lemma TextIs(m: seq<byte>, n: nat, s: seq<byte>)
    requires n < |m| && m[n] == 0 && m[..n] == s && 0 !in s
    ensures IsString(m, 0) && Text(m, 0) == s
  {
    assert forall i :: 0 <= i < n ==> m[i] == s[i];
    StrEndIs(m, 0, n);
  }

  /** `int_to_string` writes the digits into the buffer itself and reverses them in place. It gives
      the same text as `itoa` for every number but 0, which it prints as the empty string. */
  method IntToString(num: int, buffer: array<byte>)
    requires -0x8000_0000 < num < 0x8000_0000
    requires buffer.Length >= 12
    modifies buffer
    ensures IsString(buffer[..], 0)
    ensures Text(buffer[..], 0) == if num == 0 then [] else Printed(num, 10)
    ensures Text(buffer[..], 0) == Printed(num, 10) <==> num != 0
    ensures if num == 0 then Text(buffer[..], 0) == [] else Shows(Text(buffer[..], 0), num, 10)
  {
    hide Numeral, Reversed, Text, IsString, Shows;
    PrintedLength(num, 10);
    PrintedShows(num, 10);
    var isNegative := false;
    var n := num;
    if n < 0 {
      isNegative := true;
      n := -n;
    }
    var i := DigitsInto(n, buffer);
    if isNegative {
      ReversedSnoc(buffer[..i], MINUS);
      buffer[i] := MINUS;
      i := i + 1;
      assert buffer[..i] == buffer[..i - 1] + [MINUS];
    }
    buffer[i] := 0;
    ReverseText(buffer, i);
  }

  /** The digit loop of `int_to_string`: no digit at all for 0. */
  method DigitsInto(num: nat, buffer: array<byte>) returns (i: nat)
    requires |Pending(num, 10)| < buffer.Length
    modifies buffer
    ensures i == |Pending(num, 10)| && Reversed(buffer[..i]) == Pending(num, 10)
  {
    i := 0;
    var n := num;
    while n != 0
      invariant i + |Pending(n, 10)| == |Pending(num, 10)|
      invariant Pending(n, 10) + Reversed(buffer[..i]) == Pending(num, 10)
      decreases n
    {
      ghost var before := buffer[..i];
      PendingStep(n, 10, before, before + [DigitChar(n % 10)]);
      buffer[i] := DigitChar(n % 10);
      i := i + 1;
      assert buffer[..i] == before + [DigitChar(n % 10)];
      n := n / 10;
    }
  }

  /** The second half of `int_to_string`: measure the text and swap it end for end. */
  method ReverseText(buffer: array<byte>, ghost n: nat)
    requires n < buffer.Length && buffer[n] == 0 && 0 !in Reversed(buffer[..n])
    modifies buffer
    ensures IsString(buffer[..], 0) && Text(buffer[..], 0) == Reversed(old(buffer[..n]))
  {
    ghost var s := buffer[..n];
    NoNul(s);
    var len := 0;
    while buffer[len] != 0
      invariant len <= n && forall k :: 0 <= k < n ==> buffer[k] == s[k]
      decreases n - len
    {
      len := len + 1;
    }
    assert len == n;
    for j := 0 to len / 2
      invariant buffer[len] == 0
      invariant forall k :: 0 <= k < j ==> buffer[k] == s[len - 1 - k] && buffer[len - 1 - k] == s[k]
      invariant forall k :: j <= k < len - j ==> buffer[k] == s[k]
    {
      buffer[j], buffer[len - j - 1] := buffer[len - j - 1], buffer[j];
    }
    forall k | 0 <= k < n ensures buffer[k] == Reversed(s)[k] {
      ReversedAt(s, k);
    }
    TextIs(buffer[..], n, Reversed(s));
  }

  lemma NoNul(s: seq<byte>)
    requires 0 !in Reversed(s)
    ensures 0 !in s
  {
    forall i | 0 <= i < |s| ensures s[i] != 0 {
      ReversedAt(s, |s| - 1 - i);
    }
  }
}
