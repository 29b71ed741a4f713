/** The behaviour of the java.lang and java.util pieces the certificate client
    leans on: 32-bit int arithmetic, truncating division, decimal printing,
    String.format's "%02d", ASCII case conversion, exceptions and ArrayList. */
module JavaLang {
  import opened Wrappers

  /** A Java byte, kept as its bit pattern; `b & 0xFF` is `b as int`. */
  type Byte = bv8

  const INT_MIN: int := -0x8000_0000
  const INT_MAX: int := 0x7FFF_FFFF

  /** The values of a Java int. */
  type Int32 = x: int | -0x8000_0000 <= x < 0x8000_0000

  /** The exceptions the modelled code can throw or catch. */
  datatype JavaException =
    | NullPointer                      // a null reference was dereferenced
    | IllegalArgument(message: string) // thrown explicitly or by Random.nextInt
    | StringIndexOutOfBounds           // String.substring with a bad range
    | ContractFailure                  // any failure of a call into the ledger

  /** A java.util.ArrayList: its contents, updated in place. */
  class ArrayList<T> {
    var items: seq<T>

    constructor (items: seq<T>)
      ensures this.items == items
    {
      this.items := items;
    }
  }

  /** System.arraycopy from a source array, here read as a sequence, into dest. */
  method ArrayCopy<T>(src: seq<T>, srcPos: nat, dest: array<T>, destPos: nat, length: nat)
    requires srcPos + length <= |src| && destPos + length <= dest.Length
    modifies dest
    ensures dest[..] == old(dest[..destPos]) + src[srcPos .. srcPos + length]
                        + old(dest[destPos + length..])
  {
    forall t | 0 <= t < length {
      dest[destPos + t] := src[srcPos + t];
    }
    assert dest[..] == old(dest[..destPos]) + src[srcPos .. srcPos + length]
                       + old(dest[destPos + length..]);
  }

  //==========================================================================
  // Integer arithmetic
  //==========================================================================

  /** Java int arithmetic: x reduced modulo 2^32 into the int range. */
  function WrapInt32(x: int): (r: Int32)
    ensures (x - r) % 0x1_0000_0000 == 0
    ensures INT_MIN <= x <= INT_MAX ==> r == x
  {
    var m := x % 0x1_0000_0000;
    if m < 0x8000_0000 then m else m - 0x1_0000_0000
  }

  /** Java's `/` on int and long for a positive divisor: rounds toward zero. */
  function Quot(a: int, b: int): (q: int)
    requires b > 0
    ensures 0 <= a ==> 0 <= q && q * b <= a < q * b + b
    ensures a < 0 ==> q <= 0 && q * b - b < a <= q * b
  {
    if a >= 0 then a / b else -((-a) / b)
  }

  /** Java's `%` on int and long for a positive divisor: takes the sign of a. */
  function Rem(a: int, b: int): (r: int)
    requires b > 0
    ensures a == Quot(a, b) * b + r
    ensures 0 <= a ==> 0 <= r < b
    ensures a < 0 ==> -b < r <= 0
  {
    a - Quot(a, b) * b
  }

  //==========================================================================
  // Decimal printing, as string concatenation and String.format print ints
  //==========================================================================

  const DIGITS: string := "0123456789"

  predicate IsDigit(c: char) {
    '0' <= c <= '9'
  }

  predicate AllDigits(s: string) {
    forall i :: 0 <= i < |s| ==> IsDigit(s[i])
  }

  /** The decimal digits of n, most significant first, without leading zeros. */
  function NatToString(n: nat): (s: string)
    ensures 1 <= |s| && AllDigits(s)
    ensures |s| > 1 ==> s[0] != '0'
  {
    if n < 10 then [DIGITS[n]] else NatToString(n / 10) + [DIGITS[n % 10]]
  }

  /** The value of a string of decimal digits. */
  function DigitsValue(s: string): nat
    requires AllDigits(s)
  {
    if s == [] then 0
    else DigitsValue(s[..|s| - 1]) * 10 + (s[|s| - 1] as int - '0' as int)
  }

  /** Integer.toString: an optional minus sign followed by the digits. */
  function IntToString(n: int): (s: string)
    ensures 1 <= |s|
    ensures n < 0 <==> s[0] == '-'
  {
    if n < 0 then "-" + NatToString(-n) else NatToString(n)
  }

  /** Reads back what IntToString prints (Integer.parseInt on such strings). */
  function ParseInt(s: string): int
    requires s != [] && (s[0] == '-' ==> AllDigits(s[1..])) && (s[0] != '-' ==> AllDigits(s))
  {
    if s[0] == '-' then -(DigitsValue(s[1..]) as int) else DigitsValue(s)
  }

  lemma {:induction false} NatToStringRoundTrip(n: nat)
    ensures DigitsValue(NatToString(n)) == n
    decreases n
  {
    if n >= 10 {
      var p := NatToString(n / 10);
      var s := p + [DIGITS[n % 10]];
      assert s[..|s| - 1] == p;
      NatToStringRoundTrip(n / 10);
    }
  }

  /** Printing an int is injective: the printed text determines the int. */
  lemma IntToStringRoundTrip(n: int)
    ensures var s := IntToString(n);
            (s[0] == '-' ==> AllDigits(s[1..])) && (s[0] != '-' ==> AllDigits(s))
            && ParseInt(s) == n
  {
    if n < 0 {
      assert IntToString(n)[1..] == NatToString(-n);
      NatToStringRoundTrip(-n);
    } else {
      NatToStringRoundTrip(n);
    }
  }

  /** A printed int holds only digits and a leading minus sign. */
  lemma IntToStringAlphabet(n: int)
    ensures forall c :: c in IntToString(n) ==> IsDigit(c) || c == '-'
  {
  }

  /** Two texts that agree and each start with a field free of the delimiter d,
      followed by d, agree on that field: d-separated fields can be read back. */
  lemma PrefixBeforeDelimiter(x: string, rx: string, y: string, ry: string, d: char)
    requires d !in x && d !in y
    requires |rx| > 0 && rx[0] == d && |ry| > 0 && ry[0] == d
    requires x + rx == y + ry
    ensures x == y && rx == ry
  {
    assert (x + rx)[|x|] == d && (y + ry)[|y|] == d;
    assert |x| == |y|;
    assert x == (x + rx)[..|x|];
    assert y == (y + ry)[..|y|];
    assert rx == (x + rx)[|x|..];
    assert ry == (y + ry)[|y|..];
  }

  /** String.format("%02d", n): zero-padded to at least two characters. */
  function Pad2(n: int): (s: string)
    ensures 2 <= |s|
  {
    if 0 <= n < 10 then "0" + NatToString(n) else IntToString(n)
  }

  /** A field in [0, 100) prints as exactly two digits that read back as it. */
  lemma Pad2TwoDigits(n: int)
    requires 0 <= n < 100
    ensures var s := Pad2(n); |s| == 2 && AllDigits(s) && DigitsValue(s) == n
  {
    var s := Pad2(n);
    if n < 10 {
      assert s == ['0', DIGITS[n]];
      assert s[..1] == ['0'];
    } else {
      assert NatToString(n / 10) == [DIGITS[n / 10]];
      assert s == [DIGITS[n / 10], DIGITS[n % 10]];
      assert s[..1] == [DIGITS[n / 10]] && s[..1][..0] == [];
      assert DigitsValue(s[..1]) == n / 10;
    }
  }

  /** String.substring(begin, end): the characters in [begin, end), or
      StringIndexOutOfBoundsException when the range is not inside the string. */
  function Substring(s: string, begin: int, end: int): (r: Result<string, JavaException>)
    ensures r.Success? <==> 0 <= begin <= end <= |s|
    ensures r.Success? ==> |r.value| == end - begin
                           && forall i :: 0 <= i < |r.value| ==> r.value[i] == s[begin + i]
    ensures r.Failure? ==> r.error == StringIndexOutOfBounds
  {
    if 0 <= begin <= end <= |s| then Success(s[begin..end]) else Failure(StringIndexOutOfBounds)
  }

  //==========================================================================
  // Case conversion, restricted to ASCII letters
  //==========================================================================

  predicate IsLower(c: char) {
    'a' <= c <= 'z'
  }

  predicate IsUpper(c: char) {
    'A' <= c <= 'Z'
  }

  function UpperChar(c: char): char {
    if IsLower(c) then (c as int - 32) as char else c
  }

  function LowerChar(c: char): char {
    if IsUpper(c) then (c as int + 32) as char else c
  }

  /** String.toUpperCase on ASCII text. */
  function ToUpperCase(s: string): (r: string)
    ensures |r| == |s|
    ensures forall i :: 0 <= i < |r| ==> !IsLower(r[i]) && LowerChar(r[i]) == LowerChar(s[i])
  {
    seq(|s|, i requires 0 <= i < |s| => UpperChar(s[i]))
  }

  /** String.toLowerCase on ASCII text. */
  function ToLowerCase(s: string): (r: string)
    ensures |r| == |s|
    ensures forall i :: 0 <= i < |r| ==> !IsUpper(r[i]) && UpperChar(r[i]) == UpperChar(s[i])
  {
    seq(|s|, i requires 0 <= i < |s| => LowerChar(s[i]))
  }

  /** Normalising twice is normalising once, so stored and searched names agree. */
  lemma CaseConversionIdempotent(s: string)
    ensures ToUpperCase(ToUpperCase(s)) == ToUpperCase(s)
    ensures ToLowerCase(ToLowerCase(s)) == ToLowerCase(s)
  {
  }
}
