/** The hexadecimal byte parser (`xtoi`) that reads the forced MBR type of a
    partition selection such as `2+af`. */
module Hex {
  import opened Types

  /** Status codes of `xtoi`. */
  const XTOI_OK: nat := 0
  const XTOI_EMPTY: nat := 1
  const XTOI_TOO_LONG: nat := 2
  const XTOI_ILLEGAL: nat := 4

  /** `isxdigit` in the C locale. */
  predicate IsHexDigit(c: char) {
    ('0' <= c <= '9') || ('a' <= c <= 'f') || ('A' <= c <= 'F')
  }

  predicate AllHex(s: string) {
    forall i :: 0 <= i < |s| ==> IsHexDigit(s[i])
  }

  /** The value of one hex digit, either case. */
  function DigitValue(c: char): (v: nat)
    requires IsHexDigit(c)
    ensures v < 16
  {
    if c >= 'a' then c as int - 'a' as int + 10
    else if c >= 'A' then c as int - 'A' as int + 10
    else c as int - '0' as int
  }

  function Pow16(n: nat): (p: nat)
    ensures p >= 1
  {
    if n == 0 then 1 else 16 * Pow16(n - 1)
  }

  /** The value of a string of hex digits, most significant digit first. */
  function HexValue(s: string): nat
    requires AllHex(s)
  {
    if s == [] then 0 else 16 * HexValue(s[..|s| - 1]) + DigitValue(s[|s| - 1])
  }

  /** The index of the right-most character that is not a hex digit. */
  function LastNonHex(s: string): (k: nat)
    requires !AllHex(s)
    ensures k < |s| && !IsHexDigit(s[k])
    ensures AllHex(s[k + 1..])
  {
    if !IsHexDigit(s[|s| - 1]) then |s| - 1
    else
      var k := LastNonHex(s[..|s| - 1]);
      assert s[k + 1..] == s[..|s| - 1][k + 1..] + [s[|s| - 1]];
      k
  }

  /** What `xtoi` makes of a string: a status code and, on success, a byte. */
  datatype HexResult = HexOk(value: byte) | HexErr(code: nat)

  /** The hex parser as a function of its input (the specification that the
      method `Xtoi` is proved against). */
  function ParseHex(xs: string): HexResult
  {
    if |xs| == 0 then HexErr(XTOI_EMPTY)
    else if |xs| > 2 then HexErr(XTOI_TOO_LONG)
    else if !AllHex(xs) then HexErr(XTOI_ILLEGAL)
    else
      HexValueBound(xs);
      HexOk(HexValue(xs))
  }

  lemma {:induction false} HexValueBound(s: string)
    requires AllHex(s)
    ensures HexValue(s) < Pow16(|s|)
  {
    if s != [] {
      HexValueBound(s[..|s| - 1]);
    }
  }

  /** Peeling off the leading digit: the step the right-to-left loop of
      `xtoi` takes with its factor `fact`. */
  lemma {:induction false} HexValueCons(c: char, t: string)
    requires IsHexDigit(c) && AllHex(t)
    ensures AllHex([c] + t)
    ensures HexValue([c] + t) == DigitValue(c) * Pow16(|t|) + HexValue(t)
  {
    var s := [c] + t;
    AllHexCons(c, t);
    if t != [] {
      var u := t[..|t| - 1];
      assert s[..|s| - 1] == [c] + u;
      assert s[|s| - 1] == t[|t| - 1];
      HexValueCons(c, u);
      ShiftDigit(DigitValue(c), Pow16(|u|), HexValue(u), DigitValue(t[|t| - 1]));
    } else {
      assert s[..|s| - 1] == [];
    }
  }

  lemma AllHexCons(c: char, t: string)
    requires IsHexDigit(c) && AllHex(t)
    ensures AllHex([c] + t)
  {
    var s := [c] + t;
    forall i | 0 <= i < |s| ensures IsHexDigit(s[i]) {
      if i > 0 { assert s[i] == t[i - 1]; }
    }
  }

  lemma ShiftDigit(d: int, p: int, h: int, e: int)
    ensures 16 * (d * p + h) + e == d * (16 * p) + (16 * h + e)
  {
  }

  /** `xtoi`: parse a 1-2 digit hexadecimal byte. `result0` is the value
      `*result` holds on entry; the loop accumulates from the last digit
      towards the first, so an illegal digit leaves the value of the digits
      to its right in `result`. */
  method Xtoi(xs: string, result0: byte) returns (status: nat, result: byte)
    ensures status == XTOI_EMPTY <==> |xs| == 0
    ensures status == XTOI_TOO_LONG <==> |xs| > 2
    ensures status == XTOI_ILLEGAL <==> 0 < |xs| <= 2 && !AllHex(xs)
    ensures status == XTOI_OK <==> 0 < |xs| <= 2 && AllHex(xs)
    ensures status == XTOI_OK ==> result == HexValue(xs)
    ensures status == XTOI_ILLEGAL ==> result == HexValue(xs[LastNonHex(xs) + 1..])
    ensures status == XTOI_EMPTY || status == XTOI_TOO_LONG ==> result == result0
    ensures ParseHex(xs) == if status == XTOI_OK then HexOk(result) else HexErr(status)
  {
    var szlen := |xs|;
    result := result0;
    if szlen > 0 {
      if szlen > 2 {
        XtoiExit(xs, result0, XTOI_TOO_LONG, result);
        return XTOI_TOO_LONG, result;
      }
      result := 0;
      var fact: nat := 1;
      var i: int := szlen - 1;
      while i >= 0
        invariant -1 <= i < szlen
        invariant forall k :: i < k < szlen ==> IsHexDigit(xs[k])
        invariant result == HexValue(xs[i + 1..])
        invariant fact == Pow16(szlen - 1 - i)
      {
        SuffixAllHex(xs, i + 1);
        if IsHexDigit(xs[i]) {
          var xv := DigitValue(xs[i]);
          XtoiStep(xs, i, result, fact);
          result := result + xv * fact;
          fact := fact * 16;
        } else {
          LastNonHexUnique(xs, i);
          XtoiExit(xs, result0, XTOI_ILLEGAL, result);
          return XTOI_ILLEGAL, result;
        }
        i := i - 1;
      }
      assert xs[0..] == xs;
      XtoiExit(xs, result0, XTOI_OK, result);
      return XTOI_OK, result;
    }
    XtoiExit(xs, result0, XTOI_EMPTY, result);
    return XTOI_EMPTY, result;
  }

  /** Digits at every index from `j` on make `s[j..]` all digits. */
  lemma SuffixAllHex(s: string, j: nat)
    requires j <= |s| && forall k :: j <= k < |s| ==> IsHexDigit(s[k])
    ensures AllHex(s[j..])
  {
  }

  /** An exit of `Xtoi` that agrees with `ParseHex` and leaves `result` as
      the loop does meets every postcondition of `Xtoi`: the case split on
      the status code, done once for all four `return`s. */
  lemma XtoiExit(xs: string, result0: byte, status: nat, result: byte)
    requires ParseHex(xs) == if status == XTOI_OK then HexOk(result) else HexErr(status)
    requires status == XTOI_ILLEGAL ==> !AllHex(xs) && result == HexValue(xs[LastNonHex(xs) + 1..])
    requires status == XTOI_EMPTY || status == XTOI_TOO_LONG ==> result == result0
    ensures status == XTOI_EMPTY <==> |xs| == 0
    ensures status == XTOI_TOO_LONG <==> |xs| > 2
    ensures status == XTOI_ILLEGAL <==> 0 < |xs| <= 2 && !AllHex(xs)
    ensures status == XTOI_OK <==> 0 < |xs| <= 2 && AllHex(xs)
    ensures status == XTOI_OK ==> result == HexValue(xs)
    ensures status == XTOI_ILLEGAL ==> result == HexValue(xs[LastNonHex(xs) + 1..])
    ensures status == XTOI_EMPTY || status == XTOI_TOO_LONG ==> result == result0
  {
  }

  /** One turn of the loop of `Xtoi`: adding the digit at `i`, scaled by
      its place value `fact`, gives the value of the digits from `i` on,
      which still fits a byte, and the next place value is `16 * fact`. */
  lemma XtoiStep(xs: string, i: nat, result: nat, fact: nat)
    requires |xs| <= 2 && i < |xs| && IsHexDigit(xs[i]) && AllHex(xs[i + 1..])
    requires result == HexValue(xs[i + 1..]) && fact == Pow16(|xs| - 1 - i)
    ensures AllHex(xs[i..])
    ensures result + DigitValue(xs[i]) * fact == HexValue(xs[i..]) < 256
    ensures fact * 16 == Pow16(|xs| - i)
  {
    assert xs[i..] == [xs[i]] + xs[i + 1..];
    HexValueCons(xs[i], xs[i + 1..]);
    HexValueBound(xs[i..]);
    assert Pow16(0) == 1 && Pow16(1) == 16 && Pow16(2) == 256;
  }

  /** The right-most non-digit is the one with only digits after it. */
  lemma LastNonHexUnique(s: string, i: nat)
    requires i < |s| && !IsHexDigit(s[i]) && AllHex(s[i + 1..])
    ensures !AllHex(s) && LastNonHex(s) == i
  {
    var k := LastNonHex(s);
  }

  /** A byte rendered as two lower-case hex digits, as the proposed table
      prints a type (`%02x`). */
  function HexDigitChar(d: nat): (c: char)
    requires d < 16
    ensures IsHexDigit(c) && DigitValue(c) == d
  {
    if d < 10 then ('0' as int + d) as char else ('a' as int + d - 10) as char
  }

  function ByteToHex(b: byte): (s: string)
    ensures |s| == 2
  {
    [HexDigitChar(b / 16), HexDigitChar(b % 16)]
  }

  /** Every byte a user can read off the printed table can be typed back as
      a forced type: the parser inverts the two-digit rendering. */
  lemma ParseHexInvertsByteToHex(b: byte)
    ensures ParseHex(ByteToHex(b)) == HexOk(b)
  {
    var s := ByteToHex(b);
    assert AllHex(s);
    assert s[..1] == [s[0]];
    assert s[..1][..0] == [];
    assert HexValue(s[..1]) == b / 16;
  }

  /** The parser's documented examples. */
  lemma ParseHexExamples()
    ensures ParseHex("") == HexErr(XTOI_EMPTY)
    ensures ParseHex("1af") == HexErr(XTOI_TOO_LONG)
    ensures ParseHex("gg") == HexErr(XTOI_ILLEGAL)
    ensures ParseHex("1f") == HexOk(0x1F)
    ensures ParseHex("A") == HexOk(0x0A)
    ensures ParseHex("af") == HexOk(0xAF)
  {
    assert !IsHexDigit("gg"[0]);
    assert "1f"[..1] == "1" && "1"[..0] == [];
    assert "af"[..1] == "a" && "a"[..0] == [];
    assert "A"[..0] == [];
  }
}
