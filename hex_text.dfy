/**
 * Hexadecimal text as JavaScript produces it: `n.toString(16)` (lower-case
 * digits, no leading zeros), `toUpperCase()` and `padStart(width, '0')`,
 * together with the value of a hexadecimal digit string (what `parseInt(s, 16)`
 * returns for one), which is the partner every formatter is checked against.
 */
module HexText {
  import opened Base

  predicate IsLowerHexDigit(c: char) { '0' <= c <= '9' || 'a' <= c <= 'f' }

  predicate IsUpperHexDigit(c: char) { '0' <= c <= '9' || 'A' <= c <= 'F' }

  /** Every character of `s` is an upper-case hexadecimal digit. */
  predicate IsUpperHex(s: string) { forall i :: 0 <= i < |s| ==> IsUpperHexDigit(s[i]) }

  /** Every character of `s` is a lower-case hexadecimal digit. */
  predicate IsLowerHex(s: string) { forall i :: 0 <= i < |s| ==> IsLowerHexDigit(s[i]) }

  /** The digit `toString(16)` writes for `d`. */
  function DigitChar(d: nat): (c: char)
    requires d < 16
    ensures IsLowerHexDigit(c)
  {
    if d < 10 then ('0' as int + d) as char else ('a' as int + d - 10) as char
  }

  /** The value of one hexadecimal digit of either case; other characters count 0. */
  function DigitValue(c: char): nat {
    if '0' <= c <= '9' then c as int - '0' as int
    else if 'a' <= c <= 'f' then c as int - 'a' as int + 10
    else if 'A' <= c <= 'F' then c as int - 'A' as int + 10
    else 0
  }

  /** The number a string of hexadecimal digits denotes, most significant first. */
  function Value(s: string): nat {
    if s == [] then 0 else 16 * Value(s[..|s| - 1]) + DigitValue(s[|s| - 1])
  }

  /** `n.toString(16)`: the shortest lower-case digit string of `n`. */
  function ToHex(n: nat): (s: string)
    ensures 1 <= |s| && IsLowerHex(s)
  {
    if n < 16 then [DigitChar(n)] else ToHex(n / 16) + [DigitChar(n % 16)]
  }

  /** `String.prototype.toUpperCase` restricted to ASCII letters. */
  function UpperChar(c: char): char {
    if 'a' <= c <= 'z' then (c as int - 32) as char else c
  }

  function Upper(s: string): (r: string)
    ensures |r| == |s|
  {
    seq(|s|, i requires 0 <= i < |s| => UpperChar(s[i]))
  }

  /** `s.padStart(width, pad)` for a one-character pad. */
  function PadStart(s: string, width: nat, pad: char): (r: string)
    ensures |r| == Max(width, |s|)
  {
    if |s| >= width then s else seq(width - |s|, _ => pad) + s
  }

  /**
   * Padding keeps `s` whole at the end and puts only copies of `pad` in
   * front of it.
   */
  lemma PadStartKeeps(s: string, width: nat, pad: char)
    ensures var r := PadStart(s, width, pad);
      r[|r| - |s|..] == s && forall k :: 0 <= k < |r| - |s| ==> r[k] == pad
  {
  }

  function Pow16(k: nat): (p: nat)
    ensures p >= 1
  {
    if k == 0 then 1 else 16 * Pow16(k - 1)
  }

  /** `toString(16)` followed by the hexadecimal reading gives the number back. */
  lemma {:induction false} ValueToHex(n: nat)
    ensures Value(ToHex(n)) == n
  {
    if n >= 16 {
      var s := ToHex(n);
      assert s[..|s| - 1] == ToHex(n / 16);
      ValueToHex(n / 16);
    }
  }

  /** `toString(16)` writes no leading zero. */
  lemma {:induction false} ToHexNoLeadingZero(n: nat)
    requires n > 0
    ensures ToHex(n)[0] != '0'
  {
    if n >= 16 {
      ToHexNoLeadingZero(n / 16);
    }
  }

  /** A number below 16^k needs at most k digits. */
  lemma {:induction false} ToHexLength(n: nat, k: nat)
    requires 1 <= k && n < Pow16(k)
    ensures |ToHex(n)| <= k
  {
    if n >= 16 {
      assert k >= 2;
      ToHexLength(n / 16, k - 1);
    }
  }

  /** Upper-casing hexadecimal text keeps its value and makes every digit upper case. */
  lemma {:induction false} UpperHex(s: string)
    ensures Value(Upper(s)) == Value(s)
    ensures IsLowerHex(s) ==> IsUpperHex(Upper(s))
  {
    if s != [] {
      assert Upper(s)[..|s| - 1] == Upper(s[..|s| - 1]);
      UpperHex(s[..|s| - 1]);
    }
  }

  /** Leading zeros do not change the value of hexadecimal text. */
  lemma {:induction false} ValueZeroPrefix(z: string, s: string)
    requires forall i :: 0 <= i < |z| ==> z[i] == '0'
    ensures Value(z + s) == Value(s)
    decreases |s|
  {
    if s == [] {
      assert z + s == z;
      ValueAllZero(z);
    } else {
      assert (z + s)[..|z + s| - 1] == z + s[..|s| - 1];
      ValueZeroPrefix(z, s[..|s| - 1]);
    }
  }

  lemma {:induction false} ValueAllZero(z: string)
    requires forall i :: 0 <= i < |z| ==> z[i] == '0'
    ensures Value(z) == 0
  {
    if z != [] {
      ValueAllZero(z[..|z| - 1]);
    }
  }

  /** `PadStart(ToHex(n), width, '0')` denotes `n`, is made of lower-case digits,
      and carries no padding beyond `width`. */
  lemma PaddedHex(n: nat, width: nat)
    requires width >= 1
    ensures Value(PadStart(ToHex(n), width, '0')) == n
    ensures IsLowerHex(PadStart(ToHex(n), width, '0'))
    ensures |PadStart(ToHex(n), width, '0')| > width ==> PadStart(ToHex(n), width, '0')[0] != '0'
  {
    var s := ToHex(n);
    var r := PadStart(s, width, '0');
    ValueToHex(n);
    if |s| < width {
      ValueZeroPrefix(r[..width - |s|], s);
      assert r == r[..width - |s|] + s;
    }
    if |r| > width && n > 0 {
      ToHexNoLeadingZero(n);
    }
  }

  /**
   * One byte of the hex grid: `byte.toString(16).toUpperCase().padStart(2, '0')`.
   * It is exactly two upper-case digits that read back as the byte.
   */
  function ByteToken(b: Byte): (r: string)
    ensures |r| == 2 && IsUpperHex(r) && Value(r) == b
  {
    ToHexLength(b, 2);
    UpperHex(ToHex(b));
    ValueToHex(b);
    PaddedToken(Upper(ToHex(b)), 2);
    PadStart(Upper(ToHex(b)), 2, '0')
  }

  /** Zero padding keeps the value of hexadecimal text and adds only digits. */
  lemma PaddedToken(s: string, width: nat)
    ensures Value(PadStart(s, width, '0')) == Value(s)
    ensures IsUpperHex(s) ==> IsUpperHex(PadStart(s, width, '0'))
  {
    var r := PadStart(s, width, '0');
    if |s| < width {
      ValueZeroPrefix(r[..width - |s|], s);
      assert r == r[..width - |s|] + s;
    }
  }

  /** Numbers below 2^32 take at most 8 hexadecimal digits. */
  lemma ToHex32(v: nat)
    ensures v < 0x1_0000_0000 ==> |ToHex(v)| <= 8
  {
    if v < 0x1_0000_0000 {
      assert Pow16(8) == 0x1_0000_0000;
      ToHexLength(v, 8);
    }
  }

  /** One row label of the hex editor's gutter: `v.toString(16).padStart(8, '0').toUpperCase()`. */
  function Label(v: nat): string {
    Upper(PadStart(ToHex(v), 8, '0'))
  }

  /**
   * A gutter label reads back as `v`, is all upper-case digits, has at least 8
   * of them, exactly 8 while `v` fits in 32 bits, and is padded no further than 8.
   */
  lemma LabelSpec(v: nat)
    ensures Value(Label(v)) == v && IsUpperHex(Label(v))
    ensures |Label(v)| >= 8 && (v < 0x1_0000_0000 ==> |Label(v)| == 8)
    ensures |Label(v)| > 8 ==> Label(v)[0] != '0'
  {
    var p := PadStart(ToHex(v), 8, '0');
    PaddedHex(v, 8);
    UpperHex(p);
    ToHex32(v);
  }

  /** One row label of the earlier formatter: `v.toString(16).padStart(8, '0')`. */
  function LowerLabel(v: nat): string {
    PadStart(ToHex(v), 8, '0')
  }

  /**
   * The earlier formatter's label has the same value, width and padding as
   * `Label`, in lower-case digits, and upper-casing it gives `Label(v)`.
   */
  lemma LowerLabelSpec(v: nat)
    ensures Value(LowerLabel(v)) == v && IsLowerHex(LowerLabel(v))
    ensures |LowerLabel(v)| >= 8 && (v < 0x1_0000_0000 ==> |LowerLabel(v)| == 8)
    ensures |LowerLabel(v)| > 8 ==> LowerLabel(v)[0] != '0'
    ensures Upper(LowerLabel(v)) == Label(v)
  {
    PaddedHex(v, 8);
    ToHex32(v);
  }
}
