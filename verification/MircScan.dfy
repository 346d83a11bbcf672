/** The colour-parameter scanners: how many bytes after a 0x03 or 0x04 control
    byte belong to the colour and are therefore not text. */
module MircScan {
  import opened Bytes

  const COMMA: byte := 44

  predicate IsDecimal(c: byte) {
    48 <= c <= 57
  }

  predicate IsHex(c: byte) {
    IsDecimal(c) || 97 <= c <= 102 || 65 <= c <= 70
  }

  /** The digits a colour is written in: decimal after 0x03, hexadecimal after 0x04. */
  predicate IsDigit(hex: bool, c: byte) {
    if hex then IsHex(c) else IsDecimal(c)
  }

  /** The bytes of `s` from `lo` up to `hi` are all digits. */
  ghost predicate AllDigits(hex: bool, s: seq<byte>, lo: nat, hi: nat)
    requires lo <= hi <= |s|
  {
    forall i :: lo <= i < hi ==> IsDigit(hex, s[i])
  }

  /** The first `m` bytes of `s` are a foreground of `a` digits, optionally followed by a
      comma and a background. */
  ghost predicate IsColourWith(hex: bool, k: nat, s: seq<byte>, m: nat, a: nat)
    requires m <= |s|
  {
    && 1 <= a <= k
    && a <= m
    && AllDigits(hex, s, 0, a)
    && (m == a || (s[a] == COMMA && 1 <= m - a - 1 <= k && AllDigits(hex, s, a + 1, m)))
  }

  /** The colour grammar: one to `k` digits, optionally a comma and one to `k` digits. */
  ghost predicate IsColour(hex: bool, k: nat, s: seq<byte>, m: nat)
    requires m <= |s|
  {
    exists a: nat :: IsColourWith(hex, k, s, m, a)
  }

  /** `n` bytes of `rest` are a colour and no more bytes of it would be; 0 when it starts with none. */
  ghost predicate LongestColour(hex: bool, k: nat, rest: seq<byte>, n: nat) {
    && n <= |rest|
    && (n == 0 || IsColour(hex, k, rest, n))
    && forall m: nat :: m <= |rest| && IsColour(hex, k, rest, m) ==> m <= n
  }

  /** The greedy run of at most `k` digits of `rest` that starts at `from` ends at `to`. */
  ghost predicate DigitRun(hex: bool, k: nat, rest: seq<byte>, from: nat, to: nat) {
    && from <= to <= |rest|
    && to - from <= k
    && AllDigits(hex, rest, from, to)
    && (to - from < k && to < |rest| ==> !IsDigit(hex, rest[to]))
  }

  /** What the two scanners compute, told by where their greedy runs stop. */
  ghost predicate Scanned(hex: bool, k: nat, rest: seq<byte>, fg: nat, bg: nat, n: nat) {
    && DigitRun(hex, k, rest, 0, fg)
    && (if fg == 0 then n == 0
        else if fg < |rest| && rest[fg] == COMMA then
          DigitRun(hex, k, rest, fg + 1, bg) && n == (if bg == fg + 1 then fg else bg)
        else n == fg)
  }

  lemma ScannedIsLongest(hex: bool, k: nat, rest: seq<byte>, fg: nat, bg: nat, n: nat)
    requires 0 < k
    requires Scanned(hex, k, rest, fg, bg, n)
    ensures LongestColour(hex, k, rest, n)
  {
    if n != 0 {
      assert IsColourWith(hex, k, rest, n, fg);
    }
    forall m: nat | m <= |rest| && IsColour(hex, k, rest, m)
      ensures m <= n
    {
      var a: nat :| IsColourWith(hex, k, rest, m, a);
      assert a <= fg;
      assert m != a ==> a == fg && m <= bg;
    }
  }

  const DECIMAL_DIGITS: nat := 2
  const HEX_DIGITS: nat := 6

  ghost function LongestUpTo(hex: bool, k: nat, rest: seq<byte>, m: nat): (n: nat)
    requires m <= |rest|
    ensures n <= m && (n == 0 || IsColour(hex, k, rest, n))
    ensures forall j: nat :: j <= m && IsColour(hex, k, rest, j) ==> j <= n
  {
    if m == 0 || IsColour(hex, k, rest, m) then m else LongestUpTo(hex, k, rest, m - 1)
  }

  /** The length of the longest colour `rest` starts with, 0 if there is none. */
  ghost function ColourLen(hex: bool, rest: seq<byte>): (n: nat)
    ensures LongestColour(hex, if hex then HEX_DIGITS else DECIMAL_DIGITS, rest, n)
  {
    LongestUpTo(hex, if hex then HEX_DIGITS else DECIMAL_DIGITS, rest, |rest|)
  }

  method MircColorLen(rest: seq<byte>) returns (n: nat)
    ensures n == ColourLen(false, rest)
  {
    n := 0;
    var digits := 0;
    while n < |rest| && digits < 2 && IsDecimal(rest[n])
      invariant n == digits <= 2 && n <= |rest|
      invariant AllDigits(false, rest, 0, n)
    {
      n := n + 1;
      digits := digits + 1;
    }
    ghost var fg, end := n, 0;
    if digits == 0 {
      ScannedIsLongest(false, 2, rest, fg, end, 0);
      return 0;
    }
    if n < |rest| && rest[n] == COMMA {
      var m := n + 1;
      var bg := 0;
      while m < |rest| && bg < 2 && IsDecimal(rest[m])
        invariant m == n + 1 + bg && bg <= 2 && m <= |rest|
        invariant AllDigits(false, rest, n + 1, m)
      {
        m := m + 1;
        bg := bg + 1;
      }
      end := m;
      if bg > 0 {
        n := m;
      }
    }
    ScannedIsLongest(false, 2, rest, fg, end, n);
  }

  method MircHexLen(rest: seq<byte>) returns (n: nat)
    ensures n == ColourLen(true, rest)
  {
    n := 0;
    while n < 6 && n < |rest| && IsHex(rest[n])
      invariant n <= 6 && n <= |rest|
      invariant AllDigits(true, rest, 0, n)
    {
      n := n + 1;
    }
    ghost var fg, end := n, 0;
    if n == 0 {
      ScannedIsLongest(true, 6, rest, fg, end, 0);
      return 0;
    }
    if n < |rest| && rest[n] == COMMA {
      var m := n + 1;
      var bg := 0;
      while m < |rest| && bg < 6 && IsHex(rest[m])
        invariant m == n + 1 + bg && bg <= 6 && m <= |rest|
        invariant AllDigits(true, rest, n + 1, m)
      {
        m := m + 1;
        bg := bg + 1;
      }
      end := m;
      if bg > 0 {
        n := m;
      }
    }
    ScannedIsLongest(true, 6, rest, fg, end, n);
  }

  /** How many of the bytes of `s` from `from` on are hexadecimal digits, six at most. */
  ghost function HexRun(s: seq<byte>, from: nat): (n: nat)
    requires from <= |s|
    ensures DigitRun(true, HEX_DIGITS, s, from, from + n)
  {
    HexRunUpTo(s, from, HEX_DIGITS)
  }

  ghost function HexRunUpTo(s: seq<byte>, from: nat, k: nat): (n: nat)
    requires from <= |s|
    ensures DigitRun(true, k, s, from, from + n)
    decreases k
  {
    if k == 0 || from == |s| || !IsHex(s[from]) then 0 else 1 + HexRunUpTo(s, from + 1, k - 1)
  }

  /** The background digits, if a comma follows the foreground. */
  ghost function Background(s: seq<byte>): nat {
    var fg := HexRun(s, 0);
    if fg < |s| && s[fg] == COMMA then HexRun(s, fg + 1) else 0
  }

  /** A hexadecimal colour as the scanner's comment has it: six digits, optionally a comma and
      six more. */
  ghost function SixDigitLen(s: seq<byte>): nat {
    if HexRun(s, 0) < HEX_DIGITS then 0
    else if Background(s) < HEX_DIGITS then HEX_DIGITS
    else 2 * HEX_DIGITS + 1
  }

  lemma OneRun(s: seq<byte>, from: nat, to: nat, end: nat)
    requires DigitRun(true, HEX_DIGITS, s, from, to) && DigitRun(true, HEX_DIGITS, s, from, end)
    ensures to == end
  {
  }

  lemma LongestIsOne(hex: bool, k: nat, s: seq<byte>, m: nat, n: nat)
    requires LongestColour(hex, k, s, m) && LongestColour(hex, k, s, n)
    ensures m == n
  {
  }

  /** The scanner skips just what its comment says exactly if the foreground has no digits or
      six, and then the background none or six. */
  lemma SixDigitsExactly(s: seq<byte>)
    ensures ColourLen(true, s) == SixDigitLen(s) <==>
      HexRun(s, 0) == 0 || (HexRun(s, 0) == HEX_DIGITS && (Background(s) == 0 || Background(s) == HEX_DIGITS))
  {
    var fg, bg := HexRun(s, 0), Background(s);
    var n := if fg == 0 || bg == 0 then fg else fg + 1 + bg;
    ScannedIsLongest(true, HEX_DIGITS, s, fg, fg + 1 + bg, n);
    LongestIsOne(true, HEX_DIGITS, s, ColourLen(true, s), n);
  }

  /** Three digits are skipped as a colour, where six are asked for. */
  lemma ThreeDigitsSkipped()
    ensures ColourLen(true, [102, 102, 102]) == 3 && SixDigitLen([102, 102, 102]) == 0
  {
    var s: seq<byte> := [102, 102, 102];
    OneRun(s, 0, HexRun(s, 0), 3);
    ScannedIsLongest(true, HEX_DIGITS, s, 3, 0, 3);
    LongestIsOne(true, HEX_DIGITS, s, ColourLen(true, s), 3);
  }
}
