/** The storage keys of messages: ids as text whose alphabetical order is their numeric order. */
module MessageKeys {
  import opened Basics

  const TWO_TO_64: nat := 0x1_0000_0000_0000_0000

  predicate IsDigit(c: char) {
    '0' <= c <= '9'
  }

  function DigitValue(c: char): (d: nat)
    requires IsDigit(c)
    ensures d < 10
  {
    c as int - '0' as int
  }

  function DigitChar(d: nat): (c: char)
    requires d < 10
    ensures IsDigit(c) && DigitValue(c) == d
  {
    ['0', '1', '2', '3', '4', '5', '6', '7', '8', '9'][d]
  }

  predicate AllDigits(s: string) {
    forall i :: 0 <= i < |s| ==> IsDigit(s[i])
  }

  /** The number some decimal digits stand for. */
  function Value(s: string): nat
    requires AllDigits(s)
  {
    if s == [] then 0 else Value(s[..|s| - 1]) * 10 + DigitValue(s[|s| - 1])
  }

  /** Reads an unsigned decimal number of at most 64 bits. */
  function ParseUint(s: string): Option<nat> {
    if s != [] && AllDigits(s) && Value(s) < TWO_TO_64 then Some(Value(s)) else None
  }

  /** The last `width` decimal digits of a number, zeros in front. */
  function Digits(n: nat, width: nat): (s: string)
    ensures |s| == width && AllDigits(s)
  {
    if width == 0 then "" else Digits(n / 10, width - 1) + [DigitChar(n % 10)]
  }

  const KEY_DIGITS: nat := 20

  function PadID(id: string): string {
    match ParseUint(id)
    case Some(n) => Digits(n, KEY_DIGITS)
    case None => "z" + id
  }

  /** The byte order of keys. */
  ghost predicate Less(a: string, b: string) {
    if b == [] then false
    else if a == [] then true
    else a[0] < b[0] || (a[0] == b[0] && Less(a[1..], b[1..]))
  }

  ghost function TenTo(width: nat): nat {
    if width == 0 then 1 else 10 * TenTo(width - 1)
  }

  /** For texts of one length the last character decides only between equal rests. */
  lemma {:induction false} LessSnoc(a: string, b: string, c: char, d: char)
    requires |a| == |b|
    ensures Less(a + [c], b + [d]) <==> Less(a, b) || (a == b && c < d)
  {
    if a == [] {
      assert a + [c] == [c] && b + [d] == [d];
      assert !Less([c][1..], [d][1..]);
    } else {
      assert (a + [c])[1..] == a[1..] + [c] && (b + [d])[1..] == b[1..] + [d];
      LessSnoc(a[1..], b[1..], c, d);
      assert a == [a[0]] + a[1..] && b == [b[0]] + b[1..];
    }
  }

  /** Padded numbers compare as texts the way they compare as numbers. */
  lemma {:induction false} DigitsOrder(m: nat, n: nat, width: nat)
    requires m < TenTo(width) && n < TenTo(width)
    ensures Less(Digits(m, width), Digits(n, width)) <==> m < n
    ensures Digits(m, width) == Digits(n, width) <==> m == n
  {
    if width > 0 {
      var a, b := Digits(m / 10, width - 1), Digits(n / 10, width - 1);
      var c, d := DigitChar(m % 10), DigitChar(n % 10);
      DigitsOrder(m / 10, n / 10, width - 1);
      LessSnoc(a, b, c, d);
      assert c < d <==> DigitValue(c) < DigitValue(d);
      assert (a + [c])[..width - 1] == a && (b + [d])[..width - 1] == b;
      assert (a + [c])[width - 1] == c && (b + [d])[width - 1] == d;
    }
  }

  /** Numeric ids: key order is numeric order, and only equal numbers share a key. */
  lemma NumericOrder(a: string, b: string)
    requires ParseUint(a).Some? && ParseUint(b).Some?
    ensures Less(PadID(a), PadID(b)) <==> Value(a) < Value(b)
    ensures PadID(a) == PadID(b) <==> Value(a) == Value(b)
  {
    assert TWO_TO_64 < TenTo(KEY_DIGITS) by {
      TenToTwenty();
    }
    DigitsOrder(Value(a), Value(b), KEY_DIGITS);
  }

  lemma TenToTwenty()
    ensures TenTo(20) == 100000000000000000000
  {
    assert TenTo(5) == 100000;
    assert TenTo(10) == 10000000000;
    assert TenTo(15) == 1000000000000000;
  }

  /** Any other id sorts after every numeric one, and keeps a key of its own. */
  lemma OtherIdsLast(a: string, b: string)
    requires ParseUint(a).Some? && ParseUint(b).None?
    ensures Less(PadID(a), PadID(b)) && !Less(PadID(b), PadID(a))
    ensures forall c: string :: ParseUint(c).None? && PadID(c) == PadID(b) ==> c == b
  {
    assert IsDigit(PadID(a)[0]);
    forall c: string | ParseUint(c).None? && PadID(c) == PadID(b)
      ensures c == b
    {
      assert PadID(c)[1..] == c && PadID(b)[1..] == b;
    }
  }

  // ---------- read markers ----------

  /** The comparison of two ids as the read state makes it: the longer one, else by text. */
  ghost predicate SnowflakeGreater(a: string, b: string) {
    if |a| != |b| then |a| > |b| else Less(b, a)
  }

  /** A number written without leading zeros. */
  ghost predicate Canonical(s: string) {
    AllDigits(s) && (|s| > 1 ==> s[0] != '0') && s != []
  }

  lemma {:induction false} ValueBounds(s: string)
    requires AllDigits(s)
    ensures Value(s) < TenTo(|s|)
    ensures s != [] && s[0] != '0' ==> Value(s) >= TenTo(|s| - 1)
  {
    if s != [] {
      var less := s[..|s| - 1];
      ValueBounds(less);
      if less != [] {
        assert less[0] == s[0];
      }
    }
  }

  lemma {:induction false} TextOrder(a: string, b: string)
    requires AllDigits(a) && AllDigits(b) && |a| == |b|
    ensures Less(a, b) <==> Value(a) < Value(b)
    ensures Value(a) == Value(b) ==> a == b
  {
    if a != [] {
      var n := |a| - 1;
      TextOrder(a[..n], b[..n]);
      assert a == a[..n] + [a[n]] && b == b[..n] + [b[n]];
      LessSnoc(a[..n], b[..n], a[n], b[n]);
    }
  }

  lemma {:induction false} TenToGrows(m: nat, n: nat)
    requires m <= n
    ensures TenTo(m) <= TenTo(n)
  {
    if m < n {
      TenToGrows(m, n - 1);
    }
  }

  /** On ids without leading zeros the comparison is numeric. */
  lemma GreaterIsNumeric(a: string, b: string)
    requires Canonical(a) && Canonical(b)
    ensures SnowflakeGreater(a, b) <==> Value(a) > Value(b)
  {
    if |a| == |b| {
      TextOrder(b, a);
    } else {
      var short, long := if |a| < |b| then a else b, if |a| < |b| then b else a;
      ValueBounds(short);
      ValueBounds(long);
      TenToGrows(|short|, |long| - 1);
    }
  }

  ghost function Nines(n: nat): (s: string)
    ensures |s| == n && AllDigits(s)
    ensures Value(s) == TenTo(n) - 1 && (n > 0 ==> s[0] == '9')
  {
    if n == 0 then "" else
      var less := Nines(n - 1);
      assert (less + "9")[..n - 1] == less;
      less + "9"
  }

  lemma {:induction false} ZeroInFront(s: string)
    requires AllDigits(s) && s != [] && s[0] == '0'
    ensures Value(s) < TenTo(|s| - 1)
  {
    if |s| == 1 {
      assert s[..0] == [];
    } else {
      assert s[..|s| - 1][0] == s[0];
      ZeroInFront(s[..|s| - 1]);
    }
  }

  /** Two ids are ordered as the numbers they stand for. */
  ghost predicate ComparedAsNumbers(a: string, b: string)
    requires AllDigits(a) && AllDigits(b)
  {
    (SnowflakeGreater(a, b) <==> Value(a) > Value(b)) && (SnowflakeGreater(b, a) <==> Value(b) > Value(a))
  }

  /** An id made of digits compares as a number with all canonical ids exactly if it is one. */
  lemma NumericExactly(a: string)
    requires AllDigits(a)
    ensures Canonical(a) <==> forall b :: Canonical(b) ==> ComparedAsNumbers(a, b)
  {
    if Canonical(a) {
      forall b | Canonical(b)
        ensures ComparedAsNumbers(a, b)
      {
        GreaterIsNumeric(a, b);
        GreaterIsNumeric(b, a);
      }
    } else {
      var b := if a == [] then "0" else Nines(|a| - 1);
      assert a == [] ==> Value("0") == 0 && Value(a) == 0 by {
        assert "0"[..0] == [];
      }
      if a != [] {
        ZeroInFront(a);
      }
      assert Canonical(b) && !ComparedAsNumbers(a, b);
    }
  }
}
