/** Decimal rendering of integers as JavaScript's template literals and
    `String(n).padStart(2, '0')` produce it, and a reader that recovers the
    numbers from the text. */
module Decimal {
  import opened Boundary

  predicate IsDigit(c: char) {
    '0' <= c <= '9'
  }

  predicate AllDigits(s: string) {
    forall i :: 0 <= i < |s| ==> IsDigit(s[i])
  }

  function DigitChar(d: nat): (c: char)
    requires d < 10
    ensures IsDigit(c)
  {
    "0123456789"[d]
  }

  function DigitValue(c: char): (d: nat)
    requires IsDigit(c)
    ensures d < 10
  {
    c as int - '0' as int
  }

  /** `String(n)` for a non-negative integer: no sign, no leading zero. */
  function ShowNat(n: nat): (s: string)
    ensures |s| > 0 && AllDigits(s)
    ensures |s| == 1 <==> n < 10
    ensures s[0] == '0' ==> n == 0
    decreases n
  {
    if n < 10 then [DigitChar(n)] else ShowNat(n / 10) + [DigitChar(n % 10)]
  }

  /** `String(i)` for any integer: a leading `-` for negative values. */
  function ShowInt(i: int): (s: string)
    ensures |s| > 0
    ensures i < 0 <==> s[0] == '-'
  {
    if i < 0 then "-" + ShowNat(-i) else ShowNat(i)
  }

  /** `String(n).padStart(2, '0')`: one leading zero below ten, unchanged from ten on. */
  function PadTwo(n: nat): (s: string)
    ensures AllDigits(s)
    ensures n < 100 ==> |s| == 2
    ensures n >= 10 ==> s == ShowNat(n)
  {
    var d := ShowNat(n);
    if |d| < 2 then "0" + d else d
  }

  /** The number a string of digits denotes; leading zeros are allowed. */
  function DigitsValue(s: string): nat
    requires AllDigits(s)
  {
    if |s| == 0 then 0 else DigitsValue(s[..|s| - 1]) * 10 + DigitValue(s[|s| - 1])
  }

  /** Length of the longest prefix of `s` made of digits. */
  function DigitRun(s: string): (k: nat)
    ensures k <= |s|
    ensures AllDigits(s[..k])
    ensures k == |s| || !IsDigit(s[k])
  {
    if |s| == 0 || !IsDigit(s[0]) then 0 else 1 + DigitRun(s[1..])
  }

  /** Reads a non-empty run of digits at the head of `s`, returning its value
      and the rest of the text. */
  function ReadNat(s: string): (r: Option<(nat, string)>)
    ensures r.Some? ==> |r.value.1| < |s| && r.value.1 == s[|s| - |r.value.1|..]
  {
    var k := DigitRun(s);
    if k == 0 then None else Some((DigitsValue(s[..k]), s[k..]))
  }

  /** Reads a numeral as `String(n)` writes it off the head of `s`: a run of
      digits that does not start with a `0` unless it is the single digit
      `0`. */
  function ReadNumeral(s: string): (r: Option<(nat, string)>)
    ensures r.Some? ==> r == ReadNat(s)
    ensures r.Some? && s[0] == '0' ==> r.value == (0, s[1..])
  {
    var k := DigitRun(s);
    if k == 0 || (k > 1 && s[0] == '0') then None
    else
      assert k == 1 && s[0] == '0' ==> DigitsValue(s[..k]) == 0 by {
        if k == 1 {
          assert s[..k][..0] == [];
        }
      }
      Some((DigitsValue(s[..k]), s[k..]))
  }

  /** Reads an optionally negative decimal integer filling the whole of `s`,
      written without a leading zero. */
  function ReadInt(s: string): Option<int> {
    if |s| > 0 && s[0] == '-' then
      match ReadNumeral(s[1..])
      case Some((n, rest)) => if rest == [] then Some(-(n as int)) else None
      case None => None
    else
      match ReadNumeral(s)
      case Some((n, rest)) => if rest == [] then Some(n) else None
      case None => None
  }

  /** A text that cannot extend a run of digits. */
  predicate Delimited(rest: string) {
    rest == [] || !IsDigit(rest[0])
  }

  lemma {:induction false} DigitsValueOfShowNat(n: nat)
    ensures DigitsValue(ShowNat(n)) == n
    decreases n
  {
    if n >= 10 {
      var s := ShowNat(n);
      assert s[..|s| - 1] == ShowNat(n / 10);
      DigitsValueOfShowNat(n / 10);
    }
  }

  /** A digit run followed by a non-digit (or the end) is exactly what
      `DigitRun` measures. */
  lemma {:induction false} DigitRunExact(s: string, j: nat)
    requires j <= |s| && AllDigits(s[..j])
    requires j == |s| || !IsDigit(s[j])
    ensures DigitRun(s) == j
  {
    if j > 0 {
      assert s[..j][0] == s[0];
      assert s[1..][..j - 1] == s[..j][1..];
      DigitRunExact(s[1..], j - 1);
    }
  }

  /** A run of digits followed by a delimiter reads as its value. */
  lemma ReadNatPrefix(d: string, rest: string)
    requires |d| > 0 && AllDigits(d) && Delimited(rest)
    ensures ReadNat(d + rest) == Some((DigitsValue(d), rest))
  {
    var s := d + rest;
    assert s[..|d|] == d;
    DigitRunExact(s, |d|);
    assert s[|d|..] == rest;
  }

  /** Reading back what `ShowNat` wrote gives the number and leaves the rest. */
  lemma ReadNatShowNat(n: nat, rest: string)
    requires Delimited(rest)
    ensures ReadNat(ShowNat(n) + rest) == Some((n, rest))
  {
    ReadNatPrefix(ShowNat(n), rest);
    DigitsValueOfShowNat(n);
  }

  /** What `ShowNat` wrote reads back as a numeral: it has no leading zero. */
  lemma ReadNumeralShowNat(n: nat, rest: string)
    requires Delimited(rest)
    ensures ReadNumeral(ShowNat(n) + rest) == Some((n, rest))
  {
    var d := ShowNat(n);
    var s := d + rest;
    ReadNatShowNat(n, rest);
    assert s[..|d|] == d;
    DigitRunExact(s, |d|);
    assert s[0] == d[0];
  }

  /** A padded two-digit field reads back as the number it pads. */
  lemma ReadNatPadTwo(n: nat, rest: string)
    requires n < 100
    requires Delimited(rest)
    ensures ReadNat(PadTwo(n) + rest) == Some((n, rest))
  {
    ReadNatPrefix(PadTwo(n), rest);
    DigitsValueOfPadTwo(n);
  }

  /** The leading zero `PadTwo` adds does not change the value. */
  lemma DigitsValueOfPadTwo(n: nat)
    requires n < 100
    ensures DigitsValue(PadTwo(n)) == n
  {
    DigitsValueOfShowNat(n);
    if n < 10 {
      var p, d := PadTwo(n), ShowNat(n);
      assert p == ['0', d[0]] && d == [d[0]];
      assert p[..1] == ['0'] && p[..1][..0] == [] && d[..0] == [];
    }
  }

  /** `ReadInt` is the inverse of `ShowInt`. */
  lemma ReadIntShowInt(i: int)
    ensures ReadInt(ShowInt(i)) == Some(i)
  {
    var s := ShowInt(i);
    if i < 0 {
      assert s[0] == '-' && s[1..] == ShowNat(-i);
      ReadNumeralWhole(-i);
      assert ReadNumeral(s[1..]) == Some((-i, []));
    } else {
      assert s == ShowNat(i) && IsDigit(s[0]);
      ReadNumeralWhole(i);
      assert ReadNumeral(s) == Some((i, []));
    }
  }

  /** Only non-empty text reads as an integer. */
  lemma ReadIntNonEmpty(s: string)
    ensures ReadInt(s).Some? ==> |s| > 0
  {
    if |s| == 0 {
      assert DigitRun(s) == 0;
    }
  }

  /** A decimal numeral with nothing after it reads back whole. */
  lemma ReadNumeralWhole(n: nat)
    ensures ReadNumeral(ShowNat(n)) == Some((n, []))
  {
    ReadNumeralShowNat(n, []);
    assert ShowNat(n) + [] == ShowNat(n);
  }

  /** A year written with a leading zero is not read. */
  lemma ReadIntRejectsPadding()
    ensures ReadInt("02025") == None
  {
    assert DigitRun("02025") == 5 by {
      DigitRunExact("02025", 5);
      assert "02025"[..5] == "02025";
    }
  }
}
