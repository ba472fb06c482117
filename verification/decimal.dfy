/** Base-10 integer parsing as `strconv.ParseUint(s, 10, 64)` and
    `strconv.ParseInt(s, 10, 64)` do it: digits only (ParseInt also takes one
    leading sign), no underscores, no surrounding blanks, and a 64-bit range.
    ShowNat/ShowInt are the inverse renderings used to state round trips. */
module Decimal {
  import opened Wrappers

  /** 2^64: ParseUint with bitSize 64 rejects values at or above this. */
  const Uint64Limit: nat := 0x1_0000_0000_0000_0000
  /** 2^63: ParseInt accepts magnitudes below this, or equal to it when negative. */
  const Int64Limit: nat := 0x8000_0000_0000_0000

  predicate IsDigit(c: char) {
    '0' <= c <= '9'
  }

  predicate AllDigits(s: string) {
    forall i :: 0 <= i < |s| ==> IsDigit(s[i])
  }

  function DigitValue(c: char): nat
    requires IsDigit(c)
  {
    (c as int) - ('0' as int)
  }

  function DigitChar(d: nat): (c: char)
    requires d < 10
    ensures IsDigit(c) && DigitValue(c) == d
  {
    (('0' as int) + d) as char
  }

  /** The number a digit string denotes, most significant digit first. */
  function DigitsValue(s: string): nat
    requires AllDigits(s)
    decreases |s|
  {
    if s == [] then 0 else DigitsValue(s[..|s| - 1]) * 10 + DigitValue(s[|s| - 1])
  }

  /** Unsigned decimal parse; None stands for Go's syntax and range errors. */
  function ParseUint(s: string): Option<nat>
  {
    if s == [] || !AllDigits(s) then None
    else if DigitsValue(s) >= Uint64Limit then None
    else Some(DigitsValue(s))
  }

  /** Signed decimal parse: an optional '+' or '-', then at least one digit. */
  function ParseInt(s: string): Option<int>
  {
    if s == [] then None
    else
      var negative := s[0] == '-';
      var digits := if s[0] == '+' || s[0] == '-' then s[1..] else s;
      if digits == [] || !AllDigits(digits) then None
      else
        var magnitude := DigitsValue(digits);
        if negative then
          (if magnitude > Int64Limit then None else Some(-(magnitude as int)))
        else
          (if magnitude >= Int64Limit then None else Some(magnitude as int))
  }

  /** Shortest decimal rendering of n (no sign, no leading zeros). */
  function ShowNat(n: nat): (s: string)
    ensures |s| > 0 && AllDigits(s)
    decreases n
  {
    if n < 10 then [DigitChar(n)] else ShowNat(n / 10) + [DigitChar(n % 10)]
  }

  function ShowInt(i: int): (s: string)
    ensures |s| > 0
  {
    if i < 0 then "-" + ShowNat(-i) else ShowNat(i)
  }

  lemma {:induction false} DigitsValueShowNat(n: nat)
    ensures DigitsValue(ShowNat(n)) == n
    decreases n
  {
    var s := ShowNat(n);
    if n >= 10 {
      DigitsValueShowNat(n / 10);
      assert s[..|s| - 1] == ShowNat(n / 10);
    }
  }

  /** ParseUint reads back every rendering of an unsigned 64-bit value. */
  lemma ParseUintShowNat(n: nat)
    requires n < Uint64Limit
    ensures ParseUint(ShowNat(n)) == Some(n)
  {
    DigitsValueShowNat(n);
  }

  /** ParseInt reads back every rendering of a signed 64-bit value. */
  lemma ParseIntShowInt(i: int)
    requires -(Int64Limit as int) <= i < Int64Limit
    ensures ParseInt(ShowInt(i)) == Some(i)
  {
    var s := ShowInt(i);
    if i < 0 {
      DigitsValueShowNat(-i);
      assert s[0] == '-' && s[1..] == ShowNat(-i);
    } else {
      DigitsValueShowNat(i);
      assert s == ShowNat(i) && IsDigit(s[0]);
    }
  }

  /** k zero digits. */
  function ZeroChars(k: nat): (z: string)
    ensures |z| == k && AllDigits(z)
  {
    seq(k, _ => '0')
  }

  lemma {:induction false} DigitsValueLeadingZero(t: string)
    requires AllDigits(t)
    ensures AllDigits("0" + t) && DigitsValue("0" + t) == DigitsValue(t)
    decreases |t|
  {
    if t != [] {
      var t' := t[..|t| - 1];
      DigitsValueLeadingZero(t');
      assert ("0" + t)[..|t|] == "0" + t';
    } else {
      assert "0"[..0] == [];
    }
  }

  /** Leading zeros do not change a digit string's value. */
  lemma {:induction false} DigitsValueZeros(k: nat, t: string)
    requires AllDigits(t)
    ensures AllDigits(ZeroChars(k) + t) && DigitsValue(ZeroChars(k) + t) == DigitsValue(t)
    decreases k
  {
    if k == 0 {
      assert ZeroChars(k) + t == t;
    } else {
      DigitsValueZeros(k - 1, t);
      assert ZeroChars(k) + t == "0" + (ZeroChars(k - 1) + t);
      DigitsValueLeadingZero(ZeroChars(k - 1) + t);
    }
  }

  lemma {:induction false} LeadingDigitPositive(t: string)
    requires t != [] && AllDigits(t) && t[0] != '0'
    ensures DigitsValue(t) > 0
    decreases |t|
  {
    if |t| > 1 {
      LeadingDigitPositive(t[..|t| - 1]);
    }
  }

  /** A digit string without a leading zero is the rendering of its value. */
  lemma {:induction false} ShowNatCanonical(t: string)
    requires t != [] && AllDigits(t) && (t[0] != '0' || |t| == 1)
    ensures ShowNat(DigitsValue(t)) == t
    decreases |t|
  {
    var last := t[|t| - 1];
    var t' := t[..|t| - 1];
    var n := DigitsValue(t);
    if |t| == 1 {
      assert t' == [];
      assert DigitsValue(t') == 0;
      assert n == DigitsValue(t') * 10 + DigitValue(last);
      assert DigitChar(n) == last;
      assert t == [last];
    } else {
      assert t'[0] == t[0];
      LeadingDigitPositive(t');
      ShowNatCanonical(t');
      assert n == DigitsValue(t') * 10 + DigitValue(last);
      assert n / 10 == DigitsValue(t') && n % 10 == DigitValue(last);
      assert DigitChar(n % 10) == last;
      assert t == t' + [last];
    }
  }

  /** Every digit string is leading zeros followed by the rendering of its value. */
  lemma {:induction false} CanonicalForm(s: string)
    requires s != [] && AllDigits(s)
    ensures exists k: nat :: k < |s| && s == ZeroChars(k) + ShowNat(DigitsValue(s))
    decreases |s|
  {
    if s[0] == '0' && |s| > 1 {
      var t := s[1..];
      CanonicalForm(t);
      var k: nat :| k < |t| && t == ZeroChars(k) + ShowNat(DigitsValue(t));
      assert s == "0" + t;
      PadOneMore(t, k);
    } else {
      ShowNatCanonical(s);
      assert s == ZeroChars(0) + ShowNat(DigitsValue(s));
    }
  }

  /** One more leading zero on a padded rendering is one more zero of padding. */
  lemma PadOneMore(t: string, k: nat)
    requires AllDigits(t) && t == ZeroChars(k) + ShowNat(DigitsValue(t))
    ensures AllDigits("0" + t) && "0" + t == ZeroChars(k + 1) + ShowNat(DigitsValue("0" + t))
  {
    DigitsValueLeadingZero(t);
    assert ZeroChars(k + 1) == "0" + ZeroChars(k);
  }

  /** ParseUint accepts the rendering of any value below 2^64 behind any
      number of leading zeros. */
  lemma ParseUintPadded(k: nat, n: nat)
    requires n < Uint64Limit
    ensures ParseUint(ZeroChars(k) + ShowNat(n)) == Some(n)
  {
    DigitsValueZeros(k, ShowNat(n));
    DigitsValueShowNat(n);
  }

  /** What ParseUint accepts is the rendering of a value below 2^64, possibly
      behind leading zeros (ParseUintPadded is the converse). */
  lemma ParseUintAccepts(s: string)
    ensures ParseUint(s).Some? ==> ParseUint(s).value < Uint64Limit
    ensures ParseUint(s).Some? ==> exists k: nat :: k < |s| && s == ZeroChars(k) + ShowNat(ParseUint(s).value)
  {
    if ParseUint(s).Some? {
      CanonicalForm(s);
    }
  }

  /** What ParseInt accepts is an optional sign, leading zeros and the
      rendering of the magnitude, on the 64-bit range; the sign decides the
      sign of the result. */
  lemma ParseIntAccepts(s: string)
    ensures ParseInt(s).Some? ==> s != [] && -(Int64Limit as int) <= ParseInt(s).value < Int64Limit as int
    ensures ParseInt(s).Some? ==> (s[0] == '-' ==> ParseInt(s).value <= 0) && (s[0] != '-' ==> ParseInt(s).value >= 0)
    ensures ParseInt(s).Some? ==>
      var v := ParseInt(s).value;
      var digits := if s[0] == '+' || s[0] == '-' then s[1..] else s;
      exists k: nat :: k < |digits| && digits == ZeroChars(k) + ShowNat(if v < 0 then -v else v)
  {
    if ParseInt(s).Some? {
      var digits := if s[0] == '+' || s[0] == '-' then s[1..] else s;
      CanonicalForm(digits);
    }
  }
}
