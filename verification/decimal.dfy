/** Decimal digit strings: the meaning of the text that Go's strconv.ParseUint
    reads in base 10, and the canonical rendering of a natural number. */
module Decimal {

  /** The largest value of Go's uint64, 2^64 - 1. */
  const MaxU64: nat := 0xFFFF_FFFF_FFFF_FFFF

  /** The values a Go uint64 can hold. */
  type u64 = n: nat | n <= MaxU64

  predicate IsDigit(c: char) {
    '0' <= c <= '9'
  }

  predicate AllDigits(s: string) {
    forall i | 0 <= i < |s| :: IsDigit(s[i])
  }

  function DigitValue(c: char): (d: nat)
    requires IsDigit(c)
    ensures d < 10
  {
    c as int - '0' as int
  }

  function DigitChar(d: nat): (c: char)
    requires d < 10
    ensures IsDigit(c) && DigitValue(c) == d
  {
    ('0' as int + d) as char
  }

  /** Horner's rule: the number written as the digits of `acc` followed by
      the digits of `s`. */
  function Horner(acc: nat, s: string): nat
    requires AllDigits(s)
    decreases |s|
  {
    if |s| == 0 then acc else Horner(acc * 10 + DigitValue(s[0]), s[1..])
  }

  /** The number a digit string denotes, most significant digit first;
      leading zeros are allowed and the empty string denotes 0. */
  function Number(s: string): nat
    requires AllDigits(s)
  {
    Horner(0, s)
  }

  /** Appending a digit multiplies by ten and adds the digit. */
  lemma {:induction false} HornerSnoc(acc: nat, s: string, c: char)
    requires AllDigits(s) && IsDigit(c)
    ensures AllDigits(s + [c])
    ensures Horner(acc, s + [c]) == Horner(acc, s) * 10 + DigitValue(c)
    decreases |s|
  {
    var t := s + [c];
    assert forall i | 0 <= i < |t| :: t[i] == if i < |s| then s[i] else c;
    if |s| > 0 {
      assert t[1..] == s[1..] + [c];
      HornerSnoc(acc * 10 + DigitValue(s[0]), s[1..], c);
    }
  }

  /** Length of the longest prefix of `s` made of digits only. */
  function DigitRun(s: string): (k: nat)
    ensures k <= |s|
    ensures AllDigits(s[..k])
    ensures k < |s| ==> !IsDigit(s[k])
    decreases |s|
  {
    if |s| == 0 || !IsDigit(s[0]) then 0
    else
      var k' := DigitRun(s[1..]);
      assert s[..1 + k'] == [s[0]] + s[1..][..k'];
      1 + k'
  }

  /** Canonical decimal rendering: no sign, no leading zeros. */
  function Render(n: nat): (s: string)
    ensures |s| > 0 && AllDigits(s)
    ensures Number(s) == n
    ensures s[0] == '0' <==> n == 0
    decreases n
  {
    if n < 10 then
      var s := [DigitChar(n)];
      assert s[1..] == [];
      assert Horner(0, s) == Horner(n, []);
      s
    else
      var prefix := Render(n / 10);
      HornerSnoc(0, prefix, DigitChar(n % 10));
      prefix + [DigitChar(n % 10)]
  }

  /** Reading one more digit multiplies the value so far by ten and adds it. */
  lemma NumberStep(s: string, i: nat)
    requires i < |s| && AllDigits(s[..i + 1])
    ensures AllDigits(s[..i])
    ensures Number(s[..i + 1]) == Number(s[..i]) * 10 + DigitValue(s[i])
  {
    assert s[..i + 1] == s[..i] + [s[i]];
    HornerSnoc(0, s[..i], s[i]);
  }

  /** A longer prefix of a digit string never denotes a smaller number. */
  lemma {:induction false} NumberPrefixMonotone(s: string, j: nat, k: nat)
    requires j <= k <= |s| && AllDigits(s[..k])
    ensures AllDigits(s[..j])
    ensures Number(s[..j]) <= Number(s[..k])
    decreases k - j
  {
    assert forall i | 0 <= i < j :: s[..j][i] == s[..k][i];
    if j < k {
      NumberStep(s, k - 1);
      NumberPrefixMonotone(s, j, k - 1);
    }
  }

  /** A leading zero does not change the value. */
  lemma NumberLeadingZero(s: string)
    requires AllDigits(s)
    ensures AllDigits("0" + s)
    ensures Number("0" + s) == Number(s)
  {
    assert ("0" + s)[1..] == s;
  }
}
