/**
 Decimal text: what `to_string` writes and what `from_chars` reads back.  A read takes the
 longest run of digits, ignores what follows, and fails without digits or out of range.
 */
module Decimals {

  datatype Option<+T> = None | Some(value: T)

  predicate IsDigit(c: char) {
    '0' <= c <= '9'
  }

  function DigitChar(d: nat): (c: char)
    requires d < 10
    ensures IsDigit(c) && DigitValue(c) == d
  {
    '0' + d as char
  }

  function DigitValue(c: char): nat {
    if IsDigit(c) then (c - '0') as nat else 0
  }

  ghost predicate AllDigits(s: string) {
    forall i | 0 <= i < |s| :: IsDigit(s[i])
  }

  function Digits(n: nat): (s: string)
    ensures |s| > 0 && AllDigits(s)
  {
    if n < 10 then [DigitChar(n)] else Digits(n / 10) + [DigitChar(n % 10)]
  }

  function ToText(n: int): string {
    if n < 0 then "-" + Digits(-n) else Digits(n)
  }

  /** Where the run of digits that starts at `i` ends. */
  function Lead(s: string, i: nat): (e: nat)
    requires i <= |s|
    ensures i <= e <= |s|
    decreases |s| - i
  {
    if i < |s| && IsDigit(s[i]) then Lead(s, i + 1) else i
  }

  /** The number written from `i` up to `j`. */
  function ValueOf(s: string, i: nat, j: nat): nat
    requires i <= j <= |s|
  {
    if i == j then 0 else 10 * ValueOf(s, i, j - 1) + DigitValue(s[j - 1])
  }

  function ReadNat(s: string, max: nat): Option<nat> {
    var e := Lead(s, 0);
    if e == 0 || ValueOf(s, 0, e) > max then None else Some(ValueOf(s, 0, e))
  }

  function ReadInt(s: string, min: int, max: nat): Option<int> {
    if s != [] && s[0] == '-' then
      var e := Lead(s, 1);
      if e == 1 || -(ValueOf(s, 1, e) as int) < min then None else Some(-(ValueOf(s, 1, e) as int))
    else
      match ReadNat(s, max)
      case None => None
      case Some(v) => Some(v as int)
  }

  /** The digits of `n` stand in `s` from `i` on. */
  ghost predicate DigitsAt(n: nat, s: string, i: nat) {
    i + |Digits(n)| <= |s| && forall k | 0 <= k < |Digits(n)| :: s[i + k] == Digits(n)[k]
  }

  lemma {:induction false} ValueOfDigits(n: nat, s: string, i: nat)
    requires DigitsAt(n, s, i)
    ensures ValueOf(s, i, i + |Digits(n)|) == n
  {
    var d := Digits(n);
    assert s[i + |d| - 1] == d[|d| - 1];
    if n < 10 {
      assert ValueOf(s, i, i) == 0;
    } else {
      assert forall k | 0 <= k < |d| - 1 :: d[k] == Digits(n / 10)[k];
      ValueOfDigits(n / 10, s, i);
    }
  }

  /** The text ends, or goes on with something that is not a digit. */
  predicate Ends(rest: string) {
    rest == [] || !IsDigit(rest[0])
  }

  lemma {:induction false} LeadSkips(s: string, i: nat, j: nat)
    requires i <= j <= |s| && (forall k | i <= k < j :: IsDigit(s[k])) && (j < |s| ==> !IsDigit(s[j]))
    ensures Lead(s, i) == j
    decreases j - i
  {
    if i < j {
      LeadSkips(s, i + 1, j);
    }
  }

  /** A number that stands at `i` is found and read. */
  lemma NumberAt(n: nat, s: string, i: nat)
    requires DigitsAt(n, s, i) && (i + |Digits(n)| < |s| ==> !IsDigit(s[i + |Digits(n)|]))
    ensures Lead(s, i) == i + |Digits(n)| && ValueOf(s, i, i + |Digits(n)|) == n
  {
    forall k | i <= k < i + |Digits(n)| ensures IsDigit(s[k]) {
      assert s[k] == Digits(n)[k - i];
    }
    LeadSkips(s, i, i + |Digits(n)|);
    ValueOfDigits(n, s, i);
  }

  lemma NatRoundTrip(n: nat, rest: string, max: nat)
    requires n <= max && Ends(rest)
    ensures ReadNat(Digits(n) + rest, max) == Some(n)
  {
    NumberAt(n, Digits(n) + rest, 0);
  }

  lemma NatAlone(n: nat, max: nat)
    requires n <= max
    ensures ReadNat(Digits(n), max) == Some(n)
  {
    NatRoundTrip(n, [], max);
    assert Digits(n) + [] == Digits(n);
  }

  lemma NegativeRoundTrip(n: nat, rest: string, min: int, max: nat)
    requires min <= -(n as int) && Ends(rest)
    ensures ReadInt("-" + Digits(n) + rest, min, max) == Some(-(n as int))
  {
    NumberAt(n, "-" + Digits(n) + rest, 1);
  }

  lemma IntRoundTrip(n: int, rest: string, min: int, max: nat)
    requires min <= n <= max && Ends(rest)
    ensures ReadInt(ToText(n) + rest, min, max) == Some(n)
  {
    if n < 0 {
      NegativeRoundTrip(-n, rest, min, max);
    } else {
      NatRoundTrip(n, rest, max);
      assert IsDigit((Digits(n) + rest)[0]);
    }
  }

  lemma IntAlone(n: int, min: int, max: nat)
    requires min <= n <= max
    ensures ReadInt(ToText(n), min, max) == Some(n)
  {
    IntRoundTrip(n, [], min, max);
    assert ToText(n) + [] == ToText(n);
  }

  /** Decimal text holds no separator. */
  lemma TextIsPlain(n: int, c: char)
    requires !IsDigit(c) && c != '-'
    ensures c !in ToText(n)
  {
  }

  // ------------------------------------------------------------ what is not read

  /** A number out of range is refused, whatever follows it. */
  lemma NatTooBig(n: nat, rest: string, max: nat)
    requires n > max && Ends(rest)
    ensures ReadNat(Digits(n) + rest, max) == None
  {
    NumberAt(n, Digits(n) + rest, 0);
  }

  lemma IntOutOfRange(n: int, rest: string, min: int, max: nat)
    requires (n < min || n > max) && min <= 0 && Ends(rest)
    ensures ReadInt(ToText(n) + rest, min, max) == None
  {
    if n < 0 {
      NumberAt(-n, "-" + Digits(-n) + rest, 1);
    } else {
      NatTooBig(n, rest, max);
      assert IsDigit((Digits(n) + rest)[0]);
    }
  }

  /** Text that does not start with a digit is no number; a sign alone is none either. */
  lemma NoNumber(s: string, min: int, max: nat)
    requires Ends(s)
    ensures ReadNat(s, max) == None && ReadInt("-" + s, min, max) == None
    ensures s == [] || s[0] != '-' ==> ReadInt(s, min, max) == None
  {
    assert Lead("-" + s, 1) == 1;
  }

  lemma {:induction false} LeadShift(s: string, i: nat)
    requires i <= |s|
    ensures Lead("0" + s, i + 1) == Lead(s, i) + 1
    decreases |s| - i
  {
    if i < |s| && IsDigit(s[i]) {
      LeadShift(s, i + 1);
    }
  }

  lemma {:induction false} ValueShift(s: string, j: nat)
    requires j <= |s|
    ensures ValueOf("0" + s, 0, j + 1) == ValueOf(s, 0, j)
  {
    if j == 0 {
      assert ValueOf("0" + s, 0, 0) == 0;
    } else {
      ValueShift(s, j - 1);
    }
  }

  /** Leading zeros change nothing. */
  lemma LeadingZero(s: string, max: nat)
    requires !Ends(s)
    ensures ReadNat("0" + s, max) == ReadNat(s, max)
  {
    LeadShift(s, 0);
    assert Lead("0" + s, 0) == Lead("0" + s, 1);
    ValueShift(s, Lead(s, 0));
  }
}
