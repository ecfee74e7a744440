/** Decimal printing and `str::parse::<usize>` on a 64-bit target. */
module Decimal {
  import opened Wrappers

  const USIZE_MAX: nat := 0xFFFF_FFFF_FFFF_FFFF

  predicate IsDigit(c: char) {
    '0' <= c <= '9'
  }

  predicate AllDigits(s: string) {
    forall c :: c in s ==> IsDigit(c)
  }

  /** The display form of an unsigned integer. */
  function Print(n: nat): (s: string)
    ensures s != "" && AllDigits(s)
  {
    var last := ('0' as nat + n % 10) as char;
    if n < 10 then [last] else Print(n / 10) + [last]
  }

  function Value(digits: string): nat
    requires AllDigits(digits)
  {
    if digits == "" then 0
    else
      var last := digits[|digits| - 1];
      assert IsDigit(last);
      10 * Value(digits[..|digits| - 1]) + (last as int - '0' as int)
  }

  /** Without its sign. */
  function Unsigned(s: string): string {
    if |s| > 1 && s[0] == '+' then s[1..] else s
  }

  /** One leading plus sign is accepted, leading zeros are, and a value that does not fit is not. */
  function ParseUsize(s: string): Option<nat> {
    var digits := Unsigned(s);
    if digits == "" || !AllDigits(digits) || Value(digits) > USIZE_MAX then None
    else Some(Value(digits))
  }

  lemma {:induction false} ValuePrint(n: nat)
    ensures Value(Print(n)) == n
  {
    if n >= 10 {
      ValuePrint(n / 10);
      var s := Print(n);
      assert s[..|s| - 1] == Print(n / 10);
    } else {
      assert Print(n)[..0] == "";
    }
  }

  lemma ParsePrint(n: nat)
    requires n <= USIZE_MAX
    ensures ParseUsize(Print(n)) == Some(n)
  {
    ValuePrint(n);
    assert IsDigit(Print(n)[0]);
  }

  // ---------------------------------------------------------------- every text of a number

  function Zeros(n: nat): string {
    seq(n, _ => '0')
  }

  /** Any number of zeros, and perhaps a plus sign, in front of the printed number. */
  ghost predicate Spells(s: string, n: nat) {
    exists k: nat :: s == Zeros(k) + Print(n) || s == "+" + (Zeros(k) + Print(n))
  }

  lemma {:induction false} ValueOfZeros(k: nat, digits: string)
    requires AllDigits(digits)
    ensures AllDigits(Zeros(k) + digits) && Value(Zeros(k) + digits) == Value(digits)
    decreases k + |digits|
  {
    var s := Zeros(k) + digits;
    if digits != "" {
      assert s[..|s| - 1] == Zeros(k) + digits[..|digits| - 1];
      ValueOfZeros(k, digits[..|digits| - 1]);
    } else if k > 0 {
      assert s[..|s| - 1] == Zeros(k - 1) + "";
      ValueOfZeros(k - 1, "");
    }
  }

  lemma OneMoreDigit(k: nat, n: nat, last: char)
    requires IsDigit(last)
    ensures var m := 10 * n + (last as nat - '0' as nat);
            Zeros(k) + Print(n) + [last] == if n == 0 then Zeros(k + 1) + Print(m) else Zeros(k) + Print(m)
  {
    var m := 10 * n + (last as nat - '0' as nat);
    if n == 0 {
      assert Print(0) == "0" && Print(m) == [last];
      assert Zeros(k) + "0" == Zeros(k + 1);
    } else {
      assert Print(m) == Print(n) + [last];
    }
  }

  lemma ValueSnoc(front: string, last: char)
    requires AllDigits(front) && IsDigit(last)
    ensures AllDigits(front + [last])
    ensures Value(front + [last]) == 10 * Value(front) + (last as nat - '0' as nat)
  {
    assert (front + [last])[..|front|] == front;
  }

  lemma OneDigit(last: char)
    requires IsDigit(last)
    ensures AllDigits([last]) && [last] == Zeros(0) + Print(Value([last]))
  {
    ValueSnoc("", last);
    assert [last] == "" + [last];
    assert Print(Value([last])) == [last];
  }

  lemma {:induction false} DigitsSpell(digits: string) returns (k: nat)
    requires digits != "" && AllDigits(digits)
    ensures digits == Zeros(k) + Print(Value(digits))
    decreases |digits|
  {
    var front, last := digits[..|digits| - 1], digits[|digits| - 1];
    assert IsDigit(last);
    assert digits == front + [last];
    if front == "" {
      OneDigit(last);
      assert digits == [last];
      k := 0;
    } else {
      var n := DigitsSpell(front);
      ValueSnoc(front, last);
      OneMoreDigit(n, Value(front), last);
      k := if Value(front) == 0 then n + 1 else n;
    }
  }

  lemma UnsignedSpelling(k: nat, n: nat)
    ensures Unsigned(Zeros(k) + Print(n)) == Zeros(k) + Print(n)
    ensures Unsigned("+" + (Zeros(k) + Print(n))) == Zeros(k) + Print(n)
  {
    var digits := Zeros(k) + Print(n);
    assert IsDigit(digits[0]) by {
      assert k == 0 ==> digits[0] == Print(n)[0] && Print(n)[0] in Print(n);
    }
    assert ("+" + digits)[1..] == digits;
  }

  /** Exactly the texts of a number that fits parse, and as that number. */
  lemma ParsesExactly(s: string, n: nat)
    ensures ParseUsize(s) == Some(n) <==> n <= USIZE_MAX && Spells(s, n)
  {
    var digits := Unsigned(s);
    if ParseUsize(s) == Some(n) {
      var k := DigitsSpell(digits);
      assert s == Zeros(k) + Print(n) || s == "+" + (Zeros(k) + Print(n));
    }
    if Spells(s, n) {
      var k: nat :| s == Zeros(k) + Print(n) || s == "+" + (Zeros(k) + Print(n));
      UnsignedSpelling(k, n);
      ValueOfZeros(k, Print(n));
      ValuePrint(n);
    }
  }
}
