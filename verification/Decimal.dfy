/** Decimal numerals without sign, separators or leading zeros. */
module Decimal {
  import opened Utf8

  function Digit(d: nat): (c: char)
    requires d < 10
    ensures '0' <= c <= '9' && c as int - '0' as int == d
  {
    d as char + '0'
  }

  predicate AllDigits(s: Text) { forall c | c in s :: IsDigit(c) }

  /** How `n` is printed. */
  function Digits(n: nat): (s: Text)
    ensures s != [] && AllDigits(s)
  {
    if n < 10 then [Digit(n)] else Digits(n / 10) + [Digit(n % 10)]
  }

  /** The number a run of digits stands for, leading zeros or none. */
  function Value(s: Text): nat
    requires AllDigits(s)
  {
    if s == [] then 0
    else
      var last := s[|s| - 1];
      assert last in s && IsDigit(last);
      10 * Value(s[..|s| - 1]) + (last as int - '0' as int)
  }

  lemma {:induction false} ValueOfDigits(n: nat)
    ensures Value(Digits(n)) == n
  {
    if n >= 10 {
      ValueOfDigits(n / 10);
      assert Digits(n)[..|Digits(n)| - 1] == Digits(n / 10);
    }
  }

  /** A numeral without superfluous zeros is what its value prints as. */
  lemma {:induction false} DigitsOfValue(s: Text)
    requires s != [] && AllDigits(s) && (s[0] == '0' ==> |s| == 1)
    ensures Digits(Value(s)) == s && (|s| > 1 ==> Value(s) > 0)
  {
    var last := s[|s| - 1];
    assert last in s && IsDigit(last);
    if |s| > 1 {
      var front := s[..|s| - 1];
      assert forall c | c in front :: c in s;
      assert front[0] == s[0];
      DigitsOfValue(front);
      if |front| == 1 {
        assert front[0] in s && IsDigit(front[0]) && front[0] != '0';
        assert Value(front) == 10 * Value(front[..0]) + (front[0] as int - '0' as int);
      }
      assert s == front + [last];
    } else {
      assert Value(s) == 10 * Value(s[..0]) + (last as int - '0' as int);
      assert s == [last];
    }
  }

  function Pow10(k: nat): (p: nat)
    ensures p >= 1
  {
    if k == 0 then 1 else 10 * Pow10(k - 1)
  }

  lemma {:induction false} DigitsAtMost(n: nat, k: nat)
    requires n < Pow10(k) && k >= 1
    ensures |Digits(n)| <= k
  {
    if n >= 10 {
      assert k > 1;
      DigitsAtMost(n / 10, k - 1);
    }
  }

  /** `Display` of a signed integer. */
  function Signed(v: int): Text {
    if v < 0 then "-" + Digits(-v) else Digits(v)
  }
}
