/** Python's string order and Python's `str` of an integer, the two pieces of
    string behaviour the export relies on. */
module Text {
  import opened Sorting

  /** Python's `a <= b` on `str`: code point by code point, a proper prefix
      ordering first. */
  predicate LexLe(a: string, b: string)
  {
    |a| == 0 || (|b| > 0 && (a[0] < b[0] || (a[0] == b[0] && LexLe(a[1..], b[1..]))))
  }

  lemma {:induction false} LexLeTotal(a: string, b: string)
    ensures LexLe(a, b) || LexLe(b, a)
    decreases |a|
  {
    if |a| > 0 && |b| > 0 && a[0] == b[0] {
      LexLeTotal(a[1..], b[1..]);
    }
  }

  lemma {:induction false} LexLeTransitive(a: string, b: string, c: string)
    requires LexLe(a, b) && LexLe(b, c)
    ensures LexLe(a, c)
    decreases |a|
  {
    if |a| > 0 && a[0] == b[0] && b[0] == c[0] {
      LexLeTransitive(a[1..], b[1..], c[1..]);
    }
  }

  lemma {:induction false} LexLeAntisymmetric(a: string, b: string)
    requires LexLe(a, b) && LexLe(b, a)
    ensures a == b
    decreases |a|
  {
    if |a| > 0 {
      LexLeAntisymmetric(a[1..], b[1..]);
      assert a == [a[0]] + a[1..];
      assert b == [b[0]] + b[1..];
    }
  }

  /** All three order laws at once, in the quantified form the sorts ask for. */
  lemma LexLeIsTotalOrder()
    ensures forall a, b :: LexLe(a, b) || LexLe(b, a)
    ensures forall a, b, c :: LexLe(a, b) && LexLe(b, c) ==> LexLe(a, c)
    ensures forall a, b :: LexLe(a, b) && LexLe(b, a) ==> a == b
  {
    forall a, b ensures LexLe(a, b) || LexLe(b, a) {
      LexLeTotal(a, b);
    }
    forall a, b, c | LexLe(a, b) && LexLe(b, c) ensures LexLe(a, c) {
      LexLeTransitive(a, b, c);
    }
    forall a, b | LexLe(a, b) && LexLe(b, a) ensures a == b {
      LexLeAntisymmetric(a, b);
    }
  }

  predicate IsDigit(c: char)
  {
    '0' <= c <= '9'
  }

  function DigitChar(d: nat): (c: char)
    requires d < 10
    ensures IsDigit(c)
  {
    ('0' as int + d) as char
  }

  function DigitValue(c: char): (d: nat)
    requires IsDigit(c)
    ensures d < 10 && DigitChar(d) == c
  {
    c as int - '0' as int
  }

  /** Decimal digits of `n` without leading zeros ("0" for zero). */
  function NatToString(n: nat): (s: string)
    ensures |s| > 0
    ensures forall i :: 0 <= i < |s| ==> IsDigit(s[i])
    ensures s[0] == '0' ==> n == 0
  {
    if n < 10 then [DigitChar(n)] else NatToString(n / 10) + [DigitChar(n % 10)]
  }

  /** An optional minus sign followed by at least one decimal digit. */
  predicate IsIntLiteral(s: string)
  {
    && |s| > 0
    && (s[0] == '-' || IsDigit(s[0]))
    && (forall i :: 0 < i < |s| ==> IsDigit(s[i]))
  }

  /** Python's `str(n)` for an `int`. */
  function IntToString(n: int): (s: string)
    ensures IsIntLiteral(s)
    ensures n < 0 <==> s[0] == '-'
  {
    if n < 0 then "-" + NatToString(-n) else NatToString(n)
  }

  /** Python's `int(s)` on a string of decimal digits. */
  function ParseNat(s: string): nat
    requires forall i :: 0 <= i < |s| ==> IsDigit(s[i])
  {
    if |s| == 0 then 0 else 10 * ParseNat(s[..|s| - 1]) + DigitValue(s[|s| - 1])
  }

  /** Python's `int(s)` on an optional minus sign followed by decimal digits. */
  function ParseInt(s: string): int
    requires IsIntLiteral(s)
  {
    if s[0] == '-' then -(ParseNat(s[1..]) as int) else ParseNat(s)
  }

  lemma {:induction false} ParseNatToString(n: nat)
    ensures ParseNat(NatToString(n)) == n
  {
    if n >= 10 {
      var s := NatToString(n);
      assert s[..|s| - 1] == NatToString(n / 10);
      ParseNatToString(n / 10);
    }
  }

  /** `int(str(n)) == n`: the decimal rendering loses nothing. */
  lemma ParseIntToString(n: int)
    ensures ParseInt(IntToString(n)) == n
  {
    if n < 0 {
      assert IntToString(n)[1..] == NatToString(-n);
      ParseNatToString(-n);
    } else {
      ParseNatToString(n);
    }
  }

  /** Distinct integers have distinct renderings. */
  lemma IntToStringInjective(a: int, b: int)
    requires IntToString(a) == IntToString(b)
    ensures a == b
  {
    ParseIntToString(a);
    ParseIntToString(b);
  }

  /** Python's `sorted` on a list of `str`: ascending, the same strings. Under
      a total order there is only one such list, whatever the input order. */
  function Ascending(ss: seq<string>): (r: seq<string>)
    ensures Sorted(r, LexLe) && multiset(r) == multiset(ss)
  {
    LexLeIsTotalOrder();
    Sort(ss, LexLe)
  }

  /** The ascending list is determined by the strings alone: any ascending
      rearrangement of `ss` is `Ascending(ss)`, and rearranging `ss` does
      not change it. */
  lemma AscendingUnique(ss: seq<string>, t: seq<string>)
    requires Sorted(t, LexLe) && multiset(t) == multiset(ss)
    ensures t == Ascending(ss)
  {
    LexLeIsTotalOrder();
    SortedPermutationIsSort(ss, t, LexLe);
  }

  lemma AscendingIgnoresOrder(ss: seq<string>, tt: seq<string>)
    requires multiset(ss) == multiset(tt)
    ensures Ascending(ss) == Ascending(tt)
  {
    LexLeIsTotalOrder();
    SortIgnoresInputOrder(ss, tt, LexLe);
  }

  lemma LexLeCons(x: char, s: string, y: char, t: string)
    ensures LexLe([x] + s, [y] + t) <==> x < y || (x == y && LexLe(s, t))
  {
    assert ([x] + s)[1..] == s && ([y] + t)[1..] == t;
  }

  /** A number from 1000 to 9999 renders as its four digits. */
  lemma FourDigits(n: int)
    requires 1000 <= n <= 9999
    ensures IntToString(n)
            == [DigitChar(n / 10 / 10 / 10)] + ([DigitChar(n / 10 / 10 % 10)] + ([DigitChar(n / 10 % 10)] + [DigitChar(n % 10)]))
  {
    var m1 := n / 10;
    var m2 := m1 / 10;
    assert 100 <= m1 <= 999 && 10 <= m2 <= 99 && m2 / 10 < 10;
    assert NatToString(m2) == [DigitChar(m2 / 10)] + [DigitChar(m2 % 10)];
    assert NatToString(m1) == [DigitChar(m2 / 10)] + [DigitChar(m2 % 10)] + [DigitChar(m1 % 10)];
  }

  lemma DigitCharOrder(x: nat, y: nat)
    requires x < 10 && y < 10
    ensures DigitChar(x) < DigitChar(y) <==> x < y
    ensures DigitChar(x) == DigitChar(y) <==> x == y
  {
  }

  /** The four digits of `n`, most significant first. */
  lemma DigitsOf(n: int)
    requires 1000 <= n <= 9999
    ensures n == 1000 * (n / 10 / 10 / 10) + 100 * (n / 10 / 10 % 10) + 10 * (n / 10 % 10) + n % 10
    ensures 0 <= n / 10 / 10 / 10 < 10
  {
    var m1 := n / 10;
    var m2 := m1 / 10;
    assert n == 10 * m1 + n % 10;
    assert m1 == 10 * m2 + m1 % 10;
    assert m2 == 10 * (m2 / 10) + m2 % 10;
  }

  /** Comparing four-digit numbers digit by digit from the left. */
  lemma TupleOrder(a3: int, a2: int, a1: int, a0: int, b3: int, b2: int, b1: int, b0: int)
    requires 0 <= a2 < 10 && 0 <= a1 < 10 && 0 <= a0 < 10
    requires 0 <= b2 < 10 && 0 <= b1 < 10 && 0 <= b0 < 10
    ensures (a3 < b3 || (a3 == b3 && (a2 < b2 || (a2 == b2 && (a1 < b1 || (a1 == b1 && a0 <= b0))))))
            <==> 1000 * a3 + 100 * a2 + 10 * a1 + a0 <= 1000 * b3 + 100 * b2 + 10 * b1 + b0
  {
  }

  /** For four-digit years, and only there, `sorted` on their strings is
      numeric order: "1000" comes before "999". */
  lemma FourDigitOrder(a: int, b: int)
    requires 1000 <= a <= 9999 && 1000 <= b <= 9999
    ensures LexLe(IntToString(a), IntToString(b)) <==> a <= b
  {
    var a3, a2, a1, a0 := a / 10 / 10 / 10, a / 10 / 10 % 10, a / 10 % 10, a % 10;
    var b3, b2, b1, b0 := b / 10 / 10 / 10, b / 10 / 10 % 10, b / 10 % 10, b % 10;
    DigitsOf(a);
    DigitsOf(b);
    FourDigits(a);
    FourDigits(b);
    DigitCharOrder(a3, b3);
    DigitCharOrder(a2, b2);
    DigitCharOrder(a1, b1);
    DigitCharOrder(a0, b0);
    LexLeCons(DigitChar(a3), [DigitChar(a2)] + ([DigitChar(a1)] + [DigitChar(a0)]),
              DigitChar(b3), [DigitChar(b2)] + ([DigitChar(b1)] + [DigitChar(b0)]));
    LexLeCons(DigitChar(a2), [DigitChar(a1)] + [DigitChar(a0)], DigitChar(b2), [DigitChar(b1)] + [DigitChar(b0)]);
    LexLeCons(DigitChar(a1), [DigitChar(a0)], DigitChar(b1), [DigitChar(b0)]);
    LexLeCons(DigitChar(a0), [], DigitChar(b0), []);
    TupleOrder(a3, a2, a1, a0, b3, b2, b1, b0);
  }

  /** Outside four digits string order and numeric order part ways. */
  lemma ShortYearSortsLast()
    ensures LexLe(IntToString(1000), IntToString(999)) && !LexLe(IntToString(999), IntToString(1000))
  {
    FourDigits(1000);
    assert IntToString(999) == [DigitChar(9)] + ([DigitChar(9)] + [DigitChar(9)]);
    LexLeCons(DigitChar(1), "000", DigitChar(9), [DigitChar(9)] + [DigitChar(9)]);
    LexLeCons(DigitChar(9), [DigitChar(9)] + [DigitChar(9)], DigitChar(1), "000");
  }
}
