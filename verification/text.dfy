/** Strings as the program sees them: Python's ordering of `str` values
    (used by `sorted` on month keys) and the fixed-width decimal fields
    written by `strftime`. */
module Text {

  /** Python's `a < b` on strings: the first differing character decides by
      code point, and a proper prefix comes before its extensions. */
  predicate Below(a: string, b: string)
    decreases |a|
  {
    if |a| == 0 then |b| > 0
    else if |b| == 0 then false
    else if a[0] != b[0] then a[0] < b[0]
    else Below(a[1..], b[1..])
  }

  lemma {:induction false} BelowIrreflexive(a: string)
    ensures !Below(a, a)
    decreases |a|
  {
    if |a| > 0 {
      BelowIrreflexive(a[1..]);
    }
  }

  lemma {:induction false} BelowAsymmetric(a: string, b: string)
    ensures Below(a, b) ==> !Below(b, a)
    decreases |a|
  {
    if |a| > 0 && |b| > 0 && a[0] == b[0] {
      BelowAsymmetric(a[1..], b[1..]);
    }
  }

  lemma {:induction false} BelowTransitive(a: string, b: string, c: string)
    requires Below(a, b) && Below(b, c)
    ensures Below(a, c)
    decreases |a|
  {
    if |a| > 0 && a[0] == b[0] && b[0] == c[0] {
      BelowTransitive(a[1..], b[1..], c[1..]);
    }
  }

  /** Any two distinct strings are ordered one way or the other. */
  lemma {:induction false} BelowTotal(a: string, b: string)
    ensures a == b || Below(a, b) || Below(b, a)
    decreases |a|
  {
    if |a| > 0 && |b| > 0 && a[0] == b[0] {
      BelowTotal(a[1..], b[1..]);
      if a[1..] == b[1..] {
        assert a == [a[0]] + a[1..];
        assert b == [b[0]] + b[1..];
      }
    }
  }

  /** Comparing two strings whose leading parts have the same length:
      the leading parts decide unless they are equal. */
  lemma {:induction false} BelowAppend(p: string, q: string, s: string, t: string)
    requires |p| == |q|
    ensures Below(p + s, q + t) <==> Below(p, q) || (p == q && Below(s, t))
    decreases |p|
  {
    if |p| > 0 {
      assert (p + s)[0] == p[0] && (q + t)[0] == q[0];
      assert (p + s)[1..] == p[1..] + s;
      assert (q + t)[1..] == q[1..] + t;
      BelowAppend(p[1..], q[1..], s, t);
      if p[0] == q[0] && p[1..] == q[1..] {
        assert p == [p[0]] + p[1..] && q == [q[0]] + q[1..];
      }
    } else {
      assert p + s == s && q + t == t;
    }
  }

  predicate IsDigit(c: char) {
    '0' <= c <= '9'
  }

  predicate AllDigits(s: string) {
    forall i :: 0 <= i < |s| ==> IsDigit(s[i])
  }

  function Digit(n: int): (c: char)
    requires 0 <= n <= 9
    ensures IsDigit(c)
  {
    ('0' as int + n) as char
  }

  function DigitValue(c: char): (n: int)
    requires IsDigit(c)
    ensures 0 <= n <= 9 && Digit(n) == c
  {
    c as int - '0' as int
  }

  /** The decimal value of a string of digits. */
  function ReadNat(s: string): nat
    requires AllDigits(s)
    decreases |s|
  {
    if |s| == 0 then 0
    else
      assert AllDigits(s[..|s| - 1]);
      10 * ReadNat(s[..|s| - 1]) + DigitValue(s[|s| - 1])
  }

  /** Reading a string with one more digit at the end. */
  lemma ReadNatSnoc(s: string, c: char)
    requires AllDigits(s) && IsDigit(c)
    ensures AllDigits(s + [c]) && ReadNat(s + [c]) == 10 * ReadNat(s) + DigitValue(c)
  {
    assert (s + [c])[..|s|] == s;
  }

  lemma ReadNatTwo(a: string, c: char, d: char)
    requires AllDigits(a) && IsDigit(c) && IsDigit(d)
    ensures AllDigits(a + [c, d])
    ensures ReadNat(a + [c, d]) == 100 * ReadNat(a) + 10 * DigitValue(c) + DigitValue(d)
  {
    ReadNatSnoc(a, c);
    ReadNatSnoc(a + [c], d);
    assert a + [c] + [d] == a + [c, d];
  }

  /** `%02d`: a number below 100 as exactly two digits, zero-padded. */
  function Pad2(n: int): (r: string)
    requires 0 <= n < 100
    ensures |r| == 2 && AllDigits(r)
    ensures ReadNat(r) == n
  {
    var r := [Digit(n / 10), Digit(n % 10)];
    ReadNatTwo([], r[0], r[1]);
    assert [] + [r[0], r[1]] == r;
    r
  }

  /** `%04d`: a number below 10000 as exactly four digits, zero-padded. */
  function Pad4(n: int): (r: string)
    requires 0 <= n < 10000
    ensures |r| == 4 && AllDigits(r)
    ensures ReadNat(r) == n
  {
    var hi, lo := Pad2(n / 100), Pad2(n % 100);
    var r := hi + lo;
    ReadNatTwo(hi, lo[0], lo[1]);
    ReadNatTwo([], lo[0], lo[1]);
    assert [] + [lo[0], lo[1]] == lo && hi + [lo[0], lo[1]] == r;
    r
  }

  /** Two-digit strings are exactly the padded numbers below 100. */
  lemma Pad2OfRead(s: string)
    requires |s| == 2 && AllDigits(s)
    ensures ReadNat(s) < 100 && Pad2(ReadNat(s)) == s
  {
    ReadNatTwo([], s[0], s[1]);
    assert [] + [s[0], s[1]] == s;
  }

  /** Four-digit strings are exactly the padded numbers below 10000. */
  lemma Pad4OfRead(s: string)
    requires |s| == 4 && AllDigits(s)
    ensures ReadNat(s) < 10000 && Pad4(ReadNat(s)) == s
  {
    var hi, lo := s[..2], s[2..];
    assert AllDigits(hi) && AllDigits(lo);
    Pad2OfRead(hi);
    Pad2OfRead(lo);
    ReadNatTwo(hi, lo[0], lo[1]);
    ReadNatTwo([], lo[0], lo[1]);
    assert [] + [lo[0], lo[1]] == lo;
    assert hi + [lo[0], lo[1]] == s;
    var a, b := ReadNat(hi), ReadNat(lo);
    assert ReadNat(s) == 100 * a + b;
    DivMod100(a, b);
  }

  lemma DivMod100(a: int, b: int)
    requires 0 <= a && 0 <= b < 100
    ensures (100 * a + b) / 100 == a && (100 * a + b) % 100 == b
  {
  }

  /** On padded numbers, string order is numeric order. */
  lemma Pad2Order(m: int, n: int)
    requires 0 <= m < 100 && 0 <= n < 100
    ensures Below(Pad2(m), Pad2(n)) <==> m < n
  {
    var a, b := Pad2(m), Pad2(n);
    assert a[1..][1..] == [] && b[1..][1..] == [];
    BelowIrreflexive([]);
    assert m == 10 * (m / 10) + m % 10;
    assert n == 10 * (n / 10) + n % 10;
  }

  lemma Pad4Order(m: int, n: int)
    requires 0 <= m < 10000 && 0 <= n < 10000
    ensures Below(Pad4(m), Pad4(n)) <==> m < n
  {
    BelowAppend(Pad2(m / 100), Pad2(n / 100), Pad2(m % 100), Pad2(n % 100));
    Pad2Order(m / 100, n / 100);
    Pad2Order(m % 100, n % 100);
    assert m == 100 * (m / 100) + m % 100;
    assert n == 100 * (n / 100) + n % 100;
  }
}
