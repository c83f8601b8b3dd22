/** Numbers as digit strings in any base from 2 to 36. */
module Numbers {
  import opened Words
  import opened Bits

  function DigitChar(d: nat): Byte
    requires d < 36
  {
    if d < 10 then '0' as int + d else 'a' as int + (d - 10)
  }

  /** `digits[nr % base]` */
  function LastDigit(n: nat, base: nat): Byte
    requires 2 <= base <= 36
  {
    DigitChar(n % base)
  }

  function CharValue(c: Byte): nat {
    if '0' as int <= c <= '9' as int then c - '0' as int
    else if 'a' as int <= c <= 'z' as int then c - 'a' as int + 10
    else 36
  }

  /** The digits of `n`, most significant first. */
  function Digits(n: nat, base: nat): (s: seq<Byte>)
    requires 2 <= base <= 36
    ensures s != []
    decreases n
  {
    if n < base then [DigitChar(n)] else
    SmallerQuotient(n, base);
    Digits(n / base, base) + [LastDigit(n, base)]
  }

  lemma {:induction false} AtLeastTwice(base: nat, q: nat)
    requires 2 <= base
    ensures 2 * q <= base * q
  {
    if base > 2 {
      AtLeastTwice(base - 1, q);
      assert base * q == (base - 1) * q + q;
    }
  }

  lemma SmallerQuotient(n: nat, base: nat)
    requires 2 <= base <= n
    ensures 0 < n / base && 2 * (n / base) <= n
    ensures n == base * (n / base) + n % base
  {
    var q := n / base;
    assert n == base * q + n % base;
    AtLeastTwice(base, q);
  }

  lemma QuotientZero(n: nat, base: nat)
    requires 2 <= base
    ensures n / base == 0 <==> n < base
  {
    var q := n / base;
    assert n == base * q + n % base;
    if q > 0 {
      assert base * q == base + base * (q - 1);
    }
  }

  lemma OneDigit(n: nat, base: nat)
    requires 2 <= base <= 36 && n / base == 0
    ensures Digits(n, base) == [LastDigit(n, base)]
  {
    QuotientZero(n, base);
    assert n == base * (n / base) + n % base;
  }

  lemma NextDigit(n: nat, base: nat)
    requires 2 <= base <= 36 && n / base != 0
    ensures Digits(n, base) == Digits(n / base, base) + [LastDigit(n, base)]
    ensures n / base < n
  {
    QuotientZero(n, base);
    SmallerQuotient(n, base);
  }

  /** Moving a digit from the number to the digits already produced. */
  lemma DigitStep(n: nat, base: nat, q: nat, done: seq<Byte>)
    requires 2 <= base <= 36 && q == n / base
    ensures q == 0 ==> Digits(n, base) + done == [LastDigit(n, base)] + done
    ensures q != 0 ==> q < n && Digits(n, base) + done == Digits(q, base) + ([LastDigit(n, base)] + done)
  {
    if q == 0 {
      OneDigit(n, base);
    } else {
      NextDigit(n, base);
      assert (Digits(q, base) + [LastDigit(n, base)]) + done == Digits(q, base) + ([LastDigit(n, base)] + done);
    }
  }

  /** Reading digits from left to right. */
  function Value(s: seq<Byte>, base: nat): nat {
    if s == [] then 0 else Value(s[..|s| - 1], base) * base + CharValue(s[|s| - 1])
  }

  lemma DigitValue(d: nat)
    requires d < 36
    ensures CharValue(DigitChar(d)) == d
  {
  }

  lemma {:induction false} DigitsInBase(n: nat, base: nat)
    requires 2 <= base <= 36
    ensures forall i: nat | i < |Digits(n, base)| :: CharValue(Digits(n, base)[i]) < base
    decreases n
  {
    DigitValue(n % base);
    if n < base {
      DigitValue(n);
    } else {
      SmallerQuotient(n, base);
      DigitsInBase(n / base, base);
    }
  }

  lemma {:induction false} RoundTrip(n: nat, base: nat)
    requires 2 <= base <= 36
    ensures Value(Digits(n, base), base) == n
    ensures forall i: nat | i < |Digits(n, base)| :: CharValue(Digits(n, base)[i]) < base
    decreases n
  {
    DigitsInBase(n, base);
    var s := Digits(n, base);
    if n < base {
      DigitValue(n);
      assert s[..0] == [];
    } else {
      var q, r := n / base, n % base;
      SmallerQuotient(n, base);
      RoundTrip(q, base);
      DigitValue(r);
      assert s[..|s| - 1] == Digits(q, base);
      assert Value(s, base) == q * base + r;
    }
  }

  /** No leading zero except in "0" itself. */
  lemma {:induction false} NoLeadingZero(n: nat, base: nat)
    requires 2 <= base <= 36
    ensures Digits(n, base)[0] == '0' as int <==> n == 0
    ensures n == 0 ==> Digits(n, base) == ['0' as int]
    decreases n
  {
    if n >= base {
      SmallerQuotient(n, base);
      NoLeadingZero(n / base, base);
    }
  }

  /** A number below 2 to the k has at most k digits, in whatever base. */
  lemma {:induction false} FewDigits(n: nat, base: nat, k: nat)
    requires 2 <= base <= 36 && 0 < k && n < Pow2(k)
    ensures |Digits(n, base)| <= k
    decreases k
  {
    if n >= base {
      SmallerQuotient(n, base);
      if k > 1 {
        FewDigits(n / base, base, k - 1);
      }
    }
  }

  lemma WordDigits(n: Word, base: nat)
    requires 2 <= base <= 36
    ensures |Digits(n, base)| <= 32
  {
    WordWidth();
    FewDigits(n, base, 32);
  }

  // ----- the reference: what it is to be written in a base -----

  /** `s` denotes `n`: digits of the base, with the right value and without a superfluous leading zero. */
  ghost predicate Denotes(s: seq<Byte>, n: nat, base: nat) {
    && s != [] && Value(s, base) == n
    && (forall i: nat | i < |s| :: CharValue(s[i]) < base)
    && (s[0] == 48 ==> |s| == 1)
  }

  lemma DigitsDenote(n: nat, base: nat)
    requires 2 <= base <= 36
    ensures Denotes(Digits(n, base), n, base)
  {
    RoundTrip(n, base);
    NoLeadingZero(n, base);
  }

  lemma QuotientOf(q: nat, r: nat, base: nat)
    requires 2 <= base && r < base
    ensures (q * base + r) / base == q && (q * base + r) % base == r
  {
    var n := q * base + r;
    var p := n / base;
    assert n == base * p + n % base;
    if p < q {
      Apart(base, p, q);
    } else if q < p {
      Apart(base, q, p);
    }
  }

  lemma {:induction false} Apart(base: nat, p: nat, q: nat)
    requires p < q
    ensures base * q >= base * p + base
  {
    assert base * q == base * (q - 1) + base;
    if p < q - 1 {
      Apart(base, p, q - 1);
    }
  }

  lemma SameDigit(c: Byte, d: nat)
    requires d < 36 && CharValue(c) == d
    ensures c == DigitChar(d)
  {
  }

  lemma {:induction false} PositiveValue(s: seq<Byte>, base: nat)
    requires s != [] && 2 <= base && CharValue(s[0]) > 0
    ensures Value(s, base) > 0
  {
    if |s| > 1 {
      PositiveValue(s[..|s| - 1], base);
      Apart(base, 0, Value(s[..|s| - 1], base));
    }
  }

  /** A number is denoted by one string only. */
  lemma {:induction false} DenotedOnce(s: seq<Byte>, n: nat, base: nat)
    requires 2 <= base <= 36 && Denotes(s, n, base)
    ensures s == Digits(n, base)
    decreases |s|
  {
    var front, last := s[..|s| - 1], s[|s| - 1];
    var q, r := Value(front, base), CharValue(last);
    QuotientOf(q, r, base);
    SameDigit(last, r);
    assert s == front + [last];
    if |s| == 1 {
      assert n == r;
    } else {
      if CharValue(s[0]) == 0 {
        SameDigit(s[0], 0);
      }
      PositiveValue(front, base);
      DenotedOnce(front, q, base);
      NextDigit(n, base);
    }
  }
}
