/** Decimal text and string order as the Java library defines them: Integer.toString,
  * Integer.parseInt and String.compareTo. Strings are sequences of Unicode scalar values, which
  * agree with Java's UTF-16 strings on text inside the Basic Multilingual Plane. Only ASCII
  * digits are modelled. */
module Text {
  import opened Wrappers

  /** The range of a Java `int`. */
  const IntMin: int := -0x8000_0000
  const IntMax: int := 0x7fff_ffff

  predicate IsDigit(c: char) {
    '0' <= c <= '9'
  }

  predicate AllDigits(s: string) {
    forall i | 0 <= i < |s| :: IsDigit(s[i])
  }

  function DigitValue(c: char): (k: int)
    requires IsDigit(c)
    ensures 0 <= k < 10
  {
    c as int - '0' as int
  }

  function DigitChar(k: int): (c: char)
    requires 0 <= k < 10
    ensures IsDigit(c) && DigitValue(c) == k
  {
    (k + '0' as int) as char
  }

  function Pow10(w: nat): (p: nat)
    ensures p >= 1
  {
    if w == 0 then 1 else 10 * Pow10(w - 1)
  }

  /** The last `w` decimal digits of `n`, most significant first, padded with zeros. */
  function Fixed(n: nat, w: nat): (s: string)
    ensures |s| == w && AllDigits(s)
  {
    if w == 0 then [] else Fixed(n / 10, w - 1) + [DigitChar(n % 10)]
  }

  /** The decimal digits of `n` without leading zeros (`Integer.toString` of a non-negative value). */
  function Digits(n: nat): (s: string)
    ensures |s| >= 1 && AllDigits(s)
  {
    if n < 10 then [DigitChar(n)] else Digits(n / 10) + [DigitChar(n % 10)]
  }

  /** Integer.toString */
  function IntToString(n: int): string {
    if n < 0 then "-" + Digits(-n) else Digits(n)
  }

  /** The value of a non-empty or empty run of decimal digits. */
  function DecimalValue(s: string): (n: nat)
    requires AllDigits(s)
    decreases |s|
  {
    if s == [] then 0 else DecimalValue(s[..|s| - 1]) * 10 + DigitValue(s[|s| - 1])
  }

  /** The digits of a numeral: the text after an optional leading sign. */
  function Unsigned(s: string): string
    requires |s| >= 1
  {
    if s[0] == '-' || s[0] == '+' then s[1..] else s
  }

  /** The value a numeral denotes: its digits read in decimal, negated after a '-'. */
  function SignedValue(s: string): int
    requires |s| >= 1 && AllDigits(Unsigned(s))
  {
    if s[0] == '-' then -(DecimalValue(Unsigned(s)) as int) else DecimalValue(Unsigned(s))
  }

  /** Integer.parseInt(s, 10): an optional sign, at least one digit and nothing else, and a value
    * that fits an `int`; None where Java throws NumberFormatException. */
  function ParseInt(s: string): (r: Option<int>)
    ensures r.Some? ==> IntMin <= r.value <= IntMax
    ensures r.Some? <==>
      |s| >= 1 && Unsigned(s) != [] && AllDigits(Unsigned(s)) && IntMin <= SignedValue(s) <= IntMax
    ensures r.Some? ==> r.value == SignedValue(s)
    ensures r.Some? ==> (r.value < 0 <==> s[0] == '-' && DecimalValue(Unsigned(s)) != 0)
  {
    if |s| == 0 then None
    else if s[0] == '-' || s[0] == '+' then
      var body := s[1..];
      if body == [] || !AllDigits(body) then None
      else
        var v: int := if s[0] == '-' then -(DecimalValue(body) as int) else DecimalValue(body);
        if IntMin <= v <= IntMax then Some(v) else None
    else if !AllDigits(s) then None
    else if DecimalValue(s) <= IntMax then Some(DecimalValue(s))
    else None
  }

  /** parseInt rejects a trailing non-digit and a lone sign, and reads a '+' sign and leading
    * zeros. */
  lemma ParseIntCases()
    ensures ParseInt("1x") == None && ParseInt("-") == None && ParseInt("") == None
    ensures ParseInt("+5") == Some(5) && ParseInt("007") == Some(7) && ParseInt("-12") == Some(-12)
  {
    assert !AllDigits("1x") by { assert !IsDigit("1x"[1]); }
    assert "+5"[1..] == "5";
    assert "-12"[1..] == "12" && "12"[..1] == "1";
    assert "007"[..2] == "00" && "00"[..1] == "0";
  }

  /** String.compareTo's own description of `a.compareTo(b) <= 0`: either `a` is a prefix of `b`,
    * or at the first index where the two differ `a` has the smaller char. */
  ghost predicate CompareToAtMost(a: string, b: string) {
    exists k | 0 <= k <= |a| && k <= |b| :: a[..k] == b[..k] && (k == |a| || (k < |b| && a[k] < b[k]))
  }

  /** `a.compareTo(b) <= 0`, computed one char at a time. */
  predicate LexLessEq(a: string, b: string)
    ensures LexLessEq(a, b) <==> CompareToAtMost(a, b)
    decreases |a|
  {
    CompareToAtMostUnfold(a, b);
    if a == [] then true
    else if b == [] then false
    else if a[0] != b[0] then a[0] < b[0]
    else LexLessEq(a[1..], b[1..])
  }

  /** The first char decides CompareToAtMost unless it is shared, when the rest decides. */
  lemma CompareToAtMostUnfold(a: string, b: string)
    ensures CompareToAtMost(a, b) <==>
      if a == [] then true
      else if b == [] then false
      else if a[0] != b[0] then a[0] < b[0]
      else CompareToAtMost(a[1..], b[1..])
  {
    if a == [] {
      assert a[..0] == b[..0];
    } else if b == [] {
    } else if a[0] != b[0] {
      CompareToAtMostDiffers(a, b);
    } else {
      CompareToAtMostShared(a, b);
    }
  }

  lemma CompareToAtMostDiffers(a: string, b: string)
    requires a != [] && b != [] && a[0] != b[0]
    ensures CompareToAtMost(a, b) <==> a[0] < b[0]
  {
    if a[0] < b[0] {
      assert a[..0] == b[..0];
    } else {
      forall k | 0 < k <= |a| && k <= |b| ensures a[..k] != b[..k] {
        assert a[..k][0] == a[0] && b[..k][0] == b[0];
      }
    }
  }

  lemma CompareToAtMostShared(a: string, b: string)
    requires a != [] && b != [] && a[0] == b[0]
    ensures CompareToAtMost(a, b) <==> CompareToAtMost(a[1..], b[1..])
  {
    if CompareToAtMost(a, b) {
      var k :| 0 <= k <= |a| && k <= |b| && a[..k] == b[..k] && (k == |a| || (k < |b| && a[k] < b[k]));
      assert k > 0;
      assert a[1..][..k - 1] == a[..k][1..] && b[1..][..k - 1] == b[..k][1..];
    }
    if CompareToAtMost(a[1..], b[1..]) {
      var k :| 0 <= k <= |a[1..]| && k <= |b[1..]| && a[1..][..k] == b[1..][..k]
        && (k == |a[1..]| || (k < |b[1..]| && a[1..][k] < b[1..][k]));
      assert a[..k + 1] == [a[0]] + a[1..][..k] && b[..k + 1] == [b[0]] + b[1..][..k];
    }
  }

  lemma {:induction false} DecimalValueOfDigits(n: nat)
    ensures DecimalValue(Digits(n)) == n
  {
    if n >= 10 {
      var s := Digits(n);
      assert s[..|s| - 1] == Digits(n / 10);
      DecimalValueOfDigits(n / 10);
    }
  }

  /** Integer.parseInt reads back what Integer.toString writes. */
  lemma ParseIntOfIntToString(n: int)
    requires IntMin <= n <= IntMax
    ensures ParseInt(IntToString(n)) == Some(n)
  {
    var s := IntToString(n);
    if n < 0 {
      DecimalValueOfDigits(-n);
      assert s[0] == '-' && s[1..] == Digits(-n);
      assert Unsigned(s) == Digits(-n);
    } else {
      DecimalValueOfDigits(n);
      assert IsDigit(s[0]) && Unsigned(s) == Digits(n);
    }
    assert SignedValue(s) == n;
  }

  /** A value with exactly `w` digits is written without padding. */
  lemma {:induction false} DigitsAreFixedWidth(n: nat, w: nat)
    requires w >= 1 && Pow10(w - 1) <= n < Pow10(w)
    ensures Digits(n) == Fixed(n, w)
  {
    if n >= 10 {
      assert w >= 2;
      assert Pow10(w) == 10 * Pow10(w - 1);
      assert Pow10(w - 1) == 10 * Pow10(w - 2);
      DigitsAreFixedWidth(n / 10, w - 1);
    }
  }

  /** A zero-padded numeral reads back as the number it was written from. */
  lemma {:induction false} DecimalValueOfFixed(n: nat, w: nat)
    requires n < Pow10(w)
    ensures DecimalValue(Fixed(n, w)) == n
  {
    if w > 0 {
      var s := Fixed(n, w);
      assert s[..|s| - 1] == Fixed(n / 10, w - 1);
      assert Pow10(w) == 10 * Pow10(w - 1);
      DecimalValueOfFixed(n / 10, w - 1);
    }
  }

  lemma {:induction false} AppendEqual(p: string, q: string, s: string, t: string)
    requires |p| == |q|
    ensures p + s == q + t <==> p == q && s == t
  {
    if p + s == q + t {
      assert p == (p + s)[..|p|] && q == (q + t)[..|q|];
      assert s == (p + s)[|p|..] && t == (q + t)[|q|..];
    }
  }

  /** Comparing two strings whose first parts have the same length compares the first parts,
    * and the second parts only where the first parts are equal. */
  lemma {:induction false} LexLessEqAppend(p: string, q: string, s: string, t: string)
    requires |p| == |q|
    ensures LexLessEq(p + s, q + t) == if p == q then LexLessEq(s, t) else LexLessEq(p, q)
    decreases |p|
  {
    if p == [] {
      assert p + s == s && q + t == t;
    } else {
      assert (p + s)[0] == p[0] && (q + t)[0] == q[0];
      assert (p + s)[1..] == p[1..] + s && (q + t)[1..] == q[1..] + t;
      if p[0] == q[0] {
        LexLessEqAppend(p[1..], q[1..], s, t);
        assert p == [p[0]] + p[1..] && q == [q[0]] + q[1..];
        AppendEqual([p[0]], [q[0]], p[1..], q[1..]);
      }
    }
  }

  /** Zero-padded fixed-width numerals compare like the numbers they denote. */
  lemma {:induction false} FixedOrder(x: nat, y: nat, w: nat)
    requires x < Pow10(w) && y < Pow10(w)
    ensures Fixed(x, w) == Fixed(y, w) <==> x == y
    ensures LexLessEq(Fixed(x, w), Fixed(y, w)) <==> x <= y
  {
    if w > 0 {
      var p, q := Fixed(x / 10, w - 1), Fixed(y / 10, w - 1);
      var s, t := [DigitChar(x % 10)], [DigitChar(y % 10)];
      FixedOrder(x / 10, y / 10, w - 1);
      LexLessEqAppend(p, q, s, t);
      AppendEqual(p, q, s, t);
      assert s[1..] == [] && t[1..] == [];
      assert LexLessEq(s, t) <==> x % 10 <= y % 10;
    }
  }
}
