/** The C and C++ library functions on text that the parser, the queue and the status file use. */
module CText {
  import opened Bytes

  const NEWLINE: char := '\n'

  /** The position of the first `c`, or the length. */
  function Find(s: string, c: char): (i: nat)
    ensures i <= |s| && (i < |s| ==> s[i] == c)
    ensures forall j | 0 <= j < i :: s[j] != c
  {
    if s == [] || s[0] == c then 0 else 1 + Find(s[1..], c)
  }

  lemma FindAfter(a: string, c: char, b: string)
    requires c !in a
    ensures Find(a + [c] + b, c) == |a|
  {
    var s := a + [c] + b;
    var i := Find(s, c);
    assert s[|a|] == c;
    assert forall j | 0 <= j < |a| :: s[j] == a[j];
  }

  function Digit(d: nat): char
    requires d < 10
  {
    ['0', '1', '2', '3', '4', '5', '6', '7', '8', '9'][d]
  }

  predicate IsDigit(c: char) {
    '0' <= c <= '9'
  }

  predicate IsSpace(c: char) {
    c == ' ' || '\t' <= c <= '\r'
  }

  /** The white space of the C locale: tab, newline, vertical tab, form feed, carriage return, blank. */
  lemma WhiteSpaceIs(c: char)
    ensures IsSpace(c) <==> c as int in {9, 10, 11, 12, 13, 32}
  {}

  function DigitValue(c: char): (d: nat)
    requires IsDigit(c)
    ensures d < 10
  {
    c as int - '0' as int
  }

  function Digits(n: nat): (s: string)
    ensures s != [] && forall i | 0 <= i < |s| :: IsDigit(s[i])
  {
    if n < 10 then [Digit(n)] else Digits(n / 10) + [Digit(n % 10)]
  }

  /** `std::to_string`. */
  function ToString(n: int): (s: string)
    ensures s != [] && forall i | 0 <= i < |s| :: IsDigit(s[i]) || s[i] == '-'
  {
    if n < 0 then ['-'] + Digits(-n) else Digits(n)
  }

  function Value(s: string): nat
    requires forall i | 0 <= i < |s| :: IsDigit(s[i])
  {
    if s == [] then 0 else 10 * Value(s[..|s| - 1]) + DigitValue(s[|s| - 1])
  }

  /** The longest prefix made of digits. */
  function DigitPrefix(s: string): (r: string)
    ensures r <= s && forall i | 0 <= i < |r| :: IsDigit(r[i])
    ensures |r| < |s| ==> !IsDigit(s[|r|])
  {
    if s == [] || !IsDigit(s[0]) then [] else [s[0]] + DigitPrefix(s[1..])
  }

  function SkipSpaces(s: string): string {
    if s != [] && IsSpace(s[0]) then SkipSpaces(s[1..]) else s
  }

  /** The number written by a sign and some digits, if it is an `int`. */
  function InRange(negative: bool, ds: string): Option<int>
    requires forall i | 0 <= i < |ds| :: IsDigit(ds[i])
  {
    var v: int := if negative then 0 - Value(ds) else Value(ds);
    if ds != [] && INT_MIN <= v <= INT_MAX then Some(v) else None
  }

  /** `std::stoi`: leading white space, a sign, digits, anything; None where it throws. */
  function Stoi(s: string): Option<int> {
    var t := SkipSpaces(s);
    if t != [] && t[0] == '-' then InRange(true, DigitPrefix(t[1..]))
    else if t != [] && t[0] == '+' then InRange(false, DigitPrefix(t[1..]))
    else InRange(false, DigitPrefix(t))
  }

  /** No zero is written in front of a number. */
  lemma {:induction false} NoLeadingZero(n: nat)
    ensures Digits(n)[0] == '0' ==> n == 0 && |Digits(n)| == 1
  {
    if n >= 10 {
      NoLeadingZero(n / 10);
    }
  }

  lemma {:induction false} ValueOfDigits(n: nat)
    ensures Value(Digits(n)) == n
  {
    var s := Digits(n);
    if n < 10 {
      assert s[..0] == [];
    } else {
      ValueOfDigits(n / 10);
      assert s[..|s| - 1] == Digits(n / 10);
    }
  }

  /** `atoi`: like `stoi`, but 0 where there are no digits and without a range check. */
  function Atoi(s: string): int {
    var t := SkipSpaces(s);
    if t != [] && t[0] == '-' then 0 - Value(DigitPrefix(t[1..]))
    else if t != [] && t[0] == '+' then Value(DigitPrefix(t[1..]))
    else Value(DigitPrefix(t))
  }

  /** An `int` stored in an `unsigned int`. */
  function ToUnsigned(n: int): (u: nat)
    ensures u < 0x1_0000_0000
    ensures 0 <= n < 0x1_0000_0000 ==> u == n
    ensures INT_MIN <= n < 0 ==> u == 0x1_0000_0000 + n
  {
    n % 0x1_0000_0000
  }

  // ---------- What the two conversions read from any text ----------

  predicate AllSpaces(s: string) {
    forall i | 0 <= i < |s| :: IsSpace(s[i])
  }

  predicate AllDigits(s: string) {
    forall i | 0 <= i < |s| :: IsDigit(s[i])
  }

  function Pow10(n: nat): nat {
    if n == 0 then 1 else 10 * Pow10(n - 1)
  }

  /** The value is decimal: the first digit counts for ten to the number of digits behind it. */
  lemma {:induction false} ValueIsDecimal(ds: string)
    requires AllDigits(ds) && ds != []
    ensures Value(ds) == (ds[0] as int - '0' as int) * Pow10(|ds| - 1) + Value(ds[1..])
    decreases |ds|
  {
    var n := |ds| - 1;
    if n > 0 {
      ValueIsDecimal(ds[..n]);
      assert ds[..n][1..] == ds[1..][..n - 1] && ds[1..][n - 1] == ds[n];
      ScaleUp(ds[0] as int - '0' as int, Pow10(n - 1), Value(ds[1..][..n - 1]));
    } else {
      assert ds[..0] == [] && ds[1..] == [];
    }
  }

  lemma ScaleUp(d: int, p: int, v: int)
    ensures 10 * (d * p + v) == d * (10 * p) + 10 * v
  {}

  lemma {:induction false} SkipsSpaces(w: string, t: string)
    requires AllSpaces(w) && (t == [] || !IsSpace(t[0]))
    ensures SkipSpaces(w + t) == t
    decreases |w|
  {
    if w == [] {
      assert w + t == t;
    } else {
      assert (w + t)[1..] == w[1..] + t;
      SkipsSpaces(w[1..], t);
    }
  }

  lemma DigitsFirst(ds: string, rest: string)
    requires AllDigits(ds) && (rest == [] || !IsDigit(rest[0]))
    ensures DigitPrefix(ds + rest) == ds
  {
    var r, s := DigitPrefix(ds + rest), ds + rest;
    hide DigitPrefix;
    assert forall i | 0 <= i < |ds| :: s[i] == ds[i];
    assert rest != [] ==> s[|ds|] == rest[0];
    assert r == s[..|r|];
  }

  /** White space, a sign or none, digits, and a rest that starts where the number cannot go on. */
  predicate NumberText(w: string, sign: string, ds: string, rest: string) {
    && AllSpaces(w) && (sign == "" || sign == "+" || sign == "-") && AllDigits(ds)
    && (rest != [] ==> !IsDigit(rest[0]) && (sign + ds == [] ==> !IsSpace(rest[0]) && rest[0] != '+' && rest[0] != '-'))
  }

  function Signed(sign: string, n: nat): int {
    if sign == "-" then 0 - n else n
  }

  /**
   * What `atoi` and `stoi` read: the signed decimal value of the digits, whatever follows them;
   * without digits 0 and an exception, out of the range of `int` only `stoi` objects.
   */
  lemma NumbersRead(w: string, sign: string, ds: string, rest: string)
    requires NumberText(w, sign, ds, rest)
    ensures var s, v := w + (sign + (ds + rest)), Signed(sign, Value(ds));
            && Atoi(s) == v
            && Stoi(s) == if ds != [] && INT_MIN <= v <= INT_MAX then Some(v) else None
  {
    hide SkipSpaces, DigitPrefix, Value, AllSpaces, AllDigits;
    var t := sign + (ds + rest);
    SignFirst(sign, ds, rest);
    SkipsSpaces(w, t);
    DigitsFirst(ds, rest);
  }

  lemma SignFirst(sign: string, ds: string, rest: string)
    requires NumberText([], sign, ds, rest)
    ensures var t := sign + (ds + rest);
            && (t != [] ==> !IsSpace(t[0]))
            && (t != [] && t[0] == '-' <==> sign == "-") && (t != [] && t[0] == '+' <==> sign == "+")
            && (if sign == "" then t == ds + rest else t[1..] == ds + rest)
  {
    var t := sign + (ds + rest);
    assert t != [] ==> t[0] == if sign != [] then sign[0] else if ds != [] then ds[0] else rest[0];
  }

  lemma {:induction false} SpacesSplit(s: string)
    ensures var t := SkipSpaces(s);
            |t| <= |s| && s[|s| - |t|..] == t && AllSpaces(s[..|s| - |t|]) && (t == [] || !IsSpace(t[0]))
    decreases |s|
  {
    if s != [] && IsSpace(s[0]) {
      SpacesSplit(s[1..]);
      var n := |s| - |SkipSpaces(s)|;
      assert s[1..][..n - 1] == s[1..n];
      assert s[..n] == [s[0]] + s[1..n];
    }
  }

  lemma SignSplit(t: string) returns (sign: string, u: string)
    requires t == [] || !IsSpace(t[0])
    ensures (sign == "" || sign == "+" || sign == "-") && t == sign + u
    ensures sign == [] && u != [] ==> !IsSpace(u[0]) && u[0] != '+' && u[0] != '-'
  {
    if t != [] && (t[0] == '+' || t[0] == '-') {
      sign, u := [t[0]], t[1..];
    } else {
      sign, u := [], t;
    }
  }

  lemma DigitSplit(u: string) returns (ds: string, rest: string)
    ensures AllDigits(ds) && u == ds + rest && (rest != [] ==> !IsDigit(rest[0]))
  {
    hide DigitPrefix;
    ds := DigitPrefix(u);
    rest := u[|ds|..];
  }

  /** And every text can be taken apart like this, so the two are known on all of them. */
  lemma EveryTextReads(s: string) returns (w: string, sign: string, ds: string, rest: string)
    ensures NumberText(w, sign, ds, rest) && s == w + (sign + (ds + rest))
  {
    hide SkipSpaces, AllSpaces, AllDigits;
    var t, u := SkipSpaces(s), [];
    SpacesSplit(s);
    w := s[..|s| - |t|];
    sign, u := SignSplit(t);
    ds, rest := DigitSplit(u);
    assert sign + ds == [] ==> sign == [] && rest == u;
  }

  /** Reading a printed integer gives it back; `stoi` over the range of `int`. */
  lemma AtoiOfToString(n: int)
    ensures Atoi(ToString(n)) == n
    ensures INT_MIN <= n <= INT_MAX ==> Stoi(ToString(n)) == Some(n)
  {
    hide Atoi, Stoi, Digits, Value;
    var k: nat := if n < 0 then -n else n;
    var sign := if n < 0 then "-" else "";
    ValueOfDigits(k);
    assert ToString(n) == sign + Digits(k) == [] + (sign + (Digits(k) + []));
    NumbersRead([], sign, Digits(k), []);
  }

  lemma StoiOfToString(n: int)
    requires INT_MIN <= n <= INT_MAX
    ensures Stoi(ToString(n)) == Some(n)
  {
    hide Stoi, ToString;
    AtoiOfToString(n);
  }
}
