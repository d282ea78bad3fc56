/** Decimal numbers as C prints and reads them. */
module CNumbers {
  import opened CText

  const INT_MIN := -0x8000_0000
  const INT_MAX := 0x7fff_ffff
  const LONG_MIN := -0x8000_0000_0000_0000
  const LONG_MAX := 0x7fff_ffff_ffff_ffff

  function Digit(d: nat): char
    requires d < 10
  {
    '0' + d as char
  }

  predicate IsDigit(c: char) {
    '0' <= c <= '9'
  }

  function NatText(n: nat): string {
    if n < 10 then [Digit(n)] else NatText(n / 10) + [Digit(n % 10)]
  }

  /** `%d`. */
  function IntText(n: int): string {
    if n < 0 then "-" + NatText(-n) else NatText(n)
  }

  function NatOf(s: string): nat
    requires forall i :: 0 <= i < |s| ==> IsDigit(s[i])
  {
    if s == [] then 0
    else
      assert IsDigit(s[|s| - 1]);
      10 * NatOf(s[..|s| - 1]) + (s[|s| - 1] as int - '0' as int)
  }

  /** Where the digits that start at `i` end. */
  function DigitsEnd(s: string, i: nat): (n: nat)
    requires i <= |s|
    ensures i <= n <= |s| && (forall x :: i <= x < n ==> IsDigit(s[x]))
    ensures n < |s| ==> !IsDigit(s[n])
    decreases |s| - i
  {
    if i < |s| && IsDigit(s[i]) then DigitsEnd(s, i + 1) else i
  }

  function Clamp(n: int): int {
    if n < LONG_MIN then LONG_MIN else if n > LONG_MAX then LONG_MAX else n
  }

  /** `strtol` in base 10 with a 64-bit `long`: the number, and how far it was read;
      nothing is read if there are no digits. */
  function Strtol(s: string): (r: (int, nat)) {
    var a := SkipBlanks(s, 0);
    var b := if a < |s| && (s[a] == '-' || s[a] == '+') then a + 1 else a;
    var e := DigitsEnd(s, b);
    if b == e then (0, 0)
    else
      var m: int := NatOf(s[b..e]);
      (Clamp(if s[a] == '-' then -m else m), e)
  }

  /** Conversion of a `long` to a 32-bit `int`. */
  function ToInt(n: int): int {
    (n - INT_MIN) % 0x1_0000_0000 + INT_MIN
  }

  lemma {:induction false} NatTextOf(n: nat)
    ensures |NatText(n)| > 0 && forall i :: 0 <= i < |NatText(n)| ==> IsDigit(NatText(n)[i])
    ensures NatOf(NatText(n)) == n
  {
    if n >= 10 {
      NatTextOf(n / 10);
      var s := NatText(n);
      assert s[..|s| - 1] == NatText(n / 10);
    }
  }

  function Pow10(k: nat): nat {
    if k == 0 then 1 else 10 * Pow10(k - 1)
  }

  lemma {:induction false} NatTextShort(n: nat, k: nat)
    requires n < Pow10(k) && k > 0
    ensures |NatText(n)| <= k
  {
    if n >= 10 {
      NatTextShort(n / 10, k - 1);
    }
  }

  lemma {:induction false} DigitsEndIs(s: string, i: nat, n: nat)
    requires i <= n <= |s| && (forall x :: i <= x < n ==> IsDigit(s[x])) && (n < |s| ==> !IsDigit(s[n]))
    ensures DigitsEnd(s, i) == n
  {
    var m := DigitsEnd(s, i);
    assert m < n || n < m || m == n;
  }

  lemma {:induction false} SignedDigits(s: string, b: nat)
    requires b < |s| && (b == 0 || (b == 1 && s[0] == '-')) && forall x :: b <= x < |s| ==> IsDigit(s[x])
    ensures SkipBlanks(s, 0) == 0 && DigitsEnd(s, b) == |s|
    ensures forall x :: 0 <= x < |s| ==> !IsSpace(s[x])
  {
    DigitsEndIs(s, b, |s|);
  }

  /** Printing and reading a number that fits a `long` gives it back, read to its end. */
  lemma {:induction false} StrtolOfIntText(n: int)
    requires LONG_MIN <= n <= LONG_MAX
    ensures Strtol(IntText(n)) == (n, |IntText(n)|)
    ensures Trim(IntText(n)) == IntText(n)
  {
    hide SkipBlanks, DigitsEnd, NatText, NatOf, Trim;
    var s := IntText(n);
    var b := if n < 0 then 1 else 0;
    var m: nat := if n < 0 then -n else n;
    NatTextOf(m);
    assert s[b..|s|] == NatText(m);
    assert forall x :: b <= x < |s| ==> s[x] == NatText(m)[x - b];
    SignedDigits(s, b);
    TrimIs(s, 0, |s|);
    assert s[0..|s|] == s;
  }

  lemma {:induction false} IntTextPlain(n: int)
    requires INT_MIN <= n <= INT_MAX
    ensures 0 < |IntText(n)| <= 11
    ensures forall i :: 0 <= i < |IntText(n)| ==> IsDigit(IntText(n)[i]) || IntText(n)[i] == '-'
  {
    var m: nat := if n < 0 then -n else n;
    NatTextOf(m);
    assert Pow10(10) == 10_000_000_000;
    NatTextShort(m, 10);
  }

  // ---- what is read as a number ----

  lemma {:induction false} NatOfLast(s: string)
    requires s != [] && forall i :: 0 <= i < |s| ==> IsDigit(s[i])
    ensures NatOf(s) == 10 * NatOf(s[..|s| - 1]) + (s[|s| - 1] as int - '0' as int)
  {
  }

  lemma {:induction false} TimesTen(a: int, b: int)
    ensures 10 * (a * b) == a * (10 * b)
  {
  }

  /** Digits count by their places. */
  lemma {:induction false} PlaceValue(s: string, t: string)
    requires (forall i :: 0 <= i < |s| ==> IsDigit(s[i])) && (forall i :: 0 <= i < |t| ==> IsDigit(t[i]))
    ensures forall i :: 0 <= i < |s + t| ==> IsDigit((s + t)[i])
    ensures NatOf(s + t) == NatOf(s) * Pow10(|t|) + NatOf(t)
  {
    if t == [] {
      assert s + t == s;
    } else {
      var n := |t| - 1;
      PlaceValue(s, t[..n]);
      assert (s + t)[..|s| + n] == s + t[..n];
      NatOfLast(s + t);
      NatOfLast(t);
      assert (s + t)[|s| + n] == t[n];
      TimesTen(NatOf(s), Pow10(n));
    }
  }

  /** Blanks up to `a`, a sign before `b` if they differ, and at least one digit, to the end. */
  ghost predicate NumberAt(s: string, a: nat, b: nat) {
    && a <= b < |s| && Blank(s, 0, a)
    && (b == a || (b == a + 1 && (s[a] == '-' || s[a] == '+')))
    && forall x :: b <= x < |s| ==> IsDigit(s[x])
  }

  ghost predicate IsNumber(s: string) {
    exists a, b :: NumberAt(s, a, b)
  }

  /** The number at these positions, kept within a `long`. */
  function NumberOf(s: string, a: nat, b: nat): int
    requires NumberAt(s, a, b)
  {
    var m: int := NatOf(s[b..]);
    Clamp(if s[a] == '-' then -m else m)
  }

  lemma {:induction false} ReadsNumber(s: string, a: nat, b: nat)
    requires NumberAt(s, a, b)
    ensures Strtol(s) == (NumberOf(s, a, b), |s|)
  {
    hide NatOf;
    SkipBlanksIs(s, 0);
    var i := SkipBlanks(s, 0);
    assert !IsSpace(s[a]);
    DigitsEndIs(s, b, |s|);
    assert s[b..|s|] == s[b..];
  }

  /** `strtol` reads a whole string exactly if it is a number, and reads that number. */
  lemma {:induction false} StrtolExactly(s: string)
    ensures IsNumber(s) <==> Strtol(s).1 != 0 && Strtol(s).1 == |s|
    ensures forall a, b :: NumberAt(s, a, b) ==> Strtol(s).0 == NumberOf(s, a, b)
  {
    hide NatOf;
    forall a, b | NumberAt(s, a, b) ensures Strtol(s) == (NumberOf(s, a, b), |s|) {
      ReadsNumber(s, a, b);
    }
    if Strtol(s).1 != 0 && Strtol(s).1 == |s| {
      SkipBlanksIs(s, 0);
      var a := SkipBlanks(s, 0);
      var b := if a < |s| && (s[a] == '-' || s[a] == '+') then a + 1 else a;
      assert NumberAt(s, a, b);
    }
  }

  /** The one 32-bit number that differs from `n` by a multiple of 2^32. */
  lemma {:induction false} ToIntIs(n: int)
    ensures INT_MIN <= ToInt(n) <= INT_MAX && (n - ToInt(n)) % 0x1_0000_0000 == 0
    ensures INT_MIN <= n <= INT_MAX ==> ToInt(n) == n
  {
  }
}
