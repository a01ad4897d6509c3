/** Decimal numerals and the white space of Python's `str`. */
module Text {

  /** The characters `str.strip` removes and `\s` matches. */
  predicate IsSpace(c: char) {
    || '\t' <= c <= '\r'
    || '\U{1C}' <= c <= ' '
    || c in {'\U{85}', '\U{A0}', '\U{1680}', '\U{2028}', '\U{2029}', '\U{202F}', '\U{205F}', '\U{3000}'}
    || '\U{2000}' <= c <= '\U{200A}'
  }

  /** By code point. */
  lemma SpacesAre(c: char)
    ensures IsSpace(c) <==> c as int in {
              9, 10, 11, 12, 13, 28, 29, 30, 31, 32, 133, 160, 5760, 8192, 8193, 8194, 8195, 8196, 8197, 8198, 8199,
              8200, 8201, 8202, 8232, 8233, 8239, 8287, 12288}
  {}

  function TrimLeft(s: string): string {
    if s != "" && IsSpace(s[0]) then TrimLeft(s[1..]) else s
  }

  function TrimRight(s: string): string {
    if s != "" && IsSpace(s[|s| - 1]) then TrimRight(s[..|s| - 1]) else s
  }

  /** `str.strip()`. */
  function Strip(s: string): string {
    TrimRight(TrimLeft(s))
  }

  lemma {:induction false} TrimLeftCuts(s: string) returns (n: nat)
    ensures n <= |s| && TrimLeft(s) == s[n..] && forall k :: 0 <= k < n ==> IsSpace(s[k])
    ensures n < |s| ==> !IsSpace(s[n])
  {
    if s != "" && IsSpace(s[0]) {
      var m := TrimLeftCuts(s[1..]);
      assert forall k :: 0 < k <= m ==> s[k] == s[1..][k - 1];
      n := 1 + m;
    } else {
      n := 0;
    }
  }

  lemma {:induction false} TrimRightCuts(s: string) returns (n: nat)
    ensures n <= |s| && TrimRight(s) == s[..n] && forall k :: n <= k < |s| ==> IsSpace(s[k])
    ensures n > 0 ==> !IsSpace(s[n - 1])
  {
    if s != "" && IsSpace(s[|s| - 1]) {
      n := TrimRightCuts(s[..|s| - 1]);
    } else {
      n := |s|;
    }
  }

  /** Stripping removes white space from both ends and leaves none there. */
  lemma StripCuts(s: string) returns (left: nat, right: nat)
    ensures left <= right <= |s| && Strip(s) == s[left..right]
    ensures forall k :: 0 <= k < left || right <= k < |s| ==> IsSpace(s[k])
    ensures left < right ==> !IsSpace(s[left]) && !IsSpace(s[right - 1])
  {
    left := TrimLeftCuts(s);
    var n := TrimRightCuts(s[left..]);
    right := left + n;
    assert forall k :: left <= k < |s| ==> s[k] == s[left..][k - left];
  }

  const DIGITS: string := "0123456789"

  /** `str(n)` for a non-negative integer. */
  function Decimal(n: nat): (s: string)
    ensures s != ""
    ensures forall c <- s :: c in DIGITS
  {
    if n < 10 then [DIGITS[n]] else Decimal(n / 10) + [DIGITS[n % 10]]
  }

  function DigitValue(c: char): nat {
    if '0' <= c <= '9' then (c as int) - ('0' as int) else 0
  }

  function DecimalValue(s: string): nat {
    if s == "" then 0 else 10 * DecimalValue(s[..|s| - 1]) + DigitValue(s[|s| - 1])
  }

  lemma DigitRoundTrip(d: nat)
    requires d < 10
    ensures DigitValue(DIGITS[d]) == d
  {}

  lemma ValueOfAppend(s: string, c: char)
    ensures DecimalValue(s + [c]) == 10 * DecimalValue(s) + DigitValue(c)
  {
    assert (s + [c])[..|s|] == s;
  }

  lemma {:induction false} DecimalRoundTrip(n: nat)
    ensures DecimalValue(Decimal(n)) == n
  {
    DigitRoundTrip(n % 10);
    if n < 10 {
      ValueOfAppend("", DIGITS[n]);
      assert "" + [DIGITS[n]] == [DIGITS[n]];
    } else {
      DecimalRoundTrip(n / 10);
      ValueOfAppend(Decimal(n / 10), DIGITS[n % 10]);
    }
  }

  /** Distinct numbers have distinct numerals. */
  lemma DecimalInjective(m: nat, n: nat)
    requires Decimal(m) == Decimal(n)
    ensures m == n
  {
    DecimalRoundTrip(m);
    DecimalRoundTrip(n);
  }

  /** `str(n)` for any integer. */
  function IntText(n: int): string {
    if n < 0 then "-" + Decimal(-n) else Decimal(n)
  }

  function IntValue(s: string): int {
    if s != "" && s[0] == '-' then -(DecimalValue(s[1..]) as int) else DecimalValue(s)
  }

  lemma DigitIsNumeral(c: char)
    requires c in DIGITS
    ensures '0' <= c <= '9'
  {}

  lemma DecimalIsNumeral(n: nat)
    ensures Decimal(n) != "" && forall c <- Decimal(n) :: '0' <= c <= '9'
  {
    forall c <- Decimal(n) ensures '0' <= c <= '9' {
      DigitIsNumeral(c);
    }
  }

  lemma SignedValue(h: string, m: nat)
    requires h != "" && h[0] != '-' && DecimalValue(h) == m
    ensures IntValue(h) == m && IntValue("-" + h) + m == 0
  {
    assert ("-" + h)[1..] == h;
  }

  lemma IntTextSign(n: int)
    ensures '-' in IntText(n) <==> n < 0
  {
    DecimalIsNumeral(if n < 0 then -n else n);
  }

  lemma IntRoundTrip(n: int)
    ensures IntValue(IntText(n)) == n
    ensures forall c <- IntText(n) :: c == '-' || '0' <= c <= '9'
  {
    var m: nat := if n < 0 then -n else n;
    DecimalRoundTrip(m);
    DecimalIsNumeral(m);
    assert Decimal(m)[0] in Decimal(m);
    SignedValue(Decimal(m), m);
  }
}
