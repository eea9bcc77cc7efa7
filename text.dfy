/**
 * String helpers shared by the server (Python) and the browser client (JavaScript):
 * whitespace trimming with each language's own notion of whitespace, decimal
 * rendering of small integers as f-strings print them, ASCII lower-casing and
 * prefix tests.
 */
module Text {

  /** Whose whitespace table a trim uses: Python's `str.strip()` or JavaScript's `String.prototype.trim()`. */
  datatype Flavor = Python | JavaScript

  /** Space characters both tables share: NBSP, OGHAM SPACE MARK, EN QUAD..HAIR SPACE, LS, PS, NNBSP, MMSP, IDEOGRAPHIC SPACE. */
  predicate IsUnicodeSpace(c: char)
  {
    || c == '\U{A0}' || c == '\U{1680}'
    || ('\U{2000}' <= c <= '\U{200A}')
    || c == '\U{2028}' || c == '\U{2029}' || c == '\U{202F}' || c == '\U{205F}' || c == '\U{3000}'
  }

  /**
   * Python strips TAB..CR, the four information separators U+001C..U+001F, SPACE and NEL (U+0085);
   * JavaScript strips TAB..CR, SPACE and the byte-order mark U+FEFF. Both strip the shared set above.
   */
  predicate IsSpace(f: Flavor, c: char)
  {
    match f
    case Python =>
      ('\t' <= c <= '\r') || ('\U{1C}' <= c <= '\U{1F}') || c == ' ' || c == '\U{85}' || IsUnicodeSpace(c)
    case JavaScript =>
      ('\t' <= c <= '\r') || c == ' ' || c == '\U{FEFF}' || IsUnicodeSpace(c)
  }

  predicate AllSpace(f: Flavor, s: string)
  {
    forall i :: 0 <= i < |s| ==> IsSpace(f, s[i])
  }

  /** Drops leading whitespace: the result is a suffix of `s` and only whitespace was dropped. */
  function TrimStart(f: Flavor, s: string): (r: string)
    ensures |r| <= |s| && r == s[|s| - |r|..]
    ensures forall i :: 0 <= i < |s| - |r| ==> IsSpace(f, s[i])
    ensures r != [] ==> !IsSpace(f, r[0])
    decreases |s|
  {
    if s != [] && IsSpace(f, s[0]) then TrimStart(f, s[1..]) else s
  }

  /** Drops trailing whitespace: the result is a prefix of `s` and only whitespace was dropped. */
  function TrimEnd(f: Flavor, s: string): (r: string)
    ensures |r| <= |s| && r == s[..|r|]
    ensures forall i :: |r| <= i < |s| ==> IsSpace(f, s[i])
    ensures r != [] ==> !IsSpace(f, r[|r| - 1])
    decreases |s|
  {
    if s != [] && IsSpace(f, s[|s| - 1]) then TrimEnd(f, s[..|s| - 1]) else s
  }

  /**
   * `str.strip()` / `String.prototype.trim()`: the result is the slice of `s` left when the
   * whitespace on both sides is cut away, and it neither starts nor ends with whitespace.
   */
  function Strip(f: Flavor, s: string): (r: string)
    ensures r != [] ==> !IsSpace(f, r[0]) && !IsSpace(f, r[|r| - 1])
    ensures var i := |s| - |TrimStart(f, s)|;
      && i + |r| <= |s| && r == s[i..i + |r|]
      && (forall k :: 0 <= k < i ==> IsSpace(f, s[k]))
      && (forall k :: i + |r| <= k < |s| ==> IsSpace(f, s[k]))
  {
    TrimEnd(f, TrimStart(f, s))
  }

  /** Stripping leaves nothing exactly when the text is all whitespace. */
  lemma StripEmptyIff(f: Flavor, s: string)
    ensures Strip(f, s) == [] <==> AllSpace(f, s)
  {
    var i := |s| - |TrimStart(f, s)|;
    var r := Strip(f, s);
    if r == [] {
      forall k | i <= k < |s| ensures IsSpace(f, s[k]) {
        assert k >= i + |r|;
      }
    } else {
      assert s[i] == r[0];
    }
  }

  /** Text that neither starts nor ends with whitespace is left as it is. */
  lemma StripUnchanged(f: Flavor, s: string)
    requires s != [] && !IsSpace(f, s[0]) && !IsSpace(f, s[|s| - 1])
    ensures Strip(f, s) == s
  {
    assert TrimStart(f, s) == s;
    assert TrimEnd(f, s) == s;
  }

  /** Stripping twice is stripping once. */
  lemma StripIdempotent(f: Flavor, s: string)
    ensures Strip(f, Strip(f, s)) == Strip(f, s)
  {
    var r := Strip(f, s);
    if r != [] {
      StripUnchanged(f, r);
    }
  }

  /** The digit character for 0..9. */
  function DigitChar(d: nat): (c: char)
    requires d < 10
    ensures '0' <= c <= '9' && c as int - '0' as int == d
  {
    (48 + d) as char
  }

  predicate IsDigits(s: string)
  {
    forall i :: 0 <= i < |s| ==> '0' <= s[i] <= '9'
  }

  /** Decimal notation of `n` without leading zeros, as `f"{n}"` prints a non-negative int. */
  function Decimal(n: nat): (r: string)
    ensures |r| >= 1 && IsDigits(r)
    ensures (r[0] == '0') <==> n == 0
    decreases n
  {
    if n < 10 then [DigitChar(n)] else Decimal(n / 10) + [DigitChar(n % 10)]
  }

  /** The number a string of digits denotes (the inverse of Decimal). */
  function DecimalValue(s: string): nat
    requires IsDigits(s)
  {
    if s == [] then 0 else DecimalValue(s[..|s| - 1]) * 10 + (s[|s| - 1] as int - '0' as int)
  }

  lemma {:induction false} DecimalRoundTrip(n: nat)
    ensures DecimalValue(Decimal(n)) == n
  {
    if n >= 10 {
      DecimalRoundTrip(n / 10);
      var r := Decimal(n);
      assert r[..|r| - 1] == Decimal(n / 10);
    }
  }

  /** Different numbers print differently. */
  lemma DecimalInjective(a: nat, b: nat)
    requires Decimal(a) == Decimal(b)
    ensures a == b
  {
    DecimalRoundTrip(a);
    DecimalRoundTrip(b);
  }

  /** Four-digit numbers print with exactly four digits. */
  lemma {:induction false} DecimalLength4(n: nat)
    requires 1000 <= n <= 9999
    ensures |Decimal(n)| == 4
  {
    assert |Decimal(n / 1000)| == 1;
    assert n / 10 / 10 == n / 100 && n / 100 / 10 == n / 1000;
    assert |Decimal(n / 100)| == 2;
    assert |Decimal(n / 10)| == 3;
  }

  predicate StartsWith(s: string, prefix: string)
  {
    |prefix| <= |s| && s[..|prefix|] == prefix
  }

  function AsciiLowerChar(c: char): (d: char)
    ensures 'A' <= c <= 'Z' ==> d as int == c as int + 32
    ensures !('A' <= c <= 'Z') ==> d == c
  {
    if 'A' <= c <= 'Z' then (c as int + 32) as char else c
  }

  /** Lower-cases the ASCII letters of `s` and leaves every other character alone. */
  function AsciiLower(s: string): (r: string)
    ensures |r| == |s|
    ensures forall i :: 0 <= i < |s| ==> r[i] == AsciiLowerChar(s[i])
  {
    if s == [] then [] else [AsciiLowerChar(s[0])] + AsciiLower(s[1..])
  }
}
