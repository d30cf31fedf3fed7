/** The pieces of `java.lang.String`, `android.text.TextUtils` and
    `java.util.Formatter` that the editor bridge relies on, over `seq<char>`. */
module JavaStrings {

  predicate StartsWith(s: string, p: string) {
    |p| <= |s| && s[..|p|] == p
  }

  /** `p` occurs somewhere in `s`. */
  ghost predicate Occurs(s: string, p: string) {
    exists k :: 0 <= k <= |s| && StartsWith(s[k..], p)
  }

  /** A pattern with a character the text lacks cannot occur in it. */
  lemma NotOccursWithoutChar(s: string, p: string, c: char)
    requires c in p && c !in s
    ensures !Occurs(s, p)
  {
    var i :| 0 <= i < |p| && p[i] == c;
    forall k | 0 <= k <= |s| ensures !StartsWith(s[k..], p) {
      if |p| <= |s[k..]| {
        assert s[k..][i] == s[k + i];
        assert s[k + i] in s;
      }
    }
  }

  /** A pattern that differs from the text at offset `k + i` does not start there. */
  lemma MismatchAt(s: string, p: string, k: nat, i: nat)
    requires k + i < |s| && i < |p| && s[k + i] != p[i]
    ensures !StartsWith(s[k..], p)
  {
    assert s[k..][i] == s[k + i];
  }

  /** A match of `p` at `k` is a match of `p[m..]` at `k + m`. */
  lemma StartsWithDrop(s: string, k: nat, p: string, m: nat)
    requires k <= |s| && StartsWith(s[k..], p) && m <= |p|
    ensures StartsWith(s[k + m..], p[m..])
  {
    assert s[k + m..][..|p| - m] == s[k..][..|p|][m..];
  }

  lemma OccursAt(s: string, p: string, k: nat)
    requires k <= |s| && StartsWith(s[k..], p)
    ensures Occurs(s, p)
  {
  }

  /** `TextUtils.indexOf(s, p)` / `s.indexOf(p)`: the first index at which `p`
      occurs in `s`, or -1 when it does not occur. */
  function IndexOf(s: string, p: string): (r: int)
    ensures -1 <= r <= |s|
    ensures r == -1 <==> !Occurs(s, p)
    ensures r != -1 ==> StartsWith(s[r..], p)
    ensures r != -1 ==> forall k :: 0 <= k < r ==> !StartsWith(s[k..], p)
    decreases |s|
  {
    if StartsWith(s, p) then
      assert s[0..] == s;
      0
    else if s == [] then
      -1
    else
      var k := IndexOf(s[1..], p);
      IndexOfShift(s, p, k);
      if k == -1 then -1 else k + 1
  }

  /** Carries the search result on `s[1..]` over to `s`, whose head does not match. */
  lemma IndexOfShift(s: string, p: string, k: int)
    requires s != [] && !StartsWith(s, p)
    requires -1 <= k <= |s| - 1
    requires k == -1 <==> !Occurs(s[1..], p)
    requires k != -1 ==> StartsWith(s[1..][k..], p)
    requires k != -1 ==> forall j :: 0 <= j < k ==> !StartsWith(s[1..][j..], p)
    ensures k == -1 ==> !Occurs(s, p)
    ensures k != -1 ==> Occurs(s, p) && StartsWith(s[k + 1..], p)
    ensures k != -1 ==> forall j :: 0 <= j <= k ==> !StartsWith(s[j..], p)
  {
    assert s[0..] == s;
    if k == -1 {
      forall j | 0 < j <= |s| ensures !StartsWith(s[j..], p) {
        assert s[j..] == s[1..][j - 1..];
      }
    } else {
      assert s[k + 1..] == s[1..][k..];
      OccursAt(s, p, k + 1);
      forall j | 0 < j <= k ensures !StartsWith(s[j..], p) {
        assert s[j..] == s[1..][j - 1..];
      }
    }
  }

  /** `IndexOf(url, p) == 0`, the test the bridge uses, is the same as "`url` starts with `p`". */
  lemma IndexOfZeroIffStartsWith(s: string, p: string)
    ensures IndexOf(s, p) == 0 <==> StartsWith(s, p)
  {
    assert s[0..] == s;
  }

  lemma StartsWithAppend(a: string, b: string, p: string)
    requires StartsWith(a, p)
    ensures StartsWith(a + b, p)
  {
    assert (a + b)[..|p|] == a[..|p|];
  }

  /** `s.replace(p, r)` for a non-empty literal target: every occurrence, scanning
      left to right, is replaced; replaced text is not scanned again. */
  function ReplaceAll(s: string, p: string, r: string): (t: string)
    requires p != []
    ensures !Occurs(s, p) ==> t == s
    decreases |s|
  {
    assert s[0..] == s;
    if |s| < |p| then s
    else if s[..|p|] == p then r + ReplaceAll(s[|p|..], p, r)
    else
      assert !Occurs(s, p) ==> !Occurs(s[1..], p) by {
        if Occurs(s[1..], p) {
          var k :| 0 <= k <= |s[1..]| && StartsWith(s[1..][k..], p);
          assert s[1..][k..] == s[k + 1..];
        }
      }
      [s[0]] + ReplaceAll(s[1..], p, r)
  }

  /** `s.replaceFirst(p, r)` where `p` has no regular-expression metacharacters,
      so that the pattern matches its own text literally. */
  function ReplaceFirst(s: string, p: string, r: string): string {
    var k := IndexOf(s, p);
    if k == -1 then s else s[..k] + r + s[k + |p|..]
  }

  /** Removing a prefix that the string starts with leaves exactly the rest. */
  lemma ReplaceFirstOfPrefix(p: string, rest: string)
    ensures ReplaceFirst(p + rest, p, "") == rest
  {
    var s := p + rest;
    assert s[..|p|] == p;
    IndexOfZeroIffStartsWith(s, p);
    assert s[|p|..] == rest;
  }

  /** A position where `p` does not begin is copied and scanning moves on by one. */
  lemma ReplaceAllStep(s: string, p: string, r: string)
    requires p != [] && s != [] && !StartsWith(s, p)
    ensures ReplaceAll(s, p, r) == [s[0]] + ReplaceAll(s[1..], p, r)
  {
    if |s| < |p| {
      assert ReplaceAll(s[1..], p, r) == s[1..];
    }
  }

  /** No occurrence of `p` begins at any of the first `n` positions of `s`. */
  ghost predicate NoMatchBefore(s: string, p: string, n: nat)
    requires n <= |s|
  {
    forall k :: 0 <= k < n ==> !StartsWith(s[k..], p)
  }

  lemma NoMatchBeforeTail(s: string, p: string, n: nat)
    requires 1 <= n <= |s| && NoMatchBefore(s, p, n)
    ensures NoMatchBefore(s[1..], p, n - 1)
  {
    forall k | 0 <= k < n - 1 ensures !StartsWith(s[1..][k..], p) {
      assert s[1..][k..] == s[k + 1..];
    }
  }

  /** Scanning past the first `n` positions, where no occurrence of `p` begins. */
  lemma {:induction false} ReplaceAllSkip(s: string, n: nat, p: string, r: string)
    requires p != [] && n <= |s| && NoMatchBefore(s, p, n)
    ensures ReplaceAll(s, p, r) == s[..n] + ReplaceAll(s[n..], p, r)
  {
    if n == 0 {
      assert s[..0] + s[0..] == s;
    } else {
      assert s[0..] == s;
      ReplaceAllStep(s, p, r);
      NoMatchBeforeTail(s, p, n);
      ReplaceAllSkip(s[1..], n - 1, p, r);
      SkipOne(s, n, ReplaceAll(s, p, r), ReplaceAll(s[1..], p, r), ReplaceAll(s[n..], p, r));
    }
  }

  lemma SkipOne(s: string, n: nat, a: string, b: string, x: string)
    requires 1 <= n <= |s|
    requires a == [s[0]] + b && b == s[1..][..n - 1] + x
    ensures a == s[..n] + x
  {
    assert s[..n] == [s[0]] + s[1..][..n - 1];
  }

  /** An occurrence at the very start is replaced. */
  lemma ReplaceAllHead(p: string, rest: string, r: string)
    requires p != []
    ensures ReplaceAll(p + rest, p, r) == r + ReplaceAll(rest, p, r)
  {
    assert (p + rest)[..|p|] == p;
    assert (p + rest)[|p|..] == rest;
  }

  /** `Character.toUpperCase` restricted to ASCII letters. */
  function UpperChar(c: char): char {
    if 'a' <= c <= 'z' then (c as int - 32) as char else c
  }

  /** `s.toUpperCase(Locale.ENGLISH)` on ASCII letters; other characters are kept. */
  function ToUpperAscii(s: string): (u: string)
    ensures |u| == |s|
    ensures forall i :: 0 <= i < |s| ==> u[i] == UpperChar(s[i])
  {
    seq(|s|, i requires 0 <= i < |s| => UpperChar(s[i]))
  }

  /** `a.equalsIgnoreCase(b)` with ASCII case folding. */
  predicate EqualsIgnoreCase(a: string, b: string) {
    |a| == |b| && forall i :: 0 <= i < |a| ==> UpperChar(a[i]) == UpperChar(b[i])
  }

  lemma EqualsIgnoreCaseIffSameUpper(a: string, b: string)
    ensures EqualsIgnoreCase(a, b) <==> ToUpperAscii(a) == ToUpperAscii(b)
  {
    if ToUpperAscii(a) == ToUpperAscii(b) {
      assert forall i :: 0 <= i < |a| ==> ToUpperAscii(a)[i] == ToUpperAscii(b)[i];
    }
  }

  // ---------------------------------------------------------------------------
  // Numbers as text: `"" + n` (decimal) and `String.format("%06X", n)` (hex).

  /** The two radixes the bridge prints numbers in. */
  predicate IsBase(base: nat) {
    base == 10 || base == 16
  }

  predicate IsDigitIn(c: char, base: nat) {
    base <= 16 && (('0' <= c <= '9' && (c as int - '0' as int) < base) || ('A' <= c <= 'F' && (c as int - 'A' as int) + 10 < base))
  }

  function DigitChar(d: nat): (c: char)
    requires d < 16
    ensures IsDigitIn(c, d + 1)
  {
    if d < 10 then ('0' as int + d) as char else ('A' as int + d - 10) as char
  }

  function DigitValue(c: char): (d: nat)
    requires IsDigitIn(c, 16)
  {
    if '0' <= c <= '9' then c as int - '0' as int else c as int - 'A' as int + 10
  }

  lemma DigitValueOfChar(d: nat)
    requires d < 16
    ensures DigitValue(DigitChar(d)) == d
  {
  }

  predicate AllDigitsIn(s: string, base: nat) {
    forall i :: 0 <= i < |s| ==> IsDigitIn(s[i], base)
  }

  /** Most significant digit first, no leading zeros; "0" for zero. */
  function NatToDigits(n: nat, base: nat): (s: string)
    requires IsBase(base)
    ensures |s| >= 1 && AllDigitsIn(s, base)
    decreases n
  {
    if n < base then [DigitChar(n)] else NatToDigits(n / base, base) + [DigitChar(n % base)]
  }

  /** The value of a string of digits, most significant first. */
  function ParseDigits(s: string, base: nat): nat
    requires IsBase(base) && AllDigitsIn(s, base)
    decreases |s|
  {
    if s == [] then 0 else ParseDigits(s[..|s| - 1], base) * base + DigitValue(s[|s| - 1])
  }

  lemma {:induction false} ParseNatToDigits(n: nat, base: nat)
    requires IsBase(base)
    ensures ParseDigits(NatToDigits(n, base), base) == n
    decreases n
  {
    var s := NatToDigits(n, base);
    if n < base {
      assert s[..0] == [];
      DigitValueOfChar(n);
    } else {
      ParseNatToDigits(n / base, base);
      assert s[..|s| - 1] == NatToDigits(n / base, base);
      DigitValueOfChar(n % base);
    }
  }

  /** Java's `String.valueOf(int)`, used by every `"..." + n` in the bridge. */
  function IntToDecimal(n: int): string {
    if n < 0 then "-" + NatToDigits(-n, 10) else NatToDigits(n, 10)
  }

  lemma IntToDecimalSign(n: int)
    ensures |IntToDecimal(n)| >= 1
    ensures IntToDecimal(n)[0] == '-' <==> n < 0
  {
    if n >= 0 {
      assert IsDigitIn(NatToDigits(n, 10)[0], 10);
    }
  }

  lemma NatToDigitsInjective(a: nat, b: nat)
    requires NatToDigits(a, 10) == NatToDigits(b, 10)
    ensures a == b
  {
    ParseNatToDigits(a, 10);
    ParseNatToDigits(b, 10);
  }

  /** Distinct integers are rendered as distinct texts. */
  lemma IntToDecimalInjective(a: int, b: int)
    requires IntToDecimal(a) == IntToDecimal(b)
    ensures a == b
  {
    IntToDecimalSign(a);
    IntToDecimalSign(b);
    if a < 0 {
      assert NatToDigits(-a, 10) == IntToDecimal(a)[1..] == NatToDigits(-b, 10);
      NatToDigitsInjective(-a, -b);
    } else {
      NatToDigitsInjective(a, b);
    }
  }

  function Zeros(k: nat): (z: string)
    ensures |z| == k && forall i :: 0 <= i < k ==> z[i] == '0'
  {
    seq(k, i => '0')
  }

  /** `String.format("%0<width>X", n)` for a non-negative `n`: upper-case hex
      digits, left-padded with zeros to at least `width` characters. */
  function FormatHex(n: nat, width: nat): string {
    var digits := NatToDigits(n, 16);
    if |digits| < width then Zeros(width - |digits|) + digits else digits
  }

  function Pow16(k: nat): nat {
    if k == 0 then 1 else 16 * Pow16(k - 1)
  }

  lemma {:induction false} HexDigitsLength(n: nat, k: nat)
    requires 1 <= k && n < Pow16(k)
    ensures |NatToDigits(n, 16)| <= k
    decreases k
  {
    if n >= 16 {
      assert k > 1;
      HexDigitsLength(n / 16, k - 1);
    }
  }

  lemma {:induction false} ParseLeadingZeros(k: nat, s: string, base: nat)
    requires IsBase(base) && AllDigitsIn(s, base)
    ensures AllDigitsIn(Zeros(k) + s, base)
    ensures ParseDigits(Zeros(k) + s, base) == ParseDigits(s, base)
    decreases |s|, k
  {
    var t := Zeros(k) + s;
    if s == [] {
      assert t == Zeros(k);
      if k > 0 {
        assert t[..|t| - 1] == Zeros(k - 1) + [];
        ParseLeadingZeros(k - 1, [], base);
      }
    } else {
      assert t[..|t| - 1] == Zeros(k) + s[..|s| - 1];
      ParseLeadingZeros(k, s[..|s| - 1], base);
    }
  }

  lemma {:induction false} ParseDigitsBound(s: string, base: nat)
    requires IsBase(base) && AllDigitsIn(s, base)
    ensures base == 16 ==> ParseDigits(s, base) < Pow16(|s|)
    decreases |s|
  {
    if s != [] {
      ParseDigitsBound(s[..|s| - 1], base);
    }
  }

  /** Two hex digit strings of the same length with the same value are equal. */
  lemma {:induction false} ParseHexInjective(x: string, y: string)
    requires AllDigitsIn(x, 16) && AllDigitsIn(y, 16)
    requires |x| == |y| && ParseDigits(x, 16) == ParseDigits(y, 16)
    ensures x == y
    decreases |x|
  {
    if x != [] {
      var n := |x| - 1;
      var a, b := ParseDigits(x[..n], 16), ParseDigits(y[..n], 16);
      var d, e := DigitValue(x[n]), DigitValue(y[n]);
      assert a * 16 + d == b * 16 + e;
      assert d == e && a == b;
      ParseHexInjective(x[..n], y[..n]);
      assert x[n] == y[n];
      assert x == x[..n] + [x[n]] && y == y[..n] + [y[n]];
    }
  }
}
