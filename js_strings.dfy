/** The ECMAScript string built-ins the front end relies on. A JavaScript string is a sequence
    of UTF-16 code units; here a string is a sequence of Unicode scalar values (`char`), so a
    character outside the Basic Multilingual Plane is one position here where JavaScript
    counts two, and a string holding half of a surrogate pair cannot be written at all. */
module JsStrings {

  function Min(a: int, b: int): int { if a <= b then a else b }

  function Max(a: int, b: int): int { if a <= b then b else a }

  /** The position `String.prototype.slice` uses for an argument `k` on a string of length
      `len`: a negative argument counts back from the end, and the result is clamped to
      0..len. */
  function RelativeIndex(k: int, len: nat): (r: nat)
    ensures r <= len
  {
    if k < 0 then Max(len + k, 0) else Min(k, len)
  }

  /** `s.slice(start, end)`: the characters from the first position up to the second,
      or nothing when the second does not lie after the first. */
  function Slice(s: string, start: int, end: int): (r: string)
    ensures var from, to := RelativeIndex(start, |s|), RelativeIndex(end, |s|);
            |r| == Max(to - from, 0) &&
            forall i :: 0 <= i < |r| ==> r[i] == s[from + i]
  {
    var from, to := RelativeIndex(start, |s|), RelativeIndex(end, |s|);
    if from < to then s[from..to] else []
  }

  /** `s.slice(start)`, the end defaulting to the length. */
  function SliceFrom(s: string, start: int): (r: string)
    ensures r == s[RelativeIndex(start, |s|)..]
  {
    Slice(s, start, |s|)
  }

  /** `s.slice(0, n)` for a non-negative `n` is the prefix of length min(n, |s|). */
  lemma SlicePrefix(s: string, n: nat)
    ensures Slice(s, 0, n) == s[..Min(n, |s|)]
  {
  }

  /** `s.slice(-n)` for a non-negative `n`: the last `n` characters when 0 < n <= |s|;
      the whole string when n == 0 (as -0 is 0) or n > |s| (clamping). */
  lemma SliceSuffix(s: string, n: nat)
    ensures SliceFrom(s, -(n as int)) == if 0 < n <= |s| then s[|s| - n..] else s
  {
  }

  /** `t` occurs in `s` starting at position `i`. */
  predicate OccursAt(s: string, t: string, i: int)
  {
    0 <= i && i + |t| <= |s| && s[i..i + |t|] == t
  }

  /** `s.includes(t)`: `t` occurs in `s` at some position, that is, `t` is a substring of `s`. */
  function Includes(s: string, t: string): (b: bool)
    ensures b <==> exists i, j :: 0 <= i <= j <= |s| && s[i..j] == t
    ensures b ==> |t| <= |s|
  {
    assert forall i, j :: 0 <= i <= j <= |s| && s[i..j] == t ==> OccursAt(s, t, i);
    exists i | 0 <= i <= |s| :: OccursAt(s, t, i)
  }

  /** Every string includes the empty string. */
  lemma IncludesEmpty(s: string)
    ensures Includes(s, "")
  {
    assert OccursAt(s, "", 0);
  }

  /** Occurrence is transitive: an occurrence of `u` inside an occurrence of `t` is an
      occurrence of `u`. */
  lemma IncludesTransitive(s: string, t: string, u: string)
    requires Includes(s, t) && Includes(t, u)
    ensures Includes(s, u)
  {
    var i :| 0 <= i <= |s| && OccursAt(s, t, i);
    var j :| 0 <= j <= |t| && OccursAt(t, u, j);
    assert i + |t| <= |s| && j + |u| <= |t|;
    assert forall k :: 0 <= k < |u| ==> u[k] == t[j + k] == s[i + j + k];
    assert s[i + j..i + j + |u|] == u;
    assert OccursAt(s, u, i + j);
  }

  /** The ECMAScript WhiteSpace and LineTerminator code points, which `trim` removes. */
  predicate IsWhiteSpace(c: char)
  {
    var k := c as int;
    k == 0x09 || k == 0x0A || k == 0x0B || k == 0x0C || k == 0x0D || k == 0x20 ||
    k == 0xA0 || k == 0x1680 || (0x2000 <= k <= 0x200A) || k == 0x2028 || k == 0x2029 ||
    k == 0x202F || k == 0x205F || k == 0x3000 || k == 0xFEFF
  }

  /** The number of white-space characters `s` starts with. */
  function LeadingSpace(s: string): (n: nat)
    ensures n <= |s|
    ensures forall i :: 0 <= i < n ==> IsWhiteSpace(s[i])
    ensures n < |s| ==> !IsWhiteSpace(s[n])
  {
    if s != [] && IsWhiteSpace(s[0]) then
      var n := LeadingSpace(s[1..]);
      assert forall i :: 1 <= i < n + 1 ==> s[i] == s[1..][i - 1];
      1 + n
    else 0
  }

  /** The number of white-space characters `s` ends with. */
  function TrailingSpace(s: string): (n: nat)
    ensures n <= |s|
    ensures forall i :: |s| - n <= i < |s| ==> IsWhiteSpace(s[i])
    ensures n < |s| ==> !IsWhiteSpace(s[|s| - n - 1])
  {
    if s != [] && IsWhiteSpace(s[|s| - 1]) then
      var n := TrailingSpace(s[..|s| - 1]);
      assert forall i :: |s| - n - 1 <= i < |s| - 1 ==> s[i] == s[..|s| - 1][i];
      1 + n
    else 0
  }

  /** `s.trim()`: `s` without its leading and trailing white space. */
  function Trim(s: string): (r: string)
    ensures r == [] || (!IsWhiteSpace(r[0]) && !IsWhiteSpace(r[|r| - 1]))
    ensures LeadingSpace(s) + |r| <= |s| && r == s[LeadingSpace(s)..LeadingSpace(s) + |r|]
    ensures forall i :: 0 <= i < LeadingSpace(s) ==> IsWhiteSpace(s[i])
    ensures forall i :: LeadingSpace(s) + |r| <= i < |s| ==> IsWhiteSpace(s[i])
  {
    var k := LeadingSpace(s);
    var t := s[k..];
    var r := t[..|t| - TrailingSpace(t)];
    assert forall i :: k + |r| <= i < |s| ==> s[i] == t[i - k];
    r
  }

  /** Trimming leaves nothing exactly when the string is all white space. */
  lemma TrimEmptyIff(s: string)
    ensures Trim(s) == "" <==> forall i :: 0 <= i < |s| ==> IsWhiteSpace(s[i])
  {
    var k := LeadingSpace(s);
    if forall i :: 0 <= i < |s| ==> IsWhiteSpace(s[i]) {
      assert k == |s|;
    } else {
      var j :| 0 <= j < |s| && !IsWhiteSpace(s[j]);
      var t := s[k..];
      assert t[j - k] == s[j];
      assert TrailingSpace(t) < |t|;
    }
  }

  /** `toLowerCase` on one character; only the ASCII letters are mapped. */
  function ToLowerChar(c: char): char
  {
    if 'A' <= c <= 'Z' then (c as int - 'A' as int + 'a' as int) as char else c
  }

  /** `s.toLowerCase()`, character by character. */
  function ToLowerCase(s: string): (r: string)
    ensures |r| == |s| && forall i :: 0 <= i < |s| ==> r[i] == ToLowerChar(s[i])
  {
    seq(|s|, i requires 0 <= i < |s| => ToLowerChar(s[i]))
  }

  /** The digit characters of `Number.prototype.toString(radix)`: `0`-`9`, then lower-case
      `a`-`f`. */
  function DigitChar(d: nat): char
    requires d < 16
  {
    if d < 10 then ('0' as int + d) as char else ('a' as int + d - 10) as char
  }

  /** The value of a digit character, or -1 for any other character. */
  function DigitValue(c: char): int
  {
    if '0' <= c <= '9' then c as int - '0' as int
    else if 'a' <= c <= 'f' then c as int - 'a' as int + 10
    else -1
  }

  lemma DigitValueOfChar(d: nat)
    requires d < 16
    ensures DigitValue(DigitChar(d)) == d
  {
  }

  /** `n.toString(radix)` for a non-negative integer: its digits, most significant first,
      without leading zeros. */
  function ToStringRadix(n: nat, radix: nat): (r: string)
    requires 2 <= radix <= 16
    ensures |r| >= 1
    decreases n
  {
    if n < radix then [DigitChar(n)]
    else ToStringRadix(n / radix, radix) + [DigitChar(n % radix)]
  }

  /** A digit of the given radix. */
  predicate IsDigit(c: char, radix: nat)
  {
    0 <= DigitValue(c) < radix
  }

  /** Every character of `n.toString(radix)` is a digit of that radix. */
  lemma {:induction false} RadixDigits(n: nat, radix: nat)
    requires 2 <= radix <= 16
    ensures forall i :: 0 <= i < |ToStringRadix(n, radix)| ==> IsDigit(ToStringRadix(n, radix)[i], radix)
    decreases n
  {
    if n < radix {
      DigitValueOfChar(n);
    } else {
      RadixDigits(n / radix, radix);
      DigitValueOfChar(n % radix);
      var front := ToStringRadix(n / radix, radix);
      var r := front + [DigitChar(n % radix)];
      assert ToStringRadix(n, radix) == r;
      forall i | 0 <= i < |r|
        ensures IsDigit(r[i], radix)
      {
        if i < |front| {
          assert r[i] == front[i];
        }
      }
    }
  }

  /** `n.toString()`: the decimal numeral of `n`, a non-empty string of decimal digits. */
  function DecimalString(n: nat): (r: string)
    ensures |r| >= 1
    ensures forall i :: 0 <= i < |r| ==> IsDigit(r[i], 10)
  {
    RadixDigits(n, 10);
    ToStringRadix(n, 10)
  }

  function Pow10(k: nat): (r: nat)
    ensures r >= 1
  {
    if k == 0 then 1 else 10 * Pow10(k - 1)
  }

  /** The decimal numeral of `n` has at most `k` digits (k >= 1) exactly when n < 10^k. */
  lemma {:induction false} DecimalStringLength(n: nat, k: nat)
    requires k >= 1
    ensures |DecimalString(n)| <= k <==> n < Pow10(k)
  {
    if n < 10 {
      Pow10Grows(k);
    } else if k == 1 {
    } else {
      DecimalStringLength(n / 10, k - 1);
      assert n / 10 < Pow10(k - 1) <==> n < 10 * Pow10(k - 1);
    }
  }

  lemma {:induction false} Pow10Grows(k: nat)
    requires k >= 1
    ensures Pow10(k) >= 10
  {
    if k > 1 {
      Pow10Grows(k - 1);
    }
  }

  /** The value of a decimal numeral; characters are assumed to be digits. */
  function DecimalValue(s: string): int
  {
    if s == [] then 0 else 10 * DecimalValue(s[..|s| - 1]) + DigitValue(s[|s| - 1])
  }

  /** The number spelt by the last `k` decimal digits of `n`, computed digit by digit. */
  function LastDigits(n: nat, k: nat): nat
  {
    if k == 0 then 0 else 10 * LastDigits(n / 10, k - 1) + n % 10
  }

  /** The last `k` characters of the decimal numeral of `n` spell `n` modulo 10^k. */
  lemma DecimalSuffixValue(n: nat, k: nat)
    requires k <= |DecimalString(n)|
    ensures DecimalValue(DecimalString(n)[|DecimalString(n)| - k..]) == n % Pow10(k)
  {
    DecimalSuffixDigits(n, k);
    LastDigitsIsMod(n, k);
  }

  lemma {:induction false} DecimalSuffixDigits(n: nat, k: nat)
    requires k <= |DecimalString(n)|
    ensures DecimalValue(DecimalString(n)[|DecimalString(n)| - k..]) == LastDigits(n, k)
  {
    var s := DecimalString(n);
    if k == 0 {
      assert s[|s|..] == [];
    } else if n < 10 {
      assert DecimalValue(s[|s| - k..]) == n by {
        assert s[|s| - k..] == [] + [DigitChar(n)];
        DecimalValueSnoc([], DigitChar(n));
        DigitValueOfChar(n);
      }
    } else {
      assert s == DecimalString(n / 10) + [DigitChar(n % 10)];
      DecimalSuffixDigits(n / 10, k - 1);
      DecimalSuffixStep(n, k);
    }
  }

  /** One more digit of `n` from the last `k - 1` digits of `n / 10`. */
  lemma DecimalSuffixStep(n: nat, k: nat)
    requires n >= 10 && 1 <= k <= |DecimalString(n)|
    requires |DecimalString(n)| == |DecimalString(n / 10)| + 1
    requires DecimalValue(DecimalString(n / 10)[|DecimalString(n / 10)| - (k - 1)..]) == LastDigits(n / 10, k - 1)
    ensures DecimalValue(DecimalString(n)[|DecimalString(n)| - k..]) == LastDigits(n, k)
  {
    var s, p, d := DecimalString(n), DecimalString(n / 10), DigitChar(n % 10);
    assert s == p + [d];
    SuffixValueSnoc(s, p, d, k, LastDigits(n / 10, k - 1));
    DigitValueOfChar(n % 10);
  }

  /** The value of the last `k` characters of `p + [d]` from that of the last `k - 1` of `p`. */
  lemma SuffixValueSnoc(s: string, p: string, d: char, k: nat, a: int)
    requires s == p + [d] && 1 <= k <= |s| && DecimalValue(p[|p| - (k - 1)..]) == a
    ensures DecimalValue(s[|s| - k..]) == 10 * a + DigitValue(d)
  {
    var u := p[|p| - (k - 1)..];
    assert s[|s| - k..] == u + [d];
    DecimalValueSnoc(u, d);
  }

  /** Reading the decimal numeral of `n` back gives `n`. */
  lemma {:induction false} DecimalStringValue(n: nat)
    ensures DecimalValue(DecimalString(n)) == n
  {
    var s := DecimalString(n);
    var m := Pow10(|s|);
    assert n < m by {
      DecimalStringLength(n, |s|);
    }
    assert DecimalValue(s) == n % m by {
      DecimalSuffixValue(n, |s|);
      assert s[|s| - |s|..] == s;
    }
    SmallModIsSelf(n, m);
  }

  lemma SmallModIsSelf(n: nat, m: nat)
    requires n < m
    ensures n % m == n
  {
  }

  lemma {:induction false} LastDigitsIsMod(n: nat, k: nat)
    ensures LastDigits(n, k) == n % Pow10(k)
  {
    if k > 0 {
      LastDigitsIsMod(n / 10, k - 1);
      SuffixStep(n, Pow10(k - 1), LastDigits(n / 10, k - 1), n % 10, LastDigits(n, k));
    }
  }

  lemma DecimalValueSnoc(u: string, d: char)
    ensures DecimalValue(u + [d]) == 10 * DecimalValue(u) + DigitValue(d)
  {
    assert (u + [d])[..|u|] == u;
  }

  /** The arithmetic of one more digit: a value below 10m ending in digit `n % 10`. */
  lemma SuffixStep(n: nat, m: nat, a: int, dv: int, v: int)
    requires m >= 1 && a == (n / 10) % m && dv == n % 10 && v == 10 * a + dv
    ensures v == n % (10 * m)
  {
    ModOfShift(n, m);
  }

  /** n mod 10m is ten times (n / 10) mod m plus the last digit of n. */
  lemma ModOfShift(n: nat, m: nat)
    requires m >= 1
    ensures 10 * ((n / 10) % m) + n % 10 == n % (10 * m)
  {
    var q, d := n / 10, n % 10;
    var a, b := q / m, q % m;
    assert n == 10 * q + d;
    assert q == m * a + b;
    assert n == (10 * m) * a + (10 * b + d);
    assert 0 <= 10 * b + d < 10 * m;
    ModUnique(n, 10 * m, a, 10 * b + d);
  }

  lemma ModUnique(n: int, m: int, a: int, c: int)
    requires m >= 1 && n == m * a + c && 0 <= c < m
    ensures n % m == c
  {
    var q, r := n / m, n % m;
    var d := q - a;
    assert m * d == c - r by {
      assert m * q + r == m * a + c;
      assert m * q - m * a == m * d;
    }
    if d >= 1 {
      MulAtLeast(m, d);
    }
  }

  lemma MulAtLeast(m: nat, d: nat)
    requires d >= 1
    ensures m * d >= m
  {
  }

  /** `s.padStart(len, c)` with a one-character pad: copies of `c` in front until the length
      reaches `len`. */
  function PadStart(s: string, len: nat, c: char): (r: string)
    ensures |r| == Max(len, |s|)
    ensures r[|r| - |s|..] == s && forall i :: 0 <= i < |r| - |s| ==> r[i] == c
  {
    if |s| >= len then s else [c] + PadStart(s, len - 1, c)
  }
}
