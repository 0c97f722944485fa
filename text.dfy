/**
 * Characters, digit strings and small string predicates shared by the
 * validation layer, the calendar and the history page.  Only ASCII is
 * modelled: the regular expressions of the portal use `\d` and `[A-Za-z]`,
 * and the case conversions it applies are only ever fed enum names.
 */
module Text {

  datatype Option<+T> = None | Some(value: T)

  predicate IsDigit(c: char) { '0' <= c <= '9' }

  predicate IsLetter(c: char) { 'A' <= c <= 'Z' || 'a' <= c <= 'z' }

  /** The characters `\w` matches in a JavaScript regular expression. */
  predicate IsWordChar(c: char) { IsLetter(c) || IsDigit(c) || c == '_' }

  predicate AllDigits(s: string) { forall i :: 0 <= i < |s| ==> IsDigit(s[i]) }

  predicate AllLetters(s: string) { forall i :: 0 <= i < |s| ==> IsLetter(s[i]) }

  predicate StartsWith(s: string, prefix: string) {
    |prefix| <= |s| && s[..|prefix|] == prefix
  }

  /** `s.includes(sub)` */
  predicate Contains(s: string, sub: string)
    decreases |s|
  {
    StartsWith(s, sub) || (|s| > 0 && Contains(s[1..], sub))
  }

  /** An occurrence of `sub` at position `k` makes `s` contain it. */
  lemma {:induction false} ContainsAt(s: string, sub: string, k: nat)
    requires k <= |s| && StartsWith(s[k..], sub)
    ensures Contains(s, sub)
  {
    if k > 0 {
      assert s[1..][k - 1..] == s[k..];
      ContainsAt(s[1..], sub, k - 1);
    }
  }

  function Lower(c: char): (r: char)
    ensures 'A' <= c <= 'Z' ==> r as int == c as int + 32
    ensures !('A' <= c <= 'Z') ==> r == c
  {
    if 'A' <= c <= 'Z' then (c as int + 32) as char else c
  }

  function Upper(c: char): (r: char)
    ensures 'a' <= c <= 'z' ==> r as int == c as int - 32
    ensures !('a' <= c <= 'z') ==> r == c
  {
    if 'a' <= c <= 'z' then (c as int - 32) as char else c
  }

  function DigitChar(d: nat): (c: char)
    requires d < 10
    ensures IsDigit(c) && c as int - '0' as int == d
  {
    ('0' as int + d) as char
  }

  function DigitValue(c: char): (d: nat)
    requires IsDigit(c)
    ensures d < 10 && DigitChar(d) == c
  {
    c as int - '0' as int
  }

  function Pow10(w: nat): (p: nat)
    ensures p >= 1
  {
    if w == 0 then 1 else 10 * Pow10(w - 1)
  }

  /** The value of a decimal digit string, most significant digit first. */
  function DigitsValue(s: string): (v: nat)
    requires AllDigits(s)
    ensures v < Pow10(|s|)
  {
    if s == [] then 0 else DigitsValue(s[..|s| - 1]) * 10 + DigitValue(s[|s| - 1])
  }

  /** `String(n)` for a non-negative integer: decimal, no leading zeros. */
  function NatStr(n: nat): (s: string)
    ensures |s| >= 1 && AllDigits(s)
    ensures DigitsValue(s) == n
  {
    if n < 10 then [DigitChar(n)] else
      var s := NatStr(n / 10) + [DigitChar(n % 10)];
      assert s[..|s| - 1] == NatStr(n / 10);
      s
  }

  /** The last `w` decimal digits of `n`, zero-padded on the left. */
  function FixedDigits(n: nat, w: nat): (s: string)
    ensures |s| == w && AllDigits(s)
  {
    if w == 0 then [] else FixedDigits(n / 10, w - 1) + [DigitChar(n % 10)]
  }

  lemma {:induction false} FixedDigitsValue(n: nat, w: nat)
    requires n < Pow10(w)
    ensures DigitsValue(FixedDigits(n, w)) == n
  {
    if w > 0 {
      var s := FixedDigits(n, w);
      assert s[..|s| - 1] == FixedDigits(n / 10, w - 1);
      FixedDigitsValue(n / 10, w - 1);
    }
  }

  lemma {:induction false} ValueFixedDigits(s: string)
    requires AllDigits(s)
    ensures FixedDigits(DigitsValue(s), |s|) == s
  {
    if s != [] {
      var init, last := s[..|s| - 1], s[|s| - 1];
      ValueFixedDigits(init);
      DivMod10(DigitsValue(init), DigitValue(last));
      assert s == init + [last];
    }
  }

  lemma DivMod10(x: nat, d: nat)
    requires d < 10
    ensures (x * 10 + d) / 10 == x && (x * 10 + d) % 10 == d
  {
  }

  /** Length of the longest prefix of digits (what a greedy `\d+` consumes). */
  function DigitRun(s: string): (k: nat)
    ensures k <= |s| && AllDigits(s[..k])
    ensures k < |s| ==> !IsDigit(s[k])
  {
    if s == [] || !IsDigit(s[0]) then 0 else
      var k := 1 + DigitRun(s[1..]);
      assert s[..k] == [s[0]] + s[1..][..k - 1];
      k
  }

  /** Length of the longest prefix of ASCII letters (what a greedy `[A-Za-z]+` consumes). */
  function LetterRun(s: string): (k: nat)
    ensures k <= |s| && AllLetters(s[..k])
    ensures k < |s| ==> !IsLetter(s[k])
  {
    if s == [] || !IsLetter(s[0]) then 0 else
      var k := 1 + LetterRun(s[1..]);
      assert s[..k] == [s[0]] + s[1..][..k - 1];
      k
  }

  lemma {:induction false} DigitRunOf(a: string, b: string)
    requires AllDigits(a)
    requires b == [] || !IsDigit(b[0])
    ensures DigitRun(a + b) == |a|
  {
    if a != [] {
      assert (a + b)[1..] == a[1..] + b;
      DigitRunOf(a[1..], b);
    }
  }

  lemma {:induction false} LetterRunOf(a: string, b: string)
    requires AllLetters(a)
    requires b == [] || !IsLetter(b[0])
    ensures LetterRun(a + b) == |a|
  {
    if a != [] {
      assert (a + b)[1..] == a[1..] + b;
      LetterRunOf(a[1..], b);
    }
  }

  /** Cutting `a + sep + b` after `a`, and `sep + b` after `sep`. */
  lemma SplitJoin(a: string, sep: string, b: string)
    ensures (a + sep + b)[..|a|] == a
    ensures (a + sep + b)[|a|..] == sep + b
    ensures StartsWith(sep + b, sep) && (sep + b)[|sep|..] == b
  {
    assert a + sep + b == a + (sep + b);
  }

  /** A string cut at `k` and again `|sep|` later, when `sep` follows position `k`. */
  lemma JoinSplit(s: string, k: nat, sep: string)
    requires k <= |s| && StartsWith(s[k..], sep)
    ensures s == s[..k] + sep + s[k..][|sep|..]
  {
    assert s[k..] == sep + s[k..][|sep|..];
    assert s == s[..k] + s[k..];
  }

  lemma PrefixSplit(s: string, prefix: string)
    requires StartsWith(s, prefix)
    ensures s == prefix + s[|prefix|..]
  {
    assert s == s[..|prefix|] + s[|prefix|..];
  }
}
