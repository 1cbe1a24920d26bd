/** Character classes and string helpers with the meaning Python gives them
    on ASCII text (`str.isdigit`, `str.isspace`, `str.upper`, `str.split`, ...). */
module Text {

  /** `\d` on ASCII text. */
  predicate IsDigit(c: char) { '0' <= c <= '9' }

  predicate IsUpper(c: char) { 'A' <= c <= 'Z' }

  predicate IsLower(c: char) { 'a' <= c <= 'z' }

  /** A cased character in the sense of `str.title`: an ASCII letter. */
  predicate IsLetter(c: char) { IsUpper(c) || IsLower(c) }

  /** `[a-zA-Z0-9]`. */
  predicate IsAlnum(c: char) { IsLetter(c) || IsDigit(c) }

  /** `\w` on ASCII text: letters, digits and the underscore. */
  predicate IsWordChar(c: char) { IsAlnum(c) || c == '_' }

  /** `str.isspace` (and regex `\s`) restricted to ASCII: tab, line feed,
      vertical tab, form feed, carriage return, the four information
      separators 0x1C-0x1F, and space. */
  predicate IsSpace(c: char) {
    ('\t' <= c <= '\r') || ('\U{1c}' <= c <= ' ')
  }

  function Upper(c: char): (r: char)
    ensures IsLower(c) ==> IsUpper(r) && r as int == c as int - 32
    ensures !IsLower(c) ==> r == c
  {
    if IsLower(c) then (c as int - 32) as char else c
  }

  function Lower(c: char): (r: char)
    ensures IsUpper(c) ==> IsLower(r) && r as int == c as int + 32
    ensures !IsUpper(c) ==> r == c
  {
    if IsUpper(c) then (c as int + 32) as char else c
  }

  /** `str.upper` on ASCII text. */
  function UpperStr(s: string): (r: string)
    ensures |r| == |s|
    ensures forall k :: 0 <= k < |s| ==> r[k] == Upper(s[k])
  {
    if s == [] then [] else [Upper(s[0])] + UpperStr(s[1..])
  }

  /** `str.lower` on ASCII text. */
  function LowerStr(s: string): (r: string)
    ensures |r| == |s|
    ensures forall k :: 0 <= k < |s| ==> r[k] == Lower(s[k])
  {
    if s == [] then [] else [Lower(s[0])] + LowerStr(s[1..])
  }

  predicate AllDigits(s: string) {
    forall k :: 0 <= k < |s| ==> IsDigit(s[k])
  }

  /** `int(s)` for a string of decimal digits. */
  function DigitsValue(s: string): nat
    requires AllDigits(s)
  {
    if s == [] then 0
    else 10 * DigitsValue(s[..|s| - 1]) + (s[|s| - 1] as int - '0' as int)
  }

  /** `str(n)` for a natural number: decimal, no leading zeros. */
  function NatToString(n: nat): (r: string)
    ensures |r| >= 1 && AllDigits(r)
    ensures |r| > 1 ==> r[0] != '0'
    ensures n < 10 <==> |r| == 1
    ensures n < 100 ==> |r| <= 2
    decreases n
  {
    if n < 10 then [('0' as int + n) as char]
    else NatToString(n / 10) + [('0' as int + n % 10) as char]
  }

  lemma {:induction false} DigitsValueOfNatToString(n: nat)
    ensures DigitsValue(NatToString(n)) == n
    decreases n
  {
    if n >= 10 {
      DigitsValueOfNatToString(n / 10);
      var r := NatToString(n);
      assert r[..|r| - 1] == NatToString(n / 10);
    }
  }

  /** Decimal rendering is injective: different numbers never print alike. */
  lemma NatToStringInjective(m: nat, n: nat)
    requires NatToString(m) == NatToString(n)
    ensures m == n
  {
    DigitsValueOfNatToString(m);
    DigitsValueOfNatToString(n);
  }

  /** The decimal digit for `k`. */
  function Digit(k: nat): (c: char)
    requires k < 10
    ensures IsDigit(c) && c as int - '0' as int == k
  {
    ('0' as int + k) as char
  }

  /** `n` written with exactly `w` digits, zero-padded on the left
      (`f"{n:0{w}d}"` when `n` fits in `w` digits). */
  function Fixed(n: nat, w: nat): (r: string)
    requires n < Pow10(w)
    ensures |r| == w && AllDigits(r)
    ensures DigitsValue(r) == n
  {
    if w == 0 then ""
    else
      var r := Fixed(n / 10, w - 1) + [Digit(n % 10)];
      assert r[..|r| - 1] == Fixed(n / 10, w - 1);
      r
  }

  lemma Fixed2(n: nat)
    requires n < 100
    ensures Fixed(n, 2) == [Digit(n / 10), Digit(n % 10)]
  {
    assert Fixed(n / 10, 1) == [Digit(n / 10)];
  }

  /** The digits of `s`, in order, everything else dropped. */
  function DigitsOf(s: string): (r: string)
    ensures AllDigits(r) && |r| <= |s|
    ensures AllDigits(s) ==> r == s
  {
    if s == [] then []
    else (if IsDigit(s[0]) then [s[0]] else []) + DigitsOf(s[1..])
  }

  /** `int(s)` for a numeric capture that may carry a leading blank. */
  function NumberOf(s: string): nat {
    DigitsValue(DigitsOf(s))
  }

  lemma NumberOfFixed(n: nat, w: nat)
    requires n < Pow10(w)
    ensures NumberOf(Fixed(n, w)) == n
  {
  }

  lemma DigitsValueBound(s: string)
    requires AllDigits(s)
    ensures DigitsValue(s) < Pow10(|s|)
  {
    if s != [] {
      DigitsValueBound(s[..|s| - 1]);
    }
  }

  function Pow10(n: nat): (r: nat)
    ensures r >= 1
  {
    if n == 0 then 1 else 10 * Pow10(n - 1)
  }

  predicate StartsWith(s: string, prefix: string) {
    |prefix| <= |s| && s[..|prefix|] == prefix
  }

  predicate EndsWith(s: string, suffix: string) {
    |suffix| <= |s| && s[|s| - |suffix|..] == suffix
  }

  /** `needle in s` for strings: a substring test. */
  predicate Contains(s: string, needle: string) {
    exists k :: 0 <= k <= |s| - |needle| && OccursAt(s, needle, k)
  }

  predicate OccursAt(s: string, needle: string, k: int) {
    0 <= k <= |s| - |needle| && s[k..k + |needle|] == needle
  }

  /** Number of leading characters of `s` satisfying `p`. */
  function CountLeading(s: string, p: char -> bool): (n: nat)
    ensures n <= |s|
    ensures forall k :: 0 <= k < n ==> p(s[k])
    ensures n < |s| ==> !p(s[n])
  {
    if s == [] || !p(s[0]) then 0 else 1 + CountLeading(s[1..], p)
  }

  /** `CountLeading` is the length of the longest prefix satisfying `p`. */
  lemma CountLeadingIs(s: string, p: char -> bool, n: nat)
    requires n <= |s| && (forall k :: 0 <= k < n ==> p(s[k])) && (n < |s| ==> !p(s[n]))
    ensures CountLeading(s, p) == n
  {}

  /** Index of the first `c` in `s`, or `|s|` when there is none. */
  function Find(s: string, c: char): (n: nat)
    ensures n <= |s|
    ensures forall k :: 0 <= k < n ==> s[k] != c
    ensures n < |s| ==> s[n] == c
    ensures n == |s| <==> c !in s
  {
    if s == [] || s[0] == c then 0 else 1 + Find(s[1..], c)
  }

  /** Number of trailing characters of `s` satisfying `p`. */
  function CountTrailing(s: string, p: char -> bool): (n: nat)
    ensures n <= |s|
    ensures forall k :: |s| - n <= k < |s| ==> p(s[k])
    ensures n < |s| ==> !p(s[|s| - n - 1])
  {
    if s == [] || !p(s[|s| - 1]) then 0 else 1 + CountTrailing(s[..|s| - 1], p)
  }

  /** `s.strip()`: drop leading and trailing whitespace. */
  function Strip(s: string): (r: string)
    ensures |r| <= |s|
    ensures r != [] ==> !IsSpace(r[0]) && !IsSpace(r[|r| - 1])
    ensures exists a, b :: 0 <= a <= b <= |s| && r == s[a..b]
  {
    var a := CountLeading(s, IsSpace);
    var b := |s| - CountTrailing(s[a..], IsSpace);
    s[a..b]
  }

  /** Text that neither starts nor ends with whitespace is its own strip. */
  lemma StripUnspaced(s: string)
    requires s != [] ==> !IsSpace(s[0]) && !IsSpace(s[|s| - 1])
    ensures Strip(s) == s
  {
    if s != [] {
      assert CountLeading(s, IsSpace) == 0;
      assert s[0..] == s;
      assert CountTrailing(s, IsSpace) == 0;
    }
  }

  /** `s.lstrip(c)`. */
  function DropLeading(s: string, c: char): (r: string)
    ensures |r| <= |s| && s[|s| - |r|..] == r
    ensures r != [] ==> r[0] != c
    ensures forall k :: 0 <= k < |s| - |r| ==> s[k] == c
  {
    if s != [] && s[0] == c then DropLeading(s[1..], c) else s
  }

  /** `s.rstrip(c)`. */
  function DropTrailing(s: string, c: char): (r: string)
    ensures |r| <= |s| && s[..|r|] == r
    ensures r != [] ==> r[|r| - 1] != c
    ensures forall k :: |r| <= k < |s| ==> s[k] == c
  {
    if s != [] && s[|s| - 1] == c then DropTrailing(s[..|s| - 1], c) else s
  }

  /** `s.strip(c)`: drop leading and trailing copies of `c`. */
  function StripChar(s: string, c: char): (r: string)
    ensures |r| <= |s|
    ensures r != [] ==> r[0] != c && r[|r| - 1] != c
  {
    DropTrailing(DropLeading(s, c), c)
  }

  /** `s.replace(pat, sub)`: left-to-right, non-overlapping. */
  function Replace(s: string, pat: string, sub: string): string
    requires pat != []
    decreases |s|
  {
    if |s| < |pat| then s
    else if s[..|pat|] == pat then sub + Replace(s[|pat|..], pat, sub)
    else [s[0]] + Replace(s[1..], pat, sub)
  }

  /** Replacing a word by itself changes nothing. */
  lemma {:induction false} ReplaceSelf(s: string, w: string)
    requires w != []
    ensures Replace(s, w, w) == s
    decreases |s|
  {
    if |s| >= |w| {
      if s[..|w|] == w {
        ReplaceSelf(s[|w|..], w);
        assert s == w + s[|w|..];
      } else {
        ReplaceSelf(s[1..], w);
        assert s == [s[0]] + s[1..];
      }
    }
  }

  /** Replacing one character by another maps the text position by
      position. */
  lemma {:induction false} ReplaceChar(s: string, c: char, d: char)
    ensures |Replace(s, [c], [d])| == |s|
    ensures forall k :: 0 <= k < |s| ==> Replace(s, [c], [d])[k] == if s[k] == c then d else s[k]
    decreases |s|
  {
    if |s| >= 1 {
      ReplaceChar(s[1..], c, d);
      var rest := Replace(s[1..], [c], [d]);
      assert Replace(s, [c], [d]) == [if s[0] == c then d else s[0]] + rest;
    }
  }

  /** `s.split(sep)` for a one-character separator: never empty, and joining
      the pieces back with `sep` gives `s`. */
  function Split(s: string, sep: char): (r: seq<string>)
    ensures |r| >= 1
    ensures forall k :: 0 <= k < |r| ==> sep !in r[k]
    ensures Join(r, [sep]) == s
    decreases |s|
  {
    var n := CountLeading(s, c => c != sep);
    if n == |s| then [s]
    else
      var rest := Split(s[n + 1..], sep);
      assert s == s[..n] + [sep] + s[n + 1..];
      [s[..n]] + rest
  }

  /** `sep.join(parts)`. */
  function Join(parts: seq<string>, sep: string): string {
    if parts == [] then ""
    else if |parts| == 1 then parts[0]
    else parts[0] + sep + Join(parts[1..], sep)
  }

  predicate NotSpace(c: char) { !IsSpace(c) }

  /** Leading blanks are skipped by `split()`. */
  lemma SplitWhitespaceSkip(gap: string, x: string)
    requires forall k :: 0 <= k < |gap| ==> IsSpace(gap[k])
    requires x != [] ==> !IsSpace(x[0])
    ensures SplitWhitespace(gap + x) == SplitWhitespace(x)
  {
    var s := gap + x;
    CountLeadingIs(s, IsSpace, |gap|);
    assert s[|gap|..] == x;
    if x != [] {
      CountLeadingIs(x, IsSpace, 0);
      assert x[0..] == x;
    }
  }

  /** A word followed by a blank (or by nothing) is the first piece. */
  lemma SplitWhitespaceWord(w: string, y: string)
    requires w != [] && forall k :: 0 <= k < |w| ==> !IsSpace(w[k])
    requires y != [] ==> IsSpace(y[0])
    ensures SplitWhitespace(w + y) == [w] + SplitWhitespace(y)
  {
    var s := w + y;
    CountLeadingIs(s, IsSpace, 0);
    assert s[0..] == s;
    CountLeadingIs(s, NotSpace, |w|);
    assert s[..|w|] == w && s[|w|..] == y;
  }

  /** `s.split()`: maximal runs of non-whitespace, in order. */
  function SplitWhitespace(s: string): (r: seq<string>)
    ensures forall k :: 0 <= k < |r| ==> r[k] != [] && forall j :: 0 <= j < |r[k]| ==> !IsSpace(r[k][j])
    decreases |s|
  {
    var a := CountLeading(s, IsSpace);
    if a == |s| then []
    else
      var t := s[a..];
      var n := CountLeading(t, NotSpace);
      [t[..n]] + SplitWhitespace(t[n..])
  }
}
