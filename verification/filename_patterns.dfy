/** The filename regular expressions of the date resolver, each written out
    as a recogniser over characters. `MatchAt(p, s, i)` is what Python's
    regex engine reports for pattern `p` tried at position `i` (the capture
    groups, or no match); `Search` is `re.search`: the leftmost position at
    which the pattern matches.

    All patterns are case-sensitive; `\d` and `\s` are taken on ASCII text;
    `$` matches at the end of the text or before a final line feed. */
module FilenamePatterns {
  import opened Wrappers
  import opened Text

  datatype Pattern =
    // `(\d{8})_(\d{6})` and its `IMG_` / `PXL_` prefixed forms, tried on a bare file name
    | BareCompact | BareIphone | BarePixel
    // Samsung: `(\d{8})_(\d{6})(?:_\d+)?\.(?:heic|heif|jpg|jpeg|mp4)$` and `^(\d{8})_(\d{6})(?:_\d+)?$`
    | SamsungExt | SamsungBare
    // iPhone: `^IMG_(\d{8})_(\d{6})\.` and `^IMG_(\d{4})$`
    | IphoneDated | IphoneNumbered
    // Pixel: `PXL_(\d{8})_(\d{9})_?(?:MP|TS)?`
    | Pixel
    // WhatsApp: `IMG-(\d{8})-WA` and `VID-(\d{8})-WA\d{4}`
    | WhatsappImage | WhatsappVideo
    // GoPro: `GoPro(\d{2})(\d{2})(\d{2})_(\d{2})(\d{2})(\d{2})`
    | GoPro
    // DJI: `DJI_(\d{8})_(\d{6})(_\d+)?`
    | Dji
    // generic: `(?:^|[^0-9])(\d{8})_(\d{6})(?:[^0-9]|$)`
    | GenericCompact
    // generic: `(\d{4})-(\d{2})-(\d{2})[\s_-](\d{2})[-_](\d{2})[-_](\d{2})`
    | GenericDashed
    // generic: `(\d{2})[.-](\d{2})[.-](\d{4})`
    | GenericAmbiguous
    // generic: `(\d{2})[-_]([A-Za-z]{3})[-_](\d{4})`
    | GenericMonthName
    // generic: `(?:^|[^0-9])(\d{4})(\d{2})(\d{2})(?:[^0-9]|$)`
    | GenericPlain

  /** Number of capture groups the pattern reports. */
  function Arity(p: Pattern): nat {
    match p
    case IphoneNumbered => 1
    case WhatsappImage => 1
    case WhatsappVideo => 1
    case GoPro => 6
    case GenericDashed => 6
    case GenericAmbiguous => 3
    case GenericMonthName => 3
    case GenericPlain => 3
    case _ => 2
  }

  predicate DigitsAt(s: string, i: nat, n: nat) {
    i + n <= |s| && forall k :: i <= k < i + n ==> IsDigit(s[k])
  }

  predicate LettersAt(s: string, i: nat, n: nat) {
    i + n <= |s| && forall k :: i <= k < i + n ==> IsLetter(s[k])
  }

  predicate LitAt(s: string, i: nat, w: string) {
    i + |w| <= |s| && s[i..i + |w|] == w
  }

  predicate CharIn(s: string, i: nat, cs: set<char>) {
    i < |s| && s[i] in cs
  }

  /** `$`: end of text, or just before a final line feed. */
  predicate EndAt(s: string, i: nat) {
    i == |s| || (i + 1 == |s| && s[i] == '\n')
  }

  /** `(?:[^0-9]|$)`. */
  predicate NonDigitOrEnd(s: string, i: nat) {
    i <= |s| && (i == |s| || !IsDigit(s[i]))
  }

  /** Length of the run of digits starting at `i`: what a greedy `\d+` takes. */
  function DigitRun(s: string, i: nat): (n: nat)
    requires i <= |s|
    ensures i + n <= |s| && DigitsAt(s, i, n)
    ensures i + n < |s| ==> !IsDigit(s[i + n])
  {
    var n := CountLeading(s[i..], IsDigit);
    assert forall k :: i <= k < i + n ==> s[k] == s[i..][k - i];
    assert i + n < |s| ==> s[i + n] == s[i..][n];
    n
  }

  /** `_\d+` followed by `$`. A greedy `\d+` that stops before a digit can
      never be followed by `$`, so only the full run needs trying. */
  predicate UnderscoreDigitsEnd(s: string, i: nat) {
    i < |s| && s[i] == '_' && DigitRun(s, i + 1) >= 1 && EndAt(s, i + 1 + DigitRun(s, i + 1))
  }

  /** `\.(?:heic|heif|jpg|jpeg|mp4)$`. */
  predicate DotExtEnd(s: string, i: nat) {
    i < |s| && s[i] == '.' &&
    exists e :: e in SamsungExts && LitAt(s, i + 1, e) && EndAt(s, i + 1 + |e|)
  }

  const SamsungExts: seq<string> := ["heic", "heif", "jpg", "jpeg", "mp4"]

  /** `(\d{8})_(\d{6})` at `i`. */
  predicate CompactAt(s: string, i: nat) {
    DigitsAt(s, i, 8) && CharIn(s, i + 8, {'_'}) && DigitsAt(s, i + 9, 6)
  }

  function CompactGroups(s: string, i: nat): (g: seq<string>)
    requires CompactAt(s, i)
    ensures |g| == 2 && |g[0]| == 8 && |g[1]| == 6 && AllDigits(g[0]) && AllDigits(g[1])
  {
    [s[i..i + 8], s[i + 9..i + 15]]
  }

  /** The capture groups pattern `p` reports when tried at position `i`. */
  function MatchAt(p: Pattern, s: string, i: nat): (r: Option<seq<string>>)
    ensures r.Some? ==> |r.value| == Arity(p)
  {
    match p
    case BareCompact =>
      if CompactAt(s, i) then Some(CompactGroups(s, i)) else None
    case BareIphone =>
      if LitAt(s, i, "IMG_") && CompactAt(s, i + 4) then Some(CompactGroups(s, i + 4)) else None
    case BarePixel =>
      if LitAt(s, i, "PXL_") && CompactAt(s, i + 4) then Some(CompactGroups(s, i + 4)) else None
    case SamsungExt =>
      if CompactAt(s, i) && (UnderscoreDigitsThenExt(s, i + 15) || DotExtEnd(s, i + 15))
      then Some(CompactGroups(s, i)) else None
    case SamsungBare =>
      if i == 0 && CompactAt(s, 0) && (UnderscoreDigitsEnd(s, 15) || EndAt(s, 15))
      then Some(CompactGroups(s, 0)) else None
    case IphoneDated =>
      if i == 0 && LitAt(s, 0, "IMG_") && CompactAt(s, 4) && CharIn(s, 19, {'.'})
      then Some(CompactGroups(s, 4)) else None
    case IphoneNumbered =>
      if i == 0 && LitAt(s, 0, "IMG_") && DigitsAt(s, 4, 4) && EndAt(s, 8)
      then Some([s[4..8]]) else None
    case Pixel =>
      if LitAt(s, i, "PXL_") && DigitsAt(s, i + 4, 8) && CharIn(s, i + 12, {'_'}) && DigitsAt(s, i + 13, 9)
      then Some([s[i + 4..i + 12], s[i + 13..i + 22]]) else None
    case WhatsappImage =>
      if LitAt(s, i, "IMG-") && DigitsAt(s, i + 4, 8) && LitAt(s, i + 12, "-WA")
      then Some([s[i + 4..i + 12]]) else None
    case WhatsappVideo =>
      if LitAt(s, i, "VID-") && DigitsAt(s, i + 4, 8) && LitAt(s, i + 12, "-WA") && DigitsAt(s, i + 15, 4)
      then Some([s[i + 4..i + 12]]) else None
    case GoPro =>
      if LitAt(s, i, "GoPro") && DigitsAt(s, i + 5, 6) && CharIn(s, i + 11, {'_'}) && DigitsAt(s, i + 12, 6)
      then Some([s[i + 5..i + 7], s[i + 7..i + 9], s[i + 9..i + 11],
                 s[i + 12..i + 14], s[i + 14..i + 16], s[i + 16..i + 18]])
      else None
    case Dji =>
      if LitAt(s, i, "DJI_") && CompactAt(s, i + 4) then Some(CompactGroups(s, i + 4)) else None
    case GenericCompact =>
      // `^` is tried before `[^0-9]`
      if i == 0 && CompactAt(s, 0) && NonDigitOrEnd(s, 15) then Some(CompactGroups(s, 0))
      else if i < |s| && !IsDigit(s[i]) && CompactAt(s, i + 1) && NonDigitOrEnd(s, i + 16)
      then Some(CompactGroups(s, i + 1))
      else None
    case GenericDashed =>
      if DigitsAt(s, i, 4) && CharIn(s, i + 4, {'-'}) && DigitsAt(s, i + 5, 2) && CharIn(s, i + 7, {'-'})
         && DigitsAt(s, i + 8, 2) && i + 10 < |s| && (IsSpace(s[i + 10]) || s[i + 10] in {'_', '-'})
         && DigitsAt(s, i + 11, 2) && CharIn(s, i + 13, {'-', '_'}) && DigitsAt(s, i + 14, 2)
         && CharIn(s, i + 16, {'-', '_'}) && DigitsAt(s, i + 17, 2)
      then Some([s[i..i + 4], s[i + 5..i + 7], s[i + 8..i + 10],
                 s[i + 11..i + 13], s[i + 14..i + 16], s[i + 17..i + 19]])
      else None
    case GenericAmbiguous =>
      if DigitsAt(s, i, 2) && CharIn(s, i + 2, {'.', '-'}) && DigitsAt(s, i + 3, 2)
         && CharIn(s, i + 5, {'.', '-'}) && DigitsAt(s, i + 6, 4)
      then Some([s[i..i + 2], s[i + 3..i + 5], s[i + 6..i + 10]]) else None
    case GenericMonthName =>
      if DigitsAt(s, i, 2) && CharIn(s, i + 2, {'-', '_'}) && LettersAt(s, i + 3, 3)
         && CharIn(s, i + 6, {'-', '_'}) && DigitsAt(s, i + 7, 4)
      then Some([s[i..i + 2], s[i + 3..i + 6], s[i + 7..i + 11]]) else None
    case GenericPlain =>
      if i == 0 && DigitsAt(s, 0, 8) && NonDigitOrEnd(s, 8) then Some([s[0..4], s[4..6], s[6..8]])
      else if i < |s| && !IsDigit(s[i]) && DigitsAt(s, i + 1, 8) && NonDigitOrEnd(s, i + 9)
      then Some([s[i + 1..i + 5], s[i + 5..i + 7], s[i + 7..i + 9]])
      else None
  }

  /** `(?:_\d+)?` taken, then `\.(?:heic|...)$`. */
  predicate UnderscoreDigitsThenExt(s: string, i: nat) {
    i < |s| && s[i] == '_' && DigitRun(s, i + 1) >= 1 && DotExtEnd(s, i + 1 + DigitRun(s, i + 1))
  }

  function Positions(n: nat): (r: seq<nat>)
    ensures |r| == n + 1 && forall k :: 0 <= k <= n ==> r[k] == k
  {
    seq(n + 1, k => k)
  }

  /** `re.search(p, s)`: the leftmost position where `p` matches, with its groups. */
  function Search(p: Pattern, s: string): (r: Option<(seq<string>, nat)>)
    ensures r.Some? ==> r.value.1 <= |s| && MatchAt(p, s, r.value.1) == Some(r.value.0)
    ensures r.Some? ==> forall j :: 0 <= j < r.value.1 ==> MatchAt(p, s, j).None?
    ensures r.None? ==> forall j :: 0 <= j <= |s| ==> MatchAt(p, s, j).None?
  {
    var ps := Positions(|s|);
    var f := i => MatchAt(p, s, i);
    var r := FirstSome(ps, f);
    assert forall j :: 0 <= j <= |s| ==> f(ps[j]) == MatchAt(p, s, j);
    r
  }

  /** A match at `i` with no match before it is what `re.search` reports. */
  lemma SearchAt(p: Pattern, s: string, i: nat, g: seq<string>)
    requires i <= |s| && MatchAt(p, s, i) == Some(g)
    requires forall j :: 0 <= j < i ==> MatchAt(p, s, j).None?
    ensures Search(p, s) == Some((g, i))
  {
    FirstAt(Search(p, s), j => MatchAt(p, s, j), |s|, i, g);
  }

  /** A leftmost-match result is determined by where the first match is. */
  lemma FirstAt<T>(r: Option<(T, nat)>, m: nat -> Option<T>, n: nat, i: nat, g: T)
    requires r.Some? ==> r.value.1 <= n && m(r.value.1) == Some(r.value.0)
    requires r.Some? ==> forall j :: 0 <= j < r.value.1 ==> m(j).None?
    requires r.None? ==> forall j :: 0 <= j <= n ==> m(j).None?
    requires i <= n && m(i) == Some(g) && forall j :: 0 <= j < i ==> m(j).None?
    ensures r == Some((g, i))
  {
  }
}
