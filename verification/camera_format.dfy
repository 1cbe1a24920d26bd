/** `_format_camera_names`: how a make or model string is normalised for
    display. The text is stripped and title-cased, looked up in a table of
    known spellings, split into words, and each alphanumeric run of a word
    is re-cased by its length; separator runs are copied. Text is ASCII. */
module CameraFormat {
  import opened Text

  // ---------------------------------------------------------------------
  // letter case

  lemma CaseRoundTrip(c: char)
    ensures Lower(Upper(c)) == Lower(c) && Lower(Lower(c)) == Lower(c)
    ensures IsLetter(Upper(c)) == IsLetter(c) && IsLetter(Lower(c)) == IsLetter(c)
    ensures IsAlnum(Upper(c)) == IsAlnum(c) && IsAlnum(Lower(c)) == IsAlnum(c)
  {}

  /** `str.title`: a letter becomes upper case when the character before it
      is not a letter (`afterLetter` says what came before `s`) and lower
      case otherwise; other characters are kept. */
  function TitleFrom(s: string, afterLetter: bool): (r: string)
    ensures |r| == |s|
    decreases |s|
  {
    if s == [] then []
    else
      var c := s[0];
      [if !IsLetter(c) then c else if afterLetter then Lower(c) else Upper(c)] + TitleFrom(s[1..], IsLetter(c))
  }

  function Title(s: string): (r: string)
    ensures |r| == |s|
  {
    TitleFrom(s, false)
  }

  /** Character by character: title-casing changes only the case of
      letters, and a letter is upper case exactly when no letter precedes
      it. */
  lemma {:induction false} TitleFromChars(s: string, afterLetter: bool)
    ensures var r := TitleFrom(s, afterLetter);
            forall k :: 0 <= k < |s| ==> Lower(r[k]) == Lower(s[k]) && (IsLetter(r[k]) <==> IsLetter(s[k]))
    ensures var r := TitleFrom(s, afterLetter);
            forall k :: 0 <= k < |s| ==> !IsLetter(s[k]) ==> r[k] == s[k]
    ensures var r := TitleFrom(s, afterLetter);
            forall k :: 0 < k < |s| ==> IsLetter(s[k]) ==> (IsUpper(r[k]) <==> !IsLetter(s[k - 1]))
    ensures var r := TitleFrom(s, afterLetter);
            |s| > 0 && IsLetter(s[0]) ==> (IsUpper(r[0]) <==> !afterLetter)
    decreases |s|
  {
    if s != [] {
      CaseRoundTrip(s[0]);
      TitleFromChars(s[1..], IsLetter(s[0]));
      var r := TitleFrom(s, afterLetter);
      assert forall k :: 0 < k < |s| ==> s[k] == s[1..][k - 1] && r[k] == TitleFrom(s[1..], IsLetter(s[0]))[k - 1];
    }
  }

  /** A capital followed by lower-case letters is already title-cased. */
  lemma TitleKeepsCapitalised(w: string)
    requires w != [] && IsUpper(w[0]) && forall k :: 1 <= k < |w| ==> IsLower(w[k])
    ensures Title(w) == w
  {
    TitleFromChars(w, false);
    var r := Title(w);
    forall k | 0 <= k < |w|
      ensures r[k] == w[k]
    {
      if k > 0 {
        assert IsLetter(w[k]) && IsLetter(w[k - 1]);
      }
    }
  }

  /** Title-cased text never has an upper-case letter right after a letter. */
  lemma TitleNoCapitalPair(s: string, k: nat)
    requires 0 < k < |s| && IsLetter(Title(s)[k - 1])
    ensures !IsUpper(Title(s)[k])
  {
    TitleFromChars(s, false);
  }

  /** `r` is `w` with only the case of some letters changed. */
  predicate CaseVariant(r: string, w: string) {
    && |r| == |w|
    && (forall k :: 0 <= k < |w| ==> Lower(r[k]) == Lower(w[k]))
    && (forall k :: 0 <= k < |w| ==> !IsLetter(w[k]) ==> r[k] == w[k])
  }

  lemma CaseVariantConcat(r1: string, w1: string, r2: string, w2: string)
    requires CaseVariant(r1, w1) && CaseVariant(r2, w2)
    ensures CaseVariant(r1 + r2, w1 + w2)
  {
    assert forall k :: |w1| <= k < |w1| + |w2| ==> (r1 + r2)[k] == r2[k - |w1|] && (w1 + w2)[k] == w2[k - |w1|];
  }

  /** `str.capitalize`: the first character upper case, the rest lower case. */
  function Capitalize(p: string): (r: string)
    ensures CaseVariant(r, p)
  {
    if p == [] then []
    else
      CaseRoundTrip(p[0]);
      forall k | 1 <= k < |p| ensures Lower(LowerStr(p[1..])[k - 1]) == Lower(p[k]) {
        CaseRoundTrip(p[k]);
      }
      [Upper(p[0])] + LowerStr(p[1..])
  }

  /** One alphanumeric run: four characters or fewer are upper-cased, a
      longer run of digits is kept, any other run is capitalised. */
  function FormatPart(p: string): (r: string)
    ensures CaseVariant(r, p)
  {
    if |p| <= 4 then
      forall k | 0 <= k < |p| ensures Lower(UpperStr(p)[k]) == Lower(p[k]) { CaseRoundTrip(p[k]); }
      UpperStr(p)
    else if AllDigits(p) then p
    else Capitalize(p)
  }

  /** Length of the run at the head of `w`: alphanumeric or separator. */
  function RunLength(w: string): (n: nat)
    requires w != []
    ensures 0 < n <= |w|
    ensures forall k :: 0 <= k < n ==> IsAlnum(w[k]) == IsAlnum(w[0])
    ensures n < |w| ==> IsAlnum(w[n]) != IsAlnum(w[0])
  {
    if IsAlnum(w[0]) then CountLeading(w, IsAlnum) else CountLeading(w, c => !IsAlnum(c))
  }

  /** One word: `re.split(r'([^a-zA-Z0-9]+)', word)` cuts it into alternating
      alphanumeric and separator runs; the alphanumeric runs are formatted,
      the separators copied. */
  function FormatWord(w: string): (r: string)
    ensures CaseVariant(r, w)
    decreases |w|
  {
    if w == [] then []
    else
      var n := RunLength(w);
      var run, tail := w[..n], w[n..];
      var head := if IsAlnum(w[0]) then FormatPart(run) else run;
      var rest := FormatWord(tail);
      CaseVariantConcat(head, run, rest, tail);
      assert run + tail == w;
      head + rest
  }

  function FormatWords(ws: seq<string>): (r: seq<string>)
    ensures |r| == |ws|
    ensures forall j :: 0 <= j < |ws| ==> r[j] == FormatWord(ws[j])
  {
    if ws == [] then [] else [FormatWord(ws[0])] + FormatWords(ws[1..])
  }

  // ---------------------------------------------------------------------
  // tables

  const MakeMapping: map<string, string> := map[
    "Google Inc" := "Google",
    "Google Inc." := "Google",
    "Samsung Electronics" := "Samsung",
    "Samsung Electronics Co., Ltd." := "Samsung",
    "Samsung Electronics Co.,Ltd." := "Samsung",
    "Samsung Electronics Co., Ltd" := "Samsung",
    "Samsung Electronics Co.,Ltd" := "Samsung"]

  const SmKeys: seq<string> := [
    "SM-S911B", "SM-S911U", "SM-S911W", "SM-S911N", "SM-S9110",
    "SM-S911B/DS", "SM-S911U1", "SM-S911W/DS", "SM-S911N/DS", "SM-S9110/DS"]

  const PixelKeys: seq<string> := ["Pixel 6", "Pixel 6 Pro", "Pixel 7", "Pixel 7 Pro", "Pixel 8", "Pixel 8 Pro"]

  const ModelMapping: map<string, string> := map[
    "SM-S911B" := "Galaxy S23",
    "SM-S911U" := "Galaxy S23",
    "SM-S911W" := "Galaxy S23",
    "SM-S911N" := "Galaxy S23",
    "SM-S9110" := "Galaxy S23",
    "SM-S911B/DS" := "Galaxy S23",
    "SM-S911U1" := "Galaxy S23",
    "SM-S911W/DS" := "Galaxy S23",
    "SM-S911N/DS" := "Galaxy S23",
    "SM-S9110/DS" := "Galaxy S23",
    "Pixel 6" := "Pixel",
    "Pixel 6 Pro" := "Pixel",
    "Pixel 7" := "Pixel",
    "Pixel 7 Pro" := "Pixel",
    "Pixel 8" := "Pixel",
    "Pixel 8 Pro" := "Pixel"]

  /** The special-word replacements, applied in this order. Only the first
      changes anything. */
  const SpecialWords: seq<(string, string)> := [
    ("Dslr", "DSLR"), ("Mirrorless", "Mirrorless"), ("Compact", "Compact"), ("Bridge", "Bridge"),
    ("Action", "Action"), ("Drone", "Drone"), ("Smartphone", "Smartphone"), ("Samsung", "Samsung"),
    ("Galaxy", "Galaxy")]

  lemma SpecialWordsNonEmpty()
    ensures forall j :: 0 <= j < |SpecialWords| ==> SpecialWords[j].0 != []
  {}

  function ApplySpecials(x: string, sw: seq<(string, string)>): string
    requires forall j :: 0 <= j < |sw| ==> sw[j].0 != []
    decreases |sw|
  {
    if sw == [] then x else ApplySpecials(Replace(x, sw[0].0, sw[0].1), sw[1..])
  }

  // ---------------------------------------------------------------------
  // the formatter

  /** The stripped, title-cased input; `'Unknown'` for the empty string. */
  function Titled(s: string): string {
    if s == "" then "Unknown" else Title(Strip(s))
  }

  /** The table-mapped text before word formatting. */
  function Normalised(s: string, mapping: map<string, string>): string {
    var t := Titled(s);
    if t in mapping then mapping[t] else t
  }

  /** The words of `u`, each formatted, joined by single blanks. */
  function Rejoined(u: string): string {
    Join(FormatWords(SplitWhitespace(u)), " ")
  }

  /** Word formatting, joining and the special words. */
  function Reformat(u: string): string {
    SpecialWordsNonEmpty();
    ApplySpecials(Rejoined(u), SpecialWords)
  }

  /** One field of `_format_camera_names`. */
  function FormatName(s: string, mapping: map<string, string>): string {
    Reformat(Normalised(s, mapping))
  }

  /** `_format_camera_names(make, model)`. */
  function FormatCameraNames(make: string, model: string): (string, string) {
    (FormatName(make, MakeMapping), FormatName(model, ModelMapping))
  }

  // ---------------------------------------------------------------------
  // properties

  /** Every alphanumeric run of a word is re-cased by the length rule and
      nothing else changes: the formatted word differs from the original
      only in the case of its letters. */
  lemma FormatWordOnlyRecases(w: string)
    ensures CaseVariant(FormatWord(w), w)
  {}

  /** A replacement whose pattern is already its substitute does nothing. */
  lemma {:induction false} IdentitySpecials(x: string, sw: seq<(string, string)>)
    requires forall j :: 0 <= j < |sw| ==> sw[j].0 != [] && sw[j].0 == sw[j].1
    ensures ApplySpecials(x, sw) == x
    decreases |sw|
  {
    if sw != [] {
      ReplaceSelf(x, sw[0].0);
      IdentitySpecials(x, sw[1..]);
    }
  }

  /** Of the special words, only `Dslr` -> `DSLR` changes anything. */
  lemma SpecialsOnlyDslr(x: string)
    ensures ApplySpecials(x, SpecialWords) == Replace(x, "Dslr", "DSLR")
  {
    IdentitySpecials(Replace(x, "Dslr", "DSLR"), SpecialWords[1..]);
  }

  /** A pattern whose first character does not occur is never replaced. */
  lemma {:induction false} ReplaceAbsent(x: string, pat: string, sub: string)
    requires pat != [] && pat[0] !in x
    ensures Replace(x, pat, sub) == x
    decreases |x|
  {
    if |x| >= |pat| {
      assert x[..|pat|][0] == x[0];
      ReplaceAbsent(x[1..], pat, sub);
      assert x == [x[0]] + x[1..];
    }
  }

  /** The `SM-S911…` model keys can never match: after title-casing, the
      `M` that follows the letter `S` is always lower case. */
  lemma SmKeysUnreachable(s: string, j: nat)
    requires j < |SmKeys|
    ensures Titled(s) != SmKeys[j]
  {
    var key := SmKeys[j];
    assert key[0] == 'S' && key[1] == 'M';
    if s != "" && Titled(s) == key {
      TitleNoCapitalPair(Strip(s), 1);
      assert false;
    }
  }

  /** A word that is one alphanumeric run is formatted as that run. */
  lemma OneRunWord(w: string)
    requires w != [] && forall k :: 0 <= k < |w| ==> IsAlnum(w[k])
    ensures FormatWord(w) == FormatPart(w)
  {
    var n := RunLength(w);
    assert n == |w|;
    assert w[..n] == w && w[n..] == [];
  }

  /** A capital followed by lower-case letters is already capitalised. */
  lemma CapitalizeKeeps(w: string)
    requires w != [] && IsUpper(w[0]) && forall k :: 1 <= k < |w| ==> IsLower(w[k])
    ensures Capitalize(w) == w
  {
    var t := w[1..];
    assert LowerStr(t) == t;
    assert [w[0]] + t == w;
  }

  /** A word with nothing but a capital followed by at least four lower-case
      letters is kept as it is. */
  lemma CapitalisedWordKept(w: string)
    requires |w| >= 5 && IsUpper(w[0]) && forall k :: 1 <= k < |w| ==> IsLower(w[k])
    ensures FormatWord(w) == w
  {
    OneRunWord(w);
    assert !AllDigits(w) by {
      assert !IsDigit(w[0]);
    }
    CapitalizeKeeps(w);
  }

  /** A short word is upper-cased whole. */
  lemma ShortWordUpper(w: string)
    requires 0 < |w| <= 4 && forall k :: 0 <= k < |w| ==> IsAlnum(w[k])
    ensures FormatWord(w) == UpperStr(w)
  {
    OneRunWord(w);
  }

  lemma SingleWordSplit(w: string)
    requires w != [] && forall k :: 0 <= k < |w| ==> !IsSpace(w[k])
    ensures SplitWhitespace(w) == [w]
  {
    var a := CountLeading(w, IsSpace);
    assert a == 0;
    var t := w[a..];
    assert t == w;
    var n := CountLeading(t, NotSpace);
    assert n == |t|;
    assert t[..n] == w && t[n..] == [];
    assert SplitWhitespace(w) == [t[..n]] + SplitWhitespace(t[n..]);
  }

  /** A single capitalised word without a `D` comes out of the formatting
      stage unchanged. */
  lemma PlainWordReformat(w: string)
    requires |w| >= 5 && IsUpper(w[0]) && forall k :: 1 <= k < |w| ==> IsLower(w[k])
    requires 'D' !in w
    ensures Reformat(w) == w
  {
    SingleWordSplit(w);
    CapitalisedWordKept(w);
    assert FormatWords([w]) == [w];
    SpecialsOnlyDslr(w);
    ReplaceAbsent(w, "Dslr", "DSLR");
  }

  lemma UnknownWord(w: string)
    requires w == "Unknown"
    ensures Reformat(w) == w
  {
    PlainWordReformat(w);
  }

  /** An empty field, or one that reads `Unknown` once title-cased, stays
      `'Unknown'`. */
  lemma UnknownStays(s: string, mapping: map<string, string>)
    requires mapping == MakeMapping || mapping == ModelMapping
    requires s == "" || Title(Strip(s)) == "Unknown"
    ensures FormatName(s, mapping) == "Unknown"
  {
    assert Titled(s) == "Unknown";
    assert "Unknown" !in mapping;
    UnknownWord(Normalised(s, mapping));
  }

  lemma PixelWord(w: string)
    requires w == "Pixel"
    ensures Reformat(w) == w
  {
    PlainWordReformat(w);
  }

  /** `'Pixel 6'` through `'Pixel 8 Pro'` all display as `'Pixel'`. */
  lemma PixelModelsCollapse(s: string)
    requires Titled(s) in PixelKeys
    ensures FormatName(s, ModelMapping) == "Pixel"
  {
    assert Normalised(s, ModelMapping) == "Pixel";
    PixelWord(Normalised(s, ModelMapping));
  }

  /** Two words separated by a run of blanks split into those two words. */
  lemma TwoWordSplit(a: string, gap: string, b: string)
    requires a != [] && forall k :: 0 <= k < |a| ==> !IsSpace(a[k])
    requires gap != [] && forall k :: 0 <= k < |gap| ==> IsSpace(gap[k])
    requires b != [] && forall k :: 0 <= k < |b| ==> !IsSpace(b[k])
    ensures SplitWhitespace(a + gap + b) == [a, b]
  {
    SplitWhitespaceWord(a, gap + b);
    assert a + gap + b == a + (gap + b);
    SplitWhitespaceSkip(gap, b);
    SingleWordSplit(b);
  }

  /** Title-casing works piece by piece. */
  lemma {:induction false} TitleConcat(a: string, b: string, p: bool)
    ensures TitleFrom(a + b, p) == TitleFrom(a, p) + TitleFrom(b, if a == [] then p else IsLetter(a[|a| - 1]))
    decreases |a|
  {
    if a != [] {
      assert (a + b)[1..] == a[1..] + b;
      TitleConcat(a[1..], b, IsLetter(a[0]));
      if |a| > 1 { assert a[1..][|a[1..]| - 1] == a[|a| - 1]; }
    } else {
      assert a + b == b;
    }
  }

  /** A run of letters is title-cased as one word. */
  lemma {:induction false} TitleLetters(w: string, p: bool)
    requires w != [] && forall k :: 0 <= k < |w| ==> IsLetter(w[k])
    ensures TitleFrom(w, p) == [if p then Lower(w[0]) else Upper(w[0])] + LowerStr(w[1..])
    decreases |w|
  {
    if |w| > 1 {
      TitleLetters(w[1..], true);
      assert LowerStr(w[1..]) == [Lower(w[1])] + LowerStr(w[2..]);
      assert w[1..][1..] == w[2..];
    }
  }

  /** Characters that are not letters are kept. */
  lemma TitleNonLetters(g: string, p: bool)
    requires forall k :: 0 <= k < |g| ==> !IsLetter(g[k])
    ensures TitleFrom(g, p) == g
  {}

  predicate Letters(w: string) {
    w != [] && forall k :: 0 <= k < |w| ==> IsLetter(w[k])
  }

  predicate Blanks(g: string) {
    g != [] && forall k :: 0 <= k < |g| ==> IsSpace(g[k])
  }

  /** Two words of letters around a run of blanks are title-cased word by
      word. */
  lemma TitleTwoWords(a: string, g: string, b: string)
    requires Letters(a) && Blanks(g) && Letters(b)
    ensures Title(a + g + b) == ([Upper(a[0])] + LowerStr(a[1..])) + g + ([Upper(b[0])] + LowerStr(b[1..]))
  {
    TitleConcat(a + g, b, false);
    TitleConcat(a, g, false);
    TitleLetters(a, false);
    TitleNonLetters(g, true);
    TitleLetters(b, false);
    assert (a + g)[|a + g| - 1] == g[|g| - 1];
  }

  /** Two words around a run of blanks are formatted word by word and joined
      by a single blank. */
  lemma ReformatTwoWords(a: string, g: string, b: string)
    requires a != [] && (forall k :: 0 <= k < |a| ==> !IsSpace(a[k])) && Blanks(g)
    requires b != [] && forall k :: 0 <= k < |b| ==> !IsSpace(b[k])
    ensures Rejoined(a + g + b) == FormatWord(a) + " " + FormatWord(b)
  {
    TwoWordSplit(a, g, b);
    var fs := FormatWords([a, b]);
    assert fs == [FormatWord(a), FormatWord(b)];
    JoinTwo(fs, " ");
  }

  lemma JoinTwo(parts: seq<string>, sep: string)
    requires |parts| == 2
    ensures Join(parts, sep) == parts[0] + sep + parts[1]
  {
    assert Join(parts[1..], sep) == parts[1];
  }

  lemma GoogleIncPieces(s: string)
    requires s == "GOOGLE  INC"
    ensures s == "GOOGLE" + "  " + "INC" && Strip(s) == s
  {
    StripUnspaced(s);
  }

  lemma GoogleIncTitle(s: string)
    requires s == "GOOGLE  INC"
    ensures Titled(s) == "Google  Inc"
  {
    GoogleIncPieces(s);
    TitleTwoWords("GOOGLE", "  ", "INC");
    assert [Upper('G')] + LowerStr("OOGLE") == "Google";
    assert [Upper('I')] + LowerStr("NC") == "Inc";
  }

  lemma GoogleIncApart(u: string)
    requires u == "Google  Inc"
    ensures Rejoined(u) == FormatWord(u[..6]) + " " + FormatWord(u[8..])
  {
    var x, g, y := u[..6], u[6..8], u[8..];
    assert u == x + g + y;
    ReformatTwoWords(x, g, y);
  }

  lemma GoogleKept(x: string)
    requires x == "Google"
    ensures FormatWord(x) == x
  {
    CapitalisedWordKept(x);
  }

  lemma IncUpper(y: string)
    requires y == "Inc"
    ensures FormatWord(y) == "INC"
  {
    ShortWordUpper(y);
  }

  lemma GoogleIncJoined(u: string, x: string, y: string)
    requires u == "Google  Inc" && x == "Google" && y == "INC"
    ensures u[..6] == x && u[8..] == "Inc" && x + " " + y == "Google INC"
  {}

  lemma GoogleIncRejoined(u: string)
    requires u == "Google  Inc"
    ensures Rejoined(u) == "Google INC"
  {
    GoogleIncApart(u);
    GoogleIncJoined(u, "Google", "INC");
    GoogleKept(u[..6]);
    IncUpper(u[8..]);
  }

  lemma NoSpecialWords(r: string)
    requires r == "Google INC"
    ensures ApplySpecials(r, SpecialWords) == r
  {
    SpecialsOnlyDslr(r);
    ReplaceAbsent(r, "Dslr", "DSLR");
  }

  lemma GoogleIncReformat(u: string)
    requires u == "Google  Inc"
    ensures Reformat(u) == "Google INC"
  {
    GoogleIncRejoined(u);
    NoSpecialWords(Rejoined(u));
  }

  lemma GoogleSingle(s: string)
    requires s == "Google INC"
    ensures s == "Google" + " " + "INC" && Strip(s) == s
  {
    StripUnspaced(s);
  }

  lemma GoogleWords(a: string, b: string)
    requires a == "Google" && b == "INC"
    ensures [Upper(a[0])] + LowerStr(a[1..]) == "Google"
    ensures [Upper(b[0])] + LowerStr(b[1..]) == "Inc"
    ensures "Google" + " " + "Inc" == "Google Inc"
  {}

  lemma GoogleTitle(s: string)
    requires s == "Google INC"
    ensures Titled(s) == "Google Inc"
  {
    GoogleSingle(s);
    TitleTwoWords("Google", " ", "INC");
    GoogleWords("Google", "INC");
  }

  lemma FirstPass(s: string)
    requires s == "GOOGLE  INC"
    ensures FormatName(s, MakeMapping) == "Google INC"
  {
    GoogleIncTitle(s);
    assert Titled(s) !in MakeMapping;
    GoogleIncReformat(Normalised(s, MakeMapping));
  }

  lemma SecondPass(t: string)
    requires t == "Google INC"
    ensures FormatName(t, MakeMapping) == "Google"
  {
    GoogleTitle(t);
    assert MakeMapping[Titled(t)] == "Google";
    PlainWordReformat(Normalised(t, MakeMapping));
  }

  /** Formatting is not idempotent: `'GOOGLE  INC'` (two blanks) misses the
      `'Google Inc'` table entry and becomes `'Google INC'`, which on a
      second pass hits it and becomes `'Google'`. */
  lemma FormatNotIdempotent(s: string)
    requires s == "GOOGLE  INC"
    ensures FormatName(s, MakeMapping) == "Google INC"
    ensures FormatName(FormatName(s, MakeMapping), MakeMapping) == "Google"
  {
    FirstPass(s);
    SecondPass(FormatName(s, MakeMapping));
  }
}
