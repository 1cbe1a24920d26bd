/** `datetime.strptime` for the directives the organiser's formats use.

    Python compiles a format into a regular expression (case-insensitive),
    takes the FIRST match of that expression at the start of the input in
    backtracking order, rejects the input when the match stops short of its
    end ("unconverted data remains"), and finally builds a `datetime` from
    the captured fields, which raises when the fields do not form a valid
    date. This module mirrors those three stages. */
module Strptime {
  import opened Wrappers
  import opened Text
  import Calendar

  /** One element of a format: a `%` directive, a literal character, or a
      run of blanks in the format (which Python turns into `\s+`). */
  datatype Directive =
    | Year        // %Y
    | Month       // %m
    | Day         // %d
    | Hour        // %H
    | Minute      // %M
    | Second      // %S
    | Fraction    // %f
    | MonthName   // %b
    | Literal(c: char)
    | Whitespace

  type Format = seq<Directive>

  /** A one-character regular-expression atom. */
  datatype CharClass = Is(c: char) | Between(lo: char, hi: char) | Caseless(c: char)

  predicate Has(k: CharClass, x: char) {
    match k
    case Is(c) => x == c
    case Between(lo, hi) => lo <= x <= hi
    case Caseless(c) => Lower(x) == Lower(c)
  }

  const D := Between('0', '9')

  /** English month abbreviations as `%b` matches them (case-insensitively). */
  const MonthAbbrevs: seq<string> :=
    ["jan", "feb", "mar", "apr", "may", "jun", "jul", "aug", "sep", "oct", "nov", "dec"]

  function Word(w: string): seq<CharClass> {
    seq(|w|, k requires 0 <= k < |w| => Caseless(w[k]))
  }

  /** The alternatives of a directive's regular expression, in the order the
      regex engine tries them. `%f` is `[0-9]{1,6}`, greedy, so its
      alternatives run from six digits down to one. */
  function Alternatives(d: Directive): (r: seq<seq<CharClass>>)
    requires d != Whitespace
    ensures forall k :: 0 <= k < |r| ==> |r[k]| >= 1
  {
    match d
    case Year => [[D, D, D, D]]
    case Month => [[Is('1'), Between('0', '2')], [Is('0'), Between('1', '9')], [Between('1', '9')]]
    case Day => [[Is('3'), Between('0', '1')], [Between('1', '2'), D], [Is('0'), Between('1', '9')],
                 [Between('1', '9')], [Is(' '), Between('1', '9')]]
    case Hour => [[Is('2'), Between('0', '3')], [Between('0', '1'), D], [D]]
    case Minute => [[Between('0', '5'), D], [D]]
    case Second => [[Is('6'), Between('0', '1')], [Between('0', '5'), D], [D]]
    case Fraction => [[D, D, D, D, D, D], [D, D, D, D, D], [D, D, D, D], [D, D, D], [D, D], [D]]
    case MonthName => seq(|MonthAbbrevs|, k requires 0 <= k < |MonthAbbrevs| => Word(MonthAbbrevs[k]))
    case Literal(c) => [[Caseless(c)]]
  }

  /** `alt` matches `s` starting at position `i`. */
  predicate MatchesAt(alt: seq<CharClass>, s: string, i: nat) {
    i + |alt| <= |s| && forall k :: 0 <= k < |alt| ==> Has(alt[k], s[i + k])
  }

  /** The words a directive's regular expression matches in full. */
  predicate InLang(d: Directive, w: string) {
    if d == Whitespace then w != [] && forall k :: 0 <= k < |w| ==> IsSpace(w[k])
    else AnyMatches(Alternatives(d), w)
  }

  /** Some alternative of `alts` matches all of `w`. */
  predicate AnyMatches(alts: seq<seq<CharClass>>, w: string) {
    alts != [] && ((|alts[0]| == |w| && MatchesAt(alts[0], w, 0)) || AnyMatches(alts[1..], w))
  }

  lemma {:induction false} AnyMatchesMember(alts: seq<seq<CharClass>>, a: seq<CharClass>, w: string)
    requires a in alts && |a| == |w| && MatchesAt(a, w, 0)
    ensures AnyMatches(alts, w)
  {
    if alts[0] != a {
      AnyMatchesMember(alts[1..], a, w);
    }
  }

  /** End positions of the alternatives of `alts` that match at `i`, in order. */
  function EndsOf(alts: seq<seq<CharClass>>, s: string, i: nat): (r: seq<nat>)
    requires i <= |s|
    ensures forall k :: 0 <= k < |r| ==> i <= r[k] <= |s|
  {
    if alts == [] then []
    else if MatchesAt(alts[0], s, i) then [i + |alts[0]|] + EndsOf(alts[1..], s, i)
    else EndsOf(alts[1..], s, i)
  }

  /** Each end position comes from an alternative that matches there. */
  lemma {:induction false} EndsOfMatch(alts: seq<seq<CharClass>>, s: string, i: nat, k: nat)
    requires i <= |s| && k < |EndsOf(alts, s, i)|
    ensures exists a :: a in alts && MatchesAt(a, s, i) && EndsOf(alts, s, i)[k] == i + |a|
  {
    if !MatchesAt(alts[0], s, i) {
      EndsOfMatch(alts[1..], s, i, k);
      var a :| a in alts[1..] && MatchesAt(a, s, i) && EndsOf(alts[1..], s, i)[k] == i + |a|;
      assert a in alts;
    } else if k > 0 {
      EndsOfMatch(alts[1..], s, i, k - 1);
      var a :| a in alts[1..] && MatchesAt(a, s, i) && EndsOf(alts[1..], s, i)[k - 1] == i + |a|;
      assert a in alts;
    } else {
      assert alts[0] in alts;
    }
  }

  lemma MatchesShift(a: seq<CharClass>, s: string, i: nat)
    requires MatchesAt(a, s, i)
    ensures MatchesAt(a, s[i..i + |a|], 0)
  {
  }

  /** The end positions a directive can reach from `i`, in backtracking order:
      every one of them delimits a word of the directive's language. */
  function Candidates(d: Directive, s: string, i: nat): (r: seq<nat>)
    requires i <= |s|
    ensures forall k :: 0 <= k < |r| ==> i <= r[k] <= |s|
  {
    if d == Whitespace then
      var n := CountLeading(s[i..], IsSpace);
      seq(n, k requires 0 <= k < n => i + n - k)
    else
      EndsOf(Alternatives(d), s, i)
  }

  /** Every end position delimits a word some alternative matches in full. */
  lemma EndsAnyMatches(alts: seq<seq<CharClass>>, s: string, i: nat, k: nat)
    requires i <= |s| && k < |EndsOf(alts, s, i)|
    ensures AnyMatches(alts, s[i..EndsOf(alts, s, i)[k]])
  {
    var e := EndsOf(alts, s, i)[k];
    EndsOfMatch(alts, s, i, k);
    var a :| a in alts && MatchesAt(a, s, i) && e == i + |a|;
    MatchesShift(a, s, i);
    AnyMatchesMember(alts, a, s[i..e]);
  }

  /** Every candidate end delimits a word of the directive's language. */
  lemma CandidatesInLang(d: Directive, s: string, i: nat)
    requires i <= |s|
    ensures forall k :: 0 <= k < |Candidates(d, s, i)| ==> InLang(d, s[i..Candidates(d, s, i)[k]])
  {
    if d != Whitespace {
      var alts := Alternatives(d);
      forall k | 0 <= k < |EndsOf(alts, s, i)|
        ensures AnyMatches(alts, s[i..EndsOf(alts, s, i)[k]])
      {
        EndsAnyMatches(alts, s, i, k);
      }
    }
  }

  function Concat(parts: seq<string>): string {
    if parts == [] then "" else parts[0] + Concat(parts[1..])
  }

  /** `caps` is a parse of `s` from `i` by `fmt`: one capture per directive,
      each in its directive's language, together spelling a prefix of `s[i..]`. */
  predicate Parsed(fmt: Format, s: string, i: nat, caps: seq<string>) {
    && |caps| == |fmt|
    && i + |Concat(caps)| <= |s|
    && s[i..i + |Concat(caps)|] == Concat(caps)
    && forall j :: 0 <= j < |fmt| ==> InLang(fmt[j], caps[j])
  }

  /** The regex engine's first match of `fmt` at `i`: the captures of the
      first successful path in backtracking order. */
  function MatchFrom(fmt: Format, s: string, i: nat): Option<seq<string>>
    requires i <= |s|
    decreases |fmt|, 1, 0
  {
    if fmt == [] then Some([]) else TryFrom(fmt, s, i, 0)
  }

  /** Try the first directive's candidates from the `k`-th on. */
  function TryFrom(fmt: Format, s: string, i: nat, k: nat): Option<seq<string>>
    requires fmt != [] && i <= |s|
    requires k <= |Candidates(fmt[0], s, i)|
    decreases |fmt|, 0, |Candidates(fmt[0], s, i)| - k
  {
    var cands := Candidates(fmt[0], s, i);
    if k == |cands| then None
    else
      match MatchFrom(fmt[1..], s, cands[k])
      case Some(rest) => Some([s[i..cands[k]]] + rest)
      case None => TryFrom(fmt, s, i, k + 1)
  }

  /** What the engine returns is a parse: one capture per directive, each in
      its directive's language, spelling out the text from `i`. */
  lemma {:induction false} MatchFromParsed(fmt: Format, s: string, i: nat)
    requires i <= |s|
    ensures MatchFrom(fmt, s, i).Some? ==> Parsed(fmt, s, i, MatchFrom(fmt, s, i).value)
    decreases |fmt|, 1, 0
  {
    if fmt != [] {
      TryFromParsed(fmt, s, i, 0);
    }
  }

  lemma {:induction false} TryFromParsed(fmt: Format, s: string, i: nat, k: nat)
    requires fmt != [] && i <= |s|
    requires k <= |Candidates(fmt[0], s, i)|
    ensures TryFrom(fmt, s, i, k).Some? ==> Parsed(fmt, s, i, TryFrom(fmt, s, i, k).value)
    decreases |fmt|, 0, |Candidates(fmt[0], s, i)| - k
  {
    var cands := Candidates(fmt[0], s, i);
    if k < |cands| {
      MatchFromParsed(fmt[1..], s, cands[k]);
      CandidatesInLang(fmt[0], s, i);
      match MatchFrom(fmt[1..], s, cands[k]) {
        case Some(rest) => ParsedCons(fmt, s, i, cands[k], rest);
        case None => TryFromParsed(fmt, s, i, k + 1);
      }
    }
  }

  lemma ParsedCons(fmt: Format, s: string, i: nat, e: nat, rest: seq<string>)
    requires fmt != [] && i <= e <= |s| && InLang(fmt[0], s[i..e])
    requires Parsed(fmt[1..], s, e, rest)
    ensures Parsed(fmt, s, i, [s[i..e]] + rest)
  {
    var caps := [s[i..e]] + rest;
    assert caps[1..] == rest;
    var n := |Concat(rest)|;
    assert Concat(caps) == s[i..e] + Concat(rest);
    assert s[i..e + n] == s[i..e] + s[e..e + n];
    forall j | 0 <= j < |fmt|
      ensures InLang(fmt[j], caps[j])
    {
      if j > 0 {
        assert fmt[j] == fmt[1..][j - 1];
      }
    }
  }

  /** Index of `w` in `ws`, if present. */
  function IndexOf(ws: seq<string>, w: string): (r: Option<nat>)
    ensures r.Some? ==> r.value < |ws| && ws[r.value] == w
    ensures r.None? ==> w !in ws
  {
    if ws == [] then None
    else if ws[0] == w then Some(0)
    else match IndexOf(ws[1..], w)
      case Some(k) => Some(k + 1)
      case None => None
  }

  /** `%f`: the capture right-padded with zeros to six digits. */
  function Micros(w: string): nat {
    NumberOf(if |w| < 6 then w + seq(6 - |w|, _ => '0') else w)
  }

  /** Store the value one capture denotes into the field its directive names. */
  function Store(d: Directive, w: string, acc: Calendar.DateTime): Calendar.DateTime {
    match d
    case Year => acc.(year := NumberOf(w))
    case Month => acc.(month := NumberOf(w))
    case Day => acc.(day := NumberOf(w))
    case Hour => acc.(hour := NumberOf(w))
    case Minute => acc.(minute := NumberOf(w))
    case Second => acc.(second := NumberOf(w))
    case Fraction => acc.(micro := Micros(w))
    case MonthName =>
      (match IndexOf(MonthAbbrevs, LowerStr(w))
       case Some(k) => acc.(month := k + 1)
       case None => acc)
    case Literal(_) => acc
    case Whitespace => acc
  }

  /** The fields of the captures, on top of `acc`. */
  function Build(fmt: Format, caps: seq<string>, acc: Calendar.DateTime): Calendar.DateTime
    requires |caps| == |fmt|
  {
    if fmt == [] then acc else Build(fmt[1..], caps[1..], Store(fmt[0], caps[0], acc))
  }

  /** `datetime.strptime(s, fmt)`; `None` where Python raises `ValueError`. */
  function Parse(fmt: Format, s: string): (r: Option<Calendar.DateTime>)
    ensures r.Some? ==> Calendar.Valid(r.value)
    ensures r.Some? ==> MatchFrom(fmt, s, 0).Some? && |Concat(MatchFrom(fmt, s, 0).value)| == |s|
  {
    MatchFromParsed(fmt, s, 0);
    match MatchFrom(fmt, s, 0)
    case None => None
    case Some(caps) =>
      if |Concat(caps)| != |s| then None
      else
        var f := Build(fmt, caps, Calendar.Epoch);
        Calendar.Make(f.year, f.month, f.day, f.hour, f.minute, f.second, f.micro)
  }

  // ---------------------------------------------------------------------
  // Round trip: a datetime written out field by field, zero-padded the way
  // cameras and file names write it, is read back unchanged.

  /** A format as Python builds it: a blank run is one `\s+`, so two runs
      are never adjacent and no literal is a blank. */
  predicate WellFormed(fmt: Format) {
    && (forall j :: 0 <= j < |fmt| ==> fmt[j].Literal? ==> !IsSpace(fmt[j].c))
    && (forall j :: 0 <= j < |fmt| - 1 ==> fmt[j] == Whitespace ==> fmt[j + 1] != Whitespace)
  }

  /** The canonical text of one directive for `dt`. */
  function Render1(d: Directive, dt: Calendar.DateTime): (w: string)
    requires Calendar.Valid(dt)
    ensures w != [] && (d != Whitespace && !(d.Literal? && IsSpace(d.c)) ==> !IsSpace(w[0]))
  {
    match d
    case Year => Fixed(dt.year, 4)
    case Month => Fixed(dt.month, 2)
    case Day => Fixed(dt.day, 2)
    case Hour => Fixed(dt.hour, 2)
    case Minute => Fixed(dt.minute, 2)
    case Second => Fixed(dt.second, 2)
    case Fraction => Fixed(dt.micro, 6)
    case MonthName => MonthAbbrevs[dt.month - 1]
    case Literal(c) => [c]
    case Whitespace => " "
  }

  function RenderCaps(fmt: Format, dt: Calendar.DateTime): (r: seq<string>)
    requires Calendar.Valid(dt)
    ensures |r| == |fmt|
    ensures forall j :: 0 <= j < |fmt| ==> r[j] == Render1(fmt[j], dt)
  {
    if fmt == [] then [] else [Render1(fmt[0], dt)] + RenderCaps(fmt[1..], dt)
  }

  /** `dt.strftime(fmt)` with every numeric field zero-padded to its width. */
  function Render(fmt: Format, dt: Calendar.DateTime): string
    requires Calendar.Valid(dt)
  {
    Concat(RenderCaps(fmt, dt))
  }

  /** Copy into `acc` the fields of `dt` that `fmt` names. */
  function Restrict(fmt: Format, dt: Calendar.DateTime, acc: Calendar.DateTime): Calendar.DateTime {
    if fmt == [] then acc
    else
      var acc' := match fmt[0]
        case Year => acc.(year := dt.year)
        case Month => acc.(month := dt.month)
        case MonthName => acc.(month := dt.month)
        case Day => acc.(day := dt.day)
        case Hour => acc.(hour := dt.hour)
        case Minute => acc.(minute := dt.minute)
        case Second => acc.(second := dt.second)
        case Fraction => acc.(micro := dt.micro)
        case Literal(_) => acc
        case Whitespace => acc;
      Restrict(fmt[1..], dt, acc')
  }

  /** Every field of `dt` that `fmt` does not name has its `strptime` default. */
  predicate Covers(fmt: Format, dt: Calendar.DateTime) {
    Restrict(fmt, dt, Calendar.Epoch) == dt
  }

  lemma {:induction false} EndsFirst(alts: seq<seq<CharClass>>, s: string, i: nat, j: nat)
    requires i <= |s| && j < |alts| && MatchesAt(alts[j], s, i)
    requires forall k :: 0 <= k < j ==> !MatchesAt(alts[k], s, i)
    ensures |EndsOf(alts, s, i)| > 0 && EndsOf(alts, s, i)[0] == i + |alts[j]|
    decreases j
  {
    if j > 0 {
      assert !MatchesAt(alts[0], s, i);
      EndsFirst(alts[1..], s, i, j - 1);
    }
  }

  lemma WordMatches(w: string, s: string, i: nat)
    requires forall t :: 0 <= t < |w| ==> IsLower(w[t])
    requires i + |w| <= |s| && s[i..i + |w|] == w
    ensures MatchesAt(Word(w), s, i)
  {
    forall t | 0 <= t < |w|
      ensures Has(Word(w)[t], s[i + t])
    {
      assert s[i + t] == s[i..i + |w|][t];
    }
  }

  lemma WordMismatch(w: string, v: string, s: string, i: nat)
    requires |w| == |v| && w != v
    requires forall t :: 0 <= t < |w| ==> IsLower(w[t]) && IsLower(v[t])
    requires i + |v| <= |s| && s[i..i + |v|] == v
    ensures !MatchesAt(Word(w), s, i)
  {
    var t :| 0 <= t < |w| && w[t] != v[t];
    assert s[i + t] == s[i..i + |v|][t];
    assert !Has(Word(w)[t], s[i + t]);
  }

  lemma MonthNameFirst(m: int, s: string, i: nat)
    requires 1 <= m <= 12
    requires i + 3 <= |s| && s[i..i + 3] == MonthAbbrevs[m - 1]
    ensures |Candidates(MonthName, s, i)| > 0 && Candidates(MonthName, s, i)[0] == i + 3
  {
    var alts := Alternatives(MonthName);
    var v := MonthAbbrevs[m - 1];
    assert forall q :: 0 <= q < 12 ==> |MonthAbbrevs[q]| == 3;
    assert forall q, t :: 0 <= q < 12 && 0 <= t < 3 ==> IsLower(MonthAbbrevs[q][t]);
    forall k | 0 <= k < m - 1
      ensures !MatchesAt(alts[k], s, i)
    {
      assert MonthAbbrevs[k] != v;
      WordMismatch(MonthAbbrevs[k], v, s, i);
    }
    WordMatches(v, s, i);
    EndsFirst(alts, s, i, m - 1);
  }

  lemma AllDigitsMatch(w: string, n: nat, s: string, i: nat)
    requires |w| == n && AllDigits(w) && i + n <= |s| && s[i..i + n] == w
    ensures MatchesAt(seq(n, _ => D), s, i)
  {
    var alt := seq(n, _ => D);
    forall t | 0 <= t < n
      ensures Has(alt[t], s[i + t])
    {
      assert s[i + t] == s[i..i + n][t];
    }
  }

  /** The first end position the engine tries for `d` at `i` is `e`. */
  predicate FirstEnd(d: Directive, s: string, i: nat, e: nat)
    requires i <= |s|
  {
    |Candidates(d, s, i)| > 0 && Candidates(d, s, i)[0] == e
  }

  /** A two-digit field: the alternative at index `j` is the first one
      that matches the digits `hi lo`. */
  lemma TwoDigitFirst(d: Directive, n: nat, s: string, i: nat, j: nat)
    requires d != Whitespace && n < 100 && j < |Alternatives(d)| && |Alternatives(d)[j]| == 2
    requires i + 2 <= |s| && s[i] == Digit(n / 10) && s[i + 1] == Digit(n % 10)
    requires Has(Alternatives(d)[j][0], s[i]) && Has(Alternatives(d)[j][1], s[i + 1])
    requires forall k :: 0 <= k < j ==> !Has(Alternatives(d)[k][0], s[i])
    ensures |Candidates(d, s, i)| > 0 && Candidates(d, s, i)[0] == i + 2
  {
    var alts := Alternatives(d);
    assert MatchesAt(alts[j], s, i);
    forall k | 0 <= k < j
      ensures !MatchesAt(alts[k], s, i)
    {
      assert !Has(alts[k][0], s[i]);
    }
    EndsFirst(alts, s, i, j);
  }

  lemma MonthFirst(m: int, s: string, i: nat)
    requires 1 <= m <= 12 && i + 2 <= |s| && s[i] == Digit(m / 10) && s[i + 1] == Digit(m % 10)
    ensures |Candidates(Month, s, i)| > 0 && Candidates(Month, s, i)[0] == i + 2
  {
    if m >= 10 {
      TwoDigitFirst(Month, m, s, i, 0);
    } else {
      TwoDigitFirst(Month, m, s, i, 1);
    }
  }

  lemma DayFirst(d: int, s: string, i: nat)
    requires 1 <= d <= 31 && i + 2 <= |s| && s[i] == Digit(d / 10) && s[i + 1] == Digit(d % 10)
    ensures |Candidates(Day, s, i)| > 0 && Candidates(Day, s, i)[0] == i + 2
  {
    if d >= 30 {
      TwoDigitFirst(Day, d, s, i, 0);
    } else if d >= 10 {
      TwoDigitFirst(Day, d, s, i, 1);
    } else {
      TwoDigitFirst(Day, d, s, i, 2);
    }
  }

  lemma HourFirst(h: int, s: string, i: nat)
    requires 0 <= h <= 23 && i + 2 <= |s| && s[i] == Digit(h / 10) && s[i + 1] == Digit(h % 10)
    ensures |Candidates(Hour, s, i)| > 0 && Candidates(Hour, s, i)[0] == i + 2
  {
    if h >= 20 {
      TwoDigitFirst(Hour, h, s, i, 0);
    } else {
      TwoDigitFirst(Hour, h, s, i, 1);
    }
  }

  lemma MinuteFirst(m: int, s: string, i: nat)
    requires 0 <= m <= 59 && i + 2 <= |s| && s[i] == Digit(m / 10) && s[i + 1] == Digit(m % 10)
    ensures |Candidates(Minute, s, i)| > 0 && Candidates(Minute, s, i)[0] == i + 2
  {
    TwoDigitFirst(Minute, m, s, i, 0);
  }

  lemma SecondFirst(sec: int, s: string, i: nat)
    requires 0 <= sec <= 59 && i + 2 <= |s| && s[i] == Digit(sec / 10) && s[i + 1] == Digit(sec % 10)
    ensures |Candidates(Second, s, i)| > 0 && Candidates(Second, s, i)[0] == i + 2
  {
    TwoDigitFirst(Second, sec, s, i, 1);
  }

  lemma DigitsFirst(d: Directive, w: string, s: string, i: nat)
    requires d == Year || d == Fraction
    requires |w| == |Alternatives(d)[0]| && AllDigits(w)
    requires i + |w| <= |s| && s[i..i + |w|] == w
    ensures |Candidates(d, s, i)| > 0 && Candidates(d, s, i)[0] == i + |w|
  {
    var alt := Alternatives(d)[0];
    assert forall k :: 0 <= k < |alt| ==> alt[k] == D;
    forall t | 0 <= t < |w|
      ensures Has(alt[t], s[i + t])
    {
      assert s[i + t] == s[i..i + |w|][t];
    }
    EndsFirst(Alternatives(d), s, i, 0);
  }

  lemma WhitespaceFirst(s: string, i: nat)
    requires i < |s| && IsSpace(s[i]) && (i + 1 == |s| || !IsSpace(s[i + 1]))
    ensures |Candidates(Whitespace, s, i)| > 0 && Candidates(Whitespace, s, i)[0] == i + 1
  {
    var n := CountLeading(s[i..], IsSpace);
    assert s[i..][0] == s[i];
    if i + 1 < |s| {
      assert s[i..][1] == s[i + 1];
    }
  }

  /** A two-digit field at the start of its own zero-padded text: the first
      candidate ends after both digits. */
  lemma TwoDigitFieldFirst(d: Directive, dt: Calendar.DateTime, s: string, i: nat)
    requires Calendar.Valid(dt) && d in {Month, Day, Hour, Minute, Second}
    requires i + 2 <= |s| && s[i..i + 2] == Render1(d, dt)
    ensures FirstEnd(d, s, i, i + 2)
  {
    var w := Render1(d, dt);
    assert s[i] == w[0] && s[i + 1] == w[1] by {
      assert s[i] == s[i..i + 2][0] && s[i + 1] == s[i..i + 2][1];
    }
    match d
    case Month => Fixed2(dt.month); MonthFirst(dt.month, s, i);
    case Day => Fixed2(dt.day); DayFirst(dt.day, s, i);
    case Hour => Fixed2(dt.hour); HourFirst(dt.hour, s, i);
    case Minute => Fixed2(dt.minute); MinuteFirst(dt.minute, s, i);
    case Second => Fixed2(dt.second); SecondFirst(dt.second, s, i);
  }

  /** The first candidate of a directive, at the start of its own canonical
      text, ends exactly where that text ends. */
  lemma FirstCandidate(d: Directive, dt: Calendar.DateTime, s: string, i: nat)
    requires Calendar.Valid(dt)
    requires i + |Render1(d, dt)| <= |s| && s[i..i + |Render1(d, dt)|] == Render1(d, dt)
    requires d == Whitespace ==> i + 1 == |s| || !IsSpace(s[i + 1])
    ensures FirstEnd(d, s, i, i + |Render1(d, dt)|)
  {
    var w := Render1(d, dt);
    match d
    case Year => DigitsFirst(d, w, s, i);
    case Fraction => DigitsFirst(d, w, s, i);
    case Month => TwoDigitFieldFirst(d, dt, s, i);
    case Day => TwoDigitFieldFirst(d, dt, s, i);
    case Hour => TwoDigitFieldFirst(d, dt, s, i);
    case Minute => TwoDigitFieldFirst(d, dt, s, i);
    case Second => TwoDigitFieldFirst(d, dt, s, i);
    case MonthName => MonthNameFirst(dt.month, s, i);
    case Literal(c) =>
      assert s[i] == s[i..i + 1][0];
      EndsFirst(Alternatives(d), s, i, 0);
    case Whitespace =>
      assert s[i] == s[i..i + 1][0];
      WhitespaceFirst(s, i);
  }

  lemma ConcatCons(parts: seq<string>)
    requires parts != []
    ensures Concat(parts) == parts[0] + Concat(parts[1..])
  {
  }

  lemma RenderCons(fmt: Format, dt: Calendar.DateTime)
    requires Calendar.Valid(dt) && fmt != []
    ensures Render(fmt, dt) == Render1(fmt[0], dt) + Render(fmt[1..], dt)
  {
    var caps := RenderCaps(fmt, dt);
    assert caps[1..] == RenderCaps(fmt[1..], dt);
  }

  lemma RenderCapsCons(fmt: Format, dt: Calendar.DateTime)
    requires Calendar.Valid(dt) && fmt != []
    ensures RenderCaps(fmt, dt) == [Render1(fmt[0], dt)] + RenderCaps(fmt[1..], dt)
  {
  }

  lemma WellFormedTail(fmt: Format)
    requires WellFormed(fmt) && fmt != []
    ensures WellFormed(fmt[1..])
  {
    forall j | 0 <= j < |fmt| - 2
      ensures fmt[1..][j] == Whitespace ==> fmt[1..][j + 1] != Whitespace
    {
      assert fmt[1..][j] == fmt[j + 1] && fmt[1..][j + 1] == fmt[j + 2];
    }
  }

  lemma TryFirst(fmt: Format, s: string, i: nat, e: nat, rest: seq<string>)
    requires fmt != [] && i <= e <= |s|
    requires FirstEnd(fmt[0], s, i, e)
    requires MatchFrom(fmt[1..], s, e) == Some(rest)
    ensures MatchFrom(fmt, s, i) == Some([s[i..e]] + rest)
  {
  }

  lemma SliceSplit(s: string, i: nat, w: string, tail: string)
    requires i <= |s| && s[i..] == w + tail
    ensures i + |w| <= |s| && s[i..i + |w|] == w && s[i + |w|..] == tail
  {
    assert s[i..i + |w|] == s[i..][..|w|];
    assert s[i + |w|..] == s[i..][|w|..];
  }

  /** One step of the canonical parse: the first directive's first
      candidate ends where its text ends, and the rest of the text follows. */
  lemma StepRendered(fmt: Format, dt: Calendar.DateTime, s: string, i: nat)
    requires Calendar.Valid(dt) && WellFormed(fmt) && fmt != []
    requires i <= |s| && s[i..] == Render(fmt, dt)
    ensures i + |Render1(fmt[0], dt)| <= |s|
    ensures FirstEnd(fmt[0], s, i, i + |Render1(fmt[0], dt)|)
    ensures s[i..i + |Render1(fmt[0], dt)|] == Render1(fmt[0], dt)
    ensures s[i + |Render1(fmt[0], dt)|..] == Render(fmt[1..], dt)
    ensures WellFormed(fmt[1..])
  {
    var w := Render1(fmt[0], dt);
    var tail := Render(fmt[1..], dt);
    var e := i + |w|;
    RenderCons(fmt, dt);
    SliceSplit(s, i, w, tail);
    FirstCandidate(fmt[0], dt, s, i);
    WellFormedTail(fmt);
  }

  /** On the canonical text of `dt`, the regex engine's first path is the
      one that gives each directive exactly its own field. */
  lemma {:induction false} MatchRendered(fmt: Format, dt: Calendar.DateTime, s: string, i: nat)
    requires Calendar.Valid(dt) && WellFormed(fmt)
    requires i <= |s| && s[i..] == Render(fmt, dt)
    ensures MatchFrom(fmt, s, i) == Some(RenderCaps(fmt, dt))
    decreases |fmt|
  {
    if fmt != [] {
      var e := i + |Render1(fmt[0], dt)|;
      StepRendered(fmt, dt, s, i);
      MatchRendered(fmt[1..], dt, s, e);
      MatchRenderedStep(fmt, dt, s, i, e);
    }
  }

  /** The step of `MatchRendered`: once the first directive's first
      candidate is its own text and the rest of the format matches the rest
      of the text, the whole format matches. */
  lemma MatchRenderedStep(fmt: Format, dt: Calendar.DateTime, s: string, i: nat, e: nat)
    requires Calendar.Valid(dt) && fmt != []
    requires i <= e <= |s| && e == i + |Render1(fmt[0], dt)|
    requires FirstEnd(fmt[0], s, i, e) && s[i..e] == Render1(fmt[0], dt)
    requires MatchFrom(fmt[1..], s, e) == Some(RenderCaps(fmt[1..], dt))
    ensures MatchFrom(fmt, s, i) == Some(RenderCaps(fmt, dt))
  {
    TryFirst(fmt, s, i, e, RenderCaps(fmt[1..], dt));
    RenderCapsCons(fmt, dt);
  }

  lemma {:induction false} IndexOfFirst(ws: seq<string>, k: nat)
    requires k < |ws| && forall p :: 0 <= p < k ==> ws[p] != ws[k]
    ensures IndexOf(ws, ws[k]) == Some(k)
    decreases k
  {
    if k > 0 {
      assert ws[0] != ws[k];
      IndexOfFirst(ws[1..], k - 1);
    }
  }

  lemma MonthAbbrevsLower(k: nat)
    requires k < 12
    ensures forall t :: 0 <= t < |MonthAbbrevs[k]| ==> IsLower(MonthAbbrevs[k][t])
  {
  }

  lemma LowerStrOfLower(w: string)
    requires forall t :: 0 <= t < |w| ==> IsLower(w[t])
    ensures LowerStr(w) == w
  {
  }

  lemma MonthIndex(m: int)
    requires 1 <= m <= 12
    ensures IndexOf(MonthAbbrevs, LowerStr(MonthAbbrevs[m - 1])) == Some(m - 1)
  {
    MonthAbbrevsLower(m - 1);
    LowerStrOfLower(MonthAbbrevs[m - 1]);
    IndexOfFirst(MonthAbbrevs, m - 1);
  }

  /** Reading back the canonical captures stores exactly the fields of `dt`. */
  lemma {:induction false} BuildRendered(fmt: Format, dt: Calendar.DateTime, acc: Calendar.DateTime)
    requires Calendar.Valid(dt)
    ensures Build(fmt, RenderCaps(fmt, dt), acc) == Restrict(fmt, dt, acc)
    decreases |fmt|
  {
    if fmt != [] {
      var caps := RenderCaps(fmt, dt);
      assert caps[1..] == RenderCaps(fmt[1..], dt);
      BuildRendered(fmt[1..], dt, Store(fmt[0], caps[0], acc));
      match fmt[0]
      case Year => NumberOfFixed(dt.year, 4);
      case Month => NumberOfFixed(dt.month, 2);
      case Day => NumberOfFixed(dt.day, 2);
      case Hour => NumberOfFixed(dt.hour, 2);
      case Minute => NumberOfFixed(dt.minute, 2);
      case Second => NumberOfFixed(dt.second, 2);
      case Fraction => NumberOfFixed(dt.micro, 6);
      case MonthName => MonthIndex(dt.month);
      case Literal(_) =>
      case Whitespace =>
    }
  }

  /** strptime inverts zero-padded strftime: a valid datetime written out by
      a well-formed format that names all its non-default fields is parsed
      back to itself. */
  lemma ParseRender(fmt: Format, dt: Calendar.DateTime)
    requires Calendar.Valid(dt) && WellFormed(fmt) && Covers(fmt, dt)
    ensures Parse(fmt, Render(fmt, dt)) == Some(dt)
  {
    var s := Render(fmt, dt);
    assert s[0..] == s;
    MatchRendered(fmt, dt, s, 0);
    BuildRendered(fmt, dt, Calendar.Epoch);
  }
}
