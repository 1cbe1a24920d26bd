/** `parse_windows_wmic_date` and the `key=value` reading of WMIC output in
    `get_windows_file_metadata`. Running the command, decoding its bytes
    and splitting the text into lines happen outside: the model starts from
    the lines. */
module WindowsMetadata {
  import opened Wrappers
  import opened Text
  import opened Calendar
  import opened FilenamePatterns

  /** `parse_windows_wmic_date`: `(\d{4})(\d{2})(\d{2})(\d{2})(\d{2})(\d{2})\.(\d+)`
      matched at the start; the fraction's first six digits, right-padded
      with zeros, give the microseconds. */
  function ParseWmicDate(s: string): (r: Option<DateTime>)
    ensures r.Some? ==> Valid(r.value)
  {
    if DigitsAt(s, 0, 14) && CharIn(s, 14, {'.'}) && DigitRun(s, 15) >= 1 then
      Make(NumberOf(s[0..4]), NumberOf(s[4..6]), NumberOf(s[6..8]),
           NumberOf(s[8..10]), NumberOf(s[10..12]), NumberOf(s[12..14]),
           NumberOf(SixDigits(s[15..15 + DigitRun(s, 15)])))
    else None
  }

  /** `frac[:6].ljust(6, '0')`. */
  function SixDigits(frac: string): (r: string)
    ensures |r| == 6
    ensures |frac| >= 6 ==> r == frac[..6]
    ensures |frac| < 6 ==> r[..|frac|] == frac && forall k :: |frac| <= k < 6 ==> r[k] == '0'
  {
    if |frac| >= 6 then frac[..6] else frac + seq(6 - |frac|, _ => '0')
  }

  /** `yyyymmddHHMMSS` for `dt`. */
  function StampDigits(dt: DateTime): (r: string)
    requires Valid(dt)
    ensures |r| == 14 && AllDigits(r)
  {
    Fixed(dt.year, 4) + Fixed(dt.month, 2) + Fixed(dt.day, 2)
    + Fixed(dt.hour, 2) + Fixed(dt.minute, 2) + Fixed(dt.second, 2)
  }

  /** The text WMIC reports for `dt`: `yyyymmddHHMMSS.ffffff`, the parser's
      partner. */
  function WmicText(dt: DateTime): (r: string)
    requires Valid(dt)
    ensures |r| == 21
  {
    StampDigits(dt) + "." + Fixed(dt.micro, 6)
  }

  /** One `key=value` line of WMIC output: split at the first `=`, both
      halves stripped; `None` for a line without `=`. */
  function WmicLine(line: string): (r: Option<(string, string)>)
    ensures r.Some? <==> '=' in line
  {
    var n := Find(line, '=');
    if n == |line| then None else Some((Strip(line[..n]), Strip(line[n + 1..])))
  }

  /** Assign the entries to a dictionary in order; a later entry for the
      same key overwrites an earlier one, and a missing entry is skipped. */
  function Assign(es: seq<Option<(string, string)>>): (m: map<string, string>)
    ensures forall k :: k in m <==> exists j :: 0 <= j < |es| && es[j].Some? && es[j].value.0 == k
    decreases |es|
  {
    if es == [] then map[]
    else
      var m := Assign(es[..|es| - 1]);
      assert forall j :: 0 <= j < |es| - 1 ==> es[..|es| - 1][j] == es[j];
      match es[|es| - 1]
      case Some((k, v)) => m[k := v]
      case None => m
  }

  /** The dictionary built from the lines of the output. */
  function WmicPairs(lines: seq<string>): map<string, string> {
    Assign(seq(|lines|, j requires 0 <= j < |lines| => WmicLine(lines[j])))
  }

  datatype WmicValue = Text(s: string) | When(dt: DateTime)

  /** The date conversion at the end of `get_windows_file_metadata`: the
      text pairs, plus `CreationDateTime` and `LastModifiedDateTime` for the
      two dates that parse. */
  function WmicConvert(pairs: map<string, string>): (m: map<string, WmicValue>)
    ensures forall k :: k in m ==> k in pairs || k == "CreationDateTime" || k == "LastModifiedDateTime"
  {
    var m := map k | k in pairs :: Text(pairs[k]);
    var m := if "CreationDate" in pairs && ParseWmicDate(pairs["CreationDate"]).Some?
             then m["CreationDateTime" := When(ParseWmicDate(pairs["CreationDate"]).value)] else m;
    if "LastModified" in pairs && ParseWmicDate(pairs["LastModified"]).Some?
    then m["LastModifiedDateTime" := When(ParseWmicDate(pairs["LastModified"]).value)] else m
  }

  /** `get_windows_file_metadata` once the command's output is split into lines. */
  function WmicMetadata(lines: seq<string>): map<string, WmicValue> {
    WmicConvert(WmicPairs(lines))
  }

  /** The last entry for a key is the one whose value is kept. */
  lemma {:induction false} AssignLast(es: seq<Option<(string, string)>>, j: nat)
    requires j < |es| && es[j].Some?
    requires forall q :: j < q < |es| && es[q].Some? ==> es[q].value.0 != es[j].value.0
    ensures Assign(es)[es[j].value.0] == es[j].value.1
    decreases |es|
  {
    if j < |es| - 1 {
      var init := es[..|es| - 1];
      assert forall q :: 0 <= q < |init| ==> init[q] == es[q];
      AssignLast(init, j);
    }
  }

  /** The last line defining a key supplies its value. */
  lemma WmicPairsLast(lines: seq<string>, j: nat)
    requires j < |lines| && '=' in lines[j]
    requires forall q :: j < q < |lines| && '=' in lines[q] ==>
               WmicLine(lines[q]).value.0 != WmicLine(lines[j]).value.0
    ensures var kv := WmicLine(lines[j]).value;
      kv.0 in WmicPairs(lines) && WmicPairs(lines)[kv.0] == kv.1
  {
    var es := seq(|lines|, q requires 0 <= q < |lines| => WmicLine(lines[q]));
    assert forall q :: 0 <= q < |lines| ==> es[q] == WmicLine(lines[q]);
    AssignLast(es, j);
  }

  /** A key is reported exactly when some line defines it. */
  lemma WmicPairsKeys(lines: seq<string>)
    ensures forall k :: k in WmicPairs(lines) <==>
              exists j :: 0 <= j < |lines| && '=' in lines[j] && WmicLine(lines[j]).value.0 == k
  {
    var es := seq(|lines|, q requires 0 <= q < |lines| => WmicLine(lines[q]));
    assert forall q :: 0 <= q < |lines| ==> es[q] == WmicLine(lines[q]);
  }

  /** Every key WMIC reported keeps its text, except the two derived keys. */
  lemma WmicConvertText(pairs: map<string, string>, k: string)
    requires k in pairs && k != "CreationDateTime" && k != "LastModifiedDateTime"
    ensures k in WmicConvert(pairs) && WmicConvert(pairs)[k] == Text(pairs[k])
  {
  }

  /** The derived keys hold the parsed dates exactly when the source dates
      parse, and no other key holds a date. */
  lemma WmicConvertDates(pairs: map<string, string>)
    ensures var m := WmicConvert(pairs);
      && ("CreationDate" in pairs && ParseWmicDate(pairs["CreationDate"]).Some? ==>
            "CreationDateTime" in m && m["CreationDateTime"] == When(ParseWmicDate(pairs["CreationDate"]).value))
      && ("LastModified" in pairs && ParseWmicDate(pairs["LastModified"]).Some? ==>
            "LastModifiedDateTime" in m
            && m["LastModifiedDateTime"] == When(ParseWmicDate(pairs["LastModified"]).value))
      && (forall k :: k in m && m[k].When? ==> (k == "CreationDateTime" || k == "LastModifiedDateTime") && Valid(m[k].dt))
  {
  }

  /** Six consecutive fields of widths 4, 2, 2, 2, 2, 2 at the front of `s`. */
  lemma FieldSlices(s: string, y: string, mo: string, d: string, h: string, mi: string, se: string)
    requires |y| == 4 && |mo| == 2 && |d| == 2 && |h| == 2 && |mi| == 2 && |se| == 2
    requires |s| >= 14 && s[..14] == y + mo + d + h + mi + se
    ensures s[0..4] == y && s[4..6] == mo && s[6..8] == d
    ensures s[8..10] == h && s[10..12] == mi && s[12..14] == se
  {
    var t := s[..14];
    assert s[0..4] == t[0..4] && s[4..6] == t[4..6] && s[6..8] == t[6..8];
    assert s[8..10] == t[8..10] && s[10..12] == t[10..12] && s[12..14] == t[12..14];
  }

  /** A run of exactly six fraction digits. */
  lemma SixDigitRun(s: string)
    requires |s| >= 21 && DigitsAt(s, 15, 6) && (|s| == 21 || !IsDigit(s[21]))
    ensures DigitRun(s, 15) == 6
  {
  }

  lemma StampNumbers(s: string, dt: DateTime)
    requires Valid(dt) && |s| >= 14 && s[..14] == StampDigits(dt)
    ensures NumberOf(s[0..4]) == dt.year && NumberOf(s[4..6]) == dt.month && NumberOf(s[6..8]) == dt.day
    ensures NumberOf(s[8..10]) == dt.hour && NumberOf(s[10..12]) == dt.minute && NumberOf(s[12..14]) == dt.second
  {
    FieldSlices(s, Fixed(dt.year, 4), Fixed(dt.month, 2), Fixed(dt.day, 2),
                Fixed(dt.hour, 2), Fixed(dt.minute, 2), Fixed(dt.second, 2));
    NumberOfFixed(dt.year, 4);
    NumberOfFixed(dt.month, 2);
    NumberOfFixed(dt.day, 2);
    NumberOfFixed(dt.hour, 2);
    NumberOfFixed(dt.minute, 2);
    NumberOfFixed(dt.second, 2);
  }

  /** With exactly six fraction digits, they are the microseconds. */
  lemma ParseWmicSix(s: string)
    requires DigitsAt(s, 0, 14) && CharIn(s, 14, {'.'}) && |s| >= 21 && DigitRun(s, 15) == 6
    ensures ParseWmicDate(s) == Make(NumberOf(s[0..4]), NumberOf(s[4..6]), NumberOf(s[6..8]),
                                     NumberOf(s[8..10]), NumberOf(s[10..12]), NumberOf(s[12..14]),
                                     NumberOf(s[15..21]))
  {
    assert SixDigits(s[15..21]) == s[15..21];
  }

  /** The parser on any text laid out as WMIC writes `dt`. */
  lemma ParseWmicLayout(s: string, dt: DateTime)
    requires Valid(dt) && |s| >= 21
    requires s[..14] == StampDigits(dt) && s[14] == '.' && s[15..21] == Fixed(dt.micro, 6)
    requires |s| == 21 || !IsDigit(s[21])
    ensures ParseWmicDate(s) == Some(dt)
  {
    assert DigitsAt(s, 0, 14) by {
      assert forall k :: 0 <= k < 14 ==> s[k] == StampDigits(dt)[k];
    }
    assert DigitsAt(s, 15, 6) by {
      assert forall k :: 15 <= k < 21 ==> s[k] == Fixed(dt.micro, 6)[k - 15];
    }
    SixDigitRun(s);
    ParseWmicSix(s);
    StampNumbers(s, dt);
    NumberOfFixed(dt.micro, 6);
  }

  /** `parse_windows_wmic_date` reads back what WMIC writes, whatever follows
      the microseconds (the `+060` time-zone offset, say), provided it does
      not begin with a digit. */
  lemma WmicRoundTrip(dt: DateTime, rest: string)
    requires Valid(dt) && (rest == [] || !IsDigit(rest[0]))
    ensures ParseWmicDate(WmicText(dt) + rest) == Some(dt)
  {
    var s := WmicText(dt) + rest;
    assert s[..14] == StampDigits(dt);
    assert s[15..21] == Fixed(dt.micro, 6);
    assert |s| > 21 ==> s[21] == rest[0];
    ParseWmicLayout(s, dt);
  }
}
