/** `extract_image_date`: where a photo's date comes from.

    The resolver is a short-circuiting cascade. A bare file name is first
    tried against three compact patterns; otherwise the EXIF date fields are
    tried in a fixed order against six formats (when the file exists); then
    the manufacturer filename patterns, then the generic ones; and last the
    file's creation time. Each stage runs only when every earlier one found
    nothing, and inside a stage the first success wins. */
module DateResolver {
  import opened Wrappers
  import opened Text
  import Paths
  import opened Calendar
  import opened Strptime
  import opened FilenamePatterns
  import opened MetaValues

  // ---------------------------------------------------------------------
  // strptime formats

  /** `"%Y%m%d_%H%M%S"`. */
  const Compact: Format := [Year, Month, Day, Literal('_'), Hour, Minute, Second]

  /** `"%Y%m%d"`. */
  const DateOnly: Format := [Year, Month, Day]

  /** `"%d %b %Y"`. */
  const DayMonthNameYear: Format := [Day, Whitespace, MonthName, Whitespace, Year]

  /** `"%Y<sep>%m<sep>%d %H:%M:%S"`, followed by `".%f"` when `frac` holds. */
  function Stamp(sep: char, frac: bool): Format {
    [Year, Literal(sep), Month, Literal(sep), Day, Whitespace,
     Hour, Literal(':'), Minute, Literal(':'), Second]
    + (if frac then [Literal('.'), Fraction] else [])
  }

  /** The six EXIF date formats, in the order they are tried. */
  const ExifFormats: seq<Format> :=
    [Stamp(':', false), Stamp('-', false), Stamp('/', false),
     Stamp(':', true), Stamp('-', true), Stamp('/', true)]

  /** The EXIF fields consulted, in priority order. */
  const DateFields: seq<string> :=
    ["DateTimeOriginal", "DateTime", "CreateDate", "DateTimeDigitized",
     "ModifyDate", "TrackCreateDate", "MediaCreateDate"]

  // ---------------------------------------------------------------------
  // small parsers

  /** `int(w)` for the digit strings the patterns capture; `None` where
      Python raises `ValueError`. */
  function IntOf(w: string): (r: Option<int>)
    ensures r.Some? <==> w != [] && AllDigits(w)
    ensures r.Some? ==> r.value == DigitsValue(w)
  {
    if w != [] && AllDigits(w) then Some(DigitsValue(w)) else None
  }

  /** `_parse_ambiguous_date(p1, p2, p3)`: day-month-year first, then
      month-day-year, else `None`. */
  function ParseAmbiguousDate(p1: string, p2: string, p3: string): (r: Option<DateTime>)
    ensures r.Some? ==> Valid(r.value)
  {
    match (IntOf(p1), IntOf(p2), IntOf(p3))
    case (Some(a), Some(b), Some(y)) =>
      (match MakeDate(y, b, a)
       case Some(dt) => Some(dt)
       case None => MakeDate(y, a, b))
    case _ => None
  }

  // ---------------------------------------------------------------------
  // filename patterns and their parsers

  /** The parser paired with each pattern, applied to its capture groups. */
  function Interpret(p: Pattern, g: seq<string>): (r: Option<DateTime>)
    requires |g| == Arity(p)
    ensures r.Some? ==> Valid(r.value)
  {
    match p
    case Pixel => Parse(Compact, g[0] + "_" + (if |g[1]| >= 6 then g[1][..6] else g[1]))
    case IphoneNumbered => Parse(DateOnly, "20" + g[0])
    case WhatsappImage => Parse(DateOnly, g[0])
    case WhatsappVideo => Parse(DateOnly, g[0])
    case GoPro =>
      Make(2000 + NumberOf(g[0]), NumberOf(g[1]), NumberOf(g[2]),
           NumberOf(g[3]), NumberOf(g[4]), NumberOf(g[5]), 0)
    case GenericDashed =>
      Make(NumberOf(g[0]), NumberOf(g[1]), NumberOf(g[2]),
           NumberOf(g[3]), NumberOf(g[4]), NumberOf(g[5]), 0)
    case GenericAmbiguous => ParseAmbiguousDate(g[0], g[1], g[2])
    case GenericMonthName => Parse(DayMonthNameYear, g[0] + " " + g[1] + " " + g[2])
    case GenericPlain =>
      var y, m, d := NumberOf(g[0]), NumberOf(g[1]), NumberOf(g[2]);
      if 1900 <= y <= 2100 && 1 <= m <= 12 && 1 <= d <= 31 then MakeDate(y, m, d) else None
    case _ => Parse(Compact, g[0] + "_" + g[1])
  }

  /** Search the name for `p`, then run its parser on the leftmost match. */
  function Evaluate(p: Pattern, name: string): (r: Option<DateTime>)
    ensures r.Some? ==> Valid(r.value)
    ensures r.Some? ==> Search(p, name).Some?
  {
    match Search(p, name)
    case None => None
    case Some((g, _)) => Interpret(p, g)
  }

  /** The first pattern of `ps` that yields a date for `name`, and its index. */
  function FirstPattern(ps: seq<Pattern>, name: string): (r: Option<(DateTime, nat)>)
    ensures r.Some? ==> Valid(r.value.0)
    ensures r.Some? ==> r.value.1 < |ps| && Evaluate(ps[r.value.1], name) == Some(r.value.0)
    ensures r.Some? ==> forall j :: 0 <= j < r.value.1 ==> Evaluate(ps[j], name).None?
    ensures r.None? ==> forall j :: 0 <= j < |ps| ==> Evaluate(ps[j], name).None?
  {
    var f := p => Evaluate(p, name);
    var r := FirstSome(ps, f);
    assert forall j :: 0 <= j < |ps| ==> f(ps[j]) == Evaluate(ps[j], name);
    r
  }

  /** The patterns of the bare-file-name fast path. */
  const FastPatterns: seq<Pattern> := [BareCompact, BareIphone, BarePixel]

  datatype Vendor = Samsung | Iphone | PixelPhone | Whatsapp | GoProCam | DjiDrone {
    function Name(): string {
      match this
      case Samsung => "samsung"
      case Iphone => "iphone"
      case PixelPhone => "pixel"
      case Whatsapp => "whatsapp"
      case GoProCam => "gopro"
      case DjiDrone => "dji"
    }
  }

  /** The manufacturer table, in dictionary (insertion) order. */
  const VendorTable: seq<(Vendor, seq<Pattern>)> :=
    [(Samsung, [SamsungExt, SamsungBare]),
     (Iphone, [IphoneDated, IphoneNumbered]),
     (PixelPhone, [Pixel]),
     (Whatsapp, [WhatsappImage, WhatsappVideo]),
     (GoProCam, [GoPro]),
     (DjiDrone, [Dji])]

  const GenericPatterns: seq<Pattern> :=
    [GenericCompact, GenericDashed, GenericAmbiguous, GenericMonthName, GenericPlain]

  function VendorEntryDate(e: (Vendor, seq<Pattern>), name: string): (r: Option<DateTime>)
    ensures r.Some? ==> Valid(r.value)
  {
    match FirstPattern(e.1, name)
    case Some((dt, _)) => Some(dt)
    case None => None
  }

  /** The first manufacturer with a pattern that yields a date for `name`. */
  function VendorDate(name: string): (r: Option<(DateTime, Vendor)>)
    ensures r.Some? ==> Valid(r.value.0)
    ensures r.Some? ==> exists k :: 0 <= k < |VendorTable| && VendorTable[k].0 == r.value.1
                          && VendorEntryDate(VendorTable[k], name) == Some(r.value.0)
                          && forall j :: 0 <= j < k ==> VendorEntryDate(VendorTable[j], name).None?
    ensures r.None? ==> forall k :: 0 <= k < |VendorTable| ==> VendorEntryDate(VendorTable[k], name).None?
  {
    var f := e => VendorEntryDate(e, name);
    assert forall j :: 0 <= j < |VendorTable| ==> f(VendorTable[j]) == VendorEntryDate(VendorTable[j], name);
    match FirstSome(VendorTable, f)
    case Some((dt, k)) => Some((dt, VendorTable[k].0))
    case None => None
  }

  // ---------------------------------------------------------------------
  // EXIF

  /** The date one EXIF field yields: its value must be a string, and the
      first of the six formats that parses it wins. */
  function FieldDate(exif: MetaMap, field: string): (r: Option<DateTime>)
    ensures r.Some? ==> Valid(r.value)
    ensures r.Some? ==> Name(field) in exif && exif[Name(field)].Str?
    ensures r.Some? ==> exists k :: 0 <= k < |ExifFormats| && Parse(ExifFormats[k], exif[Name(field)].s) == r
                          && forall j :: 0 <= j < k ==> Parse(ExifFormats[j], exif[Name(field)].s).None?
    ensures r.None? && Name(field) in exif && exif[Name(field)].Str? ==>
              forall k :: 0 <= k < |ExifFormats| ==> Parse(ExifFormats[k], exif[Name(field)].s).None?
  {
    if Name(field) in exif && exif[Name(field)].Str? then
      var s := exif[Name(field)].s;
      var f := fmt => Parse(fmt, s);
      assert forall j :: 0 <= j < |ExifFormats| ==> f(ExifFormats[j]) == Parse(ExifFormats[j], s);
      match FirstSome(ExifFormats, f)
      case Some((dt, k)) => Some(dt)
      case None => None
    else None
  }

  /** The first EXIF field, in priority order, that yields a date. */
  function ExifDate(exif: MetaMap): (r: Option<(DateTime, string)>)
    ensures r.Some? ==> Valid(r.value.0)
    ensures r.Some? ==> exists k :: 0 <= k < |DateFields| && DateFields[k] == r.value.1
                          && FieldDate(exif, DateFields[k]) == Some(r.value.0)
                          && forall j :: 0 <= j < k ==> FieldDate(exif, DateFields[j]).None?
    ensures r.None? ==> forall k :: 0 <= k < |DateFields| ==> FieldDate(exif, DateFields[k]).None?
  {
    var f := field => FieldDate(exif, field);
    assert forall j :: 0 <= j < |DateFields| ==> f(DateFields[j]) == FieldDate(exif, DateFields[j]);
    match FirstSome(DateFields, f)
    case Some((dt, k)) => Some((dt, DateFields[k]))
    case None => None
  }

  // ---------------------------------------------------------------------
  // the cascade

  datatype Origin = FromFilename | FromExif(field: string) | FromVendor(vendor: Vendor)
                  | FromGeneric | FromCreation {
    /** The origin string the resolver reports. */
    function Tag(): string {
      match this
      case FromFilename => "filename"
      case FromExif(f) => "EXIF:" + f
      case FromVendor(v) => "filename:" + v.Name()
      case FromGeneric => "filename:generic"
      case FromCreation => "file:creation"
    }
  }

  /** What the file system and the extraction chain report for the path:
      whether it exists, the metadata map `get_exif_data` returns (empty when
      it fails), and `datetime.fromtimestamp(getctime(path))` (`None` when
      that raises). */
  datatype FileFacts = FileFacts(present: bool, exif: MetaMap, ctime: Option<DateTime>)

  predicate SaneFacts(env: FileFacts) {
    env.ctime.Some? ==> Valid(env.ctime.value)
  }

  /** The fast path: only for a path without a directory part. */
  function FastPathDate(path: string): (r: Option<DateTime>)
    ensures r.Some? ==> Valid(r.value)
  {
    if Paths.Dirname(path) == "" then
      match FirstPattern(FastPatterns, Paths.Basename(path))
      case Some((dt, _)) => Some(dt)
      case None => None
    else None
  }

  /** The EXIF stage: only when the file exists and its metadata is non-empty. */
  function ExifStage(env: FileFacts): (r: Option<(DateTime, string)>)
    ensures r.Some? ==> Valid(r.value.0)
  {
    if env.present && env.exif != map[] then ExifDate(env.exif) else None
  }

  function GenericDate(name: string): (r: Option<DateTime>)
    ensures r.Some? ==> Valid(r.value)
  {
    match FirstPattern(GenericPatterns, name)
    case Some((dt, _)) => Some(dt)
    case None => None
  }

  /** `extract_image_date(path, fallback, origin_info=True)`; `None` stands
      for `(None, None)`. */
  function ExtractImageDate(path: string, fallback: bool, env: FileFacts): (r: Option<(DateTime, Origin)>)
    requires SaneFacts(env)
    ensures r.Some? ==> Valid(r.value.0)
  {
    var name := Paths.Basename(path);
    match FastPathDate(path)
    case Some(dt) => Some((dt, FromFilename))
    case None =>
      match ExifStage(env)
      case Some((dt, field)) => Some((dt, FromExif(field)))
      case None =>
        match VendorDate(name)
        case Some((dt, v)) => Some((dt, FromVendor(v)))
        case None =>
          match GenericDate(name)
          case Some(dt) => Some((dt, FromGeneric))
          case None =>
            if fallback && env.present && env.ctime.Some? then Some((env.ctime.value, FromCreation))
            else None
  }

  /** `extract_image_date(path, fallback)` without origin information. */
  function ExtractDate(path: string, fallback: bool, env: FileFacts): (r: Option<DateTime>)
    requires SaneFacts(env)
    ensures r.Some? <==> ExtractImageDate(path, fallback, env).Some?
    ensures r.Some? ==> r.value == ExtractImageDate(path, fallback, env).value.0
  {
    match ExtractImageDate(path, fallback, env)
    case Some((dt, _)) => Some(dt)
    case None => None
  }

  // ---------------------------------------------------------------------
  // properties

  lemma StampWellFormed(sep: char, frac: bool)
    requires !IsSpace(sep)
    ensures WellFormed(Stamp(sep, frac))
  {
  }

  lemma FormatsWellFormed()
    ensures WellFormed(Compact) && WellFormed(DateOnly) && WellFormed(DayMonthNameYear)
    ensures forall k :: 0 <= k < |ExifFormats| ==> WellFormed(ExifFormats[k])
  {
    StampWellFormed(':', false);
    StampWellFormed('-', false);
    StampWellFormed('/', false);
    StampWellFormed(':', true);
    StampWellFormed('-', true);
    StampWellFormed('/', true);
  }

  /** The text `"%Y%m%d_%H%M%S"` renders: eight digits, `_`, six digits. */
  lemma RenderCompactShape(dt: DateTime)
    requires Valid(dt)
    ensures Render(Compact, dt) == Fixed(dt.year, 4) + Fixed(dt.month, 2) + Fixed(dt.day, 2) + "_"
                                   + Fixed(dt.hour, 2) + Fixed(dt.minute, 2) + Fixed(dt.second, 2)
  {
    var f := Compact;
    RenderSeven(f, dt);
    assert f[0] == Year && f[1] == Month && f[2] == Day && f[3] == Literal('_');
    assert f[4] == Hour && f[5] == Minute && f[6] == Second;
  }

  /** One more directive of a format peeled off the front of its rendering. */
  lemma RenderStep(f: Format, dt: DateTime, k: nat, pre: string)
    requires Valid(dt) && k < |f| && Render(f, dt) == pre + Render(f[k..], dt)
    ensures Render(f, dt) == pre + Render1(f[k], dt) + Render(f[k + 1..], dt)
  {
    RenderCons(f[k..], dt);
    assert f[k..][1..] == f[k + 1..];
    var a, b := Render1(f[k], dt), Render(f[k + 1..], dt);
    assert pre + (a + b) == pre + a + b;
  }

  /** A seven-directive format renders directive by directive. */
  lemma RenderSeven(f: Format, dt: DateTime)
    requires Valid(dt) && |f| == 7
    ensures Render(f, dt) == Render1(f[0], dt) + Render1(f[1], dt) + Render1(f[2], dt) + Render1(f[3], dt)
                             + Render1(f[4], dt) + Render1(f[5], dt) + Render1(f[6], dt)
  {
    var p0, p1, p2, p3, p4, p5, p6 := Render1(f[0], dt), Render1(f[1], dt), Render1(f[2], dt), Render1(f[3], dt),
                                      Render1(f[4], dt), Render1(f[5], dt), Render1(f[6], dt);
    RenderCons(f, dt);
    RenderStep(f, dt, 1, p0);
    RenderStep(f, dt, 2, p0 + p1);
    RenderStep(f, dt, 3, p0 + p1 + p2);
    RenderStep(f, dt, 4, p0 + p1 + p2 + p3);
    RenderStep(f, dt, 5, p0 + p1 + p2 + p3 + p4);
    RenderStep(f, dt, 6, p0 + p1 + p2 + p3 + p4 + p5);
    assert f[7..] == [];
    var q := p0 + p1 + p2 + p3 + p4 + p5 + p6;
    assert q + Render(f[7..], dt) == q;
  }

  /** Rendered `"%Y%m%d_%H%M%S"`: eight digits, `_`, six digits, no `/`. */
  lemma CompactStampShape(dt: DateTime)
    requires Valid(dt)
    ensures var t := Render(Compact, dt);
      && |t| == 15 && t[8] == '_' && '/' !in t
      && (forall k :: 0 <= k < 8 ==> IsDigit(t[k]))
      && (forall k :: 9 <= k < 15 ==> IsDigit(t[k]))
  {
    RenderCompactShape(dt);
  }

  /** `"%Y%m%d_%H%M%S"` names every field but the microseconds. */
  lemma CompactCovers(dt: DateTime)
    requires dt.micro == 0
    ensures Covers(Compact, dt)
  {
    var f := Compact;
    var a1 := Epoch.(year := dt.year);
    var a2 := a1.(month := dt.month);
    var a3 := a2.(day := dt.day);
    var a5 := a3.(hour := dt.hour);
    var a6 := a5.(minute := dt.minute);
    var a7 := a6.(second := dt.second);
    assert Restrict(f[7..], dt, a7) == a7 == dt;
    assert Restrict(f[6..], dt, a6) == a7;
    assert Restrict(f[5..], dt, a5) == a7;
    assert Restrict(f[4..], dt, a3) == a7;
    assert Restrict(f[3..], dt, a3) == a7;
    assert Restrict(f[2..], dt, a2) == a7;
    assert Restrict(f[1..], dt, a1) == a7;
  }

  lemma FirstPatternHead(ps: seq<Pattern>, name: string, dt: DateTime)
    requires ps != [] && Evaluate(ps[0], name) == Some(dt)
    ensures FirstPattern(ps, name) == Some((dt, 0))
  {
  }

  /** A fast-path date decides the result on its own: neither the file
      system, nor EXIF, nor the fallback flag is consulted. */
  lemma FastPathDecides(path: string, fallback: bool, env: FileFacts)
    requires SaneFacts(env) && FastPathDate(path).Some?
    ensures ExtractImageDate(path, fallback, env) == Some((FastPathDate(path).value, FromFilename))
  {
  }

  /** A name of the form `"%Y%m%d_%H%M%S"` (any suffix without `/`) is
      resolved by the fast path, whatever the file system or EXIF say. */
  lemma BareCompactName(dt: DateTime, ext: string, fallback: bool, env: FileFacts)
    requires Valid(dt) && dt.micro == 0 && '/' !in ext && SaneFacts(env)
    ensures ExtractImageDate(Render(Compact, dt) + ext, fallback, env) == Some((dt, FromFilename))
  {
    var stamp := Render(Compact, dt);
    var name := stamp + ext;
    CompactStampShape(dt);
    assert '/' !in name;
    assert CompactAt(name, 0) by {
      assert forall k :: 0 <= k < 15 ==> name[k] == stamp[k];
    }
    var g := CompactGroups(name, 0);
    SearchAt(BareCompact, name, 0, g);
    assert g[0] + "_" + g[1] == stamp;
    FormatsWellFormed();
    CompactCovers(dt);
    ParseRender(Compact, dt);
    assert Evaluate(BareCompact, name) == Some(dt);
    FirstPatternHead(FastPatterns, name, dt);
    assert FastPathDate(name) == Some(dt);
    FastPathDecides(name, fallback, env);
  }

  /** A `"filename"` origin is exactly a fast-path success. */
  lemma FilenameOrigin(path: string, fallback: bool, env: FileFacts)
    requires SaneFacts(env)
    ensures var r := ExtractImageDate(path, fallback, env);
      r.Some? && r.value.1 == FromFilename <==> FastPathDate(path).Some?
    ensures FastPathDate(path).Some? ==> '/' !in path
  {
  }

  /** An EXIF origin names one of the seven fields, holding a string, in the
      metadata of an existing file whose path missed the fast path. */
  lemma ExifOrigin(path: string, fallback: bool, env: FileFacts)
    requires SaneFacts(env)
    ensures var r := ExtractImageDate(path, fallback, env);
      r.Some? && r.value.1.FromExif? ==>
        && FastPathDate(path).None? && env.present && env.exif != map[]
        && r.value.1.field in DateFields
        && Name(r.value.1.field) in env.exif && env.exif[Name(r.value.1.field)].Str?
  {
    var r := ExtractImageDate(path, fallback, env);
    if r.Some? && r.value.1.FromExif? {
      assert ExifStage(env) == Some((r.value.0, r.value.1.field));
      assert FieldDate(env.exif, r.value.1.field).Some?;
    }
  }

  /** A manufacturer origin: earlier stages failed and one of that
      manufacturer's patterns occurs in the file name. */
  lemma VendorOrigin(path: string, fallback: bool, env: FileFacts)
    requires SaneFacts(env)
    ensures var r := ExtractImageDate(path, fallback, env);
      r.Some? && r.value.1.FromVendor? ==>
        && FastPathDate(path).None? && ExifStage(env).None?
        && exists k :: 0 <= k < |VendorTable| && VendorTable[k].0 == r.value.1.vendor
                       && exists j :: 0 <= j < |VendorTable[k].1|
                                      && Search(VendorTable[k].1[j], Paths.Basename(path)).Some?
  {
    var name := Paths.Basename(path);
    var r := ExtractImageDate(path, fallback, env);
    if r.Some? && r.value.1.FromVendor? {
      var v := r.value.1.vendor;
      assert VendorDate(name) == Some((r.value.0, v));
      var k :| 0 <= k < |VendorTable| && VendorTable[k].0 == v
               && VendorEntryDate(VendorTable[k], name) == Some(r.value.0);
      var j := FirstPattern(VendorTable[k].1, name).value.1;
      assert Evaluate(VendorTable[k].1[j], name).Some?;
    }
  }

  /** A generic origin: no manufacturer pattern gave a date and one of the
      generic patterns occurs in the file name. */
  lemma GenericOrigin(path: string, fallback: bool, env: FileFacts)
    requires SaneFacts(env)
    ensures var r := ExtractImageDate(path, fallback, env);
      r.Some? && r.value.1 == FromGeneric ==>
        && FastPathDate(path).None? && ExifStage(env).None? && VendorDate(Paths.Basename(path)).None?
        && exists j :: 0 <= j < |GenericPatterns| && Search(GenericPatterns[j], Paths.Basename(path)).Some?
  {
    var name := Paths.Basename(path);
    var r := ExtractImageDate(path, fallback, env);
    if r.Some? && r.value.1 == FromGeneric {
      var j := FirstPattern(GenericPatterns, name).value.1;
      assert Evaluate(GenericPatterns[j], name).Some?;
    }
  }

  /** The creation time is used exactly when every other stage failed, the
      fallback is on and the file exists; with no result at all, every stage
      failed and the fallback could not apply. */
  lemma CreationOrigin(path: string, fallback: bool, env: FileFacts)
    requires SaneFacts(env)
    ensures var r := ExtractImageDate(path, fallback, env);
      var others := FastPathDate(path).None? && ExifStage(env).None?
                    && VendorDate(Paths.Basename(path)).None? && GenericDate(Paths.Basename(path)).None?;
      && (r.Some? && r.value.1 == FromCreation <==> others && fallback && env.present && env.ctime.Some?)
      && (r.Some? && r.value.1 == FromCreation ==> r.value.0 == env.ctime.value)
      && (r.None? <==> others && !(fallback && env.present && env.ctime.Some?))
  {
  }

  /** The fallback only ever adds a result: whatever is found without it is
      found, unchanged, with it; and without it no creation time is used. */
  lemma FallbackOnlyAdds(path: string, env: FileFacts)
    requires SaneFacts(env)
    ensures ExtractImageDate(path, false, env).Some? ==>
              ExtractImageDate(path, true, env) == ExtractImageDate(path, false, env)
    ensures ExtractImageDate(path, false, env).Some? ==> ExtractImageDate(path, false, env).value.1 != FromCreation
    ensures ExtractImageDate(path, true, env).None? ==> ExtractImageDate(path, false, env).None?
  {
  }

  /** EXIF is read only for a file that exists: for a missing file the
      metadata map makes no difference. */
  lemma MissingFileIgnoresExif(path: string, fallback: bool, env: FileFacts, exif: MetaMap)
    requires SaneFacts(env) && !env.present
    ensures ExtractImageDate(path, fallback, env) == ExtractImageDate(path, fallback, env.(exif := exif))
    ensures var r := ExtractImageDate(path, fallback, env);
              r.Some? ==> r.value.1 != FromCreation && !r.value.1.FromExif?
  {
  }

  /** With an EXIF date, no filename pattern beyond the fast path matters:
      any two names that miss the fast path resolve alike. */
  lemma ExifBeatsFilename(path1: string, path2: string, fallback: bool, env: FileFacts)
    requires SaneFacts(env) && ExifStage(env).Some?
    requires FastPathDate(path1).None? && FastPathDate(path2).None?
    ensures ExtractImageDate(path1, fallback, env) == ExtractImageDate(path2, fallback, env)
    ensures ExtractImageDate(path1, fallback, env).value.1 == FromExif(ExifStage(env).value.1)
  {
  }

  /** `"%Y<sep>%m<sep>%d %H:%M:%S"` names every field but the microseconds,
      and with `".%f"` every field. */
  lemma StampCovers(sep: char, frac: bool, dt: DateTime)
    requires frac || dt.micro == 0
    ensures Covers(Stamp(sep, frac), dt)
  {
    var f := Stamp(sep, frac);
    var a1 := Epoch.(year := dt.year);
    var a3 := a1.(month := dt.month);
    var a5 := a3.(day := dt.day);
    var a7 := a5.(hour := dt.hour);
    var a9 := a7.(minute := dt.minute);
    var a11 := a9.(second := dt.second);
    if frac {
      assert Restrict(f[13..], dt, a11.(micro := dt.micro)) == dt;
      assert Restrict(f[12..], dt, a11) == dt;
    }
    assert Restrict(f[11..], dt, a11) == dt;
    assert Restrict(f[10..], dt, a9) == dt;
    assert Restrict(f[9..], dt, a9) == dt;
    assert Restrict(f[8..], dt, a7) == dt;
    assert Restrict(f[7..], dt, a7) == dt;
    assert Restrict(f[6..], dt, a5) == dt;
    assert Restrict(f[5..], dt, a5) == dt;
    assert Restrict(f[4..], dt, a3) == dt;
    assert Restrict(f[3..], dt, a3) == dt;
    assert Restrict(f[2..], dt, a1) == dt;
    assert Restrict(f[1..], dt, a1) == dt;
  }

  /** A `DateTimeOriginal` written as `"%Y:%m:%d %H:%M:%S"` is read back
      exactly, whatever the other fields hold. */
  lemma OriginalFieldRoundTrip(exif: MetaMap, dt: DateTime)
    requires Valid(dt) && dt.micro == 0
    requires Name("DateTimeOriginal") in exif && exif[Name("DateTimeOriginal")] == Str(Render(Stamp(':', false), dt))
    ensures ExifDate(exif) == Some((dt, "DateTimeOriginal"))
  {
    StampWellFormed(':', false);
    StampCovers(':', false, dt);
    ParseRender(Stamp(':', false), dt);
    assert Parse(ExifFormats[0], exif[Name("DateTimeOriginal")].s) == Some(dt);
    assert FieldDate(exif, DateFields[0]) == Some(dt);
  }

  /** For an existing file whose path misses the fast path, a readable
      `DateTimeOriginal` decides the date and its origin. */
  lemma ExifStampResolves(path: string, fallback: bool, env: FileFacts, dt: DateTime)
    requires SaneFacts(env) && Valid(dt) && dt.micro == 0
    requires FastPathDate(path).None? && env.present
    requires Name("DateTimeOriginal") in env.exif
    requires env.exif[Name("DateTimeOriginal")] == Str(Render(Stamp(':', false), dt))
    ensures ExtractImageDate(path, fallback, env) == Some((dt, FromExif("DateTimeOriginal")))
  {
    OriginalFieldRoundTrip(env.exif, dt);
    assert env.exif != map[];
    assert ExifStage(env) == Some((dt, "DateTimeOriginal"));
  }

  /** The characters of `"PXL_" + "%Y%m%d_%H%M%S" + "." + e`. */
  lemma ShortPixelShape(dt: DateTime, e: string)
    requires Valid(dt) && e in SamsungExts
    ensures var name := "PXL_" + Render(Compact, dt) + "." + e;
      && |name| == 20 + |e| && name[..4] == "PXL_" && name[19] == '.' && name[20..] == e
      && name[4..19] == Render(Compact, dt)
      && '/' !in name
      && (forall k :: 4 <= k < 12 ==> IsDigit(name[k]))
      && name[12] == '_'
      && (forall k :: 13 <= k < 19 ==> IsDigit(name[k]))
      && (forall k :: 1 <= k < |name| ==> name[k] != 'P')
  {
    CompactStampShape(dt);
    var name := "PXL_" + Render(Compact, dt) + "." + e;
    assert forall k :: 4 <= k < 19 ==> name[k] == Render(Compact, dt)[k - 4];
    assert forall k :: 20 <= k < |name| ==> name[k] == e[k - 20];
    assert forall c :: c in e ==> c != 'P' && c != '/';
  }

  lemma ShortPixelMissesPixel(dt: DateTime, e: string)
    requires Valid(dt) && e in SamsungExts
    ensures Evaluate(Pixel, "PXL_" + Render(Compact, dt) + "." + e).None?
  {
    var name := "PXL_" + Render(Compact, dt) + "." + e;
    ShortPixelShape(dt, e);
    assert !IsDigit(name[19]);
    assert forall j :: 0 <= j <= |name| ==> MatchAt(Pixel, name, j).None?;
  }

  /** Captures of a rendered `"%Y%m%d_%H%M%S"` parse back to its date. */
  lemma ParseCompactGroups(name: string, i: nat, dt: DateTime)
    requires Valid(dt) && dt.micro == 0
    requires i + 15 <= |name| && name[i..i + 15] == Render(Compact, dt)
    ensures CompactAt(name, i)
    ensures var g := CompactGroups(name, i); Parse(Compact, g[0] + "_" + g[1]) == Some(dt)
  {
    CompactStampShape(dt);
    assert forall k :: i <= k < i + 15 ==> name[k] == Render(Compact, dt)[k - i];
    var g := CompactGroups(name, i);
    assert g[0] + "_" + g[1] == Render(Compact, dt);
    FormatsWellFormed();
    CompactCovers(dt);
    ParseRender(Compact, dt);
  }

  /** `(\d{8})_(\d{6})` followed by `.` and a listed extension at the end. */
  lemma SamsungExtMatch(name: string, i: nat, e: string)
    requires CompactAt(name, i) && e in SamsungExts
    requires i + 16 + |e| == |name| && name[i + 15] == '.' && name[i + 16..] == e
    ensures MatchAt(SamsungExt, name, i) == Some(CompactGroups(name, i))
  {
    assert LitAt(name, i + 16, e) && EndAt(name, i + 16 + |e|);
    assert DotExtEnd(name, i + 15);
  }

  lemma SamsungExtNeedsDigits(name: string, j: nat)
    requires !CompactAt(name, j)
    ensures MatchAt(SamsungExt, name, j).None?
  {
  }

  lemma ShortPixelHitsSamsung(dt: DateTime, e: string)
    requires Valid(dt) && dt.micro == 0 && e in SamsungExts
    ensures Evaluate(SamsungExt, "PXL_" + Render(Compact, dt) + "." + e) == Some(dt)
  {
    var name := "PXL_" + Render(Compact, dt) + "." + e;
    ShortPixelShape(dt, e);
    ParseCompactGroups(name, 4, dt);
    SamsungExtMatch(name, 4, e);
    forall j | 0 <= j < 4
      ensures MatchAt(SamsungExt, name, j).None?
    {
      assert !IsDigit(name[3]);
      SamsungExtNeedsDigits(name, j);
    }
    SearchAt(SamsungExt, name, 4, CompactGroups(name, 4));
  }

  /** A Samsung date for the name decides the manufacturer stage. */
  lemma SamsungFirst(name: string, dt: DateTime)
    requires Evaluate(SamsungExt, name) == Some(dt)
    ensures VendorDate(name) == Some((dt, Samsung))
  {
    FirstPatternHead(VendorTable[0].1, name, dt);
    assert VendorEntryDate(VendorTable[0], name) == Some(dt);
  }

  /** `PXL_YYYYMMDD_HHMMSS.<ext>` in a directory: six time digits are too few
      for the Pixel pattern, and the Samsung pattern, tried first anyway,
      claims the name. */
  lemma ShortPixelNameIsSamsung(dir: string, dt: DateTime, e: string, fallback: bool, env: FileFacts)
    requires Valid(dt) && dt.micro == 0 && e in SamsungExts
    requires dir != "" && dir[|dir| - 1] != '/'
    requires SaneFacts(env) && ExifStage(env).None?
    ensures var name := "PXL_" + Render(Compact, dt) + "." + e;
      && Evaluate(Pixel, name).None?
      && ExtractImageDate(Paths.Join(dir, name), fallback, env) == Some((dt, FromVendor(Samsung)))
  {
    var name := "PXL_" + Render(Compact, dt) + "." + e;
    ShortPixelShape(dt, e);
    Paths.DirnameOfJoin(dir, name);
    Paths.BasenameOfJoin(dir, name);
    ShortPixelMissesPixel(dt, e);
    ShortPixelHitsSamsung(dt, e);
    SamsungFirst(name, dt);
  }

  /** Day-month-year wins whenever it names a real date, so a day of 12 or
      less is never read as a month. */
  lemma AmbiguousDayFirst(d: nat, m: nat, y: nat)
    requires d < 100 && m < 100 && y < 10000 && MakeDate(y, m, d).Some?
    ensures ParseAmbiguousDate(Fixed(d, 2), Fixed(m, 2), Fixed(y, 4)) == MakeDate(y, m, d)
  {
  }

  /** Month-day-year is the second choice, used only when day-month-year is
      not a date; when neither is, the result is `None`. */
  lemma AmbiguousSwap(d: nat, m: nat, y: nat)
    requires d < 100 && m < 100 && y < 10000 && MakeDate(y, m, d).None?
    ensures ParseAmbiguousDate(Fixed(d, 2), Fixed(m, 2), Fixed(y, 4)) == MakeDate(y, d, m)
  {
  }

  /** The bare `YYYYMMDD` pattern gives a midnight date in 1900..2100, and
      every such real date is accepted. */
  lemma GenericPlainRange(g: seq<string>)
    requires |g| == 3
    ensures var r := Interpret(GenericPlain, g);
      && (r.Some? ==> 1900 <= r.value.year <= 2100 && r.value.hour == 0 && r.value.minute == 0
                      && r.value.second == 0 && r.value.micro == 0)
      && (var y := NumberOf(g[0]); var m := NumberOf(g[1]); var d := NumberOf(g[2]);
          1900 <= y <= 2100 && MakeDate(y, m, d).Some? ==> r == MakeDate(y, m, d))
  {
  }

  lemma ExampleFields()
    ensures Fixed(2024, 4) + Fixed(3, 2) + Fixed(15, 2) + "_" + Fixed(14, 2) + Fixed(30, 2) + Fixed(0, 2)
            == "20240315_143000"
  {
    Fixed2(20); Fixed2(3); Fixed2(15); Fixed2(14); Fixed2(30); Fixed2(0);
    assert Fixed(202, 3) == Fixed(20, 2) + [Digit(2)];
    var a := Fixed(2024, 4) + Fixed(3, 2);
    assert a == "202403";
    var b := a + Fixed(15, 2) + "_";
    assert b == "20240315_";
    var c := b + Fixed(14, 2) + Fixed(30, 2);
    assert c == "20240315_1430";
    assert c + Fixed(0, 2) == "20240315_143000";
  }

  lemma ExampleText(stamp: string)
    requires stamp == "20240315_143000"
    ensures stamp + ".jpg" == "20240315_143000.jpg"
  {
  }

  lemma ExampleName(dt: DateTime)
    requires dt == DateTime(2024, 3, 15, 14, 30, 0, 0)
    ensures Render(Compact, dt) + ".jpg" == "20240315_143000.jpg"
  {
    RenderCompactShape(dt);
    ExampleFields();
    ExampleText(Render(Compact, dt));
  }

  /** `'20240315_143000.jpg'` resolves to 2024-03-15 14:30:00 with origin
      `"filename"`, without looking at the file. */
  lemma ExampleBareSamsungName(path: string, fallback: bool, env: FileFacts)
    requires path == "20240315_143000.jpg" && SaneFacts(env)
    ensures ExtractImageDate(path, fallback, env) == Some((DateTime(2024, 3, 15, 14, 30, 0, 0), FromFilename))
  {
    var dt := DateTime(2024, 3, 15, 14, 30, 0, 0);
    BareCompactName(dt, ".jpg", fallback, env);
    ExampleName(dt);
  }

  lemma PixelExampleFields()
    ensures Fixed(2023, 4) + Fixed(6, 2) + Fixed(2, 2) + "_" + Fixed(12, 2) + Fixed(0, 2) + Fixed(0, 2)
            == "20230602_120000"
  {
    Fixed2(20); Fixed2(6); Fixed2(2); Fixed2(12); Fixed2(0);
    assert Fixed(202, 3) == Fixed(20, 2) + [Digit(2)];
    var a := Fixed(2023, 4) + Fixed(6, 2);
    assert a == "202306";
    var b := a + Fixed(2, 2) + "_";
    assert b == "20230602_";
    var c := b + Fixed(12, 2) + Fixed(0, 2);
    assert c == "20230602_1200";
    assert c + Fixed(0, 2) == "20230602_120000";
  }

  lemma PixelExampleText(stamp: string)
    requires stamp == "20230602_120000"
    ensures "PXL_" + stamp + "." + "jpg" == "PXL_20230602_120000.jpg"
  {
  }

  lemma PixelExampleName(dt: DateTime)
    requires dt == DateTime(2023, 6, 2, 12, 0, 0, 0)
    ensures "PXL_" + Render(Compact, dt) + "." + "jpg" == "PXL_20230602_120000.jpg"
  {
    RenderCompactShape(dt);
    PixelExampleFields();
    PixelExampleText(Render(Compact, dt));
  }

  lemma PixelExamplePath(name: string)
    requires name == "PXL_20230602_120000.jpg"
    ensures Paths.Join("photos", name) == "photos/PXL_20230602_120000.jpg"
  {
    assert !StartsWith(name, "/") by {
      assert name[0] == 'P';
    }
    var a := "photos";
    assert a != "" && a[|a| - 1] == 's';
    assert a + "/" + name == "photos/PXL_20230602_120000.jpg";
  }

  /** `'photos/PXL_20230602_120000.jpg'` without an EXIF date resolves to
      2023-06-02 12:00:00 with origin `"filename:samsung"`. */
  lemma ExampleShortPixelName(path: string, fallback: bool, env: FileFacts)
    requires path == "photos/PXL_20230602_120000.jpg" && SaneFacts(env) && ExifStage(env).None?
    ensures ExtractImageDate(path, fallback, env) == Some((DateTime(2023, 6, 2, 12, 0, 0, 0), FromVendor(Samsung)))
  {
    var dt := DateTime(2023, 6, 2, 12, 0, 0, 0);
    ShortPixelNameIsSamsung("photos", dt, "jpg", fallback, env);
    PixelExampleName(dt);
    PixelExamplePath("PXL_" + Render(Compact, dt) + "." + "jpg");
  }
}
