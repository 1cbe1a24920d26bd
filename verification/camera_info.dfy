/** `get_camera_info` and `_deduce_from_filename`: the make and model of the
    camera that took a file, read from its metadata map and, where that
    leaves a gap, guessed from the file name. */
module CameraInfo {
  import opened Wrappers
  import opened Text
  import Paths
  import opened MetaValues
  import opened FilenamePatterns
  import opened CameraFormat

  datatype Camera = Camera(make: string, model: string)

  const Unknown: string := "Unknown"

  // ---------------------------------------------------------------------
  // reading the metadata

  /** One of `Make` / `Model`: `'Unknown'` when absent, otherwise its text
      (`show` is `str()` for a value that is not a string) stripped, with
      every `_` turned into a blank. */
  function RawField(exif: MetaMap, field: string, show: Value -> string): (r: string)
    ensures Name(field) !in exif ==> r == Unknown
    ensures Name(field) in exif ==> '_' !in r
    ensures Name(field) in exif && exif[Name(field)].Str? ==>
              |r| == |Strip(exif[Name(field)].s)|
  {
    if Name(field) !in exif then Unknown
    else
      var v := exif[Name(field)];
      var t := Strip(if v.Str? then v.s else show(v));
      ReplaceChar(t, '_', ' ');
      var r := Replace(t, "_", " ");
      assert forall k :: 0 <= k < |r| ==> r[k] != '_';
      r
  }

  /** A non-empty `file_path`: Python treats `None` and `''` alike. */
  predicate PathGiven(path: Option<string>) {
    path.Some? && path.value != ""
  }

  /** The fields read from the metadata, before any guess from the name. */
  function FromExif(exif: MetaMap, show: Value -> string): Camera {
    Camera(RawField(exif, "Make", show), RawField(exif, "Model", show))
  }

  /** Whether `get_camera_info` looks at a file name at all: a field is still
      `'Unknown'` and a path or a `FileName` entry is there. */
  predicate WantsName(exif: MetaMap, path: Option<string>, show: Value -> string) {
    var raw := FromExif(exif, show);
    (raw.make == Unknown || raw.model == Unknown) && (PathGiven(path) || Name("FileName") in exif)
  }

  /** `FileName` is used as text; any other value makes the name tests
      raise. */
  predicate NameReadable(exif: MetaMap, path: Option<string>, show: Value -> string) {
    exif != map[] && WantsName(exif, path, show) && !PathGiven(path) ==> exif[Name("FileName")].Str?
  }

  /** The bare name the guesses look at. */
  function NameOf(exif: MetaMap, path: Option<string>): (f: string)
    requires PathGiven(path) || (Name("FileName") in exif && exif[Name("FileName")].Str?)
    ensures PathGiven(path) ==> '/' !in f
  {
    if PathGiven(path) then Paths.Basename(path.value) else exif[Name("FileName")].s
  }

  // ---------------------------------------------------------------------
  // the file-name rules

  /** `IMG_….HEIC` or `IMG_….heic`. */
  predicate HeicIphoneName(f: string) {
    StartsWith(f, "IMG_") && (EndsWith(f, ".HEIC") || EndsWith(f, ".heic"))
  }

  /** Length of a greedy `\w+` run at `i` (ASCII word characters). */
  function WordRun(s: string, i: nat): (n: nat)
    requires i <= |s|
    ensures i + n <= |s|
    ensures forall k :: i <= k < i + n ==> IsWordChar(s[k])
    ensures i + n < |s| ==> !IsWordChar(s[i + n])
  {
    var n := CountLeading(s[i..], IsWordChar);
    assert forall k :: i <= k < i + n ==> s[k] == s[i..][k - i];
    assert i + n < |s| ==> s[i + n] == s[i..][n];
    n
  }

  /** `\.\w+$` at `i`. A shorter `\w+` leaves a word character in front of
      `$`, so only the full run needs trying. */
  predicate DotWordEnd(s: string, i: nat) {
    i < |s| && s[i] == '.' && WordRun(s, i + 1) >= 1 && EndAt(s, i + 1 + WordRun(s, i + 1))
  }

  /** `(?:\.\w+)?$` at `i`. */
  predicate ExtThenEnd(s: string, i: nat) {
    i <= |s| && (EndAt(s, i) || DotWordEnd(s, i))
  }

  /** `^(\d{8})_(\d{6})(?:_\d+)?(?:\.\w+)?$`. */
  predicate SamsungCameraName(f: string) {
    CompactAt(f, 0) &&
    (ExtThenEnd(f, 15) ||
     (15 < |f| && f[15] == '_' && DigitRun(f, 16) >= 1 && ExtThenEnd(f, 16 + DigitRun(f, 16))))
  }

  function YearOf(f: string): nat requires CompactAt(f, 0) { DigitsValue(f[..4]) }
  function MonthOf(f: string): nat requires CompactAt(f, 0) { DigitsValue(f[4..6]) }
  function DayOf(f: string): nat requires CompactAt(f, 0) { DigitsValue(f[6..8]) }

  /** The loose date check that gates the Samsung guess. */
  predicate SamsungDateOk(f: string)
    requires CompactAt(f, 0)
  {
    2000 <= YearOf(f) <= 2100 && 1 <= MonthOf(f) <= 12 && 1 <= DayOf(f) <= 31
  }

  /** `^PXL_\d{8}_\d{6}\.mp4$`, ignoring case. */
  predicate PixelVideoName(f: string) {
    |f| >= 23 && LowerStr(f[..4]) == "pxl_" && CompactAt(f, 4) && f[19] == '.' &&
    LowerStr(f[20..23]) == "mp4" && EndAt(f, 23)
  }

  /** `'Unknown'` takes the guess; anything else is kept. */
  function Keep(v: string, guess: string): (r: string)
    ensures v != Unknown ==> r == v
    ensures v == Unknown ==> r == guess
  {
    if v == Unknown then guess else v
  }

  /** The name rules of `get_camera_info`, tried in the order iPhone HEIC,
      Samsung, Pixel. */
  function FillFromName(cam: Camera, f: string): (r: Camera)
    ensures cam.make != Unknown ==> r.make == cam.make
    ensures cam.model != Unknown && !PixelVideoName(f) ==> r.model == cam.model
  {
    if HeicIphoneName(f) then Camera(Keep(cam.make, "Apple"), Keep(cam.model, "iPhone"))
    else if SamsungCameraName(f) then
      if SamsungDateOk(f) then Camera(Keep(cam.make, "Samsung"), Keep(cam.model, "Galaxy S23")) else cam
    else if StartsWith(f, "PXL_") then
      var c := Camera(Keep(cam.make, "Google"), Keep(cam.model, "Pixel"));
      if PixelVideoName(f) then c.(model := "Pixel Video") else c
    else cam
  }

  /** `_format_camera_names` when `format_output` is set. */
  function Shown(c: Camera, fmt: bool): Camera {
    if fmt then
      var p := FormatCameraNames(c.make, c.model);
      Camera(p.0, p.1)
    else c
  }

  /** `_deduce_from_filename(filename, format_output)`: iPhone HEIC, then
      Pixel, then anything starting like a Samsung name. */
  function Deduce(f: string, fmt: bool): Camera {
    var c :=
      if HeicIphoneName(f) then Camera("Apple", "iPhone")
      else if StartsWith(f, "PXL_") then Camera("Google", if PixelVideoName(f) then "Pixel Video" else "Pixel")
      else if CompactAt(f, 0) then Camera("Samsung", "Galaxy S23")
      else Camera(Unknown, Unknown);
    Shown(c, fmt)
  }

  /** `get_camera_info(exif_data, file_path, format_output)` for a metadata
      map. */
  function GetCameraInfo(exif: MetaMap, path: Option<string>, fmt: bool, show: Value -> string): (c: Camera)
    requires NameReadable(exif, path, show)
    ensures exif == map[] && !PathGiven(path) ==> c == Camera(Unknown, Unknown)
  {
    if exif == map[] then
      if PathGiven(path) then Deduce(Paths.Basename(path.value), fmt) else Camera(Unknown, Unknown)
    else
      var raw := FromExif(exif, show);
      var filled := if WantsName(exif, path, show) then FillFromName(raw, NameOf(exif, path)) else raw;
      Shown(filled, fmt)
  }

  /** `get_camera_info` with its one unguarded failure made explicit: with no
      path given and a field still `'Unknown'`, a `FileName` entry that is not
      text raises `AttributeError` at `filename.startswith`, which is `None`
      here; every other call yields the camera `GetCameraInfo` computes. */
  function TryGetCameraInfo(exif: MetaMap, path: Option<string>, fmt: bool, show: Value -> string): (r: Option<Camera>)
    ensures PathGiven(path) || exif == map[] ==> r.Some?
    ensures r.None? <==>
              exif != map[] && !PathGiven(path) && Name("FileName") in exif && !exif[Name("FileName")].Str? &&
              (FromExif(exif, show).make == Unknown || FromExif(exif, show).model == Unknown)
    ensures r.Some? ==> NameReadable(exif, path, show) && r.value == GetCameraInfo(exif, path, fmt, show)
  {
    if NameReadable(exif, path, show) then Some(GetCameraInfo(exif, path, fmt, show)) else None
  }

  // ---------------------------------------------------------------------
  // properties

  /** A text field with no surrounding blanks and no `_` is taken as it is. */
  lemma RawFieldKept(exif: MetaMap, field: string, show: Value -> string)
    requires Name(field) in exif && exif[Name(field)].Str?
    requires var s := exif[Name(field)].s; s != [] ==> !IsSpace(s[0]) && !IsSpace(s[|s| - 1])
    requires '_' !in exif[Name(field)].s
    ensures RawField(exif, field, show) == exif[Name(field)].s
  {
    var s := exif[Name(field)].s;
    StripUnspaced(s);
    ReplaceChar(s, '_', ' ');
  }

  /** Make and model default independently: with no name to look at, a
      missing `Make` gives `'Unknown'` whatever `Model` says, and the other
      way round. */
  lemma IndependentDefaults(exif: MetaMap, path: Option<string>, show: Value -> string)
    requires exif != map[] && !PathGiven(path) && Name("FileName") !in exif
    ensures GetCameraInfo(exif, path, false, show) == FromExif(exif, show)
    ensures Name("Make") !in exif ==> GetCameraInfo(exif, path, false, show).make == Unknown
    ensures Name("Model") !in exif ==> GetCameraInfo(exif, path, false, show).model == Unknown
  {}

  /** The name rules only fill fields that are still `'Unknown'`; the one
      exception is a Pixel video name, which replaces the model. */
  lemma FillOnlyUnknown(exif: MetaMap, path: Option<string>, show: Value -> string)
    requires exif != map[] && NameReadable(exif, path, show)
    ensures var raw := FromExif(exif, show);
            var c := GetCameraInfo(exif, path, false, show);
            (raw.make != Unknown ==> c.make == raw.make) &&
            (raw.model != Unknown && !(WantsName(exif, path, show) && PixelVideoName(NameOf(exif, path))) ==>
               c.model == raw.model)
  {}

  /** Both fields read from the metadata: the name is never consulted. */
  lemma KnownFieldsKept(exif: MetaMap, path: Option<string>, show: Value -> string)
    requires exif != map[]
    requires FromExif(exif, show).make != Unknown && FromExif(exif, show).model != Unknown
    ensures GetCameraInfo(exif, path, false, show) == FromExif(exif, show)
  {}

  /** A `PXL_` name starts with a letter, so it is never a Samsung or an
      iPhone name. */
  lemma PixelNameApart(f: string)
    requires StartsWith(f, "PXL_")
    ensures !CompactAt(f, 0) && !SamsungCameraName(f) && !HeicIphoneName(f)
  {
    assert f[0] == "PXL_"[0];
  }

  /** `PXL_<date>_<time>.mp4` sets the model to `'Pixel Video'` even over a
      model read from the metadata, as soon as the make is missing. */
  lemma PixelVideoOverride(exif: MetaMap, path: Option<string>, show: Value -> string)
    requires exif != map[] && PathGiven(path)
    requires var f := Paths.Basename(path.value); StartsWith(f, "PXL_") && PixelVideoName(f)
    requires FromExif(exif, show).make == Unknown
    ensures GetCameraInfo(exif, path, false, show) == Camera("Google", "Pixel Video")
  {
    PixelNameApart(Paths.Basename(path.value));
  }

  /** A Samsung-shaped name whose date fails the loose check guesses
      nothing; one that passes it fills the missing fields. */
  lemma SamsungDateGuard(exif: MetaMap, path: Option<string>, show: Value -> string)
    requires exif != map[] && PathGiven(path)
    requires var f := Paths.Basename(path.value); SamsungCameraName(f)
    ensures var f := Paths.Basename(path.value);
            var raw := FromExif(exif, show);
            GetCameraInfo(exif, path, false, show) ==
              if SamsungDateOk(f) then Camera(Keep(raw.make, "Samsung"), Keep(raw.model, "Galaxy S23")) else raw
  {
  }

  /** What `_deduce_from_filename` guesses, rule by rule. Its Samsung test
      only looks at the first fifteen characters and checks no date. */
  lemma DeduceCases(f: string)
    ensures Deduce(f, false).make == "Apple" <==> HeicIphoneName(f)
    ensures Deduce(f, false).make == "Google" <==> StartsWith(f, "PXL_")
    ensures Deduce(f, false).model == "Pixel Video" <==> StartsWith(f, "PXL_") && PixelVideoName(f)
    ensures Deduce(f, false).make == "Samsung" <==> CompactAt(f, 0)
    ensures Deduce(f, false) == Camera(Unknown, Unknown) <==>
              !HeicIphoneName(f) && !StartsWith(f, "PXL_") && !CompactAt(f, 0)
  {
    if StartsWith(f, "PXL_") {
      PixelNameApart(f);
    }
    if HeicIphoneName(f) {
      assert f[0] == "IMG_"[0];
    }
  }

  /** Every name `get_camera_info` takes for a Samsung one is taken for a
      Samsung one by `_deduce_from_filename` too, even when the date check
      rejects it. */
  lemma DeduceLooserThanFill(f: string)
    requires SamsungCameraName(f)
    ensures Deduce(f, false) == Camera("Samsung", "Galaxy S23")
  {
    DeduceCases(f);
  }

  lemma UnknownTitled(s: string)
    requires s == Unknown
    ensures Title(Strip(s)) == Unknown
  {
    StripUnspaced(s);
    TitleKeepsCapitalised(s);
  }

  /** With display formatting on, a missing make still reads `'Unknown'`
      when no name is there to guess from. */
  lemma ShownUnknownMake(exif: MetaMap, path: Option<string>, show: Value -> string)
    requires exif != map[] && !PathGiven(path) && Name("FileName") !in exif
    requires Name("Make") !in exif
    ensures GetCameraInfo(exif, path, true, show).make == Unknown
  {
    UnknownTitled(Unknown);
    UnknownStays(Unknown, MakeMapping);
  }
}
