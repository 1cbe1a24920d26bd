/** How `get_exif_data` routes a file by its extension, and the one branch
    of it that is pure logic: the metadata it assembles for a video. */
module Formats {
  import opened Wrappers
  import opened Text
  import Paths
  import opened Calendar
  import opened Strptime
  import opened MetaValues
  import opened DateResolver

  const StandardExts: seq<string> :=
    [".jpg", ".jpeg", ".png", ".gif", ".bmp", ".tiff", ".tif", ".webp", ".svg", ".psd", ".jfif", ".jp2", ".avif"]
  const HeicExts: seq<string> := [".heic", ".heif"]
  const RawExts: seq<string> :=
    [".raw", ".arw", ".cr2", ".cr3", ".nef", ".orf", ".rw2", ".dng", ".3fr", ".raf", ".pef", ".srw", ".sr2",
     ".x3f", ".mef", ".iiq", ".rwl"]
  const VideoExts: seq<string> :=
    [".mp4", ".mov", ".avi", ".mkv", ".wmv", ".flv", ".webm", ".3gp", ".m4v", ".mpg", ".mpeg", ".mts", ".ts", ".vob"]

  /** The extensions that take the JPEG branch; `.jpe` is not in the
      standard list but is routed here all the same. */
  const JpegExts: seq<string> := [".jpg", ".jpeg", ".jfif", ".jpe"]

  /** The branch `get_exif_data` takes. */
  datatype Kind = Missing | Jpeg | Video | Heic | Raw | Standard

  /** The lower-cased extension the dispatch looks at. */
  function LowerExt(path: string): string {
    LowerStr(Paths.Ext(path))
  }

  /** A missing file gets `{}`; otherwise the JPEG test comes first, then
      video, HEIC and RAW, and everything else takes the standard branch. */
  function Dispatch(path: string, present: bool): (k: Kind)
    ensures k == Missing <==> !present
  {
    DispatchExt(LowerExt(path), present)
  }

  /** The branch for a lower-cased extension. */
  function DispatchExt(ext: string, present: bool): Kind {
    if !present then Missing
    else if ext in JpegExts then Jpeg
    else if ext in VideoExts then Video
    else if ext in HeicExts then Heic
    else if ext in RawExts then Raw
    else Standard
  }

  /** The four special lists share no extension. */
  lemma ListsDisjoint(ext: string)
    ensures ext in JpegExts ==> ext !in VideoExts && ext !in HeicExts && ext !in RawExts
    ensures ext in VideoExts ==> ext !in HeicExts && ext !in RawExts
    ensures ext in HeicExts ==> ext !in RawExts
  {
    if ext in JpegExts { JpegApart(ext); }
    if ext in VideoExts { VideoApart(ext); }
  }

  lemma JpegApart(ext: string)
    requires ext in JpegExts
    ensures ext !in VideoExts && ext !in HeicExts && ext !in RawExts
  {}

  lemma VideoApart(ext: string)
    requires ext in VideoExts
    ensures ext !in HeicExts && ext !in RawExts
  {}

  /** So the order of the tests does not matter: each branch is taken
      exactly for its own list. */
  lemma DispatchByList(path: string)
    ensures Dispatch(path, true) == Jpeg <==> LowerExt(path) in JpegExts
    ensures Dispatch(path, true) == Video <==> LowerExt(path) in VideoExts
    ensures Dispatch(path, true) == Heic <==> LowerExt(path) in HeicExts
    ensures Dispatch(path, true) == Raw <==> LowerExt(path) in RawExts
    ensures Dispatch(path, true) == Standard <==>
              LowerExt(path) !in JpegExts && LowerExt(path) !in VideoExts &&
              LowerExt(path) !in HeicExts && LowerExt(path) !in RawExts
  {
    ListsDisjoint(LowerExt(path));
  }

  /** Of the standard list, the three JPEG spellings take the JPEG branch
      and every other one the standard branch. */
  lemma StandardListRouting(path: string)
    requires LowerExt(path) in StandardExts
    ensures Dispatch(path, true) == (if LowerExt(path) in JpegExts then Jpeg else Standard)
  {
    DispatchByList(path);
    StandardApart(LowerExt(path));
  }

  lemma StandardApart(ext: string)
    requires ext in StandardExts
    ensures ext !in VideoExts && ext !in HeicExts && ext !in RawExts
  {
    StandardNotVideo(ext);
    StandardNotRaw(ext);
  }

  lemma StandardNotVideo(ext: string)
    requires ext in StandardExts
    ensures ext !in VideoExts
  {}

  lemma StandardNotRaw(ext: string)
    requires ext in StandardExts
    ensures ext !in RawExts
  {}

  /** The dispatch only sees the extension, whatever its case. */
  lemma DispatchIgnoresCase(p: string, q: string, present: bool)
    requires LowerExt(p) == LowerExt(q)
    ensures Dispatch(p, present) == Dispatch(q, present)
  {}

  // ---------------------------------------------------------------------
  // the video branch

  /** What a Windows host adds to a video's metadata: the map
      `get_windows_file_metadata` returns and the sorted dates
      `get_windows_photo_dates` finds. `None` off Windows. */
  datatype WindowsFacts = WindowsFacts(wmic: MetaMap, dates: seq<DateTime>)

  predicate SaneWindows(w: Option<WindowsFacts>) {
    w.Some? ==> forall j :: 0 <= j < |w.value.dates| ==> Valid(w.value.dates[j])
  }

  /** `strftime("%Y:%m:%d %H:%M:%S")`. */
  function ExifText(dt: DateTime): string
    requires Valid(dt)
  {
    Render(Stamp(':', false), dt)
  }

  const PixelTags: MetaMap :=
    map[Name("Make") := Str("Google"), Name("Model") := Str("Pixel"), Name("CameraType") := Str("Google Pixel")]

  /** The video branch of `get_exif_data` for an existing file named
      `name`, once the date read from that bare name (`nameDate`) is known:
      the basic file attributes `basic`, the Pixel tags for a `PXL_` name,
      the name date, the media type, and on Windows the WMIC map and the
      first WMIC date when the name gave none. */
  function VideoFields(name: string, basic: MetaMap, nameDate: Option<DateTime>, windows: Option<WindowsFacts>): (m: MetaMap)
    requires nameDate.Some? ==> Valid(nameDate.value)
    requires SaneWindows(windows)
    ensures Name("MediaType") in m
    ensures forall k :: k in basic ==> k in m
  {
    var m1 := if StartsWith(name, "PXL_") then basic + PixelTags else basic;
    var m2 := if nameDate.Some? then m1[Name("DateTimeOriginal") := Str(ExifText(nameDate.value))]
                                       [Name("FileSourceFromName") := Bool(true)]
              else m1;
    var m3 := m2[Name("MediaType") := Str("Video")];
    match windows
    case None => m3
    case Some(w) =>
      var m4 := m3 + w.wmic;
      if w.dates != [] && nameDate.None? then m4[Name("DateTimeOriginal") := Str(ExifText(w.dates[0]))] else m4
  }

  /** The date `extract_image_date(basename, fallback_to_file_date=False)`
      finds, with `nameEnv` the facts for that bare name relative to the
      working directory. */
  function NameDate(path: string, nameEnv: FileFacts): (r: Option<DateTime>)
    requires SaneFacts(nameEnv)
    ensures r.Some? ==> Valid(r.value)
  {
    ExtractDate(Paths.Basename(path), false, nameEnv)
  }

  function VideoMetadata(path: string, basic: MetaMap, nameEnv: FileFacts, windows: Option<WindowsFacts>): MetaMap
    requires SaneFacts(nameEnv) && SaneWindows(windows)
  {
    VideoFields(Paths.Basename(path), basic, NameDate(path, nameEnv), windows)
  }

  /** Rendering a format without `%f` does not look at the microseconds. */
  lemma {:induction false} RenderIgnoresMicro(fmt: Format, dt: DateTime, us: int)
    requires Valid(dt) && 0 <= us <= 999999
    requires forall j :: 0 <= j < |fmt| ==> fmt[j] != Fraction
    ensures Render(fmt, dt) == Render(fmt, dt.(micro := us))
    decreases |fmt|
  {
    if fmt != [] {
      RenderCons(fmt, dt);
      RenderCons(fmt, dt.(micro := us));
      RenderIgnoresMicro(fmt[1..], dt, us);
    }
  }

  /** A `PXL_` video carries the Google Pixel tags unless WMIC reports
      those keys itself; any other name leaves them as the basic map has
      them (or WMIC sets them). */
  lemma VideoPixelTags(name: string, basic: MetaMap, nameDate: Option<DateTime>, windows: Option<WindowsFacts>)
    requires nameDate.Some? ==> Valid(nameDate.value)
    requires SaneWindows(windows)
    requires windows.Some? ==> forall k :: k in PixelTags ==> k !in windows.value.wmic
    ensures var m := VideoFields(name, basic, nameDate, windows);
            StartsWith(name, "PXL_") ==>
              forall k :: k in PixelTags ==> k in m && m[k] == PixelTags[k]
    ensures var m := VideoFields(name, basic, nameDate, windows);
            !StartsWith(name, "PXL_") ==>
              forall k :: k in PixelTags ==> (k in m <==> k in basic) && (k in basic ==> m[k] == basic[k])
  {
    forall k | k in PixelTags
      ensures var m := VideoFields(name, basic, nameDate, windows);
              var m1 := if StartsWith(name, "PXL_") then basic + PixelTags else basic;
              (k in m <==> k in m1) && (k in m1 ==> m[k] == m1[k])
    {
      VideoKeysApart();
      VideoFieldsKeep(name, basic, nameDate, windows, k);
    }
  }

  /** Any key but the three the branch writes, and not reported by WMIC,
      keeps what the basic map (with the Pixel tags for a `PXL_` name) gave
      it. */
  lemma VideoFieldsKeep(name: string, basic: MetaMap, nameDate: Option<DateTime>, windows: Option<WindowsFacts>, k: Key)
    requires nameDate.Some? ==> Valid(nameDate.value)
    requires SaneWindows(windows)
    requires k != Name("DateTimeOriginal") && k != Name("FileSourceFromName") && k != Name("MediaType")
    requires windows.Some? ==> k !in windows.value.wmic
    ensures var m := VideoFields(name, basic, nameDate, windows);
            var m1 := if StartsWith(name, "PXL_") then basic + PixelTags else basic;
            (k in m <==> k in m1) && (k in m1 ==> m[k] == m1[k])
  {}

  /** The keys the video branch writes are none of the Pixel tags. */
  lemma VideoKeysApart()
    ensures Name("DateTimeOriginal") !in PixelTags
    ensures Name("FileSourceFromName") !in PixelTags
    ensures Name("MediaType") !in PixelTags
  {}

  /** The `DateTimeOriginal` a video gets from its name is read back by the
      EXIF stage as that same date, to the second. */
  lemma VideoDateRoundTrip(name: string, basic: MetaMap, dt: DateTime, windows: Option<WindowsFacts>)
    requires Valid(dt) && SaneWindows(windows)
    requires windows.Some? ==> Name("DateTimeOriginal") !in windows.value.wmic
    ensures ExifDate(VideoFields(name, basic, Some(dt), windows)) == Some((dt.(micro := 0), "DateTimeOriginal"))
  {
    var m := VideoFields(name, basic, Some(dt), windows);
    assert m[Name("DateTimeOriginal")] == Str(ExifText(dt));
    RenderIgnoresMicro(Stamp(':', false), dt, 0);
    OriginalFieldRoundTrip(m, dt.(micro := 0));
  }

  /** Without a name date, Windows' earliest date fills `DateTimeOriginal`;
      without either, the field is whatever the basic map held. */
  lemma VideoDateFallback(name: string, basic: MetaMap, windows: Option<WindowsFacts>)
    requires SaneWindows(windows)
    ensures var m := VideoFields(name, basic, None, windows);
            windows.Some? && windows.value.dates != [] ==>
              m[Name("DateTimeOriginal")] == Str(ExifText(windows.value.dates[0]))
    ensures var m := VideoFields(name, basic, None, windows);
            windows.None? ==>
              (Name("DateTimeOriginal") in m <==> Name("DateTimeOriginal") in basic) &&
              (Name("FileSourceFromName") in m <==> Name("FileSourceFromName") in basic) &&
              m[Name("MediaType")] == Str("Video")
  {}

  /** For the whole branch: a video whose bare name carries a date has that
      date, to the second, as the `DateTimeOriginal` the EXIF stage reads. */
  lemma VideoNameDateResolves(path: string, basic: MetaMap, nameEnv: FileFacts, windows: Option<WindowsFacts>)
    requires SaneFacts(nameEnv) && SaneWindows(windows)
    requires NameDate(path, nameEnv).Some?
    requires windows.Some? ==> Name("DateTimeOriginal") !in windows.value.wmic
    ensures ExifDate(VideoMetadata(path, basic, nameEnv, windows)) ==
            Some((NameDate(path, nameEnv).value.(micro := 0), "DateTimeOriginal"))
  {
    VideoDateRoundTrip(Paths.Basename(path), basic, NameDate(path, nameEnv).value, windows);
  }
}
