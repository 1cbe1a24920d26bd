# PhotoOrganizer core, modelled in Dafny

PhotoOrganizer sorts photos and videos into directories by date, camera and place. This project models the parts of it that decide things.

## What is modelled

**Metadata resolution** (core/metadata.py):
- **Extension dispatch.** `get_exif_data` picks a branch from the extension. For videos, the branch writes a date read from the file name.
- **WMIC output.** The Windows `key=value` lines are parsed, and `parse_windows_wmic_date` reads the date stamps.
- **GPS.** `get_gps_data` chooses among three GPS shapes. `get_coordinates` converts degrees, minutes and seconds, applies the hemisphere sign and rejects out-of-range values.
- **The date cascade.** `extract_image_date` tries, in this order:
  1. the bare-file-name fast path;
  2. seven EXIF fields against six `strptime` formats;
  3. the manufacturer and generic file-name patterns;
  4. the creation-time fallback.
  
  `_parse_ambiguous_date` belongs to the same cascade.
- **Cameras.** `get_camera_info` and `_deduce_from_filename` find make and model. `_format_camera_names` formats them for display.

**Destination planning** (core/file_operations.py):
- the date-directory layouts of `create_date_based_directory`;
- the date, camera, place nesting of `run_smart_organization`, with its duplicate-name loop, result counters and progress values;
- the anchored zones of `group_files_by_location`;
- the place name `get_location_name` builds from an address;
- the directory naming and renaming of `organize_by_location`.

**Utility state machines**, each a state record with transition functions:
- the dotted-path configuration store with its recent folders, presets and API keys (utils/config_manager.py);
- the rollback journal over an abstract set of existing paths (utils/rollback_utils.py);
- duplicate detection over abstract hash functions (utils/hash_utils.py);
- the metadata cache with its validity rule and counters (utils/metadata_cache.py);
- the operation preview with its statistics and duplicate-destination check (utils/preview_utils.py);
- file-name normalisation and the extension filter (utils/file_utils.py).

### Python built-ins

Several Python built-ins are modelled as far as the core uses them:
- **`datetime.strptime`**: a backtracking matcher over the directive regular expressions of CPython's `_strptime`, followed by the range checks of the `datetime` constructor, on ASCII text. It lives in `Strptime` and `Calendar`.
- **`os.path`** (`Paths`): `join`, `basename`, `dirname` and `splitext`, for POSIX paths.
- **String methods** (`Text`): `strip`, `split`, `replace`, `title`, `lower` and `upper`, on ASCII text.
- **`re.search`** (`FilenamePatterns`): leftmost-match search, with every pattern of the source written as a recogniser over ASCII character classes.

### What is passed in as parameters

Everything the code gets from outside is a parameter:
- the metadata map the extraction chain returns;
- whether a file exists, and its stat;
- the clock;
- hash digests;
- the distance function and the geocoder's answer;
- `ast.literal_eval` and `float()` on strings.

Three details of the code are easy to miss:
- An EXIF date reports origin `EXIF:<field>`, with `EXIF` in upper case (core/metadata.py:1194).
- The creation time always wins the last-resort fallback. `hasattr(os.path, 'getctime')` always holds, so the branch that reads the modification time is never taken (core/metadata.py:1347-1356).
- The Pixel pattern of the manufacturer table needs nine time digits (core/metadata.py:1238). A `PXL_` name with six time digits therefore falls through to the Samsung pattern.

## Model

| member | source | states |
|---|---|---|
| Calendar.Make | core/metadata.py:267 | `datetime(...)` succeeds exactly when every field is in range (month 1-12, day within the month, leap years included), and then carries the given fields |
| Calendar.MakeDate | core/metadata.py:1787-1800 | `datetime(y, m, d)` exists exactly for a real calendar day, and is midnight of that day |
| WindowsMetadata.ParseWmicDate | core/metadata.py:245-271 | whatever the parser accepts is a valid datetime |
| WindowsMetadata.SixDigits | core/metadata.py:265 | the fraction is cut to six digits or right-padded with zeros to six |
| WindowsMetadata.ParseWmicLayout | core/metadata.py:257-267 | any text laid out as `yyyymmddHHMMSS.ffffff` for a date, followed by a non-digit or nothing, parses to exactly that date |
| WindowsMetadata.WmicRoundTrip | core/metadata.py:245-271 | parsing the text WMIC writes for a date gives that date back, whatever non-digit suffix (a time-zone offset) follows |
| WindowsMetadata.WmicLine | core/metadata.py:170-173 | a line yields a key/value pair exactly when it contains `=` |
| WindowsMetadata.WmicPairsLast | core/metadata.py:169-173 | when a key is defined on several lines, the last of them supplies the value |
| WindowsMetadata.WmicPairsKeys | core/metadata.py:169-173 | a key is reported exactly when some line defines it |
| WindowsMetadata.WmicConvertText | core/metadata.py:176-184 | every reported key keeps its text, apart from the two derived date keys |
| WindowsMetadata.WmicConvertDates | core/metadata.py:176-184 | `CreationDateTime` / `LastModifiedDateTime` hold the parsed dates when the source stamps parse, and no other key holds a date |
| Formats.Dispatch | core/metadata.py:542-551 | a missing file, and only a missing file, takes the empty-result branch |
| Formats.DispatchByList | core/metadata.py:90-95 | each branch (JPEG, video, HEIC, RAW) is taken exactly for its own extension list, and the standard branch for everything else, so the order of the tests does not matter |
| Formats.ListsDisjoint | core/metadata.py:90-95 | the JPEG, video, HEIC and RAW lists share no extension |
| Formats.StandardListRouting | core/metadata.py:90-95 | of the standard list, the JPEG spellings take the JPEG branch and the rest the standard branch |
| Formats.DispatchIgnoresCase | core/metadata.py:547 | two paths whose extensions agree once lower-cased take the same branch |
| Formats.VideoFields | core/metadata.py:651-697 | the video branch always sets `MediaType` and never loses a key of the basic attributes |
| Formats.VideoPixelTags | core/metadata.py:659-663 | a `PXL_` video carries the Google Pixel tags; any other name leaves those keys as the basic map had them |
| Formats.VideoFieldsKeep | core/metadata.py:651-697 | the branch changes no key apart from the three it writes and those WMIC reports |
| Formats.VideoDateRoundTrip | core/metadata.py:667-671 | the `DateTimeOriginal` written from a video's name is read back by the EXIF stage as that date, to the second |
| Formats.VideoDateFallback | core/metadata.py:675-690 | without a name date, the earliest Windows date fills `DateTimeOriginal`; off Windows the field is whatever the basic map held |
| Formats.VideoNameDateResolves | core/metadata.py:667-671 | end to end: a video whose bare name carries a date gets that date, to the second, as its EXIF date |
| Formats.NameDate | core/metadata.py:667 | the date read from the name is a valid datetime |
| Formats.RenderIgnoresMicro | core/metadata.py:670 | `strftime` with a format without `%f` does not depend on the microseconds |
| Gps.TagNamesDistinct | core/metadata.py:807-839 | no two GPS tag ids share a name |
| Gps.GetGpsData | core/metadata.py:842-896 | empty metadata gives an empty GPS block |
| Gps.GpsInfoPrecedence | core/metadata.py:858-876 | a `'GPSInfo'` entry decides the result on its own, whatever else the map holds |
| Gps.GpsIfdPrecedence | core/metadata.py:879-886 | without `'GPSInfo'`, a truthy GPS IFD entry (tag 0x8825) shadows the flat tags |
| Gps.GpsInfoOtherShape | core/metadata.py:858-876 | a `'GPSInfo'` that is neither a dict nor a string gives an empty block, even when other GPS data is present |
| Gps.RenamedValue | core/metadata.py:862-865 | a GPS dict entry is found under its tag name, holding its value |
| Gps.FlatTagValue | core/metadata.py:889-894 | in the flat case a tag is reported under its name, the numeric key winning over the name when both are present |
| Gps.FlatGpsValue | core/metadata.py:889-894 | every GPS tag present in a flat map comes out under its name with that value |
| Gps.FlatOnlyTagNames | core/metadata.py:889-894 | the flat case reports nothing but GPS tag names |
| Gps.Degrees | core/metadata.py:923-935 | a value that is not a three-element sequence converts as a whole through `float` |
| Gps.DmsDegrees | core/metadata.py:927-931 | a three-element value converts as d + m/60 + s/3600 |
| Gps.GetCoordinates | core/metadata.py:898-963 | any pair returned lies within ±90 latitude and ±180 longitude, and comes from present, truthy latitude and longitude data |
| Gps.FalsyLatitude | core/metadata.py:920-921 | a missing or falsy latitude gives no coordinates |
| Gps.ZeroLatitude | core/metadata.py:920-921 | a latitude of exactly 0 counts as missing |
| Gps.SouthNegates | core/metadata.py:945-948 | `'S'` or `'s'` in place of `'N'` negates the latitude and changes nothing else |
| Gps.WestNegates | core/metadata.py:950-953 | `'W'` or `'w'` in place of `'E'` negates the longitude and changes nothing else |
| Gps.NoClamping | core/metadata.py:956-959 | an out-of-range pair is rejected, never clamped; an in-range pair is returned exactly |
| Gps.SouthWestDms | core/metadata.py:923-959 | a southern, western DMS position comes back as the negated decimal degrees |
| FilenamePatterns.MatchAt | core/metadata.py:1106-1118 | a pattern that matches reports as many groups as it has |
| FilenamePatterns.DigitRun | core/metadata.py:1313 | a greedy `\d+` takes every digit up to the first non-digit |
| FilenamePatterns.CompactGroups | core/metadata.py:1109 | `(\d{8})_(\d{6})` captures eight digits and six digits |
| FilenamePatterns.Search | core/metadata.py:1123 | `re.search` reports the leftmost position where the pattern matches, with its groups, and nothing when it matches nowhere |
| FilenamePatterns.SearchAt | core/metadata.py:1123 | a match with none before it is exactly what the search reports |
| Strptime.Alternatives | core/metadata.py:1193 | every alternative of a directive's regular expression consumes at least one character |
| Strptime.CandidatesInLang | core/metadata.py:1193 | every end position the engine tries for a directive delimits a word of that directive's language |
| Strptime.MatchFromParsed | core/metadata.py:1193 | what the matcher returns is a parse: one capture per directive, each in its language, spelling out the text |
| Strptime.Parse | core/metadata.py:1193 | a parsed date is valid, and the format's match covers the whole text, so no unconverted data remains |
| Strptime.MonthIndex | core/metadata.py:1309 | `%b` reads each month abbreviation as its own month |
| Strptime.ParseRender | core/metadata.py:1193 | `strptime` inverts zero-padded `strftime` for every valid date whose fields the format names |
| DateResolver.IntOf | core/metadata.py:1313 | `int(w)` succeeds exactly on a non-empty digit string, with its decimal value |
| DateResolver.ParseAmbiguousDate | core/metadata.py:1787-1800 | any date returned is a valid datetime |
| DateResolver.AmbiguousDayFirst | core/metadata.py:1793-1794 | day-month-year wins whenever it names a real date |
| DateResolver.AmbiguousSwap | core/metadata.py:1795-1800 | month-day-year is tried only when day-month-year is no date, and nothing is returned when neither is |
| DateResolver.GenericPlainRange | core/metadata.py:1312-1315 | a bare `YYYYMMDD` gives midnight of a real date in 1900-2100, and every such date is accepted |
| DateResolver.Interpret | core/metadata.py:1216-1262 | every pattern's parser yields only valid datetimes |
| DateResolver.Evaluate | core/metadata.py:1123-1133 | a pattern yields a date only when it occurs in the name |
| DateResolver.FirstPattern | core/metadata.py:1121-1133 | the first pattern in table order that yields a date wins; none before it yields one |
| DateResolver.FirstPatternHead | core/metadata.py:1121-1133 | a date from the first pattern decides the result |
| DateResolver.VendorEntryDate | core/metadata.py:1268-1285 | a manufacturer's patterns yield only valid dates |
| DateResolver.VendorDate | core/metadata.py:1266-1290 | the first manufacturer in table order with a pattern that yields a date wins; with no result, none yields one |
| DateResolver.FieldDate | core/metadata.py:1185-1199 | an EXIF field yields a date only when it holds a string, and then from the first of the six formats that parses it |
| DateResolver.ExifDate | core/metadata.py:1169-1202 | the first field in priority order that yields a date wins, and is named in the origin |
| DateResolver.FastPathDate | core/metadata.py:1097-1143 | the fast path yields only valid dates |
| DateResolver.ExifStage | core/metadata.py:1158-1167 | the EXIF stage yields only valid dates |
| DateResolver.GenericDate | core/metadata.py:1319-1340 | the generic patterns yield only valid dates |
| DateResolver.ExtractImageDate | core/metadata.py:1062-1372 | the resolver returns only valid datetimes |
| DateResolver.ExtractDate | core/metadata.py:1370-1372 | without origin information, the result is the same date |
| DateResolver.FastPathDecides | core/metadata.py:1097-1143 | a fast-path date decides the result with origin `filename`, whatever the file system, EXIF or fallback flag say |
| DateResolver.BareCompactName | core/metadata.py:1097-1143 | every bare `YYYYMMDD_HHMMSS...` name resolves to its own date from the file name |
| DateResolver.ExampleBareSamsungName | core/metadata.py:1097-1143 | `20240315_143000.jpg` gives 2024-03-15 14:30:00 with origin `filename` |
| DateResolver.FilenameOrigin | core/metadata.py:1128 | origin `filename` occurs exactly when the fast path succeeds, which needs a path without a directory |
| DateResolver.ExifOrigin | core/metadata.py:1183-1202 | an EXIF origin names one of the seven fields, holding a string, of an existing file that missed the fast path |
| DateResolver.VendorOrigin | core/metadata.py:1266-1290 | a manufacturer origin means earlier stages failed and one of its patterns occurs in the file name |
| DateResolver.GenericOrigin | core/metadata.py:1319-1340 | a generic origin means every manufacturer failed and a generic pattern occurs in the name |
| DateResolver.CreationOrigin | core/metadata.py:1343-1363 | the creation time is used exactly when every other stage failed, the fallback is on and the file exists; otherwise the result is empty exactly when everything failed |
| DateResolver.FallbackOnlyAdds | core/metadata.py:1343 | turning the fallback on never changes a result found without it |
| DateResolver.MissingFileIgnoresExif | core/metadata.py:1158 | for a missing file the metadata makes no difference, and neither EXIF nor the creation time is the origin |
| DateResolver.ExifBeatsFilename | core/metadata.py:1213 | once EXIF yields a date, no file-name pattern beyond the fast path matters |
| DateResolver.OriginalFieldRoundTrip | core/metadata.py:1169-1202 | a `DateTimeOriginal` written as `%Y:%m:%d %H:%M:%S` is read back exactly |
| DateResolver.ExifStampResolves | core/metadata.py:1158-1213 | for an existing file missing the fast path, a readable `DateTimeOriginal` decides date and origin |
| DateResolver.CompactStampShape | core/metadata.py:1109 | a rendered `%Y%m%d_%H%M%S` is eight digits, `_`, six digits |
| DateResolver.CompactCovers | core/metadata.py:1109 | `%Y%m%d_%H%M%S` names every field but the microseconds |
| DateResolver.StampCovers | core/metadata.py:1176-1179 | the EXIF stamp formats name every field, and the microseconds with `.%f` |
| DateResolver.ParseCompactGroups | core/metadata.py:1220 | the captures of a rendered compact stamp parse back to its date |
| DateResolver.SamsungExtMatch | core/metadata.py:1219 | the Samsung pattern matches a compact stamp followed by a listed extension at the end |
| DateResolver.ShortPixelMissesPixel | core/metadata.py:1238 | `PXL_YYYYMMDD_HHMMSS.<ext>` is not matched by the Pixel pattern |
| DateResolver.ShortPixelHitsSamsung | core/metadata.py:1219 | the Samsung pattern reads that name's date |
| DateResolver.SamsungFirst | core/metadata.py:1216-1290 | a Samsung date decides the manufacturer stage |
| DateResolver.ShortPixelNameIsSamsung | core/metadata.py:1219-1238 | such a Pixel name in a directory, without an EXIF date, resolves with origin `filename:samsung` |
| DateResolver.ExampleShortPixelName | core/metadata.py:1219-1238 | `photos/PXL_20230602_120000.jpg` gives 2023-06-02 12:00:00 from the Samsung pattern |
| CameraInfo.RawField | core/metadata.py:1403-1426 | a missing field is `Unknown`; a present one contains no `_` and has its stripped length |
| CameraInfo.RawFieldKept | core/metadata.py:1403-1426 | a clean text field is taken unchanged |
| CameraInfo.IndependentDefaults | core/metadata.py:1403-1422 | make and model default to `Unknown` independently of each other |
| CameraInfo.NameOf | core/metadata.py:1430 | when a path is given, the name the rules look at is its last component and holds no `/` |
| CameraInfo.Keep | core/metadata.py:1434 | only an `Unknown` field takes the guess |
| CameraInfo.WordRun | core/metadata.py:1438 | a greedy `\w+` takes every word character up to the first other one |
| CameraInfo.FillFromName | core/metadata.py:1429-1465 | the name rules keep a known make, and keep a known model except for a Pixel video name |
| CameraInfo.FillOnlyUnknown | core/metadata.py:1429-1465 | end to end, the name fills only `Unknown` fields, the Pixel video model being the one exception |
| CameraInfo.KnownFieldsKept | core/metadata.py:1429 | with both fields known, the name is never consulted |
| CameraInfo.PixelNameApart | core/metadata.py:1438-1465 | a `PXL_` name is never a Samsung or iPhone name |
| CameraInfo.PixelVideoOverride | core/metadata.py:1460-1465 | `PXL_..._.mp4` forces `Google` / `Pixel Video` over a model read from the metadata once the make is missing |
| CameraInfo.SamsungDateGuard | core/metadata.py:1438-1457 | a Samsung-shaped name fills the missing fields exactly when its date passes the loose check |
| CameraInfo.DeduceCases | core/metadata.py:1473-1498 | `_deduce_from_filename` guesses Apple, Google, Pixel Video or Samsung exactly for its own name shapes, and `Unknown` otherwise |
| CameraInfo.DeduceLooserThanFill | core/metadata.py:1491 | every name `get_camera_info` takes for a Samsung one is one for `_deduce_from_filename` too, even when the date check rejects it |
| CameraInfo.GetCameraInfo | core/metadata.py:1394-1400 | empty metadata with no path gives `Unknown` / `Unknown` |
| CameraInfo.TryGetCameraInfo | core/metadata.py:1394-1433 | the lookup fails exactly when no path is given, metadata is present, a field is still `Unknown` and `FileName` holds something other than text; with a path or empty metadata it always succeeds |
| CameraInfo.ShownUnknownMake | core/metadata.py:1467-1469 | with display formatting on, a missing make still reads `Unknown` |
| CameraFormat.Title | core/metadata.py:1512-1513 | `str.title` keeps the length |
| CameraFormat.TitleFromChars | core/metadata.py:1512-1513 | title-casing changes only the case of letters, and a letter ends up upper case exactly when no letter precedes it |
| CameraFormat.TitleNoCapitalPair | core/metadata.py:1512-1513 | title-cased text never has a capital right after a letter |
| CameraFormat.TitleConcat | core/metadata.py:1512-1513 | title-casing works piece by piece |
| CameraFormat.TitleLetters | core/metadata.py:1512-1513 | a run of letters is title-cased as one word |
| CameraFormat.TitleTwoWords | core/metadata.py:1512-1513 | two words around blanks are title-cased word by word |
| CameraFormat.Capitalize | core/metadata.py:1577 | `str.capitalize` changes only the case of letters |
| CameraFormat.FormatPart | core/metadata.py:1572-1577 | formatting an alphanumeric run changes only the case of its letters |
| CameraFormat.RunLength | core/metadata.py:1563-1579 | the split takes maximal runs, alternately alphanumeric and separator |
| CameraFormat.FormatWord | core/metadata.py:1563-1579 | a formatted word differs from the original only in letter case |
| CameraFormat.CapitalisedWordKept | core/metadata.py:1572-1577 | a capitalised word of five letters or more is kept |
| CameraFormat.ShortWordUpper | core/metadata.py:1572-1577 | an alphanumeric word of four characters or fewer is upper-cased whole |
| CameraFormat.ReformatTwoWords | core/metadata.py:1553-1616 | two words are formatted one by one and joined by a single blank |
| CameraFormat.SpecialsOnlyDslr | core/metadata.py:1603-1621 | of the special-word replacements only `Dslr` to `DSLR` changes anything |
| CameraFormat.SmKeysUnreachable | core/metadata.py:1531-1540 | the `SM-S911...` model keys can never match a title-cased input |
| CameraFormat.PixelModelsCollapse | core/metadata.py:1541-1550 | `Pixel 6` through `Pixel 8 Pro` all display as `Pixel` |
| CameraFormat.UnknownStays | core/metadata.py:1512-1513 | an empty field, or one reading `Unknown`, stays `Unknown` |
| CameraFormat.FirstPass | core/metadata.py:1500-1623 | `GOOGLE  INC` (two blanks) misses the table and formats to `Google INC` |
| CameraFormat.SecondPass | core/metadata.py:1500-1623 | `Google INC` hits the `Google Inc` entry and formats to `Google` |
| CameraFormat.FormatNotIdempotent | core/metadata.py:1500-1623 | formatting twice can differ from formatting once |
| Destination.LayoutNamed | core/file_operations.py:842-857 | only the seven known `format_type` strings select a non-default layout |
| Destination.YearText | core/file_operations.py:837 | `str(year)` is decimal digits worth the year |
| Destination.MonthText | core/file_operations.py:838 | the month is two digits worth the month |
| Destination.DayText | core/file_operations.py:839 | the day is two digits worth the day |
| Destination.DateSegments | core/file_operations.py:842-857 | every layout makes one to three plain directory names without `/` |
| Destination.SameDirectoryIff | core/file_operations.py:842-857 | two dates share a directory exactly when they agree on the fields the layout shows |
| Destination.DefaultLayout | core/file_operations.py:856-857 | an unknown format gives `YYYY/MM/YYYY_MM_DD` |
| Destination.DateDirectoryBasename | core/file_operations.py:842-857 | the last layout segment is the basename of the date directory |
| Destination.OnlySwitchesMatter | core/file_operations.py:627-687 | only the three switches shape the target; `date_format` and `criteria_order` are never read |
| Destination.NestingOrder | core/file_operations.py:627-687 | with every switch on, the nesting is the default date layout, then `make model`, then place |
| Destination.NoOptionsFlat | core/file_operations.py:627-663 | missing switches read as off, so the target is the base directory |
| Destination.CandidateInjective | core/file_operations.py:701 | different counters give different candidate names |
| Destination.Tried | core/file_operations.py:700-703 | the candidates tried are exactly `base_1ext` to `base_next` |
| Destination.TriedSize | core/file_operations.py:700-703 | n counters try n distinct names |
| Destination.TakenBound | core/file_operations.py:700-703 | only as many candidates as there are existing files can be taken, so the loop ends |
| Destination.FirstFree | core/file_operations.py:699-703 | the counter found is free and every one before it is taken |
| Destination.FirstFreeIs | core/file_operations.py:699-703 | the first free counter is unique |
| Destination.FreeDestination | core/file_operations.py:695-705 | the destination is never an existing file, and is the plain name when that is free |
| Destination.ResolveCollision | core/file_operations.py:695-705 | the loop as written ends on the first free numbered candidate |
| Destination.LocationDestination | core/file_operations.py:1075-1077 | the renaming of `organize_by_location`: one numbered attempt, counted by files processed |
| Destination.LocationRenameCollides | core/file_operations.py:1075-1077 | that single attempt can land on an existing file |
| Destination.LocationDestinationFixed | core/file_operations.py:1075-1077 | the corrected renaming never lands on an existing file |
| Organizer.CountDone | core/file_operations.py:729 | no more files are done than were given |
| Organizer.Messages | core/file_operations.py:202-208 | one message per file that is not done |
| Organizer.StepOne | core/file_operations.py:202-208 | each file adds its own count and message |
| Organizer.Progress | core/file_operations.py:196-199 | one progress value per file, `i / n * 100`, sent before the file is checked |
| Organizer.ProgressRises | core/file_operations.py:196-199 | progress starts at 0, rises strictly and stays below 100 |
| Organizer.Organise | core/file_operations.py:177-743 | `skipped` is 0, and `processed + errors == total`, with `processed` the number of done files |
| Organizer.RunSmartOrganization | core/file_operations.py:135-183 | empty input gives all zeros and one message; an unwritable target counts every file as an error; otherwise the loop's counts hold |
| Organizer.AllDoneNoMessages | core/file_operations.py:731-743 | a run where every file is done has no error messages |
| Location.WithCoords | core/file_operations.py:886-896 | exactly the files with coordinates, in order |
| Location.WithoutCoords | core/file_operations.py:886-896 | exactly the files without coordinates |
| Location.Sweep | core/file_operations.py:919-929 | each file swept into a zone is unplaced, later in the list, and within range of the anchor |
| Location.Zones | core/file_operations.py:907-932 | zone ids count up without gaps, and no zone is empty |
| Location.ZonesFresh | core/file_operations.py:903-932 | no file lands in two zones or twice in one |
| Location.ZonesCover | core/file_operations.py:903-932 | every file with coordinates ends up in a zone |
| Location.ZonesPartition | core/file_operations.py:903-932 | the zones partition exactly the files with coordinates |
| Location.ZonesNearAnchor | core/file_operations.py:924-929 | every zone member is within range of the zone's first file |
| Location.GroupByLocation | core/file_operations.py:863-938 | an empty input list fails, and only an empty one |
| Location.NoCoordinatesOneGroup | core/file_operations.py:899-900 | without any coordinates there is one group holding every file, in order |
| Location.GroupsLayout | core/file_operations.py:903-936 | zones `zone_0`, `zone_1`, ... come first, then one group for the files without coordinates when there are any |
| Location.ZoneNameApart | core/file_operations.py:912-936 | no zone is named like the no-coordinates group |
| Location.FirstOf | core/file_operations.py:975-984 | the value of the first key present, and nothing exactly when none is |
| Location.Components | core/file_operations.py:966-984 | at most three parts, each taken from the address |
| Location.PlaceName | core/file_operations.py:966-995 | address parts decide the name when there are any; otherwise the display name, at most 80 characters |
| Location.LongDisplayName | core/file_operations.py:993-994 | a long display name keeps 77 characters and gains `...` |
| Location.CityPrecedence | core/file_operations.py:975-978 | a city wins over a town, a town over a village |
| Location.Sanitise | core/file_operations.py:1051 | the forbidden characters become `_` and nothing else changes |
| Location.CleanName | core/file_operations.py:1051-1052 | a cleaned name has no forbidden character and at most 80 characters |
| Location.CleanNameIdempotent | core/file_operations.py:1051-1052 | cleaning twice is cleaning once |
| Location.PlaceDirectoryDirectlyUnderRoot | core/file_operations.py:1051-1055 | a place directory sits directly under the destination root |
| Paths.Basename | core/file_operations.py:189 | a basename holds no `/` and ends the path |
| Paths.Dirname | core/file_operations.py:30 | a dirname is a prefix of the path |
| Paths.Join | core/file_operations.py:690 | the joined path ends with the joined name |
| Paths.Splitext | core/file_operations.py:698 | stem and extension spell the path, and the extension starts at a dot and holds no other dot |
| Paths.BasenameOfJoin | core/file_operations.py:690 | a plain name joined under a directory is that path's basename |
| Paths.DirnameOfJoin | core/file_operations.py:690 | the dirname of that path is the directory |
| ConfigStore.LoadConfig | utils/config_manager.py:63-78 | a loaded JSON object is merged over the defaults, and no default key is ever missing |
| ConfigStore.MergeKeys | utils/config_manager.py:80-87 | the merge has the keys of both sides |
| ConfigStore.MergeUserLeaves | utils/config_manager.py:80-87 | a non-dict user value ends up where the user put it, at any depth |
| ConfigStore.MergeKeepsDefaults | utils/config_manager.py:80-87 | a default the user does not reach or cut off survives the merge |
| ConfigStore.Keys | utils/config_manager.py:117 | a dotted path has at least one key |
| ConfigStore.WalkFailsIff | utils/config_manager.py:117-126 | following a key path fails exactly when some step meets a non-dictionary or a missing key |
| ConfigStore.GetFallsBack | utils/config_manager.py:106-126 | `get` returns the default exactly when the path breaks off, and otherwise the value at its end |
| ConfigStore.SetSucceedsIff | utils/config_manager.py:128-146 | `set` fails exactly when a proper prefix of the path holds a non-dict |
| ConfigStore.SetThenGet | utils/config_manager.py:117-146 | after a successful `set`, walking the path gives the value |
| ConfigStore.SetGetDotted | utils/config_manager.py:106-146 | the same through the dotted-string interface, whatever the default |
| ConfigStore.SetLeavesOthers | utils/config_manager.py:136-146 | paths that part ways with the one set are unchanged |
| ConfigStore.RemoveFirst | utils/config_manager.py:163-164 | `list.remove` drops one entry when present and nothing otherwise |
| ConfigStore.TakePy | utils/config_manager.py:170 | `s[:n]` is a prefix of length `min(n, len)` |
| ConfigStore.RemoveFirstDistinct | utils/config_manager.py:163-164 | on a list without repeats, removal leaves exactly the other entries, in order |
| ConfigStore.PushRecentFront | utils/config_manager.py:157-170 | the path comes first and once, at most `max_items` entries remain, and the others keep their order |
| ConfigStore.AddRecentFolder | utils/config_manager.py:148-170 | an unknown folder type is a no-op; otherwise the list exists and starts with the path |
| ConfigStore.GetRecentFolders | utils/config_manager.py:172-182 | an absent list reads as empty |
| ConfigStore.DefaultsAcceptRecent | utils/config_manager.py:33-36 | the defaults carry both recent lists |
| ConfigStore.SavePreset | utils/config_manager.py:184-192 | saving succeeds exactly when there is a preset dictionary, and then stores the data under that name, leaving the other presets alone |
| ConfigStore.GetPreset | utils/config_manager.py:194-204 | a preset is found exactly when one is stored under that name; an unknown name gives `None` |
| ConfigStore.DeletePreset | utils/config_manager.py:206-219 | the name is deleted, and `True` returned, exactly when the preset dictionary holds it; a `False` answer changes nothing; a missing `organization_presets` raises, and a value that is not a dict answers only when it is a list or string that does not hold the name |
| ConfigStore.DeleteWithoutDict | utils/config_manager.py:194-219 | for a value that is not a dict, `delete_preset` answers `False` for a list or string not holding the name and raises otherwise, while `get_preset` always raises |
| ConfigStore.DeleteFromEmpty | utils/config_manager.py:215-219 | an empty list, which the merge keeps, answers `False` for every name; an empty string does too, except for the empty name |
| ConfigStore.ListPresets | utils/config_manager.py:221-223 | the names listed are exactly the presets `get_preset` finds |
| ConfigStore.SaveThenGet | utils/config_manager.py:184-204 | a saved preset reads back, and the others are unchanged |
| ConfigStore.DeleteReports | utils/config_manager.py:206-219 | delete reports whether the name was there, and removes it alone |
| ConfigStore.GetApiKey | utils/config_manager.py:225-235 | a service never set reads `''` |
| ConfigStore.SetApiKey | utils/config_manager.py:237-245 | setting fails exactly when the configuration has no `api_keys` dictionary |
| ConfigStore.ApiKeyRoundTrip | utils/config_manager.py:225-245 | a key that was set reads back; on the defaults every key reads `''` |
| Rollback.StartSession | utils/rollback_utils.py:44-70 | a new, empty session file becomes current, with an id that starts with the timestamp |
| Rollback.RecordOperation | utils/rollback_utils.py:72-104 | a session is started if needed; the entry, unmarked, is appended to memory and to the session file |
| Rollback.EndSession | utils/rollback_utils.py:108-130 | the session state is always cleared; the file gets its end mark and the count recorded in memory |
| Rollback.RecordThenEnd | utils/rollback_utils.py:72-130 | recording into a fresh manager and ending gives a file holding exactly that operation |
| Rollback.UndoOne | utils/rollback_utils.py:200-268 | a dry run or a failure changes no file; a real move whose source has no directory part fails, since `os.makedirs('')` raises |
| Rollback.MoveBack | utils/rollback_utils.py:216-260 | a move or rename comes back exactly when the destination exists, the source is free and, for a move, the source names a directory; it touches no other path |
| Rollback.CopyBack | utils/rollback_utils.py:234-264 | a copy comes back exactly when the copy exists, and removes only it; any other kind fails |
| Rollback.UndoAll | utils/rollback_utils.py:161-188 | `rolled_back + skipped + failed == total` |
| Rollback.UndoAllMarks | utils/rollback_utils.py:173-182 | only marks change, no mark is removed, and the skipped count is the number already marked |
| Rollback.UndoAllLast | utils/rollback_utils.py:172 | the last operation is handled first, and the earlier ones see the file system it leaves |
| Rollback.UndoLast | utils/rollback_utils.py:172-185 | one loop step, with the last operation split off |
| Rollback.ChainUndone | utils/rollback_utils.py:172 | a file moved a to b then b to c, all in some directory, comes back to a in one rollback |
| Rollback.DryRunChangesNothing | utils/rollback_utils.py:181-182 | a dry run marks nothing and changes no file |
| Rollback.MarksAfterUndo | utils/rollback_utils.py:173-182 | after a real run, the marks count the skipped and the rolled-back operations |
| Rollback.FindSessionFile | utils/rollback_utils.py:401-411 | the exact file wins; anything found exists |
| Rollback.UndoSession | utils/rollback_utils.py:144-188 | the session rolled back is one of the journal's files |
| Rollback.RollbackSessionAsWritten | utils/rollback_utils.py:132-198 | as written: a dry run changes nothing |
| Rollback.RollbackSession | utils/rollback_utils.py:132-198 | corrected: the counts add up; a dry run or an error changes nothing |
| Rollback.CurrentSessionAgrees | utils/rollback_utils.py:191-193 | without an id the two versions agree |
| Rollback.SecondRollbackSkips | utils/rollback_utils.py:173-182 | with the corrected method, a second rollback skips everything the first skipped or rolled back |
| Rollback.RollbackByIdForgets | utils/rollback_utils.py:370-378 | as written, rolling back a non-current session twice retries its move and reports it as failed |
| Rollback.RollbackByIdRemembers | utils/rollback_utils.py:191-193 | corrected, the second pass skips it |
| Hashing.AlgorithmNamed | utils/hash_utils.py:26-36 | exactly the four lower-case names are supported |
| Hashing.FileHash | utils/hash_utils.py:26-36 | an unsupported name gives `None`; a supported one gives that algorithm's digest |
| Hashing.Matching | utils/hash_utils.py:107-148 | the paths with a given hash, in order |
| Hashing.CollectSpec | utils/hash_utils.py:114-118 | the dictionary holds, under each non-empty hash, exactly the paths with that hash, in order, each hash once |
| Hashing.Repeated | utils/hash_utils.py:122-145 | exactly the entries with at least two paths |
| Hashing.Values | utils/hash_utils.py:122-133 | exactly the paths of all entries |
| Hashing.DuplicatesSound | utils/hash_utils.py:107-148 | every group is a non-empty hash with all its paths, at least two, and no hash twice |
| Hashing.FullScanComplete | utils/hash_utils.py:137-145 | without the quick pass, a path is reported exactly when its hash is shared |
| Hashing.UnhashedNeverGrouped | utils/hash_utils.py:115-140 | a path without a digest is in no group |
| Hashing.QuickModeInsideCollisions | utils/hash_utils.py:122-133 | in quick mode every reported path shares its quick hash with another |
| Hashing.SameHash | utils/hash_utils.py:163-169 | files match only when both digests exist |
| Hashing.SameHashSymmetric | utils/hash_utils.py:163-169 | the comparison is symmetric and is plain equality of present digests |
| Hashing.VerifyIntegrity | utils/hash_utils.py:239-244 | a missing digest never verifies |
| Hashing.VerifyIgnoresCase | utils/hash_utils.py:239-244 | verification ignores ASCII case on either side |
| Hashing.BatchHash | utils/hash_utils.py:213-224 | the keys are exactly the files whose hash succeeded, and the callback sees `(i, total)` for i = 1..total |
| MetadataCache.ValidIff | utils/metadata_cache.py:64-90 | an entry is valid exactly when the file exists, the entry is at most `ttl` old, and mtime and size match |
| MetadataCache.NoSizeNeverValid | utils/metadata_cache.py:85 | an entry without a size is never valid |
| MetadataCache.Get | utils/metadata_cache.py:96-140 | each `get` adds one request, and a result is a hit |
| MetadataCache.GetCounts | utils/metadata_cache.py:109-139 | exactly one of hits or misses goes up; a memory hit is a hit; an invalid disk entry is deleted and counted |
| MetadataCache.Set | utils/metadata_cache.py:142-180 | `set` succeeds exactly when the stat and the write do; the memory entry is stored regardless |
| MetadataCache.SetThenGet | utils/metadata_cache.py:160-169 | after `set`, an unchanged file within the time to live gets the metadata back as a memory hit |
| MetadataCache.ChangedFileMisses | utils/metadata_cache.py:77-88 | once the file changes, the entry no longer answers |
| MetadataCache.Invalidate | utils/metadata_cache.py:182-209 | the entry is gone, and the result says whether a file was removed |
| MetadataCache.InvalidateThenGet | utils/metadata_cache.py:182-209 | after `invalidate`, `get` misses |
| MetadataCache.Clear | utils/metadata_cache.py:211-234 | everything goes; the count is the number of entry files |
| MetadataCache.Stats | utils/metadata_cache.py:275-283 | `total_requests == hits + misses`, and the hit rate is between 0 and 100, and 0 with no requests |
| MetadataCache.RunCounters | utils/metadata_cache.py:96-209 | over any run, requests equal `get` calls and memory hits never outnumber hits |
| Preview.BumpCount | utils/preview_utils.py:58-60 | a count goes up by one for its key only |
| Preview.AddOperation | utils/preview_utils.py:28-70 | one entry is appended; `total_files` rises by 1 and `total_size` by its size |
| Preview.AddKeepsConsistent | utils/preview_utils.py:52-66 | the statistics keep counting the operation list |
| Preview.Clear | utils/preview_utils.py:327-336 | back to an empty, consistent preview |
| Preview.FirstTo | utils/preview_utils.py:153-171 | the first operation writing to a destination |
| Preview.FirstToStable | utils/preview_utils.py:153-171 | appending operations keeps the first writer |
| Preview.DuplicateDestinations | utils/preview_utils.py:153-171 | the loop reports exactly the reference conflicts |
| Preview.ConflictsSound | utils/preview_utils.py:156-171 | each conflict names a later operation and the first writer of its destination, in order |
| Preview.ConflictsComplete | utils/preview_utils.py:156-171 | every operation that is not the first writer of its destination is reported |
| FileFilters.Sanitize | utils/file_utils.py:84 | the first substitution keeps the length |
| FileFilters.SanitizeChars | utils/file_utils.py:84 | it keeps `[\w\s-]` and turns everything else into `_` |
| FileFilters.CollapseChars | utils/file_utils.py:87 | after it no whitespace remains |
| FileFilters.CollapseRun | utils/file_utils.py:87 | a whitespace run between two other characters becomes exactly one `_` |
| FileFilters.SubstitutedSafe | utils/file_utils.py:84-87 | after both substitutions only `\w` and `-` remain |
| FileFilters.NormalizeBase | utils/file_utils.py:80-90 | the normalised base is safe and neither starts nor ends with `_` |
| FileFilters.NormalizeFilename | utils/file_utils.py:70-93 | the extension is kept at the end and the rest is a safe base |
| FileFilters.NormalizedParts | utils/file_utils.py:80-93 | the result is the normalised base followed by the original extension |
| FileFilters.NormalizeBaseSafe | utils/file_utils.py:80-90 | a safe base is a fixed point |
| FileFilters.NormalizeIdempotent | utils/file_utils.py:70-93 | normalising again changes nothing once the base survives |
| FileFilters.NormalizeNotIdempotent | utils/file_utils.py:70-93 | `___.jpg` becomes `.jpg`, which becomes `jpg` |
| FileFilters.UpperExtNeverMatches | utils/file_utils.py:112 | an extension containing a capital never matches |
| FileFilters.Listed | utils/file_utils.py:115-118 | the non-recursive branch lists at most the listing |
| FileFilters.ListedIff | utils/file_utils.py:115-118 | exactly the regular files that match are listed |
| FileFilters.ListedAppend | utils/file_utils.py:115-118 | files come out in listing order |
| FileFilters.Matching | utils/file_utils.py:109-113 | exactly the matching names of one directory |
| FileFilters.Walked | utils/file_utils.py:109-113 | exactly the matching names of every visited directory |
| FileFilters.UpperCaseFindsNothing | utils/file_utils.py:95-120 | with only upper-case extensions nothing is found, in either branch |

## Left out
- CameraInfo.GetCameraInfo: its precondition excludes a `FileName` entry that is not text, read when no path is given; the source raises `AttributeError` there, and `CameraInfo.TryGetCameraInfo` models that outcome as `None`. Its own `ensures` covers only empty metadata; `FillOnlyUnknown`, `KnownFieldsKept`, `PixelVideoOverride`, `SamsungDateGuard` and `IndependentDefaults` state the rest.
- The regular-expression classes `\d`, `\w` and `\s`, the `strptime` directives and `int()` are modelled on ASCII text. Python applies them to Unicode, so file names or EXIF strings with non-ASCII digits or word characters (Arabic-Indic digits, accented letters) are outside the model.

- Extraction chains: PIL, exifread, pillow_heif, ExifTool and the WMIC subprocess are not modelled. Their output is an input metadata map (`FileFacts`, `WindowsFacts`), as is `os.path.getctime`.
- The path-string branch of `get_camera_info` (core/metadata.py:1390-1392) reads metadata from disk and is not modelled. `CameraInfo.GetCameraInfo` takes the metadata map.
- The dead `file:modification` branch of the fallback is not modelled, because `getctime` always exists.
- Logging (`log_message`, `setup_logging`, `safe_log`) and the debug prints are file I/O only.
- Floating point is modelled as `real`, so rounding is not modelled. `float()` and `ast.literal_eval` on strings are the parameters `parseFloat` and `literalEval`. `str()` of a non-string camera field is the parameter `show`.
- The haversine distance is the parameter `dist`, and a file's coordinates are the parameter `coordsOf`. The `Lat_...` coordinate names, `_format_size`, `estimate_time` and hit-rate rounding are not modelled.
- HTTP reverse geocoding is not modelled: the address map and display name are inputs. `organize_by_location` double-counts a file that fails after its copy, and that counting is not modelled; its per-group error handling is not modelled either.
- The general `except` of `run_smart_organization` (core/file_operations.py:754-760) is left out. The model takes each file's outcome as given.
- Copying, moving, `ensure_dir_exists`, `os.path.normpath` and the write test are not modelled. The file system is a set of paths or a yes/no input, and paths are taken as already normalised POSIX paths.
- JSON persistence of the configuration, cache and rollback files is not modelled. Files are map entries, and a file that fails to load is `None`. `_save_session` writing to the current session file is modelled, because it is the defect below.
- The md5 cache key is taken to be injective, so the cache is keyed by path. Byte hashing is the digest parameter.
- The shallow `DEFAULT_CONFIG.copy()` in the configuration store is not modelled. Its aliasing is invisible under value semantics.
- ConfigStore.ListPresets: the names are a set; the order of `list(presets.keys())` is not modelled.
- `list_sessions`, `get_session_details`, `delete_session` and `cleanup_old_sessions` of the rollback manager are not modelled: they are listing and housekeeping over files. Session-id globs are modelled for ids without wildcard characters.
- `cleanup_expired` and `get_cache_size` of the cache are not modelled, nor `get_summary`, `get_detailed_preview`, `export_to_file` and the disk-space and permission checks (`os.statvfs`, `os.access`) of the preview.
- NFKD normalisation in `normalize_filename` is not modelled: `FileFilters.NormalizeFilename` requires ASCII input.
- Clocks: session timestamps and cache times are parameters.
- The duplicate `create_date_based_directory` at core/metadata.py:1757 creates directories with a different layout and is not modelled.
- The GUI, utils/progress_utils.py, core/format_conversion.py and main.py are not modelled.
- Gps.GetGpsData: its own contract covers only empty metadata. The precedence and value lemmas (`Gps.GpsInfoPrecedence`, `Gps.FlatGpsValue` and the others) state the rest.
- DateResolver.ExtractImageDate: its own contract states only validity. The origin lemmas state which stage decides.
- Gps.FlatTags: its contract states only that every key is a GPS tag name. `Gps.FlatTagValue` and `Gps.FlatGpsValue` state the values.
- WindowsMetadata.ParseWmicDate: its own contract states only validity. The round trip is `WindowsMetadata.WmicRoundTrip`.

## Findings

| source | as written | input that shows it | evidently intended | confidence | as-written member | corrected member |
|---|---|---|---|---|---|---|
| core/file_operations.py:1075-1077 | when `dir/name` exists, one rename to `base_<processed_files>ext` is tried, without checking whether it is free | `dir/name.jpg` and `dir/name_N.jpg` both exist, with N files processed so far: the copy overwrites `dir/name_N.jpg` | the first-free search of the smart organiser | not executed | Destination.LocationRenameCollides | Destination.LocationDestinationFixed |
| utils/rollback_utils.py:191-193 | `rollback_session(id)` saves the updated session through `_save_session`, which writes to the current session file (lines 370-378), not to the file of the session named by `id` | a closed session `A` holding one move `p/s.jpg` to `p/d.jpg`, no current session, rolled back twice: the marks are lost and the second pass reports the move as failed | the rolled-back marks are stored in session `A`'s own file | not executed | Rollback.RollbackByIdForgets | Rollback.RollbackByIdRemembers |
