/** `get_gps_data` and `get_coordinates`: pick the GPS block out of a
    metadata map, whichever of three shapes it has, and turn it into a
    signed decimal latitude and longitude. Tag numbers are those of the GPS
    IFD (the IFD pointer tag 0x8825) of Exif 2.3 (CIPA DC-008),
    section 4.6.6. EXIF rationals are exact `real`s here. */
module Gps {
  import opened Wrappers
  import opened Text
  import opened MetaValues

  /** The GPS IFD pointer tag. */
  const GpsIfd: int := 0x8825

  /** `GPSTAGS`: the name of GPS tag `id` is `GpsTags[id]`, for ids 0..30. */
  const GpsTags: seq<string> := [
    "GPSVersionID", "GPSLatitudeRef", "GPSLatitude", "GPSLongitudeRef", "GPSLongitude",
    "GPSAltitudeRef", "GPSAltitude", "GPSTimeStamp", "GPSSatellites", "GPSStatus",
    "GPSMeasureMode", "GPSDOP", "GPSSpeedRef", "GPSSpeed", "GPSTrackRef",
    "GPSTrack", "GPSImgDirectionRef", "GPSImgDirection", "GPSMapDatum", "GPSDestLatitudeRef",
    "GPSDestLatitude", "GPSDestLongitudeRef", "GPSDestLongitude", "GPSDestBearingRef", "GPSDestBearing",
    "GPSDestDistanceRef", "GPSDestDistance", "GPSProcessingMethod", "GPSAreaInformation", "GPSDateStamp",
    "GPSDifferential"]

  /** No two GPS tags share a name. */
  lemma TagNamesDistinct(i: nat, j: nat)
    requires i < j < |GpsTags|
    ensures GpsTags[i] != GpsTags[j]
  {
    if j < 22 {
      TagNamesDistinctLow(i, j);
    } else {
      TagNamesDistinctHigh(i, j);
    }
  }

  lemma TagNamesDistinctLow(i: nat, j: nat)
    requires i < j < 22
    ensures GpsTags[i] != GpsTags[j]
  {}

  lemma TagNamesDistinctHigh(i: nat, j: nat)
    requires i < j && 22 <= j < |GpsTags|
    ensures GpsTags[i] != GpsTags[j]
  {}

  /** `GPSTAGS.get(k, k)`. */
  function Rename(k: Key): (r: Key)
    ensures r.Tag? ==> r == k
    ensures k.Name? ==> r == k
  {
    if k.Tag? && 0 <= k.id < |GpsTags| then Name(GpsTags[k.id]) else k
  }

  /** The dict with every key renamed, assigned in iteration order. */
  function Renamed(es: seq<(Key, Value)>): (m: MetaMap)
    ensures forall k :: k in m <==> exists j :: 0 <= j < |es| && Rename(es[j].0) == k
  {
    var rs := seq(|es|, j requires 0 <= j < |es| => (Rename(es[j].0), es[j].1));
    var m := FromEntries(rs);
    forall k | k in m ensures exists j :: 0 <= j < |es| && Rename(es[j].0) == k {
      var j :| 0 <= j < |rs| && rs[j].0 == k;
    }
    forall j | 0 <= j < |es| ensures Rename(es[j].0) in m {
      assert rs[j].0 == Rename(es[j].0);
    }
    FromEntries(rs)
  }

  /** The `'GPSInfo'` entry: a dict is renamed; a string goes through
      `ast.literal_eval` after its single quotes become double quotes
      (`literalEval`, `None` where it raises or yields no dict); anything
      else gives nothing. */
  function GpsInfoEntries(v: Value, literalEval: string -> Option<seq<(Key, Value)>>): MetaMap {
    match v
    case Dict(es) => Renamed(es)
    case Str(s) =>
      (match literalEval(Replace(s, "'", "\""))
       case Some(es) => FromEntries(es)
       case None => map[])
    case _ => map[]
  }

  /** Method 3: every GPS tag in id order, by number first, then by name;
      `names` is the tag-name table. */
  function FlatTags(exif: MetaMap, names: seq<string>, n: nat): (m: MetaMap)
    requires n <= |names|
    ensures forall k :: k in m ==> k.Name? && k.name in names
  {
    if n == 0 then map[]
    else
      var m := FlatTags(exif, names, n - 1);
      var k := Name(names[n - 1]);
      if Tag(n - 1) in exif then m[k := exif[Tag(n - 1)]]
      else if k in exif then m[k := exif[k]]
      else m
  }

  /** `get_gps_data(exif_data)`. */
  function GetGpsData(exif: MetaMap, literalEval: string -> Option<seq<(Key, Value)>>): (r: MetaMap)
    ensures exif == map[] ==> r == map[]
  {
    if exif == map[] then map[]
    else if Name("GPSInfo") in exif then GpsInfoEntries(exif[Name("GPSInfo")], literalEval)
    else if Tag(GpsIfd) in exif && Truthy(exif[Tag(GpsIfd)]) then
      (match exif[Tag(GpsIfd)]
       case Dict(es) => Renamed(es)
       case _ => map[])
    else FlatTags(exif, GpsTags, |GpsTags|)
  }

  // ---------------------------------------------------------------------
  // get_coordinates

  /** `float(value)` on one value: a number is itself, a boolean is 0 or 1,
      a string goes through `parseFloat` (`None` where Python raises, and
      also for the NaN and infinite values that the range check would
      reject anyway); anything else raises. */
  function Float(v: Value, parseFloat: string -> Option<real>): Option<real> {
    match v
    case Num(r) => Some(r)
    case Bool(b) => Some(if b then 1.0 else 0.0)
    case Str(s) => parseFloat(s)
    case _ => None
  }

  /** `convert_to_degrees`: a three-element sequence is degrees, minutes and
      seconds; any other value is converted as a whole. */
  function Degrees(v: Value, parseFloat: string -> Option<real>): (r: Option<real>)
    ensures !(v.Items? && |v.items| == 3) ==> r == Float(v, parseFloat)
  {
    if v.Items? && |v.items| == 3 then
      match (Float(v.items[0], parseFloat), Float(v.items[1], parseFloat), Float(v.items[2], parseFloat))
      case (Some(d), Some(m), Some(s)) => Some(d + m / 60.0 + s / 3600.0)
      case _ => None
    else Float(v, parseFloat)
  }

  function LatData(gps: MetaMap): Value {
    Get(gps, Name("GPSLatitude"), Get(gps, Tag(2), Null))
  }

  function LatRef(gps: MetaMap): Value {
    Get(gps, Name("GPSLatitudeRef"), Get(gps, Tag(1), Str("N")))
  }

  function LonData(gps: MetaMap): Value {
    Get(gps, Name("GPSLongitude"), Get(gps, Tag(4), Null))
  }

  function LonRef(gps: MetaMap): Value {
    Get(gps, Name("GPSLongitudeRef"), Get(gps, Tag(3), Str("E")))
  }

  /** The hemisphere sign: a string reference equal to `neg` once
      upper-cased flips the value; any other reference leaves it. */
  function Signed(x: real, ref: Value, neg: string): real {
    if ref.Str? && UpperStr(ref.s) == neg then -x else x
  }

  /** `get_coordinates(gps_info)`; `None` stands for `(None, None)`. */
  function GetCoordinates(gps: MetaMap, parseFloat: string -> Option<real>): (r: Option<(real, real)>)
    ensures r.Some? ==> -90.0 <= r.value.0 <= 90.0 && -180.0 <= r.value.1 <= 180.0
    ensures r.Some? ==> gps != map[] && Truthy(LatData(gps)) && Truthy(LonData(gps))
  {
    if gps == map[] then None
    else if !(Truthy(LatData(gps)) && Truthy(LonData(gps))) then None
    else
      match (Degrees(LatData(gps), parseFloat), Degrees(LonData(gps), parseFloat))
      case (Some(la), Some(lo)) =>
        var lat := Signed(la, LatRef(gps), "S");
        var lon := Signed(lo, LonRef(gps), "W");
        if -90.0 <= lat <= 90.0 && -180.0 <= lon <= 180.0 then Some((lat, lon)) else None
      case _ => None
  }

  // ---------------------------------------------------------------------
  // properties

  /** `'GPSInfo'` shadows everything else: two maps holding the same
      `'GPSInfo'` value give the same GPS block, whatever else they hold. */
  lemma GpsInfoPrecedence(a: MetaMap, b: MetaMap, literalEval: string -> Option<seq<(Key, Value)>>)
    requires Name("GPSInfo") in a && Name("GPSInfo") in b && a[Name("GPSInfo")] == b[Name("GPSInfo")]
    ensures GetGpsData(a, literalEval) == GetGpsData(b, literalEval)
  {}

  /** Without `'GPSInfo'`, a truthy GPS IFD entry shadows the flat tags. */
  lemma GpsIfdPrecedence(a: MetaMap, b: MetaMap, literalEval: string -> Option<seq<(Key, Value)>>)
    requires Name("GPSInfo") !in a && Name("GPSInfo") !in b
    requires Tag(GpsIfd) in a && Tag(GpsIfd) in b && a[Tag(GpsIfd)] == b[Tag(GpsIfd)]
    requires Truthy(a[Tag(GpsIfd)])
    ensures GetGpsData(a, literalEval) == GetGpsData(b, literalEval)
  {}

  /** A `'GPSInfo'` that is neither a dict nor a string yields nothing, even
      when the GPS IFD or flat tags are present. */
  lemma GpsInfoOtherShape(exif: MetaMap, literalEval: string -> Option<seq<(Key, Value)>>)
    requires Name("GPSInfo") in exif && !exif[Name("GPSInfo")].Dict? && !exif[Name("GPSInfo")].Str?
    ensures GetGpsData(exif, literalEval) == map[]
  {}

  /** A GPS dict entry is found under its tag name, holding its value,
      provided no other entry of the dict renames to the same key. */
  lemma {:induction false} RenamedValue(es: seq<(Key, Value)>, j: nat)
    requires j < |es|
    requires forall q :: 0 <= q < |es| && q != j ==> Rename(es[q].0) != Rename(es[j].0)
    ensures Rename(es[j].0) in Renamed(es) && Renamed(es)[Rename(es[j].0)] == es[j].1
  {
    var rs := seq(|es|, i requires 0 <= i < |es| => (Rename(es[i].0), es[i].1));
    assert Renamed(es) == FromEntries(rs);
    FromEntriesLast(rs, j);
  }

  /** In the flat case, tag `id` is reported under its name, taken from the
      numeric key when both spellings are present (for any table whose later
      names differ from that of `id`). */
  lemma {:induction false} FlatTagValue(exif: MetaMap, names: seq<string>, n: nat, id: nat)
    requires id < n <= |names|
    requires forall q :: id < q < n ==> names[q] != names[id]
    requires Tag(id) in exif || Name(names[id]) in exif
    ensures Name(names[id]) in FlatTags(exif, names, n)
    ensures FlatTags(exif, names, n)[Name(names[id])] ==
            (if Tag(id) in exif then exif[Tag(id)] else exif[Name(names[id])])
    decreases n
  {
    if id < n - 1 {
      FlatTagValue(exif, names, n - 1, id);
      FlatTagsStep(exif, names, n, Name(names[id]));
    }
  }

  /** A key other than the `n`-th tag's name keeps its value from the
      first `n - 1` tags. */
  lemma FlatTagsStep(exif: MetaMap, names: seq<string>, n: nat, k: Key)
    requires 0 < n <= |names| && k != Name(names[n - 1]) && k in FlatTags(exif, names, n - 1)
    ensures k in FlatTags(exif, names, n) && FlatTags(exif, names, n)[k] == FlatTags(exif, names, n - 1)[k]
  {}

  /** So every GPS tag present in a flat map is reported under its name. */
  lemma FlatGpsValue(exif: MetaMap, id: nat, literalEval: string -> Option<seq<(Key, Value)>>)
    requires id < |GpsTags|
    requires Name("GPSInfo") !in exif && !(Tag(GpsIfd) in exif && Truthy(exif[Tag(GpsIfd)]))
    requires Tag(id) in exif || Name(GpsTags[id]) in exif
    ensures var r := GetGpsData(exif, literalEval);
            Name(GpsTags[id]) in r &&
            r[Name(GpsTags[id])] == (if Tag(id) in exif then exif[Tag(id)] else exif[Name(GpsTags[id])])
  {
    forall q | id < q < |GpsTags| ensures GpsTags[q] != GpsTags[id] {
      TagNamesDistinct(id, q);
    }
    FlatTagValue(exif, GpsTags, |GpsTags|, id);
  }

  /** The flat case never reports a key that is not a GPS tag name. */
  lemma FlatOnlyTagNames(exif: MetaMap, k: Key)
    requires Name("GPSInfo") !in exif && k in GetGpsData(exif, _ => None)
    requires !(Tag(GpsIfd) in exif && Truthy(exif[Tag(GpsIfd)]))
    ensures k.Name? && k.name in GpsTags
  {}

  /** A three-element value converts as degrees + minutes/60 + seconds/3600. */
  lemma DmsDegrees(d: real, m: real, s: real, parseFloat: string -> Option<real>)
    ensures Degrees(Items([Num(d), Num(m), Num(s)]), parseFloat) == Some(d + m / 60.0 + s / 3600.0)
  {}

  /** A missing or falsy latitude (a literal 0 included) gives no
      coordinates, whatever the longitude. */
  lemma FalsyLatitude(gps: MetaMap, parseFloat: string -> Option<real>)
    requires !Truthy(LatData(gps))
    ensures GetCoordinates(gps, parseFloat).None?
  {}

  lemma ZeroLatitude(gps: MetaMap, parseFloat: string -> Option<real>)
    requires Name("GPSLatitude") in gps && gps[Name("GPSLatitude")] == Num(0.0)
    ensures GetCoordinates(gps, parseFloat).None?
  {
    FalsyLatitude(gps, parseFloat);
  }

  /** Swapping a northern reference for `'S'` or `'s'` negates the latitude
      and leaves the longitude alone. */
  lemma SouthNegates(gps: MetaMap, south: string, parseFloat: string -> Option<real>)
    requires south == "S" || south == "s"
    requires Name("GPSLatitudeRef") in gps && gps[Name("GPSLatitudeRef")] == Str("N")
    ensures var n := GetCoordinates(gps, parseFloat);
            var s := GetCoordinates(gps[Name("GPSLatitudeRef") := Str(south)], parseFloat);
            n.Some? <==> s.Some?
    ensures var n := GetCoordinates(gps, parseFloat);
            var s := GetCoordinates(gps[Name("GPSLatitudeRef") := Str(south)], parseFloat);
            n.Some? ==> s.value == (-n.value.0, n.value.1)
  {
    var g := gps[Name("GPSLatitudeRef") := Str(south)];
    assert LatData(g) == LatData(gps) && LonData(g) == LonData(gps) && LonRef(g) == LonRef(gps);
    assert UpperStr(south) == "S" by { assert UpperStr(south)[0] == 'S'; }
    assert UpperStr("N") != "S" by { assert UpperStr("N")[0] == 'N'; }
  }

  /** Swapping an eastern reference for `'W'` or `'w'` negates the
      longitude and leaves the latitude alone. */
  lemma WestNegates(gps: MetaMap, west: string, parseFloat: string -> Option<real>)
    requires west == "W" || west == "w"
    requires Name("GPSLongitudeRef") in gps && gps[Name("GPSLongitudeRef")] == Str("E")
    ensures var e := GetCoordinates(gps, parseFloat);
            var w := GetCoordinates(gps[Name("GPSLongitudeRef") := Str(west)], parseFloat);
            e.Some? <==> w.Some?
    ensures var e := GetCoordinates(gps, parseFloat);
            var w := GetCoordinates(gps[Name("GPSLongitudeRef") := Str(west)], parseFloat);
            e.Some? ==> w.value == (e.value.0, -e.value.1)
  {
    var g := gps[Name("GPSLongitudeRef") := Str(west)];
    assert LatData(g) == LatData(gps) && LonData(g) == LonData(gps) && LatRef(g) == LatRef(gps);
    assert UpperStr(west) == "W" by { assert UpperStr(west)[0] == 'W'; }
    assert UpperStr("E") != "W" by { assert UpperStr("E")[0] == 'E'; }
  }

  /** Out-of-range values are rejected, never clamped: whenever both values
      convert, the result is exactly the signed pair when it is in range and
      nothing otherwise. */
  lemma NoClamping(gps: MetaMap, parseFloat: string -> Option<real>)
    requires gps != map[] && Truthy(LatData(gps)) && Truthy(LonData(gps))
    requires Degrees(LatData(gps), parseFloat).Some? && Degrees(LonData(gps), parseFloat).Some?
    ensures var lat := Signed(Degrees(LatData(gps), parseFloat).value, LatRef(gps), "S");
            var lon := Signed(Degrees(LonData(gps), parseFloat).value, LonRef(gps), "W");
            GetCoordinates(gps, parseFloat) ==
              if -90.0 <= lat <= 90.0 && -180.0 <= lon <= 180.0 then Some((lat, lon)) else None
  {}

  /** Minutes and seconds below 60 add up to less than two degrees. */
  lemma MinutesSeconds(m: real, s: real)
    requires 0.0 <= m < 60.0 && 0.0 <= s < 60.0
    ensures 0.0 <= m / 60.0 + s / 3600.0 < 2.0
  {
    assert m / 60.0 * 60.0 == m;
    assert s / 3600.0 * 3600.0 == s;
  }

  /** End to end: a southern, western position written as degrees, minutes
      and seconds comes back negated in both coordinates. */
  lemma SouthWestDms(gps: MetaMap, lat: (real, real, real), lon: (real, real, real),
                     parseFloat: string -> Option<real>)
    requires 0.0 < lat.0 <= 88.0 && 0.0 <= lat.1 < 60.0 && 0.0 <= lat.2 < 60.0
    requires 0.0 < lon.0 <= 178.0 && 0.0 <= lon.1 < 60.0 && 0.0 <= lon.2 < 60.0
    requires gps == map[Name("GPSLatitude") := Items([Num(lat.0), Num(lat.1), Num(lat.2)]),
                        Name("GPSLatitudeRef") := Str("S"),
                        Name("GPSLongitude") := Items([Num(lon.0), Num(lon.1), Num(lon.2)]),
                        Name("GPSLongitudeRef") := Str("W")]
    ensures GetCoordinates(gps, parseFloat) ==
            Some((-(lat.0 + lat.1 / 60.0 + lat.2 / 3600.0), -(lon.0 + lon.1 / 60.0 + lon.2 / 3600.0)))
  {
    assert UpperStr("S") == "S" by { assert UpperStr("S")[0] == 'S'; }
    assert UpperStr("W") == "W" by { assert UpperStr("W")[0] == 'W'; }
    assert LatData(gps) == Items([Num(lat.0), Num(lat.1), Num(lat.2)]);
    assert LonData(gps) == Items([Num(lon.0), Num(lon.1), Num(lon.2)]);
    assert LatRef(gps) == Str("S") && LonRef(gps) == Str("W");
    DmsDegrees(lat.0, lat.1, lat.2, parseFloat);
    DmsDegrees(lon.0, lon.1, lon.2, parseFloat);
    var la := lat.0 + lat.1 / 60.0 + lat.2 / 3600.0;
    var lo := lon.0 + lon.1 / 60.0 + lon.2 / 3600.0;
    MinutesSeconds(lat.1, lat.2);
    MinutesSeconds(lon.1, lon.2);
    assert Signed(la, LatRef(gps), "S") == -la;
    assert Signed(lo, LonRef(gps), "W") == -lo;
    assert Truthy(LatData(gps)) && Truthy(LonData(gps));
  }
}
