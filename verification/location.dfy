/** Grouping by place: `group_files_by_location` (anchor-based zones, with
    the distance function and each file's coordinates as inputs), the
    address-to-name assembly of `get_location_name`, and the directory
    naming of `organize_by_location`. */
module Location {
  import opened Wrappers
  import opened Text
  import Paths

  /** Latitude and longitude in degrees. */
  type Coord = (real, real)

  type Group = (string, seq<string>)

  const NoGps: string := "sans_coordonnees_gps"

  predicate NoDup(s: seq<string>) {
    forall i, j :: 0 <= i < j < |s| ==> s[i] != s[j]
  }

  /** The files whose coordinates are known, in input order. */
  function WithCoords(files: seq<string>, coordsOf: string -> Option<Coord>): (r: seq<string>)
    ensures forall p :: p in r <==> p in files && coordsOf(p).Some?
  {
    if files == [] then []
    else (if coordsOf(files[0]).Some? then [files[0]] else []) + WithCoords(files[1..], coordsOf)
  }

  /** The others, in input order. */
  function WithoutCoords(files: seq<string>, coordsOf: string -> Option<Coord>): (r: seq<string>)
    ensures forall p :: p in r <==> p in files && coordsOf(p).None?
  {
    if files == [] then []
    else (if coordsOf(files[0]).None? then [files[0]] else []) + WithoutCoords(files[1..], coordsOf)
  }

  /** `f"zone_{group_id}"`. */
  function ZoneName(k: nat): string {
    "zone_" + NatToString(k)
  }

  predicate Located(wc: seq<string>, coordsOf: string -> Option<Coord>) {
    forall p :: p in wc ==> coordsOf(p).Some?
  }

  /** The inner loop: every file from `j` on that is not placed yet and lies
      within `maxKm` of the anchor joins the group, in list order. */
  function Sweep(anchor: Coord, wc: seq<string>, coordsOf: string -> Option<Coord>,
                 dist: (Coord, Coord) -> real, maxKm: real, j: nat, placed: set<string>): (r: seq<string>)
    requires Located(wc, coordsOf) && j <= |wc|
    ensures NoDup(r)
    ensures forall p :: p in r ==> p !in placed && p in wc[j..]
    ensures forall p :: p in r ==> dist(anchor, coordsOf(p).value) <= maxKm
    decreases |wc| - j
  {
    if j == |wc| then []
    else
      var p := wc[j];
      if p in placed || !(dist(anchor, coordsOf(p).value) <= maxKm) then
        Sweep(anchor, wc, coordsOf, dist, maxKm, j + 1, placed)
      else
        var rest := Sweep(anchor, wc, coordsOf, dist, maxKm, j + 1, placed + {p});
        [p] + rest
  }

  /** Every path of the groups, in order. */
  function Members(zs: seq<Group>): seq<string> {
    if zs == [] then [] else zs[0].1 + Members(zs[1..])
  }

  lemma {:induction false} MembersIn(zs: seq<Group>, k: nat, p: string)
    requires k < |zs| && p in zs[k].1
    ensures p in Members(zs)
  {
    if k > 0 {
      MembersIn(zs[1..], k - 1, p);
    }
  }

  lemma NoDupConcat(a: seq<string>, b: seq<string>)
    requires NoDup(a) && NoDup(b)
    requires forall p :: p in a ==> p !in b
    ensures NoDup(a + b)
  {
    var s := a + b;
    forall i, j | 0 <= i < j < |s| ensures s[i] != s[j] {
      if i < |a| && j >= |a| {
        assert s[i] in a && s[j] == b[j - |a|];
      }
    }
  }

  /** The outer loop: each file not placed yet opens the next zone, with the
      ids counting up from `id`. */
  function Zones(wc: seq<string>, coordsOf: string -> Option<Coord>, dist: (Coord, Coord) -> real, maxKm: real,
                 i: nat, placed: set<string>, id: nat): (zs: seq<Group>)
    requires Located(wc, coordsOf) && i <= |wc|
    ensures forall k :: 0 <= k < |zs| ==> zs[k].0 == ZoneName(id + k) && zs[k].1 != []
    decreases |wc| - i
  {
    if i == |wc| then []
    else
      var p := wc[i];
      if p in placed then Zones(wc, coordsOf, dist, maxKm, i + 1, placed, id)
      else
        var near := Sweep(coordsOf(p).value, wc, coordsOf, dist, maxKm, 0, placed + {p});
        [(ZoneName(id), [p] + near)] + Zones(wc, coordsOf, dist, maxKm, i + 1, placed + {p} + (set q | q in near), id + 1)
  }

  /** A path swept into a group while every file before `i` is placed lies
      at `i` or later. */
  lemma SweptAhead(wc: seq<string>, i: nat, placed: set<string>, q: string)
    requires i <= |wc| && q in wc && q !in placed
    requires forall x :: x in wc[..i] ==> x in placed
    ensures q in wc[i..]
  {
    var k :| 0 <= k < |wc| && wc[k] == q;
    assert forall k' :: 0 <= k' < i ==> wc[..i][k'] == wc[k'];
    assert wc[i..][k - i] == q;
  }

  /** What the outer loop keeps: no path lands in two zones or twice in one,
      and nothing placed before, or before `i`, is placed again. */
  lemma {:induction false} ZonesFresh(wc: seq<string>, coordsOf: string -> Option<Coord>,
                                      dist: (Coord, Coord) -> real, maxKm: real,
                                      i: nat, placed: set<string>, id: nat)
    requires Located(wc, coordsOf) && i <= |wc|
    requires forall q :: q in wc[..i] ==> q in placed
    ensures var zs := Zones(wc, coordsOf, dist, maxKm, i, placed, id);
            NoDup(Members(zs)) && forall q :: q in Members(zs) ==> q !in placed && q in wc[i..]
    decreases |wc| - i
  {
    if i < |wc| {
      var p := wc[i];
      assert wc[..i + 1] == wc[..i] + [p];
      assert forall q :: q in wc[i + 1..] ==> q in wc[i..];
      if p in placed {
        ZonesFresh(wc, coordsOf, dist, maxKm, i + 1, placed, id);
      } else {
        var near := Sweep(coordsOf(p).value, wc, coordsOf, dist, maxKm, 0, placed + {p});
        var placed' := placed + {p} + (set q | q in near);
        ZonesFresh(wc, coordsOf, dist, maxKm, i + 1, placed', id + 1);
        var rest := Zones(wc, coordsOf, dist, maxKm, i + 1, placed', id + 1);
        assert wc[0..] == wc;
        OpenZoneFresh(wc, i, placed, near, rest, ZoneName(id));
      }
    }
  }

  /** The step of `ZonesFresh` that opens a zone at `wc[i]` with the swept
      files `near`, ahead of the zones `rest` built from the remaining files. */
  lemma OpenZoneFresh(wc: seq<string>, i: nat, placed: set<string>, near: seq<string>, rest: seq<Group>, name: string)
    requires i < |wc| && wc[i] !in placed
    requires forall q :: q in wc[..i] ==> q in placed
    requires NoDup(near) && forall q :: q in near ==> q !in placed + {wc[i]} && q in wc
    requires NoDup(Members(rest))
    requires forall q :: q in Members(rest) ==> q !in placed + {wc[i]} + (set x | x in near) && q in wc[i + 1..]
    ensures NoDup(Members([(name, [wc[i]] + near)] + rest))
    ensures forall q :: q in Members([(name, [wc[i]] + near)] + rest) ==> q !in placed && q in wc[i..]
  {
    var group := [wc[i]] + near;
    NoDupConcat([wc[i]], near);
    NoDupConcat(group, Members(rest));
    assert Members([(name, group)] + rest) == group + Members(rest);
    assert forall q :: q in wc[i + 1..] ==> q in wc[i..];
    forall q | q in near ensures q in wc[i..] {
      SweptAhead(wc, i, placed, q);
    }
  }

  /** ... and every file from `i` on ends up placed before or in a zone. */
  lemma {:induction false} ZonesCover(wc: seq<string>, coordsOf: string -> Option<Coord>,
                                      dist: (Coord, Coord) -> real, maxKm: real,
                                      i: nat, placed: set<string>, id: nat)
    requires Located(wc, coordsOf) && i <= |wc|
    ensures var zs := Zones(wc, coordsOf, dist, maxKm, i, placed, id);
            forall q :: q in wc[i..] ==> q in placed || q in Members(zs)
    decreases |wc| - i
  {
    if i < |wc| {
      var p := wc[i];
      assert wc[i..] == [p] + wc[i + 1..];
      if p in placed {
        ZonesCover(wc, coordsOf, dist, maxKm, i + 1, placed, id);
      } else {
        var near := Sweep(coordsOf(p).value, wc, coordsOf, dist, maxKm, 0, placed + {p});
        var placed' := placed + {p} + (set q | q in near);
        ZonesCover(wc, coordsOf, dist, maxKm, i + 1, placed', id + 1);
        var rest := Zones(wc, coordsOf, dist, maxKm, i + 1, placed', id + 1);
        var ms := [p] + near + Members(rest);
        assert Members([(ZoneName(id), [p] + near)] + rest) == ms;
        forall q | q in wc[i..] ensures q in placed || q in ms {
          if q != p && q !in placed {
            assert q in wc[i + 1..];
            assert q in near || q in Members(rest);
          }
        }
      }
    }
  }

  /** `group_files_by_location(files, max_distance_km)`; an empty list
      raises at `files_input[0]`. */
  function GroupByLocation(files: seq<string>, coordsOf: string -> Option<Coord>,
                           dist: (Coord, Coord) -> real, maxKm: real): (r: Result<seq<Group>>)
    ensures r.Failure? <==> files == []
  {
    if files == [] then Failure("IndexError: list index out of range")
    else
      var wc := WithCoords(files, coordsOf);
      var wo := WithoutCoords(files, coordsOf);
      if wc == [] then Success([(NoGps, wo)])
      else Success(Zones(wc, coordsOf, dist, maxKm, 0, {}, 0) + (if wo != [] then [(NoGps, wo)] else []))
  }

  // ---------------------------------------------------------------------
  // properties of the grouping

  /** Every member of a zone other than its first lies within range of the
      first, which anchors the zone. */
  predicate Anchored(zs: seq<Group>, coordsOf: string -> Option<Coord>, dist: (Coord, Coord) -> real, maxKm: real) {
    forall k, m :: 0 <= k < |zs| && zs[k].1 != [] && m in zs[k].1[1..] ==>
      coordsOf(zs[k].1[0]).Some? && coordsOf(m).Some? &&
      dist(coordsOf(zs[k].1[0]).value, coordsOf(m).value) <= maxKm
  }

  lemma AnchoredCons(g: Group, rest: seq<Group>, coordsOf: string -> Option<Coord>,
                     dist: (Coord, Coord) -> real, maxKm: real)
    requires Anchored(rest, coordsOf, dist, maxKm)
    requires g.1 != [] ==> forall m :: m in g.1[1..] ==>
      coordsOf(g.1[0]).Some? && coordsOf(m).Some? && dist(coordsOf(g.1[0]).value, coordsOf(m).value) <= maxKm
    ensures Anchored([g] + rest, coordsOf, dist, maxKm)
  {
    var zs := [g] + rest;
    forall k | 1 <= k < |zs| ensures zs[k] == rest[k - 1] {}
  }

  lemma {:induction false} ZonesNearAnchor(wc: seq<string>, coordsOf: string -> Option<Coord>,
                                           dist: (Coord, Coord) -> real, maxKm: real,
                                           i: nat, placed: set<string>, id: nat)
    requires Located(wc, coordsOf) && i <= |wc|
    ensures Anchored(Zones(wc, coordsOf, dist, maxKm, i, placed, id), coordsOf, dist, maxKm)
    decreases |wc| - i
  {
    if i < |wc| {
      var p := wc[i];
      if p in placed {
        ZonesNearAnchor(wc, coordsOf, dist, maxKm, i + 1, placed, id);
      } else {
        var near := Sweep(coordsOf(p).value, wc, coordsOf, dist, maxKm, 0, placed + {p});
        var placed' := placed + {p} + (set q | q in near);
        ZonesNearAnchor(wc, coordsOf, dist, maxKm, i + 1, placed', id + 1);
        assert wc[0..] == wc;
        assert ([p] + near)[1..] == near;
        AnchoredCons((ZoneName(id), [p] + near), Zones(wc, coordsOf, dist, maxKm, i + 1, placed', id + 1), coordsOf, dist, maxKm);
      }
    }
  }

  /** The zones partition the files that have coordinates: each such path
      is in exactly one zone, once, and nothing else is. */
  lemma ZonesPartition(wc: seq<string>, coordsOf: string -> Option<Coord>, dist: (Coord, Coord) -> real, maxKm: real)
    requires Located(wc, coordsOf)
    ensures var zs := Zones(wc, coordsOf, dist, maxKm, 0, {}, 0);
            NoDup(Members(zs)) && (forall p :: p in Members(zs) <==> p in wc)
  {
    assert wc[0..] == wc;
    ZonesFresh(wc, coordsOf, dist, maxKm, 0, {}, 0);
    ZonesCover(wc, coordsOf, dist, maxKm, 0, {}, 0);
  }

  /** A zone name is never the name of the group without coordinates. */
  lemma ZoneNameApart(k: nat)
    ensures ZoneName(k) != NoGps
  {
    assert ZoneName(k)[0] == 'z' && NoGps[0] == 's';
  }

  /** When no file has coordinates, the result is a single group holding
      every file, in order. */
  lemma {:induction false} NoCoordinatesOneGroup(files: seq<string>, coordsOf: string -> Option<Coord>,
                                                 dist: (Coord, Coord) -> real, maxKm: real)
    requires files != [] && forall p :: p in files ==> coordsOf(p).None?
    ensures GroupByLocation(files, coordsOf, dist, maxKm) == Success([(NoGps, files)])
  {
    AllWithout(files, coordsOf);
  }

  lemma {:induction false} AllWithout(files: seq<string>, coordsOf: string -> Option<Coord>)
    requires forall p :: p in files ==> coordsOf(p).None?
    ensures WithoutCoords(files, coordsOf) == files && WithCoords(files, coordsOf) == []
  {
    if files != [] {
      AllWithout(files[1..], coordsOf);
      assert files == [files[0]] + files[1..];
    }
  }

  /** With some coordinates: the zones come first, named `zone_0`, `zone_1`,
      … in order, and the files without coordinates follow in one last
      group, present only when there are such files. */
  lemma GroupsLayout(files: seq<string>, coordsOf: string -> Option<Coord>, dist: (Coord, Coord) -> real, maxKm: real)
    requires exists p :: p in files && coordsOf(p).Some?
    ensures var r := GroupByLocation(files, coordsOf, dist, maxKm);
            var wo := WithoutCoords(files, coordsOf);
            var zs := Zones(WithCoords(files, coordsOf), coordsOf, dist, maxKm, 0, {}, 0);
            r.Success? && r.value == zs + (if wo != [] then [(NoGps, wo)] else []) &&
            (forall k :: 0 <= k < |zs| ==> zs[k].0 == ZoneName(k)) &&
            (forall p :: p in Members(zs) ==> coordsOf(p).Some?)
  {
    var p :| p in files && coordsOf(p).Some?;
    var wc := WithCoords(files, coordsOf);
    assert p in wc;
    ZonesFresh(wc, coordsOf, dist, maxKm, 0, {}, 0);
    assert wc[0..] == wc;
  }

  // ---------------------------------------------------------------------
  // place names

  const CountryKey: string := "country"
  const CityKeys: seq<string> := ["city", "town", "village"]
  const QuarterKeys: seq<string> := ["district", "suburb", "neighbourhood"]

  /** The value of the first key present. */
  function FirstOf(address: map<string, string>, keys: seq<string>): (r: Option<string>)
    ensures r.None? <==> forall j :: 0 <= j < |keys| ==> keys[j] !in address
    ensures r.Some? ==> r.value in address.Values
  {
    if keys == [] then None
    else if keys[0] in address then Some(address[keys[0]])
    else FirstOf(address, keys[1..])
  }

  function Opt(o: Option<string>): seq<string> {
    if o.Some? then [o.value] else []
  }

  /** Country, then city/town/village, then district/suburb/neighbourhood,
      each when present. */
  function Components(address: map<string, string>): (cs: seq<string>)
    ensures |cs| <= 3
    ensures forall j :: 0 <= j < |cs| ==> cs[j] in address.Values
  {
    (if CountryKey in address then [address[CountryKey]] else []) +
    Opt(FirstOf(address, CityKeys)) + Opt(FirstOf(address, QuarterKeys))
  }

  /** The reply-to-name part of `get_location_name`: the components joined
      by `" - "`, else `display_name` cut to 80 characters, else nothing
      (the source then formats the coordinates). */
  function PlaceName(address: Option<map<string, string>>, displayName: Option<string>): (r: Option<string>)
    ensures address.Some? && Components(address.value) != [] ==> r.Some?
    ensures (address.None? || Components(address.value) == []) ==>
              (r.Some? <==> displayName.Some?) &&
              (r.Some? ==> |r.value| <= 80 && (|displayName.value| <= 80 ==> r.value == displayName.value))
  {
    if address.Some? && Components(address.value) != [] then Some(Join(Components(address.value), " - "))
    else if displayName.Some? then
      var n := displayName.value;
      Some(if |n| > 80 then n[..77] + "..." else n)
    else None
  }

  /** A long display name keeps its first 77 characters and gains `...`. */
  lemma LongDisplayName(displayName: string)
    requires |displayName| > 80
    ensures var r := PlaceName(None, Some(displayName)).value;
            |r| == 80 && r[..77] == displayName[..77] && r[77..] == "..."
  {}

  /** A city wins over a town or a village, a town over a village. */
  lemma CityPrecedence(address: map<string, string>)
    ensures "city" in address ==> FirstOf(address, CityKeys) == Some(address["city"])
    ensures "city" !in address && "town" in address ==> FirstOf(address, CityKeys) == Some(address["town"])
  {
    assert CityKeys[0] == "city" && CityKeys[1] == "town";
    assert CityKeys[1..][1..] == ["village"];
  }

  // ---------------------------------------------------------------------
  // directory names in organize_by_location

  const Forbidden: set<char> := {'<', '>', ':', '"', '/', '\\', '|', '?', '*'}

  /** `re.sub(r'[<>:"/\\|?*]', '_', name)`. */
  function Sanitise(s: string): (r: string)
    ensures |r| == |s|
    ensures forall k :: 0 <= k < |s| ==> r[k] == if s[k] in Forbidden then '_' else s[k]
  {
    if s == [] then [] else [if s[0] in Forbidden then '_' else s[0]] + Sanitise(s[1..])
  }

  /** The sanitised name cut to 80 characters. */
  function CleanName(s: string): (r: string)
    ensures |r| == if |s| <= 80 then |s| else 80
    ensures forall k :: 0 <= k < |r| ==> r[k] !in Forbidden
    ensures forall k :: 0 <= k < |r| ==> (s[k] !in Forbidden ==> r[k] == s[k])
  {
    var t := Sanitise(s);
    if |t| <= 80 then t else t[..80]
  }

  /** Cleaning a clean name changes nothing. */
  lemma CleanNameIdempotent(s: string)
    ensures CleanName(CleanName(s)) == CleanName(s)
  {}

  const NoGpsDirectory: string := "Sans coordonnées GPS"

  /** The directory a group goes to: the cleaned place name of its first
      file when that file has coordinates, else the group's own name; the
      group without coordinates gets a fixed name. */
  function GroupDirectory(root: string, g: Group, coordsOf: string -> Option<Coord>, placeOf: Coord -> string): string
    requires g.1 != []
  {
    if g.0 != NoGps then
      var c := coordsOf(g.1[0]);
      if c.Some? then Paths.Join(root, CleanName(placeOf(c.value))) else Paths.Join(root, g.0)
    else Paths.Join(root, NoGpsDirectory)
  }

  /** A place name never nests: its `/` are gone, so the place directory sits
      directly under the root. */
  lemma PlaceDirectoryDirectlyUnderRoot(root: string, g: Group, coordsOf: string -> Option<Coord>, placeOf: Coord -> string)
    requires g.1 != [] && g.0 != NoGps && coordsOf(g.1[0]).Some?
    requires root != "" && root[|root| - 1] != '/'
    requires CleanName(placeOf(coordsOf(g.1[0]).value)) != ""
    ensures Paths.Dirname(GroupDirectory(root, g, coordsOf, placeOf)) == root
    ensures Paths.Basename(GroupDirectory(root, g, coordsOf, placeOf)) == CleanName(placeOf(coordsOf(g.1[0]).value))
  {
    var name := CleanName(placeOf(coordsOf(g.1[0]).value));
    assert '/' in Forbidden;
    assert '/' !in name;
    Paths.DirnameOfJoin(root, name);
    Paths.BasenameOfJoin(root, name);
  }
}
