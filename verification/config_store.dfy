/** `ConfigManager` of utils/config_manager.py: a JSON-shaped configuration
    with dotted-path access, the defaults merge, the recent-folder lists, the
    organisation presets and the API keys. The configuration is a value; each
    mutating method returns the new one. Reading and writing the JSON file is
    an input or left out. */
module ConfigStore {
  import opened Wrappers
  import Text

  /** A JSON value as `json.load` produces it. */
  datatype Value =
    | Null
    | Bool(b: bool)
    | Num(n: real)
    | Str(s: string)
    | List(items: seq<Value>)
    | Dict(entries: map<string, Value>)

  type Config = map<string, Value>

  /** `ConfigManager.DEFAULT_CONFIG`. */
  const DefaultConfig: Config := map[
    "api_keys" := Dict(map["positionstack" := Str("")]),
    "preferences" := Dict(map[
      "last_source_dir" := Str(""),
      "last_destination_dir" := Str(""),
      "default_action" := Str("copy"),
      "use_geocoding" := Bool(false),
      "window_width" := Num(1200.0),
      "window_height" := Num(800.0),
      "theme" := Str("light"),
      "language" := Str("fr"),
      "log_level" := Str("INFO")]),
    "recent_folders" := Dict(map["source" := List([]), "destination" := List([])]),
    "organization_presets" := Dict(map[]),
    "metadata_cache_enabled" := Bool(true),
    "metadata_cache_ttl" := Num(86400.0)]

  // ---------------------------------------------------------------------
  // merge with the defaults

  /** `_merge_configs(default, user)`: every user entry is written over the
      default one, except that a dictionary meeting a dictionary is merged
      recursively. The loop visits each user key once and the entries do not
      interact, so the order of `user.items()` does not matter. */
  function Merge(default: Config, user: Config): Config
    decreases Dict(user)
  {
    map k | k in default.Keys + user.Keys ::
      if k in user then
        (if k in default && default[k].Dict? && user[k].Dict? then Dict(Merge(default[k].entries, user[k].entries))
         else user[k])
      else default[k]
  }

  /** `_load_config`: no file or a file that fails to load gives the
      defaults; a loaded document that is not an object fails inside the
      merge, which the same handler turns into the defaults. */
  function LoadConfig(file: Option<Result<Value>>): (c: Config)
    ensures file.Some? && file.value.Success? && file.value.value.Dict? ==>
              c == Merge(DefaultConfig, file.value.value.entries)
    ensures c.Keys >= DefaultConfig.Keys
  {
    MergeKeys(DefaultConfig, if file.Some? && file.value.Success? && file.value.value.Dict? then file.value.value.entries else map[]);
    match file
    case Some(Success(Dict(user))) => Merge(DefaultConfig, user)
    case _ => DefaultConfig
  }

  lemma MergeKeys(default: Config, user: Config)
    ensures Merge(default, user).Keys == default.Keys + user.Keys
  {}

  // ---------------------------------------------------------------------
  // dotted paths

  /** The value at the end of `keys`, when every step is a dictionary holding
      the next key. */
  function Walk(v: Value, keys: seq<string>): Option<Value> {
    if keys == [] then Some(v)
    else if v.Dict? && keys[0] in v.entries then Walk(v.entries[keys[0]], keys[1..])
    else None
  }

  /** `key_path.split('.')`. */
  function Keys(keyPath: string): (ks: seq<string>)
    ensures |ks| >= 1
  {
    Text.Split(keyPath, '.')
  }

  /** `get(key_path, default)`. */
  function Get(c: Config, keyPath: string, default: Value): Value {
    Walk(Dict(c), Keys(keyPath)).GetOr(default)
  }

  /** The walk of `set`: a missing key gets a fresh dictionary, and a step
      that meets anything but a dictionary raises (`TypeError` from the
      membership test or the item assignment), which is `None` here. */
  function SetIn(m: Config, keys: seq<string>, v: Value): Option<Config>
    requires |keys| >= 1
    decreases |keys|
  {
    if |keys| == 1 then Some(m[keys[0] := v])
    else
      var child := if keys[0] in m then m[keys[0]] else Dict(map[]);
      if !child.Dict? then None
      else match SetIn(child.entries, keys[1..], v)
        case Some(c) => Some(m[keys[0] := Dict(c)])
        case None => None
  }

  /** `set(key_path, value)`. */
  function Set(c: Config, keyPath: string, v: Value): Option<Config> {
    SetIn(c, Keys(keyPath), v)
  }

  /** Some proper prefix of `keys` already leads to something other than a
      dictionary. */
  predicate Obstructed(m: Config, keys: seq<string>) {
    exists j :: 1 <= j < |keys| && Walk(Dict(m), keys[..j]).Some? && !Walk(Dict(m), keys[..j]).value.Dict?
  }

  /** The two paths part ways at some position both have. */
  predicate Diverge(p: seq<string>, q: seq<string>) {
    exists j :: 0 <= j < |p| && j < |q| && p[j] != q[j]
  }

  /** Some step of `keys` meets a value that is not a dictionary holding the
      next key: the place where `get` gives up. */
  predicate Broken(v: Value, keys: seq<string>) {
    exists j :: 0 <= j < |keys| && Walk(v, keys[..j]).Some? &&
      !(Walk(v, keys[..j]).value.Dict? && keys[j] in Walk(v, keys[..j]).value.entries)
  }

  lemma WalkPrefix(v: Value, keys: seq<string>, j: nat)
    requires 1 <= j <= |keys| && v.Dict? && keys[0] in v.entries
    ensures Walk(v, keys[..j]) == Walk(v.entries[keys[0]], keys[1..][..j - 1])
  {
    assert keys[..j][0] == keys[0];
    assert keys[..j][1..] == keys[1..][..j - 1];
  }

  /** The walk of `get` fails exactly when some step is broken. */
  lemma {:induction false} WalkFailsIff(v: Value, keys: seq<string>)
    ensures Walk(v, keys).None? <==> Broken(v, keys)
    decreases |keys|
  {
    if keys == [] {
    } else if v.Dict? && keys[0] in v.entries {
      var child := v.entries[keys[0]];
      WalkFailsIff(child, keys[1..]);
      if Broken(child, keys[1..]) {
        var j :| 0 <= j < |keys[1..]| && Walk(child, keys[1..][..j]).Some? &&
          !(Walk(child, keys[1..][..j]).value.Dict? && keys[1..][j] in Walk(child, keys[1..][..j]).value.entries);
        WalkPrefix(v, keys, j + 1);
      }
      if Broken(v, keys) {
        var j :| 0 <= j < |keys| && Walk(v, keys[..j]).Some? &&
          !(Walk(v, keys[..j]).value.Dict? && keys[j] in Walk(v, keys[..j]).value.entries);
        assert j != 0 by { assert keys[..0] == []; }
        WalkPrefix(v, keys, j);
        assert Broken(child, keys[1..]) by {
          assert keys[1..][j - 1] == keys[j];
        }
      }
    } else {
      assert keys[..0] == [];
      assert Broken(v, keys) by {
        assert Walk(v, keys[..0]) == Some(v);
      }
    }
  }

  /** `get` returns the default exactly when the dotted path breaks off at a
      missing key or a value that is not a dictionary, and otherwise the
      value at the end of the path. */
  lemma GetFallsBack(c: Config, keyPath: string, default: Value)
    ensures Broken(Dict(c), Keys(keyPath)) ==> Get(c, keyPath, default) == default
    ensures !Broken(Dict(c), Keys(keyPath)) ==>
              Walk(Dict(c), Keys(keyPath)).Some? && Get(c, keyPath, default) == Walk(Dict(c), Keys(keyPath)).value
  {
    WalkFailsIff(Dict(c), Keys(keyPath));
  }

  lemma WalkStep(m: Config, k: string, rest: seq<string>)
    ensures Walk(Dict(m), [k] + rest) == if k in m then Walk(m[k], rest) else None
  {
    assert ([k] + rest)[1..] == rest;
  }

  /** `set` fails exactly when a proper prefix of the path holds a
      non-dictionary. */
  lemma {:induction false} SetSucceedsIff(m: Config, keys: seq<string>, v: Value)
    requires |keys| >= 1
    ensures SetIn(m, keys, v).Some? <==> !Obstructed(m, keys)
    decreases |keys|
  {
    if |keys| > 1 {
      var k := keys[0];
      var rest := keys[1..];
      assert keys == [k] + rest;
      forall j | 1 <= j < |keys| ensures keys[..j] == [k] + rest[..j - 1] {}
      var child := if k in m then m[k] else Dict(map[]);
      if !child.Dict? {
        WalkStep(m, k, []);
        assert keys[..1] == [k];
        assert Walk(Dict(m), keys[..1]) == Some(m[k]);
      } else {
        SetSucceedsIff(child.entries, rest, v);
        if k in m {
          forall j | 1 <= j < |keys|
            ensures Walk(Dict(m), keys[..j]) == Walk(Dict(child.entries), rest[..j - 1])
          {
            WalkStep(m, k, rest[..j - 1]);
          }
          if Obstructed(child.entries, rest) {
            var j :| 1 <= j < |rest| && Walk(Dict(child.entries), rest[..j]).Some? && !Walk(Dict(child.entries), rest[..j]).value.Dict?;
            assert Walk(Dict(m), keys[..j + 1]) == Walk(Dict(child.entries), rest[..j]);
          }
          if Obstructed(m, keys) {
            var j :| 1 <= j < |keys| && Walk(Dict(m), keys[..j]).Some? && !Walk(Dict(m), keys[..j]).value.Dict?;
            assert j >= 2;
          }
        } else {
          forall j | 1 <= j < |keys| ensures Walk(Dict(m), keys[..j]).None? {
            WalkStep(m, k, rest[..j - 1]);
          }
          EmptyNeverObstructed(rest);
        }
      }
    }
  }

  lemma EmptyNeverObstructed(keys: seq<string>)
    ensures !Obstructed(map[], keys)
  {
    forall j | 1 <= j < |keys| ensures Walk(Dict(map[]), keys[..j]).None? {}
  }

  /** After a successful `set(p, v)`, `get(p)` gives `v`. */
  lemma {:induction false} SetThenGet(m: Config, keys: seq<string>, v: Value)
    requires |keys| >= 1 && SetIn(m, keys, v).Some?
    ensures Walk(Dict(SetIn(m, keys, v).value), keys) == Some(v)
    decreases |keys|
  {
    var k := keys[0];
    assert keys == [k] + keys[1..];
    if |keys| == 1 {
      WalkStep(SetIn(m, keys, v).value, k, []);
    } else {
      var child := if k in m then m[k] else Dict(map[]);
      SetThenGet(child.entries, keys[1..], v);
      WalkStep(SetIn(m, keys, v).value, k, keys[1..]);
    }
  }

  /** The same round trip through the dotted-string interface: `set` fails
      only on an obstructed path, and otherwise `get` returns what was set,
      whatever the fallback. */
  lemma SetGetDotted(c: Config, keyPath: string, v: Value, fallback: Value)
    ensures Set(c, keyPath, v).Some? <==> !Obstructed(c, Keys(keyPath))
    ensures Set(c, keyPath, v).Some? ==> Get(Set(c, keyPath, v).value, keyPath, fallback) == v
  {
    SetSucceedsIff(c, Keys(keyPath), v);
    if Set(c, keyPath, v).Some? {
      SetThenGet(c, Keys(keyPath), v);
    }
  }

  /** `set(p, v)` leaves every path that parts ways with `p` as it was. */
  lemma {:induction false} SetLeavesOthers(m: Config, keys: seq<string>, v: Value, q: seq<string>)
    requires |keys| >= 1 && SetIn(m, keys, v).Some? && Diverge(q, keys)
    ensures Walk(Dict(SetIn(m, keys, v).value), q) == Walk(Dict(m), q)
    decreases |keys|
  {
    var m' := SetIn(m, keys, v).value;
    var k := keys[0];
    var j :| 0 <= j < |q| && j < |keys| && q[j] != keys[j];
    assert q == [q[0]] + q[1..];
    WalkStep(m, q[0], q[1..]);
    WalkStep(m', q[0], q[1..]);
    if q[0] == k {
      var child := if k in m then m[k] else Dict(map[]);
      var rest := keys[1..];
      assert j >= 1 && q[1..][j - 1] != rest[j - 1];
      SetLeavesOthers(child.entries, rest, v, q[1..]);
      if k !in m {
        assert q[1..] == [q[1..][0]] + q[1..][1..];
        WalkStep(map[], q[1..][0], q[1..][1..]);
      }
    }
  }

  /** A user value that is not a dictionary always ends up where the user
      put it, at any depth. */
  lemma {:induction false} MergeUserLeaves(default: Config, user: Config, p: seq<string>, x: Value)
    requires Walk(Dict(user), p) == Some(x) && !x.Dict?
    ensures Walk(Dict(Merge(default, user)), p) == Some(x)
    decreases |p|
  {
    var k := p[0];
    assert p == [k] + p[1..];
    WalkStep(user, k, p[1..]);
    WalkStep(Merge(default, user), k, p[1..]);
    if k in default && default[k].Dict? && user[k].Dict? {
      MergeUserLeaves(default[k].entries, user[k].entries, p[1..], x);
    }
  }

  /** Along `p`, the user document has only dictionaries or nothing. */
  predicate OpenAlong(user: Config, p: seq<string>) {
    forall j :: 1 <= j < |p| ==> Walk(Dict(user), p[..j]).None? || Walk(Dict(user), p[..j]).value.Dict?
  }

  /** A default the user document does not reach, and does not cut off with a
      non-dictionary on the way, survives the merge. */
  lemma {:induction false} MergeKeepsDefaults(default: Config, user: Config, p: seq<string>, x: Value)
    requires Walk(Dict(default), p) == Some(x) && Walk(Dict(user), p).None? && OpenAlong(user, p)
    ensures Walk(Dict(Merge(default, user)), p) == Some(x)
    decreases |p|
  {
    var k := p[0];
    var rest := p[1..];
    assert p == [k] + rest;
    WalkStep(user, k, rest);
    WalkStep(default, k, rest);
    WalkStep(Merge(default, user), k, rest);
    if k in user {
      assert |rest| >= 1;
      assert p[..1] == [k];
      WalkStep(user, k, []);
      assert Walk(Dict(user), p[..1]) == Some(user[k]);
      assert user[k].Dict?;
      assert default[k].Dict?;
      forall j | 1 <= j < |rest|
        ensures Walk(Dict(user[k].entries), rest[..j]).None? || Walk(Dict(user[k].entries), rest[..j]).value.Dict?
      {
        assert p[..j + 1] == [k] + rest[..j];
        WalkStep(user, k, rest[..j]);
      }
      MergeKeepsDefaults(default[k].entries, user[k].entries, rest, x);
    }
  }

  // ---------------------------------------------------------------------
  // recent folders

  /** `list.remove(x)` when `x` is present: the first occurrence goes. */
  function RemoveFirst(s: seq<Value>, x: Value): (r: seq<Value>)
    ensures x in s ==> |r| == |s| - 1
    ensures x !in s ==> r == s
  {
    if s == [] then []
    else if s[0] == x then s[1..]
    else [s[0]] + RemoveFirst(s[1..], x)
  }

  /** `s[:n]` with Python's reading of a negative bound. */
  function TakePy(s: seq<Value>, n: int): (r: seq<Value>)
    ensures r <= s
    ensures 0 <= n ==> |r| == if n < |s| then n else |s|
  {
    if n >= |s| then s
    else if n >= 0 then s[..n]
    else if |s| + n >= 0 then s[..|s| + n]
    else []
  }

  /** The list update of `add_recent_folder`. */
  function PushRecent(recent: seq<Value>, path: string, maxItems: int): seq<Value> {
    TakePy([Str(path)] + RemoveFirst(recent, Str(path)), maxItems)
  }

  predicate Distinct(s: seq<Value>) {
    forall i, j :: 0 <= i < j < |s| ==> s[i] != s[j]
  }

  /** The entries other than `x`, in order. */
  function Without(s: seq<Value>, x: Value): (r: seq<Value>)
    ensures x !in r
  {
    if s == [] then [] else (if s[0] == x then [] else [s[0]]) + Without(s[1..], x)
  }

  lemma {:induction false} RemoveFirstDistinct(s: seq<Value>, x: Value)
    requires Distinct(s)
    ensures RemoveFirst(s, x) == Without(s, x)
    ensures Distinct(Without(s, x))
    ensures forall y :: y in Without(s, x) <==> y in s && y != x
  {
    if s != [] {
      assert Distinct(s[1..]) by {
        forall i, j | 0 <= i < j < |s[1..]| ensures s[1..][i] != s[1..][j] {
          assert s[1..][i] == s[i + 1] && s[1..][j] == s[j + 1];
        }
      }
      RemoveFirstDistinct(s[1..], x);
      if s[0] == x {
        WithoutAbsent(s[1..], x);
      } else {
        assert s[0] !in s[1..];
      }
    }
  }

  lemma {:induction false} WithoutAbsent(s: seq<Value>, x: Value)
    requires x !in s
    ensures Without(s, x) == s
  {
    if s != [] {
      WithoutAbsent(s[1..], x);
    }
  }

  lemma DistinctCons(x: Value, s: seq<Value>)
    requires Distinct(s) && x !in s
    ensures Distinct([x] + s)
  {
    var t := [x] + s;
    forall i, j | 0 <= i < j < |t| ensures t[i] != t[j] {
      assert t[j] == s[j - 1];
      if i > 0 {
        assert t[i] == s[i - 1];
      }
    }
  }

  lemma DistinctPrefix(r: seq<Value>, s: seq<Value>)
    requires Distinct(s) && r <= s
    ensures Distinct(r)
  {
    forall i, j | 0 <= i < j < |r| ensures r[i] != r[j] {
      assert r[i] == s[i] && r[j] == s[j];
    }
  }

  /** On a list without repeats (the only kind the method itself builds):
      the path comes first and once, at most `max_items` entries are kept,
      and the rest is a prefix of the other entries in their old order. */
  lemma PushRecentFront(recent: seq<Value>, path: string, maxItems: int)
    requires Distinct(recent)
    ensures var r := PushRecent(recent, path, maxItems);
            Distinct(r) &&
            (maxItems >= 1 ==> r[0] == Str(path)) &&
            (maxItems >= 0 ==> |r| <= maxItems) &&
            (r != [] ==> r[1..] <= Without(recent, Str(path))) &&
            (forall y :: y in r ==> y == Str(path) || y in recent)
  {
    RemoveFirstDistinct(recent, Str(path));
    var full := [Str(path)] + Without(recent, Str(path));
    var r := PushRecent(recent, path, maxItems);
    DistinctCons(Str(path), Without(recent, Str(path)));
    assert r <= full;
    DistinctPrefix(r, full);
    if r != [] {
      assert r[1..] <= full[1..];
    }
  }

  const FolderTypes: set<string> := {"source", "destination"}

  /** `add_recent_folder(folder_type, path, max_items)`: an unknown folder
      type is a no-op; a configuration without the expected list raises
      (`KeyError`, or an attribute or type error on a non-list). */
  function AddRecentFolder(c: Config, folderType: string, path: string, maxItems: int): (r: Result<Config>)
    ensures folderType !in FolderTypes ==> r == Success(c)
    ensures r.Success? && folderType in FolderTypes ==>
              Walk(Dict(r.value), ["recent_folders", folderType]).Some? &&
              Walk(Dict(r.value), ["recent_folders", folderType]).value.List? &&
              (maxItems >= 1 ==> var items := Walk(Dict(r.value), ["recent_folders", folderType]).value.items;
                                 |items| >= 1 && items[0] == Str(path))
  {
    if folderType !in FolderTypes then Success(c)
    else if "recent_folders" in c && c["recent_folders"].Dict? && folderType in c["recent_folders"].entries
            && c["recent_folders"].entries[folderType].List? then
      var folders := c["recent_folders"].entries;
      var updated := PushRecent(folders[folderType].items, path, maxItems);
      var r := c["recent_folders" := Dict(folders[folderType := List(updated)])];
      WalkStep(r, "recent_folders", [folderType]);
      WalkStep(folders[folderType := List(updated)], folderType, []);
      Success(r)
    else Failure("KeyError")
  }

  /** `get_recent_folders(folder_type)`: the stored list, or an empty one. */
  function GetRecentFolders(c: Config, folderType: string): (r: Result<Value>)
    ensures r.Success? <==> "recent_folders" in c && c["recent_folders"].Dict?
    ensures r.Success? && folderType !in c["recent_folders"].entries ==> r.value == List([])
  {
    if "recent_folders" in c && c["recent_folders"].Dict? then
      var folders := c["recent_folders"].entries;
      Success(if folderType in folders then folders[folderType] else List([]))
    else Failure("KeyError")
  }

  /** The defaults carry both recent lists, so on them adding a folder puts
      it first. */
  lemma DefaultsAcceptRecent(folderType: string, path: string, maxItems: int)
    requires folderType in FolderTypes
    ensures AddRecentFolder(DefaultConfig, folderType, path, maxItems).Success?
  {}

  // ---------------------------------------------------------------------
  // presets and API keys

  /** The preset dictionary, when the configuration has one. */
  function Presets(c: Config): Option<map<string, Value>> {
    if "organization_presets" in c && c["organization_presets"].Dict? then Some(c["organization_presets"].entries)
    else None
  }

  /** `save_preset(name, preset_data)`. */
  function SavePreset(c: Config, name: string, data: Value): (r: Result<Config>)
    ensures r.Success? <==> Presets(c).Some?
    ensures r.Success? ==> Presets(r.value) == Some(Presets(c).value[name := data])
  {
    match Presets(c)
    case Some(ps) => Success(c["organization_presets" := Dict(ps[name := data])])
    case None => Failure("KeyError")
  }

  /** `get_preset(name)`: `None` for an unknown name. */
  function GetPreset(c: Config, name: string): (r: Result<Option<Value>>)
    ensures r.Success? <==> Presets(c).Some?
    ensures r.Success? ==> (r.value.Some? <==> name in Presets(c).value)
  {
    match Presets(c)
    case Some(ps) => Success(if name in ps then Some(ps[name]) else None)
    case None => Failure("KeyError")
  }

  /** `delete_preset(name)`: the new configuration and the returned flag.
      The test is Python's `in` on whatever `organization_presets` holds: a
      key of a dict, an element equal to `name` of a list, a substring of a
      string. Only a dict entry can be deleted; a list or string that holds
      `name` makes the `del` raise `TypeError`, one that does not gives
      `False`, and `in` on any other value raises `TypeError`. */
  function DeletePreset(c: Config, name: string): (r: Result<(Config, bool)>)
    ensures "organization_presets" !in c ==> r.Failure?
    ensures Presets(c).Some? ==> r.Success?
    ensures r.Success? && r.value.1 <==> Presets(c).Some? && name in Presets(c).value
    ensures r.Success? && !r.value.1 ==> r.value.0 == c
    ensures r.Success? && Presets(c).None? ==>
              var v := c["organization_presets"];
              (v.List? && Str(name) !in v.items) || (v.Str? && !Text.Contains(v.s, name))
  {
    if "organization_presets" !in c then Failure("KeyError")
    else
      match c["organization_presets"]
      case Dict(ps) =>
        if name in ps then Success((c["organization_presets" := Dict(ps - {name})], true))
        else Success((c, false))
      case List(items) => if Str(name) in items then Failure("TypeError") else Success((c, false))
      case Str(text) => if Text.Contains(text, name) then Failure("TypeError") else Success((c, false))
      case _ => Failure("TypeError")
  }

  /** A list or a string under `organization_presets` that does not hold the
      name answers `False` and changes nothing, while `get_preset` on the same
      configuration raises; anything else that is not a dict raises. */
  lemma DeleteWithoutDict(c: Config, name: string)
    requires "organization_presets" in c && Presets(c).None?
    ensures var v := c["organization_presets"];
            DeletePreset(c, name) == (if (v.List? && Str(name) !in v.items) || (v.Str? && !Text.Contains(v.s, name))
                                      then Success((c, false)) else Failure("TypeError"))
    ensures GetPreset(c, name).Failure?
  {}

  /** An empty list kept by the merge answers `False` for every name; an
      empty string does too, except for the empty name, which every string
      contains. */
  lemma DeleteFromEmpty(name: string)
    ensures var c := map["organization_presets" := List([])];
            DeletePreset(c, name) == Success((c, false))
    ensures var c := map["organization_presets" := Str("")];
            DeletePreset(c, name) == if name == "" then Failure("TypeError") else Success((c, false))
  {
    if name == "" {
      assert Text.OccursAt("", name, 0);
    }
  }

  /** `list_presets()`, as a set of names. */
  function ListPresets(c: Config): (r: Result<set<string>>)
    ensures r.Success? ==> forall n :: n in r.value <==> GetPreset(c, n) != Success(None)
  {
    match Presets(c)
    case Some(ps) => Success(ps.Keys)
    case None => Failure("KeyError")
  }

  /** A saved preset reads back as saved, and the other presets are as they
      were. */
  lemma SaveThenGet(c: Config, name: string, data: Value, other: string)
    requires Presets(c).Some? && other != name
    ensures GetPreset(SavePreset(c, name, data).value, name) == Success(Some(data))
    ensures GetPreset(SavePreset(c, name, data).value, other) == GetPreset(c, other)
  {}

  /** Deleting reports whether the name was there; afterwards it is gone and
      the other presets are as they were. */
  lemma DeleteReports(c: Config, name: string, other: string)
    requires Presets(c).Some? && other != name
    ensures var r := DeletePreset(c, name).value;
            (r.1 <==> GetPreset(c, name) != Success(None)) &&
            GetPreset(r.0, name) == Success(None) &&
            GetPreset(r.0, other) == GetPreset(c, other)
  {}

  /** `get_api_key(service)`: `''` for a service never set. */
  function GetApiKey(c: Config, service: string): (r: Result<Value>)
    ensures r.Success? <==> "api_keys" in c && c["api_keys"].Dict?
    ensures r.Success? && service !in c["api_keys"].entries ==> r.value == Str("")
  {
    if "api_keys" in c && c["api_keys"].Dict? then
      var keys := c["api_keys"].entries;
      Success(if service in keys then keys[service] else Str(""))
    else Failure("KeyError")
  }

  /** `set_api_key(service, key)`. */
  function SetApiKey(c: Config, service: string, key: string): (r: Result<Config>)
    ensures r.Success? <==> "api_keys" in c && c["api_keys"].Dict?
  {
    if "api_keys" in c && c["api_keys"].Dict? then
      Success(c["api_keys" := Dict(c["api_keys"].entries[service := Str(key)])])
    else Failure("KeyError")
  }

  /** A key that was set reads back; on the defaults every key reads `''`. */
  lemma ApiKeyRoundTrip(c: Config, service: string, key: string)
    requires "api_keys" in c && c["api_keys"].Dict?
    ensures GetApiKey(SetApiKey(c, service, key).value, service) == Success(Str(key))
    ensures GetApiKey(DefaultConfig, service) == Success(Str(""))
  {}
}
