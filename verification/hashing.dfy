/** The duplicate finder and the hash comparisons of utils/hash_utils.py.
    Hash values are inputs: a function from path to the hex digest, `None`
    when the file could not be read. */
module Hashing {
  import opened Wrappers
  import Text

  // ---------------------------------------------------------------------
  // algorithm selection

  datatype Algorithm = Md5 | Sha1 | Sha256 | Sha512

  /** The `if`/`elif` chain of `calculate_file_hash`; the names are
      case-sensitive. */
  function AlgorithmNamed(name: string): (r: Option<Algorithm>)
    ensures r.Some? <==> name in {"md5", "sha1", "sha256", "sha512"}
  {
    if name == "md5" then Some(Md5)
    else if name == "sha1" then Some(Sha1)
    else if name == "sha256" then Some(Sha256)
    else if name == "sha512" then Some(Sha512)
    else None
  }

  /** `calculate_file_hash(path, algorithm)`; `digest(a)` is the file's hex
      digest under `a`, or `None` when reading it raised. */
  function FileHash(algorithm: string, digest: Algorithm -> Option<string>): (r: Option<string>)
    ensures AlgorithmNamed(algorithm).None? ==> r.None?
    ensures AlgorithmNamed(algorithm).Some? ==> r == digest(AlgorithmNamed(algorithm).value)
  {
    match AlgorithmNamed(algorithm)
    case None => None
    case Some(a) => digest(a)
  }

  // ---------------------------------------------------------------------
  // grouping by hash

  /** `if h:` on an optional digest. */
  predicate Truthy(h: Option<string>) {
    h.Some? && h.value != ""
  }

  /** A dictionary from hash to paths, kept in insertion order as Python
      keeps it. */
  type Buckets = seq<(string, seq<string>)>

  function Keys(b: Buckets): set<string> {
    if b == [] then {} else {b[0].0} + Keys(b[1..])
  }

  /** No hash is a key twice. */
  predicate DistinctKeys(b: Buckets) {
    b == [] || (b[0].0 !in Keys(b[1..]) && DistinctKeys(b[1..]))
  }

  /** `b.get(k, [])`. */
  function Lookup(b: Buckets, k: string): seq<string> {
    if b == [] then [] else if b[0].0 == k then b[0].1 else Lookup(b[1..], k)
  }

  /** `if k not in b: b[k] = []` then `b[k].append(p)`. */
  function Add(b: Buckets, k: string, p: string): Buckets {
    if b == [] then [(k, [p])]
    else if b[0].0 == k then [(k, b[0].1 + [p])] + b[1..]
    else [b[0]] + Add(b[1..], k, p)
  }

  lemma {:induction false} InKeys(b: Buckets, e: (string, seq<string>))
    requires e in b
    ensures e.0 in Keys(b)
    decreases |b|
  {
    if b[0] != e {
      InKeys(b[1..], e);
    }
  }

  /** A key of the dictionary has an entry, holding what `get` returns. */
  lemma {:induction false} KeyHasEntry(b: Buckets, k: string)
    requires k in Keys(b)
    ensures (k, Lookup(b, k)) in b
    decreases |b|
  {
    if b[0].0 != k {
      KeyHasEntry(b[1..], k);
    }
  }

  /** In a dictionary without repeated keys, `get` finds each entry. */
  lemma {:induction false} LookupEntry(b: Buckets, e: (string, seq<string>))
    requires DistinctKeys(b) && e in b
    ensures Lookup(b, e.0) == e.1
    decreases |b|
  {
    if b[0] != e {
      InKeys(b[1..], e);
      LookupEntry(b[1..], e);
    }
  }

  lemma {:induction false} LookupAbsent(b: Buckets, x: string)
    requires x !in Keys(b)
    ensures Lookup(b, x) == []
    decreases |b|
  {
    if b != [] {
      LookupAbsent(b[1..], x);
    }
  }

  /** Appending under `k` adds `p` to what `get(k)` returns and nothing
      else. */
  lemma {:induction false} AddLookup(b: Buckets, k: string, p: string, x: string)
    ensures Lookup(Add(b, k, p), x) == Lookup(b, x) + (if x == k then [p] else [])
    decreases |b|
  {
    if b != [] && b[0].0 != k && b[0].0 != x {
      AddLookup(b[1..], k, p, x);
    }
  }

  lemma {:induction false} AddKeys(b: Buckets, k: string, p: string)
    ensures Keys(Add(b, k, p)) == Keys(b) + {k}
    decreases |b|
  {
    if b != [] && b[0].0 != k {
      AddKeys(b[1..], k, p);
      assert Add(b, k, p)[1..] == Add(b[1..], k, p);
    } else if b != [] {
      assert Add(b, k, p)[1..] == b[1..];
    }
  }

  lemma {:induction false} AddDistinct(b: Buckets, k: string, p: string)
    requires DistinctKeys(b)
    ensures DistinctKeys(Add(b, k, p))
    decreases |b|
  {
    if b != [] {
      if b[0].0 != k {
        AddDistinct(b[1..], k, p);
        AddKeys(b[1..], k, p);
        assert Add(b, k, p)[1..] == Add(b[1..], k, p);
      } else {
        assert Add(b, k, p)[1..] == b[1..];
      }
    }
  }

  /** The loop that fills the dictionary: each path with a truthy hash is
      appended under that hash, in input order. */
  function Collect(paths: seq<string>, h: string -> Option<string>): Buckets
    decreases |paths|
  {
    if paths == [] then []
    else
      var n := |paths| - 1;
      var b := Collect(paths[..n], h);
      if Truthy(h(paths[n])) then Add(b, h(paths[n]).value, paths[n]) else b
  }

  /** The reference: the paths whose hash is `k`, in input order. */
  function Matching(paths: seq<string>, h: string -> Option<string>, k: string): (r: seq<string>)
    ensures forall p :: p in r <==> p in paths && h(p) == Some(k)
    decreases |paths|
  {
    if paths == [] then []
    else
      var n := |paths| - 1;
      assert forall p :: p in paths <==> p in paths[..n] || p == paths[n];
      Matching(paths[..n], h, k) + (if h(paths[n]) == Some(k) then [paths[n]] else [])
  }

  /** The dictionary built by the loop holds, under each non-empty hash
      `k`, exactly the paths whose hash is `k`, in order; its keys are the
      non-empty hashes some path has, each once. */
  lemma {:induction false} CollectSpec(paths: seq<string>, h: string -> Option<string>)
    ensures DistinctKeys(Collect(paths, h))
    ensures forall k :: k != "" ==> Lookup(Collect(paths, h), k) == Matching(paths, h, k)
    ensures forall k :: k in Keys(Collect(paths, h)) <==> k != "" && Matching(paths, h, k) != []
    decreases |paths|
  {
    if paths != [] {
      var n := |paths| - 1;
      CollectSpec(paths[..n], h);
      var b := Collect(paths[..n], h);
      if Truthy(h(paths[n])) {
        AddDistinct(b, h(paths[n]).value, paths[n]);
        AddKeys(b, h(paths[n]).value, paths[n]);
        forall k | k != "" ensures Lookup(Collect(paths, h), k) == Matching(paths, h, k) {
          AddLookup(b, h(paths[n]).value, paths[n], k);
        }
      }
    }
  }

  /** `{h: files for h, files in b.items() if len(files) > 1}`. */
  function Repeated(b: Buckets): (r: Buckets)
    ensures forall i :: 0 <= i < |r| ==> |r[i].1| > 1
    ensures forall e :: e in r <==> e in b && |e.1| > 1
  {
    if b == [] then []
    else (if |b[0].1| > 1 then [b[0]] else []) + Repeated(b[1..])
  }

  /** The values of the dictionary, one list after the other. */
  function Values(b: Buckets): (r: seq<string>)
    ensures forall p :: p in r <==> exists i :: 0 <= i < |b| && p in b[i].1
  {
    if b == [] then []
    else
      var rest := Values(b[1..]);
      assert forall i :: 1 <= i < |b| ==> b[i] == b[1..][i - 1];
      b[0].1 + rest
  }

  /** `find_duplicate_files(file_paths, use_quick_hash)`: `quick` and `full`
      give the quick (sampled MD5) and full (SHA-256) digest of a path. In
      quick mode only the paths whose quick digests collided get a full
      digest. */
  function FindDuplicates(paths: seq<string>, quick: string -> Option<string>, full: string -> Option<string>,
                          useQuick: bool): Buckets
  {
    if useQuick then Repeated(Collect(Values(Repeated(Collect(paths, quick))), full))
    else Repeated(Collect(paths, full))
  }

  lemma {:induction false} RepeatedDistinct(b: Buckets)
    requires DistinctKeys(b)
    ensures DistinctKeys(Repeated(b)) && Keys(Repeated(b)) <= Keys(b)
    decreases |b|
  {
    if b != [] {
      RepeatedDistinct(b[1..]);
      var r := Repeated(b);
      var rt := Repeated(b[1..]);
      if |b[0].1| > 1 {
        assert r == [b[0]] + rt;
        assert r[0] == b[0] && r[1..] == rt;
        assert Keys(r) == {b[0].0} + Keys(rt);
      } else {
        assert r == [] + rt == rt;
      }
    }
  }

  /** An entry of the duplicate dictionary is a non-empty hash with all the
      scanned paths that have it, at least two of them, and no hash appears
      twice. */
  lemma DuplicatesSound(scanned: seq<string>, full: string -> Option<string>)
    ensures var d := Repeated(Collect(scanned, full));
            DistinctKeys(d) &&
            forall e :: e in d ==> e.0 != "" && |e.1| >= 2 && e.1 == Matching(scanned, full, e.0)
  {
    CollectSpec(scanned, full);
    var b := Collect(scanned, full);
    RepeatedDistinct(b);
    forall e | e in Repeated(b) ensures e.0 != "" && e.1 == Matching(scanned, full, e.0) {
      InKeys(b, e);
      LookupEntry(b, e);
    }
  }

  /** Without the quick pass a path is reported exactly when its full hash is
      non-empty and shared with another scanned position. */
  lemma FullScanComplete(paths: seq<string>, full: string -> Option<string>, p: string)
    requires p in paths && Truthy(full(p))
    ensures (exists e :: e in FindDuplicates(paths, full, full, false) && p in e.1) <==>
            |Matching(paths, full, full(p).value)| >= 2
  {
    CollectSpec(paths, full);
    DuplicatesSound(paths, full);
    var b := Collect(paths, full);
    var k := full(p).value;
    if |Matching(paths, full, k)| >= 2 {
      KeyHasEntry(b, k);
      assert (k, Matching(paths, full, k)) in Repeated(b);
    }
  }

  /** A path with no digest, or an empty one, is in no group, in either
      mode. */
  lemma UnhashedNeverGrouped(paths: seq<string>, quick: string -> Option<string>, full: string -> Option<string>,
                             useQuick: bool, p: string)
    requires !Truthy(full(p))
    ensures forall e :: e in FindDuplicates(paths, quick, full, useQuick) ==> p !in e.1
  {
    var scanned := if useQuick then Values(Repeated(Collect(paths, quick))) else paths;
    DuplicatesSound(scanned, full);
  }

  /** In quick mode every reported path is a path whose quick digest it shares
      with some other scanned position. */
  lemma QuickModeInsideCollisions(paths: seq<string>, quick: string -> Option<string>, full: string -> Option<string>, p: string)
    requires exists e :: e in FindDuplicates(paths, quick, full, true) && p in e.1
    ensures p in paths && Truthy(quick(p)) && |Matching(paths, quick, quick(p).value)| >= 2
  {
    var qb := Collect(paths, quick);
    var cands := Values(Repeated(qb));
    DuplicatesSound(cands, full);
    assert p in cands;
    var j :| 0 <= j < |Repeated(qb)| && p in Repeated(qb)[j].1;
    var g := Repeated(qb)[j];
    DuplicatesSound(paths, quick);
    assert g in Repeated(qb);
  }

  // ---------------------------------------------------------------------
  // comparisons

  /** `compare_files_by_hash(file1, file2)` on the two digests. */
  function SameHash(h1: Option<string>, h2: Option<string>): (r: bool)
    ensures r ==> h1.Some? && h2.Some?
  {
    if h1.None? || h2.None? then false else h1.value == h2.value
  }

  /** The comparison is symmetric, false when either digest is missing, and
      true of a readable file with itself. */
  lemma SameHashSymmetric(h1: Option<string>, h2: Option<string>)
    ensures SameHash(h1, h2) == SameHash(h2, h1)
    ensures SameHash(h1, h2) <==> h1.Some? && h1 == h2
  {}

  /** `verify_file_integrity(path, expected)`: ASCII case is ignored. */
  function VerifyIntegrity(actual: Option<string>, expected: string): (r: bool)
    ensures actual.None? ==> !r
  {
    actual.Some? && Text.LowerStr(actual.value) == Text.LowerStr(expected)
  }

  lemma LowerUpper(s: string)
    ensures Text.LowerStr(Text.UpperStr(s)) == Text.LowerStr(s)
  {
    var a := Text.LowerStr(Text.UpperStr(s));
    forall k | 0 <= k < |s| ensures a[k] == Text.LowerStr(s)[k] {}
  }

  /** A digest verifies against itself written in upper or lower case. */
  lemma VerifyIgnoresCase(h: string, expected: string)
    ensures VerifyIntegrity(Some(h), h) && VerifyIntegrity(Some(h), Text.UpperStr(h))
    ensures VerifyIntegrity(Some(h), Text.UpperStr(expected)) == VerifyIntegrity(Some(h), expected)
    ensures VerifyIntegrity(Some(Text.UpperStr(h)), expected) == VerifyIntegrity(Some(h), expected)
  {
    LowerUpper(h);
    LowerUpper(expected);
  }

  // ---------------------------------------------------------------------
  // batches

  /** `batch_hash_files(file_paths, algorithm, progress_callback)`: the
      dictionary of readable files and the `(current, total)` pairs handed
      to the callback, when there is one. */
  method BatchHash(paths: seq<string>, hash: string -> Option<string>, hasCallback: bool)
    returns (results: map<string, string>, calls: seq<(nat, nat)>)
    ensures forall p :: p in results <==> p in paths && Truthy(hash(p))
    ensures forall p :: p in results ==> Some(results[p]) == hash(p)
    ensures hasCallback ==> |calls| == |paths| && forall i :: 0 <= i < |calls| ==> calls[i] == (i + 1, |paths|)
    ensures !hasCallback ==> calls == []
  {
    results := map[];
    calls := [];
    var i := 0;
    while i < |paths|
      invariant 0 <= i <= |paths|
      invariant forall p :: p in results <==> p in paths[..i] && Truthy(hash(p))
      invariant forall p :: p in results ==> Some(results[p]) == hash(p)
      invariant hasCallback ==> |calls| == i && forall j :: 0 <= j < i ==> calls[j] == (j + 1, |paths|)
      invariant !hasCallback ==> calls == []
    {
      var p := paths[i];
      assert paths[..i + 1] == paths[..i] + [p];
      var h := hash(p);
      if Truthy(h) {
        results := results[p := h.value];
      }
      if hasCallback {
        calls := calls + [(i + 1, |paths|)];
      }
      i := i + 1;
    }
    assert paths[..i] == paths;
  }
}
