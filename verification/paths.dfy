/** The POSIX flavour of `os.path` that the organiser relies on:
    `dirname`, `basename`, `join` and `splitext`. */
module Paths {
  import opened Text

  /** `p.rfind(c)`: the last index holding `c`, or -1. */
  function RFind(p: string, c: char): (k: int)
    ensures -1 <= k < |p|
    ensures k >= 0 ==> p[k] == c
    ensures forall j :: k < j < |p| ==> p[j] != c
  {
    if p == [] then -1
    else if p[|p| - 1] == c then |p| - 1
    else RFind(p[..|p| - 1], c)
  }

  /** `os.path.basename(p)`: everything after the last slash. */
  function Basename(p: string): (r: string)
    ensures '/' !in r
    ensures EndsWith(p, r)
    ensures '/' !in p ==> r == p
  {
    p[RFind(p, '/') + 1..]
  }

  predicate AllSlashes(s: string) {
    forall j :: 0 <= j < |s| ==> s[j] == '/'
  }

  /** `os.path.dirname(p)`: everything up to the last slash, with trailing
      slashes dropped unless the head is nothing but slashes. */
  function Dirname(p: string): (r: string)
    ensures StartsWith(p, r)
    ensures '/' !in p ==> r == ""
  {
    var head := p[..RFind(p, '/') + 1];
    if head != "" && !AllSlashes(head) then
      head[..|head| - CountTrailing(head, c => c == '/')]
    else head
  }

  /** `os.path.dirname(p)` is empty exactly for a path without a slash. */
  lemma DirnameEmptyIff(p: string)
    ensures Dirname(p) == "" <==> '/' !in p
  {
    var k := RFind(p, '/');
    if '/' in p {
      var head := p[..k + 1];
      assert head[|head| - 1] == '/';
      if !AllSlashes(head) {
        var n := CountTrailing(head, c => c == '/');
      }
    }
  }

  /** `os.path.join(a, b)`: an absolute `b` replaces `a`; otherwise a slash
      separates them unless `a` is empty or already ends with one. */
  function Join(a: string, b: string): (r: string)
    ensures EndsWith(r, b)
  {
    if StartsWith(b, "/") then b
    else if a == "" || a[|a| - 1] == '/' then a + b
    else a + "/" + b
  }

  /** `os.path.join(a, b, c, ...)`, folding from the left. */
  function JoinAll(a: string, parts: seq<string>): string
    decreases |parts|
  {
    if parts == [] then a else JoinAll(Join(a, parts[0]), parts[1..])
  }

  /** `os.path.splitext(p)`: the extension starts at the last dot of the
      last component, provided that component has something other than dots
      before it; a leading dot (".bashrc") starts no extension. */
  function Splitext(p: string): (r: (string, string))
    ensures r.0 + r.1 == p
    ensures r.1 != "" ==> r.1[0] == '.' && '/' !in r.1
    ensures forall j :: 0 < j < |r.1| ==> r.1[j] != '.'
  {
    var sep := RFind(p, '/');
    var dot := RFind(p, '.');
    if dot > sep && exists j :: sep + 1 <= j < dot && p[j] != '.' then
      assert forall j :: 0 <= j < |p[dot..]| ==> p[dot..][j] == p[dot + j];
      (p[..dot], p[dot..])
    else (p, "")
  }

  /** `os.path.splitext(p)[1]`. */
  function Ext(p: string): string {
    Splitext(p).1
  }

  lemma NotAbsolute(b: string)
    requires '/' !in b
    ensures !StartsWith(b, "/")
  {
    if |b| >= 1 {
      assert b[..1][0] == b[0];
    }
  }

  /** A plain name joined under a directory is that name's basename. */
  lemma BasenameOfJoin(a: string, b: string)
    requires b != "" && '/' !in b
    ensures Basename(Join(a, b)) == b
  {
    NotAbsolute(b);
    var r := Join(a, b);
    if a == "" {
      assert r == b;
    } else {
      var a' := if a[|a| - 1] == '/' then a else a + "/";
      assert r == a' + b;
      assert r[|a'| - 1] == '/';
      forall j | |a'| <= j < |r| ensures r[j] != '/' {
        assert r[j] == b[j - |a'|];
      }
      var k := RFind(r, '/');
      assert k == |a'| - 1;
      assert r[k + 1..] == b;
    }
  }

  /** Joining a plain name to a directory that does not end in a slash and
      taking the dirname gives back the directory. */
  lemma DirnameOfJoin(a: string, b: string)
    requires a != "" && a[|a| - 1] != '/' && '/' !in b
    ensures Dirname(Join(a, b)) == a
  {
    var r := Join(a, b);
    NotAbsolute(b);
    assert r == a + "/" + b;
    var k := RFind(r, '/');
    assert r[|a|] == '/';
    forall j | |a| < j < |r| ensures r[j] != '/' {
      assert r[j] == b[j - |a| - 1];
    }
    assert k == |a|;
    var head := r[..k + 1];
    assert head == a + "/";
    assert head[|a| - 1] == a[|a| - 1];
    assert !AllSlashes(head);
    var n := CountTrailing(head, c => c == '/');
    assert n == 1;
  }
}
