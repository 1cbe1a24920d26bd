/** `normalize_filename` and `get_files_by_extension` of utils/file_utils.py.
    Names are ASCII text; the directory listing and the `os.walk` traversal
    are inputs. */
module FileFilters {
  import opened Text
  import Paths

  predicate Ascii(s: string) {
    forall k :: 0 <= k < |s| ==> s[k] < 128 as char
  }

  /** `[\w\s-]`: the characters the first substitution leaves alone. */
  predicate Kept(c: char) {
    IsWordChar(c) || IsSpace(c) || c == '-'
  }

  /** The characters a normalised base may contain: `\w` and the hyphen. */
  predicate SafeChar(c: char) {
    IsWordChar(c) || c == '-'
  }

  /** What a normalised base looks like: only safe characters, and no
      underscore at either end. */
  predicate SafeBase(b: string) {
    (forall k :: 0 <= k < |b| ==> SafeChar(b[k])) &&
    (b != [] ==> b[0] != '_' && b[|b| - 1] != '_')
  }

  /** `re.sub(r'[^\w\s-]', '_', base)`. */
  function Sanitize(s: string): (r: string)
    ensures |r| == |s|
  {
    if s == [] then [] else [if Kept(s[0]) then s[0] else '_'] + Sanitize(s[1..])
  }

  /** The substitution leaves `[\w\s-]` alone and turns everything else
      into an underscore. */
  lemma {:induction false} SanitizeChars(s: string)
    ensures forall k :: 0 <= k < |s| ==> Kept(Sanitize(s)[k])
    ensures forall k :: 0 <= k < |s| ==> (Sanitize(s)[k] == s[k] <==> Kept(s[k]))
  {
    if s != [] {
      SanitizeChars(s[1..]);
      assert forall k :: 1 <= k < |s| ==> Sanitize(s)[k] == Sanitize(s[1..])[k - 1];
    }
  }

  /** `re.sub(r'[\s]+', '_', base)`: every run of whitespace, taken whole,
      becomes one underscore. A space followed by another space is dropped;
      the last space of a run is the one replaced. */
  function Collapse(s: string): string
  {
    if s == [] then [] else Piece(s) + Collapse(s[1..])
  }

  /** What the first character of `s` contributes. */
  function Piece(s: string): string
    requires s != []
  {
    if !IsSpace(s[0]) then [s[0]]
    else if |s| > 1 && IsSpace(s[1]) then []
    else "_"
  }

  /** The first character contributes the same whatever follows, unless it
      is a space with nothing after it. */
  lemma PieceConcat(a: string, t: string)
    requires a != [] && (IsSpace(a[0]) ==> |a| > 1)
    ensures Piece(a + t) == Piece(a)
  {
    assert (a + t)[0] == a[0];
    assert |a| > 1 ==> (a + t)[1] == a[1];
  }

  /** No whitespace survives, and every other character of the result is an
      underscore or comes from the input. */
  lemma {:induction false} CollapseChars(s: string)
    ensures forall k :: 0 <= k < |Collapse(s)| ==>
              !IsSpace(Collapse(s)[k]) && (Collapse(s)[k] == '_' || Collapse(s)[k] in s)
  {
    if s != [] {
      var t := s[1..];
      CollapseChars(t);
      assert forall x :: x in t ==> x in s;
      var r := Collapse(s);
      var h := Piece(s);
      assert forall k :: |h| <= k < |r| ==> r[k] == Collapse(t)[k - |h|];
    }
  }

  /** A leading whitespace run becomes one underscore. */
  lemma {:induction false} CollapseLeadingRun(w: string, b: string)
    requires w != [] && forall k :: 0 <= k < |w| ==> IsSpace(w[k])
    requires b != [] ==> !IsSpace(b[0])
    ensures Collapse(w + b) == "_" + Collapse(b)
  {
    var s := w + b;
    assert s[0] == w[0];
    assert s[1..] == w[1..] + b;
    if |w| == 1 {
      assert w[1..] + b == b;
      assert |s| > 1 ==> s[1] == b[0];
    } else {
      assert s[1] == w[1];
      CollapseLeadingRun(w[1..], b);
    }
  }

  /** `Collapse` steps over the first character of `a` the same way
      whatever follows `a`. */
  lemma CollapseCons(a: string, t: string)
    requires a != [] && (IsSpace(a[0]) ==> |a| > 1)
    ensures Collapse(a + t) == Piece(a) + Collapse(a[1..] + t)
  {
    assert (a + t)[1..] == a[1..] + t;
    PieceConcat(a, t);
  }

  /** Text ending in a non-space character is collapsed on its own: what
      follows cannot merge with it. */
  lemma {:induction false} CollapseAppend(x: string, y: string)
    requires x != [] ==> !IsSpace(x[|x| - 1])
    ensures Collapse(x + y) == Collapse(x) + Collapse(y)
    decreases |x|
  {
    if x == [] {
      assert x + y == y;
    } else {
      CollapseCons(x, y);
      var x' := x[1..];
      assert x' != [] ==> x'[|x'| - 1] == x[|x| - 1];
      CollapseAppend(x', y);
      var p, u, v := Piece(x), Collapse(x'), Collapse(y);
      assert Collapse(x) == p + u;
      assert p + (u + v) == (p + u) + v;
    }
  }

  /** A whitespace run between two non-space neighbours turns into exactly
      one underscore, and the text on either side is treated on its own. */
  lemma CollapseRun(a: string, w: string, b: string)
    requires w != [] && forall k :: 0 <= k < |w| ==> IsSpace(w[k])
    requires a != [] ==> !IsSpace(a[|a| - 1])
    requires b != [] ==> !IsSpace(b[0])
    ensures Collapse(a + (w + b)) == Collapse(a) + "_" + Collapse(b)
  {
    CollapseAppend(a, w + b);
    CollapseLeadingRun(w, b);
  }

  /** Text without whitespace is left as it is. */
  lemma {:induction false} CollapseUnspaced(s: string)
    requires forall k :: 0 <= k < |s| ==> !IsSpace(s[k])
    ensures Collapse(s) == s
    decreases |s|
  {
    if s != [] {
      CollapseUnspaced(s[1..]);
    }
  }

  /** Text of kept characters only is left as it is. */
  lemma {:induction false} SanitizeKept(s: string)
    requires forall k :: 0 <= k < |s| ==> Kept(s[k])
    ensures Sanitize(s) == s
  {
    if s != [] {
      SanitizeKept(s[1..]);
    }
  }

  /** After both substitutions only `\w` and the hyphen are left. */
  lemma SubstitutedSafe(base: string)
    ensures forall k :: 0 <= k < |Collapse(Sanitize(base))| ==> SafeChar(Collapse(Sanitize(base))[k])
  {
    SanitizeChars(base);
    CollapseChars(Sanitize(base));
    var s := Sanitize(base);
    assert forall x :: x in s ==> Kept(x);
  }

  /** Stripping keeps a contiguous part of the text. */
  lemma StripInside(s: string, c: char)
    ensures forall k :: 0 <= k < |StripChar(s, c)| ==> StripChar(s, c)[k] in s
  {
    var t := DropLeading(s, c);
    var r := DropTrailing(t, c);
    forall k | 0 <= k < |r| ensures r[k] in s {
      assert r[k] == t[k];
      assert t[k] == s[|s| - |t| + k];
    }
  }

  /** `base.strip('_')` after the two substitutions. */
  function NormalizeBase(base: string): (r: string)
    ensures SafeBase(r)
  {
    var c := Collapse(Sanitize(base));
    SubstitutedSafe(base);
    StripInside(c, '_');
    assert forall x :: x in c ==> SafeChar(x);
    StripChar(c, '_')
  }

  /** `normalize_filename(filename)`: the extension, as `os.path.splitext`
      splits it at the last dot, is kept unchanged at the end; everything
      before it is a safe base. */
  function NormalizeFilename(filename: string): (r: string)
    requires Ascii(filename)
    ensures var e := Paths.Ext(filename);
            |e| <= |r| && r[|r| - |e|..] == e && SafeBase(r[..|r| - |e|])
  {
    var parts := Paths.Splitext(filename);
    var b := NormalizeBase(parts.0);
    assert (b + parts.1)[..|b|] == b;
    b + parts.1
  }

  /** A safe base is a fixed point of the base normalisation. */
  lemma NormalizeBaseSafe(b: string)
    requires SafeBase(b)
    ensures NormalizeBase(b) == b
  {
    SanitizeKept(b);
    CollapseUnspaced(b);
    if b != [] {
      assert DropLeading(b, '_') == b;
      assert DropTrailing(b, '_') == b;
    }
  }

  /** A name whose last dot opens the extension, with something other than a
      dot before it, splits there. */
  lemma SplitextAt(b: string, e: string)
    requires b != [] && b[0] != '.' && '/' !in b && '.' !in b
    requires e != [] ==> e[0] == '.' && '/' !in e
    requires forall j :: 0 < j < |e| ==> e[j] != '.'
    ensures Paths.Splitext(b + e) == (b, e)
  {
    var p := b + e;
    assert forall j :: 0 <= j < |b| ==> p[j] == b[j];
    assert forall j :: |b| <= j < |p| ==> p[j] == e[j - |b|];
    assert '/' !in p;
    assert Paths.RFind(p, '/') == -1;
    var dot := Paths.RFind(p, '.');
    if e == [] {
      assert p == b;
    } else {
      assert p[|b|] == '.';
      assert dot == |b|;
      assert p[0] != '.';
      assert p[..dot] == b && p[dot..] == e;
    }
  }

  /** A name whose only dot is its first character has no extension. */
  lemma SplitextDotFile(e: string)
    requires e != [] && e[0] == '.' && '/' !in e
    requires forall j :: 0 < j < |e| ==> e[j] != '.'
    ensures Paths.Splitext(e) == (e, "")
  {
    assert Paths.RFind(e, '/') == -1;
    assert Paths.RFind(e, '.') == 0;
  }

  lemma SafeBaseNoDot(b: string)
    requires SafeBase(b)
    ensures '/' !in b && '.' !in b && Ascii(b)
  {
    assert forall k :: 0 <= k < |b| ==> b[k] != '/' && b[k] != '.' && b[k] < 128 as char;
  }

  /** A normalised name with a non-empty base: the base is safe and the
      extension is the original one. */
  lemma NormalizedParts(filename: string)
    requires Ascii(filename)
    ensures var parts := Paths.Splitext(filename);
            var b := NormalizeBase(parts.0);
            NormalizeFilename(filename) == b + parts.1 && Ascii(b + parts.1)
  {
    var parts := Paths.Splitext(filename);
    var b := NormalizeBase(parts.0);
    SafeBaseNoDot(b);
    AsciiSuffix(parts.0, parts.1);
    AsciiConcat(b, parts.1);
  }

  lemma AsciiSuffix(x: string, y: string)
    requires Ascii(x + y)
    ensures Ascii(y)
  {
    assert forall j :: 0 <= j < |y| ==> y[j] == (x + y)[|x| + j];
  }

  lemma AsciiConcat(x: string, y: string)
    requires Ascii(x) && Ascii(y)
    ensures Ascii(x + y)
  {
    assert forall j :: |x| <= j < |x + y| ==> (x + y)[j] == y[j - |x|];
  }

  /** Normalising a name whose base survives normalisation changes nothing
      more. */
  lemma NormalizeIdempotent(filename: string)
    requires Ascii(filename)
    requires |NormalizeFilename(filename)| > |Paths.Ext(filename)|
    ensures Ascii(NormalizeFilename(filename))
    ensures NormalizeFilename(NormalizeFilename(filename)) == NormalizeFilename(filename)
  {
    var parts := Paths.Splitext(filename);
    var b := NormalizeBase(parts.0);
    var e := parts.1;
    NormalizedParts(filename);
    SafeBaseNoDot(b);
    SplitextAt(b, e);
    NormalizeBaseSafe(b);
  }

  /** A base made of underscores vanishes. */
  lemma UnderscoresVanish(s: string)
    requires forall k :: 0 <= k < |s| ==> s[k] == '_'
    ensures NormalizeBase(s) == ""
  {
    SanitizeKept(s);
    CollapseUnspaced(s);
    assert forall k :: 0 <= k < |StripChar(s, '_')| ==> StripChar(s, '_')[k] == '_' by {
      StripInside(s, '_');
    }
  }

  lemma StripDotName(s: string)
    requires s == ".jpg"
    ensures NormalizeBase(s) == "jpg"
  {
    var t := "_jpg";
    assert Sanitize(s) == t;
    CollapseUnspaced(t);
    assert t[1..] == "jpg";
    assert DropLeading(t, '_') == "jpg";
  }

  /** Without the idempotence condition the name can change again: a base
      made of underscores vanishes, and the bare extension that is left is
      then read as a base of its own. */
  lemma NormalizeNotIdempotent(f: string, g: string)
    requires f == "___.jpg" && g == ".jpg"
    ensures Ascii(f) && NormalizeFilename(f) == g
    ensures Ascii(g) && NormalizeFilename(g) == "jpg"
  {
    UnderscoreName(f, "___", g);
    UnderscoresVanish("___");
    DotName(g);
    StripDotName(g);
  }

  lemma UnderscoreName(f: string, b: string, g: string)
    requires f == "___.jpg" && b == "___" && g == ".jpg"
    ensures Ascii(f) && Paths.Splitext(f) == (b, g)
  {
    assert f == b + g;
    assert '/' !in b && '.' !in b;
    assert '/' !in g;
    SplitextAt(b, g);
  }

  lemma DotName(g: string)
    requires g == ".jpg"
    ensures Ascii(g) && Paths.Splitext(g) == (g, "")
  {
    assert '/' !in g;
    SplitextDotFile(g);
  }

  // ---------------------------------------------------------------------
  // get_files_by_extension

  /** `any(filename.lower().endswith(ext) for ext in extensions)`. */
  predicate Matches(name: string, extensions: seq<string>) {
    exists e :: e in extensions && EndsWith(LowerStr(name), e)
  }

  /** An extension written with an upper-case letter matches no name: the
      names are lower-cased, the extensions are not. */
  lemma UpperExtNeverMatches(name: string, e: string)
    requires exists k :: 0 <= k < |e| && IsUpper(e[k])
    ensures !EndsWith(LowerStr(name), e)
  {
    var l := LowerStr(name);
    var k :| 0 <= k < |e| && IsUpper(e[k]);
    if |e| <= |l| {
      assert l[|l| - |e|..][k] == l[|l| - |e| + k] != e[k];
    }
  }

  /** An entry of `os.listdir`, with whether `os.path.isfile` holds for it. */
  datatype Entry = Entry(name: string, isFile: bool)

  predicate Picked(entry: Entry, extensions: seq<string>) {
    entry.isFile && Matches(entry.name, extensions)
  }

  /** The non-recursive branch: the regular files of the listing whose name
      matches, joined to the directory. */
  function Listed(directory: string, listing: seq<Entry>, extensions: seq<string>): (r: seq<string>)
    ensures |r| <= |listing|
    decreases |listing|
  {
    if listing == [] then []
    else
      var n := |listing| - 1;
      var rest := Listed(directory, listing[..n], extensions);
      if Picked(listing[n], extensions) then rest + [Paths.Join(directory, listing[n].name)] else rest
  }

  /** Exactly the regular files whose name matches are listed. */
  lemma {:induction false} ListedIff(directory: string, listing: seq<Entry>, extensions: seq<string>)
    ensures forall p :: p in Listed(directory, listing, extensions) <==>
              exists k :: 0 <= k < |listing| && Picked(listing[k], extensions) && p == Paths.Join(directory, listing[k].name)
    decreases |listing|
  {
    if listing != [] {
      var n := |listing| - 1;
      var pre := listing[..n];
      ListedIff(directory, pre, extensions);
      assert forall k :: 0 <= k < n ==> pre[k] == listing[k];
      forall p | p in Listed(directory, listing, extensions)
        ensures exists k :: 0 <= k < |listing| && Picked(listing[k], extensions) && p == Paths.Join(directory, listing[k].name)
      {
        if p !in Listed(directory, pre, extensions) {
          assert Picked(listing[n], extensions) && p == Paths.Join(directory, listing[n].name);
        }
      }
    }
  }

  /** The files come out in listing order: listing `a` then `b` yields the
      files of `a` then those of `b`. */
  lemma {:induction false} ListedAppend(directory: string, a: seq<Entry>, b: seq<Entry>, extensions: seq<string>)
    ensures Listed(directory, a + b, extensions) == Listed(directory, a, extensions) + Listed(directory, b, extensions)
    decreases |b|
  {
    if b == [] {
      assert a + b == a;
    } else {
      var n := |b| - 1;
      assert (a + b)[..|a + b| - 1] == a + b[..n];
      assert (a + b)[|a + b| - 1] == b[n];
      ListedAppend(directory, a, b[..n], extensions);
    }
  }

  /** One step of `os.walk`: a directory and the file names in it. */
  datatype Visit = Visit(root: string, filenames: seq<string>)

  /** The names of one directory that match, joined to it, in order. */
  function Matching(root: string, names: seq<string>, extensions: seq<string>): (r: seq<string>)
    ensures forall p :: p in r <==>
              exists k :: 0 <= k < |names| && Matches(names[k], extensions) && p == Paths.Join(root, names[k])
  {
    if names == [] then []
    else
      (if Matches(names[0], extensions) then [Paths.Join(root, names[0])] else []) +
      Matching(root, names[1..], extensions)
  }

  /** The recursive branch over the directories `os.walk` visits, in visit
      order; no `isfile` test is made. */
  function Walked(walk: seq<Visit>, extensions: seq<string>): (r: seq<string>)
    ensures forall p :: p in r <==>
              exists v, k :: v in walk && 0 <= k < |v.filenames| && Matches(v.filenames[k], extensions) &&
                             p == Paths.Join(v.root, v.filenames[k])
  {
    if walk == [] then []
    else Matching(walk[0].root, walk[0].filenames, extensions) + Walked(walk[1..], extensions)
  }

  /** `get_files_by_extension(directory, extensions, recursive)`. */
  function FilesByExtension(directory: string, extensions: seq<string>, recursive: bool,
                            walk: seq<Visit>, listing: seq<Entry>): seq<string> {
    if recursive then Walked(walk, extensions) else Listed(directory, listing, extensions)
  }

  /** With only upper-case extensions nothing is found, whichever branch
      runs. */
  lemma UpperCaseFindsNothing(directory: string, extensions: seq<string>, recursive: bool,
                              walk: seq<Visit>, listing: seq<Entry>)
    requires forall e :: e in extensions ==> exists k :: 0 <= k < |e| && IsUpper(e[k])
    ensures FilesByExtension(directory, extensions, recursive, walk, listing) == []
  {
    forall name: string ensures !Matches(name, extensions) {
      forall e | e in extensions ensures !EndsWith(LowerStr(name), e) {
        UpperExtNeverMatches(name, e);
      }
    }
    if recursive {
      WalkedNothing(walk, extensions);
    } else {
      ListedNothing(directory, listing, extensions);
    }
  }

  lemma {:induction false} ListedNothing(directory: string, listing: seq<Entry>, extensions: seq<string>)
    requires forall name: string :: !Matches(name, extensions)
    ensures Listed(directory, listing, extensions) == []
    decreases |listing|
  {
    if listing != [] {
      ListedNothing(directory, listing[..|listing| - 1], extensions);
    }
  }

  lemma {:induction false} MatchingNothing(root: string, names: seq<string>, extensions: seq<string>)
    requires forall name: string :: !Matches(name, extensions)
    ensures Matching(root, names, extensions) == []
    decreases |names|
  {
    if names != [] {
      MatchingNothing(root, names[1..], extensions);
    }
  }

  lemma {:induction false} WalkedNothing(walk: seq<Visit>, extensions: seq<string>)
    requires forall name: string :: !Matches(name, extensions)
    ensures Walked(walk, extensions) == []
    decreases |walk|
  {
    if walk != [] {
      MatchingNothing(walk[0].root, walk[0].filenames, extensions);
      WalkedNothing(walk[1..], extensions);
    }
  }
}
