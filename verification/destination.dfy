/** Where the organiser puts a file: the date directory layouts of
    `create_date_based_directory`, the fixed date / camera / place nesting
    of `run_smart_organization`, and the `_1`, `_2`, … suffixes it tries
    when the destination is taken. */
module Destination {
  import opened Wrappers
  import opened Text
  import Paths
  import opened Calendar
  import opened MetaValues

  // ---------------------------------------------------------------------
  // date directories

  /** The `format_type` values `create_date_based_directory` knows. */
  datatype Layout = YearMonthDay | YearMonth | YearOnly | YearUnderMonth | YearMonthDayFlat | DayMonthYear | MonthYear

  /** The layout a `format_type` string selects; any other string falls
      back to year/month/day. */
  function LayoutNamed(formatType: string): (l: Layout)
    ensures l != YearMonthDay ==> formatType in LayoutNames
  {
    if formatType == "year/month/day" then YearMonthDay
    else if formatType == "year/month" then YearMonth
    else if formatType == "year" then YearOnly
    else if formatType == "year_month" then YearUnderMonth
    else if formatType == "year_month_day" then YearMonthDayFlat
    else if formatType == "day_month_year" then DayMonthYear
    else if formatType == "month_year" then MonthYear
    else YearMonthDay
  }

  const LayoutNames: set<string> :=
    {"year/month/day", "year/month", "year", "year_month", "year_month_day", "day_month_year", "month_year"}

  /** `str(date.year)`. */
  function YearText(dt: DateTime): (r: string)
    requires Valid(dt)
    ensures r != [] && AllDigits(r) && DigitsValue(r) == dt.year
  {
    DigitsValueOfNatToString(dt.year);
    NatToString(dt.year)
  }

  /** `f"{date.month:02d}"`. */
  function MonthText(dt: DateTime): (r: string)
    requires Valid(dt)
    ensures |r| == 2 && AllDigits(r) && DigitsValue(r) == dt.month
  {
    Fixed(dt.month, 2)
  }

  /** `f"{date.day:02d}"`. */
  function DayText(dt: DateTime): (r: string)
    requires Valid(dt)
    ensures |r| == 2 && AllDigits(r) && DigitsValue(r) == dt.day
  {
    Fixed(dt.day, 2)
  }

  predicate Plain(seg: string) {
    seg != [] && '/' !in seg
  }

  /** The directory names below the base, outermost first. */
  function DateSegments(dt: DateTime, l: Layout): (segs: seq<string>)
    requires Valid(dt)
    ensures 1 <= |segs| <= 3
    ensures forall j :: 0 <= j < |segs| ==> Plain(segs[j])
  {
    var y, m, d := YearText(dt), MonthText(dt), DayText(dt);
    match l
    case YearMonthDay => [y, m, y + "_" + m + "_" + d]
    case YearMonth => [y, y + "_" + m]
    case YearOnly => [y]
    case YearUnderMonth => [y + "_" + m]
    case YearMonthDayFlat => [y + "_" + m + "_" + d]
    case DayMonthYear => [d + "_" + m + "_" + y]
    case MonthYear => [m + "_" + y]
  }

  /** `create_date_based_directory(base_dir, date, format_type)`, without
      creating anything. */
  function DateDirectory(base: string, dt: DateTime, formatType: string): string
    requires Valid(dt)
  {
    Paths.JoinAll(base, DateSegments(dt, LayoutNamed(formatType)))
  }

  /** Which fields of the date a layout shows. */
  function Shown(dt: DateTime, l: Layout): (int, int, int) {
    match l
    case YearOnly => (dt.year, 0, 0)
    case YearMonth | YearUnderMonth | MonthYear => (dt.year, dt.month, 0)
    case _ => (dt.year, dt.month, dt.day)
  }

  /** Two texts joined by `_` come apart again when the parts after the
      `_` have the same width. */
  lemma UnderscoreSplit(a: string, b: string, c: string, d: string)
    requires |b| == |d|
    requires a + "_" + b == c + "_" + d
    ensures a == c && b == d
  {
    var x := a + "_" + b;
    assert |a| == |c|;
    assert a == x[..|a|] == c;
    assert b == x[|a| + 1..] == d;
  }

  /** Same, with the fixed-width parts in front. */
  lemma UnderscoreSplitFront(a: string, b: string, c: string, d: string)
    requires |a| == |c|
    requires a + "_" + b == c + "_" + d
    ensures a == c && b == d
  {
    var x := a + "_" + b;
    assert a == x[..|a|] == c;
    assert b == x[|a| + 1..] == d;
  }

  /** Two dates share a directory exactly when they agree on the fields the
      layout shows: nothing else is lost, and nothing collides. */
  lemma SameDirectoryIff(d1: DateTime, d2: DateTime, l: Layout)
    requires Valid(d1) && Valid(d2)
    ensures DateSegments(d1, l) == DateSegments(d2, l) <==> Shown(d1, l) == Shown(d2, l)
  {
    if DateSegments(d1, l) == DateSegments(d2, l) {
      SegmentsReveal(d1, d2, l);
    }
  }

  lemma SegmentsReveal(d1: DateTime, d2: DateTime, l: Layout)
    requires Valid(d1) && Valid(d2)
    requires DateSegments(d1, l) == DateSegments(d2, l)
    ensures Shown(d1, l) == Shown(d2, l)
  {
    var y1, m1, e1 := YearText(d1), MonthText(d1), DayText(d1);
    var y2, m2, e2 := YearText(d2), MonthText(d2), DayText(d2);
    var s1, s2 := DateSegments(d1, l), DateSegments(d2, l);
    assert s1[|s1| - 1] == s2[|s2| - 1];
    match l
    case YearMonthDay => ThreeSplit(y1, m1, e1, y2, m2, e2);
    case YearMonth => UnderscoreSplit(y1, m1, y2, m2);
    case YearOnly =>
    case YearUnderMonth => UnderscoreSplit(y1, m1, y2, m2);
    case YearMonthDayFlat => ThreeSplit(y1, m1, e1, y2, m2, e2);
    case DayMonthYear => ThreeSplitFront(e1, m1, y1, e2, m2, y2);
    case MonthYear => UnderscoreSplitFront(m1, y1, m2, y2);
  }

  /** `a_b_c` comes apart when `b` and `c` have fixed widths. */
  lemma ThreeSplit(a: string, b: string, c: string, a': string, b': string, c': string)
    requires |b| == |b'| && |c| == |c'|
    requires a + "_" + b + "_" + c == a' + "_" + b' + "_" + c'
    ensures a == a' && b == b' && c == c'
  {
    UnderscoreSplit(a + "_" + b, c, a' + "_" + b', c');
    UnderscoreSplit(a, b, a', b');
  }

  /** `a_b_c` comes apart when `a` and `b` have fixed widths. */
  lemma ThreeSplitFront(a: string, b: string, c: string, a': string, b': string, c': string)
    requires |a| == |a'| && |b| == |b'|
    requires a + "_" + b + "_" + c == a' + "_" + b' + "_" + c'
    ensures a == a' && b == b' && c == c'
  {
    var u, u' := "_" + c, "_" + c';
    assert a + "_" + b + "_" + c == a + "_" + (b + u);
    assert a' + "_" + b' + "_" + c' == a' + "_" + (b' + u');
    UnderscoreSplitFront(a, b + u, a', b' + u');
    assert b + "_" + c == b + u && b' + "_" + c' == b' + u';
    UnderscoreSplitFront(b, c, b', c');
  }

  /** The default layout reads `base/YYYY/MM/YYYY_MM_DD`, and any string
      other than the six other names selects it. */
  lemma DefaultLayout(dt: DateTime, formatType: string)
    requires Valid(dt) && formatType !in LayoutNames
    ensures LayoutNamed(formatType) == YearMonthDay
    ensures var segs := DateSegments(dt, LayoutNamed(formatType));
            |segs| == 3 && DigitsValue(segs[0]) == dt.year && DigitsValue(segs[1]) == dt.month &&
            segs[2] == segs[0] + "_" + segs[1] + "_" + DayText(dt)
  {}

  /** `JoinAll` adds its last part last. */
  lemma {:induction false} JoinAllSnoc(a: string, parts: seq<string>, x: string)
    ensures Paths.JoinAll(a, parts + [x]) == Paths.Join(Paths.JoinAll(a, parts), x)
    decreases |parts|
  {
    if parts != [] {
      assert (parts + [x])[1..] == parts[1..] + [x];
      JoinAllSnoc(Paths.Join(a, parts[0]), parts[1..], x);
    }
  }

  /** The last directory name of the layout is the basename of the whole
      date directory. */
  lemma DateDirectoryBasename(base: string, dt: DateTime, formatType: string)
    requires Valid(dt)
    ensures var segs := DateSegments(dt, LayoutNamed(formatType));
            Paths.Basename(DateDirectory(base, dt, formatType)) == segs[|segs| - 1]
  {
    var segs := DateSegments(dt, LayoutNamed(formatType));
    var n := |segs| - 1;
    assert segs == segs[..n] + [segs[n]];
    JoinAllSnoc(base, segs[..n], segs[n]);
    Paths.BasenameOfJoin(Paths.JoinAll(base, segs[..n]), segs[n]);
  }

  // ---------------------------------------------------------------------
  // the nesting of run_smart_organization

  /** `options.get(key, False)`, read for its truth. */
  predicate Flag(options: MetaMap, key: string) {
    Truthy(Get(options, Name(key), Bool(false)))
  }

  /** The directories below the target: the date (always in the default
      layout, whatever `date_format` says), then `"<make> <model>"`, then the
      place name, each only when its option is on and, for the date and the
      place, when one was found. */
  function TargetSegments(options: MetaMap, date: Option<DateTime>, make: string, model: string,
                          place: Option<string>): (segs: seq<string>)
    requires date.Some? ==> Valid(date.value)
  {
    (if Flag(options, "organize_by_date") && date.Some? then DateSegments(date.value, YearMonthDay) else []) +
    (if Flag(options, "organize_by_camera") then [make + " " + model] else []) +
    (if Flag(options, "organize_by_location") && place.Some? then [place.value] else [])
  }

  /** The organiser reads nothing but the three switches: `date_format`,
      `criteria_order` and every other option change nothing. */
  lemma OnlySwitchesMatter(o1: MetaMap, o2: MetaMap, date: Option<DateTime>, make: string, model: string,
                           place: Option<string>)
    requires date.Some? ==> Valid(date.value)
    requires Flag(o1, "organize_by_date") == Flag(o2, "organize_by_date")
    requires Flag(o1, "organize_by_camera") == Flag(o2, "organize_by_camera")
    requires Flag(o1, "organize_by_location") == Flag(o2, "organize_by_location")
    ensures TargetSegments(o1, date, make, model, place) == TargetSegments(o2, date, make, model, place)
  {}

  /** With every switch on and everything found, the nesting is date, then
      camera, then place, and the date part is the default layout. */
  lemma NestingOrder(options: MetaMap, dt: DateTime, make: string, model: string, place: string)
    requires Valid(dt)
    requires Flag(options, "organize_by_date") && Flag(options, "organize_by_camera") &&
             Flag(options, "organize_by_location")
    ensures var segs := TargetSegments(options, Some(dt), make, model, Some(place));
            |segs| == 5 && segs[..3] == DateSegments(dt, YearMonthDay) &&
            segs[3] == make + " " + model && segs[4] == place
  {}

  /** Missing switches read as off: no options, no nesting. */
  lemma NoOptionsFlat(date: Option<DateTime>, make: string, model: string, place: Option<string>)
    requires date.Some? ==> Valid(date.value)
    ensures TargetSegments(map[], date, make, model, place) == []
  {}

  // ---------------------------------------------------------------------
  // collisions

  /** `f"{base_name}_{counter}{ext}"` under `dir`. */
  function Candidate(dir: string, name: string, k: nat): string {
    Paths.Join(dir, CandidateName(name, k))
  }

  /** `os.path.join(dir, x)` is one-to-one in `x` among names that agree on
      being absolute. */
  lemma JoinInjective(dir: string, x: string, y: string)
    requires StartsWith(x, "/") == StartsWith(y, "/")
    requires Paths.Join(dir, x) == Paths.Join(dir, y)
    ensures x == y
  {
    if !StartsWith(x, "/") {
      var pre := if dir == "" || dir[|dir| - 1] == '/' then dir else dir + "/";
      var r := Paths.Join(dir, x);
      assert r == pre + x;
      assert x == r[|pre|..];
    }
  }

  /** The text of a numbered candidate, before joining. */
  function CandidateName(name: string, k: nat): string {
    Paths.Splitext(name).0 + "_" + NatToString(k) + Paths.Splitext(name).1
  }

  lemma CandidateNameInjective(name: string, j: nat, k: nat)
    requires CandidateName(name, j) == CandidateName(name, k)
    ensures j == k
  {
    var (base, ext) := Paths.Splitext(name);
    var x := CandidateName(name, j);
    var head := base + "_";
    assert x == head + NatToString(j) + ext;
    assert x == head + NatToString(k) + ext;
    assert NatToString(j) == x[|head|..|x| - |ext|];
    assert NatToString(k) == x[|head|..|x| - |ext|];
    NatToStringInjective(j, k);
  }

  lemma CandidateAbsoluteAlike(name: string, j: nat, k: nat)
    ensures StartsWith(CandidateName(name, j), "/") == StartsWith(CandidateName(name, k), "/")
  {
    var base := Paths.Splitext(name).0;
    var xj, xk := CandidateName(name, j), CandidateName(name, k);
    assert xj[..1] == [xj[0]] && xk[..1] == [xk[0]];
    if base != [] {
      assert xj[0] == base[0] == xk[0];
    } else {
      assert xj[0] == '_' == xk[0];
    }
  }

  /** Different counters give different candidates. */
  lemma CandidateInjective(dir: string, name: string, j: nat, k: nat)
    requires Candidate(dir, name, j) == Candidate(dir, name, k)
    ensures j == k
  {
    CandidateAbsoluteAlike(name, j, k);
    JoinInjective(dir, CandidateName(name, j), CandidateName(name, k));
    CandidateNameInjective(name, j, k);
  }

  /** The candidates `1..n`. */
  function Tried(dir: string, name: string, n: nat): (s: set<string>)
    ensures forall k :: 1 <= k <= n ==> Candidate(dir, name, k) in s
    ensures forall c :: c in s ==> exists k :: 1 <= k <= n && c == Candidate(dir, name, k)
  {
    if n == 0 then {} else Tried(dir, name, n - 1) + {Candidate(dir, name, n)}
  }

  lemma {:induction false} TriedSize(dir: string, name: string, n: nat)
    ensures |Tried(dir, name, n)| == n
  {
    if n > 0 {
      TriedSize(dir, name, n - 1);
      if Candidate(dir, name, n) in Tried(dir, name, n - 1) {
        var k :| 1 <= k <= n - 1 && Candidate(dir, name, n) == Candidate(dir, name, k);
        CandidateInjective(dir, name, n, k);
      }
    }
  }

  lemma {:induction false} TriedWithin(dir: string, name: string, existing: set<string>, n: nat)
    requires forall k :: 1 <= k <= n ==> Candidate(dir, name, k) in existing
    ensures Tried(dir, name, n) <= existing
  {
    if n > 0 {
      TriedWithin(dir, name, existing, n - 1);
    }
  }

  lemma SubsetSize(a: set<string>, b: set<string>)
    requires a <= b
    ensures |a| <= |b|
  {
    assert b == a + (b - a);
  }

  /** Only finitely many candidates can be taken: the loop ends. */
  lemma TakenBound(dir: string, name: string, existing: set<string>, n: nat)
    requires forall k :: 1 <= k <= n ==> Candidate(dir, name, k) in existing
    ensures n <= |existing|
  {
    TriedSize(dir, name, n);
    TriedWithin(dir, name, existing, n);
    SubsetSize(Tried(dir, name, n), existing);
  }

  /** All of `1..c-1` taken. */
  predicate TakenBelow(dir: string, name: string, existing: set<string>, c: nat) {
    forall k :: 1 <= k < c ==> Candidate(dir, name, k) in existing
  }

  /** The first free counter from `c` on. */
  function FirstFree(dir: string, name: string, existing: set<string>, c: nat): (k: nat)
    requires 1 <= c && TakenBelow(dir, name, existing, c)
    ensures c <= k && Candidate(dir, name, k) !in existing
    ensures TakenBelow(dir, name, existing, k)
    decreases |existing| + 1 - c
  {
    TakenBound(dir, name, existing, c - 1);
    if Candidate(dir, name, c) !in existing then c
    else
      TakenBound(dir, name, existing, c);
      FirstFree(dir, name, existing, c + 1)
  }

  /** The destination the organiser copies to: `dir/name` when it is free,
      otherwise the first free `base_k ext`. */
  function FreeDestination(dir: string, name: string, existing: set<string>): (dest: string)
    ensures dest !in existing
    ensures Paths.Join(dir, name) !in existing ==> dest == Paths.Join(dir, name)
  {
    if Paths.Join(dir, name) !in existing then Paths.Join(dir, name)
    else Candidate(dir, name, FirstFree(dir, name, existing, 1))
  }

  /** The duplicate loop of `run_smart_organization`, as written: keep
      counting until a candidate is free. */
  method ResolveCollision(dir: string, name: string, existing: set<string>) returns (dest: string, counter: nat)
    ensures dest == FreeDestination(dir, name, existing)
    ensures dest !in existing
    ensures Paths.Join(dir, name) in existing ==>
              counter >= 1 && dest == Candidate(dir, name, counter) && TakenBelow(dir, name, existing, counter)
  {
    dest := Paths.Join(dir, name);
    counter := 0;
    if dest in existing {
      var c: nat := 1;
      dest := Candidate(dir, name, c);
      while dest in existing
        invariant 1 <= c && dest == Candidate(dir, name, c)
        invariant TakenBelow(dir, name, existing, c)
        decreases |existing| + 1 - c
      {
        TakenBound(dir, name, existing, c);
        c := c + 1;
        dest := Candidate(dir, name, c);
      }
      counter := c;
      FirstFreeIs(dir, name, existing, 1, c);
    }
  }

  /** Any free counter with every smaller one taken is the one `FirstFree`
      finds. */
  lemma {:induction false} FirstFreeIs(dir: string, name: string, existing: set<string>, c: nat, k: nat)
    requires 1 <= c <= k && TakenBelow(dir, name, existing, k) && Candidate(dir, name, k) !in existing
    ensures FirstFree(dir, name, existing, c) == k
    decreases k - c
  {
    TakenBound(dir, name, existing, c - 1);
    if c < k {
      TakenBound(dir, name, existing, c);
      FirstFreeIs(dir, name, existing, c + 1, k);
    }
  }

  /** The rename step of `organize_by_location` as written: one attempt,
      numbered by how many files were processed so far, without looking at
      whether that name is taken. */
  function LocationDestination(dir: string, name: string, processed: nat, existing: set<string>): (dest: string)
    ensures Paths.Join(dir, name) !in existing ==> dest == Paths.Join(dir, name)
    ensures Paths.Join(dir, name) in existing ==> dest == Candidate(dir, name, processed)
  {
    if Paths.Join(dir, name) in existing then Candidate(dir, name, processed) else Paths.Join(dir, name)
  }

  /** When both `dir/name` and its numbered variant exist, the single
      attempt lands on an existing file, which the copy then overwrites. */
  lemma LocationRenameCollides(dir: string, name: string, processed: nat)
    ensures var existing := {Paths.Join(dir, name), Candidate(dir, name, processed)};
            LocationDestination(dir, name, processed, existing) in existing
  {}

  /** The evidently intended rename for `organize_by_location`: the same
      first-free search the smart organiser uses. It never lands on an
      existing file. */
  function LocationDestinationFixed(dir: string, name: string, existing: set<string>): (dest: string)
    ensures dest !in existing
    ensures Paths.Join(dir, name) !in existing ==> dest == Paths.Join(dir, name)
  {
    FreeDestination(dir, name, existing)
  }
}
