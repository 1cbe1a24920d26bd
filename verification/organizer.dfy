/** The bookkeeping of `run_smart_organization`: the result counters, the
    error messages, and the progress values handed to the callback. What
    happens to each file (missing, copied or moved, failed) is an input. */
module Organizer {

  /** What became of one file. `Absent`: `os.path.exists` was false;
      `Failed`: the copy or move returned False or something raised, with
      the message the source logs. */
  datatype Outcome = Absent | Done | Failed(message: string)

  /** The dictionary `run_smart_organization` returns; `messages` is the
      `results['errors']` list (absent when empty). */
  datatype Summary = Summary(total: nat, processed: nat, skipped: nat, errors: nat, messages: seq<string>)

  const NothingToDo: string := "Aucun fichier à traiter"

  function MissingMessage(path: string): string {
    "Le fichier n'existe pas: " + path
  }

  /** How many outcomes are `Done`. */
  function CountDone(outcomes: seq<Outcome>): (n: nat)
    ensures n <= |outcomes|
  {
    if outcomes == [] then 0
    else CountDone(outcomes[..|outcomes| - 1]) + (if outcomes[|outcomes| - 1].Done? then 1 else 0)
  }

  /** The messages the loop appends, in file order. */
  function Messages(paths: seq<string>, outcomes: seq<Outcome>): (ms: seq<string>)
    requires |paths| == |outcomes|
    ensures |ms| == |outcomes| - CountDone(outcomes)
  {
    if outcomes == [] then []
    else
      var n := |outcomes| - 1;
      Messages(paths[..n], outcomes[..n]) + Note(paths[n], outcomes[n])
  }

  /** The message one file adds, if any. */
  function Note(path: string, o: Outcome): seq<string> {
    match o
    case Absent => [MissingMessage(path)]
    case Done => []
    case Failed(m) => [m]
  }

  /** One more file extends the counts and messages by its own. */
  lemma StepOne(paths: seq<string>, outcomes: seq<Outcome>, i: nat)
    requires |paths| == |outcomes| && i < |outcomes|
    ensures CountDone(outcomes[..i + 1]) == CountDone(outcomes[..i]) + (if outcomes[i].Done? then 1 else 0)
    ensures Messages(paths[..i + 1], outcomes[..i + 1]) == Messages(paths[..i], outcomes[..i]) + Note(paths[i], outcomes[i])
  {
    assert outcomes[..i + 1][..i] == outcomes[..i];
    assert paths[..i + 1][..i] == paths[..i];
  }

  /** `i / len(file_paths) * 100` for every file, sent before the file is
      looked at, so also for files that turn out to be missing. */
  function Progress(n: nat): (ps: seq<real>)
    ensures |ps| == n
    ensures forall i :: 0 <= i < n ==> ps[i] == Percent(i, n)
  {
    seq(n, i requires 0 <= i < n => Percent(i, n))
  }

  /** `i / n * 100`. */
  function Percent(i: nat, n: nat): real
    requires n > 0
  {
    (i as real) / (n as real) * 100.0
  }

  /** The processing loop over a non-empty list and a writable target. */
  method Organise(paths: seq<string>, outcomes: seq<Outcome>) returns (s: Summary, progress: seq<real>)
    requires |paths| == |outcomes|
    ensures s.total == |paths| && s.skipped == 0
    ensures s.processed == CountDone(outcomes)
    ensures s.processed + s.errors == s.total
    ensures s.messages == Messages(paths, outcomes)
    ensures progress == Progress(|paths|)
  {
    var n := |paths|;
    s := Summary(n, 0, 0, 0, []);
    progress := [];
    var i := 0;
    while i < n
      invariant 0 <= i <= n
      invariant s.total == n && s.skipped == 0
      invariant s.processed == CountDone(outcomes[..i])
      invariant s.processed + s.errors == i
      invariant s.messages == Messages(paths[..i], outcomes[..i])
      invariant progress == Progress(n)[..i]
    {
      progress := progress + [Percent(i, n)];
      assert Progress(n)[..i + 1] == Progress(n)[..i] + [Progress(n)[i]];
      StepOne(paths, outcomes, i);
      match outcomes[i] {
        case Absent =>
          s := s.(errors := s.errors + 1, messages := s.messages + [MissingMessage(paths[i])]);
        case Done =>
          s := s.(processed := s.processed + 1);
        case Failed(m) =>
          s := s.(errors := s.errors + 1, messages := s.messages + [m]);
      }
      i := i + 1;
    }
    assert outcomes[..n] == outcomes;
    assert paths[..n] == paths;
  }

  /** `run_smart_organization` as a whole: an empty list and an unwritable
      target end before the loop. */
  method RunSmartOrganization(paths: seq<string>, outcomes: seq<Outcome>, writable: bool, writeError: string)
    returns (s: Summary, progress: seq<real>)
    requires |paths| == |outcomes|
    ensures s.total == |paths| && s.skipped == 0
    ensures s.processed + s.errors == s.total
    ensures paths == [] ==> s == Summary(0, 0, 0, 0, [NothingToDo]) && progress == []
    ensures paths != [] && !writable ==> s.errors == |paths| && |s.messages| == 1 && progress == []
    ensures paths != [] && writable ==> s.processed == CountDone(outcomes) && progress == Progress(|paths|)
  {
    if paths == [] {
      s, progress := Summary(0, 0, 0, 0, [NothingToDo]), [];
    } else if !writable {
      s := Summary(|paths|, 0, 0, |paths|, ["Erreur d'accès au répertoire de destination: " + writeError]);
      progress := [];
    } else {
      s, progress := Organise(paths, outcomes);
    }
  }

  /** The progress values start at 0, rise strictly and never reach 100. */
  lemma ProgressRises(n: nat)
    ensures n > 0 ==> Progress(n)[0] == 0.0
    ensures forall i, j :: 0 <= i < j < n ==> Progress(n)[i] < Progress(n)[j]
    ensures forall i :: 0 <= i < n ==> 0.0 <= Progress(n)[i] < 100.0
  {
    var ps := Progress(n);
    forall i, j | 0 <= i < j < n ensures ps[i] < ps[j] {
      DivideMonotone(i as real, j as real, n as real);
    }
    forall i | 0 <= i < n ensures 0.0 <= ps[i] < 100.0 {
      DivideMonotone(i as real, n as real, n as real);
      assert (n as real) / (n as real) == 1.0;
    }
  }

  lemma DivideMonotone(a: real, b: real, d: real)
    requires 0.0 <= a < b && d > 0.0
    ensures 0.0 <= a / d * 100.0 < b / d * 100.0
  {}

  /** A run where every file is done has no error messages. */
  lemma {:induction false} AllDoneNoMessages(paths: seq<string>, outcomes: seq<Outcome>)
    requires |paths| == |outcomes|
    requires forall j :: 0 <= j < |outcomes| ==> outcomes[j].Done?
    ensures CountDone(outcomes) == |outcomes|
    ensures Messages(paths, outcomes) == []
  {
    if outcomes != [] {
      var n := |outcomes| - 1;
      AllDoneNoMessages(paths[..n], outcomes[..n]);
    }
  }
}
