/** `FileOperationPreview` of utils/preview_utils.py: the list of planned
    operations with its statistics, and the duplicate-destination check.
    Whether a source exists and its size are inputs. */
module Preview {
  import opened Wrappers
  import Paths

  /** A planned operation. `destination` is `None` for a delete; the size is
      0 for a source that does not exist. */
  datatype Op = Op(kind: string, source: string, destination: Option<string>, size: nat)

  /** `if destination:`: present and not empty. */
  predicate HasDest(op: Op) {
    op.destination.Some? && op.destination.value != ""
  }

  /** A counting dictionary, kept in insertion order. */
  type Tally = seq<(string, nat)>

  function Count(t: Tally, k: string): nat {
    if t == [] then 0 else if t[0].0 == k then t[0].1 else Count(t[1..], k)
  }

  /** `if k not in d: d[k] = 0` then `d[k] += 1`. */
  function Bump(t: Tally, k: string): Tally {
    if t == [] then [(k, 1)]
    else if t[0].0 == k then [(k, t[0].1 + 1)] + t[1..]
    else [t[0]] + Bump(t[1..], k)
  }

  /** The sum of the counts. */
  function Total(t: Tally): nat {
    if t == [] then 0 else t[0].1 + Total(t[1..])
  }

  lemma {:induction false} BumpCount(t: Tally, k: string, x: string)
    ensures Count(Bump(t, k), x) == Count(t, x) + (if x == k then 1 else 0)
    ensures Total(Bump(t, k)) == Total(t) + 1
    decreases |t|
  {
    if t != [] && t[0].0 != k {
      BumpCount(t[1..], k, x);
    }
  }

  /** The preview's state: the operations and `self.stats`. */
  datatype Preview = Preview(ops: seq<Op>, totalFiles: nat, totalSize: nat, byType: Tally, byDest: Tally)

  const Fresh: Preview := Preview([], 0, 0, [], [])

  /** The operations of a given kind. */
  function OfKind(ops: seq<Op>, kind: string): nat {
    if ops == [] then 0 else OfKind(ops[..|ops| - 1], kind) + (if ops[|ops| - 1].kind == kind then 1 else 0)
  }

  /** The operations writing into a given directory. */
  function IntoDir(ops: seq<Op>, dir: string): nat {
    if ops == [] then 0
    else
      var last := ops[|ops| - 1];
      IntoDir(ops[..|ops| - 1], dir) + (if HasDest(last) && Paths.Dirname(last.destination.value) == dir then 1 else 0)
  }

  function SizeOf(ops: seq<Op>): nat {
    if ops == [] then 0 else SizeOf(ops[..|ops| - 1]) + ops[|ops| - 1].size
  }

  function WithDest(ops: seq<Op>): nat {
    if ops == [] then 0 else WithDest(ops[..|ops| - 1]) + (if HasDest(ops[|ops| - 1]) then 1 else 0)
  }

  /** What the statistics mean: they count the operations list. */
  ghost predicate Consistent(p: Preview) {
    p.totalFiles == |p.ops| && p.totalSize == SizeOf(p.ops) &&
    (forall k :: Count(p.byType, k) == OfKind(p.ops, k)) && Total(p.byType) == |p.ops| &&
    (forall d :: Count(p.byDest, d) == IntoDir(p.ops, d)) && Total(p.byDest) == WithDest(p.ops)
  }

  /** `add_operation(operation_type, source, destination)`; `size` is
      `os.path.getsize(source)`, or `None` when the source does not
      exist. */
  function AddOperation(p: Preview, kind: string, source: string, destination: Option<string>, size: Option<nat>): (r: Preview)
    ensures r.ops == p.ops + [Op(kind, source, destination, size.GetOr(0))]
    ensures r.totalFiles == p.totalFiles + 1
    ensures r.totalSize == p.totalSize + size.GetOr(0)
  {
    var op := Op(kind, source, destination, size.GetOr(0));
    Preview(p.ops + [op], p.totalFiles + 1, p.totalSize + op.size, Bump(p.byType, kind),
            if HasDest(op) then Bump(p.byDest, Paths.Dirname(op.destination.value)) else p.byDest)
  }

  /** Adding an operation keeps the statistics in step with the list: the
      per-type counts sum to `total_files`, and the per-directory counts
      count only operations with a destination. */
  lemma AddKeepsConsistent(p: Preview, kind: string, source: string, destination: Option<string>, size: Option<nat>)
    requires Consistent(p)
    ensures Consistent(AddOperation(p, kind, source, destination, size))
  {
    var r := AddOperation(p, kind, source, destination, size);
    var op := Op(kind, source, destination, size.GetOr(0));
    assert r.ops[..|r.ops| - 1] == p.ops;
    forall k ensures Count(r.byType, k) == OfKind(r.ops, k) {
      BumpCount(p.byType, kind, k);
    }
    BumpCount(p.byType, kind, kind);
    if HasDest(op) {
      var dir := Paths.Dirname(op.destination.value);
      forall d ensures Count(r.byDest, d) == IntoDir(r.ops, d) {
        BumpCount(p.byDest, dir, d);
      }
      BumpCount(p.byDest, dir, dir);
    }
  }

  /** `clear()`: back to the fresh state, which is consistent. */
  function Clear(p: Preview): (r: Preview)
    ensures Consistent(r) && r.ops == [] && r.totalFiles == 0 && r.totalSize == 0
  {
    Fresh
  }

  // ---------------------------------------------------------------------
  // duplicate destinations

  /** The first operation writing to `d`. */
  function FirstTo(ops: seq<Op>, d: string): (r: Option<nat>)
    ensures r.Some? ==> r.value < |ops| && HasDest(ops[r.value]) && ops[r.value].destination.value == d
    ensures r.Some? ==> forall j :: 0 <= j < r.value ==> !(HasDest(ops[j]) && ops[j].destination.value == d)
    ensures r.None? ==> forall j :: 0 <= j < |ops| ==> !(HasDest(ops[j]) && ops[j].destination.value == d)
  {
    if ops == [] then None
    else
      var n := |ops| - 1;
      var before := FirstTo(ops[..n], d);
      if before.Some? then before
      else if HasDest(ops[n]) && ops[n].destination.value == d then Some(n)
      else None
  }

  /** A `duplicate_destination` error: the message and the pair of
      operation indices. */
  datatype Conflict = Conflict(message: string, first: nat, second: nat)

  function Message(dest: string): string {
    "Multiple files will be written to " + dest
  }

  /** The reference: one conflict per operation whose destination an earlier
      operation already writes to, paired with that first writer, in list
      order. */
  function ConflictsOf(ops: seq<Op>): seq<Conflict> {
    if ops == [] then []
    else
      var n := |ops| - 1;
      var rest := ConflictsOf(ops[..n]);
      if HasDest(ops[n]) && FirstTo(ops[..n], ops[n].destination.value).Some? then
        rest + [Conflict(Message(ops[n].destination.value), FirstTo(ops[..n], ops[n].destination.value).value, n)]
      else rest
  }

  /** The duplicate-destination part of `check_conflicts()`: `seen` is
      `destination_map`. */
  method DuplicateDestinations(ops: seq<Op>) returns (conflicts: seq<Conflict>)
    ensures conflicts == ConflictsOf(ops)
  {
    conflicts := [];
    var seen: map<string, nat> := map[];
    var i := 0;
    while i < |ops|
      invariant 0 <= i <= |ops|
      invariant forall d :: d in seen <==> FirstTo(ops[..i], d).Some?
      invariant forall d :: d in seen ==> FirstTo(ops[..i], d) == Some(seen[d])
      invariant conflicts == ConflictsOf(ops[..i])
    {
      FirstToPrefix(ops, i);
      ConflictsStep(ops, i);
      if HasDest(ops[i]) {
        var dest := ops[i].destination.value;
        if dest in seen {
          conflicts := conflicts + [Conflict(Message(dest), seen[dest], i)];
        } else {
          seen := seen[dest := i];
        }
      }
      i := i + 1;
    }
    assert ops[..|ops|] == ops;
  }

  /** One more operation adds at most its own conflict. */
  lemma ConflictsStep(ops: seq<Op>, i: nat)
    requires i < |ops|
    ensures var pre := ops[..i];
            ConflictsOf(ops[..i + 1]) ==
              if HasDest(ops[i]) && FirstTo(pre, ops[i].destination.value).Some? then
                ConflictsOf(pre) + [Conflict(Message(ops[i].destination.value), FirstTo(pre, ops[i].destination.value).value, i)]
              else ConflictsOf(pre)
  {
    assert ops[..i + 1][..i] == ops[..i];
  }

  /** Extending the list by one operation moves no first occurrence, and
      makes the new operation first only for a destination not used
      before. */
  lemma FirstToPrefix(ops: seq<Op>, i: nat)
    requires i < |ops|
    ensures forall d :: FirstTo(ops[..i], d).Some? ==> FirstTo(ops[..i + 1], d) == FirstTo(ops[..i], d)
    ensures forall d :: FirstTo(ops[..i], d).None? ==>
              FirstTo(ops[..i + 1], d) == (if HasDest(ops[i]) && ops[i].destination.value == d then Some(i) else None)
  {
    assert ops[..i + 1][..i] == ops[..i];
  }

  /** The first writer of a destination stays the first writer when
      operations are appended. */
  lemma {:induction false} FirstToStable(ops: seq<Op>, n: nat, d: string)
    requires n <= |ops| && FirstTo(ops[..n], d).Some?
    ensures FirstTo(ops, d) == FirstTo(ops[..n], d)
    decreases |ops| - n
  {
    if n < |ops| {
      FirstToPrefix(ops, n);
      FirstToStable(ops, n + 1, d);
    } else {
      assert ops[..n] == ops;
    }
  }

  /** Every conflict reported names a later operation that writes where an
      earlier, first operation already writes, with the message naming that
      destination; and they come in list order. */
  lemma {:induction false} ConflictsSound(ops: seq<Op>)
    ensures forall c :: c in ConflictsOf(ops) ==>
              c.first < c.second < |ops| && HasDest(ops[c.second]) &&
              FirstTo(ops, ops[c.second].destination.value) == Some(c.first) &&
              c.message == Message(ops[c.second].destination.value)
    ensures forall a, b :: 0 <= a < b < |ConflictsOf(ops)| ==> ConflictsOf(ops)[a].second < ConflictsOf(ops)[b].second
    ensures forall a :: 0 <= a < |ConflictsOf(ops)| ==> ConflictsOf(ops)[a].second < |ops|
  {
    if ops != [] {
      var n := |ops| - 1;
      var pre := ops[..n];
      ConflictsSound(pre);
      forall c | c in ConflictsOf(pre)
        ensures FirstTo(ops, ops[c.second].destination.value) == Some(c.first)
      {
        assert pre[c.second] == ops[c.second];
        FirstToStable(ops, n, ops[c.second].destination.value);
      }
      if HasDest(ops[n]) && FirstTo(pre, ops[n].destination.value).Some? {
        FirstToStable(ops, n, ops[n].destination.value);
      }
    }
  }

  /** Every operation that is not the first to write its destination is
      reported. */
  lemma {:induction false} ConflictsComplete(ops: seq<Op>, i: nat)
    requires i < |ops| && HasDest(ops[i]) && FirstTo(ops, ops[i].destination.value) != Some(i)
    ensures exists c :: c in ConflictsOf(ops) && c.second == i
  {
    var n := |ops| - 1;
    var pre := ops[..n];
    var d := ops[i].destination.value;
    FirstToPrefix(ops, n);
    assert ops[..n + 1] == ops;
    if i == n {
      var c := Conflict(Message(d), FirstTo(pre, d).value, n);
      assert ConflictsOf(ops)[|ConflictsOf(ops)| - 1] == c;
    } else {
      assert pre[i] == ops[i];
      var c :| c in ConflictsOf(pre) && c.second == i by {
        ConflictsComplete(pre, i);
      }
      assert c in ConflictsOf(ops);
    }
  }
}
