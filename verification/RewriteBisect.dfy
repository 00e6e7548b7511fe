/** Running a rewrite pipeline one step at a time until the result stops verifying. */
module RewriteBisect {
  import opened Machine
  import opened KernelIr
  import opened DescriptorDiff

  datatype Rewrite = Rewrite(name: string, apply: Descriptor -> Descriptor)

  /** The errors of a descriptor, or none when it verifies. */
  type Verifier = Descriptor -> Option<seq<string>>

  datatype Bisection = Bisection(firstFailing: Option<string>, errors: seq<string>, history: seq<(string, Diff)>)

  /** The descriptor after the first `n` rewrites. */
  function After(lowered: Descriptor, steps: seq<Rewrite>, n: nat): Descriptor
    requires n <= |steps|
  {
    if n == 0 then lowered else steps[n - 1].apply(After(lowered, steps, n - 1))
  }

  /** The history names the first rewrites in order, each with the diff it made. */
  ghost predicate Records(variant: Variant, lowered: Descriptor, steps: seq<Rewrite>, history: seq<(string, Diff)>) {
    && |history| <= |steps|
    && forall j | 0 <= j < |history| ::
         && history[j].0 == steps[j].name
         && IsDiff(variant, After(lowered, steps, j), After(lowered, steps, j + 1), history[j].1)
  }

  /** No descriptor up to the first `n` rewrites fails to verify. */
  predicate CleanThrough(verify: Verifier, lowered: Descriptor, steps: seq<Rewrite>, n: nat)
    requires n <= |steps|
  {
    forall j: nat | j <= n :: verify(After(lowered, steps, j)).None?
  }

  /** What the bisection of a lowered program says. */
  ghost predicate Pinpoints(variant: Variant, verify: Verifier, lowered: Descriptor, steps: seq<Rewrite>,
                            r: Bisection) {
    && Records(variant, lowered, steps, r.history)
    && var n := |r.history|;
    match r.firstFailing
    case None => n == |steps| && r.errors == [] && CleanThrough(verify, lowered, steps, n)
    case Some(name) =>
      && verify(After(lowered, steps, n)) == Some(r.errors)
      && (if n == 0 then name == "initial"
          else name == steps[n - 1].name && CleanThrough(verify, lowered, steps, n - 1))
  }

  lemma NothingRecorded(variant: Variant, lowered: Descriptor, steps: seq<Rewrite>)
    ensures Records(variant, lowered, steps, [])
  {
  }

  /** One more rewrite keeps the history in step. */
  lemma RecordsMore(variant: Variant, lowered: Descriptor, steps: seq<Rewrite>, history: seq<(string, Diff)>,
                    diff: Diff)
    requires Records(variant, lowered, steps, history) && |history| < |steps|
    requires IsDiff(variant, After(lowered, steps, |history|), After(lowered, steps, |history| + 1), diff)
    ensures Records(variant, lowered, steps, history + [(steps[|history|].name, diff)])
  {
    hide IsDiff, After;
  }

  method BisectRewrites<E>(variant: Variant, verify: Verifier, steps: seq<Rewrite>, lower: Result<Descriptor, E>)
    returns (r: Result<Bisection, E>)
    ensures lower.Err? ==> r == Err(lower.error)
    ensures lower.Ok? ==> r.Ok? && Pinpoints(variant, verify, lower.value, steps, r.value)
  {
    hide IsDiff, Records;
    if lower.Err? {
      return Err(lower.error);
    }
    var current := lower.value;
    assert Records(variant, current, steps, []) by { NothingRecorded(variant, current, steps); }
    match verify(current) {
      case Some(errors) => return Ok(Bisection(Some("initial"), errors, []));
      case None =>
    }
    var history: seq<(string, Diff)> := [];
    var i := 0;
    while i < |steps|
      invariant 0 <= i <= |steps| && |history| == i
      invariant current == After(lower.value, steps, i)
      invariant Records(variant, lower.value, steps, history)
      invariant CleanThrough(verify, lower.value, steps, i)
    {
      var next := steps[i].apply(current);
      var diff := DiffDescriptors(variant, current, next);
      assert next == After(lower.value, steps, i + 1);
      RecordsMore(variant, lower.value, steps, history, diff);
      history := history + [(steps[i].name, diff)];
      match verify(next) {
        case Some(errors) => return Ok(Bisection(Some(steps[i].name), errors, history));
        case None =>
      }
      current := next;
      i := i + 1;
    }
    r := Ok(Bisection(None, [], history));
  }

  // ----- the history as a whole -----

  function DeltaOver(history: seq<(string, Diff)>, path: Path): int {
    if history == [] then 0
    else DeltaOver(history[..|history| - 1], path) + DeltaAt(history[|history| - 1].1, path)
  }

  function ReplayOver(slots: set<u32>, history: seq<(string, Diff)>): set<u32> {
    if history == [] then slots
    else Replay(ReplayOver(slots, history[..|history| - 1]), history[|history| - 1].1)
  }

  /** The recorded changes of a run telescope: per body they add up to the overall
      change, and replaying the slot changes gives the final slots. */
  lemma {:induction false} HistoryTelescopes(variant: Variant, lowered: Descriptor, steps: seq<Rewrite>,
                                             history: seq<(string, Diff)>, path: Path)
    requires Records(variant, lowered, steps, history)
    ensures
      var final := After(lowered, steps, |history|);
      && DeltaOver(history, path) == CountAt(final.body, path) - CountAt(lowered.body, path)
      && ReplayOver(SlotSet(lowered), history) == SlotSet(final)
    decreases |history|
  {
    hide CountAt, IsBodyPath, SlotSet, Replay;
    if history != [] {
      var n := |history| - 1;
      HistoryTelescopes(variant, lowered, steps, history[..n], path);
      var was, now := After(lowered, steps, n), After(lowered, steps, n + 1);
      assert IsDiff(variant, was, now, history[n].1);
      SlotsAreConserved(variant, was, now, history[n].1);
    }
  }
}
