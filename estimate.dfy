/**
 * The self-correcting estimate of how many pages the process can own, and the
 * schedule of checkpoints at which the capture loop re-measures it.
 */
module Estimate {

  /** One re-measurement: the pages already owned and the free-page count read then. */
  datatype Checkpoint = Checkpoint(owned: nat, reading: nat)

  /** The estimate after one update: owned + reading when that is smaller, otherwise unchanged. */
  function Tighten(estimate: nat, owned: nat, reading: nat): (r: nat)
    ensures r <= estimate && r <= owned + reading
    ensures r == estimate || r == owned + reading
  {
    var candidate := owned + reading;
    if candidate < estimate then candidate else estimate
  }

  /** The estimate after the updates of `checks`, applied oldest first. */
  function Tightened(estimate: nat, checks: seq<Checkpoint>): nat
    decreases |checks|
  {
    if checks == [] then estimate
    else
      var last := checks[|checks| - 1];
      Tighten(Tightened(estimate, checks[..|checks| - 1]), last.owned, last.reading)
  }

  /** A run of updates leaves the minimum of the first estimate and every candidate owned + reading. */
  lemma {:induction false} TightenedIsMinimum(estimate: nat, checks: seq<Checkpoint>)
    ensures Tightened(estimate, checks) <= estimate
    ensures forall j | 0 <= j < |checks| :: Tightened(estimate, checks) <= checks[j].owned + checks[j].reading
    ensures Tightened(estimate, checks) == estimate ||
            exists j | 0 <= j < |checks| :: Tightened(estimate, checks) == checks[j].owned + checks[j].reading
    decreases |checks|
  {
    if checks != [] {
      var init := checks[..|checks| - 1];
      TightenedIsMinimum(estimate, init);
      assert forall j | 0 <= j < |init| :: init[j] == checks[j];
    }
  }

  /** When no re-measurement falls below the first estimate, the estimate stays as it was. */
  lemma {:induction false} SteadyCountKeepsEstimate(estimate: nat, checks: seq<Checkpoint>)
    requires forall j | 0 <= j < |checks| :: estimate <= checks[j].owned + checks[j].reading
    ensures Tightened(estimate, checks) == estimate
    decreases |checks|
  {
    if checks != [] {
      var init := checks[..|checks| - 1];
      assert forall j | 0 <= j < |init| :: init[j] == checks[j];
      SteadyCountKeepsEstimate(estimate, init);
    }
  }

  /** Later estimates are never larger than earlier ones. */
  lemma {:induction false} TightenedNeverGrows(estimate: nat, checks: seq<Checkpoint>, i: nat, j: nat)
    requires i <= j <= |checks|
    ensures Tightened(estimate, checks[..j]) <= Tightened(estimate, checks[..i])
    decreases j
  {
    if i < j {
      TightenedNeverGrows(estimate, checks, i, j - 1);
      assert checks[..j][..j - 1] == checks[..j - 1];
    }
  }

  /** The next checkpoint bound: the midpoint of what is left of the range. */
  function NextCheckLimit(index: nat, estimate: nat): (limit: nat)
    ensures index <= estimate ==> index <= limit <= estimate
    ensures index <= estimate ==> estimate - limit == (estimate - index + 1) / 2
  {
    (index + estimate) / 2
  }

  /** The checkpoint bound in force after the checkpoints `checks`, starting from `estimate`. */
  function Limit(estimate: nat, checks: seq<Checkpoint>): nat
  {
    if checks == [] then estimate / 2
    else NextCheckLimit(checks[|checks| - 1].owned, Tightened(estimate, checks))
  }

  /**
   * Each checkpoint fires at the first index past the bound in force, while
   * that index is still below the estimate in force.
   */
  ghost predicate OnSchedule(estimate: nat, checks: seq<Checkpoint>)
    decreases |checks|
  {
    checks == [] ||
    var init, last := checks[..|checks| - 1], checks[|checks| - 1];
    OnSchedule(estimate, init) &&
    last.owned == Limit(estimate, init) + 1 && last.owned < Tightened(estimate, init)
  }

  /** A checkpoint taken at the first index past the bound, below the estimate, keeps the run on schedule. */
  lemma CheckpointOnSchedule(estimate: nat, checks: seq<Checkpoint>, c: Checkpoint)
    requires OnSchedule(estimate, checks)
    requires c.owned == Limit(estimate, checks) + 1 && c.owned < Tightened(estimate, checks)
    ensures OnSchedule(estimate, checks + [c])
    ensures Tightened(estimate, checks + [c]) == Tighten(Tightened(estimate, checks), c.owned, c.reading)
    ensures Limit(estimate, checks + [c]) == NextCheckLimit(c.owned, Tightened(estimate, checks + [c]))
  {
    assert (checks + [c])[..|checks|] == checks;
  }

  /**
   * Read checkpoint by checkpoint: each fired at the first index past the bound
   * in force, and that index was below the estimate in force.
   */
  lemma {:induction false} OnScheduleAt(estimate: nat, checks: seq<Checkpoint>)
    requires OnSchedule(estimate, checks)
    ensures forall j | 0 <= j < |checks| ::
              checks[j].owned == Limit(estimate, checks[..j]) + 1 && checks[j].owned < Tightened(estimate, checks[..j])
    decreases |checks|
  {
    if checks != [] {
      var n := |checks|;
      var init := checks[..n - 1];
      OnScheduleAt(estimate, init);
      forall j | 0 <= j < n
        ensures checks[j].owned == Limit(estimate, checks[..j]) + 1 && checks[j].owned < Tightened(estimate, checks[..j])
      {
        if j < n - 1 {
          assert checks[..j] == init[..j] && checks[j] == init[j];
        }
      }
    }
  }

  /** Checkpoints on schedule are taken at strictly increasing page counts. */
  lemma {:induction false} OnScheduleOwnedIncreases(estimate: nat, checks: seq<Checkpoint>)
    requires OnSchedule(estimate, checks)
    ensures forall i, j | 0 <= i < j < |checks| :: checks[i].owned < checks[j].owned
    decreases |checks|
  {
    if |checks| >= 2 {
      var n := |checks|;
      var init := checks[..n - 1];
      OnScheduleOwnedIncreases(estimate, init);
      var prev := checks[n - 2];
      assert init[..n - 2] == checks[..n - 2] && init[n - 2] == prev;
      // The estimate in force at the last checkpoint is at least the previous checkpoint's index.
      assert Tightened(estimate, init) == Tighten(Tightened(estimate, checks[..n - 2]), prev.owned, prev.reading);
      assert prev.owned < checks[n - 1].owned;
      forall i, j | 0 <= i < j < n ensures checks[i].owned < checks[j].owned {
        if j < n - 1 {
          assert checks[i] == init[i] && checks[j] == init[j];
        } else if i < n - 2 {
          assert checks[i] == init[i] && prev == init[n - 2];
        }
      }
    }
  }

  /**
   * A checkpoint can only fall due while the index is past the bound and
   * below the estimate, which never happens for fewer than three pages: such
   * a capture never re-reads the statistics file.
   */
  lemma DueCheckpointNeedsThreePages(estimate: nat, checks: seq<Checkpoint>)
    requires OnSchedule(estimate, checks)
    requires Limit(estimate, checks) + 1 < Tightened(estimate, checks)
    ensures 3 <= estimate
  {
  }
}
