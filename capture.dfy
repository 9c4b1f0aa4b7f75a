/**
 * The capture loop shared by both harnesses: write-touch every page of the
 * mapping in order, re-measuring the estimate at checkpoints that halve the
 * distance left to its end.
 */
module Capture {
  import opened Vmstat
  import opened Estimate
  import opened Host

  /** The checkpoints were fed, in order, by the successive reads of the statistics file from `first` on. */
  ghost predicate ReadsAgree(os: Os, first: nat, checks: seq<Checkpoint>)
    decreases |checks|
  {
    checks == [] ||
    (ReadsAgree(os, first, checks[..|checks| - 1]) &&
     FreePagesIn(os.vmstat(first + |checks| - 1)) == Found(checks[|checks| - 1].reading))
  }

  /**
   * The capture loop's bookkeeping: `final` and `limit` are the estimate and
   * the bound that the checkpoints `checks`, taken on schedule, leave.
   */
  ghost predicate Scheduled(estimate: nat, checks: seq<Checkpoint>, final: nat, limit: nat)
  {
    final == Tightened(estimate, checks) && limit == Limit(estimate, checks) && OnSchedule(estimate, checks)
  }

  /**
   * The capture from `estimate` stopped at a checkpoint that was due: the
   * checkpoints `checks` were taken on schedule from the reads `first` on, the
   * index `touched` was just past the bound and still below the estimate, and
   * the read for that checkpoint, number first + |checks|, lacked the key.
   */
  ghost predicate FailedCheckpoint(os: Os, first: nat, estimate: nat, checks: seq<Checkpoint>, touched: nat)
  {
    OnSchedule(estimate, checks) && ReadsAgree(os, first, checks) &&
    touched == Limit(estimate, checks) + 1 && touched < Tightened(estimate, checks) &&
    FreePagesIn(os.vmstat(first + |checks|)) == NoKey
  }

  lemma ReadsAgreeExtend(os: Os, first: nat, checks: seq<Checkpoint>, c: Checkpoint)
    requires ReadsAgree(os, first, checks)
    requires FreePagesIn(os.vmstat(first + |checks|)) == Found(c.reading)
    ensures ReadsAgree(os, first, checks + [c])
  {
    assert (checks + [c])[..|checks|] == checks;
  }

  /** Read index-wise: checkpoint j took its reading from read number first + j. */
  lemma {:induction false} ReadsAgreeAt(os: Os, first: nat, checks: seq<Checkpoint>)
    requires ReadsAgree(os, first, checks)
    ensures forall j | 0 <= j < |checks| :: FreePagesIn(os.vmstat(first + j)) == Found(checks[j].reading)
    decreases |checks|
  {
    if checks != [] {
      var init := checks[..|checks| - 1];
      ReadsAgreeAt(os, first, init);
      assert forall j | 0 <= j < |init| :: init[j] == checks[j];
    }
  }

  /**
   * One checkpoint of the capture loop at page `index`: re-measure the
   * estimate with `index` pages owned and move the bound to the midpoint of
   * what is left. `first` is where the reads of the capture loop began.
   */
  method Recheck(os: Os, estimate: nat, final: nat, index: nat, ghost first: nat, ghost checks: seq<Checkpoint>)
    returns (status: Status, updated: nat, limit: nat, ghost checks': seq<Checkpoint>)
    requires index > 0 && Scheduled(estimate, checks, final, index - 1) && index < final
    requires ReadsAgree(os, first, checks)
    requires os.statReads == first + |checks|
    requires forall j | 0 <= j < |checks| :: checks[j].owned < index
    modifies os`statReads
    ensures status == Running || status == Exit(ENOKEY)
    ensures status.Exit? ==> os.statReads == first + |checks| + 1 && FailedCheckpoint(os, first, estimate, checks, index)
    ensures status.Running? ==>
              |checks'| == |checks| + 1 && checks'[..|checks|] == checks && checks'[|checks|].owned == index &&
              (forall j | 0 <= j < |checks'| :: checks'[j].owned <= index) &&
              Scheduled(estimate, checks', updated, limit) &&
              index <= updated <= final && index <= limit &&
              ReadsAgree(os, first, checks') &&
              os.statReads == first + |checks'|
  {
    ghost var reading;
    status, updated, reading := UpdateFreePages(os, final, index);
    if status.Exit? {
      return status, updated, 0, checks;
    }
    ghost var c := Checkpoint(index, reading);
    CheckpointOnSchedule(estimate, checks, c);
    ReadsAgreeExtend(os, first, checks, c);
    checks' := checks + [c];
    limit := NextCheckLimit(index, updated);
  }

  /**
   * Touches pages 0, 1, ... of `mapping`, which was sized from `estimate`, while
   * the index is below the current estimate. Returns the final estimate, the
   * number of pages touched and, as ghost, the checkpoints taken. The last page
   * touched may be the one a checkpoint has just lowered the estimate to, so
   * up to final + 1 pages are touched, never more than the mapping holds.
   */
  method TouchPages(os: Os, mapping: array<int>, estimate: nat, blackhole: int)
    returns (status: Status, final: nat, touched: nat, ghost checks: seq<Checkpoint>)
    requires mapping.Length == estimate
    modifies os`statReads, mapping
    ensures status == Running || status == Exit(ENOKEY)
    ensures touched <= estimate
    ensures forall i | 0 <= i < touched :: mapping[i] == blackhole
    ensures forall i | touched <= i < mapping.Length :: mapping[i] == old(mapping[i])
    ensures ReadsAgree(os, old(os.statReads), checks)
    ensures OnSchedule(estimate, checks)
    ensures forall j | 0 <= j < |checks| :: checks[j].owned < touched
    ensures status.Running? ==>
              os.statReads == old(os.statReads) + |checks| &&
              final == Tightened(estimate, checks) && final <= estimate &&
              final <= touched <= final + 1 &&
              touched <= Limit(estimate, checks) + 1
    ensures status.Exit? ==>
              os.statReads == old(os.statReads) + |checks| + 1 &&
              FailedCheckpoint(os, old(os.statReads), estimate, checks, touched)
  {
    var index: nat := 0;
    var limit: nat := estimate / 2;
    status, final, checks := Running, estimate, [];
    while index < final
      invariant Scheduled(estimate, checks, final, limit)
      invariant final <= estimate && index <= final + 1 && index <= estimate && index <= limit + 1
      invariant status == Running
      invariant os.statReads == old(os.statReads) + |checks|
      invariant ReadsAgree(os, old(os.statReads), checks)
      invariant forall j | 0 <= j < |checks| :: checks[j].owned < index
      invariant forall i | 0 <= i < index :: mapping[i] == blackhole
      invariant forall i | index <= i < mapping.Length :: mapping[i] == old(mapping[i])
      decreases estimate - index
    {
      if index > limit {
        var updated, limit'; ghost var checks';
        status, updated, limit', checks' := Recheck(os, estimate, final, index, old(os.statReads), checks);
        if status.Exit? {
          break;
        }
        final, limit, checks := updated, limit', checks';
      }
      mapping[index] := blackhole;
      index := index + 1;
    }
    touched := index;
  }
}
