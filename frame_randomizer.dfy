/**
 * The randomizing harness: fill an identity array of page indices over the
 * first free-page count, capture every free page, shuffle the part of the
 * array the capture ended with, and release the pages in that order.
 */
module FrameRandomizer {
  import opened Vmstat
  import opened Estimate
  import opened Host
  import opened Capture

  /** The page indices 0, 1, ..., n - 1 in order. */
  function Range(n: nat): (r: seq<nat>)
    ensures |r| == n
    ensures forall i | 0 <= i < n :: r[i] == i
    decreases n
  {
    if n == 0 then [] else Range(n - 1) + [n - 1]
  }

  /** Every index below n occurs once in Range(n), and nothing else occurs. */
  lemma {:induction false} RangeCounts(n: nat)
    ensures forall x: nat :: multiset(Range(n))[x] == if x < n then 1 else 0
    decreases n
  {
    if n > 0 {
      RangeCounts(n - 1);
      assert multiset(Range(n)) == multiset(Range(n - 1)) + multiset([n - 1]);
      assert Range(n) == Range(n - 1) + [n - 1];
    }
  }

  /** A value occurring at two positions occurs at least twice. */
  lemma TwiceOccurring(w: seq<nat>, i: nat, j: nat)
    requires i < j < |w| && w[i] == w[j]
    ensures multiset(w)[w[i]] >= 2
  {
    assert w == w[..j] + w[j..];
    assert w[i] in w[..j];
    assert w[j] in w[j..];
    assert multiset(w) == multiset(w[..j]) + multiset(w[j..]);
  }

  /**
   * A sequence with the same elements as Range(n) has length n, holds only
   * indices below n, holds no index twice and holds every index below n.
   */
  lemma PermutationOfRange(w: seq<nat>, n: nat)
    requires multiset(w) == multiset(Range(n))
    ensures |w| == n
    ensures forall i | 0 <= i < |w| :: w[i] < n
    ensures forall i, j | 0 <= i < j < |w| :: w[i] != w[j]
    ensures forall k: nat | k < n :: k in w
  {
    RangeCounts(n);
    assert |w| == |multiset(w)| == |multiset(Range(n))| == n;
    forall i | 0 <= i < |w| ensures w[i] < n {
      assert w[i] in multiset(w);
    }
    forall i, j | 0 <= i < j < |w| ensures w[i] != w[j] {
      if w[i] == w[j] {
        TwiceOccurring(w, i, j);
      }
    }
    forall k: nat | k < n ensures k in w {
      assert k in multiset(w);
    }
  }

  /** Releasing the pages of a permutation of 0..n-1 releases each of those pages exactly once. */
  lemma ReleasesEachPageOnce(order: seq<nat>, n: nat)
    requires multiset(order) == multiset(Range(n))
    ensures |Releases(order)| == n
    ensures forall p | 0 <= p < n :: Releases(order)[p].Release? && Releases(order)[p].page < n
    ensures forall p, q | 0 <= p < q < n :: Releases(order)[p] != Releases(order)[q]
    ensures forall k: nat | k < n :: Release(k) in Releases(order)
  {
    PermutationOfRange(order, n);
    forall k: nat | k < n ensures Release(k) in Releases(order) {
      assert k in order;
      var i :| 0 <= i < |order| && order[i] == k;
      assert Releases(order)[i] == Release(k);
    }
  }

  /** Sets every entry of `walk` to its own index. */
  method FillIdentity(walk: array<nat>)
    modifies walk
    ensures walk[..] == Range(walk.Length)
  {
    for index := 0 to walk.Length
      invariant forall i | 0 <= i < index :: walk[i] == i
    {
      walk[index] := index;
    }
  }

  /**
   * Shuffles the first `n` entries of `walk` in place (Fisher-Yates, the k-th
   * draw of the random engine being `rand(k)`); the rest is left alone.
   */
  method Shuffle(walk: array<nat>, n: nat, rand: nat -> nat)
    requires n <= walk.Length
    modifies walk
    ensures multiset(walk[..n]) == multiset(old(walk[..n]))
    ensures walk[n..] == old(walk[n..])
  {
    var i := n;
    while i > 1
      invariant i <= n
      invariant multiset(walk[..n]) == multiset(old(walk[..n]))
      invariant walk[n..] == old(walk[n..])
    {
      i := i - 1;
      var j := rand(n - 1 - i) % (i + 1);
      walk[i], walk[j] := walk[j], walk[i];
    }
  }

  /**
   * Releases the pages `walk[0]`, ..., `walk[n - 1]` in that order; `order`
   * names that prefix. A refused release ends the process with EINVAL before
   * any further release.
   */
  method ReleaseWalk(os: Os, mapping: array<int>, walk: array<nat>, n: nat, ghost order: seq<nat>)
    returns (status: Status, released: nat)
    requires n <= walk.Length && order == walk[..n]
    requires forall i | 0 <= i < n :: order[i] < mapping.Length
    modifies os`events, os`releaseCalls
    ensures status == Running || status == Exit(EINVAL)
    ensures released <= n
    ensures os.events == old(os.events) + Releases(order[..released])
    ensures AcceptedCalls(os, old(os.releaseCalls), old(os.releaseCalls) + released)
    ensures status == Running ==>
              released == n && os.events == old(os.events) + Releases(order) &&
              os.releaseCalls == old(os.releaseCalls) + n
    ensures status == Exit(EINVAL) ==>
              released < n && os.releaseCalls == old(os.releaseCalls) + released + 1 &&
              FirstRefusal(os, old(os.releaseCalls), released)
  {
    for index := 0 to n
      invariant os.events == old(os.events) + Releases(order[..index])
      invariant os.releaseCalls == old(os.releaseCalls) + index
      invariant AcceptedCalls(os, old(os.releaseCalls), os.releaseCalls)
    {
      var ok := os.Discard(mapping, walk[index]);
      if !ok {
        return Exit(EINVAL), index;
      }
      assert order[..index + 1] == order[..index] + [order[index]];
    }
    assert order[..n] == order;
    return Running, n;
  }

  /**
   * Shuffles the identity prefix of `walk` that the capture ended with and
   * releases the pages in the shuffled order.
   */
  method ShuffleAndRelease(os: Os, mapping: array<int>, walk: array<nat>, n: nat, rand: nat -> nat)
    returns (status: Status, released: nat, ghost order: seq<nat>)
    requires n <= walk.Length && n <= mapping.Length
    requires forall i | 0 <= i < n :: walk[i] == i
    modifies os`events, os`releaseCalls, walk
    ensures status == Running || status == Exit(EINVAL)
    ensures |order| == n && multiset(order) == multiset(Range(n))
    ensures status == Running ==>
              released == n && os.events == old(os.events) + Releases(order) &&
              os.releaseCalls == old(os.releaseCalls) + n && AcceptedCalls(os, old(os.releaseCalls), os.releaseCalls)
    ensures status == Exit(EINVAL) ==>
              released < n && os.releaseCalls == old(os.releaseCalls) + released + 1 &&
              FirstRefusal(os, old(os.releaseCalls), released) &&
              os.events == old(os.events) + Releases(order[..released])
  {
    assert walk[..n] == Range(n);
    Shuffle(walk, n, rand);
    order := walk[..n];
    assert forall i | 0 <= i < n :: order[i] < mapping.Length by {
      PermutationOfRange(order, n);
    }
    status, released := ReleaseWalk(os, mapping, walk, n, order);
  }

  /**
   * The steps before the mapping: read the free-page count, fill the identity
   * walk over it (which takes memory), and re-measure with no pages owned.
   */
  method PrepareWalk(os: Os) returns (status: Status, seen: nat, mapped: nat, walk: array<nat>)
    modifies os`statReads
    ensures fresh(walk)
    ensures status == Running || status == Exit(ENOKEY)
    ensures status.Exit? ==>
              FreePagesIn(os.vmstat(old(os.statReads))) == NoKey ||
              (FreePagesIn(os.vmstat(old(os.statReads))) == Found(seen) &&
               FreePagesIn(os.vmstat(old(os.statReads) + 1)) == NoKey)
    ensures status == Running ==>
              FreePagesIn(os.vmstat(old(os.statReads))) == Found(seen) &&
              FreePagesIn(os.vmstat(old(os.statReads) + 1)).Found? &&
              mapped == Tighten(seen, 0, FreePagesIn(os.vmstat(old(os.statReads) + 1)).pages) &&
              os.statReads == old(os.statReads) + 2 &&
              walk[..] == Range(seen)
  {
    var reading := GetFreePages(os);
    if reading == NoKey {
      return Exit(ENOKEY), 0, 0, new nat[0];
    }
    seen := reading.pages;
    walk := new nat[seen];
    FillIdentity(walk);
    ghost var recount;
    status, mapped, recount := UpdateFreePages(os, seen, 0);
  }

  /**
   * The steps from the mapping on: map `mapped` pages (ENOMEM when refused),
   * capture them, shuffle the walk prefix the capture ended with and release
   * the pages in that order.
   */
  method MapAndRelease(os: Os, walk: array<nat>, mapped: nat, blackhole: int, rand: nat -> nat)
    returns (code: nat, n: nat, touched: nat, released: nat, ghost checks: seq<Checkpoint>, ghost order: seq<nat>)
    requires mapped <= walk.Length && walk[..] == Range(walk.Length)
    modifies os`statReads, os`events, os`releaseCalls, walk
    ensures code == 0 || code == ENOKEY || code == ENOMEM || code == EINVAL
    ensures code == ENOKEY || code == ENOMEM ==> os.events == old(os.events) && os.releaseCalls == old(os.releaseCalls)
    ensures code == ENOKEY ==>
              os.mapAccepts(mapped) && os.statReads == old(os.statReads) + |checks| + 1 &&
              FailedCheckpoint(os, old(os.statReads), mapped, checks, touched)
    ensures code == ENOMEM ==> !os.mapAccepts(mapped) && os.statReads == old(os.statReads)
    ensures code == 0 || code == EINVAL ==>
              os.mapAccepts(mapped) && n <= mapped &&
              n == Tightened(mapped, checks) && OnSchedule(mapped, checks) &&
              n <= touched <= n + 1 && touched <= Limit(mapped, checks) + 1 &&
              (forall j | 0 <= j < |checks| :: checks[j].owned < touched) &&
              ReadsAgree(os, old(os.statReads), checks) &&
              |order| == n && multiset(order) == multiset(Range(n))
    ensures code == 0 ==>
              released == n && os.events == old(os.events) + Releases(order) &&
              os.releaseCalls == old(os.releaseCalls) + n && AcceptedCalls(os, old(os.releaseCalls), os.releaseCalls)
    ensures code == EINVAL ==>
              released < n && os.releaseCalls == old(os.releaseCalls) + released + 1 &&
              FirstRefusal(os, old(os.releaseCalls), released) &&
              os.events == old(os.events) + Releases(order[..released])
  {
    n, touched, released, checks, order := 0, 0, 0, [], [];
    if !os.mapAccepts(mapped) {
      return ENOMEM, n, touched, released, checks, order;
    }
    var mapping := new int[mapped];
    var status;
    status, n, touched, checks := TouchPages(os, mapping, mapped, blackhole);
    if status.Exit? {
      return ENOKEY, n, touched, released, checks, order;
    }
    assert forall i | 0 <= i < n :: walk[i] == i by {
      forall i | 0 <= i < n ensures walk[i] == i {
        assert walk[i] == walk[..][i];
      }
    }
    assert os.releaseCalls == old(os.releaseCalls) && os.events == old(os.events);
    status, released, order := ShuffleAndRelease(os, mapping, walk, n, rand);
    code := if status.Exit? then EINVAL else 0;
  }

  /**
   * The whole randomizing run. Exits with ENOKEY when the free-page count is
   * missing, ENOMEM when the mapping is refused, EINVAL when a release is
   * refused; otherwise every captured page 0..n-1 is released exactly once,
   * in an order that is a permutation of 0..n-1.
   */
  method RunRandomizer(os: Os, blackhole: int, rand: nat -> nat)
    returns (code: nat, seen: nat, mapped: nat, n: nat, touched: nat, released: nat,
             ghost checks: seq<Checkpoint>, ghost order: seq<nat>)
    modifies os
    ensures code == 0 || code == ENOKEY || code == ENOMEM || code == EINVAL
    ensures code == ENOKEY || code == ENOMEM ==> os.events == old(os.events) && os.releaseCalls == old(os.releaseCalls)
    ensures code == ENOKEY ==>
              FreePagesIn(os.vmstat(old(os.statReads))) == NoKey ||
              (FreePagesIn(os.vmstat(old(os.statReads))) == Found(seen) &&
               FreePagesIn(os.vmstat(old(os.statReads) + 1)) == NoKey) ||
              (FreePagesIn(os.vmstat(old(os.statReads))) == Found(seen) &&
               FreePagesIn(os.vmstat(old(os.statReads) + 1)).Found? &&
               mapped == Tighten(seen, 0, FreePagesIn(os.vmstat(old(os.statReads) + 1)).pages) &&
               os.mapAccepts(mapped) && FailedCheckpoint(os, old(os.statReads) + 2, mapped, checks, touched))
    ensures code == ENOMEM ==>
              FreePagesIn(os.vmstat(old(os.statReads))) == Found(seen) &&
              FreePagesIn(os.vmstat(old(os.statReads) + 1)).Found? &&
              mapped == Tighten(seen, 0, FreePagesIn(os.vmstat(old(os.statReads) + 1)).pages) &&
              !os.mapAccepts(mapped) && os.statReads == old(os.statReads) + 2
    ensures code == 0 || code == EINVAL ==>
              FreePagesIn(os.vmstat(old(os.statReads))) == Found(seen) &&
              FreePagesIn(os.vmstat(old(os.statReads) + 1)).Found? &&
              mapped == Tighten(seen, 0, FreePagesIn(os.vmstat(old(os.statReads) + 1)).pages) &&
              os.mapAccepts(mapped) && n <= mapped <= seen &&
              n == Tightened(mapped, checks) && OnSchedule(mapped, checks) &&
              n <= touched <= n + 1 && touched <= Limit(mapped, checks) + 1 &&
              (forall j | 0 <= j < |checks| :: checks[j].owned < touched) &&
              ReadsAgree(os, old(os.statReads) + 2, checks) &&
              |order| == n && multiset(order) == multiset(Range(n))
    ensures code == 0 ==>
              released == n && os.events == old(os.events) + Releases(order) &&
              os.releaseCalls == old(os.releaseCalls) + n && AcceptedCalls(os, old(os.releaseCalls), os.releaseCalls)
    ensures code == 0 ==>
              |os.events| == |old(os.events)| + n &&
              (forall k: nat | k < n :: Release(k) in os.events[|old(os.events)|..]) &&
              forall p, q | |old(os.events)| <= p < q < |os.events| :: os.events[p] != os.events[q]
    ensures code == EINVAL ==>
              released < n && os.releaseCalls == old(os.releaseCalls) + released + 1 &&
              FirstRefusal(os, old(os.releaseCalls), released) &&
              os.events == old(os.events) + Releases(order[..released])
  {
    mapped, n, touched, released, checks, order := 0, 0, 0, 0, [], [];
    var status, walk;
    status, seen, mapped, walk := PrepareWalk(os);
    if status.Exit? {
      return ENOKEY, seen, mapped, n, touched, released, checks, order;
    }
    assert os.releaseCalls == old(os.releaseCalls) && os.events == old(os.events);
    code, n, touched, released, checks, order := MapAndRelease(os, walk, mapped, blackhole, rand);
    if code != 0 {
      return;
    }
    assert |os.events| == |old(os.events)| + n &&
           (forall k: nat | k < n :: Release(k) in os.events[|old(os.events)|..]) &&
           forall p, q | |old(os.events)| <= p < q < |os.events| :: os.events[p] != os.events[q]
    by {
      ReleasesEachPageOnce(order, n);
      assert os.events[|old(os.events)|..] == Releases(order);
    }
  }
}
