/**
 * The timing harness: capture every free page, time a fenced non-temporal
 * write to each page in every round, then write one record per page and
 * release that page before moving to the next.
 */
module FrameTimer {
  import opened Vmstat
  import opened Estimate
  import opened Host
  import opened Capture

  const PAGE_SIZE: nat := 4096
  const LINE_SIZE: nat := 64
  /** The number of timing rounds, and of time slots in each page. */
  const TIME_LIST: nat := 64
  /** The size of a 32-bit word. */
  const WORD_SIZE: nat := 4
  const TWO_TO_32: nat := 0x1_0000_0000

  /** A field of the page layout: its name and size in bytes. */
  datatype Field = Field(name: string, size: nat)

  /** The layout of a page: the written word, padding to the next line, the time slots, padding to the page end. */
  function PageLayout(): seq<Field>
  {
    [ Field("dummy", WORD_SIZE),
      Field("padding_one", LINE_SIZE - WORD_SIZE),
      Field("times", TIME_LIST * WORD_SIZE),
      Field("padding_two", PAGE_SIZE - LINE_SIZE - TIME_LIST * WORD_SIZE) ]
  }

  /** The byte offset of field `k`: the sizes of the fields before it. */
  function OffsetOf(fields: seq<Field>, k: nat): nat
    requires k <= |fields|
  {
    if k == 0 then 0 else OffsetOf(fields, k - 1) + fields[k - 1].size
  }

  /** The fields fill exactly one page; the time slots begin on the second cache line, away from the written word. */
  lemma PageLayoutFillsPage()
    ensures OffsetOf(PageLayout(), |PageLayout()|) == PAGE_SIZE
    ensures PageLayout()[0].name == "dummy" && OffsetOf(PageLayout(), 1) <= LINE_SIZE
    ensures PageLayout()[2].name == "times" && OffsetOf(PageLayout(), 2) == LINE_SIZE
    ensures PageLayout()[2].size == TIME_LIST * WORD_SIZE
  {
    var f := PageLayout();
    assert OffsetOf(f, 1) == WORD_SIZE;
    assert OffsetOf(f, 2) == LINE_SIZE;
    assert OffsetOf(f, 3) == LINE_SIZE + TIME_LIST * WORD_SIZE;
  }

  /** The low 32 bits of a counter value, as held in a 32-bit register. */
  function Low32(x: nat): nat
  {
    x % TWO_TO_32
  }

  /**
   * The time a fenced write reports: the low 32 bits of the counter after
   * minus those before, wrapped to 32 bits.
   */
  function Elapsed(before: nat, after: nat): (t: nat)
    ensures t < TWO_TO_32
    ensures before <= after < before + TWO_TO_32 ==> t == after - before
  {
    var d := Low32(after) - Low32(before);
    if d < 0 then d + TWO_TO_32 else d
  }

  /** For any two counter values, the reported time is their difference modulo 2^32. */
  lemma ElapsedIsWrappedDifference(before: nat, after: nat)
    ensures Elapsed(before, after) == (after - before) % TWO_TO_32
  {
  }

  /**
   * Fence, read the counter, store `value` into the page's written word
   * bypassing the cache, fence, read the counter again; returns the difference.
   */
  method DirectWrite(os: Os, mapping: array<int>, page: nat, value: int) returns (t: nat)
    requires page < mapping.Length
    modifies os`counterReads, mapping
    ensures mapping[..] == old(mapping[..])[page := value]
    ensures os.counterReads == old(os.counterReads) + 2
    ensures t == Elapsed(os.counter(old(os.counterReads)), os.counter(old(os.counterReads) + 1))
  {
    var before := os.ReadCounter();
    mapping[page] := value;
    var after := os.ReadCounter();
    t := Elapsed(before, after);
  }

  /** Which counter read round `stamp` starts its write to `page` with, when rounds of `n` pages start at read `first`. */
  function SampleRead(first: nat, n: nat, page: nat, stamp: nat): nat
  {
    first + 2 * (stamp * n + page)
  }

  /** The time recorded for `page` in round `stamp`. */
  function Sample(counter: nat -> nat, first: nat, n: nat, page: nat, stamp: nat): nat
  {
    var k := SampleRead(first, n, page, stamp);
    Elapsed(counter(k), counter(k + 1))
  }

  /**
   * For each round, times a write to every page of the first `n`, in order,
   * storing the time in the page's slot for that round.
   */
  method FillTimes(os: Os, mapping: array<int>, times: array2<nat>, n: nat, blackhole: int)
    requires n <= mapping.Length && n <= times.Length0 && times.Length1 == TIME_LIST
    modifies os`counterReads, mapping, times
    ensures os.counterReads == old(os.counterReads) + 2 * (TIME_LIST * n)
    ensures forall i, s | 0 <= i < n && 0 <= s < TIME_LIST :: times[i, s] == Sample(os.counter, old(os.counterReads), n, i, s)
    ensures forall i, s | n <= i < times.Length0 && 0 <= s < TIME_LIST :: times[i, s] == old(times[i, s])
    ensures forall i | 0 <= i < n :: mapping[i] == blackhole
    ensures forall i | n <= i < mapping.Length :: mapping[i] == old(mapping[i])
  {
    ghost var first := os.counterReads;
    for stamp := 0 to TIME_LIST
      invariant os.counterReads == first + 2 * (stamp * n)
      invariant forall i, s | 0 <= i < times.Length0 && 0 <= s < TIME_LIST ::
                  times[i, s] == if i < n && s < stamp then Sample(os.counter, first, n, i, s) else old(times[i, s])
      invariant forall i | 0 <= i < n :: mapping[i] == if stamp > 0 then blackhole else old(mapping[i])
      invariant forall i | n <= i < mapping.Length :: mapping[i] == old(mapping[i])
    {
      for index := 0 to n
        invariant os.counterReads == SampleRead(first, n, index, stamp)
        invariant forall i, s | 0 <= i < times.Length0 && 0 <= s < TIME_LIST ::
                    times[i, s] == if i < n && (s < stamp || (s == stamp && i < index)) then Sample(os.counter, first, n, i, s) else old(times[i, s])
        invariant forall i | 0 <= i < n :: mapping[i] == if stamp > 0 || i < index then blackhole else old(mapping[i])
        invariant forall i | n <= i < mapping.Length :: mapping[i] == old(mapping[i])
      {
        var t := DirectWrite(os, mapping, index, blackhole);
        times[index, stamp] := t;
      }
      assert (stamp + 1) * n == stamp * n + n;
    }
  }

  /** Each page's record followed by that page's release, page by page in index order. */
  function EmitTrace(rows: seq<seq<nat>>): (trace: seq<Event>)
    ensures |trace| == 2 * |rows|
    decreases |rows|
  {
    if rows == [] then []
    else
      var k := |rows| - 1;
      EmitTrace(rows[..k]) + [Record(k, rows[k]), Release(k)]
  }

  /** Position 2k holds page k's record and position 2k + 1 its release. */
  lemma {:induction false} EmitTraceShape(rows: seq<seq<nat>>)
    ensures forall k | 0 <= k < |rows| :: EmitTrace(rows)[2 * k] == Record(k, rows[k])
    ensures forall k | 0 <= k < |rows| :: EmitTrace(rows)[2 * k + 1] == Release(k)
    decreases |rows|
  {
    if rows != [] {
      var k := |rows| - 1;
      EmitTraceShape(rows[..k]);
      assert forall j | 0 <= j < k :: rows[..k][j] == rows[j];
    }
  }

  /**
   * In the trace there is one record per page, in index order, each with the
   * page's full time list, and each immediately followed by that page's only
   * release.
   */
  lemma EmitTraceOrder(rows: seq<seq<nat>>)
    ensures forall p | 0 <= p < |EmitTrace(rows)| :: EmitTrace(rows)[p].page < |rows|
    ensures forall p | 0 <= p < |EmitTrace(rows)| :: EmitTrace(rows)[p].Record? <==> p % 2 == 0
    ensures forall p | 0 <= p < |EmitTrace(rows)| && EmitTrace(rows)[p].Record? ::
              p == 2 * EmitTrace(rows)[p].page && EmitTrace(rows)[p].times == rows[EmitTrace(rows)[p].page] &&
              EmitTrace(rows)[p + 1] == Release(EmitTrace(rows)[p].page)
    ensures forall p | 0 <= p < |EmitTrace(rows)| && EmitTrace(rows)[p].Release? :: p == 2 * EmitTrace(rows)[p].page + 1
  {
    EmitTraceShape(rows);
    var trace := EmitTrace(rows);
    forall p | 0 <= p < |trace|
      ensures trace[p].page < |rows| && (trace[p].Record? <==> p % 2 == 0)
      ensures trace[p].Record? ==> p == 2 * trace[p].page && trace[p].times == rows[trace[p].page] && trace[p + 1] == Release(trace[p].page)
      ensures trace[p].Release? ==> p == 2 * trace[p].page + 1
    {
      var k := p / 2;
      assert k < |rows|;
      if p == 2 * k {
        assert trace[p] == Record(k, rows[k]);
        assert trace[p + 1] == Release(k);
      } else {
        assert p == 2 * k + 1;
        assert trace[p] == Release(k);
      }
    }
  }

  /** The time slots of page `page`, in slot order: the fields of its record. */
  method RowOf(times: array2<nat>, page: nat) returns (fields: seq<nat>)
    requires page < times.Length0
    ensures |fields| == times.Length1
    ensures forall s | 0 <= s < times.Length1 :: fields[s] == times[page, s]
  {
    fields := [];
    for stamp := 0 to times.Length1
      invariant |fields| == stamp
      invariant forall s | 0 <= s < stamp :: fields[s] == times[page, s]
    {
      fields := fields + [times[page, stamp]];
    }
  }

  /**
   * Writes the record of each of the first `n` pages (its time list) and
   * releases that page before the next record. A refused release ends the
   * process with EINVAL right after that page's record.
   */
  method EmitAndRelease(os: Os, mapping: array<int>, times: array2<nat>, n: nat)
    returns (status: Status, ghost rows: seq<seq<nat>>)
    requires n <= mapping.Length && n <= times.Length0 && times.Length1 == TIME_LIST
    modifies os`events, os`releaseCalls
    ensures status == Running || status == Exit(EINVAL)
    ensures |rows| <= n
    ensures forall k | 0 <= k < |rows| :: |rows[k]| == TIME_LIST
    ensures forall k, s | 0 <= k < |rows| && 0 <= s < TIME_LIST :: rows[k][s] == times[k, s]
    ensures status == Running ==>
              |rows| == n && os.releaseCalls == old(os.releaseCalls) + n &&
              AcceptedCalls(os, old(os.releaseCalls), os.releaseCalls) &&
              os.events == old(os.events) + EmitTrace(rows)
    ensures status == Exit(EINVAL) ==>
              0 < |rows| && os.releaseCalls == old(os.releaseCalls) + |rows| &&
              FirstRefusal(os, old(os.releaseCalls), |rows| - 1) &&
              os.events == old(os.events) + EmitTrace(rows[..|rows| - 1]) + [Record(|rows| - 1, rows[|rows| - 1])]
  {
    rows := [];
    for index := 0 to n
      invariant |rows| == index
      invariant forall k | 0 <= k < index :: |rows[k]| == TIME_LIST
      invariant forall k, s | 0 <= k < index && 0 <= s < TIME_LIST :: rows[k][s] == times[k, s]
      invariant os.releaseCalls == old(os.releaseCalls) + index
      invariant AcceptedCalls(os, old(os.releaseCalls), os.releaseCalls)
      invariant os.events == old(os.events) + EmitTrace(rows)
    {
      var fields := RowOf(times, index);
      os.Emit(index, fields);
      assert (rows + [fields])[..index] == rows;
      var ok := os.Discard(mapping, index);
      rows := rows + [fields];
      if !ok {
        return Exit(EINVAL), rows;
      }
    }
    status := Running;
  }

  /**
   * The steps after the capture: time every round of writes to the first `n`
   * pages, then write the records and release the pages. `rows` are the
   * records written, each the page's times of every round.
   */
  method TimeAndRelease(os: Os, mapping: array<int>, times: array2<nat>, n: nat, blackhole: int)
    returns (status: Status, ghost rows: seq<seq<nat>>)
    requires n <= mapping.Length && n <= times.Length0 && times.Length1 == TIME_LIST
    modifies os`counterReads, os`events, os`releaseCalls, mapping, times
    ensures status == Running || status == Exit(EINVAL)
    ensures forall k | 0 <= k < |rows| :: |rows[k]| == TIME_LIST
    ensures forall k, s | 0 <= k < |rows| && 0 <= s < TIME_LIST :: rows[k][s] == Sample(os.counter, old(os.counterReads), n, k, s)
    ensures status == Running ==>
              |rows| == n && os.events == old(os.events) + EmitTrace(rows) &&
              os.releaseCalls == old(os.releaseCalls) + n && AcceptedCalls(os, old(os.releaseCalls), os.releaseCalls)
    ensures status == Exit(EINVAL) ==>
              0 < |rows| <= n && os.releaseCalls == old(os.releaseCalls) + |rows| &&
              FirstRefusal(os, old(os.releaseCalls), |rows| - 1) &&
              os.events == old(os.events) + EmitTrace(rows[..|rows| - 1]) + [Record(|rows| - 1, rows[|rows| - 1])]
  {
    FillTimes(os, mapping, times, n, blackhole);
    status, rows := EmitAndRelease(os, mapping, times, n);
  }

  /**
   * The steps from the mapping on: map `seen` pages (ENOMEM when refused),
   * capture them (ENOKEY when a checkpoint finds no count), then time,
   * record and release the captured pages.
   */
  method MapAndTime(os: Os, seen: nat, blackhole: int)
    returns (code: nat, n: nat, touched: nat, ghost checks: seq<Checkpoint>, ghost rows: seq<seq<nat>>)
    modifies os`statReads, os`counterReads, os`events, os`releaseCalls
    ensures code == 0 || code == ENOKEY || code == ENOMEM || code == EINVAL
    ensures code == ENOKEY || code == ENOMEM ==> os.events == old(os.events) && os.releaseCalls == old(os.releaseCalls)
    ensures code == ENOKEY ==>
              os.mapAccepts(seen) && touched <= seen && os.statReads == old(os.statReads) + |checks| + 1 &&
              FailedCheckpoint(os, old(os.statReads), seen, checks, touched)
    ensures code == ENOMEM ==> !os.mapAccepts(seen) && os.statReads == old(os.statReads)
    ensures code == 0 || code == EINVAL ==>
              os.mapAccepts(seen) && n <= seen && n <= touched <= n + 1 && touched <= seen &&
              n == Tightened(seen, checks) && OnSchedule(seen, checks) &&
              touched <= Limit(seen, checks) + 1 &&
              (forall j | 0 <= j < |checks| :: checks[j].owned < touched) &&
              ReadsAgree(os, old(os.statReads), checks)
    ensures forall k | 0 <= k < |rows| :: |rows[k]| == TIME_LIST
    ensures forall k, s | 0 <= k < |rows| && 0 <= s < TIME_LIST :: rows[k][s] == Sample(os.counter, old(os.counterReads), n, k, s)
    ensures code == 0 ==>
              |rows| == n && os.events == old(os.events) + EmitTrace(rows) &&
              os.releaseCalls == old(os.releaseCalls) + n && AcceptedCalls(os, old(os.releaseCalls), os.releaseCalls)
    ensures code == EINVAL ==>
              0 < |rows| <= n && os.releaseCalls == old(os.releaseCalls) + |rows| &&
              FirstRefusal(os, old(os.releaseCalls), |rows| - 1) &&
              os.events == old(os.events) + EmitTrace(rows[..|rows| - 1]) + [Record(|rows| - 1, rows[|rows| - 1])]
  {
    n, touched, checks, rows := 0, 0, [], [];
    if !os.mapAccepts(seen) {
      return ENOMEM, n, touched, checks, rows;
    }
    var mapping := new int[seen];
    var times := new nat[seen, TIME_LIST];
    var status;
    status, n, touched, checks := TouchPages(os, mapping, seen, blackhole);
    if status.Exit? {
      return ENOKEY, n, touched, checks, rows;
    }
    status, rows := TimeAndRelease(os, mapping, times, n, blackhole);
    code := if status.Exit? then EINVAL else 0;
  }

  /**
   * The whole timing run. Exits with ENOKEY when the free-page count is
   * missing, ENOMEM when the mapping is refused, EINVAL when a release is
   * refused; otherwise the diagnostic stream and the releases are one record
   * and one release per captured page, in index order, each record holding
   * the time of every round.
   */
  method RunTimer(os: Os, blackhole: int)
    returns (code: nat, seen: nat, n: nat, touched: nat, ghost checks: seq<Checkpoint>, ghost rows: seq<seq<nat>>)
    modifies os
    ensures code == 0 || code == ENOKEY || code == ENOMEM || code == EINVAL
    ensures code == ENOKEY || code == ENOMEM ==> os.events == old(os.events) && os.releaseCalls == old(os.releaseCalls)
    ensures code == ENOKEY ==>
              FreePagesIn(os.vmstat(old(os.statReads))) == NoKey ||
              (FreePagesIn(os.vmstat(old(os.statReads))) == Found(seen) && os.mapAccepts(seen) &&
               FailedCheckpoint(os, old(os.statReads) + 1, seen, checks, touched))
    ensures code == ENOMEM ==>
              FreePagesIn(os.vmstat(old(os.statReads))) == Found(seen) && !os.mapAccepts(seen) &&
              os.statReads == old(os.statReads) + 1
    ensures code == 0 || code == EINVAL ==>
              FreePagesIn(os.vmstat(old(os.statReads))) == Found(seen) && os.mapAccepts(seen) &&
              n <= seen && n <= touched <= n + 1 && touched <= seen &&
              n == Tightened(seen, checks) && OnSchedule(seen, checks) &&
              touched <= Limit(seen, checks) + 1 &&
              (forall j | 0 <= j < |checks| :: checks[j].owned < touched) &&
              ReadsAgree(os, old(os.statReads) + 1, checks) &&
              forall k, s | 0 <= k < |rows| && 0 <= s < TIME_LIST ::
                |rows[k]| == TIME_LIST && rows[k][s] == Sample(os.counter, old(os.counterReads), n, k, s)
    ensures code == 0 ==>
              |rows| == n && os.events == old(os.events) + EmitTrace(rows) &&
              os.releaseCalls == old(os.releaseCalls) + n && AcceptedCalls(os, old(os.releaseCalls), os.releaseCalls)
    ensures code == EINVAL ==>
              0 < |rows| <= n && os.releaseCalls == old(os.releaseCalls) + |rows| &&
              FirstRefusal(os, old(os.releaseCalls), |rows| - 1) &&
              os.events == old(os.events) + EmitTrace(rows[..|rows| - 1]) + [Record(|rows| - 1, rows[|rows| - 1])]
  {
    seen, n, touched, checks, rows := 0, 0, 0, [], [];
    var reading := GetFreePages(os);
    if reading == NoKey {
      return ENOKEY, seen, n, touched, checks, rows;
    }
    seen := reading.pages;
    assert os.counterReads == old(os.counterReads) && os.releaseCalls == old(os.releaseCalls) && os.events == old(os.events);
    code, n, touched, checks, rows := MapAndTime(os, seen, blackhole);
  }
}
