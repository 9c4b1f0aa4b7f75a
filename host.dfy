/**
 * The operating system as the harnesses see it: the statistics file, the
 * mapping and release calls, the cycle counter, and what the process leaves
 * behind (records on the diagnostic stream and released pages). The helpers
 * shared by both harnesses, reading the free-page count and tightening the
 * estimate, live here too.
 */
module Host {
  import opened Vmstat
  import opened Estimate

  /** Exit codes (Linux errno values). */
  const ENOMEM: nat := 12
  const EINVAL: nat := 22
  const ENOKEY: nat := 126

  /** Whether the process is still running, or has exited with a code. */
  datatype Status = Running | Exit(code: nat)

  /** What the process does that can be observed: a timing record written, a page released. */
  datatype Event = Record(page: nat, times: seq<nat>) | Release(page: nat)

  /** The release of each page of `pages`, in order. */
  function Releases(pages: seq<nat>): (r: seq<Event>)
    ensures |r| == |pages|
    ensures forall i | 0 <= i < |pages| :: r[i] == Release(pages[i])
    decreases |pages|
  {
    if pages == [] then []
    else Releases(pages[..|pages| - 1]) + [Release(pages[|pages| - 1])]
  }

  class Os {
    /** The contents of the statistics file at each successive read. */
    const vmstat: nat -> seq<Line>
    /** Whether the kernel grants an anonymous private mapping of so many pages. */
    const mapAccepts: nat -> bool
    /** Whether the kernel accepts each successive release call. */
    const releaseAccepts: nat -> bool
    /** The cycle counter at each successive read. */
    const counter: nat -> nat

    /** How many reads of the statistics file, release calls and counter reads were made. */
    var statReads: nat
    var releaseCalls: nat
    var counterReads: nat
    /** Records written and pages released, in order. */
    var events: seq<Event>

    constructor (vmstat: nat -> seq<Line>, mapAccepts: nat -> bool, releaseAccepts: nat -> bool, counter: nat -> nat)
      ensures this.vmstat == vmstat && this.mapAccepts == mapAccepts
      ensures this.releaseAccepts == releaseAccepts && this.counter == counter
      ensures statReads == 0 && releaseCalls == 0 && counterReads == 0 && events == []
    {
      this.vmstat := vmstat;
      this.mapAccepts := mapAccepts;
      this.releaseAccepts := releaseAccepts;
      this.counter := counter;
      statReads, releaseCalls, counterReads, events := 0, 0, 0, [];
    }

    /** Reads the statistics file as it is now. */
    method ReadVmstat() returns (lines: seq<Line>)
      modifies this`statReads
      ensures lines == vmstat(old(statReads)) && statReads == old(statReads) + 1
    {
      lines := vmstat(statReads);
      statReads := statReads + 1;
    }

    /** Reads the cycle counter. */
    method ReadCounter() returns (c: nat)
      modifies this`counterReads
      ensures c == counter(old(counterReads)) && counterReads == old(counterReads) + 1
    {
      c := counter(counterReads);
      counterReads := counterReads + 1;
    }

    /** Writes one timing record to the diagnostic stream. */
    method Emit(page: nat, times: seq<nat>)
      modifies this`events
      ensures events == old(events) + [Record(page, times)]
    {
      events := events + [Record(page, times)];
    }

    /** Asks the kernel to drop one page of `mapping`; the page is released when the call is accepted. */
    method Discard(mapping: array<int>, page: nat) returns (ok: bool)
      requires page < mapping.Length
      modifies this`releaseCalls, this`events
      ensures ok == releaseAccepts(old(releaseCalls)) && releaseCalls == old(releaseCalls) + 1
      ensures events == if ok then old(events) + [Release(page)] else old(events)
    {
      ok := releaseAccepts(releaseCalls);
      releaseCalls := releaseCalls + 1;
      if ok {
        events := events + [Release(page)];
      }
    }
  }

  /**
   * The kernel accepts release call number `call`. A named predicate rather
   * than the bare oracle application, so that contracts can speak of a
   * refused call without the solver unfolding the negated application at
   * every use.
   */
  ghost predicate CallAccepted(os: Os, call: nat)
  {
    os.releaseAccepts(call)
  }

  /** The kernel accepted every release call numbered from `from` up to, not including, `to`. */
  ghost predicate AcceptedCalls(os: Os, from: nat, to: nat)
  {
    forall k | from <= k < to :: CallAccepted(os, k)
  }

  /** Of the release calls numbered from `from` on, the kernel accepted the first `count` and refused the next. */
  ghost predicate FirstRefusal(os: Os, from: nat, count: nat)
  {
    AcceptedCalls(os, from, from + count) && !CallAccepted(os, from + count)
  }

  /** Reads the statistics file and scans it for the free-page count. */
  method GetFreePages(os: Os) returns (r: Reading)
    modifies os`statReads
    ensures r == FreePagesIn(os.vmstat(old(os.statReads))) && os.statReads == old(os.statReads) + 1
  {
    var lines := os.ReadVmstat();
    r := ScanFreePages(lines);
  }

  /**
   * Re-reads the free-page count and lowers `estimate` to owned + free when that
   * is smaller. The process exits with ENOKEY when the count cannot be found.
   */
  method UpdateFreePages(os: Os, estimate: nat, owned: nat) returns (status: Status, updated: nat, ghost reading: nat)
    modifies os`statReads
    ensures os.statReads == old(os.statReads) + 1
    ensures FreePagesIn(os.vmstat(old(os.statReads))) == NoKey ==> status == Exit(ENOKEY) && updated == estimate
    ensures FreePagesIn(os.vmstat(old(os.statReads))).Found? ==>
              FreePagesIn(os.vmstat(old(os.statReads))) == Found(reading) &&
              status == Running && updated == Tighten(estimate, owned, reading)
  {
    var r := GetFreePages(os);
    if r == NoKey {
      return Exit(ENOKEY), estimate, 0;
    }
    reading := r.pages;
    var candidate := owned + r.pages;
    updated := estimate;
    if candidate < updated {
      updated := candidate;
    }
    status := Running;
  }
}
