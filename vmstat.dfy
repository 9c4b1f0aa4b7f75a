/** Finding the kernel's free-page count among the lines of its statistics file. */
module Vmstat {

  /** One line of the statistics file, split into its first token and the number after it. */
  datatype Line = Line(keyword: string, value: nat)

  /** The keyword of the line that carries the free-page count. */
  const FreePagesKey: string := "nr_free_pages"

  /** The outcome of a scan: the free-page count, or no line carries the key. */
  datatype Reading = Found(pages: nat) | NoKey

  /** Line `i` is the first line whose keyword is exactly the free-page key. */
  predicate FirstMatchAt(lines: seq<Line>, i: nat)
  {
    i < |lines| && lines[i].keyword == FreePagesKey &&
    forall j | 0 <= j < i :: lines[j].keyword != FreePagesKey
  }

  /** The reading a scan of `lines` yields, defined line by line from the top. */
  function FreePagesIn(lines: seq<Line>): Reading
  {
    if lines == [] then NoKey
    else if lines[0].keyword == FreePagesKey then Found(lines[0].value)
    else FreePagesIn(lines[1..])
  }

  /** The scan finds the value of the first matching line, and finds nothing exactly when no line matches. */
  lemma {:induction false} FreePagesInFirstMatch(lines: seq<Line>)
    ensures FreePagesIn(lines) == NoKey <==> forall i | 0 <= i < |lines| :: lines[i].keyword != FreePagesKey
    ensures FreePagesIn(lines).Found? ==>
              exists i: nat :: FirstMatchAt(lines, i) && FreePagesIn(lines).pages == lines[i].value
    ensures forall i: nat :: FirstMatchAt(lines, i) ==> FreePagesIn(lines) == Found(lines[i].value)
  {
    if lines == [] {
    } else if lines[0].keyword == FreePagesKey {
      assert FirstMatchAt(lines, 0);
      forall i: nat | FirstMatchAt(lines, i) ensures i == 0 {
        if i > 0 { assert false; }
      }
    } else {
      var rest := lines[1..];
      FreePagesInFirstMatch(rest);
      forall i: nat | FirstMatchAt(lines, i) ensures i > 0 && FirstMatchAt(rest, i - 1) {
        assert i != 0;
        forall j | 0 <= j < i - 1 ensures rest[j].keyword != FreePagesKey {
          assert rest[j] == lines[j + 1];
        }
      }
      if FreePagesIn(rest).Found? {
        var i: nat :| FirstMatchAt(rest, i) && FreePagesIn(rest).pages == rest[i].value;
        assert FirstMatchAt(lines, i + 1) by {
          forall j | 0 <= j < i + 1 ensures lines[j].keyword != FreePagesKey {
            if j > 0 { assert lines[j] == rest[j - 1]; }
          }
        }
      }
      if forall i | 0 <= i < |rest| :: rest[i].keyword != FreePagesKey {
        forall i | 0 <= i < |lines| ensures lines[i].keyword != FreePagesKey {
          if i > 0 { assert lines[i] == rest[i - 1]; }
        }
      } else {
        var i :| 0 <= i < |rest| && rest[i].keyword == FreePagesKey;
        assert lines[i + 1] == rest[i];
      }
    }
  }

  /**
   * Walks the lines from the top and returns the value on the first line whose
   * keyword is the free-page key; `NoKey` when the lines run out.
   */
  method ScanFreePages(lines: seq<Line>) returns (r: Reading)
    ensures r == FreePagesIn(lines)
  {
    var i := 0;
    while i < |lines|
      invariant 0 <= i <= |lines|
      invariant FreePagesIn(lines[i..]) == FreePagesIn(lines)
    {
      if lines[i].keyword == FreePagesKey {
        return Found(lines[i].value);
      }
      assert lines[i..][1..] == lines[i + 1..];
      i := i + 1;
    }
    return NoKey;
  }
}
