/**
 * The guesser that tells comma-separated from tab-separated text: it reads
 * lines until about 64K characters have gone by, counts commas and tabs,
 * and names the separator that clearly dominates.
 *
 * The file is given as the lines its reader would return; whether it can
 * be opened with the requested encoding and whether the reader fails after
 * the last of those lines are flags.  Substring counting lives in a helper
 * that is not part of this model, so it is a parameter.
 */
module LineBasedFormatGuesser {
  import opened Wrappers

  const CSV: string := "text/line-based/*sv/csv"
  const TSV: string := "text/line-based/*sv/tsv"

  /** The number of characters after which no further line is read. */
  const SAMPLE_LIMIT: int := 64 * 1024

  /** What reading the file gives: whether it opens, its lines, and whether reading fails after them. */
  datatype Input = Input(opens: bool, lines: seq<string>, failsAtEnd: bool)

  /** A substring counter: how often the second string occurs in the first. */
  type Counter = (string, string) -> nat

  /** The number of characters in the lines, line terminators not counted. */
  function TotalLength(lines: seq<string>): nat {
    if lines == [] then 0 else TotalLength(lines[..|lines| - 1]) + |lines[|lines| - 1]|
  }

  /** The occurrences of `pattern` summed over the lines. */
  function Occurrences(count: Counter, lines: seq<string>, pattern: string): nat {
    if lines == [] then 0 else Occurrences(count, lines[..|lines| - 1], pattern) + count(lines[|lines| - 1], pattern)
  }

  /**
   * The verdict on the counts: comma-separated when there are more than ten
   * commas and more commas than tabs, tab-separated when the same holds the
   * other way round, and no verdict otherwise (equal counts included).
   */
  function Decide(commaCount: int, tabCount: int): (r: Option<string>)
    ensures r == Some(CSV) <==> commaCount > 10 && commaCount > tabCount
    ensures r == Some(TSV) <==> tabCount > 10 && tabCount > commaCount
    ensures r.None? <==> !(commaCount > 10 && commaCount > tabCount) && !(tabCount > 10 && tabCount > commaCount)
  {
    if commaCount > 10 && commaCount > tabCount then Some(CSV)
    else if tabCount > 10 && tabCount > commaCount then Some(TSV)
    else None
  }

  /** The sample is the lines before the first point where `SAMPLE_LIMIT` characters have been read. */
  ghost predicate Sampled(lines: seq<string>, n: nat) {
    n <= |lines| &&
    (forall k :: 0 <= k < n ==> TotalLength(lines[..k]) < SAMPLE_LIMIT) &&
    (n < |lines| ==> TotalLength(lines[..n]) >= SAMPLE_LIMIT)
  }

  /** The reader is asked for a line after the last one, and fails. */
  ghost predicate FailsInSample(input: Input, n: nat) {
    input.failsAtEnd && n == |input.lines| && TotalLength(input.lines) < SAMPLE_LIMIT
  }

  /** Only one sample length qualifies. */
  lemma SampledUnique(lines: seq<string>, m: nat, n: nat)
    requires Sampled(lines, m) && Sampled(lines, n)
    ensures m == n
  {
  }

  /** A line is read only while fewer than `SAMPLE_LIMIT` characters have been, so the sample may overshoot by one line. */
  lemma {:induction false} SampleOvershoot(lines: seq<string>, n: nat)
    requires Sampled(lines, n) && n > 0
    ensures TotalLength(lines[..n]) < SAMPLE_LIMIT + |lines[n - 1]|
  {
    assert lines[..n][..n - 1] == lines[..n - 1];
  }

  /**
   * Guesses the separator of a text file.  The seed format plays no part.
   * When the file cannot be opened, or reading fails before the sample is
   * complete, there is no guess rather than an error.
   */
  method Guess(input: Input, count: Counter, seedFormat: string) returns (r: Option<string>, ghost sample: nat)
    ensures !input.opens ==> r.None?
    ensures input.opens ==> Sampled(input.lines, sample)
    ensures input.opens && FailsInSample(input, sample) ==> r.None?
    ensures input.opens && !FailsInSample(input, sample) ==>
      r == Decide(Occurrences(count, input.lines[..sample], ","), Occurrences(count, input.lines[..sample], "\t"))
  {
    sample := 0;
    if !input.opens {
      return None, 0;
    }
    var lines := input.lines;
    var totalBytes := 0;
    var commaCount := 0;
    var tabCount := 0;
    var i := 0;
    while totalBytes < SAMPLE_LIMIT && i < |lines|
      invariant i <= |lines|
      invariant totalBytes == TotalLength(lines[..i])
      invariant forall k :: 0 <= k < i ==> TotalLength(lines[..k]) < SAMPLE_LIMIT
      invariant commaCount == Occurrences(count, lines[..i], ",") && tabCount == Occurrences(count, lines[..i], "\t")
    {
      assert lines[..i + 1][..i] == lines[..i];
      var s := lines[i];
      commaCount := commaCount + count(s, ",");
      tabCount := tabCount + count(s, "\t");
      totalBytes := totalBytes + |s|;
      i := i + 1;
    }
    sample := i;
    if i == |lines| {
      assert lines[..i] == lines;
    }
    if totalBytes < SAMPLE_LIMIT && input.failsAtEnd {
      // the reader is asked for one more line and fails
      return None, sample;
    }
    r := Decide(commaCount, tabCount);
  }
}
