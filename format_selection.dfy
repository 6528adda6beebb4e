/**
 * How an import job settles on a format once its raw data is in: the most
 * frequent format among the retrieved files (ties to the one seen first),
 * which files are selected, how registered guessers refine the format, and
 * in which order the parser formats are offered.
 */
module FormatSelection {
  import opened Wrappers
  import opened FileNaming

  /** What the retrieval record says about one file, as far as format choice is concerned. */
  datatype FileInfo = FileInfo(
    format: Option<string>,
    location: Option<string>,
    encoding: Option<string>,
    declaredEncoding: Option<string>)

  function Formats(files: seq<FileInfo>): (formats: seq<Option<string>>)
    ensures |formats| == |files| && forall i :: 0 <= i < |files| ==> formats[i] == files[i].format
  {
    seq(|files|, i requires 0 <= i < |files| => files[i].format)
  }

  // ---------------------------------------------------------------------
  // Counting formats

  /** How many of the formats are `f`. */
  function Count(formats: seq<Option<string>>, f: string): nat {
    if formats == [] then 0
    else Count(formats[..|formats| - 1], f) + (if formats[|formats| - 1] == Some(f) then 1 else 0)
  }

  lemma {:induction false} CountAbsent(formats: seq<Option<string>>, f: string)
    requires Some(f) !in formats
    ensures Count(formats, f) == 0
  {
    if formats != [] {
      assert Some(f) !in formats[..|formats| - 1];
      CountAbsent(formats[..|formats| - 1], f);
    }
  }

  /** The formats that occur, each once, in the order they first occur. */
  function FirstAppearances(formats: seq<Option<string>>): seq<string> {
    if formats == [] then []
    else
      var order := FirstAppearances(formats[..|formats| - 1]);
      var last := formats[|formats| - 1];
      if last.None? || last.value in order then order else order + [last.value]
  }

  /**
   * The order lists exactly the formats that occur, without repetition, and
   * a format comes earlier than another exactly when it occurs first.
   */
  lemma {:induction false} FirstAppearancesOrder(formats: seq<Option<string>>)
    ensures var order := FirstAppearances(formats);
      (forall f :: f in order <==> Some(f) in formats) &&
      (forall i, j :: 0 <= i < j < |order| ==> order[i] != order[j]) &&
      (forall i, j, k :: 0 <= i < j < |order| && 0 <= k < |formats| && formats[k] == Some(order[j]) ==>
         Some(order[i]) in formats[..k])
  {
    if formats != [] {
      var init := formats[..|formats| - 1];
      var last := formats[|formats| - 1];
      FirstAppearancesOrder(init);
      assert formats == init + [last];
      var order := FirstAppearances(formats);
      forall i, j, k | 0 <= i < j < |order| && 0 <= k < |formats| && formats[k] == Some(order[j])
        ensures Some(order[i]) in formats[..k]
      {
        if k < |init| {
          assert formats[..k] == init[..k];
          assert init[k] == Some(order[j]);
        } else {
          assert order[i] in FirstAppearances(init);
          assert formats[..k] == init;
        }
      }
    }
  }

  /**
   * `best` is what a stable sort of the first-appearance order by
   * descending count puts first: none when no format occurs, otherwise a
   * format of greatest count that no other format of that count precedes.
   */
  ghost predicate MostFrequentFirst(formats: seq<Option<string>>, best: Option<string>) {
    var order := FirstAppearances(formats);
    (best.None? <==> order == []) &&
    (best.Some? ==>
      exists k :: 0 <= k < |order| && order[k] == best.value &&
        (forall j :: 0 <= j < |order| ==> Count(formats, order[j]) <= Count(formats, best.value)) &&
        (forall j :: 0 <= j < k ==> Count(formats, order[j]) < Count(formats, best.value)))
  }

  /** The chosen format occurs, and no string, occurring or not, is more frequent. */
  lemma MostFrequentIsMaximal(formats: seq<Option<string>>, best: Option<string>, g: string)
    requires MostFrequentFirst(formats, best) && best.Some?
    ensures Some(best.value) in formats
    ensures Count(formats, g) <= Count(formats, best.value)
  {
    FirstAppearancesOrder(formats);
    var order := FirstAppearances(formats);
    if g in order {
      var j :| 0 <= j < |order| && order[j] == g;
    } else {
      CountAbsent(formats, g);
    }
  }

  /** The choice is determined: two formats that both qualify are the same. */
  lemma MostFrequentFirstUnique(formats: seq<Option<string>>, b1: Option<string>, b2: Option<string>)
    requires MostFrequentFirst(formats, b1) && MostFrequentFirst(formats, b2)
    ensures b1 == b2
  {
    if b1.Some? {
      var order := FirstAppearances(formats);
      var k1 :| 0 <= k1 < |order| && order[k1] == b1.value &&
        (forall j :: 0 <= j < |order| ==> Count(formats, order[j]) <= Count(formats, b1.value)) &&
        (forall j :: 0 <= j < k1 ==> Count(formats, order[j]) < Count(formats, b1.value));
      var k2 :| 0 <= k2 < |order| && order[k2] == b2.value &&
        (forall j :: 0 <= j < |order| ==> Count(formats, order[j]) <= Count(formats, b2.value)) &&
        (forall j :: 0 <= j < k2 ==> Count(formats, order[j]) < Count(formats, b2.value));
      assert k1 == k2;
    }
  }

  /** The count map and the first-appearance list kept while tallying `formats`. */
  ghost predicate Tallied(formats: seq<Option<string>>, order: seq<string>, counts: map<string, nat>) {
    order == FirstAppearances(formats) &&
    (forall f :: f in counts <==> f in order) &&
    (forall f :: f in counts ==> counts[f] == Count(formats, f))
  }

  /** A file without a format leaves the tally as it is. */
  lemma TallyNone(formats: seq<Option<string>>, order: seq<string>, counts: map<string, nat>)
    requires Tallied(formats, order, counts)
    ensures Tallied(formats + [None], order, counts)
  {
    assert (formats + [None])[..|formats|] == formats;
  }

  /** A format seen before adds one to its count. */
  lemma TallySeen(formats: seq<Option<string>>, order: seq<string>, counts: map<string, nat>, f: string)
    requires Tallied(formats, order, counts) && f in counts
    ensures Tallied(formats + [Some(f)], order, counts[f := counts[f] + 1])
  {
    assert (formats + [Some(f)])[..|formats|] == formats;
  }

  /** A new format is counted once and goes to the end of the order. */
  lemma TallyNew(formats: seq<Option<string>>, order: seq<string>, counts: map<string, nat>, f: string)
    requires Tallied(formats, order, counts) && f !in counts
    ensures Tallied(formats + [Some(f)], order + [f], counts[f := 1])
  {
    assert (formats + [Some(f)])[..|formats|] == formats;
    FirstAppearancesOrder(formats);
    CountAbsent(formats, f);
  }

  /**
   * Picks the format a stable descending sort of `order` by count puts
   * first (the sort itself is not needed for anything else).
   */
  method PickMostFrequent(ghost formats: seq<Option<string>>, order: seq<string>, counts: map<string, nat>)
    returns (best: Option<string>)
    requires Tallied(formats, order, counts)
    ensures MostFrequentFirst(formats, best)
  {
    if order == [] {
      return None;
    }
    var k := 0;
    var i := 1;
    while i < |order|
      invariant 0 <= k < i <= |order|
      invariant forall j :: 0 <= j < i ==> counts[order[j]] <= counts[order[k]]
      invariant forall j :: 0 <= j < k ==> counts[order[j]] < counts[order[k]]
    {
      if counts[order[i]] > counts[order[k]] {
        k := i;
      }
      i := i + 1;
    }
    best := Some(order[k]);
  }

  /** The indices whose format is `best`, in ascending order. */
  function MatchingIndices(formats: seq<Option<string>>, best: Option<string>): (indices: seq<int>)
    ensures forall i :: i in indices <==> 0 <= i < |formats| && best.Some? && formats[i] == best
    ensures forall a, b :: 0 <= a < b < |indices| ==> indices[a] < indices[b]
  {
    if formats == [] then []
    else
      var n := |formats| - 1;
      var init := MatchingIndices(formats[..n], best);
      assert forall a :: 0 <= a < |init| ==> init[a] < n by {
        forall a | 0 <= a < |init| ensures init[a] < n {
          assert init[a] in init;
        }
      }
      init + (if best.Some? && formats[n] == best then [n] else [])
  }

  /** Counts each format and lists the formats in order of first appearance. */
  method TallyFormats(formats: seq<Option<string>>) returns (order: seq<string>, counts: map<string, nat>)
    ensures Tallied(formats, order, counts)
  {
    order := [];
    counts := map[];
    var i := 0;
    while i < |formats|
      invariant i <= |formats|
      invariant Tallied(formats[..i], order, counts)
    {
      var format := formats[i];
      assert formats[..i + 1] == formats[..i] + [format];
      if format.Some? {
        if format.value in counts {
          TallySeen(formats[..i], order, counts, format.value);
          counts := counts[format.value := counts[format.value] + 1];
        } else {
          TallyNew(formats[..i], order, counts, format.value);
          counts := counts[format.value := 1];
          order := order + [format.value];
        }
      } else {
        TallyNone(formats[..i], order, counts);
      }
      i := i + 1;
    }
    assert formats[..i] == formats;
  }

  /**
   * Counts the files' formats and chooses the most frequent one (ties to
   * the one seen first); without archives every file is selected, otherwise
   * exactly the files of the chosen format.
   */
  method AutoSelectFiles(files: seq<FileInfo>, archiveCount: int) returns (best: Option<string>, selection: seq<int>)
    ensures MostFrequentFirst(Formats(files), best)
    ensures archiveCount == 0 ==> |selection| == |files| && forall i :: 0 <= i < |files| ==> selection[i] == i
    ensures archiveCount != 0 ==> selection == MatchingIndices(Formats(files), best)
  {
    var order, counts := TallyFormats(Formats(files));
    best := PickMostFrequent(Formats(files), order, counts);
    selection := [];
    if archiveCount == 0 {
      var i := 0;
      while i < |files|
        invariant i <= |files| && |selection| == i
        invariant forall j :: 0 <= j < i ==> selection[j] == j
      {
        selection := selection + [i];
        i := i + 1;
      }
    } else {
      var i := 0;
      while i < |files|
        invariant i <= |files|
        invariant selection == MatchingIndices(Formats(files)[..i], best)
      {
        assert Formats(files)[..i + 1][..i] == Formats(files)[..i];
        var format := files[i].format;
        if format.Some? && format == best {
          selection := selection + [i];
        }
        i := i + 1;
      }
      assert Formats(files)[..i] == Formats(files);
    }
  }

  // ---------------------------------------------------------------------
  // Selected files

  /** The items at the in-range positions of `selection`, in selection order. */
  function Selected<T>(items: seq<T>, selection: seq<int>): (r: seq<T>)
    ensures |r| <= |selection|
    ensures forall x :: x in r ==> exists i :: i in selection && 0 <= i < |items| && x == items[i]
  {
    if selection == [] then []
    else
      var n := |selection| - 1;
      var init := Selected(items, selection[..n]);
      if 0 <= selection[n] < |items| then init + [items[selection[n]]] else init
  }

  /** Selecting by two lists one after the other is selecting by the two lists joined. */
  lemma {:induction false} SelectedAppend<T>(items: seq<T>, s1: seq<int>, s2: seq<int>)
    ensures Selected(items, s1 + s2) == Selected(items, s1) + Selected(items, s2)
    decreases |s2|
  {
    if s2 == [] {
      assert s1 + s2 == s1;
    } else {
      var n := |s2| - 1;
      assert (s1 + s2)[..|s1| + n] == s1 + s2[..n];
      SelectedAppend(items, s1, s2[..n]);
    }
  }

  /** When every selected index is in range, the selection is kept whole, in order. */
  lemma {:induction false} SelectedInRange<T>(items: seq<T>, selection: seq<int>)
    requires forall k :: 0 <= k < |selection| ==> 0 <= selection[k] < |items|
    ensures var r := Selected(items, selection);
      |r| == |selection| && forall k :: 0 <= k < |r| ==> r[k] == items[selection[k]]
  {
    if selection != [] {
      SelectedInRange(items, selection[..|selection| - 1]);
    }
  }

  /**
   * The file records the job's file selection names, in selection order,
   * without the indices that are out of range; nothing when the retrieval
   * record or the selection is missing.
   */
  method GetSelectedFileRecords<T>(records: Option<seq<T>>, selection: Option<seq<int>>) returns (results: seq<T>)
    ensures records.None? || selection.None? ==> results == []
    ensures records.Some? && selection.Some? ==> results == Selected(records.value, selection.value)
  {
    results := [];
    if records.Some? && selection.Some? {
      var items, indices := records.value, selection.value;
      var i := 0;
      while i < |indices|
        invariant i <= |indices|
        invariant results == Selected(items, indices[..i])
      {
        assert indices[..i + 1][..i] == indices[..i];
        var index := indices[i];
        if 0 <= index < |items| {
          results := results + [items[index]];
        }
        i := i + 1;
      }
      assert indices[..i] == indices;
    }
  }

  /** The most frequent format (ties to the one seen first) among the selected files. */
  method GetCommonFormatForSelectedFiles(files: seq<FileInfo>, selection: seq<int>) returns (best: Option<string>)
    ensures MostFrequentFirst(Formats(Selected(files, selection)), best)
  {
    var order, counts := TallyFormats(Formats(Selected(files, selection)));
    best := PickMostFrequent(Formats(Selected(files, selection)), order, counts);
  }

  // ---------------------------------------------------------------------
  // Refining the format with guessers

  /** A format guesser: given a file's location and encoding and the current format, a better one or none. */
  type Guesser = (string, Option<string>, string) -> Option<string>

  /** A file's encoding: the detected one, else the declared one. */
  function GetEncoding(file: FileInfo): (e: Option<string>)
    ensures file.encoding.Some? ==> e == file.encoding
    ensures file.encoding.None? ==> e == file.declaredEncoding
  {
    if file.encoding.Some? then file.encoding else file.declaredEncoding
  }

  /** The first guess any of the guessers makes, asked in order. */
  function FirstGuess(guessers: seq<Guesser>, location: string, encoding: Option<string>, format: string): (g: Option<string>)
    ensures g.None? ==> forall i :: 0 <= i < |guessers| ==> guessers[i](location, encoding, format).None?
    ensures g.Some? ==>
      exists i :: 0 <= i < |guessers| && g == guessers[i](location, encoding, format) &&
        (forall j :: 0 <= j < i ==> guessers[j](location, encoding, format).None?)
  {
    if guessers == [] then None
    else
      var g := guessers[0](location, encoding, format);
      if g.Some? then g else FirstGuess(guessers[1..], location, encoding, format)
  }

  /** What the guessers registered for `format` answer; nothing when none are registered. */
  function Guess(registry: map<string, seq<Guesser>>, location: string, encoding: Option<string>, format: string): Option<string> {
    if format in registry then FirstGuess(registry[format], location, encoding, format) else None
  }

  /** The format after `n` adopted guesses, starting from `format`. */
  function Refine(registry: map<string, seq<Guesser>>, location: string, encoding: Option<string>, format: string, n: nat): string
    decreases n
  {
    if n == 0 then format
    else
      var g := Guess(registry, location, encoding, format);
      if g.Some? then Refine(registry, location, encoding, g.value, n - 1) else format
  }

  /** A format the guessers leave alone: they have no guess, or guess the format itself. */
  predicate Settled(registry: map<string, seq<Guesser>>, location: string, encoding: Option<string>, format: string) {
    var g := Guess(registry, location, encoding, format);
    g.None? || g.value == format
  }

  /**
   * `r` is `format` refined `steps` times, each time to a guess different
   * from the format before, and either the refinement has settled or the
   * fuel is spent.
   */
  ghost predicate RefinedIn(registry: map<string, seq<Guesser>>, location: string, encoding: Option<string>,
                            format: string, fuel: nat, r: string, steps: nat)
  {
    steps <= fuel && r == Refine(registry, location, encoding, format, steps) &&
    (steps < fuel ==> Settled(registry, location, encoding, r)) &&
    (forall k :: 0 <= k < steps ==> !Settled(registry, location, encoding, Refine(registry, location, encoding, format, k)))
  }

  /** What refining `best` with the guessers of the first of `files` may give. */
  ghost predicate Refined(registry: map<string, seq<Guesser>>, files: Option<seq<FileInfo>>, best: Option<string>, fuel: nat,
                          r: Option<string>)
  {
    if best.None? || files.None? || files.value == [] || files.value[0].location.None? then r == best
    else
      var first := files.value[0];
      r.Some? && exists steps: nat :: RefinedIn(registry, first.location.value, GetEncoding(first), best.value, fuel, r.value, steps)
  }

  /**
   * Asks the guessers registered for `format` one after the other and stops
   * at the first that guesses at all.
   */
  method AskGuessers(registry: map<string, seq<Guesser>>, location: string, encoding: Option<string>, format: string)
    returns (better: Option<string>)
    ensures better == Guess(registry, location, encoding, format)
  {
    better := None;
    if format in registry {
      var guessers := registry[format];
      var i := 0;
      while i < |guessers|
        invariant i <= |guessers| && better.None?
        invariant FirstGuess(guessers, location, encoding, format) == FirstGuess(guessers[i..], location, encoding, format)
      {
        assert guessers[i..][0] == guessers[i] && guessers[i..][1..] == guessers[i + 1..];
        better := guessers[i](location, encoding, format);
        if better.Some? {
          return;
        }
        i := i + 1;
      }
    }
  }

  /**
   * Refines the chosen format with the guessers of the first file: with no
   * format, no files, or a first file without location it is returned as
   * is; otherwise the first guess is adopted again and again until there is
   * none or it repeats the current format (at most `fuel` times).
   */
  method GuessBetterFormat(registry: map<string, seq<Guesser>>, files: Option<seq<FileInfo>>, bestFormat: Option<string>, fuel: nat)
    returns (r: Option<string>, ghost steps: nat)
    ensures bestFormat.None? || files.None? || files.value == [] || files.value[0].location.None? ==>
      r == bestFormat && steps == 0
    ensures bestFormat.Some? && files.Some? && files.value != [] && files.value[0].location.Some? ==>
      var first := files.value[0];
      var location, encoding := first.location.value, GetEncoding(first);
      steps <= fuel && r == Some(Refine(registry, location, encoding, bestFormat.value, steps)) &&
      (steps < fuel ==> Settled(registry, location, encoding, r.value)) &&
      (forall k :: 0 <= k < steps ==> !Settled(registry, location, encoding, Refine(registry, location, encoding, bestFormat.value, k)))
  {
    steps := 0;
    if bestFormat.None? || files.None? || files.value == [] || files.value[0].location.None? {
      return bestFormat, 0;
    }
    var first := files.value[0];
    var encoding := GetEncoding(first);
    var location := first.location.value;
    var format := bestFormat.value;
    ghost var start := format;
    var n := 0;
    while n < fuel
      invariant n <= fuel && format == Refine(registry, location, encoding, start, n)
      invariant forall k :: 0 <= k < n ==> !Settled(registry, location, encoding, Refine(registry, location, encoding, start, k))
    {
      var better := AskGuessers(registry, location, encoding, format);
      if better.Some? && better.value != format {
        RefineStep(registry, location, encoding, start, n);
        format := better.value;
        n := n + 1;
      } else {
        break;
      }
    }
    r, steps := Some(format), n;
  }

  lemma {:induction false} RefineStep(registry: map<string, seq<Guesser>>, location: string, encoding: Option<string>, format: string, n: nat)
    requires forall k :: 0 <= k < n ==> !Settled(registry, location, encoding, Refine(registry, location, encoding, format, k))
    ensures var cur := Refine(registry, location, encoding, format, n);
      var g := Guess(registry, location, encoding, cur);
      g.Some? ==> Refine(registry, location, encoding, format, n + 1) == g.value
    decreases n
  {
    if n > 0 {
      assert !Settled(registry, location, encoding, Refine(registry, location, encoding, format, 0));
      var g := Guess(registry, location, encoding, format);
      assert forall k :: 0 <= k < n - 1 ==> Refine(registry, location, encoding, format, k + 1) == Refine(registry, location, encoding, g.value, k);
      RefineStep(registry, location, encoding, g.value, n - 1);
    }
  }

  // ---------------------------------------------------------------------
  // Ranking the parser formats

  /** What the format registry records about a format: whether it has a UI class and a parser. */
  datatype FormatRecord = FormatRecord(hasUiClass: bool, hasParser: bool)

  /** The formats offered for parsing: those with both a UI class and a parser. */
  function EligibleFormats(registry: map<string, FormatRecord>): set<string> {
    set f | f in registry && registry[f].hasUiClass && registry[f].hasParser
  }

  /** The fields of `s` between its '/' separators, empty ones included. */
  function SplitAll(s: string): (fields: seq<string>)
    ensures |fields| > 0
    decreases |s|
  {
    var i := IndexOf(s, '/');
    if i < 0 then [s] else [s[..i]] + SplitAll(s[i + 1..])
  }

  function Join(fields: seq<string>): string
    requires |fields| > 0
  {
    if |fields| == 1 then fields[0] else fields[0] + "/" + Join(fields[1..])
  }

  /** Joining the fields back with '/' gives the string that was split. */
  lemma {:induction false} SplitAllJoin(s: string)
    ensures Join(SplitAll(s)) == s
    decreases |s|
  {
    var i := IndexOf(s, '/');
    if i >= 0 {
      SplitAllJoin(s[i + 1..]);
      assert s == s[..i] + "/" + s[i + 1..];
    }
  }

  function DropTrailingEmpty(fields: seq<string>): (r: seq<string>)
    ensures |r| <= |fields| && r == fields[..|r|] && (r != [] ==> r[|r| - 1] != [])
    ensures forall i :: |r| <= i < |fields| ==> fields[i] == []
  {
    if fields != [] && fields[|fields| - 1] == [] then DropTrailingEmpty(fields[..|fields| - 1]) else fields
  }

  /**
   * Java's split of a format on "/": the whole string when it has no '/',
   * otherwise its fields with the trailing empty ones removed.
   */
  function Segments(format: string): (segments: seq<string>)
    ensures '/' !in format ==> segments == [format]
    ensures '/' in format ==>
      |segments| <= |SplitAll(format)| && segments == SplitAll(format)[..|segments|] &&
      (segments != [] ==> segments[|segments| - 1] != [])
  {
    if IndexOf(format, '/') < 0 then [format] else DropTrailingEmpty(SplitAll(format))
  }

  /** The number of leading segments two formats share. */
  function CommonSegments(a: seq<string>, b: seq<string>): (k: nat)
    ensures k <= |a| && k <= |b| && a[..k] == b[..k]
    ensures k < |a| && k < |b| ==> a[k] != b[k]
  {
    if a == [] || b == [] || a[0] != b[0] then 0 else 1 + CommonSegments(a[1..], b[1..])
  }

  /** Java's String.compareTo(a, b) < 0: a proper prefix, or a smaller character where they first differ. */
  predicate LexLess(a: string, b: string) {
    if a == [] then b != []
    else if b == [] then false
    else if a[0] != b[0] then a[0] < b[0]
    else LexLess(a[1..], b[1..])
  }

  lemma {:induction false} LexLessIrreflexive(a: string)
    ensures !LexLess(a, a)
  {
    if a != [] {
      LexLessIrreflexive(a[1..]);
    }
  }

  lemma {:induction false} LexLessTotal(a: string, b: string)
    requires a != b
    ensures LexLess(a, b) != LexLess(b, a)
  {
    if a != [] && b != [] && a[0] == b[0] {
      assert a == [a[0]] + a[1..] && b == [b[0]] + b[1..];
      LexLessTotal(a[1..], b[1..]);
    }
  }

  lemma {:induction false} LexLessTransitive(a: string, b: string, c: string)
    requires LexLess(a, b) && LexLess(b, c)
    ensures LexLess(a, c)
  {
    if a != [] && b != [] && c != [] && a[0] == b[0] && b[0] == c[0] {
      LexLessTransitive(a[1..], b[1..], c[1..]);
    }
  }

  /**
   * The order of the ranked list: with no best format, lexicographic;
   * otherwise the best format first, then more segments shared with it,
   * then lexicographic.
   */
  predicate RanksBefore(best: Option<string>, a: string, b: string) {
    match best
    case None => LexLess(a, b)
    case Some(top) =>
      if a == top then b != top
      else if b == top then false
      else
        var ca, cb := CommonSegments(Segments(top), Segments(a)), CommonSegments(Segments(top), Segments(b));
        ca > cb || (ca == cb && LexLess(a, b))
  }

  /** Of two different formats, exactly one ranks before the other. */
  lemma RanksBeforeTotal(best: Option<string>, a: string, b: string)
    requires a != b
    ensures RanksBefore(best, a, b) != RanksBefore(best, b, a)
  {
    LexLessTotal(a, b);
  }

  lemma RanksBeforeIrreflexive(best: Option<string>, a: string)
    ensures !RanksBefore(best, a, a)
  {
    LexLessIrreflexive(a);
  }

  lemma RanksBeforeTransitive(best: Option<string>, a: string, b: string, c: string)
    requires RanksBefore(best, a, b) && RanksBefore(best, b, c)
    ensures RanksBefore(best, a, c)
  {
    if best.None? || (a != best.value && b != best.value && c != best.value) {
      if LexLess(a, b) && LexLess(b, c) {
        LexLessTransitive(a, b, c);
      }
    }
  }

  /** Each format ranks before the next one. */
  ghost predicate Ranked(best: Option<string>, s: seq<string>) {
    forall i :: 0 <= i < |s| - 1 ==> RanksBefore(best, s[i], s[i + 1])
  }

  /** In a ranked list every format ranks before every later one. */
  lemma {:induction false} RankedPairwise(best: Option<string>, s: seq<string>, i: nat, j: nat)
    requires Ranked(best, s) && i < j < |s|
    ensures RanksBefore(best, s[i], s[j])
    decreases j - i
  {
    var a, b, c := s[i], s[i + 1], s[j];
    assert RanksBefore(best, a, b);
    if i + 1 < j {
      RankedPairwise(best, s, i + 1, j);
      RanksBeforeTransitive(best, a, b, c);
    }
  }

  /** A best format that is in a ranked list is at its head. */
  lemma RankedBestFirst(top: string, s: seq<string>)
    requires Ranked(Some(top), s) && top in s
    ensures s[0] == top
  {
    forall i | 0 < i < |s| ensures s[i] != top {
      assert RanksBefore(Some(top), s[i - 1], s[i]);
    }
  }

  /** `x` inserted into a ranked list at its place. */
  function Insert(best: Option<string>, s: seq<string>, x: string): (r: seq<string>)
    requires Ranked(best, s) && x !in s
    ensures Ranked(best, r) && multiset(r) == multiset(s) + multiset{x}
    ensures s != [] ==> r[0] == x || r[0] == s[0]
  {
    if s == [] then [x]
    else if RanksBefore(best, x, s[0]) then [x] + s
    else
      RanksBeforeTotal(best, x, s[0]);
      var rest := Insert(best, s[1..], x);
      assert s == [s[0]] + s[1..];
      [s[0]] + rest
  }

  /** Sorts distinct formats into ranked order. */
  method SortFormats(best: Option<string>, formats: seq<string>) returns (ranked: seq<string>)
    requires forall i, j :: 0 <= i < j < |formats| ==> formats[i] != formats[j]
    ensures Ranked(best, ranked) && multiset(ranked) == multiset(formats)
  {
    ranked := [];
    var i := 0;
    while i < |formats|
      invariant i <= |formats|
      invariant Ranked(best, ranked) && multiset(ranked) == multiset(formats[..i])
    {
      assert formats[..i + 1] == formats[..i] + [formats[i]];
      assert formats[i] !in multiset(formats[..i]);
      ranked := Insert(best, ranked, formats[i]);
      i := i + 1;
    }
    assert formats[..i] == formats;
  }

  /**
   * The eligible formats in ranked order.  A best format that is not itself
   * eligible cannot be split into segments, so comparing any two formats
   * fails; with fewer than two formats nothing is compared.
   */
  method RankFormats(registry: map<string, FormatRecord>, best: Option<string>) returns (r: Result<seq<string>, string>)
    ensures r.Failure? <==> best.Some? && best.value !in EligibleFormats(registry) && |EligibleFormats(registry)| >= 2
    ensures r.Failure? ==> r.error == "NullPointerException"
    ensures r.Success? ==>
      var ranked := r.value;
      (forall f :: f in ranked <==> f in EligibleFormats(registry)) &&
      (forall i, j :: 0 <= i < j < |ranked| ==> ranked[i] != ranked[j]) &&
      Ranked(best, ranked)
  {
    var formats: seq<string> := [];
    ghost var seen: set<string> := {};
    var keys := registry.Keys;
    while keys != {}
      invariant keys <= registry.Keys
      invariant seen == set f | f in formats
      invariant |formats| == |seen|
      invariant forall f :: f in seen <==> f in EligibleFormats(registry) && f !in keys
      decreases |keys|
    {
      var f :| f in keys;
      var record := registry[f];
      if record.hasUiClass && record.hasParser {
        formats := formats + [f];
        seen := seen + {f};
      }
      keys := keys - {f};
    }
    assert seen == EligibleFormats(registry);
    DistinctBySize(formats, seen);
    var bestEligible := best.Some? && best.value in registry && registry[best.value].hasUiClass && registry[best.value].hasParser;
    if best.Some? && !bestEligible && |formats| >= 2 {
      return Failure("NullPointerException");
    }
    var ranked := SortFormats(best, formats);
    forall f ensures f in ranked <==> f in formats {
      assert f in ranked <==> f in multiset(ranked);
    }
    MultisetDistinct(formats, ranked);
    r := Success(ranked);
  }

  /** A list with as many elements as the set of its elements has no repetition. */
  lemma {:induction false} DistinctBySize(s: seq<string>, elems: set<string>)
    requires elems == set x | x in s
    requires |s| == |elems|
    ensures forall i, j :: 0 <= i < j < |s| ==> s[i] != s[j]
  {
    if s != [] {
      var n := |s| - 1;
      var init := set x | x in s[..n];
      assert elems == init + {s[n]};
      if s[n] in init {
        SizeBound(s[..n]);
        assert false;
      }
      DistinctBySize(s[..n], init);
      forall i | 0 <= i < n ensures s[i] != s[n] {
        assert s[i] in init;
      }
    }
  }

  lemma {:induction false} SizeBound(s: seq<string>)
    ensures |set x | x in s| <= |s|
  {
    if s != [] {
      var n := |s| - 1;
      SizeBound(s[..n]);
      assert (set x | x in s) == (set x | x in s[..n]) + {s[n]};
    }
  }

  /** A list with the same elements as a list without repetition has none either. */
  lemma MultisetDistinct(s: seq<string>, t: seq<string>)
    requires forall i, j :: 0 <= i < j < |s| ==> s[i] != s[j]
    requires multiset(s) == multiset(t)
    ensures forall i, j :: 0 <= i < j < |t| ==> t[i] != t[j]
  {
    forall x ensures multiset(s)[x] <= 1 {
      MultiplicityOfDistinct(s, x);
    }
    forall i, j | 0 <= i < j < |t| ensures t[i] != t[j] {
      assert t == t[..i] + [t[i]] + t[i + 1..j] + [t[j]] + t[j + 1..];
      assert multiset(t)[t[i]] <= 1;
    }
  }

  lemma {:induction false} MultiplicityOfDistinct(s: seq<string>, x: string)
    requires forall i, j :: 0 <= i < j < |s| ==> s[i] != s[j]
    ensures multiset(s)[x] <= 1
  {
    if s != [] {
      var n := |s| - 1;
      assert s == s[..n] + [s[n]];
      MultiplicityOfDistinct(s[..n], x);
      if x == s[n] {
        assert x !in s[..n];
      }
    }
  }
}
