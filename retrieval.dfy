/**
 * Retrieval of the raw data of an import job: the progress counters kept
 * while uploads and downloads are saved, and the post-processing of every
 * saved file (archives are exploded into their member files, compressed
 * files are uncompressed, other files are kept).
 *
 * Streams are modelled by the sequence of results their reads return and
 * archives by their entries; the bytes themselves are not modelled.
 */
module Retrieval {
  import opened Wrappers
  import opened FileNaming

  // ---------------------------------------------------------------------
  // Progress

  /**
   * Java's integer division, which truncates toward zero: quotient and
   * remainder recombine to the dividend, as the Java language requires of
   * `(a / b) * b + a % b`.
   */
  function JavaDiv(a: int, b: int): (q: int)
    requires b != 0
    ensures a == q * b + JavaRem(a, b)
    ensures Abs(q) == Abs(a) / Abs(b)
    ensures a >= 0 && b > 0 ==> q == a / b
  {
    TruncatedRemainder(a, b);
    NonNegativeQuotient(Abs(a), Abs(b));
    if (a >= 0) == (b > 0) then Abs(a) / Abs(b) else -(Abs(a) / Abs(b))
  }

  /** Java's remainder: smaller than the divisor in magnitude, and zero or signed as the dividend. */
  function JavaRem(a: int, b: int): (r: int)
    requires b != 0
    ensures Abs(r) < Abs(b)
    ensures r == 0 || (r > 0 <==> a > 0)
  {
    ZeroOver(Abs(b));
    if a >= 0 then Abs(a) % Abs(b) else -(Abs(a) % Abs(b))
  }

  /** A non-negative number divided by a positive one has a non-negative quotient. */
  lemma NonNegativeQuotient(a: int, b: int)
    requires a >= 0 && b > 0
    ensures a / b >= 0
  {
  }

  /** Zero divided by a positive number: quotient and remainder are zero. */
  lemma ZeroOver(b: int)
    requires b > 0
    ensures 0 / b == 0 && 0 % b == 0
  {
  }

  /** What truncating division leaves over is Java's remainder. */
  lemma TruncatedRemainder(a: int, b: int)
    requires b != 0
    ensures var q := if (a >= 0) == (b > 0) then Abs(a) / Abs(b) else -(Abs(a) / Abs(b));
      a - q * b == JavaRem(a, b)
  {
    var A: int, B: int := Abs(a), Abs(b);
    var m, r := A / B, A % B;
    assert A == m * B + r && 0 <= r < B;
    TruncatedProduct(a, b);
    var q := if (a >= 0) == (b > 0) then m else -m;
    var rem := a - q * b;
    assert rem == if a >= 0 then r else -r;
  }

  /** The truncated quotient times the divisor is the magnitudes' product, signed as the dividend. */
  lemma TruncatedProduct(a: int, b: int)
    requires b != 0
    ensures var m := Abs(a) / Abs(b);
      (if (a >= 0) == (b > 0) then m else -m) * b == if a >= 0 then m * Abs(b) else -(m * Abs(b))
  {
    var m, B: int := Abs(a) / Abs(b), Abs(b);
    if b < 0 {
      assert b == -B;
      if a >= 0 {
        assert (-m) * (-B) == m * B;
      } else {
        assert m * (-B) == -(m * B);
      }
    }
  }

  function Abs(x: int): nat {
    if x < 0 then -x else x
  }

  /** Java's narrowing cast from long to int: the low 32 bits, read as a signed number. */
  function ToInt32(x: int): (r: int)
    ensures -0x8000_0000 <= r < 0x8000_0000
    ensures -0x8000_0000 <= x < 0x8000_0000 ==> r == x
  {
    (x + 0x8000_0000) % 0x1_0000_0000 - 0x8000_0000
  }

  /** The percentage shown for a retrieval: -1 while nothing is expected, otherwise retrieved*100/expected. */
  function CalculateProgressPercent(totalExpectedSize: int, totalRetrievedSize: int): (percent: int)
  {
    if totalExpectedSize == 0 then -1 else ToInt32(JavaDiv(totalRetrievedSize * 100, totalExpectedSize))
  }

  /**
   * With a positive expected total, the percentage is the whole part of the
   * retrieved share, so it stays within 0..100 while the retrieved total does
   * not pass the expected one.
   */
  lemma ProgressPercentBounds(expected: int, retrieved: int)
    requires expected > 0 && 0 <= retrieved <= expected
    ensures var p := CalculateProgressPercent(expected, retrieved);
      0 <= p <= 100 && p * expected <= retrieved * 100 < (p + 1) * expected
  {
    var x := retrieved * 100;
    var q := x / expected;
    DivisionBounds(x, expected);
    MulMonotone(retrieved, expected, 100);
    MulCancel(q, expected, 100);
    assert JavaDiv(x, expected) == q;
    assert ToInt32(q) == q;
  }

  lemma DivisionBounds(x: int, e: int)
    requires e > 0 && x >= 0
    ensures 0 <= x / e && (x / e) * e <= x < (x / e + 1) * e
  {
  }

  lemma MulMonotone(a: int, b: int, c: int)
    requires a <= b && c >= 0
    ensures a * c <= b * c
  {
  }

  lemma MulCancel(q: int, e: int, b: int)
    requires e > 0 && q * e <= b * e
    ensures q <= b
  {
  }

  lemma NothingExpected(retrieved: int)
    ensures CalculateProgressPercent(0, retrieved) == -1
  {
  }

  /** The totals behind a retrieval's progress, and the percentage last reported. */
  class SavingUpdate {
    var totalExpectedSize: int
    var totalRetrievedSize: int
    var percent: int

    constructor ()
      ensures totalExpectedSize == 0 && totalRetrievedSize == 0 && percent == -1
    {
      totalExpectedSize := 0;
      totalRetrievedSize := 0;
      percent := -1;
    }

    /** Reports the percentage of the current totals. */
    method SavedMore()
      modifies this`percent
      ensures percent == CalculateProgressPercent(totalExpectedSize, totalRetrievedSize)
    {
      percent := CalculateProgressPercent(totalExpectedSize, totalRetrievedSize);
    }
  }

  /**
   * The listener of a multipart upload: the content length is added to the
   * expected total the first time it is known (not negative), and from then
   * on the retrieved total follows the bytes read.
   */
  class UploadListener {
    const update: SavingUpdate
    var setContentLength: bool
    var lastBytesRead: int
    /** The content length the listener has added to the expected total, if any. */
    ghost var declared: Option<int>

    ghost predicate Valid()
      reads this
    {
      (setContentLength <==> declared.Some?) &&
      (declared.Some? ==> declared.value >= 0) &&
      (!setContentLength ==> lastBytesRead == 0)
    }

    constructor (update: SavingUpdate)
      ensures this.update == update && Valid() && declared == None && lastBytesRead == 0
    {
      this.update := update;
      setContentLength := false;
      lastBytesRead := 0;
      declared := None;
    }

    method Update(bytesRead: int, contentLength: int)
      requires Valid()
      modifies this`setContentLength, this`lastBytesRead, this`declared, update
      ensures Valid()
      ensures old(declared).Some? ==> declared == old(declared)
      ensures old(declared).None? && contentLength >= 0 ==> declared == Some(contentLength)
      ensures old(declared).None? && contentLength < 0 ==> declared == None
      ensures update.totalExpectedSize ==
        old(update.totalExpectedSize) + (if old(declared).None? && declared.Some? then contentLength else 0)
      ensures declared.Some? ==>
        update.totalRetrievedSize == old(update.totalRetrievedSize) + bytesRead - old(lastBytesRead) &&
        lastBytesRead == bytesRead &&
        update.percent == CalculateProgressPercent(update.totalExpectedSize, update.totalRetrievedSize)
      ensures declared.None? ==>
        update.totalRetrievedSize == old(update.totalRetrievedSize) &&
        update.percent == old(update.percent) && lastBytesRead == old(lastBytesRead)
    {
      if !setContentLength {
        if contentLength >= 0 {
          update.totalExpectedSize := update.totalExpectedSize + contentLength;
          setContentLength := true;
          declared := Some(contentLength);
        }
      }
      if setContentLength {
        update.totalRetrievedSize := update.totalRetrievedSize + (bytesRead - lastBytesRead);
        lastBytesRead := bytesRead;
        update.SavedMore();
      }
    }
  }

  // ---------------------------------------------------------------------
  // Saving streams

  /** The raw-data directory of an import job: the names of the files in it. */
  class RawDataDir {
    var names: set<string>

    constructor (names: set<string>)
      ensures this.names == names
    {
      this.names := names;
    }
  }

  /** The chunk sizes a stream delivers: its read results up to the first one that is not positive. */
  function Delivered(results: seq<int>): (chunks: seq<int>)
    ensures |chunks| <= |results| && chunks == results[..|chunks|]
    ensures forall i :: 0 <= i < |chunks| ==> chunks[i] > 0
    ensures |chunks| < |results| ==> results[|chunks|] <= 0
  {
    if results == [] || results[0] <= 0 then [] else [results[0]] + Delivered(results[1..])
  }

  function Sum(s: seq<int>): int {
    if s == [] then 0 else s[0] + Sum(s[1..])
  }

  lemma {:induction false} SumAppend(s: seq<int>, x: int)
    ensures Sum(s + [x]) == Sum(s) + x
  {
    if s != [] {
      SumAppend(s[1..], x);
      assert (s + [x])[1..] == s[1..] + [x];
    }
  }

  lemma {:induction false} SumPositive(s: seq<int>)
    requires forall i :: 0 <= i < |s| ==> s[i] > 0
    ensures Sum(s) >= 0 && (s != [] ==> Sum(s) > 0)
  {
    if s != [] {
      SumPositive(s[1..]);
    }
  }

  /**
   * Writes a stream to `file` (which then exists) chunk by chunk, counting
   * the bytes; when an update is given, its retrieved total grows with each
   * chunk and the percentage is reported.
   */
  method SaveStreamToFile(dir: RawDataDir, file: string, results: seq<int>, update: SavingUpdate?)
    returns (length: int)
    modifies dir, update
    ensures length == Sum(Delivered(results)) && length >= 0
    ensures dir.names == old(dir.names) + {file}
    ensures update != null ==>
      update.totalRetrievedSize == old(update.totalRetrievedSize) + length &&
      update.totalExpectedSize == old(update.totalExpectedSize) &&
      (length > 0 ==> update.percent == CalculateProgressPercent(update.totalExpectedSize, update.totalRetrievedSize)) &&
      (length == 0 ==> update.percent == old(update.percent))
  {
    dir.names := dir.names + {file};
    length := 0;
    var i := 0;
    while i < |results| && results[i] > 0
      invariant i <= |results| && i <= |Delivered(results)| && results[..i] == Delivered(results)[..i]
      invariant forall k :: 0 <= k < i ==> results[k] > 0
      invariant length == Sum(results[..i])
      invariant dir.names == old(dir.names) + {file}
      invariant update != null ==>
        update.totalRetrievedSize == old(update.totalRetrievedSize) + length &&
        update.totalExpectedSize == old(update.totalExpectedSize) &&
        (i > 0 ==> update.percent == CalculateProgressPercent(update.totalExpectedSize, update.totalRetrievedSize)) &&
        (i == 0 ==> update.percent == old(update.percent))
    {
      var c := results[i];
      assert results[..i + 1] == results[..i] + [c];
      SumAppend(results[..i], c);
      length := length + c;
      if update != null {
        update.totalRetrievedSize := update.totalRetrievedSize + c;
        update.SavedMore();
      }
      i := i + 1;
    }
    assert Delivered(results) == results[..i];
    SumPositive(results[..i]);
  }

  /**
   * A download as the retrieval is written: the length it declares joins the
   * expected total, the bytes are saved from the form field's stream (which
   * has already been read to its end for the URL, so `fieldRest` is what is
   * left of it) instead of from the connection's stream `urlReads`, and the
   * expected total is then corrected by the bytes actually saved.
   */
  method DownloadAsWritten(dir: RawDataDir, file: string, update: SavingUpdate, contentLength: int,
                           fieldRest: seq<int>, urlReads: seq<int>)
    returns (actualLength: int)
    requires Delivered(fieldRest) == []
    modifies dir, update
    ensures actualLength == 0
    ensures update.totalExpectedSize == old(update.totalExpectedSize)
    ensures update.totalRetrievedSize == old(update.totalRetrievedSize)
    ensures dir.names == old(dir.names) + {file}
  {
    if contentLength >= 0 {
      update.totalExpectedSize := update.totalExpectedSize + contentLength;
    }
    actualLength := SaveStreamToFile(dir, file, fieldRest, update);
    if contentLength >= 0 {
      update.totalExpectedSize := update.totalExpectedSize + (actualLength - contentLength);
    } else {
      update.totalExpectedSize := update.totalExpectedSize + actualLength;
    }
  }

  /**
   * A download that saves the connection's stream: whatever length it
   * declared, the expected total grows by exactly the bytes saved, as does
   * the retrieved total.
   */
  method Download(dir: RawDataDir, file: string, update: SavingUpdate, contentLength: int, urlReads: seq<int>)
    returns (actualLength: int)
    modifies dir, update
    ensures actualLength == Sum(Delivered(urlReads)) && actualLength >= 0
    ensures update.totalExpectedSize == old(update.totalExpectedSize) + actualLength
    ensures update.totalRetrievedSize == old(update.totalRetrievedSize) + actualLength
    ensures dir.names == old(dir.names) + {file}
  {
    if contentLength >= 0 {
      update.totalExpectedSize := update.totalExpectedSize + contentLength;
    }
    actualLength := SaveStreamToFile(dir, file, urlReads, update);
    if contentLength >= 0 {
      update.totalExpectedSize := update.totalExpectedSize + (actualLength - contentLength);
    } else {
      update.totalExpectedSize := update.totalExpectedSize + actualLength;
    }
  }

  // ---------------------------------------------------------------------
  // Post-processing of saved files

  /** What the retrieval records about a stored file. */
  datatype FileRecord = FileRecord(
    origin: string,
    declaredEncoding: Option<string>,
    fileName: Option<string>,
    archiveFileName: Option<string>,
    location: string,
    declaredMimeType: Option<string>)

  datatype ArchiveEntry = ArchiveEntry(name: string, isDirectory: bool)

  /** The names of the entries that are files, in archive order. */
  function FileEntries(entries: seq<ArchiveEntry>): (names: seq<string>)
    ensures |names| <= |entries|
  {
    if entries == [] then []
    else
      var last := entries[|entries| - 1];
      FileEntries(entries[..|entries| - 1]) + (if last.isDirectory then [] else [last.name])
  }

  function Locations(records: seq<FileRecord>): set<string> {
    set r | r in records :: r.location
  }

  /** The record of an archive member: origin and archive name from the archive, no declared encoding or type. */
  function MemberRecord(archive: FileRecord, name: string, location: string): FileRecord {
    FileRecord(archive.origin, None, Some(name), archive.fileName, location, None)
  }

  /**
   * `records` are what extracting `entries` into a directory that held
   * `before` yields, and `names` what the directory then holds: one record
   * per file entry, in order, each at a location that is new and differs
   * from every other record's.
   */
  ghost predicate Extracted(before: set<string>, archive: FileRecord, entries: seq<ArchiveEntry>,
                            records: seq<FileRecord>, names: set<string>)
  {
    var files := FileEntries(entries);
    |records| == |files| &&
    (forall k :: 0 <= k < |records| ==> records[k] == MemberRecord(archive, files[k], records[k].location)) &&
    (forall k :: 0 <= k < |records| ==> records[k].location !in before) &&
    (forall k, j :: 0 <= k < j < |records| ==> records[k].location != records[j].location) &&
    names == before + Locations(records)
  }

  lemma ExtractStep(before: set<string>, archive: FileRecord, entries: seq<ArchiveEntry>,
                    records: seq<FileRecord>, names: set<string>, entry: ArchiveEntry, file2: string)
    requires Extracted(before, archive, entries, records, names)
    requires !entry.isDirectory ==> file2 !in names
    ensures entry.isDirectory ==> Extracted(before, archive, entries + [entry], records, names)
    ensures !entry.isDirectory ==>
      Extracted(before, archive, entries + [entry], records + [MemberRecord(archive, entry.name, file2)], names + {file2})
  {
    assert (entries + [entry])[..|entries|] == entries;
    var r := MemberRecord(archive, entry.name, file2);
    assert Locations(records + [r]) == Locations(records) + {file2};
  }

  /**
   * Extracts the file entries of an archive into newly allocated files, one
   * record each.  Reading breaks off before entry `readable` when that is
   * within the archive, and the archive counts as exploded all the same.
   */
  method ExplodeArchive(dir: RawDataDir, archive: FileRecord, entries: seq<ArchiveEntry>, readable: nat)
    returns (exploded: bool, records: seq<FileRecord>)
    modifies dir
    ensures exploded
    ensures Extracted(old(dir.names), archive, entries[..if readable < |entries| then readable else |entries|],
                      records, dir.names)
  {
    var n := if readable < |entries| then readable else |entries|;
    records := [];
    var i := 0;
    while i < n
      invariant i <= n
      invariant Extracted(old(dir.names), archive, entries[..i], records, dir.names)
    {
      var entry := entries[i];
      assert entries[..i + 1] == entries[..i] + [entry];
      if entry.isDirectory {
        ExtractStep(old(dir.names), archive, entries[..i], records, dir.names, entry, entry.name);
      } else {
        var file2 := AllocateFile(dir.names, entry.name);
        ExtractStep(old(dir.names), archive, entries[..i], records, dir.names, entry, file2);
        dir.names := dir.names + {file2};
        records := records + [MemberRecord(archive, entry.name, file2)];
      }
      i := i + 1;
    }
    exploded := true;
  }

  /** The name an uncompressed file is stored under: the record's file name, not stripped of its ending. */
  function UncompressedName(record: FileRecord): string {
    if record.fileName.Some? then record.fileName.value else "unknown"
  }

  /**
   * Stores the uncompressed content of a file under a name allocated for
   * the record's file name, and points the record at it.
   */
  method UncompressFile(dir: RawDataDir, record: FileRecord) returns (file2: string, record': FileRecord)
    modifies dir
    ensures file2 !in old(dir.names) && dir.names == old(dir.names) + {file2}
    ensures UncompressedName(record) !in old(dir.names) ==> file2 == UncompressedName(record)
    ensures UncompressedName(record) in old(dir.names) ==> exists k :: k >= 2 && file2 == Alternative(UncompressedName(record), k)
    ensures forall ending :: |ending| > 0 && ending[0] == '.' && EndsWith(UncompressedName(record), ending) ==>
      EndsWith(file2, ending)
    ensures record' == record.(location := file2, declaredEncoding := None, declaredMimeType := None)
  {
    var name := UncompressedName(record);
    file2 := AllocateFile(dir.names, name);
    forall ending | |ending| > 0 && ending[0] == '.' && EndsWith(name, ending)
      ensures EndsWith(file2, ending)
    {
      AllocatedKeepsEnding(name, file2, ending);
    }
    dir.names := dir.names + {file2};
    record' := record.(location := file2, declaredEncoding := None, declaredMimeType := None);
  }

  /** The last component of a path. */
  function BaseName(path: string): (name: string)
    ensures '/' !in name && |name| <= |path| && path[|path| - |name|..] == name
    decreases |path|
  {
    if path == [] then []
    else if path[|path| - 1] == '/' then []
    else BaseName(path[..|path| - 1]) + [path[|path| - 1]]
  }

  /**
   * Post-processing of the saved file `file`, as written: an archive is
   * exploded and deleted, and the retrieval is told it was an archive; a
   * compressed file is uncompressed and deleted, leaving the uncompressed
   * copy in the directory, after which the stream clean-up dereferences the
   * archive stream, which is null on this path, and the call fails; any
   * other file keeps its record.
   */
  method PostProcessRetrievedFileAsWritten(dir: RawDataDir, file: string, record: FileRecord,
                                           archiveReadable: bool, compressedReadable: bool,
                                           entries: seq<ArchiveEntry>, readable: nat)
    returns (r: Result<bool, string>, added: seq<FileRecord>)
    requires file in dir.names
    modifies dir
    ensures Classify(BaseName(file), archiveReadable, compressedReadable).Explode? ==>
      r == Success(true) && file !in dir.names &&
      Extracted(old(dir.names), record, entries[..if readable < |entries| then readable else |entries|],
                added, dir.names + {file})
    ensures Classify(BaseName(file), archiveReadable, compressedReadable).Uncompress? ==>
      r == Failure("NullPointerException") && added == [] &&
      exists copy :: copy !in old(dir.names) && dir.names == old(dir.names) - {file} + {copy} &&
        (UncompressedName(record) !in old(dir.names) ==> copy == UncompressedName(record)) &&
        (UncompressedName(record) in old(dir.names) ==> exists k :: k >= 2 && copy == Alternative(UncompressedName(record), k))
    ensures Classify(BaseName(file), archiveReadable, compressedReadable).Keep? ==>
      r == Success(false) && added == [record] && dir.names == old(dir.names)
  {
    match Classify(BaseName(file), archiveReadable, compressedReadable)
    case Explode(_) =>
      var exploded;
      exploded, added := ExplodeArchive(dir, record, entries, readable);
      ExtractedBesides(old(dir.names), record, entries[..if readable < |entries| then readable else |entries|],
                       added, dir.names, file);
      dir.names := dir.names - {file};
      r := Success(true);
    case Uncompress(_) =>
      var file2, record' := UncompressFile(dir, record);
      ReplacedBy(old(dir.names), file, file2);
      dir.names := dir.names - {file};
      r, added := Failure("NullPointerException"), [];
    case Keep =>
      r, added := Success(false), [record];
  }

  /** Deleting an archive that was in the directory before leaves what was extracted from it. */
  lemma ExtractedBesides(before: set<string>, archive: FileRecord, entries: seq<ArchiveEntry>,
                         records: seq<FileRecord>, names: set<string>, file: string)
    requires Extracted(before, archive, entries, records, names) && file in before
    ensures file in names && (names - {file}) + {file} == names
  {
  }

  /** Adding a new copy and deleting the original, which was there before. */
  lemma ReplacedBy(before: set<string>, file: string, copy: string)
    requires file in before && copy !in before
    ensures before + {copy} - {file} == before - {file} + {copy}
  {
  }

  /** A readable gzip file that is no archive, such as "data.csv.gz", goes down the failing path. */
  lemma GzipUploadFails()
    ensures Classify(BaseName("data.csv.gz"), true, true) == Uncompress(Gzip)
  {
    var name := "data.csv.gz";
    BaseNameWithoutSeparator(name);
    assert !EndsWith(name, ".tar.gz") by {
      assert name[5] != ".tar.gz"[1];
    }
    assert TryOpenAsArchive(name, true) == None;
    assert TryOpenAsCompressedFile(name, true) == Some(Gzip);
  }

  lemma {:induction false} BaseNameWithoutSeparator(path: string)
    requires '/' !in path
    ensures BaseName(path) == path
    decreases |path|
  {
    if path != [] {
      BaseNameWithoutSeparator(path[..|path| - 1]);
    }
  }

  /**
   * Post-processing of the saved file `file` with the decompressor's stream
   * closed on the compressed path: an archive is exploded into records for
   * its file entries and deleted (the result says it was an archive); a
   * compressed file is replaced by its uncompressed copy, which the record
   * then locates; any other file keeps its record.
   */
  method PostProcessRetrievedFile(dir: RawDataDir, file: string, record: FileRecord,
                                  archiveReadable: bool, compressedReadable: bool,
                                  entries: seq<ArchiveEntry>, readable: nat)
    returns (isArchive: bool, added: seq<FileRecord>)
    requires file in dir.names
    modifies dir
    ensures isArchive <==> Classify(BaseName(file), archiveReadable, compressedReadable).Explode?
    ensures Classify(BaseName(file), archiveReadable, compressedReadable).Explode? ==>
      file !in dir.names &&
      Extracted(old(dir.names), record, entries[..if readable < |entries| then readable else |entries|],
                added, dir.names + {file})
    ensures Classify(BaseName(file), archiveReadable, compressedReadable).Uncompress? ==>
      |added| == 1 && added[0] == record.(location := added[0].location, declaredEncoding := None, declaredMimeType := None) &&
      added[0].location !in old(dir.names) &&
      (UncompressedName(record) !in old(dir.names) ==> added[0].location == UncompressedName(record)) &&
      (UncompressedName(record) in old(dir.names) ==>
        exists k :: k >= 2 && added[0].location == Alternative(UncompressedName(record), k)) &&
      dir.names == old(dir.names) - {file} + {added[0].location}
    ensures Classify(BaseName(file), archiveReadable, compressedReadable).Keep? ==>
      added == [record] && dir.names == old(dir.names)
  {
    match Classify(BaseName(file), archiveReadable, compressedReadable)
    case Explode(_) =>
      var exploded;
      exploded, added := ExplodeArchive(dir, record, entries, readable);
      ExtractedBesides(old(dir.names), record, entries[..if readable < |entries| then readable else |entries|],
                       added, dir.names, file);
      dir.names := dir.names - {file};
      isArchive := true;
    case Uncompress(_) =>
      var file2, record' := UncompressFile(dir, record);
      ReplacedBy(old(dir.names), file, file2);
      dir.names := dir.names - {file};
      isArchive, added := false, [record'];
    case Keep =>
      isArchive, added := false, [record];
  }
}
