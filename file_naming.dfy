/**
 * Naming of the files an import job stores in its raw-data directory:
 * collision-free allocation of a file name, locations relative to the
 * directory, and the classification of retrieved files as archives or
 * compressed files by the suffix of their name.
 *
 * The directory is modelled by the set of names that exist in it; the bytes
 * of the files are not modelled.
 */
module FileNaming {
  import opened Wrappers

  // ---------------------------------------------------------------------
  // Decimal numerals

  function Digit(d: nat): char
    requires d < 10
  {
    "0123456789"[d]
  }

  predicate IsDigit(c: char) {
    '0' <= c <= '9'
  }

  /** Java's decimal rendering of a non-negative int. */
  function NatToString(n: nat): (s: string)
    ensures |s| > 0 && forall i :: 0 <= i < |s| ==> IsDigit(s[i])
    decreases n
  {
    if n < 10 then [Digit(n)] else NatToString(n / 10) + [Digit(n % 10)]
  }

  /** The value of a string of decimal digits. */
  function DigitsValue(s: string): nat
    requires forall i :: 0 <= i < |s| ==> IsDigit(s[i])
  {
    if s == [] then 0
    else
      assert IsDigit(s[|s| - 1]);
      DigitsValue(s[..|s| - 1]) * 10 + (s[|s| - 1] as int - '0' as int) as nat
  }

  /** Reading back a rendered number gives the number. */
  lemma {:induction false} NatToStringRoundTrip(n: nat)
    ensures DigitsValue(NatToString(n)) == n
    decreases n
  {
    if n >= 10 {
      NatToStringRoundTrip(n / 10);
      var s := NatToString(n);
      assert s[..|s| - 1] == NatToString(n / 10);
    }
  }

  lemma NatToStringInjective(m: nat, n: nat)
    requires NatToString(m) == NatToString(n)
    ensures m == n
  {
    NatToStringRoundTrip(m);
    NatToStringRoundTrip(n);
  }

  // ---------------------------------------------------------------------
  // Allocation of a fresh name

  /** Java's String.indexOf for a character: the first index holding `c`, or -1. */
  function IndexOf(s: string, c: char): (i: int)
    ensures -1 <= i < |s|
    ensures i >= 0 ==> s[i] == c && forall k :: 0 <= k < i ==> s[k] != c
    ensures i < 0 ==> forall k :: 0 <= k < |s| ==> s[k] != c
  {
    if s == [] then -1
    else if s[0] == c then 0
    else
      var j := IndexOf(s[1..], c);
      if j < 0 then -1 else j + 1
  }

  /** The name split before its first '.': (prefix, suffix), the suffix holding the dot. */
  function SplitAtFirstDot(name: string): (ps: (string, string))
    ensures ps.0 + ps.1 == name && '.' !in ps.0
    ensures ps.1 == [] || ps.1[0] == '.'
  {
    var dot := IndexOf(name, '.');
    if dot < 0 then (name, []) else (name[..dot], name[dot..])
  }

  /** The k-th alternative to `name`: its prefix, '-', k, its suffix. */
  function Alternative(name: string, k: nat): string {
    var (prefix, suffix) := SplitAtFirstDot(name);
    prefix + "-" + NatToString(k) + suffix
  }

  /** Distinct numbers give distinct alternatives, and none of them is the name itself. */
  lemma AlternativesDistinct(name: string, j: nat, k: nat)
    ensures Alternative(name, k) != name
    ensures Alternative(name, j) == Alternative(name, k) ==> j == k
  {
    var (prefix, suffix) := SplitAtFirstDot(name);
    var a, b := Alternative(name, j), Alternative(name, k);
    assert |Alternative(name, k)| > |name|;
    if a == b {
      var p := |prefix| + 1;
      var dj, dk := NatToString(j), NatToString(k);
      assert |dj| == |dk|;
      assert a[p..p + |dj|] == dj;
      assert b[p..p + |dk|] == dk;
      NatToStringInjective(j, k);
    }
  }

  /**
   * The state of the search for a free name: `file` is the candidate about
   * to be tested (`name` first, then the alternative numbered index - 1),
   * every earlier candidate exists, and `tried` holds the earlier
   * candidates.
   */
  ghost predicate Searched(existing: set<string>, name: string, file: string, index: nat, tried: set<string>) {
    index >= 2 &&
    (index == 2 ==> file == name) &&
    (index > 2 ==> name in existing && file == Alternative(name, index - 1)) &&
    (forall j :: 2 <= j < index - 1 ==> Alternative(name, j) in existing) &&
    (forall x :: x in tried ==> x == name || exists j :: 2 <= j < index - 1 && x == Alternative(name, j)) &&
    file !in tried && tried <= existing
  }

  /** Testing a taken candidate moves the search to the next alternative and shrinks what is left to try. */
  lemma SearchStep(existing: set<string>, name: string, file: string, index: nat, tried: set<string>)
    requires Searched(existing, name, file, index, tried) && file in existing
    ensures Searched(existing, name, Alternative(name, index), index + 1, tried + {file})
    ensures |existing - (tried + {file})| < |existing - tried|
  {
    var next := Alternative(name, index);
    assert existing - (tried + {file}) == (existing - tried) - {file};
    forall x | x in tried + {file}
      ensures x != next
    {
      if x != name {
        var j :| 2 <= j < index && x == Alternative(name, j);
        AlternativesDistinct(name, j, index);
      } else {
        AlternativesDistinct(name, index, index);
      }
    }
  }

  /**
   * The file name allocated for `name` in a directory holding `existing`:
   * `name` itself when it is free, otherwise the first free alternative
   * prefix-2+suffix, prefix-3+suffix, ... where the split is at the name's
   * first '.' ("a.tar.gz" becomes "a-2.tar.gz").
   */
  method AllocateFile(existing: set<string>, name: string) returns (file: string)
    ensures file !in existing
    ensures name !in existing ==> file == name
    ensures name in existing ==>
      exists k :: k >= 2 && file == Alternative(name, k) &&
        forall j :: 2 <= j < k ==> Alternative(name, j) in existing
  {
    file := name;
    var index := 2;
    ghost var tried: set<string> := {};
    while file in existing
      invariant Searched(existing, name, file, index, tried)
      decreases |existing - tried|
    {
      SearchStep(existing, name, file, index, tried);
      tried := tried + {file};
      file := Alternative(name, index);
      index := index + 1;
    }
    SearchDone(existing, name, file, index, tried);
  }

  /** A search that stops at a free candidate has found the first free one. */
  lemma SearchDone(existing: set<string>, name: string, file: string, index: nat, tried: set<string>)
    requires Searched(existing, name, file, index, tried) && file !in existing
    ensures name !in existing ==> file == name
    ensures name in existing ==>
      exists k :: k >= 2 && file == Alternative(name, k) &&
        forall j :: 2 <= j < k ==> Alternative(name, j) in existing
  {
    if name in existing {
      assert index - 1 >= 2 && file == Alternative(name, index - 1);
    }
  }

  /** An allocated name keeps every dotted ending of the name ("x.csv.gz" keeps ".gz"). */
  lemma AlternativeKeepsEnding(name: string, k: nat, ending: string)
    requires |ending| > 0 && ending[0] == '.' && |ending| <= |name| && name[|name| - |ending|..] == ending
    ensures var alt := Alternative(name, k); |ending| <= |alt| && alt[|alt| - |ending|..] == ending
  {
    var (prefix, suffix) := SplitAtFirstDot(name);
    assert name[|name| - |ending|] == '.';
    assert |suffix| >= |ending|;
    var alt := Alternative(name, k);
    assert alt[|alt| - |suffix|..] == suffix;
    assert suffix[|suffix| - |ending|..] == ending;
  }

  /** Whatever name the allocation settles on, it keeps the dotted endings of the name asked for. */
  lemma AllocatedKeepsEnding(name: string, file: string, ending: string)
    requires |ending| > 0 && ending[0] == '.' && EndsWith(name, ending)
    requires file == name || exists k :: k >= 2 && file == Alternative(name, k)
    ensures EndsWith(file, ending)
  {
    if file != name {
      var k :| k >= 2 && file == Alternative(name, k);
      AlternativeKeepsEnding(name, k, ending);
    }
  }

  // ---------------------------------------------------------------------
  // Relative locations

  /**
   * The location of a file below a directory: the file's path with the
   * directory's path cut off, and then one leading separator dropped.
   */
  function GetRelativePath(file: string, dir: string): (location: string)
    requires |dir| <= |file|
    ensures |location| <= |file| - |dir|
    ensures |file[|dir|..]| > 0 && file[|dir|] == '/' ==> "/" + location == file[|dir|..]
    ensures !(|file[|dir|..]| > 0 && file[|dir|] == '/') ==> location == file[|dir|..]
  {
    var location := file[|dir|..];
    if |location| > 0 && location[0] == '/' then location[1..] else location
  }

  /** The location of the file `name` placed in `dir` is `name` again. */
  lemma RelativePathOfChild(dir: string, name: string)
    requires name == [] || name[0] != '/'
    ensures GetRelativePath(dir + "/" + name, dir) == name
  {
    assert (dir + "/" + name)[|dir|..] == "/" + name;
  }

  // ---------------------------------------------------------------------
  // Archives and compressed files

  predicate EndsWith(s: string, suffix: string) {
    |suffix| <= |s| && s[|s| - |suffix|..] == suffix
  }

  /** A name's last character is its ending's last character. */
  lemma LastCharOfEnding(s: string, suffix: string)
    requires |suffix| > 0
    ensures EndsWith(s, suffix) ==> s[|s| - 1] == suffix[|suffix| - 1]
  {
    if EndsWith(s, suffix) {
      assert s[|s| - |suffix|..][|suffix| - 1] == s[|s| - 1];
    }
  }

  datatype ArchiveKind = TarGzip | TarBzip2 | Tar | Zip

  datatype CompressionKind = Gzip | Bzip2

  /**
   * The archive reader opened for a file, chosen by its name's ending
   * (".tar.gz" and ".tgz", then ".tar.bz2", then ".tar", then ".zip");
   * `readable` says whether the chosen reader accepted the file's content,
   * and a rejected file opens no archive.
   */
  function TryOpenAsArchive(fileName: string, readable: bool): (k: Option<ArchiveKind>)
    ensures k == Some(TarGzip) <==> readable && (EndsWith(fileName, ".tar.gz") || EndsWith(fileName, ".tgz"))
    ensures k == Some(TarBzip2) <==> readable && EndsWith(fileName, ".tar.bz2")
    ensures k == Some(Tar) <==> readable && EndsWith(fileName, ".tar")
    ensures k == Some(Zip) <==> readable && EndsWith(fileName, ".zip")
  {
    LastCharOfEnding(fileName, ".tar.gz");
    LastCharOfEnding(fileName, ".tgz");
    LastCharOfEnding(fileName, ".tar.bz2");
    LastCharOfEnding(fileName, ".tar");
    LastCharOfEnding(fileName, ".zip");
    if !readable then None
    else if EndsWith(fileName, ".tar.gz") || EndsWith(fileName, ".tgz") then Some(TarGzip)
    else if EndsWith(fileName, ".tar.bz2") then Some(TarBzip2)
    else if EndsWith(fileName, ".tar") then Some(Tar)
    else if EndsWith(fileName, ".zip") then Some(Zip)
    else None
  }

  /** The single-stream decompressor opened for a file by its name's ending, ".gz" before ".bz2". */
  function TryOpenAsCompressedFile(fileName: string, readable: bool): (k: Option<CompressionKind>)
    ensures k == Some(Gzip) <==> readable && EndsWith(fileName, ".gz")
    ensures k == Some(Bzip2) <==> readable && EndsWith(fileName, ".bz2")
  {
    LastCharOfEnding(fileName, ".gz");
    LastCharOfEnding(fileName, ".bz2");
    if !readable then None
    else if EndsWith(fileName, ".gz") then Some(Gzip)
    else if EndsWith(fileName, ".bz2") then Some(Bzip2)
    else None
  }

  /** How a retrieved file is handled: exploded as an archive, uncompressed, or kept as it is. */
  datatype Handling = Explode(archive: ArchiveKind) | Uncompress(compression: CompressionKind) | Keep

  /**
   * The handling a retrieved file gets: the archive test comes first, and
   * the compression test is consulted only when no archive was opened.
   * `archiveReadable` and `compressedReadable` say whether the respective
   * reader accepted the content.
   */
  function Classify(fileName: string, archiveReadable: bool, compressedReadable: bool): (h: Handling)
    ensures h.Explode? <==> TryOpenAsArchive(fileName, archiveReadable).Some?
    ensures h.Uncompress? ==> TryOpenAsArchive(fileName, archiveReadable).None? &&
                              TryOpenAsCompressedFile(fileName, compressedReadable) == Some(h.compression)
    ensures h.Keep? <==> TryOpenAsArchive(fileName, archiveReadable).None? &&
                         TryOpenAsCompressedFile(fileName, compressedReadable).None?
  {
    match TryOpenAsArchive(fileName, archiveReadable)
    case Some(a) => Explode(a)
    case None =>
      match TryOpenAsCompressedFile(fileName, compressedReadable)
      case Some(c) => Uncompress(c)
      case None => Keep
  }

  /** A tar'ed and gzipped file is exploded as an archive, never merely uncompressed. */
  lemma TarGzipIsArchive(fileName: string)
    requires EndsWith(fileName, ".tar.gz")
    ensures Classify(fileName, true, true) == Explode(TarGzip)
    ensures TryOpenAsCompressedFile(fileName, true) == Some(Gzip)
  {
    assert fileName[|fileName| - 3..] == fileName[|fileName| - 7..][4..];
  }
}
