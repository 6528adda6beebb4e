/**
 * The file-selection panel of the importing page: the histogram of file
 * extensions it offers, the per-file selection flags, and the list of
 * selected indices it sends back to the server, which the flags and the
 * list keep in step.
 */
module FileSelectionUI {
  import opened Wrappers
  import opened FileNaming
  import opened FormatSelection

  /** One row of the extension table: an extension (with its dot) and how many files have it. */
  datatype ExtensionCount = ExtensionCount(extension: string, count: nat)

  /** The position of the last `c` in `s`, or -1. */
  function LastIndexOf(s: string, c: char): (i: int)
    ensures -1 <= i < |s|
    ensures i >= 0 ==> s[i] == c && forall k :: i < k < |s| ==> s[k] != c
    ensures i < 0 ==> forall k :: 0 <= k < |s| ==> s[k] != c
  {
    if s == [] then -1
    else if s[|s| - 1] == c then |s| - 1
    else LastIndexOf(s[..|s| - 1], c)
  }

  /**
   * A file name's extension: from its last '.' on, provided that dot comes
   * after the last '/' with at least one character between them.
   */
  function Extension(fileName: string): Option<string> {
    var slash := LastIndexOf(fileName, '/');
    var dot := LastIndexOf(fileName, '.');
    if dot > slash + 1 then Some(fileName[dot..]) else None
  }

  /**
   * A file has an extension exactly when its last dot comes after its last
   * slash with a character between them; the extension is a dot and what
   * follows, ends the name, and holds no other dot and no slash.
   */
  lemma ExtensionShape(fileName: string)
    ensures Extension(fileName).Some? <==> LastIndexOf(fileName, '.') > LastIndexOf(fileName, '/') + 1
    ensures Extension(fileName).Some? ==>
      var e := Extension(fileName).value;
      |e| > 0 && e[0] == '.' && EndsWith(fileName, e) && '/' !in e && '.' !in e[1..]
  {
    var slash := LastIndexOf(fileName, '/');
    var dot := LastIndexOf(fileName, '.');
    if dot > slash + 1 {
      var e := fileName[dot..];
      assert forall k :: 1 <= k < |e| ==> e[k] == fileName[dot + k];
    }
  }

  function Extensions(fileNames: seq<string>): (exts: seq<Option<string>>)
    ensures |exts| == |fileNames| && forall i :: 0 <= i < |fileNames| ==> exts[i] == Extension(fileNames[i])
  {
    seq(|fileNames|, i requires 0 <= i < |fileNames| => Extension(fileNames[i]))
  }

  /** Every extension that occurs, once, with the number of files that have it, in order of first occurrence. */
  function HistogramOf(fileNames: seq<string>): seq<ExtensionCount> {
    var exts := Extensions(fileNames);
    var order := FirstAppearances(exts);
    seq(|order|, k requires 0 <= k < |order| => ExtensionCount(order[k], Count(exts, order[k])))
  }

  /** The histogram lists each extension once, each with a positive count. */
  lemma HistogramDistinct(fileNames: seq<string>)
    ensures var h := HistogramOf(fileNames);
      (forall k, j :: 0 <= k < j < |h| ==> h[k].extension != h[j].extension) &&
      (forall k :: 0 <= k < |h| ==> h[k].count > 0)
  {
    var exts := Extensions(fileNames);
    var order := FirstAppearances(exts);
    FirstAppearancesOrder(exts);
    forall k | 0 <= k < |order| ensures Count(exts, order[k]) > 0 {
      CountPositive(exts, order[k]);
    }
  }

  /** The histogram names exactly the extensions the files have. */
  lemma HistogramCovers(fileNames: seq<string>, e: string)
    ensures (exists k :: 0 <= k < |HistogramOf(fileNames)| && HistogramOf(fileNames)[k].extension == e) <==>
      exists i :: 0 <= i < |fileNames| && Extension(fileNames[i]) == Some(e)
  {
    var exts := Extensions(fileNames);
    var order := FirstAppearances(exts);
    var h := HistogramOf(fileNames);
    FirstAppearancesOrder(exts);
    if exists i :: 0 <= i < |fileNames| && Extension(fileNames[i]) == Some(e) {
      var i :| 0 <= i < |fileNames| && Extension(fileNames[i]) == Some(e);
      assert exts[i] == Some(e);
      assert e in order;
      var k :| 0 <= k < |order| && order[k] == e;
      assert h[k].extension == e;
    }
    if exists k :: 0 <= k < |h| && h[k].extension == e {
      var k :| 0 <= k < |h| && h[k].extension == e;
      assert order[k] == e;
      var i :| 0 <= i < |exts| && exts[i] == Some(e);
      assert Extension(fileNames[i]) == Some(e);
    }
  }

  lemma {:induction false} CountPositive(formats: seq<Option<string>>, f: string)
    requires Some(f) in formats
    ensures Count(formats, f) > 0
  {
    var n := |formats| - 1;
    if formats[n] != Some(f) {
      assert Some(f) in formats[..n];
      CountPositive(formats[..n], f);
    }
  }

  /**
   * The extension table laid out as the page keeps it: one row per tallied
   * extension, in the tally's order, with the tally's count, and `rowOf`
   * leading from an extension to its row.
   */
  ghost predicate Rows(order: seq<string>, counts: map<string, nat>, rowOf: map<string, nat>, list: seq<ExtensionCount>) {
    |list| == |order| &&
    (forall e :: e in rowOf <==> e in counts) &&
    (forall k :: 0 <= k < |list| ==>
      order[k] in rowOf && rowOf[order[k]] == k && order[k] in counts && list[k] == ExtensionCount(order[k], counts[order[k]])) &&
    (forall e :: e in rowOf ==> rowOf[e] < |list| && order[rowOf[e]] == e)
  }

  /** Counting an extension already in the table changes its row only. */
  lemma RowsSeen(order: seq<string>, counts: map<string, nat>, counts': map<string, nat>, rowOf: map<string, nat>,
                 list: seq<ExtensionCount>, list': seq<ExtensionCount>, e: string)
    requires Rows(order, counts, rowOf, list) && e in rowOf
    requires counts' == counts[e := counts[e] + 1]
    requires list' == list[rowOf[e] := ExtensionCount(e, list[rowOf[e]].count + 1)]
    ensures Rows(order, counts', rowOf, list')
  {
  }

  /** A new extension gets a new last row. */
  lemma RowsNew(order: seq<string>, counts: map<string, nat>, rowOf: map<string, nat>, list: seq<ExtensionCount>, e: string)
    requires Rows(order, counts, rowOf, list) && e !in rowOf
    ensures Rows(order + [e], counts[e := 1], rowOf[e := |list|], list + [ExtensionCount(e, 1)])
  {
  }

  /** Walks the files' extensions once, counting each extension in the row it was first given. */
  method Tabulate(exts: seq<Option<string>>) returns (list: seq<ExtensionCount>)
    ensures |list| == |FirstAppearances(exts)|
    ensures forall k :: 0 <= k < |list| ==> list[k] == ExtensionCount(FirstAppearances(exts)[k], Count(exts, FirstAppearances(exts)[k]))
  {
    var rowOf: map<string, nat> := map[];
    list := [];
    ghost var order: seq<string> := [];
    ghost var counts: map<string, nat> := map[];
    var i := 0;
    while i < |exts|
      invariant i <= |exts|
      invariant Tallied(exts[..i], order, counts) && Rows(order, counts, rowOf, list)
    {
      var e := exts[i];
      assert exts[..i + 1] == exts[..i] + [e];
      if e.Some? {
        if e.value in rowOf {
          TallySeen(exts[..i], order, counts, e.value);
          var k := rowOf[e.value];
          ghost var counts' := counts[e.value := counts[e.value] + 1];
          ghost var list' := list[k := ExtensionCount(e.value, list[k].count + 1)];
          RowsSeen(order, counts, counts', rowOf, list, list', e.value);
          list := list[k := ExtensionCount(e.value, list[k].count + 1)];
          counts := counts';
        } else {
          TallyNew(exts[..i], order, counts, e.value);
          RowsNew(order, counts, rowOf, list, e.value);
          rowOf := rowOf[e.value := |list|];
          list := list + [ExtensionCount(e.value, 1)];
          order := order + [e.value];
          counts := counts[e.value := 1];
        }
      } else {
        TallyNone(exts[..i], order, counts);
      }
      i := i + 1;
    }
    assert exts[..i] == exts;
  }

  /** `list` is ordered by count, largest first. */
  predicate ByCountDescending(list: seq<ExtensionCount>) {
    forall i, j :: 0 <= i < j < |list| ==> list[i].count >= list[j].count
  }

  /** `x` inserted after every row with at least its count. */
  function InsertByCount(list: seq<ExtensionCount>, x: ExtensionCount): (r: seq<ExtensionCount>)
    requires ByCountDescending(list)
    ensures ByCountDescending(r)
    ensures |r| == |list| + 1 && (r[0] == x || (list != [] && r[0] == list[0]))
  {
    if list == [] then [x]
    else if list[0].count < x.count then
      SortedCons(x, list);
      [x] + list
    else
      var rest := InsertByCount(list[1..], x);
      SortedCons(list[0], rest);
      [list[0]] + rest
  }

  /** Inserting adds the row and keeps every other. */
  lemma {:induction false} InsertByCountAdds(list: seq<ExtensionCount>, x: ExtensionCount)
    requires ByCountDescending(list)
    ensures multiset(InsertByCount(list, x)) == multiset(list) + multiset{x}
  {
    if list != [] && list[0].count >= x.count {
      InsertByCountAdds(list[1..], x);
      assert list == [list[0]] + list[1..];
    }
  }

  /** A row no smaller than the head of a sorted table can go in front of it. */
  lemma SortedCons(head: ExtensionCount, list: seq<ExtensionCount>)
    requires ByCountDescending(list) && (list != [] ==> head.count >= list[0].count)
    ensures ByCountDescending([head] + list)
  {
    forall i, j | 0 <= i < j < |[head] + list| ensures ([head] + list)[i].count >= ([head] + list)[j].count {
      if i == 0 {
        assert ([head] + list)[j] == list[j - 1];
        if j > 1 {
          assert list[0].count >= list[j - 1].count;
        }
      } else {
        assert ([head] + list)[i] == list[i - 1] && ([head] + list)[j] == list[j - 1];
      }
    }
  }

  /** The extension table sorted by count, largest first. */
  method SortByCount(list: seq<ExtensionCount>) returns (sorted: seq<ExtensionCount>)
    ensures ByCountDescending(sorted) && multiset(sorted) == multiset(list)
  {
    sorted := [];
    var i := 0;
    while i < |list|
      invariant i <= |list|
      invariant ByCountDescending(sorted) && multiset(sorted) == multiset(list[..i])
    {
      assert list[..i + 1] == list[..i] + [list[i]];
      InsertByCountAdds(sorted, list[i]);
      sorted := InsertByCount(sorted, list[i]);
      i := i + 1;
    }
    assert list[..i] == list;
  }

  /** Strictly increasing. */
  ghost predicate Ascending(s: seq<int>) {
    forall a, b :: 0 <= a < b < |s| ==> s[a] < s[b]
  }

  /** `indices` are the positions of the set flags, in ascending order. */
  ghost predicate ListsSelected(selected: seq<bool>, indices: seq<int>) {
    (forall i :: i in indices <==> 0 <= i < |selected| && selected[i]) &&
    Ascending(indices)
  }

  /** In an ascending list the head is the least element, and the tail holds all the others. */
  lemma AscendingHead(s: seq<int>, x: int)
    requires Ascending(s) && x in s
    ensures s[0] <= x
    ensures x in s[1..] <==> x != s[0]
  {
    var k :| 0 <= k < |s| && s[k] == x;
    if k > 0 {
      assert s[1..][k - 1] == x;
    }
    if x in s[1..] {
      var j :| 0 <= j < |s| - 1 && s[1..][j] == x;
      assert s[j + 1] == x;
    }
  }

  /** Only one ascending list names a given set of positions. */
  lemma {:induction false} AscendingUnique(a: seq<int>, b: seq<int>)
    requires forall x :: x in a <==> x in b
    requires Ascending(a) && Ascending(b)
    ensures a == b
    decreases |a| + |b|
  {
    assert a != [] ==> a[0] in a && a[0] in b;
    assert b != [] ==> b[0] in b && b[0] in a;
    if a != [] && b != [] {
      AscendingTails(a, b);
      AscendingUnique(a[1..], b[1..]);
      assert a == [a[0]] + a[1..] && b == [b[0]] + b[1..];
    }
  }

  /** Two nonempty ascending lists with the same elements have the same head, and their tails have the same elements. */
  lemma AscendingTails(a: seq<int>, b: seq<int>)
    requires forall x :: x in a <==> x in b
    requires Ascending(a) && Ascending(b) && a != [] && b != []
    ensures a[0] == b[0] && Ascending(a[1..]) && Ascending(b[1..])
    ensures forall x :: x in a[1..] <==> x in b[1..]
  {
    assert a[0] in a && b[0] in b;
    AscendingHead(a, b[0]);
    AscendingHead(b, a[0]);
    forall x | x in a[1..] || x in b[1..] ensures x in a[1..] && x in b[1..] {
      assert x in a && x in b;
      AscendingHead(a, x);
      AscendingHead(b, x);
    }
  }

  /** The file-selection state of the importing page. */
  class FileSelectionPanel {
    const fileNames: seq<string>
    var selected: seq<bool>
    var fileSelection: seq<int>
    var extensions: seq<ExtensionCount>

    ghost predicate Valid()
      reads this
    {
      |selected| == |fileNames|
    }

    constructor (fileNames: seq<string>, fileSelection: seq<int>)
      ensures this.fileNames == fileNames && this.fileSelection == fileSelection
      ensures Valid() && extensions == [] && forall i :: 0 <= i < |fileNames| ==> !selected[i]
    {
      this.fileNames := fileNames;
      this.fileSelection := fileSelection;
      selected := seq(|fileNames|, _ => false);
      extensions := [];
    }

    /**
     * Tabulates the extensions of the files and sets the flags from the
     * server's selection: a file is flagged exactly when the selection
     * lists it.
     */
    method PrepareData()
      requires forall k :: 0 <= k < |fileSelection| ==> 0 <= fileSelection[k] < |fileNames|
      modifies this`selected, this`extensions
      ensures Valid()
      ensures forall i :: 0 <= i < |fileNames| ==> (selected[i] <==> i in fileSelection)
      ensures ByCountDescending(extensions) && multiset(extensions) == multiset(HistogramOf(fileNames))
    {
      var flags: seq<bool> := [];
      var i := 0;
      while i < |fileNames|
        invariant i <= |fileNames| && |flags| == i && forall j :: 0 <= j < i ==> !flags[j]
      {
        flags := flags + [false];
        i := i + 1;
      }
      var list := Tabulate(Extensions(fileNames));
      assert list == HistogramOf(fileNames);
      i := 0;
      while i < |fileSelection|
        invariant i <= |fileSelection| && |flags| == |fileNames|
        invariant forall j :: 0 <= j < |fileNames| ==> (flags[j] <==> j in fileSelection[..i])
      {
        assert fileSelection[..i + 1] == fileSelection[..i] + [fileSelection[i]];
        flags := flags[fileSelection[i] := true];
        i := i + 1;
      }
      assert fileSelection[..i] == fileSelection;
      selected := flags;
      extensions := SortByCount(list);
    }

    /** Rebuilds the selection list from the flags: the flagged positions, ascending. */
    method UpdateFileSelectionSummary()
      requires Valid()
      modifies this`fileSelection
      ensures ListsSelected(selected, fileSelection)
    {
      var indices: seq<int> := [];
      var i := 0;
      while i < |selected|
        invariant i <= |selected|
        invariant forall x :: x in indices <==> 0 <= x < i && selected[x]
        invariant forall a, b :: 0 <= a < b < |indices| ==> indices[a] < indices[b]
        invariant forall a :: 0 <= a < |indices| ==> indices[a] < i
      {
        if selected[i] {
          indices := indices + [i];
        }
        i := i + 1;
      }
      fileSelection := indices;
    }

    /** "Select" for an extension: flags every file whose name ends with it, and clears no flag. */
    method SelectExtension(extension: string)
      requires Valid()
      modifies this`selected, this`fileSelection
      ensures Valid()
      ensures forall i :: 0 <= i < |fileNames| ==> (selected[i] <==> old(selected[i]) || EndsWith(fileNames[i], extension))
      ensures ListsSelected(selected, fileSelection)
    {
      var i := 0;
      while i < |fileNames|
        invariant i <= |fileNames| && |selected| == |fileNames|
        invariant forall j :: 0 <= j < i ==> (selected[j] <==> old(selected[j]) || EndsWith(fileNames[j], extension))
        invariant forall j :: i <= j < |fileNames| ==> selected[j] == old(selected[j])
      {
        if !selected[i] {
          if EndsWith(fileNames[i], extension) {
            selected := selected[i := true];
          }
        }
        i := i + 1;
      }
      UpdateFileSelectionSummary();
    }

    /** "Unselect" for an extension: clears the flag of every file whose name ends with it, and sets no flag. */
    method UnselectExtension(extension: string)
      requires Valid()
      modifies this`selected, this`fileSelection
      ensures Valid()
      ensures forall i :: 0 <= i < |fileNames| ==> (selected[i] <==> old(selected[i]) && !EndsWith(fileNames[i], extension))
      ensures ListsSelected(selected, fileSelection)
    {
      var i := 0;
      while i < |fileNames|
        invariant i <= |fileNames| && |selected| == |fileNames|
        invariant forall j :: 0 <= j < i ==> (selected[j] <==> old(selected[j]) && !EndsWith(fileNames[j], extension))
        invariant forall j :: i <= j < |fileNames| ==> selected[j] == old(selected[j])
      {
        if selected[i] {
          if EndsWith(fileNames[i], extension) {
            selected := selected[i := false];
          }
        }
        i := i + 1;
      }
      UpdateFileSelectionSummary();
    }

    /** "Select all" (`flag` true) or "Unselect all" (`flag` false): every flag set alike. */
    method SetAll(flag: bool)
      requires Valid()
      modifies this`selected, this`fileSelection
      ensures Valid() && forall i :: 0 <= i < |fileNames| ==> selected[i] == flag
      ensures ListsSelected(selected, fileSelection)
      ensures flag ==> |fileSelection| == |fileNames| && forall i :: 0 <= i < |fileNames| ==> fileSelection[i] == i
      ensures !flag ==> fileSelection == []
    {
      var i := 0;
      while i < |fileNames|
        invariant i <= |fileNames| && |selected| == |fileNames|
        invariant forall j :: 0 <= j < i ==> selected[j] == flag
      {
        selected := selected[i := flag];
        i := i + 1;
      }
      UpdateFileSelectionSummary();
      if flag {
        AllPositions(selected, fileSelection);
      } else {
        AscendingUnique(fileSelection, []);
      }
    }
  }

  /** With every flag set, the ascending list of flagged positions is 0, 1, ..., n-1. */
  lemma AllPositions(selected: seq<bool>, indices: seq<int>)
    requires ListsSelected(selected, indices) && forall i :: 0 <= i < |selected| ==> selected[i]
    ensures |indices| == |selected| && forall i :: 0 <= i < |selected| ==> indices[i] == i
  {
    var all := seq(|selected|, i requires 0 <= i < |selected| => i);
    forall x ensures x in indices <==> x in all {
      if 0 <= x < |selected| {
        assert all[x] == x;
      }
    }
    AscendingUnique(indices, all);
  }

  /**
   * Flags set from an ascending selection list give back that same list:
   * the panel hands the server's selection back unchanged until the user
   * changes a flag.
   */
  lemma SelectionRoundTrip(n: nat, selection: seq<int>, selected: seq<bool>, summary: seq<int>)
    requires Ascending(selection)
    requires forall k :: 0 <= k < |selection| ==> 0 <= selection[k] < n
    requires |selected| == n && forall i :: 0 <= i < n ==> (selected[i] <==> i in selection)
    requires ListsSelected(selected, summary)
    ensures summary == selection
  {
    AscendingUnique(summary, selection);
  }
}
